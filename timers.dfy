/**
 * The named-timer registry of timing_server/src/main.rs: a map from
 * timer name to `TimerEntry`, the staleness sweep `cleanup_stale_timers`,
 * and the insert and remove that the `/start` and `/stop` routes perform.
 *
 * Instants are nanosecond counts of a monotonic clock, passed in by the
 * caller instead of read from `Instant::now()`.
 */
module Timers {
  import opened Wrappers

  /** `MAX_TIMER_AGE_SECS`: entries this many whole seconds old are swept. */
  const MaxTimerAgeSecs: nat := 30
  const NanosPerSec: nat := 1_000_000_000
  /** The same bound in nanoseconds. */
  const MaxTimerAgeNanos: nat := MaxTimerAgeSecs * NanosPerSec

  /** One running stopwatch: the instant it was started. */
  datatype TimerEntry = TimerEntry(start: nat)

  /**
   * `now.duration_since(start)` (and `start.elapsed()`) in nanoseconds.
   * The standard library saturates to zero when `start` is later than
   * `now`, which a monotonic clock never produces.
   */
  function Elapsed(start: nat, now: nat): (d: nat)
    ensures start <= now ==> start + d == now
    ensures now <= start ==> d == 0
  {
    if start <= now then now - start else 0
  }

  /**
   * The `retain` condition: the entry's age, truncated to whole seconds
   * by `as_secs`, is under `MaxTimerAgeSecs`. Truncation does not move
   * the boundary: this is the same as an age under 30 * 10^9 ns.
   */
  function IsLive(e: TimerEntry, now: nat): (live: bool)
    ensures live <==> Elapsed(e.start, now) < MaxTimerAgeNanos
  {
    Elapsed(e.start, now) / NanosPerSec < MaxTimerAgeSecs
  }

  /** The registry after `cleanup_stale_timers` at instant `now`. */
  function Swept(m: map<string, TimerEntry>, now: nat): (r: map<string, TimerEntry>)
    ensures forall k :: k in r <==> k in m && Elapsed(m[k].start, now) < MaxTimerAgeNanos
    ensures forall k :: k in r ==> r[k] == m[k]
  {
    map k | k in m && IsLive(m[k], now) :: m[k]
  }

  /** Sweeping twice at the same instant removes nothing more. */
  lemma SweptIdempotent(m: map<string, TimerEntry>, now: nat)
    ensures Swept(Swept(m, now), now) == Swept(m, now)
  {
  }

  /** A later sweep subsumes an earlier one: entries only grow older. */
  lemma SweptLater(m: map<string, TimerEntry>, earlier: nat, later: nat)
    requires earlier <= later
    ensures Swept(Swept(m, earlier), later) == Swept(m, later)
    ensures Swept(m, later).Keys <= Swept(m, earlier).Keys
  {
  }

  /** The registry shared by all requests (the map behind the mutex). */
  class Registry {
    var timers: map<string, TimerEntry>

    constructor ()
      ensures timers == map[]
    {
      timers := map[];
    }

    /**
     * `cleanup_stale_timers`: keep exactly the entries younger than
     * 30 seconds at `now`, with their start instants unchanged.
     */
    method Cleanup(now: nat)
      modifies this
      ensures timers == Swept(old(timers), now)
      ensures forall k :: k in timers <==> k in old(timers) && Elapsed(old(timers)[k].start, now) < MaxTimerAgeNanos
      ensures forall k :: k in timers ==> timers[k] == old(timers)[k]
    {
      timers := Swept(timers, now);
    }

    /** The insert of `/start`: `name` now maps to a timer started at `now`, replacing any earlier one. */
    method Start(name: string, now: nat)
      modifies this
      ensures timers == old(timers)[name := TimerEntry(now)]
      ensures timers.Keys == old(timers).Keys + {name}
      ensures forall k :: k in timers && k != name ==> timers[k] == old(timers)[k]
    {
      timers := timers[name := TimerEntry(now)];
    }

    /**
     * The remove of `/stop`: if `name` is running, remove it and report
     * its elapsed time at `now`; otherwise report nothing and change nothing.
     */
    method Stop(name: string, now: nat) returns (elapsed: Option<nat>)
      modifies this
      ensures name in old(timers) ==> elapsed == Some(Elapsed(old(timers)[name].start, now))
      ensures name !in old(timers) ==> elapsed == None
      ensures timers == old(timers) - {name}
    {
      if name in timers {
        elapsed := Some(Elapsed(timers[name].start, now));
        timers := timers - {name};
      } else {
        elapsed := None;
      }
    }
  }
}
