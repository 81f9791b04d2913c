/**
 * The request dispatcher of timing_server/src/main.rs: the body of the
 * `for request in server.incoming_requests()` loop, which picks a route
 * by URL prefix (`/now`, then `/start`, then `/stop`), sweeps the
 * registry for every route but `/now`, and answers with a plain-text body.
 *
 * `Respond` is the pure meaning of one request; `Server.Handle` performs
 * it on the shared registry. The lemmas state what the routes promise,
 * one request and several requests in a row.
 */
module TimingServer {
  import opened Wrappers
  import opened NameExtraction
  import opened Decimal
  import opened Timers

  const NowRoute: string := "/now"
  const StartRoute: string := "/start"
  const StopRoute: string := "/stop"

  /** The body of a successful `/start`. */
  const StartedBody: string := "0"
  /** The body of a `/start` or `/stop` without a name, or a `/stop` of a timer that is not running. */
  const MissingBody: string := "-1"
  /** The body of any other route. */
  const UnknownBody: string := "unknown"

  /** Rust's `str::starts_with`. */
  predicate StartsWith(s: string, prefix: string) {
    |prefix| <= |s| && s[..|prefix|] == prefix
  }

  /** The registry after a request, and the body sent back. */
  datatype Reply = Reply(timers: map<string, TimerEntry>, body: string)

  /**
   * One request at instant `now`, against the registry `timers`, for a
   * server whose clock origin is `origin`.
   */
  function Respond(origin: nat, timers: map<string, TimerEntry>, url: string, now: nat): (r: Reply)
    ensures StartsWith(url, NowRoute) ==> r.timers == timers
    ensures !StartsWith(url, NowRoute) ==>
      forall k :: k in r.timers ==> k in Swept(timers, now) || ExtractName(url) == Some(k)
  {
    if StartsWith(url, NowRoute) then
      Reply(timers, NatToDecimal(Elapsed(origin, now)))
    else
      var swept := Swept(timers, now);
      if StartsWith(url, StartRoute) then
        match ExtractName(url)
        case Some(name) => Reply(swept[name := TimerEntry(now)], StartedBody)
        case None => Reply(swept, MissingBody)
      else if StartsWith(url, StopRoute) then
        match ExtractName(url)
        case Some(name) =>
          if name in swept then Reply(swept - {name}, NatToDecimal(Elapsed(swept[name].start, now)))
          else Reply(swept, MissingBody)
        case None => Reply(swept, MissingBody)
      else
        Reply(swept, UnknownBody)
  }

  /** The three route prefixes exclude one another, so the order of the checks does not change which route a URL takes. */
  lemma RoutesExclusive(url: string)
    ensures StartsWith(url, StartRoute) ==> !StartsWith(url, NowRoute) && !StartsWith(url, StopRoute)
    ensures StartsWith(url, StopRoute) ==> !StartsWith(url, NowRoute) && !StartsWith(url, StartRoute)
  {
    if StartsWith(url, StartRoute) {
      assert url[1] == url[..|StartRoute|][1] == 's';
      assert url[3] == url[..|StartRoute|][3] == 'a';
    }
    if StartsWith(url, StopRoute) {
      assert url[1] == url[..|StopRoute|][1] == 's';
      assert url[3] == url[..|StopRoute|][3] == 'o';
    }
  }

  /**
   * `/now` answers the canonical decimal of the nanoseconds since the
   * origin and leaves the registry alone: no sweep.
   */
  lemma NowReply(origin: nat, timers: map<string, TimerEntry>, url: string, now: nat)
    requires StartsWith(url, NowRoute)
    ensures Respond(origin, timers, url, now).timers == timers
    ensures IsCanonical(Respond(origin, timers, url, now).body)
    ensures DecimalValue(Respond(origin, timers, url, now).body) == Elapsed(origin, now)
  {
    RenderCanonical(Elapsed(origin, now));
  }

  /** Successive `/now` readings never go backwards. */
  lemma NowMonotone(origin: nat, timers: map<string, TimerEntry>, url: string, earlier: nat, later: nat)
    requires StartsWith(url, NowRoute) && earlier <= later
    ensures var before, after := Respond(origin, timers, url, earlier).body, Respond(origin, timers, url, later).body;
      IsCanonical(before) && IsCanonical(after) && DecimalValue(before) <= DecimalValue(after)
  {
    NowReply(origin, timers, url, earlier);
    NowReply(origin, timers, url, later);
  }

  /**
   * `/start` with a name answers "0"; the registry becomes the swept one
   * with `name` started at `now`, replacing any earlier timer of that name.
   */
  lemma StartReply(origin: nat, timers: map<string, TimerEntry>, url: string, now: nat, name: string)
    requires StartsWith(url, StartRoute) && ExtractName(url) == Some(name)
    ensures Respond(origin, timers, url, now) == Reply(Swept(timers, now)[name := TimerEntry(now)], StartedBody)
  {
    RoutesExclusive(url);
  }

  /**
   * `/stop` of a timer still running after the sweep answers the
   * canonical decimal of its elapsed time, which is under 30 seconds,
   * and removes that timer only.
   */
  lemma StopReply(origin: nat, timers: map<string, TimerEntry>, url: string, now: nat, name: string)
    requires StartsWith(url, StopRoute) && ExtractName(url) == Some(name)
    requires name in Swept(timers, now)
    ensures Respond(origin, timers, url, now).timers == Swept(timers, now) - {name}
    ensures IsCanonical(Respond(origin, timers, url, now).body)
    ensures DecimalValue(Respond(origin, timers, url, now).body) == Elapsed(timers[name].start, now) < MaxTimerAgeNanos
  {
    RoutesExclusive(url);
    RenderCanonical(Elapsed(timers[name].start, now));
  }

  /**
   * `/start` or `/stop` without "name=", and `/stop` of a timer that is
   * not running after the sweep, answer "-1" and only sweep.
   */
  lemma MissingReply(origin: nat, timers: map<string, TimerEntry>, url: string, now: nat)
    requires StartsWith(url, StartRoute) || StartsWith(url, StopRoute)
    requires ExtractName(url).None? || (StartsWith(url, StopRoute) && ExtractName(url).value !in Swept(timers, now))
    ensures Respond(origin, timers, url, now) == Reply(Swept(timers, now), MissingBody)
  {
    RoutesExclusive(url);
  }

  /** Any other URL answers "unknown", but still sweeps. */
  lemma UnknownReply(origin: nat, timers: map<string, TimerEntry>, url: string, now: nat)
    requires !StartsWith(url, NowRoute) && !StartsWith(url, StartRoute) && !StartsWith(url, StopRoute)
    ensures Respond(origin, timers, url, now) == Reply(Swept(timers, now), UnknownBody)
  {
  }

  /**
   * Every body is "0", "-1", "unknown" or a canonical decimal, and a
   * decimal is never mistaken for "-1" or "unknown".
   */
  lemma BodyKinds(origin: nat, timers: map<string, TimerEntry>, url: string, now: nat)
    ensures var body := Respond(origin, timers, url, now).body;
      body == StartedBody || body == MissingBody || body == UnknownBody || IsCanonical(body)
    ensures !IsCanonical(MissingBody) && !IsCanonical(UnknownBody)
  {
    var body := Respond(origin, timers, url, now).body;
    if StartsWith(url, NowRoute) {
      RenderCanonical(Elapsed(origin, now));
    } else if StartsWith(url, StopRoute) && ExtractName(url).Some? && ExtractName(url).value in Swept(timers, now) {
      var name := ExtractName(url).value;
      RenderCanonical(Elapsed(Swept(timers, now)[name].start, now));
    }
    assert !IsDigit(MissingBody[0]) && !IsDigit(UnknownBody[0]);
  }

  /**
   * A request that is not `/now` and does not start `k` leaves `k` as
   * the sweep left it: requests on other names never touch it.
   */
  lemma OtherTimersUntouched(origin: nat, timers: map<string, TimerEntry>, url: string, now: nat, k: string)
    requires !StartsWith(url, NowRoute) && ExtractName(url) != Some(k)
    ensures var after := Respond(origin, timers, url, now).timers;
      (k in after <==> k in Swept(timers, now)) && (k in after ==> after[k] == timers[k])
  {
  }

  /**
   * Once a timer is 30 seconds old, the next request other than `/now`
   * evicts it, unless that request starts it afresh.
   */
  lemma StaleTimerEvicted(origin: nat, timers: map<string, TimerEntry>, url: string, now: nat, k: string)
    requires !StartsWith(url, NowRoute)
    requires !(StartsWith(url, StartRoute) && ExtractName(url) == Some(k))
    requires k in timers && Elapsed(timers[k].start, now) >= MaxTimerAgeNanos
    ensures k !in Respond(origin, timers, url, now).timers
  {
  }

  /**
   * Start then stop within 30 seconds: the stop answers the nanoseconds
   * between them, and a second stop of the same name answers "-1".
   */
  lemma StartThenStop(origin: nat, timers: map<string, TimerEntry>, startUrl: string, stopUrl: string,
                      name: string, t1: nat, t2: nat, t3: nat)
    requires StartsWith(startUrl, StartRoute) && ExtractName(startUrl) == Some(name)
    requires StartsWith(stopUrl, StopRoute) && ExtractName(stopUrl) == Some(name)
    requires t1 <= t2 < t1 + MaxTimerAgeNanos
    ensures var r1 := Respond(origin, timers, startUrl, t1);
      var r2 := Respond(origin, r1.timers, stopUrl, t2);
      && r1.body == StartedBody
      && r2.body == NatToDecimal(t2 - t1)
      && Respond(origin, r2.timers, stopUrl, t3).body == MissingBody
  {
    var r1 := Respond(origin, timers, startUrl, t1);
    StartReply(origin, timers, startUrl, t1, name);
    assert name in Swept(r1.timers, t2);
    StopReply(origin, r1.timers, stopUrl, t2, name);
    var r2 := Respond(origin, r1.timers, stopUrl, t2);
    MissingReply(origin, r2.timers, stopUrl, t3);
  }

  /** Starting a name twice discards the first timer: the stop measures from the second start. */
  lemma RestartMeasuresFromLast(origin: nat, timers: map<string, TimerEntry>, startUrl: string, stopUrl: string,
                                name: string, t1: nat, t2: nat, t3: nat)
    requires StartsWith(startUrl, StartRoute) && ExtractName(startUrl) == Some(name)
    requires StartsWith(stopUrl, StopRoute) && ExtractName(stopUrl) == Some(name)
    requires t1 <= t2 <= t3 < t2 + MaxTimerAgeNanos
    ensures var r1 := Respond(origin, timers, startUrl, t1);
      var r2 := Respond(origin, r1.timers, startUrl, t2);
      Respond(origin, r2.timers, stopUrl, t3).body == NatToDecimal(t3 - t2)
  {
    var r1 := Respond(origin, timers, startUrl, t1);
    StartReply(origin, r1.timers, startUrl, t2, name);
    var r2 := Respond(origin, r1.timers, startUrl, t2);
    assert name in Swept(r2.timers, t3);
    StopReply(origin, r2.timers, stopUrl, t3, name);
  }

  /** A timer left running for 30 seconds or more is gone: its stop answers "-1". */
  lemma StaleStopMisses(origin: nat, timers: map<string, TimerEntry>, startUrl: string, stopUrl: string,
                        name: string, t1: nat, t2: nat)
    requires StartsWith(startUrl, StartRoute) && ExtractName(startUrl) == Some(name)
    requires StartsWith(stopUrl, StopRoute) && ExtractName(stopUrl) == Some(name)
    requires t1 + MaxTimerAgeNanos <= t2
    ensures Respond(origin, Respond(origin, timers, startUrl, t1).timers, stopUrl, t2).body == MissingBody
  {
    var r1 := Respond(origin, timers, startUrl, t1);
    StartReply(origin, timers, startUrl, t1, name);
    assert name !in Swept(r1.timers, t2);
    MissingReply(origin, r1.timers, stopUrl, t2);
  }

  /** The server: the clock origin, fixed at start-up, and the shared registry. */
  class Server {
    const origin: nat
    const registry: Registry

    /** Start-up: capture the origin once and begin with no timers. */
    constructor (origin: nat)
      ensures this.origin == origin && fresh(registry) && registry.timers == map[]
    {
      this.origin := origin;
      registry := new Registry();
    }

    /** Serve one request at instant `now`: update the registry and return the response body. */
    method Handle(url: string, now: nat) returns (body: string)
      modifies registry
      ensures Reply(registry.timers, body) == Respond(origin, old(registry.timers), url, now)
    {
      if StartsWith(url, NowRoute) {
        body := NatToDecimal(Elapsed(origin, now));
      } else {
        registry.Cleanup(now);
        if StartsWith(url, StartRoute) {
          match ExtractName(url)
          case Some(name) =>
            registry.Start(name, now);
            body := StartedBody;
          case None =>
            body := MissingBody;
        } else if StartsWith(url, StopRoute) {
          match ExtractName(url)
          case Some(name) =>
            var elapsed := registry.Stop(name, now);
            match elapsed {
              case Some(nanos) => body := NatToDecimal(nanos);
              case None => body := MissingBody;
            }
          case None =>
            body := MissingBody;
        } else {
          body := UnknownBody;
        }
      }
    }
  }
}
