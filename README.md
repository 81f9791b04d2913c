# Timing server stopwatch — Dafny model

A model of the named-stopwatch service in `timing_server/src/main.rs`: a
small HTTP server that answers `/now` with the nanoseconds since it
started, `/start?name=X` by starting a timer called `X`, and
`/stop?name=X` with the nanoseconds since `X` was started. Timers 30
seconds old or more are swept before every request that is not `/now`.

Modules:

- `Wrappers` (`wrappers.dfy`): the `Option` type.
- `NameExtraction` (`name_extraction.dfy`): `extract_name`, i.e.
  `url.split("name=").nth(1)`. `Split` models Rust's `str::split` on the
  literal "name=", `Join` is its inverse, `ExtractName` takes the second
  piece. The name runs from the first "name=" to the next "name=" or the
  end of the URL. It does not stop at `&`, and it also matches inside a
  longer key such as `username=`.
- `Decimal` (`decimal.dfy`): the decimal text that `format!("{}", n)`
  gives for a nanosecond count, with its inverse `DecimalValue`.
- `Timers` (`timers.dfy`): `TimerEntry`, the `MAX_TIMER_AGE_SECS` sweep
  (`Swept`, `Registry.Cleanup`), and the registry class whose `Start`
  and `Stop` are the map insert and remove of the two routes.
- `TimingServer` (`server.dfy`): the per-request dispatch. `Respond` is
  the pure meaning of one request. `Server.Handle` performs it on the
  registry. The lemmas state each route's behaviour and the behaviour of
  start/stop sequences.

Instants are `nat` nanosecond counts that the caller passes in. Rust's
`Instant::elapsed` and `duration_since` return zero when the start is
later than the current reading, so `Timers.Elapsed` subtracts with a
floor at zero. Because of that, no operation needs a precondition on the
clock. Only the multi-request lemmas assume readings in time order.

A name is not cut at `&`, and it does not always run to the end of the
URL: `split(..).nth(1)` stops at a second `name=`
(`ExtractNameStopsAtSecondKey`).

## Model

| member | source | states |
|---|---|---|
| NameExtraction.FindKey | timing_server/src/main.rs:71 | finds the leftmost occurrence of "name=" (an occurrence at the returned index, none before it), or none exactly when the URL contains no "name=" |
| NameExtraction.KeyOccurrencesApart | timing_server/src/main.rs:71 | two occurrences of "name=" never overlap, so splitting on it is unambiguous |
| NameExtraction.Split | timing_server/src/main.rs:71 | `str::split("name=")` yields at least one piece, and exactly one when the URL contains no "name="; `JoinSplit` and `SplitJoin` show it is inverse to joining with "name=" |
| NameExtraction.JoinSplit | timing_server/src/main.rs:71 | joining the pieces of `split("name=")` back together with "name=" gives the URL, and no piece contains "name=" |
| NameExtraction.SplitJoin | timing_server/src/main.rs:71 | splitting the join of "name="-free pieces gives back exactly those pieces |
| NameExtraction.SplitAfterKeyFree | timing_server/src/main.rs:71 | the split of `p + "name=" + t`, with `p` free of "name=", is `p` followed by the split of `t` |
| NameExtraction.PrefixBeforeFirstKey | timing_server/src/main.rs:71 | the text before the first "name=" contains no "name=" |
| NameExtraction.ExtractName | timing_server/src/main.rs:70-72 | `extract_name` (`split("name=").nth(1)`) returns `None` exactly when "name=" does not occur in the URL; `ExtractNameParts` and `ExtractNameOf` characterise the name it returns |
| NameExtraction.ExtractNameParts | timing_server/src/main.rs:70-72 | a found name splits the URL into a "name="-free prefix, the first "name=", the name (itself free of "name="), and a rest that is empty or starts with "name=" |
| NameExtraction.ExtractNameOf | timing_server/src/main.rs:70-72 | conversely, every URL of that shape yields exactly that name, so the decomposition characterises the result |
| NameExtraction.ExtractNameKeepsAmpersand | timing_server/src/main.rs:70-72 | `/stop?name=a&x=1` yields `a&x=1`: the name is not cut at `&` |
| NameExtraction.ExtractNameInsideLongerKey | timing_server/src/main.rs:70-72 | `/start?username=bob` yields `bob`: the match fires inside a longer key |
| NameExtraction.ExtractNameStopsAtSecondKey | timing_server/src/main.rs:70-72 | `/start?name=a&name=b` yields `a&`: the name ends at a second "name=" |
| NameExtraction.NoKeyWithoutN | timing_server/src/main.rs:71 | a string without the letter `n` cannot contain "name=" |
| Decimal.NatToDecimal | timing_server/src/main.rs:31-50 | `format!("{}", n)` gives a non-empty digit string without a leading zero; `RenderCanonical` and `ParseCanonical` show it is inverse to reading the digits back |
| Decimal.RenderCanonical | timing_server/src/main.rs:31 | the rendered number is a non-empty digit string without a leading zero that reads back as the same number |
| Decimal.ParseCanonical | timing_server/src/main.rs:50 | every such digit string is the rendering of the number it denotes, so rendering and reading are inverse |
| Decimal.RenderInjective | timing_server/src/main.rs:50 | different elapsed times give different bodies |
| Decimal.RenderNotSentinel | timing_server/src/main.rs:31-58 | a rendered number is never "-1" or "unknown" |
| Timers.Elapsed | timing_server/src/main.rs:30-76 | `elapsed()` / `duration_since` in nanoseconds: the time from `start` to `now`, or zero when `now` is not later (the standard library saturates) |
| Timers.IsLive | timing_server/src/main.rs:76 | the `retain` test on the whole-second age (`as_secs() < 30`) holds exactly when the age is under 30 * 10^9 ns |
| Timers.Swept | timing_server/src/main.rs:74-77 | after the sweep an entry is present exactly when it was present and is younger than 30 s; survivors keep their start instants; no key is added |
| Timers.SweptIdempotent | timing_server/src/main.rs:74-77 | sweeping twice at the same instant gives the same map as sweeping once |
| Timers.SweptLater | timing_server/src/main.rs:74-77 | a sweep at a later instant subsumes an earlier one, and the later survivors are a subset of the earlier ones |
| Timers.Registry.constructor | timing_server/src/main.rs:17 | the registry starts empty |
| Timers.Registry.Cleanup | timing_server/src/main.rs:74-77 | `cleanup_stale_timers` keeps exactly the entries younger than 30 s at `now`, unchanged |
| Timers.Registry.Start | timing_server/src/main.rs:38-41 | the insert maps the name to a timer started now, replacing any earlier one; every other entry is unchanged |
| Timers.Registry.Stop | timing_server/src/main.rs:48-53 | the remove returns the elapsed time of a running timer and deletes only that key, or returns nothing and changes nothing |
| TimingServer.Respond | timing_server/src/main.rs:28-63 | one request: `/now` leaves the registry as it was, and any other request adds no key except the name it extracted; the route lemmas below give each route's body and registry |
| TimingServer.RoutesExclusive | timing_server/src/main.rs:28-46 | a URL starting with `/start` starts with neither `/now` nor `/stop`, and one starting with `/stop` starts with neither `/now` nor `/start` |
| TimingServer.NowReply | timing_server/src/main.rs:28-31 | `/now` answers the canonical decimal of `now - origin` and leaves the registry untouched, with no sweep |
| TimingServer.NowMonotone | timing_server/src/main.rs:29-31 | successive `/now` readings never decrease |
| TimingServer.StartReply | timing_server/src/main.rs:33-42 | `/start` with a name answers "0"; the registry becomes the swept one with the name started now, replacing any earlier timer of that name |
| TimingServer.StopReply | timing_server/src/main.rs:46-50 | `/stop` of a timer present after the sweep answers the canonical decimal of its elapsed time, which is under 30 s when measured at the instant of the sweep, and removes only that key |
| TimingServer.MissingReply | timing_server/src/main.rs:36-56 | `/start` or `/stop` without "name=", or `/stop` of a name absent after the sweep, answers "-1" and leaves the swept registry |
| TimingServer.UnknownReply | timing_server/src/main.rs:57-58 | any other URL answers "unknown" but still sweeps |
| TimingServer.BodyKinds | timing_server/src/main.rs:28-59 | every body is "0", "-1", "unknown" or a canonical decimal, and the sentinels "-1" and "unknown" are not decimals |
| TimingServer.OtherTimersUntouched | timing_server/src/main.rs:33-59 | a request that does not start or stop `k` leaves `k` exactly as the sweep left it |
| TimingServer.StaleTimerEvicted | timing_server/src/main.rs:33-34 | a timer 30 s old or more is gone after any request other than `/now`, unless that request starts it again |
| TimingServer.StartThenStop | timing_server/src/main.rs:36-53 | start then stop within 30 s answers "0", then the nanoseconds between them; a repeated stop answers "-1" |
| TimingServer.RestartMeasuresFromLast | timing_server/src/main.rs:36-53 | starting a name twice discards the first timer: the stop measures from the second start |
| TimingServer.StaleStopMisses | timing_server/src/main.rs:33-56 | a stop 30 s or more after the start answers "-1" |
| TimingServer.Server.constructor | timing_server/src/main.rs:16-17 | the origin is fixed once at start-up and the registry starts empty |
| TimingServer.Server.Handle | timing_server/src/main.rs:26-63 | one request changes the registry and returns the body exactly as `Respond` prescribes |

## Left out

- Network I/O: binding `127.0.0.1:9876` and its `expect` failure, iterating requests, building and sending the response (`main.rs:4`, `:15`, `:25-26`, `:65-66`). These go through the external `tiny_http` library.
- The start-up banner printed to the console (`main.rs:19-23`).
- `Arc<Mutex<…>>` and `OnceLock` (`main.rs:8`, `:16-17`, `:33`, `:61`). Requests are handled one at a time in the loop, so the lock is not modelled. The origin is a constant field set by the constructor, so the `unwrap` of `SERVER_START.get()` (`:29`) cannot fail. The `unwrap` of a poisoned lock (`:33`) cannot happen without concurrency.
- The real `Instant` clock: instants are caller-supplied nanosecond counts.
- TimingServer.Server.Handle: uses one instant for the whole request. The source reads the clock twice per request: for the sweep (`:75`), then for the start instant (`:39`) or the elapsed time (`:49`).
- TimingServer.StopReply: its bound "elapsed time under 30 s" holds because the sweep and the elapsed time use the same instant. In the source they are separate clock readings (`:75` and `:49`), so a timer that survives the sweep just under 30 s old can report 30 * 10^9 ns or slightly more.
- Decimal.RenderCanonical: integers are unbounded. `as_nanos` returns a `u128`, which cannot overflow for any realistic uptime, so its width is not modelled.
- `bundle.js` and the `luabundle` files. They are a build script and type declarations unrelated to the timing server.
