/** The sliding-window limiter in front of the planning loop. */
module RateLimit {
  import opened Wrappers

  const WINDOW := 60

  /** Unsigned subtraction that stops at zero. */
  function SatSub(a: nat, b: nat): nat { if a >= b then a - b else 0 }

  /** The timestamps that lie at or after `start`, in order. */
  function Since(ts: seq<nat>, start: nat): (r: seq<nat>)
    ensures |r| <= |ts| && forall t :: t in r <==> t in ts && t >= start
  {
    if ts == [] then []
    else
      var rest := Since(ts[..|ts| - 1], start);
      assert forall t :: t in ts <==> t in ts[..|ts| - 1] || t == ts[|ts| - 1];
      if ts[|ts| - 1] >= start then rest + [ts[|ts| - 1]] else rest
  }

  function Least(ts: seq<nat>): (m: nat)
    requires ts != []
    ensures m in ts && forall t | t in ts :: m <= t
  {
    if |ts| == 1 then ts[0]
    else
      var m := Least(ts[..|ts| - 1]);
      assert forall t :: t in ts <==> t in ts[..|ts| - 1] || t == ts[|ts| - 1];
      if ts[|ts| - 1] < m then ts[|ts| - 1] else m
  }

  function RetryAfter(ts: seq<nat>, now: nat): nat
    requires ts != []
  {
    var wait := SatSub(Least(ts) + WINDOW, now);
    if wait < 1 then 1 else wait
  }

  /** One call at time `now` on a file that holds `file`: the decision and the new file. */
  function Call(file: seq<nat>, max: nat, now: nat): (seq<nat>, Result<(), nat>)
    requires max >= 1
  {
    var inWindow := Since(file, SatSub(now, WINDOW));
    if |inWindow| >= max then (file, Err(RetryAfter(inWindow, now)))
    else (inWindow + [now], Ok(()))
  }

  class RateLimiter {
    const maxPerMinute: nat
    var file: seq<nat>

    ghost predicate Valid() { maxPerMinute >= 1 }

    constructor (max: nat)
      requires max >= 1
      ensures maxPerMinute == max && file == [] && Valid()
    {
      maxPerMinute := max;
      file := [];
    }

    /** `readable` says whether the file could be read: one that cannot counts as empty, and is overwritten.
        `persisted` says whether the new file could be written; the call is allowed either way. */
    method CheckAndConsume(now: nat, readable: bool, persisted: bool) returns (r: Result<(), nat>)
      requires Valid()
      modifies this
      ensures var seen := if readable then old(file) else [];
              && Valid() && r == Call(seen, maxPerMinute, now).1
              && file == if persisted && r.Ok? then Call(seen, maxPerMinute, now).0 else old(file)
      ensures !readable ==> r.Ok?
      ensures !readable && persisted ==> file == [now]
    {
      var windowStart := SatSub(now, WINDOW);
      var inWindow := Since(if readable then file else [], windowStart);
      if |inWindow| >= maxPerMinute {
        r := Err(RetryAfter(inWindow, now));
        return;
      }
      if persisted {
        file := inWindow + [now];
      }
      r := Ok(());
    }
  }

  // ----- Whole runs -----

  /** The calls that a run of persisted calls accepts, oldest first. */
  function Accepted(max: nat, calls: seq<nat>): (log: seq<nat>)
    requires max >= 1
  {
    if calls == [] then []
    else
      var n := |calls| - 1;
      var log := Accepted(max, calls[..n]);
      if Call(FileAfter(max, calls[..n]), max, calls[n]).1.Ok? then log + [calls[n]] else log
  }

  /** The file after a run of persisted calls on an empty file. */
  function FileAfter(max: nat, calls: seq<nat>): seq<nat>
    requires max >= 1
  {
    if calls == [] then []
    else
      var n := |calls| - 1;
      Call(FileAfter(max, calls[..n]), max, calls[n]).0
  }

  ghost predicate Ascending(ts: seq<nat>) {
    forall i, j | 0 <= i < j < |ts| :: ts[i] <= ts[j]
  }

  lemma SinceSnoc(ts: seq<nat>, t: nat, start: nat)
    ensures Since(ts + [t], start) == if t >= start then Since(ts, start) + [t] else Since(ts, start)
  {
    assert (ts + [t])[..|ts|] == ts;
  }

  /** The number of timestamps in the closed window [lo, hi]. */
  function Within(ts: seq<nat>, lo: nat, hi: nat): nat {
    if ts == [] then 0
    else Within(ts[..|ts| - 1], lo, hi) + if lo <= ts[|ts| - 1] <= hi then 1 else 0
  }

  ghost predicate Below(ts: seq<nat>, hi: nat) { forall i | 0 <= i < |ts| :: ts[i] <= hi }

  lemma RunSnoc(max: nat, calls: seq<nat>, now: nat)
    requires max >= 1
    ensures var (file, r) := Call(FileAfter(max, calls), max, now);
            && FileAfter(max, calls + [now]) == file
            && Accepted(max, calls + [now]) == if r.Ok? then Accepted(max, calls) + [now] else Accepted(max, calls)
  {
    assert (calls + [now])[..|calls|] == calls;
  }

  lemma WithinSnoc(ts: seq<nat>, t: nat, lo: nat, hi: nat)
    ensures Within(ts + [t], lo, hi) == Within(ts, lo, hi) + if lo <= t <= hi then 1 else 0
  {
    assert (ts + [t])[..|ts|] == ts;
  }

  // ----- The bound, and the clocks that keep it -----

  /** The limit holds in every closed window of 60 seconds. */
  ghost predicate BoundKept(max: nat, calls: seq<nat>)
    requires max >= 1
  {
    forall at: nat :: Within(Accepted(max, calls), SatSub(at, WINDOW), at) <= max
  }

  /** The clock showed a time, then one more than a window later, then one within a window of the first. */
  predicate Returns(ts: seq<nat>, i: nat, j: nat, k: nat) {
    i < j < k < |ts| && ts[j] > ts[i] + WINDOW && ts[k] <= ts[i] + WINDOW && ts[i] <= ts[k] + WINDOW
  }

  ghost predicate NoReturn(ts: seq<nat>) { forall i: nat, j: nat, k: nat :: !Returns(ts, i, j, k) }

  lemma AscendingNeverReturns(ts: seq<nat>)
    requires Ascending(ts)
    ensures NoReturn(ts)
  {
    forall i: nat, j: nat, k: nat ensures !Returns(ts, i, j, k) {
      assert j < k < |ts| ==> ts[j] <= ts[k];
    }
  }

  lemma {:induction false} SinceKeepsWindow(ts: seq<nat>, start: nat, lo: nat, hi: nat)
    requires forall t | t in ts && lo <= t <= hi :: t >= start
    ensures Within(Since(ts, start), lo, hi) == Within(ts, lo, hi)
  {
    if ts != [] {
      var rest, t := ts[..|ts| - 1], ts[|ts| - 1];
      assert ts == rest + [t];
      assert t in ts && forall x | x in rest :: x in ts;
      SinceKeepsWindow(rest, start, lo, hi);
      WithinSnoc(Since(rest, start), t, lo, hi);
    }
  }

  lemma {:induction false} WithinAtMost(ts: seq<nat>, start: nat, lo: nat, hi: nat)
    requires start <= lo
    ensures Within(ts, lo, hi) <= |Since(ts, start)|
  {
    if ts != [] {
      WithinAtMost(ts[..|ts| - 1], start, lo, hi);
    }
  }

  lemma {:induction false} FileHoldsCalls(max: nat, calls: seq<nat>)
    requires max >= 1
    ensures forall t | t in FileAfter(max, calls) :: t in calls
  {
    if calls != [] {
      var rest, t := calls[..|calls| - 1], calls[|calls| - 1];
      assert calls == rest + [t];
      FileHoldsCalls(max, rest);
    }
  }

  /** A call drops nothing that lies in a window of a later call. */
  lemma NothingOfWindowDropped(calls: seq<nat>, file: seq<nat>, n: nat, k: nat, lo: nat, hi: nat)
    requires NoReturn(calls) && n < k < |calls| && lo <= calls[k] <= hi <= lo + WINDOW
    requires forall t | t in file :: t in calls[..n]
    ensures forall t | t in file && lo <= t <= hi :: t >= SatSub(calls[n], WINDOW)
  {
    forall t | t in file && lo <= t <= hi ensures t >= SatSub(calls[n], WINDOW) {
      var i :| 0 <= i < |calls[..n]| && calls[..n][i] == t;
      assert !Returns(calls, i, n, k);
    }
  }

  lemma RunStep(max: nat, calls: seq<nat>, n: nat)
    requires max >= 1 && n < |calls|
    ensures var log := Accepted(max, calls[..n]);
            var (file', r) := Call(FileAfter(max, calls[..n]), max, calls[n]);
            && FileAfter(max, calls[..n + 1]) == file'
            && Accepted(max, calls[..n + 1]) == if r.Ok? then log + [calls[n]] else log
  {
    assert calls[..n + 1] == calls[..n] + [calls[n]];
    RunSnoc(max, calls[..n], calls[n]);
  }

  /** Before call `k` the file has every accepted call of every window around it. */
  lemma {:induction false} FileKeepsWindow(max: nat, calls: seq<nat>, n: nat, k: nat, lo: nat, hi: nat)
    requires max >= 1 && NoReturn(calls) && n <= k < |calls| && lo <= calls[k] <= hi <= lo + WINDOW
    ensures Within(FileAfter(max, calls[..n]), lo, hi) == Within(Accepted(max, calls[..n]), lo, hi)
  {
    if n > 0 {
      var file, log := FileAfter(max, calls[..n - 1]), Accepted(max, calls[..n - 1]);
      FileKeepsWindow(max, calls, n - 1, k, lo, hi);
      FileHoldsCalls(max, calls[..n - 1]);
      NothingOfWindowDropped(calls, file, n - 1, k, lo, hi);
      CallKeepsWindow(max, file, log, calls[n - 1], lo, hi);
      RunStep(max, calls, n - 1);
    }
  }

  lemma CallKeepsWindow(max: nat, file: seq<nat>, log: seq<nat>, now: nat, lo: nat, hi: nat)
    requires max >= 1 && Within(file, lo, hi) == Within(log, lo, hi)
    requires forall t | t in file && lo <= t <= hi :: t >= SatSub(now, WINDOW)
    ensures var (file', r) := Call(file, max, now);
            Within(file', lo, hi) == Within(if r.Ok? then log + [now] else log, lo, hi)
  {
    SinceKeepsWindow(file, SatSub(now, WINDOW), lo, hi);
    WithinSnoc(Since(file, SatSub(now, WINDOW)), now, lo, hi);
    WithinSnoc(log, now, lo, hi);
  }

  lemma CallFits(max: nat, file: seq<nat>, log: seq<nat>, now: nat, lo: nat, hi: nat)
    requires max >= 1 && hi <= lo + WINDOW && Within(log, lo, hi) <= max
    requires lo <= now <= hi ==> Within(file, lo, hi) == Within(log, lo, hi)
    ensures Within(if Call(file, max, now).1.Ok? then log + [now] else log, lo, hi) <= max
  {
    WithinSnoc(log, now, lo, hi);
    if lo <= now <= hi {
      WithinAtMost(file, SatSub(now, WINDOW), lo, hi);
    }
  }

  lemma {:induction false} WindowFits(max: nat, calls: seq<nat>, n: nat, lo: nat, hi: nat)
    requires max >= 1 && NoReturn(calls) && n <= |calls| && hi <= lo + WINDOW
    ensures Within(Accepted(max, calls[..n]), lo, hi) <= max
  {
    if n > 0 {
      var now := calls[n - 1];
      WindowFits(max, calls, n - 1, lo, hi);
      if lo <= now <= hi { FileKeepsWindow(max, calls, n - 1, n - 1, lo, hi); }
      CallFits(max, FileAfter(max, calls[..n - 1]), Accepted(max, calls[..n - 1]), now, lo, hi);
      RunStep(max, calls, n - 1);
    }
  }

  /** A clock that never returns keeps the bound, for every limit and every instant. */
  lemma NoReturnKeepsBound(max: nat, calls: seq<nat>)
    requires max >= 1 && NoReturn(calls)
    ensures BoundKept(max, calls)
  {
    assert calls[..|calls|] == calls;
    forall at: nat ensures Within(Accepted(max, calls), SatSub(at, WINDOW), at) <= max {
      WindowFits(max, calls, |calls|, SatSub(at, WINDOW), at);
    }
  }

  /** In particular, for every run with a clock that does not run backwards, and every instant, at most
      `max` accepted calls lie in the closed window of 60 seconds that ends there. */
  lemma AtMostMaxPerWindow(max: nat, calls: seq<nat>, at: nat)
    requires max >= 1 && Ascending(calls)
    ensures Within(Accepted(max, calls), SatSub(at, WINDOW), at) <= max
  {
    AscendingNeverReturns(calls);
    NoReturnKeepsBound(max, calls);
  }

  // ----- A limit of one -----

  /** With a limit of one the file holds the last accepted call, and nothing accepted is later. */
  ghost predicate LastOnly(file: seq<nat>, log: seq<nat>) {
    if log == [] then file == [] else file == [log[|log| - 1]] && Below(log, log[|log| - 1])
  }

  lemma {:induction false} WithinNone(ts: seq<nat>, top: nat, lo: nat, hi: nat)
    requires Below(ts, top) && top < lo
    ensures Within(ts, lo, hi) == 0
  {
    if ts != [] {
      WithinNone(ts[..|ts| - 1], top, lo, hi);
    }
  }

  lemma SinceOne(t: nat, start: nat)
    ensures Since([t], start) == if t >= start then [t] else []
  {
    assert [t][..0] == [] && [] + [t] == [t];
  }

  lemma OneMoreAccepted(file: seq<nat>, log: seq<nat>, now: nat)
    requires LastOnly(file, log) && Call(file, 1, now).1.Ok?
    ensures Since(file, SatSub(now, WINDOW)) == [] && LastOnly([now], log + [now])
    ensures log != [] ==> log[|log| - 1] + WINDOW < now
  {
    if log != [] {
      SinceOne(log[|log| - 1], SatSub(now, WINDOW));
    }
  }

  lemma OneAccepted(file: seq<nat>, log: seq<nat>, now: nat, lo: nat, hi: nat)
    requires hi <= lo + WINDOW && LastOnly(file, log) && Within(log, lo, hi) <= 1 && Call(file, 1, now).1.Ok?
    ensures LastOnly(Call(file, 1, now).0, log + [now]) && Within(log + [now], lo, hi) <= 1
  {
    OneMoreAccepted(file, log, now);
    assert [] + [now] == [now];
    WithinSnoc(log, now, lo, hi);
    if log == [] {
      assert Within(log, lo, hi) == 0;
    } else if lo <= now <= hi {
      WithinNone(log, log[|log| - 1], lo, hi);
    }
  }

  lemma OneCall(file: seq<nat>, log: seq<nat>, file': seq<nat>, log': seq<nat>, now: nat, lo: nat, hi: nat)
    requires hi <= lo + WINDOW && LastOnly(file, log) && Within(log, lo, hi) <= 1
    requires file' == Call(file, 1, now).0 && log' == if Call(file, 1, now).1.Ok? then log + [now] else log
    ensures LastOnly(file', log') && Within(log', lo, hi) <= 1
  {
    if Call(file, 1, now).1.Ok? {
      OneAccepted(file, log, now, lo, hi);
    }
  }

  lemma {:induction false} OneAtATime(calls: seq<nat>, n: nat, lo: nat, hi: nat)
    requires hi <= lo + WINDOW && n <= |calls|
    ensures LastOnly(FileAfter(1, calls[..n]), Accepted(1, calls[..n])) && Within(Accepted(1, calls[..n]), lo, hi) <= 1
  {
    if n > 0 {
      OneAtATime(calls, n - 1, lo, hi);
      RunStep(1, calls, n - 1);
      OneCall(FileAfter(1, calls[..n - 1]), Accepted(1, calls[..n - 1]),
              FileAfter(1, calls[..n]), Accepted(1, calls[..n]), calls[n - 1], lo, hi);
    }
  }

  /** A limit of one call is kept under every clock. */
  lemma OneIsAlwaysKept(calls: seq<nat>)
    ensures BoundKept(1, calls)
  {
    forall at: nat ensures Within(Accepted(1, calls), SatSub(at, WINDOW), at) <= 1 {
      assert calls[..|calls|] == calls;
      OneAtATime(calls, |calls|, SatSub(at, WINDOW), at);
    }
  }

  // ----- A clock that returns -----

  function Repeat(t: nat, n: nat): (ts: seq<nat>)
    ensures |ts| == n && forall i | 0 <= i < n :: ts[i] == t
  {
    seq(n, _ => t)
  }

  lemma RepeatSnoc(t: nat, n: nat)
    ensures Repeat(t, n + 1) == Repeat(t, n) + [t]
  {
  }

  lemma {:induction false} SinceRepeat(t: nat, n: nat, start: nat)
    ensures Since(Repeat(t, n), start) == if t >= start then Repeat(t, n) else []
  {
    if n > 0 {
      RepeatSnoc(t, n - 1);
      SinceRepeat(t, n - 1, start);
      SinceSnoc(Repeat(t, n - 1), t, start);
    }
  }

  lemma {:induction false} WithinRepeat(t: nat, n: nat, lo: nat, hi: nat)
    requires lo <= t <= hi
    ensures Within(Repeat(t, n), lo, hi) == n
  {
    if n > 0 {
      RepeatSnoc(t, n - 1);
      WithinRepeat(t, n - 1, lo, hi);
      WithinSnoc(Repeat(t, n - 1), t, lo, hi);
    }
  }

  lemma {:induction false} CallsAtOnce(max: nat, t: nat, n: nat)
    requires max >= 1 && n <= max
    ensures FileAfter(max, Repeat(t, n)) == Repeat(t, n) && Accepted(max, Repeat(t, n)) == Repeat(t, n)
  {
    if n > 0 {
      CallsAtOnce(max, t, n - 1);
      RepeatSnoc(t, n - 1);
      SinceRepeat(t, n - 1, SatSub(t, WINDOW));
      RunSnoc(max, Repeat(t, n - 1), t);
    }
  }

  /** `max` calls at `a`, one at `b`, one at `c`. */
  function ReturningRun(max: nat, a: nat, b: nat, c: nat): seq<nat> { Repeat(a, max) + [b] + [c] }

  /** When `b` is more than a window after `a` and `c` is within a window of `a`, all of them are accepted:
      the call at `b` made the file forget those at `a`. */
  lemma ReturningRunAccepted(max: nat, a: nat, b: nat, c: nat)
    requires max >= 2 && b > a + WINDOW && c <= a + WINDOW
    ensures Accepted(max, ReturningRun(max, a, b, c)) == ReturningRun(max, a, b, c)
  {
    CallsAtOnce(max, a, max);
    SinceRepeat(a, max, SatSub(b, WINDOW));
    AcceptOneMore(max, Repeat(a, max), Repeat(a, max), b);
    assert [] + [b] == [b];
    SinceOne(b, SatSub(c, WINDOW));
    AcceptOneMore(max, Repeat(a, max) + [b], [b], c);
  }

  /** A call with room in its window, after a run that accepted everything. */
  lemma AcceptOneMore(max: nat, calls: seq<nat>, file: seq<nat>, now: nat)
    requires max >= 1 && FileAfter(max, calls) == file && Accepted(max, calls) == calls
    requires |Since(file, SatSub(now, WINDOW))| < max
    ensures FileAfter(max, calls + [now]) == Since(file, SatSub(now, WINDOW)) + [now]
    ensures Accepted(max, calls + [now]) == calls + [now]
  {
    RunSnoc(max, calls, now);
  }

  /** Then one window holds more accepted calls than the limit. */
  lemma ReturnBreaksTheBound(max: nat, a: nat, b: nat, c: nat)
    requires max >= 2 && b > a + WINDOW && c <= a + WINDOW && a <= c + WINDOW
    ensures var at := if a >= c then a else c;
            Within(Accepted(max, ReturningRun(max, a, b, c)), SatSub(at, WINDOW), at) == max + 1
    ensures !BoundKept(max, ReturningRun(max, a, b, c))
  {
    var at := if a >= c then a else c;
    var lo := SatSub(at, WINDOW);
    ReturningRunAccepted(max, a, b, c);
    WithinRepeat(a, max, lo, at);
    WithinSnoc(Repeat(a, max), b, lo, at);
    WithinSnoc(Repeat(a, max) + [b], c, lo, at);
  }

  // ----- The exact condition -----

  /** The calls are made at readings of the clock, in their order, any number of them at each reading. */
  ghost predicate MadeAt(calls: seq<nat>, clock: seq<nat>, at: seq<nat>) {
    && |at| == |calls|
    && (forall i | 0 <= i < |calls| :: at[i] < |clock| && calls[i] == clock[at[i]])
    && (forall i, j | 0 <= i < j < |calls| :: at[i] <= at[j])
  }

  /** Whoever calls, and however often, the bound is kept. */
  ghost predicate SafeClock(max: nat, clock: seq<nat>)
    requires max >= 1
  {
    forall calls, at | MadeAt(calls, clock, at) :: BoundKept(max, calls)
  }

  lemma CallsReturnLess(calls: seq<nat>, clock: seq<nat>, at: seq<nat>)
    requires NoReturn(clock) && MadeAt(calls, clock, at)
    ensures NoReturn(calls)
  {
    forall i: nat, j: nat, k: nat ensures !Returns(calls, i, j, k) {
      if i < j < k < |calls| {
        assert !Returns(clock, at[i], at[j], at[k]);
      }
    }
  }

  lemma ReturningRunIsMade(max: nat, clock: seq<nat>, i: nat, j: nat, k: nat)
    requires i < j < k < |clock|
    ensures MadeAt(ReturningRun(max, clock[i], clock[j], clock[k]), clock, Repeat(i, max) + [j] + [k])
  {
  }

  /** The limit is kept on a clock, whatever the calls, exactly when it is one or the clock never returns. */
  lemma BoundKeptExactly(max: nat, clock: seq<nat>)
    requires max >= 1
    ensures SafeClock(max, clock) <==> max == 1 || NoReturn(clock)
  {
    forall calls, at | MadeAt(calls, clock, at) && (max == 1 || NoReturn(clock)) ensures BoundKept(max, calls) {
      if max == 1 {
        OneIsAlwaysKept(calls);
      } else {
        CallsReturnLess(calls, clock, at);
        NoReturnKeepsBound(max, calls);
      }
    }
    if max >= 2 && !NoReturn(clock) {
      var i: nat, j: nat, k: nat :| Returns(clock, i, j, k);
      ReturningRunIsMade(max, clock, i, j, k);
      ReturnBreaksTheBound(max, clock[i], clock[j], clock[k]);
    }
  }

  /** The bound holds for every run, whatever the clock does, exactly for a limit of one. */
  lemma OnlyOneIsAlwaysKept(max: nat)
    requires max >= 1
    ensures (forall calls :: BoundKept(max, calls)) <==> max == 1
  {
    if max == 1 {
      forall calls ensures BoundKept(1, calls) {
        OneIsAlwaysKept(calls);
      }
    } else {
      ReturnBreaksTheBound(max, 100, 200, 100);
    }
  }

  /** A witness: two calls a window, and a clock that shows 100, 100, 200 and 100 again. */
  lemma BackwardClockBreaksTheBound()
    ensures Within(Accepted(2, [100, 100, 200, 100]), 40, 100) == 3
  {
    assert ReturningRun(2, 100, 200, 100) == [100, 100, 200, 100];
    ReturnBreaksTheBound(2, 100, 200, 100);
  }

  // ----- Compaction -----

  /** The file of a limiter that never drops a timestamp. */
  function LogAfter(max: nat, calls: seq<nat>): seq<nat>
    requires max >= 1
  {
    if calls == [] then []
    else
      var n := |calls| - 1;
      var log := LogAfter(max, calls[..n]);
      if Call(log, max, calls[n]).1.Ok? then log + [calls[n]] else log
  }

  /** The limiter that compacts its file gives call `n` the result that the one that drops nothing gives. */
  ghost predicate SameResult(max: nat, calls: seq<nat>, n: nat)
    requires max >= 1
  {
    n < |calls| ==>
      Call(FileAfter(max, calls[..n]), max, calls[n]).1 == Call(LogAfter(max, calls[..n]), max, calls[n]).1
  }

  ghost predicate SameResults(max: nat, calls: seq<nat>)
    requires max >= 1
  {
    forall n: nat :: SameResult(max, calls, n)
  }

  /** The clock showed a time, then one more than a window later, and then one from which the first is
      still in the window. */
  predicate Forgets(ts: seq<nat>, i: nat, j: nat, k: nat) {
    i < j < k < |ts| && ts[j] > ts[i] + WINDOW && ts[k] <= ts[i] + WINDOW
  }

  ghost predicate NeverForgets(ts: seq<nat>) { forall i: nat, j: nat, k: nat :: !Forgets(ts, i, j, k) }

  /** Filtering by a start that drops nothing of a later window does not show in that window. */
  lemma {:induction false} SinceSince(ts: seq<nat>, a: nat, b: nat)
    requires forall t | t in ts && t >= b :: t >= a
    ensures Since(Since(ts, a), b) == Since(ts, b)
  {
    if ts != [] {
      var rest, t := ts[..|ts| - 1], ts[|ts| - 1];
      assert ts == rest + [t];
      assert t in ts && forall x | x in rest :: x in ts;
      SinceSince(rest, a, b);
      SinceSnoc(Since(rest, a), t, b);
    }
  }

  lemma NothingForgotten(calls: seq<nat>, file: seq<nat>, n: nat, k: nat)
    requires NeverForgets(calls) && n < k < |calls| && forall t | t in file :: t in calls[..n]
    ensures forall t | t in file && t >= SatSub(calls[k], WINDOW) :: t >= SatSub(calls[n], WINDOW)
  {
    forall t | t in file && t >= SatSub(calls[k], WINDOW) ensures t >= SatSub(calls[n], WINDOW) {
      var i :| 0 <= i < |calls[..n]| && calls[..n][i] == t;
      assert !Forgets(calls, i, n, k);
    }
  }

  /** One call keeps file and log alike in the window that starts at `b`. */
  lemma CallKeepsAlike(max: nat, file: seq<nat>, log: seq<nat>, now: nat, b: nat)
    requires max >= 1 && Since(file, b) == Since(log, b)
    requires Call(file, max, now).1 == Call(log, max, now).1
    requires forall t | t in file && t >= b :: t >= SatSub(now, WINDOW)
    ensures Since(Call(file, max, now).0, b) == Since(if Call(log, max, now).1.Ok? then log + [now] else log, b)
  {
    SinceSince(file, SatSub(now, WINDOW), b);
    SinceSnoc(Since(file, SatSub(now, WINDOW)), now, b);
    SinceSnoc(log, now, b);
  }

  lemma LogStep(max: nat, calls: seq<nat>, n: nat)
    requires max >= 1 && n < |calls|
    ensures var log := LogAfter(max, calls[..n]);
            LogAfter(max, calls[..n + 1]) == if Call(log, max, calls[n]).1.Ok? then log + [calls[n]] else log
  {
    assert calls[..n + 1][..n] == calls[..n];
  }

  lemma AlikeDecides(max: nat, file: seq<nat>, log: seq<nat>, now: nat)
    requires max >= 1 && Since(file, SatSub(now, WINDOW)) == Since(log, SatSub(now, WINDOW))
    ensures Call(file, max, now).1 == Call(log, max, now).1
  {
  }

  /** Before call `k` file and log agree on the window that call `k` looks at. */
  /** After `n` calls the file and the log hold the same timestamps of the window before call `k`. */
  ghost predicate AlikeFor(max: nat, calls: seq<nat>, n: nat, k: nat)
    requires max >= 1 && n <= k < |calls|
  {
    var b := SatSub(calls[k], WINDOW);
    Since(FileAfter(max, calls[..n]), b) == Since(LogAfter(max, calls[..n]), b)
  }

  lemma NextAlike(max: nat, calls: seq<nat>, n: nat, k: nat)
    requires max >= 1 && NeverForgets(calls) && n < k < |calls|
    requires AlikeFor(max, calls, n, k) && AlikeFor(max, calls, n, n)
    ensures AlikeFor(max, calls, n + 1, k)
  {
    var file, log := FileAfter(max, calls[..n]), LogAfter(max, calls[..n]);
    AlikeDecides(max, file, log, calls[n]);
    FileHoldsCalls(max, calls[..n]);
    NothingForgotten(calls, file, n, k);
    CallKeepsAlike(max, file, log, calls[n], SatSub(calls[k], WINDOW));
    RunStep(max, calls, n);
    LogStep(max, calls, n);
  }

  lemma {:induction false} FileLooksLikeLog(max: nat, calls: seq<nat>, n: nat, k: nat)
    requires max >= 1 && NeverForgets(calls) && n <= k < |calls|
    ensures AlikeFor(max, calls, n, k)
    decreases n
  {
    if n == 0 {
      assert calls[..0] == [];
    } else {
      FileLooksLikeLog(max, calls, n - 1, k);
      FileLooksLikeLog(max, calls, n - 1, n - 1);
      NextAlike(max, calls, n - 1, k);
    }
  }

  lemma NeverForgetsDecidesAlike(max: nat, calls: seq<nat>)
    requires max >= 1 && NeverForgets(calls)
    ensures SameResults(max, calls)
  {
    forall n: nat ensures SameResult(max, calls, n) {
      if n < |calls| {
        FileLooksLikeLog(max, calls, n, n);
        AlikeDecides(max, FileAfter(max, calls[..n]), LogAfter(max, calls[..n]), calls[n]);
      }
    }
  }

  lemma {:induction false} LogAtOnce(max: nat, t: nat, n: nat)
    requires max >= 1 && n <= max
    ensures LogAfter(max, Repeat(t, n)) == Repeat(t, n)
  {
    if n > 0 {
      LogAtOnce(max, t, n - 1);
      RepeatSnoc(t, n - 1);
      SinceRepeat(t, n - 1, SatSub(t, WINDOW));
      assert Repeat(t, n)[..n - 1] == Repeat(t, n - 1);
    }
  }

  /** The log before the last call of a returning run still has the calls that the file forgot. */
  lemma LogRemembers(max: nat, a: nat, b: nat)
    requires max >= 1 && b > a + WINDOW
    ensures LogAfter(max, Repeat(a, max) + [b]) == Repeat(a, max) + [b]
    ensures FileAfter(max, Repeat(a, max) + [b]) == [b]
  {
    LogAtOnce(max, a, max);
    CallsAtOnce(max, a, max);
    SinceRepeat(a, max, SatSub(b, WINDOW));
    assert (Repeat(a, max) + [b])[..max] == Repeat(a, max);
    assert [] + [b] == [b];
  }

  lemma LeastOfRun(a: nat, n: nat, b: nat)
    requires n > 0 && a <= b
    ensures Least(Repeat(a, n) + [b]) == a
  {
    var ts := Repeat(a, n) + [b];
    assert ts[0] == a && a in ts;
    assert forall i | 0 <= i < |ts| :: ts[i] == a || ts[i] == b;
  }

  lemma LogRefuses(max: nat, a: nat, b: nat, c: nat)
    requires max >= 1 && b > a + WINDOW && c <= a + WINDOW
    ensures Call(Repeat(a, max) + [b], max, c).1 == Err(if a + WINDOW > c then a + WINDOW - c else 1)
  {
    var start := SatSub(c, WINDOW);
    SinceRepeat(a, max, start);
    SinceSnoc(Repeat(a, max), b, start);
    LeastOfRun(a, max, b);
  }

  lemma FileForgot(max: nat, b: nat, c: nat)
    requires max >= 1 && c < b
    ensures Call([b], max, c).1 == if max == 1 then Err(b + WINDOW - c) else Ok(())
  {
    SinceOne(b, SatSub(c, WINDOW));
    assert Least([b]) == b;
  }

  /** A call that comes back to the forgotten ones is told something else than the log would tell it. */
  lemma ForgettingShows(max: nat, a: nat, b: nat, c: nat)
    requires max >= 1 && b > a + WINDOW && c <= a + WINDOW
    ensures !SameResult(max, ReturningRun(max, a, b, c), max + 1)
  {
    assert ReturningRun(max, a, b, c)[..max + 1] == Repeat(a, max) + [b];
    LogRemembers(max, a, b);
    LogRefuses(max, a, b, c);
    FileForgot(max, b, c);
  }

  /** Whoever calls, and however often, compaction does not show. */
  ghost predicate CompactionHidden(max: nat, clock: seq<nat>)
    requires max >= 1
  {
    forall calls, at | MadeAt(calls, clock, at) :: SameResults(max, calls)
  }

  lemma CallsForgetLess(calls: seq<nat>, clock: seq<nat>, at: seq<nat>)
    requires NeverForgets(clock) && MadeAt(calls, clock, at)
    ensures NeverForgets(calls)
  {
    forall i: nat, j: nat, k: nat ensures !Forgets(calls, i, j, k) {
      if i < j < k < |calls| {
        assert !Forgets(clock, at[i], at[j], at[k]);
      }
    }
  }

  /** Whatever the calls, the limiter that compacts its file gives every call the result of one that keeps all
      accepted calls for ever, exactly when the clock never forgets. */
  lemma CompactionHiddenExactly(max: nat, clock: seq<nat>)
    requires max >= 1
    ensures CompactionHidden(max, clock) <==> NeverForgets(clock)
  {
    if NeverForgets(clock) {
      forall calls, at | MadeAt(calls, clock, at) ensures SameResults(max, calls) {
        CallsForgetLess(calls, clock, at);
        NeverForgetsDecidesAlike(max, calls);
      }
    } else {
      var i: nat, j: nat, k: nat :| Forgets(clock, i, j, k);
      ReturningRunIsMade(max, clock, i, j, k);
      ForgettingShows(max, clock[i], clock[j], clock[k]);
      assert !SameResults(max, ReturningRun(max, clock[i], clock[j], clock[k]));
    }
  }

  /** In particular, with a clock that does not run backwards compaction is invisible. */
  lemma CompactionIsInvisible(max: nat, calls: seq<nat>)
    requires max >= 1 && Ascending(calls)
    ensures SameResults(max, calls)
  {
    forall i: nat, j: nat, k: nat ensures !Forgets(calls, i, j, k) {
      assert j < k < |calls| ==> calls[j] <= calls[k];
    }
    NeverForgetsDecidesAlike(max, calls);
  }

  /** A witness: after two calls at 100 and one at 200, a call at 100 again is accepted on the compacted file
      and refused on the full one. */
  lemma BackwardClockShowsCompaction()
    ensures Call(FileAfter(2, [100, 100, 200]), 2, 100).1.Ok? && Call(LogAfter(2, [100, 100, 200]), 2, 100).1.Err?
  {
    assert Repeat(100, 2) + [200] == [100, 100, 200];
    LogRemembers(2, 100, 200);
    SinceRepeat(100, 2, 40);
    SinceSnoc(Repeat(100, 2), 200, 40);
    SinceOne(200, 40);
  }

  // ----- When a refused caller may come back -----

  lemma {:induction false} OldestLeaves(ts: seq<nat>, a: nat, b: nat)
    requires a <= b && exists t :: t in ts && a <= t < b
    ensures |Since(ts, b)| < |Since(ts, a)|
  {
    var rest, last := ts[..|ts| - 1], ts[|ts| - 1];
    if exists t :: t in rest && a <= t < b {
      OldestLeaves(rest, a, b);
    } else {
      SinceShrinks(rest, a, b);
    }
  }

  lemma {:induction false} SinceShrinks(ts: seq<nat>, a: nat, b: nat)
    requires a <= b
    ensures |Since(ts, b)| <= |Since(ts, a)|
  {
    if ts != [] {
      SinceShrinks(ts[..|ts| - 1], a, b);
    }
  }

  lemma {:induction false} NothingLeaves(ts: seq<nat>, a: nat, b: nat)
    requires a <= b && forall i | 0 <= i < |ts| && ts[i] >= a :: ts[i] >= b
    ensures Since(ts, b) == Since(ts, a)
  {
    if ts != [] {
      NothingLeaves(ts[..|ts| - 1], a, b);
    }
  }

  /** The file of a run never holds more than `max` timestamps of a window that a call can look at. */
  lemma {:induction false} FileIsBounded(max: nat, calls: seq<nat>)
    requires max >= 1
    ensures |FileAfter(max, calls)| <= max
  {
    if calls != [] {
      FileIsBounded(max, calls[..|calls| - 1]);
    }
  }

  /** After a refusal with nothing else happening, every call up to `oldest + 60` is refused as well, and
      the call at `oldest + 61` is accepted. */
  lemma RefusalLasts(max: nat, calls: seq<nat>, now: nat, later: nat)
    requires max >= 1 && now <= later
    requires Call(FileAfter(max, calls), max, now).1.Err?
    ensures var file := FileAfter(max, calls);
            var oldest := Least(Since(file, SatSub(now, WINDOW)));
            && (later <= oldest + WINDOW ==> Call(file, max, later).1.Err?)
            && (later == oldest + WINDOW + 1 ==> Call(file, max, later).1.Ok?)
  {
    var file := FileAfter(max, calls);
    var start, start' := SatSub(now, WINDOW), SatSub(later, WINDOW);
    var oldest := Least(Since(file, start));
    FileIsBounded(max, calls);
    if later <= oldest + WINDOW {
      forall i | 0 <= i < |file| && file[i] >= start ensures file[i] >= start' {
        assert file[i] in Since(file, start);
      }
      NothingLeaves(file, start, start');
    } else if later == oldest + WINDOW + 1 {
      OldestLeaves(file, start, start');
    }
  }

  /** What a refusal reports. */
  lemma ReportedWait(file: seq<nat>, max: nat, now: nat)
    requires max >= 1 && Call(file, max, now).1.Err?
    ensures var inWindow := Since(file, SatSub(now, WINDOW));
            && inWindow != [] && Least(inWindow) + WINDOW >= now
            && Call(file, max, now).1.error ==
               if Least(inWindow) + WINDOW > now then Least(inWindow) + WINDOW - now else 1
  {
    var inWindow := Since(file, SatSub(now, WINDOW));
    assert Least(inWindow) in inWindow;
  }

  /** Waiting for the reported time is enough exactly when the oldest call is 60 seconds old already;
      otherwise the report is one second short. */
  lemma RetryAfterIsShort(max: nat, calls: seq<nat>, now: nat)
    requires max >= 1
    requires Call(FileAfter(max, calls), max, now).1.Err?
    ensures var file := FileAfter(max, calls);
            var oldest := Least(Since(file, SatSub(now, WINDOW)));
            var wait := Call(file, max, now).1.error;
            && wait >= 1
            && (Call(file, max, now + wait).1.Ok? <==> oldest + WINDOW <= now)
            && (oldest + WINDOW > now ==> Call(file, max, now + wait + 1).1.Ok?)
  {
    var file := FileAfter(max, calls);
    ReportedWait(file, max, now);
    var oldest := Least(Since(file, SatSub(now, WINDOW)));
    var wait := Call(file, max, now).1.error;
    if oldest + WINDOW > now {
      assert now + wait == oldest + WINDOW;
      RefusalLasts(max, calls, now, oldest + WINDOW);
    } else {
      assert now + wait == oldest + WINDOW + 1;
    }
    RefusalLasts(max, calls, now, oldest + WINDOW + 1);
  }

  /** A witness: with one call a window and a call at 100, a second one at 100 is told to wait 60 seconds,
      is refused again after them, and accepted a second later. */
  lemma SixtySecondsAreNotEnough()
    ensures var file := FileAfter(1, [100]);
            && Call(file, 1, 100).1 == Err(60) && Call(file, 1, 160).1.Err? && Call(file, 1, 161).1.Ok?
  {
    CallsAtOnce(1, 100, 1);
    assert Repeat(100, 1) == [100];
    SinceOne(100, 40);
    SinceOne(100, 100);
    SinceOne(100, 101);
  }
}
