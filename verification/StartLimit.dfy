/** The sliding-window limit on scan starts: Start and pruneStarts in
    backend/internal/discovery/manager.go. Times and durations are integers. */
module StartLimit {
  datatype Outcome = Accepted | Limited(retryAfter: int) | Busy

  /** One call of Start: when, and whether a scan was running then. */
  datatype Call = Call(now: int, running: bool)

  /** The index of the first start time after the cutoff, from i on. */
  function FirstInside(starts: seq<int>, cutoff: int, i: nat): (k: nat)
    requires i <= |starts|
    ensures i <= k <= |starts|
    ensures forall x :: i <= x < k ==> starts[x] <= cutoff
    ensures k < |starts| ==> starts[k] > cutoff
    decreases |starts| - i
  {
    if i < |starts| && starts[i] <= cutoff then FirstInside(starts, cutoff, i + 1) else i
  }

  function Pruned(starts: seq<int>, now: int, window: int): seq<int> {
    starts[FirstInside(starts, now - window, 0)..]
  }

  /** What Start decides, and the start times it keeps. */
  function Decide(starts: seq<int>, max: nat, window: int, c: Call): (r: (seq<int>, Outcome))
    requires max > 0
  {
    if c.running then (starts, Busy)
    else
      var kept := Pruned(starts, c.now, window);
      if |kept| >= max then (kept, Limited(kept[0] + window - c.now))
      else (kept + [c.now], Accepted)
  }

  class Limiter {
    const max: nat
    const window: int
    var starts: seq<int>

    constructor (max: nat, window: int)
      ensures this.max == max && this.window == window && starts == []
    {
      this.max, this.window, starts := max, window, [];
    }

    method PruneStarts(now: int)
      modifies `starts
      ensures starts == Pruned(old(starts), now, window)
    {
      var cutoff := now - window;
      var i := 0;
      while i < |starts| && starts[i] <= cutoff
        invariant i <= |starts| && starts == old(starts)
        invariant FirstInside(starts, cutoff, 0) == FirstInside(starts, cutoff, i)
      {
        i := i + 1;
      }
      starts := starts[i..];
    }

    method Start(c: Call) returns (o: Outcome)
      requires max > 0
      modifies `starts
      ensures (starts, o) == Decide(old(starts), max, window, c)
    {
      if c.running {
        return Busy;
      }
      PruneStarts(c.now);
      if |starts| >= max {
        return Limited(starts[0] + window - c.now);
      }
      starts := starts + [c.now];
      return Accepted;
    }
  }

  // ------------------------------------------------------------- whole runs

  ghost predicate Clock(calls: seq<Call>) {
    forall i, j :: 0 <= i < j < |calls| ==> calls[i].now <= calls[j].now
  }

  /** The kept start times after a run, and the times of all accepted starts. */
  function After(max: nat, window: int, calls: seq<Call>): (r: (seq<int>, seq<int>))
    requires max > 0
  {
    if calls == [] then ([], [])
    else
      var n := |calls| - 1;
      var (starts, accepted) := After(max, window, calls[..n]);
      var (kept, o) := Decide(starts, max, window, calls[n]);
      (kept, if o.Accepted? then accepted + [calls[n].now] else accepted)
  }

  ghost predicate Ascending(s: seq<int>) { forall i, j :: 0 <= i < j < |s| ==> s[i] <= s[j] }

  /** Any max + 1 accepted starts in a row span at least the window. */
  ghost predicate Spaced(accepted: seq<int>, max: nat, window: int) {
    forall i, j :: 0 <= i < |accepted| && j == i + max && j < |accepted| ==> accepted[j] - accepted[i] >= window
  }

  /** What the manager keeps is the end of the accepted starts, and what it forgot is out of the window. */
  ghost predicate Tracks(starts: seq<int>, accepted: seq<int>, max: nat, window: int, now: int) {
    && |starts| <= max && |starts| <= |accepted|
    && starts == accepted[|accepted| - |starts|..]
    && Ascending(accepted)
    && (forall i :: 0 <= i < |accepted| ==> accepted[i] <= now)
    && (forall i :: 0 <= i < |accepted| - |starts| ==> accepted[i] <= now - window)
    && Spaced(accepted, max, window)
  }

  lemma PruneTracks(starts: seq<int>, accepted: seq<int>, max: nat, window: int, before: int, now: int)
    requires Tracks(starts, accepted, max, window, before) && before <= now
    ensures Tracks(Pruned(starts, now, window), accepted, max, window, now)
  {
    hide Spaced, Ascending;
    var k := FirstInside(starts, now - window, 0);
    var d := |accepted| - |starts|;
    assert starts[k..] == accepted[d + k..];
    forall i | 0 <= i < d + k ensures accepted[i] <= now - window {
      if i >= d {
        assert accepted[i] == starts[i - d];
      }
    }
  }

  lemma AcceptTracks(starts: seq<int>, accepted: seq<int>, max: nat, window: int, now: int)
    requires Tracks(starts, accepted, max, window, now) && |starts| < max
    ensures Tracks(starts + [now], accepted + [now], max, window, now)
  {
    var all, n := accepted + [now], |accepted|;
    var d := n - |starts|;
    assert starts + [now] == all[d..];
    forall i, j | 0 <= i < |all| && j == i + max && j < |all| ensures all[j] - all[i] >= window {
      if j == n {
        assert i < d;
      }
    }
  }

  lemma DecideTracks(starts: seq<int>, accepted: seq<int>, max: nat, window: int, before: int, c: Call)
    requires max > 0 && Tracks(starts, accepted, max, window, before) && before <= c.now
    ensures var (kept, o) := Decide(starts, max, window, c);
            Tracks(kept, if o.Accepted? then accepted + [c.now] else accepted, max, window, c.now)
  {
    hide Tracks, Pruned;
    if c.running {
      LaterTracks(starts, accepted, max, window, before, c.now);
    } else {
      PruneTracks(starts, accepted, max, window, before, c.now);
      var kept := Pruned(starts, c.now, window);
      if |kept| < max {
        AcceptTracks(kept, accepted, max, window, c.now);
      }
    }
  }

  lemma LaterTracks(starts: seq<int>, accepted: seq<int>, max: nat, window: int, before: int, now: int)
    requires Tracks(starts, accepted, max, window, before) && before <= now
    ensures Tracks(starts, accepted, max, window, now)
  {
    hide Spaced, Ascending;
  }

  lemma {:induction false} RunTracks(max: nat, window: int, calls: seq<Call>, now: int)
    requires max > 0 && Clock(calls) && forall i :: 0 <= i < |calls| ==> calls[i].now <= now
    ensures var (starts, accepted) := After(max, window, calls); Tracks(starts, accepted, max, window, now)
    decreases |calls|
  {
    hide Tracks, Decide;
    if calls == [] {
      NothingTracked(max, window, now);
    } else {
      var n := |calls| - 1;
      RunTracks(max, window, calls[..n], calls[n].now);
      var (starts, accepted) := After(max, window, calls[..n]);
      DecideTracks(starts, accepted, max, window, calls[n].now, calls[n]);
      var (kept, o) := Decide(starts, max, window, calls[n]);
      LaterTracks(kept, if o.Accepted? then accepted + [calls[n].now] else accepted, max, window, calls[n].now, now);
    }
  }

  lemma NothingTracked(max: nat, window: int, now: int)
    ensures Tracks([], [], max, window, now)
  {
  }

  /** How many times lie in the window that ends at t. */
  function CountIn(s: seq<int>, t: int, window: int): nat {
    if s == [] then 0
    else CountIn(s[..|s| - 1], t, window) + if t - window < s[|s| - 1] <= t then 1 else 0
  }

  lemma {:induction false} CountEarly(s: seq<int>, t: int, window: int)
    requires forall i :: 0 <= i < |s| ==> s[i] <= t - window
    ensures CountIn(s, t, window) == 0
  {
    if s != [] {
      CountEarly(s[..|s| - 1], t, window);
    }
  }

  lemma {:induction false} CountAtMost(s: seq<int>, t: int, window: int, max: nat)
    requires Ascending(s) && Spaced(s, max, window) && max > 0 && window > 0
    ensures CountIn(s, t, window) <= max
    decreases |s|
  {
    if s != [] {
      var n := |s| - 1;
      if t - window < s[n] <= t {
        CountTail(s, t, window, max);
      } else {
        assert Spaced(s[..n], max, window);
        CountAtMost(s[..n], t, window, max);
      }
    }
  }

  /** When the last element counts, only the last max elements can. */
  lemma CountTail(s: seq<int>, t: int, window: int, max: nat)
    requires s != [] && Ascending(s) && Spaced(s, max, window) && s[|s| - 1] <= t
    ensures CountIn(s, t, window) <= max
  {
    if |s| > max {
      var d := |s| - max;
      forall i | 0 <= i < d ensures s[i] <= t - window {
        assert s[i + max] - s[i] >= window;
        assert s[i + max] <= s[|s| - 1];
      }
      CountSplit(s, d, t, window);
      CountEarly(s[..d], t, window);
      CountLength(s[d..], t, window);
    } else {
      CountLength(s, t, window);
    }
  }

  lemma {:induction false} CountLength(s: seq<int>, t: int, window: int)
    ensures CountIn(s, t, window) <= |s|
  {
    if s != [] {
      CountLength(s[..|s| - 1], t, window);
    }
  }

  lemma {:induction false} CountSplit(s: seq<int>, d: nat, t: int, window: int)
    requires d <= |s|
    ensures CountIn(s, t, window) == CountIn(s[..d], t, window) + CountIn(s[d..], t, window)
    decreases |s|
  {
    if d < |s| {
      var n := |s| - 1;
      CountSplit(s[..n], d, t, window);
      assert s[..n][..d] == s[..d] && s[..n][d..] == s[d..][..n - d];
      assert s[d..][n - d] == s[n];
    } else {
      assert s[..d] == s && s[d..] == [];
    }
  }

  /** With a clock that never goes back, no window holds more than max accepted starts. */
  lemma WindowNeverOverfull(max: nat, window: int, calls: seq<Call>, t: int)
    requires max > 0 && window > 0 && Clock(calls)
    ensures CountIn(After(max, window, calls).1, t, window) <= max
  {
    var now := if calls == [] then 0 else calls[|calls| - 1].now;
    RunTracks(max, window, calls, now);
    CountAtMost(After(max, window, calls).1, t, window, max);
  }

  lemma {:induction false} CountAll(s: seq<int>, t: int, window: int)
    requires forall i :: 0 <= i < |s| ==> t - window < s[i] <= t
    ensures CountIn(s, t, window) == |s|
  {
    if s != [] {
      CountAll(s[..|s| - 1], t, window);
    }
  }

  /** The kept times are exactly the accepted ones inside the window. */
  lemma KeptAreInside(starts: seq<int>, accepted: seq<int>, max: nat, window: int, before: int, now: int)
    requires Tracks(starts, accepted, max, window, before) && before <= now
    ensures CountIn(accepted, now, window) == |Pruned(starts, now, window)|
  {
    hide Spaced, CountIn;
    PruneTracks(starts, accepted, max, window, before, now);
    var kept := Pruned(starts, now, window);
    var d := |accepted| - |kept|;
    assert kept == accepted[d..];
    CountSplit(accepted, d, now, window);
    CountEarly(accepted[..d], now, window);
    forall i | 0 <= i < |kept| ensures now - window < kept[i] <= now {
      assert kept[0] == starts[FirstInside(starts, now - window, 0)];
      assert accepted[d] <= accepted[d + i];
    }
    CountAll(kept, now, window);
  }

  /** After any calls, the next one is busy exactly while a scan runs, and otherwise
      accepted exactly when fewer than max starts were accepted within the window
      that ends now. */
  lemma AcceptsExactly(max: nat, window: int, calls: seq<Call>, c: Call)
    requires max > 0 && Clock(calls) && forall i :: 0 <= i < |calls| ==> calls[i].now <= c.now
    ensures var (starts, accepted) := After(max, window, calls);
            var o := Decide(starts, max, window, c).1;
            && (o.Busy? <==> c.running)
            && (o.Accepted? <==> !c.running && CountIn(accepted, c.now, window) < max)
  {
    hide Tracks, Pruned, CountIn, After;
    RunTracks(max, window, calls, c.now);
    var (starts, accepted) := After(max, window, calls);
    KeptAreInside(starts, accepted, max, window, c.now, c.now);
  }

  /** A refused call uses no slot, and its retry delay is positive, at most the
      window, and exactly the least delay after which the limit lets a call pass. */
  lemma RetryAfterIsExact(starts: seq<int>, accepted: seq<int>, max: nat, window: int, c: Call, delay: nat)
    requires max > 0 && window > 0 && Tracks(starts, accepted, max, window, c.now)
    requires Decide(starts, max, window, c).1.Limited?
    ensures var (kept, o) := Decide(starts, max, window, c);
            && |kept| == max && Tracks(kept, accepted, max, window, c.now)
            && 0 < o.retryAfter <= window
            && (Decide(kept, max, window, Call(c.now + delay, false)).1.Accepted? <==> delay >= o.retryAfter)
  {
    hide Spaced, Ascending;
    var kept := Pruned(starts, c.now, window);
    PruneTracks(starts, accepted, max, window, c.now, c.now);
    assert kept[0] == starts[FirstInside(starts, c.now - window, 0)];
    assert kept[0] == accepted[|accepted| - |kept|];
  }
}
