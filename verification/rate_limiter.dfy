/**
 * The sliding-window rate limiter (`RateLimiter` in imagen3_server.py).
 *
 * The limiter keeps a log of admission timestamps, oldest first. One locked pass
 * of `acquire` prunes the expired front of the log, then either admits the
 * caller (appending `now`) or says how long to sleep before trying again.
 * Clock readings are integer ticks passed in as `now`; the surrounding
 * `while True`, the lock and the sleep are scheduling and are not modelled.
 */
module RateLimiting {

  /** The outcome of one locked pass of `acquire`. */
  datatype Decision =
    | Admitted             // `now` was appended; `acquire` returns
    | Wait(time: int)      // the caller sleeps this long, then tries again
    | EmptyWindowFault     // the window is full yet empty (max_calls <= 0): reading its oldest entry raises IndexError

  /** Python's `max(0, x)`. */
  function Max0(x: int): (r: int)
    ensures r >= 0 && r >= x && (r == 0 || r == x)
  {
    if x > 0 then x else 0
  }

  /**
   * The pruning loop: drop timestamps from the front while the front one is
   * `<= cutoff`. The result is a suffix of `w`.
   */
  function Prune(w: seq<int>, cutoff: int): (r: seq<int>)
    ensures |r| <= |w|
  {
    if |w| > 0 && w[0] <= cutoff then Prune(w[1..], cutoff) else w
  }

  /** What pruning leaves is a suffix of the window. */
  lemma {:induction false} PruneIsSuffix(w: seq<int>, cutoff: int)
    ensures Prune(w, cutoff) == w[|w| - |Prune(w, cutoff)|..]
  {
    if |w| > 0 && w[0] <= cutoff {
      PruneIsSuffix(w[1..], cutoff);
    }
  }

  /**
   * Pruning stops at the first live entry: everything dropped was expired
   * (`<= cutoff`) and the new front, if any, is not.
   */
  lemma {:induction false} PruneStopsAtFirstLive(w: seq<int>, cutoff: int)
    ensures AllAtMost(w[..|w| - |Prune(w, cutoff)|], cutoff)
    ensures Prune(w, cutoff) == [] || Prune(w, cutoff)[0] > cutoff
  {
    if |w| > 0 && w[0] <= cutoff {
      PruneStopsAtFirstLive(w[1..], cutoff);
      var n := |w| - |Prune(w, cutoff)|;
      assert w[..n] == [w[0]] + w[1..][..n - 1];
    }
  }

  /**
   * One locked pass of `acquire` at clock reading `now`, as a function of the
   * window before the pass: the decision and the window after it.
   */
  function Step(w: seq<int>, maxCalls: int, period: int, now: int): (r: (Decision, seq<int>))
    ensures r.0.Admitted? ==> |r.1| <= |w| + 1 && r.1 != [] && r.1[|r.1| - 1] == now
    ensures !r.0.Admitted? ==> |r.1| <= |w|
    ensures r.0.EmptyWindowFault? ==> r.1 == []
  {
    var pruned := Prune(w, now - period);
    if |pruned| < maxCalls then (Admitted, pruned + [now])
    else if pruned == [] then (EmptyWindowFault, pruned)
    else (Wait(Max0(pruned[0] + period - now)), pruned)
  }

  /** The log of admission timestamps and the two quota parameters. */
  class RateLimiter {
    const maxCalls: int
    const period: int
    var calls: seq<int>

    constructor (maxCalls: int, period: int)
      ensures this.maxCalls == maxCalls && this.period == period
      ensures calls == []
    {
      this.maxCalls := maxCalls;
      this.period := period;
      calls := [];
    }

    /**
     * One locked pass of `acquire`: prune, then admit if fewer than `maxCalls`
     * entries remain, else report the wait until the oldest entry expires.
     */
    method Acquire(now: int) returns (d: Decision)
      modifies this`calls
      ensures (d, calls) == Step(old(calls), maxCalls, period, now)
      ensures d.Admitted? <==> |Prune(old(calls), now - period)| < maxCalls
      ensures d.Admitted? ==> calls == Prune(old(calls), now - period) + [now]
      ensures !d.Admitted? ==> calls == Prune(old(calls), now - period)
      ensures d.Wait? ==> calls != [] && d.time == Max0(calls[0] + period - now) && d.time > 0
      ensures d.EmptyWindowFault? <==> maxCalls <= 0 && calls == []
      ensures |old(calls)| <= maxCalls ==> |calls| <= maxCalls
    {
      while |calls| > 0 && calls[0] <= now - period
        invariant Prune(calls, now - period) == Prune(old(calls), now - period)
        decreases |calls|
      {
        calls := calls[1..];
      }
      if |calls| < maxCalls {
        calls := calls + [now];
        d := Admitted;
      } else if calls == [] {
        d := EmptyWindowFault;
      } else {
        var sleepTime := calls[0] + period - now;
        d := Wait(Max0(sleepTime));
      }
    }
  }

  /**
   * What one pass decides. It admits exactly when fewer than `maxCalls`
   * entries survive pruning, and then appends `now`. Otherwise the window
   * stays as pruned. When that window is non-empty, the caller waits until its
   * oldest entry expires, which is a strictly positive time. When it is empty
   * (only possible with `maxCalls <= 0`), reading the oldest entry fails.
   */
  lemma StepDecides(w: seq<int>, maxCalls: int, period: int, now: int)
    ensures var (d, w') := Step(w, maxCalls, period, now);
      var pruned := Prune(w, now - period);
      && (d.Admitted? <==> |pruned| < maxCalls)
      && (d.Admitted? ==> w' == pruned + [now])
      && (!d.Admitted? ==> w' == pruned)
      && (d.Wait? ==> pruned != [] && d.time == pruned[0] + period - now && d.time > 0)
      && (d.EmptyWindowFault? <==> maxCalls <= 0 && pruned == [])
  {
    PruneStopsAtFirstLive(w, now - period);
  }

  /**
   * The wait is the time until the next call can be admitted: on a log within
   * its bound, after a refusal with a wait, a later pass at `later` is admitted
   * exactly when `later` is at least `now` plus the wait.
   */
  lemma WaitIsEarliestAdmission(w: seq<int>, maxCalls: int, period: int, now: int, later: int)
    requires |w| <= maxCalls && Step(w, maxCalls, period, now).0.Wait?
    ensures var (d, w') := Step(w, maxCalls, period, now);
      Step(w', maxCalls, period, later).0.Admitted? <==> later >= now + d.time
  {
    var (d, w') := Step(w, maxCalls, period, now);
    StepDecides(w, maxCalls, period, now);
    assert |w'| == maxCalls;
    if w'[0] <= later - period {
      assert Prune(w', later - period) == Prune(w'[1..], later - period);
    } else {
      assert Prune(w', later - period) == w';
    }
  }

  /** A pass keeps the log within its bound: at most `maxCalls` entries if it started so. */
  lemma StepKeepsBound(w: seq<int>, maxCalls: int, period: int, now: int)
    requires |w| <= maxCalls
    ensures |Step(w, maxCalls, period, now).1| <= maxCalls
  {
    var pruned := Prune(w, now - period);
    assert |pruned| <= |w|;
  }

  /**
   * After a pass at `now` with a positive period, every entry left in a sorted
   * window is within the trailing period: later than `now - period`.
   */
  lemma StepLeavesOnlyRecent(w: seq<int>, maxCalls: int, period: int, now: int)
    requires Sorted(w) && period > 0
    ensures forall k :: 0 <= k < |Step(w, maxCalls, period, now).1| ==> Step(w, maxCalls, period, now).1[k] > now - period
  {
    PruneKeepsSorted(w, now - period);
  }

  // ---------------------------------------------------------------------------
  // Ordering of the window

  /**
   * `w[i] <= w[j]`. Naming the comparison keeps the solver from instantiating
   * `Sorted` on every index it sees; proofs that need an instance ask for it.
   */
  predicate InOrder(w: seq<int>, i: int, j: int)
    requires 0 <= i < |w| && 0 <= j < |w|
  {
    w[i] <= w[j]
  }

  /** Oldest first: timestamps never decrease along the window. */
  predicate Sorted(w: seq<int>) {
    forall i, j :: 0 <= i < j < |w| ==> InOrder(w, i, j)
  }

  predicate AllAtMost(w: seq<int>, t: int) {
    forall k :: 0 <= k < |w| ==> w[k] <= t
  }

  /** The entries of `w` later than `cutoff`, in order: the reference meaning of "not expired". */
  function Above(w: seq<int>, cutoff: int): (r: seq<int>)
    ensures |r| <= |w|
  {
    if w == [] then [] else (if w[0] > cutoff then [w[0]] else []) + Above(w[1..], cutoff)
  }

  lemma PruneKeepsSorted(w: seq<int>, cutoff: int)
    requires Sorted(w)
    ensures Sorted(Prune(w, cutoff))
    ensures forall k :: 0 <= k < |Prune(w, cutoff)| ==> Prune(w, cutoff)[k] > cutoff
  {
    var r := Prune(w, cutoff);
    PruneIsSuffix(w, cutoff);
    PruneStopsAtFirstLive(w, cutoff);
    SuffixKeepsOrder(w, |w| - |r|);
    SortedFromFront(r, cutoff);
  }

  lemma SortedFromFront(r: seq<int>, cutoff: int)
    requires Sorted(r) && (r == [] || r[0] > cutoff)
    ensures forall k :: 0 <= k < |r| ==> r[k] > cutoff
  {
    forall k | 0 < k < |r|
      ensures r[k] > cutoff
    {
      assert InOrder(r, 0, k);
    }
  }

  /**
   * On a sorted window, popping the expired front removes exactly the expired
   * entries: what is left is every entry later than the cutoff.
   */
  lemma {:induction false} PruneOfSortedIsAbove(w: seq<int>, cutoff: int)
    requires Sorted(w)
    ensures Prune(w, cutoff) == Above(w, cutoff)
  {
    if w != [] {
      if w[0] <= cutoff {
        SuffixKeepsOrder(w, 1);
        PruneOfSortedIsAbove(w[1..], cutoff);
      } else {
        SortedFromFront(w, cutoff);
        AllAboveIsIdentity(w, cutoff);
      }
    }
  }

  lemma PruneOfSortedHasAboveSize(w: seq<int>, cutoff: int)
    requires Sorted(w)
    ensures |Prune(w, cutoff)| == |Above(w, cutoff)|
  {
    PruneOfSortedIsAbove(w, cutoff);
  }

  lemma {:induction false} AllAboveIsIdentity(w: seq<int>, cutoff: int)
    requires forall k :: 0 <= k < |w| ==> w[k] > cutoff
    ensures Above(w, cutoff) == w
  {
    if w != [] {
      AllAboveIsIdentity(w[1..], cutoff);
    }
  }

  /**
   * With a clock that does not run backwards (`now` no earlier than any entry),
   * a pass keeps the window sorted oldest first and within `now`.
   */
  lemma StepKeepsSorted(w: seq<int>, maxCalls: int, period: int, now: int)
    requires Sorted(w) && AllAtMost(w, now)
    ensures Sorted(Step(w, maxCalls, period, now).1)
    ensures AllAtMost(Step(w, maxCalls, period, now).1, now)
  {
    var pruned := Prune(w, now - period);
    PruneIsSuffix(w, now - period);
    SuffixKeepsOrder(w, |w| - |pruned|);
    SuffixKeepsBound(w, |w| - |pruned|, now);
    if |pruned| < maxCalls {
      SortedAppend(pruned, now);
    } else {
      assert Step(w, maxCalls, period, now).1 == pruned;
    }
  }

  lemma SuffixKeepsOrder(w: seq<int>, k: nat)
    requires k <= |w| && Sorted(w)
    ensures Sorted(w[k..])
  {
    forall i, j | 0 <= i < j < |w| - k
      ensures InOrder(w[k..], i, j)
    {
      assert InOrder(w, k + i, k + j);
    }
  }

  lemma SuffixKeepsBound(w: seq<int>, k: nat, t: int)
    requires k <= |w| && AllAtMost(w, t)
    ensures AllAtMost(w[k..], t)
  {
    assert forall i :: 0 <= i < |w| - k ==> w[k..][i] == w[k + i];
  }

  lemma SortedAppend(w: seq<int>, x: int)
    requires Sorted(w) && AllAtMost(w, x)
    ensures Sorted(w + [x]) && AllAtMost(w + [x], x)
  {
    forall i, j | 0 <= i < j < |w| + 1
      ensures InOrder(w + [x], i, j)
    {
      if j < |w| {
        assert InOrder(w, i, j);
      }
    }
  }

  // ---------------------------------------------------------------------------
  // The quota over a run of passes

  /** The window after a run of passes and the timestamps admitted during it, in order. */
  datatype History = History(window: seq<int>, admitted: seq<int>)

  /** One pass at `now` applied to a history. */
  function Next(h: History, maxCalls: int, period: int, now: int): History
  {
    var (d, w') := Step(h.window, maxCalls, period, now);
    History(w', if d.Admitted? then h.admitted + [now] else h.admitted)
  }

  /** Passes at the clock readings `nows`, in order, starting from window `w`. */
  function Replay(w: seq<int>, maxCalls: int, period: int, nows: seq<int>): History
  {
    if nows == [] then History(w, [])
    else Next(Replay(w, maxCalls, period, nows[..|nows| - 1]), maxCalls, period, nows[|nows| - 1])
  }

  predicate NonDecreasing(nows: seq<int>) {
    forall i, j :: 0 <= i < j < |nows| ==> nows[i] <= nows[j]
  }

  /** How many of the timestamps in `a` fall in the interval (lo, hi]. */
  function CountIn(a: seq<int>, lo: int, hi: int): nat
  {
    if a == [] then 0
    else CountIn(a[..|a| - 1], lo, hi) + (if lo < a[|a| - 1] <= hi then 1 else 0)
  }

  /** How many of the timestamps in `a` fall in the trailing window (t - period, t]. */
  function InWindow(a: seq<int>, period: int, t: int): nat
  {
    CountIn(a, t - period, t)
  }

  lemma {:induction false} PruneTwice(w: seq<int>, c0: int, c: int)
    requires c0 <= c
    ensures Prune(Prune(w, c0), c) == Prune(w, c)
  {
    if |w| > 0 && w[0] <= c0 {
      PruneTwice(w[1..], c0, c);
    }
  }

  lemma {:induction false} PruneAppend(w: seq<int>, c: int, x: int)
    requires x > c
    ensures Prune(w + [x], c) == Prune(w, c) + [x]
  {
    if w != [] {
      assert (w + [x])[1..] == w[1..] + [x];
      if w[0] <= c {
        PruneAppend(w[1..], c, x);
      }
    }
  }

  lemma {:induction false} AboveAppend(w: seq<int>, c: int, x: int)
    ensures Above(w + [x], c) == Above(w, c) + (if x > c then [x] else [])
  {
    if w != [] {
      assert (w + [x])[1..] == w[1..] + [x];
      AboveAppend(w[1..], c, x);
    } else {
      assert Above([x], c) == (if x > c then [x] else []) + Above([], c);
    }
  }

  lemma {:induction false} AboveShrinks(w: seq<int>, lo: int, hi: int)
    requires lo <= hi
    ensures |Above(w, hi)| <= |Above(w, lo)|
  {
    if w != [] {
      AboveShrinks(w[1..], lo, hi);
    }
  }

  lemma {:induction false} CountInIsAbove(a: seq<int>, lo: int, hi: int)
    requires AllAtMost(a, hi)
    ensures CountIn(a, lo, hi) == |Above(a, lo)|
  {
    if a != [] {
      var p, x := a[..|a| - 1], a[|a| - 1];
      assert p + [x] == a;
      CountInIsAbove(p, lo, hi);
      AboveAppend(p, lo, x);
    }
  }

  /**
   * What holds after a run whose last clock reading was `last`: the admissions
   * are sorted and no later than `last`, the window holds exactly the admissions
   * of the trailing period, and no interval (t - period, t] holds more than
   * `maxCalls` admissions.
   */
  ghost predicate RunInvariant(h: History, last: int, maxCalls: int, period: int) {
    && Sorted(h.admitted)
    && AllAtMost(h.admitted, last)
    && h.window == Prune(h.admitted, last - period)
    && WithinQuota(h.admitted, maxCalls, period)
  }

  /** No trailing window (t - period, t] holds more than `maxCalls` of the timestamps in `a`. */
  ghost predicate WithinQuota(a: seq<int>, maxCalls: int, period: int) {
    forall t :: InWindow(a, period, t) <= maxCalls
  }

  lemma CountInAppend(a: seq<int>, x: int, lo: int, hi: int)
    ensures CountIn(a + [x], lo, hi) == CountIn(a, lo, hi) + (if lo < x <= hi then 1 else 0)
  {
    assert (a + [x])[..|a|] == a;
  }

  lemma CountInAtMostAbove(a: seq<int>, lo: int, lo': int, hi: int)
    requires lo <= lo' && AllAtMost(a, hi)
    ensures CountIn(a, lo', hi) <= |Above(a, lo)|
  {
    CountInIsAbove(a, lo', hi);
    AboveShrinks(a, lo, lo');
  }

  /**
   * An admission at `now`, made when fewer than `maxCalls` admissions lie in
   * (now - period, now], keeps every trailing window within the quota.
   */
  lemma AdmissionKeepsQuota(a: seq<int>, maxCalls: int, period: int, now: int)
    requires AllAtMost(a, now)
    requires WithinQuota(a, maxCalls, period)
    requires |Above(a, now - period)| < maxCalls
    ensures WithinQuota(a + [now], maxCalls, period)
  {
    forall t
      ensures InWindow(a + [now], period, t) <= maxCalls
    {
      CountInAppend(a, now, t - period, t);
      assert InWindow(a, period, t) <= maxCalls;
      if t - period < now <= t {
        CountInAtMostAbove(a, now - period, t - period, t);
      }
    }
  }

  /** An admission under the quota, expressed through the pruned window, keeps every trailing window within the quota. */
  lemma AdmitKeepsQuota(a: seq<int>, maxCalls: int, period: int, now: int)
    requires Sorted(a) && AllAtMost(a, now)
    requires WithinQuota(a, maxCalls, period)
    requires |Prune(a, now - period)| < maxCalls
    ensures WithinQuota(a + [now], maxCalls, period)
  {
    PruneOfSortedHasAboveSize(a, now - period);
    AdmissionKeepsQuota(a, maxCalls, period, now);
  }

  /** An admitting pass at `now` keeps the run invariant. */
  lemma AdmitKeepsRunInvariant(a: seq<int>, maxCalls: int, period: int, now: int)
    requires Sorted(a) && AllAtMost(a, now) && period > 0
    requires WithinQuota(a, maxCalls, period)
    requires |Prune(a, now - period)| < maxCalls
    ensures RunInvariant(History(Prune(a, now - period) + [now], a + [now]), now, maxCalls, period)
  {
    PruneAppend(a, now - period, now);
    SortedAppend(a, now);
    AdmitKeepsQuota(a, maxCalls, period, now);
  }

  /** One pass at a reading no earlier than the last keeps the run invariant. */
  lemma StepKeepsRunInvariant(h: History, last: int, maxCalls: int, period: int, now: int)
    requires RunInvariant(h, last, maxCalls, period) && last <= now && period > 0
    ensures RunInvariant(Next(h, maxCalls, period, now), now, maxCalls, period)
  {
    var a := h.admitted;
    assert Prune(h.window, now - period) == Prune(a, now - period) by {
      PruneTwice(a, last - period, now - period);
    }
    AllAtMostLater(a, last, now);
    NextShape(h, maxCalls, period, now);
    if |Prune(a, now - period)| < maxCalls {
      AdmitKeepsRunInvariant(a, maxCalls, period, now);
    } else {
      RefuseKeepsRunInvariant(a, maxCalls, period, now);
    }
  }

  /** A pass appends `now` to the admissions exactly when it admits. */
  lemma NextShape(h: History, maxCalls: int, period: int, now: int)
    ensures var pruned := Prune(h.window, now - period);
      Next(h, maxCalls, period, now)
      == if |pruned| < maxCalls then History(pruned + [now], h.admitted + [now]) else History(pruned, h.admitted)
  {
  }

  /** A refusing pass at `now` keeps the run invariant. */
  lemma RefuseKeepsRunInvariant(a: seq<int>, maxCalls: int, period: int, now: int)
    requires Sorted(a) && AllAtMost(a, now)
    requires WithinQuota(a, maxCalls, period)
    ensures RunInvariant(History(Prune(a, now - period), a), now, maxCalls, period)
  {
  }

  lemma AllAtMostLater(a: seq<int>, last: int, now: int)
    requires AllAtMost(a, last) && last <= now
    ensures AllAtMost(a, now)
  {
  }

  lemma {:induction false} ReplayInvariant(maxCalls: int, period: int, nows: seq<int>)
    requires period > 0 && maxCalls >= 0 && NonDecreasing(nows) && nows != []
    ensures RunInvariant(Replay([], maxCalls, period, nows), nows[|nows| - 1], maxCalls, period)
  {
    var prev := nows[..|nows| - 1];
    var now := nows[|nows| - 1];
    if prev == [] {
      assert WithinQuota([], maxCalls, period) by {
        assert forall t :: InWindow([], period, t) == 0;
      }
      StepKeepsRunInvariant(History([], []), now, maxCalls, period, now);
    } else {
      ReplayInvariant(maxCalls, period, prev);
      StepKeepsRunInvariant(Replay([], maxCalls, period, prev), prev[|prev| - 1], maxCalls, period, now);
    }
  }

  /**
   * The limiter's promise: starting fresh, on a clock that does not run
   * backwards, no trailing window of `period` ticks ever holds more than
   * `maxCalls` admissions.
   */
  lemma QuotaHolds(maxCalls: int, period: int, nows: seq<int>, t: int)
    requires period > 0 && maxCalls >= 0 && NonDecreasing(nows)
    ensures InWindow(Replay([], maxCalls, period, nows).admitted, period, t) <= maxCalls
  {
    if nows != [] {
      ReplayInvariant(maxCalls, period, nows);
    }
  }

  /**
   * The converse of `QuotaHolds`: after a run on a non-decreasing clock, a pass
   * at a reading no earlier than the last is admitted exactly when the
   * trailing window ending at that reading holds fewer than `maxCalls`
   * admissions. So the limiter refuses only when the quota is really full.
   */
  lemma AdmitIffRoom(maxCalls: int, period: int, nows: seq<int>, now: int)
    requires period > 0 && maxCalls >= 0 && NonDecreasing(nows) && nows != [] && nows[|nows| - 1] <= now
    ensures var h := Replay([], maxCalls, period, nows);
      Step(h.window, maxCalls, period, now).0.Admitted? <==> InWindow(h.admitted, period, now) < maxCalls
  {
    var h := Replay([], maxCalls, period, nows);
    WindowIsRecentAdmissions(maxCalls, period, nows, now);
    StepDecides(h.window, maxCalls, period, now);
  }

  /** After such a run, pruning the window at `now` leaves as many entries as the trailing window at `now` holds admissions. */
  lemma WindowIsRecentAdmissions(maxCalls: int, period: int, nows: seq<int>, now: int)
    requires period > 0 && maxCalls >= 0 && NonDecreasing(nows) && nows != [] && nows[|nows| - 1] <= now
    ensures var h := Replay([], maxCalls, period, nows);
      |Prune(h.window, now - period)| == InWindow(h.admitted, period, now)
  {
    var h := Replay([], maxCalls, period, nows);
    var last := nows[|nows| - 1];
    ReplayInvariant(maxCalls, period, nows);
    var a := h.admitted;
    assert h.window == Prune(a, last - period);
    PruneTwice(a, last - period, now - period);
    PruneOfSortedIsAbove(a, now - period);
    AllAtMostLater(a, last, now);
    CountInIsAbove(a, now - period, now);
  }

  /**
   * The clock hypothesis of `QuotaHolds` cannot be dropped: the wall clock may
   * step backwards. With two calls per ten ticks and readings 100, 100, 115,
   * 105, the step at 115 empties the window and the pass at 105 is admitted
   * too, so the interval (95, 105] ends up holding three admissions.
   */
  lemma ClockStepBackBreaksQuota()
    ensures !NonDecreasing([100, 100, 115, 105])
    ensures Replay([], 2, 10, [100, 100, 115, 105]).admitted == [100, 100, 115, 105]
    ensures InWindow(Replay([], 2, 10, [100, 100, 115, 105]).admitted, 10, 105) == 3
  {
    var nows := [100, 100, 115, 105];
    assert nows[2] > nows[3];
    ExampleReplay();
    ExampleCount();
  }

  /** The four passes of the example, one at a time. */
  lemma ExampleReplay()
    ensures Replay([], 2, 10, [100, 100, 115, 105]) == History([115, 105], [100, 100, 115, 105])
  {
    ExampleThirdPass();
    var n4 := [100, 100, 115, 105];
    assert n4[..3] == [100, 100, 115];
    assert Prune([115], 95) == [115];
    assert [115] + [105] == [115, 105];
    assert Step([115], 2, 10, 105) == (Admitted, [115, 105]);
  }

  lemma ExampleThirdPass()
    ensures Replay([], 2, 10, [100, 100, 115]) == History([115], [100, 100, 115])
  {
    ExampleSecondPass();
    var n3 := [100, 100, 115];
    assert n3[..2] == [100, 100];
    assert Prune([100, 100], 105) == [] by {
      assert [100, 100][1..] == [100];
      assert [100][1..] == [];
    }
    assert [] + [115] == [115];
    assert Step([100, 100], 2, 10, 115) == (Admitted, [115]);
  }

  lemma ExampleSecondPass()
    ensures Replay([], 2, 10, [100, 100]) == History([100, 100], [100, 100])
  {
    var n1, n2 := [100], [100, 100];
    assert n1[..0] == [] && n2[..1] == n1;
    assert Prune([], 90) == [] && [] + [100] == [100];
    assert Step([], 2, 10, 100) == (Admitted, [100]);
    assert Replay([], 2, 10, n1) == History([100], [100]);
    assert Prune([100], 90) == [100];
    assert [100] + [100] == [100, 100];
    assert Step([100], 2, 10, 100) == (Admitted, [100, 100]);
  }

  /** Three of the example's admissions fall in (95, 105]. */
  lemma ExampleCount()
    ensures InWindow([100, 100, 115, 105], 10, 105) == 3
  {
    var a1, a2, a3, a4 := [100], [100, 100], [100, 100, 115], [100, 100, 115, 105];
    assert a1[..0] == [] && a2[..1] == a1 && a3[..2] == a2 && a4[..3] == a3;
    assert CountIn(a1, 95, 105) == 1;
    assert CountIn(a2, 95, 105) == 2;
    assert CountIn(a3, 95, 105) == 2;
    assert CountIn(a4, 95, 105) == 3;
  }
}
