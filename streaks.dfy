/**
 * Streaks over the per-day last timestamps (plugin/src/habit-core.ts:314-330): the
 * timestamps are sorted, and the streak is the length of the run at their end in
 * which consecutive days lie within the allowed gap, provided the last one is
 * itself within the gap of the current time. Timestamps are integer milliseconds.
 */
module Streaks {
  import opened Wrappers

  // ---------------------------------------------------------------------
  // Sorting
  // ---------------------------------------------------------------------

  predicate SortedAsc(s: seq<int>) {
    forall i, j :: 0 <= i < j < |s| ==> s[i] <= s[j]
  }

  /** `x` inserted into the sorted `s` before the first larger element. */
  function Insert(x: int, s: seq<int>): (r: seq<int>)
    requires SortedAsc(s)
    ensures SortedAsc(r)
    ensures multiset(r) == multiset(s) + multiset{x}
    ensures |r| == |s| + 1
    decreases |s|
  {
    if s == [] then [x]
    else if x <= s[0] then
      SortedLowerBound(s, x);
      ConsSorted(x, s);
      [x] + s
    else
      var tail := Insert(x, s[1..]);
      SplitHead(s);
      SortedTailBound(s);
      LowerBoundInsert(s[0], x, s[1..], tail);
      ConsSorted(s[0], tail);
      [s[0]] + tail
  }

  lemma SplitHead(s: seq<int>)
    requires s != []
    ensures s == [s[0]] + s[1..]
    ensures multiset(s) == multiset{s[0]} + multiset(s[1..])
    ensures SortedAsc(s) ==> SortedAsc(s[1..])
  {
    assert s == [s[0]] + s[1..];
  }

  /** Every element of a sorted sequence's tail is at least its head. */
  lemma {:induction false} SortedTailBound(s: seq<int>)
    requires s != [] && SortedAsc(s)
    ensures forall k :: k in multiset(s[1..]) ==> s[0] <= k
  {
    forall k | k in multiset(s[1..]) ensures s[0] <= k {
      var i :| 0 <= i < |s[1..]| && s[1..][i] == k;
      assert s[i + 1] == k;
    }
  }

  /** Every element of a sorted sequence is at least a bound below its head. */
  lemma {:induction false} SortedLowerBound(s: seq<int>, x: int)
    requires s != [] && SortedAsc(s) && x <= s[0]
    ensures forall k :: k in multiset(s) ==> x <= k
  {
    forall k | k in multiset(s) ensures x <= k {
      var i :| 0 <= i < |s| && s[i] == k;
      assert i == 0 || s[0] <= s[i];
    }
  }

  lemma LowerBoundInsert(h: int, x: int, s: seq<int>, r: seq<int>)
    requires h <= x
    requires forall k :: k in multiset(s) ==> h <= k
    requires multiset(r) == multiset(s) + multiset{x}
    ensures forall k :: k in multiset(r) ==> h <= k
  {
  }

  /** A head at most every element of a sorted tail keeps the sequence sorted. */
  lemma {:induction false} ConsSorted(h: int, t: seq<int>)
    requires SortedAsc(t)
    requires forall k :: k in multiset(t) ==> h <= k
    ensures SortedAsc([h] + t)
  {
    var r := [h] + t;
    forall i, j | 0 <= i < j < |r| ensures r[i] <= r[j] {
      assert r[j] == t[j - 1];
      if i == 0 {
        assert t[j - 1] in multiset(t);
      } else {
        assert r[i] == t[i - 1];
      }
    }
  }

  /**
   * `sortDatesAscending`: the timestamps in ascending order. Any sort with the same
   * comparator gives this result (`SortedUnique`), so insertion sort stands for it.
   */
  function SortAscending(xs: seq<int>): (r: seq<int>)
    ensures SortedAsc(r)
    ensures multiset(r) == multiset(xs)
    ensures |r| == |xs|
    decreases |xs|
  {
    if xs == [] then []
    else
      assert xs == xs[..|xs| - 1] + [xs[|xs| - 1]];
      Insert(xs[|xs| - 1], SortAscending(xs[..|xs| - 1]))
  }

  /** Two sorted sequences with the same elements are equal. */
  lemma {:induction false} SortedUnique(a: seq<int>, b: seq<int>)
    requires SortedAsc(a) && SortedAsc(b)
    requires multiset(a) == multiset(b)
    ensures a == b
    decreases |a|
  {
    if a != [] {
      assert |b| == |a| by {
        assert |multiset(a)| == |a| && |multiset(b)| == |b|;
      }
      assert a[0] in multiset(b) && b[0] in multiset(a);
      MinOfSorted(a, b[0]);
      MinOfSorted(b, a[0]);
      assert a[0] == b[0];
      SplitHead(a);
      SplitHead(b);
      assert multiset(a[1..]) == multiset(a) - multiset{a[0]};
      assert multiset(b[1..]) == multiset(b) - multiset{b[0]};
      SortedUnique(a[1..], b[1..]);
    }
  }

  lemma {:induction false} MinOfSorted(s: seq<int>, x: int)
    requires SortedAsc(s) && x in multiset(s)
    ensures s[0] <= x
  {
    var i :| 0 <= i < |s| && s[i] == x;
    assert i == 0 || s[0] <= s[i];
  }

  /** The last element, if any: `sorted[sorted.length - 1]` or `null`. */
  function LastOf(s: seq<int>): (r: Option<int>)
    ensures r.None? <==> s == []
    ensures r.Some? ==> r.value == s[|s| - 1]
  {
    if s == [] then None else Some(s[|s| - 1])
  }

  /** The last of the sorted timestamps is their maximum. */
  lemma {:induction false} LastOfSortedIsMax(xs: seq<int>)
    ensures LastOf(SortAscending(xs)).None? <==> xs == []
    ensures LastOf(SortAscending(xs)).Some? ==>
      && LastOf(SortAscending(xs)).value in xs
      && forall x :: x in xs ==> x <= LastOf(SortAscending(xs)).value
  {
    var s := SortAscending(xs);
    if xs != [] {
      var top := s[|s| - 1];
      assert top in multiset(s);
      forall x | x in xs ensures x <= top {
        assert x in multiset(xs);
        var i :| 0 <= i < |s| && s[i] == x;
        assert i == |s| - 1 || s[i] <= s[|s| - 1];
      }
    }
  }

  // ---------------------------------------------------------------------
  // The streak
  // ---------------------------------------------------------------------

  /** Consecutive timestamps from index `k` on lie within `gap` of each other. */
  predicate ChainedFrom(days: seq<int>, gap: int, k: nat) {
    forall i :: k <= i < |days| - 1 ==> days[i + 1] - days[i] <= gap
  }

  /** Where the run of close timestamps at the end of `days` starts. */
  function ChainStart(days: seq<int>, gap: int): (k: nat)
    ensures days == [] ==> k == 0
    ensures days != [] ==> k < |days|
    ensures ChainedFrom(days, gap, k)
    ensures 0 < k ==> days[k] - days[k - 1] > gap
    decreases |days|
  {
    if |days| <= 1 then 0
    else if days[|days| - 1] - days[|days| - 2] <= gap then ChainStart(days[..|days| - 1], gap)
    else |days| - 1
  }

  /**
   * `computeStreakByDays`: nothing when there are no days or the last one is more than
   * the gap before `now`, else the length of the run of close days at the end.
   */
  function Streak(days: seq<int>, gap: int, now: int): nat {
    if days == [] then 0
    else if now - days[|days| - 1] > gap then 0
    else |days| - ChainStart(days, gap)
  }

  /** The run at the end starts no later than any index from which the days are chained. */
  lemma {:induction false} ChainStartLeast(days: seq<int>, gap: int, k: nat)
    requires k < |days| && ChainedFrom(days, gap, k)
    ensures ChainStart(days, gap) <= k
    decreases |days|
  {
    var n := |days|;
    if n > 1 && days[n - 1] - days[n - 2] <= gap {
      var front := days[..n - 1];
      if k < n - 1 {
        assert ChainedFrom(front, gap, k) by {
          forall i | k <= i < |front| - 1 ensures front[i + 1] - front[i] <= gap {
            assert front[i + 1] == days[i + 1] && front[i] == days[i];
          }
        }
        ChainStartLeast(front, gap, k);
      }
    }
  }

  /** The loop of `computeStreakByDays`, walking back from the last day. */
  method ComputeStreakByDays(days: seq<int>, allowedGapMs: int, now: int) returns (streak: nat)
    ensures streak == Streak(days, allowedGapMs, now)
  {
    if |days| == 0 {
      return 0;
    }
    var last := days[|days| - 1];
    if now - last > allowedGapMs {
      return 0;
    }
    streak := 1;
    var i := |days| - 2;
    while i >= 0
      invariant -1 <= i <= |days| - 2
      invariant streak == |days| - 1 - i
      invariant ChainedFrom(days, allowedGapMs, i + 1)
      decreases i
    {
      if days[i + 1] - days[i] <= allowedGapMs {
        streak := streak + 1;
      } else {
        break;
      }
      i := i - 1;
    }
    ChainStartLeast(days, allowedGapMs, i + 1);
  }

  /** The streak counts days: at most all of them, and one at least when the last is recent. */
  lemma {:induction false} StreakBounds(days: seq<int>, gap: int, now: int)
    ensures Streak(days, gap, now) <= |days|
    ensures Streak(days, gap, now) > 0 <==> days != [] && now - days[|days| - 1] <= gap
  {
  }

  /**
   * The streak is exactly the longest run at the end of the days in which consecutive
   * days are within the gap: the run is chained, and the day before it is too far.
   */
  lemma {:induction false} StreakIsMaximalRun(days: seq<int>, gap: int, now: int)
    requires Streak(days, gap, now) > 0
    ensures ChainedFrom(days, gap, |days| - Streak(days, gap, now))
    ensures Streak(days, gap, now) < |days| ==>
      days[|days| - Streak(days, gap, now)] - days[|days| - Streak(days, gap, now) - 1] > gap
  {
  }

  /** When every day follows the previous within the gap, a recent habit's streak is every day. */
  lemma {:induction false} StreakAllClose(days: seq<int>, gap: int, now: int)
    requires days != [] && now - days[|days| - 1] <= gap
    requires ChainedFrom(days, gap, 0)
    ensures Streak(days, gap, now) == |days|
  {
    ChainStartLeast(days, gap, 0);
  }

  /** A wider gap never shortens the run at the end. */
  lemma {:induction false} ChainStartMonotone(days: seq<int>, g1: int, g2: int)
    requires g1 <= g2
    ensures ChainStart(days, g2) <= ChainStart(days, g1)
    decreases |days|
  {
    if |days| > 1 && days[|days| - 1] - days[|days| - 2] <= g1 {
      ChainStartMonotone(days[..|days| - 1], g1, g2);
    }
  }

  /** A wider gap never shortens the streak. */
  lemma {:induction false} StreakMonotone(days: seq<int>, g1: int, g2: int, now: int)
    requires g1 <= g2
    ensures Streak(days, g1, now) <= Streak(days, g2, now)
  {
    ChainStartMonotone(days, g1, g2);
  }
}
