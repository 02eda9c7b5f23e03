/** Counting and finding the first offsets that satisfy a test; lists without repetition. */
module Search {

  predicate Distinct(s: seq<nat>) {
    forall i, j :: 0 <= i < j < |s| ==> s[i] != s[j]
  }

  function Count(e: nat -> bool, lo: nat, hi: nat): nat
    decreases hi - lo
  {
    if lo >= hi then 0 else (if e(lo) then 1 else 0) + Count(e, lo + 1, hi)
  }

  /** The first `n` offsets in [lo, hi) that satisfy `e` (fewer when there are not that many). */
  function First(e: nat -> bool, lo: nat, hi: nat, n: nat): seq<nat>
    decreases hi - lo
  {
    if n == 0 || lo >= hi then []
    else if e(lo) then [lo] + First(e, lo + 1, hi, n - 1)
    else First(e, lo + 1, hi, n)
  }

  /** `f` is the earliest choice: its k-th offset satisfies `e` and has exactly k such offsets before it. */
  ghost predicate IsEarliest(e: nat -> bool, lo: nat, hi: nat, f: seq<nat>) {
    forall k :: 0 <= k < |f| ==> lo <= f[k] < hi && e(f[k]) && Count(e, lo, f[k]) == k
  }

  lemma {:induction false} FirstIsEarliest(e: nat -> bool, lo: nat, hi: nat, n: nat)
    ensures IsEarliest(e, lo, hi, First(e, lo, hi, n))
    decreases hi - lo
  {
    if n > 0 && lo < hi {
      if e(lo) {
        var g := First(e, lo + 1, hi, n - 1);
        FirstIsEarliest(e, lo + 1, hi, n - 1);
        forall k | 0 <= k < |g| ensures Count(e, lo, g[k]) == k + 1 {}
      } else {
        var g := First(e, lo + 1, hi, n);
        FirstIsEarliest(e, lo + 1, hi, n);
        forall k | 0 <= k < |g| ensures Count(e, lo, g[k]) == k {}
      }
    }
  }

  /** The search finds all `n` offsets exactly when [lo, hi) has that many. */
  lemma {:induction false} FirstLength(e: nat -> bool, lo: nat, hi: nat, n: nat)
    ensures |First(e, lo, hi, n)| == if Count(e, lo, hi) < n then Count(e, lo, hi) else n
    decreases hi - lo
  {
    if n > 0 && lo < hi { FirstLength(e, lo + 1, hi, if e(lo) then n - 1 else n); }
  }

  /** Two offsets that satisfy `e` with equally many such offsets before them are the same. */
  lemma EqualRank(e: nat -> bool, lo: nat, x: nat, y: nat)
    requires lo <= x && lo <= y && e(x) && e(y) && Count(e, lo, x) == Count(e, lo, y)
    ensures x == y
  {
    if x < y { CountSplit(e, lo, x, y); } else if y < x { CountSplit(e, lo, y, x); }
  }

  /** An earliest choice skips nothing: offsets that satisfy `e` before its last one are all in it. */
  lemma EarliestLeavesNoGap(e: nat -> bool, lo: nat, hi: nat, f: seq<nat>, o: nat)
    requires IsEarliest(e, lo, hi, f) && f != [] && lo <= o < f[|f| - 1] && e(o)
    ensures o in f
  {
    CountSplit(e, lo, o, f[|f| - 1]);
    EqualRank(e, lo, o, f[Count(e, lo, o)]);
  }

  /** There is only one earliest choice of a given size, and it is increasing. */
  lemma EarliestIsUnique(e: nat -> bool, lo: nat, hi: nat, f: seq<nat>, g: seq<nat>)
    requires IsEarliest(e, lo, hi, f) && IsEarliest(e, lo, hi, g) && |f| == |g|
    ensures f == g
  {
    forall k | 0 <= k < |f| ensures f[k] == g[k] { EqualRank(e, lo, f[k], g[k]); }
  }

  lemma EarliestIncreases(e: nat -> bool, lo: nat, hi: nat, f: seq<nat>, j: nat, k: nat)
    requires IsEarliest(e, lo, hi, f) && j < k < |f|
    ensures f[j] < f[k]
  {
    if f[k] <= f[j] { CountSplit(e, lo, f[k], f[j]); }
  }

  lemma {:induction false} CountSplit(e: nat -> bool, lo: nat, mid: nat, hi: nat)
    requires lo <= mid <= hi
    ensures Count(e, lo, hi) == Count(e, lo, mid) + Count(e, mid, hi)
    decreases mid - lo
  {
    if lo < mid { CountSplit(e, lo + 1, mid, hi); }
  }

  lemma {:induction false} CountAgree(e: nat -> bool, f: nat -> bool, lo: nat, hi: nat)
    requires forall o :: lo <= o < hi ==> e(o) == f(o)
    ensures Count(e, lo, hi) == Count(f, lo, hi)
    ensures forall n: nat :: First(e, lo, hi, n) == First(f, lo, hi, n)
    decreases hi - lo
  {
    if lo < hi {
      CountAgree(e, f, lo + 1, hi);
      forall n: nat ensures First(e, lo, hi, n) == First(f, lo, hi, n) {}
    }
  }

  /** Losing one offset costs at most one. */
  lemma {:induction false} CountLose(e: nat -> bool, f: nat -> bool, lo: nat, hi: nat, x: nat)
    requires forall o :: lo <= o < hi && o != x ==> e(o) == f(o)
    ensures Count(f, lo, hi) + 1 >= Count(e, lo, hi)
    decreases hi - lo
  {
    if lo < hi {
      if x == lo { CountAgree(e, f, lo + 1, hi); } else { CountLose(e, f, lo + 1, hi, x); }
    }
  }

  lemma {:induction false} CountShift(e: nat -> bool, f: nat -> bool, lo: nat, hi: nat, d: nat)
    requires forall o :: lo <= o < hi ==> e(o + d) == f(o)
    ensures Count(e, lo + d, hi + d) == Count(f, lo, hi)
    decreases hi - lo
  {
    if lo < hi {
      CountShift(e, f, lo + 1, hi, d);
      assert e(lo + d) == f(lo);
    }
  }

  /** A test of period `p` holds equally often in every window of length `p`. */
  lemma {:induction false} CountPeriod(e: nat -> bool, p: nat, a: nat)
    requires p > 0 && forall o: nat :: e(o + p) == e(o)
    ensures Count(e, a, a + p) == Count(e, 0, p)
  {
    if a > 0 {
      CountPeriod(e, p, a - 1);
      CountSplit(e, a - 1, a, a - 1 + p);
      CountSplit(e, a, a + p - 1, a + p);
      assert e(a - 1 + p) == e(a - 1);
    }
  }
}
