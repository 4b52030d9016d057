/** The partition step of quicksort, as written and as meant.

    The scan from the left is written to go on while the comparator's result is not zero, so it
    stops only at a key equal to the pivot; it is meant to go on while the result is negative.
    Both readings are modelled, and what each of them achieves is proved. */
module Partition {
  import opened Comparing

  datatype Reading = AsWritten | Meant

  /** Whether the left scan goes on past an element that compares to the pivot as `c`. */
  predicate GoesOn(c: int, reading: Reading) {
    if reading.AsWritten? then c != 0 else c < 0
  }

  /** The scan from the right, to the next element that does not come after the pivot; -1 when it runs
      off the start of the array. */
  function ScanDown<T>(s: seq<T>, k: nat, p: T, cmp: (T, T) -> int): (r: int)
    requires k <= |s|
    ensures -1 <= r < k
  {
    if k == 0 then -1
    else if cmp(s[k - 1], p) > 0 then ScanDown(s, k - 1, p, cmp)
    else k - 1
  }

  /** The scan from the left, to the next element at which it stops; the length when it runs off the end. */
  function ScanUp<T>(s: seq<T>, i: int, p: T, cmp: (T, T) -> int, reading: Reading): (r: nat)
    requires -1 <= i <= |s|
    ensures i < r <= |s| || i == r == |s|
    decreases |s| - i
  {
    if i + 1 >= |s| then |s|
    else if GoesOn(cmp(s[i + 1], p), reading) then ScanUp(s, i + 1, p, cmp, reading)
    else i + 1
  }

  function Swap<T>(s: seq<T>, i: nat, k: nat): (r: seq<T>)
    requires i < |s| && k < |s|
    ensures |r| == |s|
  {
    s[i := s[k]][k := s[i]]
  }

  /** The rounds of scanning and swapping: the array they leave, and where the right scan stands. */
  function Loop<T>(s: seq<T>, i: int, k: nat, p: T, cmp: (T, T) -> int, reading: Reading): (r: (seq<T>, int))
    requires -1 <= i <= |s| && k <= |s|
    ensures |r.0| == |s|
    decreases k
  {
    var k' := ScanDown(s, k, p, cmp);
    var i' := ScanUp(s, i, p, cmp, reading);
    if i' >= k' then (s, k') else Loop(Swap(s, i', k'), i', k', p, cmp, reading)
  }

  // ---------- both scans stay in the range ----------

  lemma {:induction false} ScanDownStops<T>(s: seq<T>, k: nat, p: T, cmp: (T, T) -> int, stop: nat)
    requires stop < k <= |s| && cmp(s[stop], p) <= 0
    ensures var k' := ScanDown(s, k, p, cmp);
            && stop <= k' < k && cmp(s[k'], p) <= 0
            && forall j :: k' < j < k ==> cmp(s[j], p) > 0
  {
    if cmp(s[k - 1], p) > 0 {
      ScanDownStops(s, k - 1, p, cmp, stop);
    }
  }

  lemma {:induction false} ScanUpStops<T>(s: seq<T>, i: int, p: T, cmp: (T, T) -> int, reading: Reading, stop: nat)
    requires -1 <= i < stop < |s| && !GoesOn(cmp(s[stop], p), reading)
    ensures var i' := ScanUp(s, i, p, cmp, reading);
            && i < i' <= stop && !GoesOn(cmp(s[i'], p), reading)
            && forall j :: i < j < i' ==> GoesOn(cmp(s[j], p), reading)
    decreases stop - i
  {
    if GoesOn(cmp(s[i + 1], p), reading) {
      ScanUpStops(s, i + 1, p, cmp, reading, stop);
    }
  }

  /** Each round starts with a stop in front of either scan, inside the range lo..hi: at first the
      pivot itself, and later what the previous round put at the ends. */
  ghost predicate Guarded<T>(s: seq<T>, i: int, k: nat, lo: nat, hi: nat, p: T, cmp: (T, T) -> int, reading: Reading) {
    && lo <= hi < |s| && lo - 1 <= i < k <= hi + 1
    && (exists d :: lo <= d < k && i <= d && cmp(s[d], p) <= 0)
    && (exists u :: i < u <= hi && u <= k && !GoesOn(cmp(s[u], p), reading))
    && (forall j :: k <= j <= hi ==> cmp(s[j], p) >= 0)
    && (reading.Meant? ==> forall j :: lo <= j <= i ==> cmp(s[j], p) <= 0)
  }

  /** One round, seen from outside: where the scans stop. */
  lemma ScansStop<T>(s: seq<T>, i: int, k: nat, lo: nat, hi: nat, p: T, cmp: (T, T) -> int, reading: Reading)
    requires Guarded(s, i, k, lo, hi, p, cmp, reading)
    ensures lo <= hi < |s| && lo - 1 <= i < k <= hi + 1
    ensures var (k', i') := (ScanDown(s, k, p, cmp), ScanUp(s, i, p, cmp, reading));
            && lo <= k' < k && i <= k' && cmp(s[k'], p) <= 0
            && (forall j :: k' < j < k ==> cmp(s[j], p) > 0)
            && i < i' <= hi && i' <= k && !GoesOn(cmp(s[i'], p), reading)
            && (forall j :: i < j < i' ==> GoesOn(cmp(s[j], p), reading))
  {
    var d :| lo <= d < k && i <= d && cmp(s[d], p) <= 0;
    var u :| i < u <= hi && u <= k && !GoesOn(cmp(s[u], p), reading);
    ScanDownStops(s, k, p, cmp, d);
    ScanUpStops(s, i, p, cmp, reading, u);
  }

  /** A swap leaves a stop for either scan of the next round. */
  lemma SwapGuards<T>(s: seq<T>, i: int, k: nat, lo: nat, hi: nat, p: T, cmp: (T, T) -> int, reading: Reading)
    requires Guarded(s, i, k, lo, hi, p, cmp, reading)
    requires ScanUp(s, i, p, cmp, reading) < ScanDown(s, k, p, cmp)
    ensures var (k', i') := (ScanDown(s, k, p, cmp), ScanUp(s, i, p, cmp, reading));
            Guarded(Swap(s, i', k'), i', k', lo, hi, p, cmp, reading)
  {
    ScansStop(s, i, k, lo, hi, p, cmp, reading);
    var (k', i') := (ScanDown(s, k, p, cmp), ScanUp(s, i, p, cmp, reading));
    var t := Swap(s, i', k');
    assert cmp(t[i'], p) <= 0 && !GoesOn(cmp(t[k'], p), reading);
    assert lo <= i' < k' && i' <= i' && i' < k' <= hi;
  }

  /** Only cells of the range are moved. */
  ghost predicate Rearranged<T>(s: seq<T>, t: seq<T>, lo: nat, hi: nat) {
    && |t| == |s| && lo <= hi < |s|
    && multiset(t[lo..hi + 1]) == multiset(s[lo..hi + 1])
    && t[..lo] == s[..lo] && t[hi + 1..] == s[hi + 1..]
  }

  lemma SwapRearranges<T>(s: seq<T>, i: nat, k: nat, lo: nat, hi: nat)
    requires lo <= i < k <= hi < |s|
    ensures Rearranged(s, Swap(s, i, k), lo, hi)
  {
    var (r, t) := (s[lo..hi + 1], Swap(s, i, k)[lo..hi + 1]);
    assert t == r[i - lo := r[k - lo]][k - lo := r[i - lo]];
  }

  lemma RearrangedTransitive<T>(s: seq<T>, t: seq<T>, u: seq<T>, lo: nat, hi: nat)
    requires Rearranged(s, t, lo, hi) && Rearranged(t, u, lo, hi)
    ensures Rearranged(s, u, lo, hi)
  {
  }

  /** What the loop achieves in either reading: k stays in the range, only the range is rearranged,
      and everything right of k is at least the pivot. In the meant reading everything up to k is
      also at most the pivot. */
  lemma {:induction false} LoopSplits<T(!new)>(
      s: seq<T>, i: int, k: nat, lo: nat, hi: nat, p: T, cmp: (T, T) -> int, reading: Reading)
    requires TotalPreorder(cmp) && Guarded(s, i, k, lo, hi, p, cmp, reading)
    ensures var (t, j) := Loop(s, i, k, p, cmp, reading);
            && lo <= j < k && i <= j
            && Rearranged(s, t, lo, hi)
            && (forall m :: j < m <= hi ==> cmp(t[m], p) >= 0)
            && (reading.Meant? ==> forall m :: lo <= m <= j ==> cmp(t[m], p) <= 0)
    decreases k
  {
    hide TotalPreorder;
    ScansStop(s, i, k, lo, hi, p, cmp, reading);
    var (k', i') := (ScanDown(s, k, p, cmp), ScanUp(s, i, p, cmp, reading));
    if i' < k' {
      var t := Swap(s, i', k');
      SwapGuards(s, i, k, lo, hi, p, cmp, reading);
      SwapRearranges(s, i', k', lo, hi);
      LoopSplits(t, i', k', lo, hi, p, cmp, reading);
      RearrangedTransitive(s, t, Loop(t, i', k', p, cmp, reading).0, lo, hi);
    } else {
      forall m | lo <= m <= k'
        ensures reading.Meant? ==> cmp(s[m], p) <= 0
      {
      }
    }
  }

  ghost predicate PivotIn<T>(s: seq<T>, lo: nat, hi: nat, p: T, cmp: (T, T) -> int) {
    lo <= hi < |s| && exists q :: lo <= q <= hi && cmp(s[q], p) == 0
  }

  lemma FirstRoundGuarded<T>(s: seq<T>, lo: nat, hi: nat, p: T, cmp: (T, T) -> int, reading: Reading)
    requires PivotIn(s, lo, hi, p, cmp)
    ensures Guarded(s, lo - 1, hi + 1, lo, hi, p, cmp, reading)
  {
    var q :| lo <= q <= hi && cmp(s[q], p) == 0;
    assert lo <= q < hi + 1 && lo - 1 <= q && cmp(s[q], p) <= 0;
    assert lo - 1 < q <= hi && q <= hi + 1 && !GoesOn(cmp(s[q], p), reading);
  }

  /** The result is the last index, so that the caller is left with the very same range, exactly
      when the pivot's only equal sits there and the left scan goes on past everything before it:
      in the meant reading, when the pivot is the strict maximum. */
  lemma LastIndexIff<T(!new)>(s: seq<T>, lo: nat, hi: nat, p: T, cmp: (T, T) -> int, reading: Reading)
    requires TotalPreorder(cmp) && PivotIn(s, lo, hi, p, cmp)
    ensures var (t, j) := Loop(s, lo - 1, hi + 1, p, cmp, reading);
            && (j == hi <==> cmp(s[hi], p) == 0 && forall m :: lo <= m < hi ==> GoesOn(cmp(s[m], p), reading))
            && (j == hi ==> t == s)
  {
    hide TotalPreorder, Guarded, Rearranged;
    FirstRoundGuarded(s, lo, hi, p, cmp, reading);
    ScansStop(s, lo - 1, hi + 1, lo, hi, p, cmp, reading);
    var (k', i') := (ScanDown(s, hi + 1, p, cmp), ScanUp(s, lo - 1, p, cmp, reading));
    if i' < k' {
      SwapGuards(s, lo - 1, hi + 1, lo, hi, p, cmp, reading);
      LoopSplits(Swap(s, i', k'), i', k', lo, hi, p, cmp, reading);
      assert !GoesOn(cmp(s[i'], p), reading);
    }
  }

  // ---------- when the loop as written splits the range ----------

  /** Elements above the pivot never move: the right scan passes them, and so does the left one. */
  lemma {:induction false} AboveStays<T>(s: seq<T>, i: int, k: nat, lo: nat, hi: nat, p: T, cmp: (T, T) -> int)
    requires Guarded(s, i, k, lo, hi, p, cmp, AsWritten)
    ensures var t := Loop(s, i, k, p, cmp, AsWritten).0;
            forall m :: lo <= m <= hi ==>
              if cmp(s[m], p) > 0 then t[m] == s[m] else cmp(t[m], p) <= 0
    decreases k
  {
    hide Guarded;
    ScansStop(s, i, k, lo, hi, p, cmp, AsWritten);
    var (k', i') := (ScanDown(s, k, p, cmp), ScanUp(s, i, p, cmp, AsWritten));
    if i' < k' {
      SwapGuards(s, i, k, lo, hi, p, cmp, AsWritten);
      AboveStays(Swap(s, i', k'), i', k', lo, hi, p, cmp);
    }
  }

  /** `g` is the first position of the range with an element above the pivot. */
  ghost predicate FirstAbove<T>(s: seq<T>, lo: nat, hi: nat, p: T, cmp: (T, T) -> int, g: nat) {
    lo <= g <= hi < |s| && cmp(s[g], p) > 0 && forall m :: lo <= m < g ==> cmp(s[m], p) <= 0
  }

  /** The candidates of the left scan before `g`, and of the right scan behind it. */
  function EqualsBefore<T>(s: seq<T>, i: int, g: nat, p: T, cmp: (T, T) -> int): (n: nat)
    requires -1 <= i < g <= |s|
  {
    |Class(s[i + 1..g], p, cmp)|
  }

  function AtMostBehind<T>(s: seq<T>, g: nat, k: nat, p: T, cmp: (T, T) -> int): (n: nat)
    requires k <= |s|
  {
    if g < k then |AtMost(s[g + 1..k], p, cmp)| else 0
  }

  /** Each round uses up one equal before `g` for one element behind it. */
  lemma RoundCounts<T>(s: seq<T>, i: int, k: nat, g: nat, p: T, cmp: (T, T) -> int, i': nat, k': nat)
    requires -1 <= i < i' < g < k' < k <= |s|
    requires cmp(s[i'], p) == 0 && forall j :: i < j < i' ==> cmp(s[j], p) != 0
    requires cmp(s[k'], p) <= 0 && forall j :: k' < j < k ==> cmp(s[j], p) > 0
    ensures EqualsBefore(s, i, g, p, cmp) == 1 + EqualsBefore(Swap(s, i', k'), i', g, p, cmp)
    ensures AtMostBehind(s, g, k, p, cmp) == 1 + AtMostBehind(Swap(s, i', k'), g, k', p, cmp)
  {
    var t := Swap(s, i', k');
    FilterFirst(e => cmp(e, p) == 0, s[i + 1..g], i' - i - 1);
    assert s[i + 1..g][i' - i..] == s[i' + 1..g] == t[i' + 1..g];
    FilterLast(e => cmp(e, p) <= 0, s[g + 1..k], k' - g - 1);
    assert s[g + 1..k][..k' - g - 1] == s[g + 1..k'] == t[g + 1..k'];
  }

  /** The loop ends left of the first element above the pivot exactly when there are enough equals
      before it. */
  lemma {:induction false} CountsDecide<T(!new)>(
      s: seq<T>, i: int, k: nat, lo: nat, hi: nat, p: T, cmp: (T, T) -> int, g: nat)
    requires TotalPreorder(cmp) && Guarded(s, i, k, lo, hi, p, cmp, AsWritten)
    requires FirstAbove(s, lo, hi, p, cmp, g) && i < g
    ensures Loop(s, i, k, p, cmp, AsWritten).1 < g
            <==> EqualsBefore(s, i, g, p, cmp) >= AtMostBehind(s, g, k, p, cmp)
    decreases k
  {
    hide TotalPreorder, EqualsBefore, AtMostBehind, Guarded, Rearranged;
    ScansStop(s, i, k, lo, hi, p, cmp, AsWritten);
    LoopSplits(s, i, k, lo, hi, p, cmp, AsWritten);
    var (k', i') := (ScanDown(s, k, p, cmp), ScanUp(s, i, p, cmp, AsWritten));
    if i' < k' {
      SwapGuards(s, i, k, lo, hi, p, cmp, AsWritten);
      LoopSplits(Swap(s, i', k'), i', k', lo, hi, p, cmp, AsWritten);
    }
    if k' < g {
      NothingBehind(s, g, k, p, cmp);
    } else if i' < g {
      RoundCounts(s, i, k, g, p, cmp, i', k');
      CountsDecide(Swap(s, i', k'), i', k', lo, hi, p, cmp, g);
    } else {
      NoEquals(s, i, g, p, cmp);
      SomethingBehind(s, g, k, p, cmp, k');
    }
  }

  lemma NothingBehind<T>(s: seq<T>, g: nat, k: nat, p: T, cmp: (T, T) -> int)
    requires k <= |s| && forall j :: g < j < k ==> cmp(s[j], p) > 0
    ensures AtMostBehind(s, g, k, p, cmp) == 0
  {
    if g < k {
      FilterNone(e => cmp(e, p) <= 0, s[g + 1..k]);
    }
  }

  lemma SomethingBehind<T>(s: seq<T>, g: nat, k: nat, p: T, cmp: (T, T) -> int, k': nat)
    requires g < k' < k <= |s| && cmp(s[k'], p) <= 0 && forall j :: k' < j < k ==> cmp(s[j], p) > 0
    ensures AtMostBehind(s, g, k, p, cmp) > 0
  {
    FilterLast(e => cmp(e, p) <= 0, s[g + 1..k], k' - g - 1);
  }

  lemma NoEquals<T>(s: seq<T>, i: int, g: nat, p: T, cmp: (T, T) -> int)
    requires -1 <= i < g <= |s| && forall j :: i < j < g ==> cmp(s[j], p) != 0
    ensures EqualsBefore(s, i, g, p, cmp) == 0
  {
    FilterNone(e => cmp(e, p) == 0, s[i + 1..g]);
  }

  /** There are at least as many equals to the pivot before the first element above it as there are
      elements at most the pivot behind that element. */
  ghost predicate EnoughEquals<T>(s: seq<T>, lo: nat, hi: nat, p: T, cmp: (T, T) -> int)
    requires lo <= hi < |s|
  {
    forall g: nat :: FirstAbove(s, lo, hi, p, cmp, g) ==>
      |Class(s[lo..g], p, cmp)| >= |AtMost(s[g + 1..hi + 1], p, cmp)|
  }

  /** As written, everything up to the result is at most the pivot if and only if there were enough
      equals in front. */
  lemma AsWrittenSplitsIff<T(!new)>(s: seq<T>, lo: nat, hi: nat, p: T, cmp: (T, T) -> int)
    requires TotalPreorder(cmp) && PivotIn(s, lo, hi, p, cmp)
    ensures var (t, j) := Loop(s, lo - 1, hi + 1, p, cmp, AsWritten);
            j <= hi && |t| == |s|
            && ((forall m :: lo <= m <= j ==> cmp(t[m], p) <= 0) <==> EnoughEquals(s, lo, hi, p, cmp))
  {
    hide TotalPreorder, Class, AtMost, Guarded, EnoughEquals;
    FirstRoundGuarded(s, lo, hi, p, cmp, AsWritten);
    LoopSplits(s, lo - 1, hi + 1, lo, hi, p, cmp, AsWritten);
    AboveStays(s, lo - 1, hi + 1, lo, hi, p, cmp);
    if g: nat :| FirstAbove(s, lo, hi, p, cmp, g) {
      CountsDecide(s, lo - 1, hi + 1, lo, hi, p, cmp, g);
      EnoughAt(s, lo, hi, p, cmp, g);
    } else {
      NoneAbove(s, lo, hi, p, cmp, hi + 1);
      EnoughWithoutAbove(s, lo, hi, p, cmp);
    }
  }

  lemma EnoughAt<T>(s: seq<T>, lo: nat, hi: nat, p: T, cmp: (T, T) -> int, g: nat)
    requires FirstAbove(s, lo, hi, p, cmp, g)
    ensures EnoughEquals(s, lo, hi, p, cmp)
            <==> |Class(s[lo..g], p, cmp)| >= |AtMost(s[g + 1..hi + 1], p, cmp)|
  {
    hide Class, AtMost;
    assert forall h: nat :: FirstAbove(s, lo, hi, p, cmp, h) ==> h == g;
  }

  lemma EnoughWithoutAbove<T>(s: seq<T>, lo: nat, hi: nat, p: T, cmp: (T, T) -> int)
    requires lo <= hi < |s| && forall g: nat :: !FirstAbove(s, lo, hi, p, cmp, g)
    ensures EnoughEquals(s, lo, hi, p, cmp)
  {
  }

  lemma {:induction false} NoneAbove<T>(s: seq<T>, lo: nat, hi: nat, p: T, cmp: (T, T) -> int, n: nat)
    requires lo <= hi < |s| && lo <= n <= hi + 1
    requires forall g: nat :: !FirstAbove(s, lo, hi, p, cmp, g)
    ensures forall m :: lo <= m < n ==> cmp(s[m], p) <= 0
  {
    if n > lo {
      NoneAbove(s, lo, hi, p, cmp, n - 1);
      assert !FirstAbove(s, lo, hi, p, cmp, n - 1);
    }
  }
}
