/** partition and qksort: quicksort in place around a median of three random elements.

    What rand() returns and whether malloc succeeds is read from a tape with one entry for each
    call of partition. A run of the program that ends uses up a finite part of it; a run that does
    not end, which bad choices can bring about, runs off every tape. */
module QuickSort {
  import opened Comparing
  import opened InsertionSort
  import opened Partition

  /** One call of partition: three numbers from rand(), whether its two mallocs succeed, and whether
      the malloc inside the sort of the three indices does. */
  datatype Choice = Choice(r0: nat, r1: nat, r2: nat, memory: bool, medianMemory: bool)

  function CompareInt(x: int, y: int): (c: int) {
    if x > y then 1 else if x < y then -1 else 0
  }

  lemma CompareIntIsPreorder()
    ensures TotalPreorder(CompareInt)
  {
  }

  /** The three candidate positions. */
  function Candidates(c: Choice, lo: nat, hi: nat): (r: seq<int>)
    requires lo <= hi
  {
    var n := hi - lo + 1;
    [c.r0 % n + lo, c.r1 % n + lo, c.r2 % n + lo]
  }

  function PivotIndex(c: Choice, lo: nat, hi: nat): (m: int)
    requires lo <= hi
  {
    if c.medianMemory then Placed(Candidates(c, lo, hi), CompareInt)[1] else Candidates(c, lo, hi)[1]
  }

  lemma CandidatesInRange(c: Choice, lo: nat, hi: nat)
    requires lo <= hi
    ensures |Candidates(c, lo, hi)| == 3 && forall m :: 0 <= m < 3 ==> lo <= Candidates(c, lo, hi)[m] <= hi
  {
  }

  lemma PivotIndexInRange(c: Choice, lo: nat, hi: nat)
    requires lo <= hi
    ensures lo <= PivotIndex(c, lo, hi) <= hi
  {
    hide Placed, Candidates;
    CandidatesInRange(c, lo, hi);
    var r := Candidates(c, lo, hi);
    CompareIntIsPreorder();
    PlacedIsSort(r, CompareInt);
    RearrangedAll(r, Placed(r, CompareInt), m => lo <= m <= hi);
  }

  predicate AtLeastTwo(a: bool, b: bool, c: bool) {
    (a && b) || (a && c) || (b && c)
  }

  /** The pivot is taken at the median of the three random positions, or at the second of them when
      the sort of the three fails. */
  lemma PivotIsMedian(c: Choice, lo: nat, hi: nat)
    requires lo <= hi
    ensures var n := hi - lo + 1;
            var (x, y, z) := (c.r0 % n + lo, c.r1 % n + lo, c.r2 % n + lo);
            var m := PivotIndex(c, lo, hi);
            && (c.medianMemory ==>
                  && (m == x || m == y || m == z)
                  && AtLeastTwo(x <= m, y <= m, z <= m)
                  && AtLeastTwo(x >= m, y >= m, z >= m))
            && (!c.medianMemory ==> m == y)
  {
    hide Placed;
    if c.medianMemory {
      var r := Candidates(c, lo, hi);
      CompareIntIsPreorder();
      MiddleOfSorted(r);
    }
  }

  lemma MiddleOfSorted(r: seq<int>)
    requires |r| == 3
    ensures var t := Placed(r, CompareInt);
            && |t| == 3 && t[1] in r
            && AtLeastTwo(r[0] <= t[1], r[1] <= t[1], r[2] <= t[1])
            && AtLeastTwo(r[0] >= t[1], r[1] >= t[1], r[2] >= t[1])
  {
    hide Placed;
    CompareIntIsPreorder();
    PlacedIsSort(r, CompareInt);
    MiddleIsMedian(r, Placed(r, CompareInt));
  }

  lemma MiddleIsMedian(r: seq<int>, t: seq<int>)
    requires |r| == 3 && multiset(t) == multiset(r) && Sorted(t, CompareInt)
    ensures |t| == 3 && t[1] in r
    ensures AtLeastTwo(r[0] <= t[1], r[1] <= t[1], r[2] <= t[1])
    ensures AtLeastTwo(r[0] >= t[1], r[1] >= t[1], r[2] >= t[1])
  {
    assert |t| == |multiset(t)| == 3;
    assert t[1] in multiset(r);
    assert CompareInt(t[0], t[1]) <= 0 && CompareInt(t[1], t[2]) <= 0;
    SameThree(t[0], t[1], t[2], r[0], r[1], r[2], t, r);
  }

  lemma SameThree(a: int, b: int, c: int, x: int, y: int, z: int, t: seq<int>, r: seq<int>)
    requires t == [a, b, c] && r == [x, y, z] && multiset(t) == multiset(r)
    ensures (a, b, c) == (x, y, z) || (a, b, c) == (x, z, y) || (a, b, c) == (y, x, z)
         || (a, b, c) == (y, z, x) || (a, b, c) == (z, x, y) || (a, b, c) == (z, y, x)
  {
    assert multiset(t) == multiset{a, b, c} && multiset(r) == multiset{x, y, z};
    assert a in multiset(r) && b in multiset(r) && c in multiset(r);
    assert multiset{a, b, c}[x] == multiset{x, y, z}[x];
    assert multiset{a, b, c}[y] == multiset{x, y, z}[y];
    assert multiset{a, b, c}[z] == multiset{x, y, z}[z];
  }

  lemma PivotIsIn<T(!new)>(s: seq<T>, lo: nat, hi: nat, m: int, cmp: (T, T) -> int)
    requires TotalPreorder(cmp) && lo <= m <= hi < |s|
    ensures PivotIn(s, lo, hi, s[m], cmp)
  {
    Reverse(cmp, s[m], s[m]);
  }

  lemma PartedInRange<T(!new)>(s: seq<T>, lo: nat, hi: nat, m: int, cmp: (T, T) -> int, reading: Reading)
    requires TotalPreorder(cmp) && lo <= m <= hi < |s|
    ensures lo <= Loop(s, lo - 1, hi + 1, s[m], cmp, reading).1 <= hi
  {
    hide TotalPreorder, Guarded, Rearranged;
    PivotIsIn(s, lo, hi, m, cmp);
    FirstRoundGuarded(s, lo, hi, s[m], cmp, reading);
    LoopSplits(s, lo - 1, hi + 1, lo, hi, s[m], cmp, reading);
  }

  /** What partition does when its mallocs succeed: the new array and the index that it returns. */
  function Parted<T(!new)>(
      s: seq<T>, lo: nat, hi: nat, c: Choice, cmp: (T, T) -> int, reading: Reading): (r: (seq<T>, int))
    requires lo <= hi < |s| && TotalPreorder(cmp)
    ensures |r.0| == |s| && lo <= r.1 <= hi
  {
    PivotIndexInRange(c, lo, hi);
    PartedInRange(s, lo, hi, PivotIndex(c, lo, hi), cmp, reading);
    Loop(s, lo - 1, hi + 1, s[PivotIndex(c, lo, hi)], cmp, reading)
  }

  /** Whatever was chosen: partition stays in the range, permutes it, and leaves everything right of
      the result at least the pivot, as written and as meant; as meant, everything up to the result
      is also at most the pivot. */
  lemma PartedSplits<T(!new)>(s: seq<T>, lo: nat, hi: nat, c: Choice, cmp: (T, T) -> int, reading: Reading)
    requires TotalPreorder(cmp) && lo <= hi < |s|
    ensures var (t, j) := Parted(s, lo, hi, c, cmp, reading);
            var m := PivotIndex(c, lo, hi);
            && lo <= j <= hi && lo <= m <= hi
            && Rearranged(s, t, lo, hi)
            && (forall k :: j < k <= hi ==> cmp(t[k], s[m]) >= 0)
            && (reading.Meant? ==> forall k :: lo <= k <= j ==> cmp(t[k], s[m]) <= 0)
  {
    hide TotalPreorder, Guarded, Rearranged;
    PivotIndexInRange(c, lo, hi);
    var m := PivotIndex(c, lo, hi);
    PivotIsIn(s, lo, hi, m, cmp);
    FirstRoundGuarded(s, lo, hi, s[m], cmp, reading);
    LoopSplits(s, lo - 1, hi + 1, lo, hi, s[m], cmp, reading);
  }

  /** The scan from the right, in place; the ghost parameter is a position where it stops. */
  method ScanLeftwards<T>(a: array<T>, k: nat, pval: T, cmp: (T, T) -> int, ghost stop: nat) returns (k': nat)
    requires stop < k <= a.Length && cmp(a[stop], pval) <= 0
    ensures k' == ScanDown(a[..], k, pval, cmp)
  {
    ghost var s := a[..];
    ScanDownStops(s, k, pval, cmp, stop);
    k' := k - 1;
    while cmp(a[k'], pval) > 0
      invariant stop <= k' < k && ScanDown(s, k' + 1, pval, cmp) == ScanDown(s, k, pval, cmp)
      decreases k'
    {
      k' := k' - 1;
    }
  }

  /** The scan from the left, in place. */
  method ScanRightwards<T>(a: array<T>, i: int, pval: T, cmp: (T, T) -> int, reading: Reading, ghost stop: nat)
    returns (i': nat)
    requires -1 <= i < stop < a.Length && !GoesOn(cmp(a[stop], pval), reading)
    ensures i' == ScanUp(a[..], i, pval, cmp, reading)
  {
    ghost var s := a[..];
    ScanUpStops(s, i, pval, cmp, reading, stop);
    i' := i + 1;
    while GoesOn(cmp(a[i'], pval), reading)
      invariant i < i' <= stop && ScanUp(s, i' - 1, pval, cmp, reading) == ScanUp(s, i, pval, cmp, reading)
      decreases stop - i'
    {
      i' := i' + 1;
    }
  }

  /** partition, in place. */
  method PartitionRange<T(!new)>(a: array<T>, lo: nat, hi: nat, cmp: (T, T) -> int, c: Choice, reading: Reading)
    returns (j: int)
    requires lo <= hi < a.Length && TotalPreorder(cmp)
    modifies a
    ensures !c.memory ==> j == -1 && a[..] == old(a[..])
    ensures c.memory ==> (a[..], j) == Parted(old(a[..]), lo, hi, c, cmp, reading)
  {
    hide TotalPreorder, Guarded, Rearranged, ScanDown, ScanUp;
    if !c.memory {
      return -1;
    }
    var m := ChoosePivot(c, lo, hi);
    var pval := a[m];
    PivotIsIn(a[..], lo, hi, m, cmp);
    FirstRoundGuarded(a[..], lo, hi, pval, cmp, reading);
    var i: int, k := lo - 1, hi + 1;
    while true
      invariant lo - 1 <= i < k <= hi + 1
      invariant Guarded(a[..], i, k, lo, hi, pval, cmp, reading)
      invariant Loop(a[..], i, k, pval, cmp, reading) == Loop(old(a[..]), lo - 1, hi + 1, pval, cmp, reading)
      decreases k
    {
      ghost var s := a[..];
      ScansStop(s, i, k, lo, hi, pval, cmp, reading);
      var k' := ScanLeftwards(a, k, pval, cmp, ScanDown(s, k, pval, cmp));
      var i' := ScanRightwards(a, i, pval, cmp, reading, ScanUp(s, i, pval, cmp, reading));
      if i' >= k' {
        return k';
      }
      SwapGuards(s, i, k, lo, hi, pval, cmp, reading);
      i, k := i', k';
      a[i], a[k] := a[k], a[i];
      assert a[..] == Swap(s, i, k);
    }
  }

  /** The choice of the pivot: the three candidates are sorted by issort, and the middle one taken. */
  method ChoosePivot(c: Choice, lo: nat, hi: nat) returns (m: int)
    requires lo <= hi
    ensures m == PivotIndex(c, lo, hi) && lo <= m <= hi
  {
    var n := hi - lo + 1;
    var r := new int[3];
    r[0], r[1], r[2] := c.r0 % n + lo, c.r1 % n + lo, c.r2 % n + lo;
    assert r[..] == Candidates(c, lo, hi) == r[..3];
    CompareIntIsPreorder();
    var code := Issort(r, 3, CompareInt, c.medianMemory);
    assert r[..] == r[..3];
    PivotIndexInRange(c, lo, hi);
    m := r[1];
  }

  // ---------- qksort ----------

  datatype Outcome<T> = Returned(data: seq<T>, tape: seq<Choice>)   // qksort returned 0
                      | Failed(data: seq<T>)                       // qksort returned -1
                      | Running(data: seq<T>)                      // it has not returned yet

  /** qksort on i..k, with the choices still to come. */
  function Qksort<T(!new)>(
      s: seq<T>, i: nat, k: int, tape: seq<Choice>, cmp: (T, T) -> int, reading: Reading): (r: Outcome<T>)
    requires k < |s| && TotalPreorder(cmp)
    ensures |r.data| == |s|
    ensures r.Returned? ==> |r.tape| <= |tape|
    decreases |tape|
  {
    if i >= k then Returned(s, tape)
    else if tape == [] then Running(s)
    else if !tape[0].memory then Failed(s)
    else
      var (t, j) := Parted(s, i, k, tape[0], cmp, reading);
      var left := Qksort(t, i, j, tape[1..], cmp, reading);
      if !left.Returned? then left else Qksort(left.data, j + 1, k, left.tape, cmp, reading)
  }

  /** qksort, in place. It returns the unused part of the tape as well. */
  method QksortRange<T(!new)>(a: array<T>, i: nat, k: int, cmp: (T, T) -> int, tape: seq<Choice>, reading: Reading)
    returns (running: bool, code: int, rest: seq<Choice>)
    requires k < a.Length && TotalPreorder(cmp)
    modifies a
    ensures var r := Qksort(old(a[..]), i, k, tape, cmp, reading);
            && a[..] == r.data
            && (running <==> r.Running?)
            && (!running ==> code == if r.Returned? then 0 else -1)
            && (r.Returned? ==> rest == r.tape)
    decreases |tape|
  {
    hide TotalPreorder, Parted;
    ghost var goal := Qksort(a[..], i, k, tape, cmp, reading);
    var lo := i;
    rest := tape;
    while lo < k
      invariant |rest| <= |tape| && lo >= 0
      invariant Qksort(a[..], lo, k, rest, cmp, reading) == goal
      decreases |rest|
    {
      if rest == [] {
        return true, 0, rest;
      }
      PartedSplits(a[..], lo, k, rest[0], cmp, reading);
      var j := PartitionRange(a, lo, k, cmp, rest[0], reading);
      if j < 0 {
        return false, -1, rest[1..];
      }
      var r, code', rest' := QksortRange(a, lo, j, cmp, rest[1..], reading);
      if r || code' < 0 {
        return r, code', rest';
      }
      rest := rest';
      lo := j + 1;
    }
    return false, 0, rest;
  }

  // ---------- what qksort achieves ----------

  /** However qksort ends, or while it is still running, only its range is rearranged. */
  lemma {:induction false} QksortRearranges<T(!new)>(
      s: seq<T>, i: nat, k: int, tape: seq<Choice>, cmp: (T, T) -> int, reading: Reading)
    requires k < |s| && TotalPreorder(cmp)
    ensures KeptOutside(s, Qksort(s, i, k, tape, cmp, reading).data, i, k)
    decreases |tape|
  {
    hide TotalPreorder, Parted, Rearranged, PivotIndex, KeptOutside;
    if i < k && tape != [] && tape[0].memory {
      var (t, j) := Parted(s, i, k, tape[0], cmp, reading);
      PartedSplits(s, i, k, tape[0], cmp, reading);
      var left := Qksort(t, i, j, tape[1..], cmp, reading);
      QksortRearranges(t, i, j, tape[1..], cmp, reading);
      KeptInPart(s, t, left.data, i, j, i, k);
      if left.Returned? {
        QksortRearranges(left.data, j + 1, k, left.tape, cmp, reading);
        var end := Qksort(left.data, j + 1, k, left.tape, cmp, reading).data;
        KeptInPart(s, left.data, end, j + 1, k, i, k);
      }
    } else {
      KeptSame(s, i, k);
    }
  }

  /** Only the cells i..k are rearranged, and none if there are fewer than two. */
  ghost predicate KeptOutside<T>(s: seq<T>, t: seq<T>, i: nat, k: int) {
    if i < k then Rearranged(s, t, i, k) else t == s
  }

  lemma KeptInPart<T>(s: seq<T>, t: seq<T>, u: seq<T>, lo: nat, hi: int, i: nat, k: nat)
    requires i <= lo && hi <= k < |s| && Rearranged(s, t, i, k) && KeptOutside(t, u, lo, hi)
    ensures Rearranged(s, u, i, k)
    ensures i < k ==> KeptOutside(s, u, i, k)
  {
    hide Rearranged;
    if lo < hi {
      RearrangedLength(s, t, i, k);
      Widen(t, u, lo, hi, i, k);
      RearrangedTransitive(s, t, u, i, k);
    }
  }

  lemma RearrangedLength<T>(s: seq<T>, t: seq<T>, lo: nat, hi: nat)
    requires Rearranged(s, t, lo, hi)
    ensures |t| == |s|
  {
  }

  lemma KeptSame<T>(s: seq<T>, i: nat, k: int)
    requires k < |s|
    ensures KeptOutside(s, s, i, k)
  {
  }

  lemma ThreeSlices<T>(s: seq<T>, a: nat, b: nat, c: nat, d: nat)
    requires a <= b <= c <= d <= |s|
    ensures s[a..d] == s[a..b] + s[b..c] + s[c..d]
  {
  }

  lemma SameMiddle<T>(a: seq<T>, b: seq<T>, b': seq<T>, c: seq<T>)
    requires multiset(b) == multiset(b')
    ensures multiset(a + b' + c) == multiset(a + b + c)
  {
    assert multiset(a + b + c) == multiset(a) + multiset(b) + multiset(c);
    assert multiset(a + b' + c) == multiset(a) + multiset(b') + multiset(c);
  }

  lemma WidenContents<T>(s: seq<T>, t: seq<T>, lo: nat, hi: nat, lo': nat, hi': nat)
    requires |t| == |s| && lo' <= lo <= hi <= hi' < |s|
    requires t[lo'..lo] == s[lo'..lo] && t[hi + 1..hi' + 1] == s[hi + 1..hi' + 1]
    requires multiset(t[lo..hi + 1]) == multiset(s[lo..hi + 1])
    ensures multiset(t[lo'..hi' + 1]) == multiset(s[lo'..hi' + 1])
  {
    var (a, b, b', c) := (s[lo'..lo], s[lo..hi + 1], t[lo..hi + 1], s[hi + 1..hi' + 1]);
    assert s[lo'..hi' + 1] == a + b + c by {
      ThreeSlices(s, lo', lo, hi + 1, hi' + 1);
    }
    assert t[lo'..hi' + 1] == a + b' + c by {
      ThreeSlices(t, lo', lo, hi + 1, hi' + 1);
    }
    SameMiddle(a, b, b', c);
  }

  /** What rearranges a part rearranges the whole. */
  lemma Widen<T>(s: seq<T>, t: seq<T>, lo: nat, hi: nat, lo': nat, hi': nat)
    requires Rearranged(s, t, lo, hi) && lo' <= lo && hi <= hi' < |s|
    ensures Rearranged(s, t, lo', hi')
  {
    SlicesOfPrefix(s, t, lo', lo, lo);
    SlicesOfSuffix(s, t, hi + 1, hi + 1, hi' + 1);
    WidenContents(s, t, lo, hi, lo', hi');
    SlicesOfPrefix(s, t, 0, lo', lo);
    SlicesOfSuffix(s, t, hi + 1, hi' + 1, |s|);
  }

  ghost predicate Before<T>(a: seq<T>, b: seq<T>, cmp: (T, T) -> int) {
    forall m, n :: 0 <= m < |a| && 0 <= n < |b| ==> cmp(a[m], b[n]) <= 0
  }

  lemma SortedConcat<T>(a: seq<T>, b: seq<T>, cmp: (T, T) -> int)
    ensures Sorted(a + b, cmp) <==> Sorted(a, cmp) && Sorted(b, cmp) && Before(a, b, cmp)
  {
    if Sorted(a + b, cmp) {
      forall m, n | 0 <= m < |a| && 0 <= n < |b|
        ensures cmp(a[m], b[n]) <= 0
      {
        assert (a + b)[m] == a[m] && (a + b)[|a| + n] == b[n];
      }
      forall m, n | 0 <= m < n < |b|
        ensures cmp(b[m], b[n]) <= 0
      {
        assert (a + b)[|a| + m] == b[m] && (a + b)[|a| + n] == b[n];
      }
      forall m, n | 0 <= m < n < |a|
        ensures cmp(a[m], a[n]) <= 0
      {
        assert (a + b)[m] == a[m] && (a + b)[n] == a[n];
      }
    }
  }

  lemma BeforeRearranged<T>(a: seq<T>, b: seq<T>, a': seq<T>, b': seq<T>, cmp: (T, T) -> int)
    requires multiset(a) == multiset(a') && multiset(b) == multiset(b')
    ensures Before(a, b, cmp) ==> Before(a', b', cmp)
  {
    if Before(a, b, cmp) {
      forall m, n | 0 <= m < |a'| && 0 <= n < |b'|
        ensures cmp(a'[m], b'[n]) <= 0
      {
        assert a'[m] in multiset(a) && b'[n] in multiset(b);
      }
    }
  }

  /** In the run of qksort from here, every call of partition leaves nothing left of its result that
      comes after something right of it. */
  ghost predicate SplitsInOrder<T(!new)>(
      s: seq<T>, i: nat, k: int, tape: seq<Choice>, cmp: (T, T) -> int, reading: Reading)
    requires k < |s| && TotalPreorder(cmp)
    decreases |tape|
  {
    i >= k || tape == [] || !tape[0].memory ||
    (var (t, j) := Parted(s, i, k, tape[0], cmp, reading);
     var left := Qksort(t, i, j, tape[1..], cmp, reading);
     && Before(t[i..j + 1], t[j + 1..k + 1], cmp)
     && SplitsInOrder(t, i, j, tape[1..], cmp, reading)
     && (left.Returned? ==> SplitsInOrder(left.data, j + 1, k, left.tape, cmp, reading)))
  }

  /** Equal suffixes, or equal prefixes, have equal slices. */
  lemma SlicesOfSuffix<T>(s: seq<T>, t: seq<T>, at: nat, lo: nat, hi: nat)
    requires at <= lo <= hi <= |s| == |t| && s[at..] == t[at..]
    ensures s[lo..hi] == t[lo..hi]
  {
    forall m | lo <= m < hi
      ensures s[m] == t[m]
    {
      assert s[m] == s[at..][m - at] && t[m] == t[at..][m - at];
    }
  }

  lemma SlicesOfPrefix<T>(s: seq<T>, t: seq<T>, lo: nat, hi: nat, at: nat)
    requires lo <= hi <= at <= |s| == |t| && s[..at] == t[..at]
    ensures s[lo..hi] == t[lo..hi]
  {
    forall m | lo <= m < hi
      ensures s[m] == t[m]
    {
      assert s[m] == s[..at][m] && t[m] == t[..at][m];
    }
  }

  /** What the two recursive calls leave of the two sides of a split. */
  lemma SidesKept<T>(t: seq<T>, u: seq<T>, v: seq<T>, i: nat, j: nat, k: nat)
    requires i <= j <= k < |t| && |u| == |t| && |v| == |t|
    requires KeptOutside(t, u, i, j) && KeptOutside(u, v, j + 1, k)
    ensures v[i..k + 1] == u[i..j + 1] + v[j + 1..k + 1]
    ensures multiset(u[i..j + 1]) == multiset(t[i..j + 1])
    ensures multiset(v[j + 1..k + 1]) == multiset(t[j + 1..k + 1])
  {
    SlicesOfPrefix(u, v, i, j + 1, j + 1);
    SlicesOfSuffix(t, u, j + 1, j + 1, k + 1);
    assert v[i..k + 1] == v[i..j + 1] + v[j + 1..k + 1];
  }

  /** When qksort returns 0, its range is sorted if and only if all its splits were in order. */
  lemma {:induction false} QksortSortsIff<T(!new)>(
      s: seq<T>, i: nat, k: int, tape: seq<Choice>, cmp: (T, T) -> int, reading: Reading)
    requires k < |s| && TotalPreorder(cmp) && i <= k + 1 && Qksort(s, i, k, tape, cmp, reading).Returned?
    ensures Sorted(Qksort(s, i, k, tape, cmp, reading).data[i..k + 1], cmp)
            <==> SplitsInOrder(s, i, k, tape, cmp, reading)
    decreases |tape|
  {
    hide TotalPreorder, Parted, Rearranged, Sorted, Before, KeptOutside;
    if i < k {
      var (t, j) := Parted(s, i, k, tape[0], cmp, reading);
      var left := Qksort(t, i, j, tape[1..], cmp, reading);
      var u := left.data;
      var v := Qksort(u, j + 1, k, left.tape, cmp, reading).data;
      QksortSortsIff(t, i, j, tape[1..], cmp, reading);
      QksortSortsIff(u, j + 1, k, left.tape, cmp, reading);
      QksortRearranges(t, i, j, tape[1..], cmp, reading);
      QksortRearranges(u, j + 1, k, left.tape, cmp, reading);
      SidesSortedIff(t, u, v, i, j, k, cmp);
    } else {
      ShortSorted(s[i..k + 1], cmp);
    }
  }

  /** What a returning call leaves is sorted exactly when its two sides are and the split was in order. */
  lemma SidesSortedIff<T>(t: seq<T>, u: seq<T>, v: seq<T>, i: nat, j: nat, k: nat, cmp: (T, T) -> int)
    requires i <= j <= k < |t| && |u| == |t| && |v| == |t|
    requires KeptOutside(t, u, i, j) && KeptOutside(u, v, j + 1, k)
    ensures Sorted(v[i..k + 1], cmp)
            <==> && Sorted(u[i..j + 1], cmp) && Sorted(v[j + 1..k + 1], cmp)
                 && Before(t[i..j + 1], t[j + 1..k + 1], cmp)
  {
    hide Rearranged, Sorted, Before, KeptOutside;
    SidesKept(t, u, v, i, j, k);
    SortedConcat(u[i..j + 1], v[j + 1..k + 1], cmp);
    BeforeRearranged(t[i..j + 1], t[j + 1..k + 1], u[i..j + 1], v[j + 1..k + 1], cmp);
    BeforeRearranged(u[i..j + 1], v[j + 1..k + 1], t[i..j + 1], t[j + 1..k + 1], cmp);
  }

  lemma ShortSorted<T>(s: seq<T>, cmp: (T, T) -> int)
    requires |s| <= 1
    ensures Sorted(s, cmp)
  {
  }

  lemma PivotSeparates<T(!new)>(a: seq<T>, b: seq<T>, p: T, cmp: (T, T) -> int)
    requires TotalPreorder(cmp)
    requires forall m :: 0 <= m < |a| ==> cmp(a[m], p) <= 0
    requires forall n :: 0 <= n < |b| ==> cmp(b[n], p) >= 0
    ensures Before(a, b, cmp)
  {
    hide TotalPreorder;
    forall m, n | 0 <= m < |a| && 0 <= n < |b|
      ensures cmp(a[m], b[n]) <= 0
    {
      Reverse(cmp, p, b[n]);
      Transitive(cmp, a[m], p, b[n]);
    }
  }

  /** In the meant reading all splits are in order, whatever is chosen. */
  lemma {:induction false} MeantSplitsInOrder<T(!new)>(s: seq<T>, i: nat, k: int, tape: seq<Choice>, cmp: (T, T) -> int)
    requires k < |s| && TotalPreorder(cmp)
    ensures SplitsInOrder(s, i, k, tape, cmp, Meant)
    decreases |tape|
  {
    hide TotalPreorder, Parted, Rearranged, Before, PivotIndex;
    if i < k && tape != [] && tape[0].memory {
      var (t, j) := Parted(s, i, k, tape[0], cmp, Meant);
      PartedSplits(s, i, k, tape[0], cmp, Meant);
      PivotSeparates(t[i..j + 1], t[j + 1..k + 1], s[PivotIndex(tape[0], i, k)], cmp);
      var left := Qksort(t, i, j, tape[1..], cmp, Meant);
      MeantSplitsInOrder(t, i, j, tape[1..], cmp);
      if left.Returned? {
        MeantSplitsInOrder(left.data, j + 1, k, left.tape, cmp);
      }
    }
  }

  /** Quicksort with the scan as meant: whenever it returns 0, for all choices and every comparator,
      the range i..k is sorted, a rearrangement of what it was, and nothing else has changed. */
  lemma QksortSorts<T(!new)>(s: seq<T>, i: nat, k: int, tape: seq<Choice>, cmp: (T, T) -> int)
    requires i <= k < |s| && TotalPreorder(cmp) && Qksort(s, i, k, tape, cmp, Meant).Returned?
    ensures var t := Qksort(s, i, k, tape, cmp, Meant).data;
            && Sorted(t[i..k + 1], cmp)
            && multiset(t[i..k + 1]) == multiset(s[i..k + 1])
            && t[..i] == s[..i] && t[k + 1..] == s[k + 1..]
  {
    hide TotalPreorder, Parted, Sorted;
    MeantSplitsInOrder(s, i, k, tape, cmp);
    QksortSortsIff(s, i, k, tape, cmp, Meant);
    QksortRearranges(s, i, k, tape, cmp, Meant);
  }

  ghost predicate AllMemory(tape: seq<Choice>) {
    forall m :: 0 <= m < |tape| ==> tape[m].memory
  }

  /** `rest` is what is left of `tape` behind choices that all found memory. */
  ghost predicate UsedUpTo(tape: seq<Choice>, rest: seq<Choice>) {
    var used := |tape| - |rest|;
    used >= 0 && rest == tape[used..] && AllMemory(tape[..used])
  }

  lemma UsedFurther(a: seq<Choice>, b: seq<Choice>, c: seq<Choice>)
    requires UsedUpTo(a, b) && UsedUpTo(b, c)
    ensures UsedUpTo(a, c)
  {
    forall m | 0 <= m < |a| - |c|
      ensures a[m].memory
    {
      if m < |a| - |b| {
        assert a[m] == a[..|a| - |b|][m];
      } else {
        assert a[m] == b[m - (|a| - |b|)] == b[..|b| - |c|][m - (|a| - |b|)];
      }
    }
  }

  lemma MemoryBehind(a: seq<Choice>, b: seq<Choice>)
    requires UsedUpTo(a, b)
    ensures AllMemory(a) <==> AllMemory(b)
  {
    var used := |a| - |b|;
    forall m | 0 <= m < |a| && AllMemory(b)
      ensures a[m].memory
    {
      assert if m < used then a[m] == a[..used][m] else a[m] == b[m - used];
    }
    forall m | 0 <= m < |b| && AllMemory(a)
      ensures b[m].memory
    {
      assert b[m] == a[used + m];
    }
  }

  /** qksort returns -1 only for want of memory. It takes its choices one after the other: a run that
      returns 0 has used up a front part of them, all with memory. */
  lemma {:induction false} FailsForWantOfMemory<T(!new)>(
      s: seq<T>, i: nat, k: int, tape: seq<Choice>, cmp: (T, T) -> int, reading: Reading)
    requires k < |s| && TotalPreorder(cmp)
    ensures var r := Qksort(s, i, k, tape, cmp, reading);
            && (r.Running? ==> AllMemory(tape))
            && (r.Failed? ==> !AllMemory(tape))
            && (r.Returned? ==> UsedUpTo(tape, r.tape))
    decreases |tape|
  {
    hide TotalPreorder, Parted, UsedUpTo;
    UsedNothing(tape);
    if i < k && tape != [] && tape[0].memory {
      var (t, j) := Parted(s, i, k, tape[0], cmp, reading);
      var rest := tape[1..];
      var left := Qksort(t, i, j, rest, cmp, reading);
      FailsForWantOfMemory(t, i, j, rest, cmp, reading);
      UsedFirst(tape);
      MemoryBehind(tape, rest);
      if left.Returned? {
        UsedFurther(tape, rest, left.tape);
        MemoryBehind(tape, left.tape);
        FailsForWantOfMemory(left.data, j + 1, k, left.tape, cmp, reading);
        var r := Qksort(left.data, j + 1, k, left.tape, cmp, reading);
        if r.Returned? {
          UsedFurther(tape, left.tape, r.tape);
        }
      }
    }
  }

  lemma UsedNothing(tape: seq<Choice>)
    ensures UsedUpTo(tape, tape)
  {
  }

  lemma UsedFirst(tape: seq<Choice>)
    requires tape != [] && tape[0].memory
    ensures UsedUpTo(tape, tape[1..])
  {
  }

  // ---------- when qksort ends ----------

  lemma SameCandidates(c: Choice, lo: nat, hi: nat)
    requires lo <= hi && c.r0 == c.r1 == c.r2
    ensures PivotIndex(c, lo, hi) == c.r0 % (hi - lo + 1) + lo
  {
    hide Placed;
    var r := Candidates(c, lo, hi);
    CompareIntIsPreorder();
    PlacedIsSort(r, CompareInt);
    RearrangedAll(r, Placed(r, CompareInt), m => m == r[0]);
  }

  /** A choice whose pivot is never the last element of its range. */
  ghost predicate AvoidsLast(c: Choice) {
    c.memory && forall lo: nat, hi: nat :: lo < hi ==> PivotIndex(c, lo, hi) < hi
  }

  /** Such choices exist: three zeros take the first element. */
  lemma FirstAvoidsLast(c: Choice)
    requires c.memory && c.r0 == c.r1 == c.r2 == 0
    ensures AvoidsLast(c)
  {
    forall lo: nat, hi: nat | lo < hi
      ensures PivotIndex(c, lo, hi) < hi
    {
      SameCandidates(c, lo, hi);
    }
  }

  lemma PartedProgress<T(!new)>(s: seq<T>, lo: nat, hi: nat, c: Choice, cmp: (T, T) -> int, reading: Reading)
    requires lo < hi < |s| && TotalPreorder(cmp) && PivotIndex(c, lo, hi) < hi
    ensures Parted(s, lo, hi, c, cmp, reading).1 < hi
  {
    hide TotalPreorder, Loop, PivotIndex;
    PivotIndexInRange(c, lo, hi);
    var m := PivotIndex(c, lo, hi);
    PivotIsIn(s, lo, hi, m, cmp);
    LastIndexIff(s, lo, hi, s[m], cmp, reading);
    Reverse(cmp, s[m], s[m]);
  }

  /** With such choices, in either reading, qksort ends after at most k - i calls of partition. */
  lemma {:induction false} QksortEnds<T(!new)>(
      s: seq<T>, i: nat, k: int, tape: seq<Choice>, cmp: (T, T) -> int, reading: Reading)
    requires i <= k + 1 && k < |s| && TotalPreorder(cmp)
    requires |tape| >= k - i && forall c :: c in tape ==> AvoidsLast(c)
    ensures var r := Qksort(s, i, k, tape, cmp, reading);
            && r.Returned? && |tape| - |r.tape| <= (if i < k then k - i else 0)
            && forall c :: c in r.tape ==> AvoidsLast(c)
    decreases |tape|
  {
    hide TotalPreorder, Parted;
    if i < k {
      assert tape[0] in tape;
      PartedProgress(s, i, k, tape[0], cmp, reading);
      var (t, j) := Parted(s, i, k, tape[0], cmp, reading);
      QksortEnds(t, i, j, tape[1..], cmp, reading);
      var left := Qksort(t, i, j, tape[1..], cmp, reading);
      QksortEnds(left.data, j + 1, k, left.tape, cmp, reading);
    }
  }

  /** Without that it need not end: as long as the last element is chosen and the left scan goes on
      past all others, qksort keeps calling itself on the very same range. */
  lemma {:induction false} QksortStuck<T(!new)>(
      s: seq<T>, i: nat, k: nat, tape: seq<Choice>, cmp: (T, T) -> int, reading: Reading)
    requires i < k < |s| && TotalPreorder(cmp)
    requires forall m :: i <= m < k ==> GoesOn(cmp(s[m], s[k]), reading)
    requires forall c :: c in tape ==> c.memory && PivotIndex(c, i, k) == k
    ensures Qksort(s, i, k, tape, cmp, reading) == Running(s)
    decreases |tape|
  {
    hide TotalPreorder, Loop, PivotIndex;
    if tape != [] {
      assert tape[0] in tape;
      PivotIsIn(s, i, k, k, cmp);
      Reverse(cmp, s[k], s[k]);
      LastIndexIff(s, i, k, s[k], cmp, reading);
      QksortStuck(s, i, k, tape[1..], cmp, reading);
    }
  }

  // ---------- longer tapes ----------

  /** A run that returns does the same with more choices behind, and leaves those as well. */
  lemma {:induction false} QksortAppend<T(!new)>(
      s: seq<T>, i: nat, k: int, tape: seq<Choice>, more: seq<Choice>, cmp: (T, T) -> int, reading: Reading)
    requires k < |s| && TotalPreorder(cmp) && Qksort(s, i, k, tape, cmp, reading).Returned?
    ensures var r := Qksort(s, i, k, tape, cmp, reading);
            Qksort(s, i, k, tape + more, cmp, reading) == Returned(r.data, r.tape + more)
    decreases |tape|
  {
    hide TotalPreorder, Parted;
    if i < k {
      var (t, j) := Parted(s, i, k, tape[0], cmp, reading);
      assert (tape + more)[1..] == tape[1..] + more;
      QksortAppend(t, i, j, tape[1..], more, cmp, reading);
      var left := Qksort(t, i, j, tape[1..], cmp, reading);
      QksortAppend(left.data, j + 1, k, left.tape, more, cmp, reading);
    }
  }

  /** A call whose left part uses up `left` runs on the right part with `rest`. */
  lemma QksortComposed<T(!new)>(
      s: seq<T>, i: nat, k: nat, c: Choice, left: seq<Choice>, rest: seq<Choice>, cmp: (T, T) -> int, reading: Reading)
    requires i < k < |s| && TotalPreorder(cmp) && c.memory
    requires var (t, j) := Parted(s, i, k, c, cmp, reading);
             var r := Qksort(t, i, j, left, cmp, reading); r.Returned? && r.tape == []
    ensures var (t, j) := Parted(s, i, k, c, cmp, reading);
            var u := Qksort(t, i, j, left, cmp, reading).data;
            Qksort(s, i, k, [c] + left + rest, cmp, reading) == Qksort(u, j + 1, k, rest, cmp, reading)
  {
    hide TotalPreorder, Parted;
    var (t, j) := Parted(s, i, k, c, cmp, reading);
    var tape := [c] + left + rest;
    assert tape[1..] == left + rest;
    QksortAppend(t, i, j, left, rest, cmp, reading);
    assert [] + rest == rest;
  }

  const FIRST: Choice := Choice(0, 0, 0, true, true)

  /** There is always a tape that a run uses up exactly: taking the first element each time. */
  lemma {:induction false} QksortCompletes<T(!new)>(s: seq<T>, i: nat, k: int, cmp: (T, T) -> int, reading: Reading)
    returns (tape: seq<Choice>)
    requires i <= k + 1 && k < |s| && TotalPreorder(cmp)
    ensures var r := Qksort(s, i, k, tape, cmp, reading); r.Returned? && r.tape == []
    ensures forall c :: c in tape ==> c.memory
    decreases k - i
  {
    hide TotalPreorder, Parted;
    if i >= k {
      tape := [];
    } else {
      FirstAvoidsLast(FIRST);
      PartedProgress(s, i, k, FIRST, cmp, reading);
      var (t, j) := Parted(s, i, k, FIRST, cmp, reading);
      var left := QksortCompletes(t, i, j, cmp, reading);
      var u := Qksort(t, i, j, left, cmp, reading).data;
      var right := QksortCompletes(u, j + 1, k, cmp, reading);
      tape := [FIRST] + left + right;
      QksortComposed(s, i, k, FIRST, left, right, cmp, reading);
    }
  }

  // ---------- exactly when a run returns ----------

  /** How many calls of partition on the way returned an index other than the last of their range. */
  function Advances<T(!new)>(
      s: seq<T>, i: nat, k: int, tape: seq<Choice>, cmp: (T, T) -> int, reading: Reading): (n: nat)
    requires k < |s| && TotalPreorder(cmp)
    decreases |tape|
  {
    if i >= k || tape == [] || !tape[0].memory then 0
    else
      var (t, j) := Parted(s, i, k, tape[0], cmp, reading);
      var left := Qksort(t, i, j, tape[1..], cmp, reading);
      (if j < k then 1 else 0)
      + Advances(t, i, j, tape[1..], cmp, reading)
      + if left.Returned? then Advances(left.data, j + 1, k, left.tape, cmp, reading) else 0
  }

  /** In either reading a run has returned 0 if and only if k - i of its calls of partition returned an
      index other than the last; it never makes more such calls. */
  lemma {:induction false} ReturnsIff<T(!new)>(
      s: seq<T>, i: nat, k: int, tape: seq<Choice>, cmp: (T, T) -> int, reading: Reading)
    requires i <= k + 1 && k < |s| && TotalPreorder(cmp)
    ensures var (span, n) := (if i < k then k - i else 0, Advances(s, i, k, tape, cmp, reading));
            && n <= span
            && (Qksort(s, i, k, tape, cmp, reading).Returned? <==> n == span)
    decreases |tape|
  {
    hide TotalPreorder, Parted;
    if i < k && tape != [] && tape[0].memory {
      var (t, j) := Parted(s, i, k, tape[0], cmp, reading);
      var left := Qksort(t, i, j, tape[1..], cmp, reading);
      ReturnsIff(t, i, j, tape[1..], cmp, reading);
      if left.Returned? {
        ReturnsIff(left.data, j + 1, k, left.tape, cmp, reading);
      }
    }
  }
}
