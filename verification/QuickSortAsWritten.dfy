/** What quicksort achieves with the left scan as written: exactly which ranges it sorts whatever is
    chosen, and exactly which ranges it can work on forever. */
module QuickSortAsWritten {
  import opened Comparing
  import opened Partition
  import opened QuickSort

  // ---------- the ranges that are sorted whatever is chosen ----------

  /** No element of lo..hi has two strictly smaller ones behind it. */
  ghost predicate NoTwoBehind<T>(s: seq<T>, lo: nat, hi: int, cmp: (T, T) -> int)
    requires hi < |s|
  {
    forall g, h, h' :: lo <= g < h < h' <= hi ==> !(cmp(s[h], s[g]) < 0 && cmp(s[h'], s[g]) < 0)
  }

  lemma AtMostOneBehind<T>(s: seq<T>, lo: nat, hi: nat, cmp: (T, T) -> int, g: nat, h: nat, h': nat)
    requires hi < |s| && NoTwoBehind(s, lo, hi, cmp)
    requires lo <= g && g < h <= hi && g < h' <= hi && h != h'
    ensures !(cmp(s[h], s[g]) < 0 && cmp(s[h'], s[g]) < 0)
  {
  }

  /** Exchanging two elements of the same class changes no comparison. */
  lemma EqualSwapKeeps<T(!new)>(s: seq<T>, i: nat, k: nat, lo: nat, hi: nat, cmp: (T, T) -> int)
    requires TotalPreorder(cmp) && lo <= i < k <= hi < |s|
    requires cmp(s[k], s[i]) == 0 && NoTwoBehind(s, lo, hi, cmp)
    ensures NoTwoBehind(Swap(s, i, k), lo, hi, cmp)
  {
    hide TotalPreorder;
    var t := Swap(s, i, k);
    Reverse(cmp, s[k], s[i]);
    forall m | 0 <= m < |s|
      ensures cmp(s[m], t[m]) <= 0 && cmp(t[m], s[m]) <= 0
    {
      Reverse(cmp, s[m], s[m]);
    }
    forall g, h | lo <= g < h <= hi && cmp(t[h], t[g]) < 0
      ensures cmp(s[h], s[g]) < 0
    {
      StrictlyBefore(cmp, s[h], t[h], t[g]);
      StrictlyBefore(cmp, s[h], t[g], s[g]);
    }
  }

  /** Moving a smaller element to the front of an equal of the pivot. Behind that equal there was no
      other smaller one, so nobody gets a second smaller element behind it. */
  lemma SmallerSwapKeeps<T(!new)>(s: seq<T>, i: nat, k: nat, lo: nat, hi: nat, cmp: (T, T) -> int)
    requires TotalPreorder(cmp) && lo <= i < k <= hi < |s|
    requires cmp(s[k], s[i]) < 0 && NoTwoBehind(s, lo, hi, cmp)
    ensures NoTwoBehind(Swap(s, i, k), lo, hi, cmp)
  {
    hide TotalPreorder, NoTwoBehind;
    var t := Swap(s, i, k);
    forall g, h, h' | lo <= g < h < h' <= hi && cmp(t[h], t[g]) < 0 && cmp(t[h'], t[g]) < 0
      ensures false
    {
      TripleAfterSwap(s, i, k, lo, hi, cmp, g, h, h');
    }
    assert NoTwoBehind(t, lo, hi, cmp) by { NoTripleMeans(t, lo, hi, cmp); }
  }

  lemma NoTripleMeans<T>(s: seq<T>, lo: nat, hi: nat, cmp: (T, T) -> int)
    requires hi < |s|
    requires forall g, h, h' :: lo <= g < h < h' <= hi ==> !(cmp(s[h], s[g]) < 0 && cmp(s[h'], s[g]) < 0)
    ensures NoTwoBehind(s, lo, hi, cmp)
  {
  }

  /** The swapped array has no element with two smaller ones behind it, position by position. */
  lemma TripleAfterSwap<T(!new)>(
      s: seq<T>, i: nat, k: nat, lo: nat, hi: nat, cmp: (T, T) -> int, g: nat, h: nat, h': nat)
    requires TotalPreorder(cmp) && lo <= i < k <= hi < |s|
    requires cmp(s[k], s[i]) < 0 && NoTwoBehind(s, lo, hi, cmp) && lo <= g < h < h' <= hi
    ensures var t := Swap(s, i, k); !(cmp(t[h], t[g]) < 0 && cmp(t[h'], t[g]) < 0)
  {
    hide TotalPreorder, NoTwoBehind;
    var t := Swap(s, i, k);
    Reverse(cmp, s[k], s[i]);
    if cmp(t[h], t[g]) < 0 && cmp(t[h'], t[g]) < 0 {
      if g < i {
        AtMostOneBehind(s, lo, hi, cmp, g, Exchanged(h, i, k), Exchanged(h', i, k));
      } else if g == i {
        var b := if h == k then h' else h;
        StrictlyBefore(cmp, t[b], s[k], s[i]);
        AtMostOneBehind(s, lo, hi, cmp, i, b, k);
      } else if g < k {
        if h == k {
          StrictlyBefore(cmp, s[k], s[i], s[g]);
        } else if h' == k {
          StrictlyBefore(cmp, s[k], s[i], s[g]);
        }
        AtMostOneBehind(s, lo, hi, cmp, g, h, h');
      } else if g == k {
        AtMostOneBehind(s, lo, hi, cmp, i, h, k);
      } else {
        AtMostOneBehind(s, lo, hi, cmp, g, h, h');
      }
    }
  }

  /** Where a swap of `i` and `k` brings an element from. */
  function Exchanged(m: nat, i: nat, k: nat): (n: nat) {
    if m == i then k else if m == k then i else m
  }

  /** The loop as written keeps the condition, and ends at an element that is at most the pivot. */
  lemma {:induction false} LoopKeepsNoTwo<T(!new)>(
      s: seq<T>, i: int, k: nat, lo: nat, hi: nat, p: T, cmp: (T, T) -> int)
    requires TotalPreorder(cmp) && Guarded(s, i, k, lo, hi, p, cmp, AsWritten)
    requires hi < |s| && NoTwoBehind(s, lo, hi, cmp)
    ensures var (t, j) := Loop(s, i, k, p, cmp, AsWritten);
            0 <= j < |t| && hi < |t| && NoTwoBehind(t, lo, hi, cmp) && cmp(t[j], p) <= 0
    decreases k
  {
    hide TotalPreorder, Guarded, NoTwoBehind;
    ScansStop(s, i, k, lo, hi, p, cmp, AsWritten);
    var (k', i') := (ScanDown(s, k, p, cmp), ScanUp(s, i, p, cmp, AsWritten));
    if i' < k' {
      Reverse(cmp, s[i'], p);
      Transitive(cmp, s[k'], p, s[i']);
      if cmp(s[k'], s[i']) == 0 {
        EqualSwapKeeps(s, i', k', lo, hi, cmp);
      } else {
        SmallerSwapKeeps(s, i', k', lo, hi, cmp);
      }
      SwapGuards(s, i, k, lo, hi, p, cmp, AsWritten);
      LoopKeepsNoTwo(Swap(s, i', k'), i', k', lo, hi, p, cmp);
    }
  }

  /** Under the condition such a split is in order: an element left of the result that came after one
      right of it would have that one and the element at the result behind it. */
  lemma NoTwoInOrder<T(!new)>(t: seq<T>, lo: nat, j: nat, hi: nat, p: T, cmp: (T, T) -> int)
    requires TotalPreorder(cmp) && lo <= j <= hi < |t| && NoTwoBehind(t, lo, hi, cmp)
    requires cmp(t[j], p) <= 0 && forall m :: j < m <= hi ==> cmp(t[m], p) >= 0
    ensures Before(t[lo..j + 1], t[j + 1..hi + 1], cmp)
  {
    hide TotalPreorder, NoTwoBehind;
    forall m, n | lo <= m <= j && j < n <= hi
      ensures cmp(t[m], t[n]) <= 0
    {
      Reverse(cmp, t[m], t[n]);
      Reverse(cmp, t[n], p);
      Transitive(cmp, t[j], p, t[n]);
      if cmp(t[n], t[m]) < 0 {
        StrictlyBefore(cmp, t[j], t[n], t[m]);
        Reverse(cmp, t[j], t[j]);
        AtMostOneBehind(t, lo, hi, cmp, m, j, n);
      }
    }
  }

  lemma PartedKeepsNoTwo<T(!new)>(s: seq<T>, lo: nat, hi: nat, c: Choice, cmp: (T, T) -> int)
    requires TotalPreorder(cmp) && lo <= hi < |s| && NoTwoBehind(s, lo, hi, cmp)
    ensures var (t, j) := Parted(s, lo, hi, c, cmp, AsWritten);
            NoTwoBehind(t, lo, hi, cmp) && Before(t[lo..j + 1], t[j + 1..hi + 1], cmp)
  {
    hide TotalPreorder, Guarded, Rearranged, NoTwoBehind, Before;
    PartedSplits(s, lo, hi, c, cmp, AsWritten);
    var m := PivotIndex(c, lo, hi);
    PivotIsIn(s, lo, hi, m, cmp);
    FirstRoundGuarded(s, lo, hi, s[m], cmp, AsWritten);
    LoopKeepsNoTwo(s, lo - 1, hi + 1, lo, hi, s[m], cmp);
    var (t, j) := Parted(s, lo, hi, c, cmp, AsWritten);
    NoTwoInOrder(t, lo, j, hi, s[m], cmp);
  }

  lemma NoTwoInPart<T>(t: seq<T>, u: seq<T>, lo: nat, hi: int, lo': nat, hi': int, cmp: (T, T) -> int)
    requires hi < |t| == |u| && NoTwoBehind(t, lo, hi, cmp) && lo <= lo' && hi' <= hi
    requires forall m :: lo' <= m <= hi' ==> u[m] == t[m]
    ensures NoTwoBehind(u, lo', hi', cmp)
  {
  }

  lemma {:induction false} NoTwoSplitsInOrder<T(!new)>(s: seq<T>, i: nat, k: int, tape: seq<Choice>, cmp: (T, T) -> int)
    requires TotalPreorder(cmp) && k < |s| && NoTwoBehind(s, i, k, cmp)
    ensures SplitsInOrder(s, i, k, tape, cmp, AsWritten)
    decreases |tape|
  {
    hide TotalPreorder, NoTwoBehind, Parted, Before, Rearranged;
    if i < k && tape != [] && tape[0].memory {
      var (t, j) := Parted(s, i, k, tape[0], cmp, AsWritten);
      PartedKeepsNoTwo(s, i, k, tape[0], cmp);
      NoTwoInPart(t, t, i, k, i, j, cmp);
      NoTwoSplitsInOrder(t, i, j, tape[1..], cmp);
      var left := Qksort(t, i, j, tape[1..], cmp, AsWritten);
      if left.Returned? {
        QksortRearranges(t, i, j, tape[1..], cmp, AsWritten);
        KeptBehind(t, left.data, i, j);
        NoTwoInPart(t, left.data, i, k, j + 1, k, cmp);
        NoTwoSplitsInOrder(left.data, j + 1, k, left.tape, cmp);
      }
    }
  }

  lemma KeptBehind<T>(t: seq<T>, u: seq<T>, i: nat, j: nat)
    requires j < |t| == |u| && KeptOutside(t, u, i, j)
    ensures forall m :: j < m < |t| ==> u[m] == t[m]
  {
    if i < j {
      forall m | j < m < |t|
        ensures u[m] == t[m]
      {
        assert u[m] == u[j + 1..][m - j - 1] && t[m] == t[j + 1..][m - j - 1];
      }
    }
  }

  /** An element with two strictly smaller ones behind it. */
  ghost predicate TwoBehind<T>(s: seq<T>, lo: nat, hi: int, cmp: (T, T) -> int, g: nat, h: nat, h': nat) {
    lo <= g < h < h' <= hi < |s| && cmp(s[h], s[g]) < 0 && cmp(s[h'], s[g]) < 0
  }

  /** Three equal numbers from rand() make element `m` the pivot. */
  function Choosing(m: nat, lo: nat): (c: Choice)
    requires lo <= m
  {
    Choice(m - lo, m - lo, m - lo, true, true)
  }

  lemma ChoosingIsPivot(m: nat, lo: nat, hi: nat)
    requires lo <= m <= hi
    ensures PivotIndex(Choosing(m, lo), lo, hi) == m
  {
    SameCandidates(Choosing(m, lo), lo, hi);
  }

  /** When the nearer of the two is the pivot, the element and the two stay where they are, as far as
      comparisons with the element tell, and the split makes progress. */
  lemma TwoBehindStays<T(!new)>(s: seq<T>, lo: nat, hi: nat, cmp: (T, T) -> int, g: nat, h: nat, h': nat)
    requires TotalPreorder(cmp) && TwoBehind(s, lo, hi, cmp, g, h, h')
    ensures var (t, j) := Parted(s, lo, hi, Choosing(h, lo), cmp, AsWritten);
            j < hi && TwoBehind(t, lo, hi, cmp, g, h, h')
  {
    hide TotalPreorder, Guarded, Rearranged;
    var p := s[h];
    ChoosingIsPivot(h, lo, hi);
    PartedProgress(s, lo, hi, Choosing(h, lo), cmp, AsWritten);
    PivotIsIn(s, lo, hi, h, cmp);
    FirstRoundGuarded(s, lo, hi, p, cmp, AsWritten);
    AboveStays(s, lo - 1, hi + 1, lo, hi, p, cmp);
    var t := Parted(s, lo, hi, Choosing(h, lo), cmp, AsWritten).0;
    Reverse(cmp, p, s[g]);
    Reverse(cmp, p, p);
    assert t[g] == s[g];
    forall m | m == h || m == h'
      ensures cmp(t[m], t[g]) < 0
    {
      if cmp(s[m], p) <= 0 {
        StrictlyBefore(cmp, t[m], p, s[g]);
      }
    }
  }

  /** What one side of the split needs for the run to end unsorted. */
  ghost predicate Unsorts<T(!new)>(s: seq<T>, i: nat, k: int, tape: seq<Choice>, cmp: (T, T) -> int)
    requires k < |s| && i <= k + 1 && TotalPreorder(cmp)
  {
    var r := Qksort(s, i, k, tape, cmp, AsWritten);
    r.Returned? && r.tape == [] && !Sorted(r.data[i..k + 1], cmp)
  }

  /** The run that a split, a run of its left part and a run of its right part make up. */
  lemma RunOfParts<T(!new)>(
      s: seq<T>, i: nat, k: nat, c: Choice, left: seq<Choice>, right: seq<Choice>, cmp: (T, T) -> int)
    requires i < k < |s| && TotalPreorder(cmp) && c.memory
    requires var (t, j) := Parted(s, i, k, c, cmp, AsWritten);
             var l := Qksort(t, i, j, left, cmp, AsWritten);
             && l.Returned? && l.tape == []
             && var r := Qksort(l.data, j + 1, k, right, cmp, AsWritten);
             && r.Returned? && r.tape == []
             && (Before(t[i..j + 1], t[j + 1..k + 1], cmp) ==>
                   Unsorts(t, i, j, left, cmp) || Unsorts(l.data, j + 1, k, right, cmp))
    ensures Unsorts(s, i, k, [c] + left + right, cmp)
  {
    hide TotalPreorder, Parted, Sorted, Before, KeptOutside;
    var (t, j) := Parted(s, i, k, c, cmp, AsWritten);
    var u := Qksort(t, i, j, left, cmp, AsWritten).data;
    var v := Qksort(u, j + 1, k, right, cmp, AsWritten).data;
    QksortComposed(s, i, k, c, left, right, cmp, AsWritten);
    QksortRearranges(t, i, j, left, cmp, AsWritten);
    QksortRearranges(u, j + 1, k, right, cmp, AsWritten);
    SidesSortedIff(t, u, v, i, j, k, cmp);
  }

  lemma NotBefore<T(!new)>(t: seq<T>, lo: nat, j: nat, hi: nat, cmp: (T, T) -> int, g: nat, h: nat)
    requires TotalPreorder(cmp) && lo <= g <= j < h <= hi < |t| && cmp(t[h], t[g]) < 0
    ensures !Before(t[lo..j + 1], t[j + 1..hi + 1], cmp)
  {
    hide TotalPreorder;
    Reverse(cmp, t[h], t[g]);
    assert t[lo..j + 1][g - lo] == t[g] && t[j + 1..hi + 1][h - j - 1] == t[h];
  }

  /** From an element with two smaller ones behind it a run can go wrong: either the split with the
      nearer one as pivot separates it from a smaller one, or all three are in the same part. */
  lemma {:induction false} CanUnsort<T(!new)>(s: seq<T>, i: nat, k: nat, cmp: (T, T) -> int, g: nat, h: nat, h': nat)
    returns (tape: seq<Choice>)
    requires TotalPreorder(cmp) && TwoBehind(s, i, k, cmp, g, h, h')
    ensures Unsorts(s, i, k, tape, cmp)
    decreases k - i
  {
    hide TotalPreorder, Parted, Sorted, Before, KeptOutside, Unsorts;
    var c := Choosing(h, i);
    TwoBehindStays(s, i, k, cmp, g, h, h');
    var (t, j) := Parted(s, i, k, c, cmp, AsWritten);
    var left, right;
    if h' <= j {
      left := CanUnsort(t, i, j, cmp, g, h, h');
    } else {
      left := QksortCompletes(t, i, j, cmp, AsWritten);
    }
    assert Qksort(t, i, j, left, cmp, AsWritten).Returned? && Qksort(t, i, j, left, cmp, AsWritten).tape == [] by {
      if h' <= j {
        UnsortsReturns(t, i, j, left, cmp);
      }
    }
    var u := Qksort(t, i, j, left, cmp, AsWritten).data;
    if j < g {
      QksortRearranges(t, i, j, left, cmp, AsWritten);
      KeptBehind(t, u, i, j);
      right := CanUnsort(u, j + 1, k, cmp, g, h, h');
      UnsortsReturns(u, j + 1, k, right, cmp);
    } else {
      right := QksortCompletes(u, j + 1, k, cmp, AsWritten);
      if j < h' {
        NotBefore(t, i, j, k, cmp, g, h');
      }
    }
    tape := [c] + left + right;
    RunOfParts(s, i, k, c, left, right, cmp);
  }

  lemma UnsortsReturns<T(!new)>(s: seq<T>, i: nat, k: int, tape: seq<Choice>, cmp: (T, T) -> int)
    requires k < |s| && i <= k + 1 && TotalPreorder(cmp) && Unsorts(s, i, k, tape, cmp)
    ensures var r := Qksort(s, i, k, tape, cmp, AsWritten);
            r.Returned? && r.tape == [] && !Sorted(r.data[i..k + 1], cmp)
  {
  }

  /** As written, qksort sorts a range whatever is chosen if and only if no element of the range has
      two strictly smaller ones behind it. */
  lemma AsWrittenSortsIff<T(!new)>(s: seq<T>, i: nat, k: int, cmp: (T, T) -> int)
    requires i <= k + 1 && k < |s| && TotalPreorder(cmp)
    ensures (forall tape :: var r := Qksort(s, i, k, tape, cmp, AsWritten);
                            r.Returned? ==> Sorted(r.data[i..k + 1], cmp))
            <==> (forall g, h, h' :: i <= g < h < h' <= k ==> !(cmp(s[h], s[g]) < 0 && cmp(s[h'], s[g]) < 0))
  {
    hide TotalPreorder, Parted, Sorted;
    if g: nat, h: nat, h': nat :| TwoBehind(s, i, k, cmp, g, h, h') {
      var tape := CanUnsort(s, i, k, cmp, g, h, h');
      UnsortsReturns(s, i, k, tape, cmp);
      assert cmp(s[h], s[g]) < 0 && cmp(s[h'], s[g]) < 0;
    } else {
      forall g, h, h' | i <= g < h < h' <= k
        ensures !(cmp(s[h], s[g]) < 0 && cmp(s[h'], s[g]) < 0)
      {
        assert !TwoBehind(s, i, k, cmp, g, h, h');
      }
      assert NoTwoBehind(s, i, k, cmp);
      forall tape | Qksort(s, i, k, tape, cmp, AsWritten).Returned?
        ensures Sorted(Qksort(s, i, k, tape, cmp, AsWritten).data[i..k + 1], cmp)
      {
        NoTwoSplitsInOrder(s, i, k, tape, cmp);
        QksortSortsIff(s, i, k, tape, cmp, AsWritten);
      }
    }
  }

  // ---------- the ranges that can be worked on forever ----------

  /** Some run of at least `n` calls, none of which fails, has not returned yet. */
  ghost predicate CanRunOn<T(!new)>(s: seq<T>, i: nat, k: int, n: nat, cmp: (T, T) -> int)
    requires k < |s| && TotalPreorder(cmp)
  {
    exists tape :: |tape| >= n && AllMemory(tape) && Qksort(s, i, k, tape, cmp, AsWritten).Running?
  }

  ghost predicate AllEqual<T>(s: seq<T>, lo: nat, hi: int, p: T, cmp: (T, T) -> int)
    requires hi < |s|
  {
    forall m :: lo <= m <= hi ==> cmp(s[m], p) == 0
  }

  /** In a range of equals every split makes progress and leaves ranges of equals. */
  lemma EqualsProgress<T(!new)>(s: seq<T>, lo: nat, hi: nat, c: Choice, p: T, cmp: (T, T) -> int)
    requires lo < hi < |s| && TotalPreorder(cmp) && AllEqual(s, lo, hi, p, cmp)
    ensures var (t, j) := Parted(s, lo, hi, c, cmp, AsWritten); j < hi && AllEqual(t, lo, hi, p, cmp)
  {
    hide TotalPreorder, Loop, PivotIndex, Guarded;
    PartedSplits(s, lo, hi, c, cmp, AsWritten);
    var m := PivotIndex(c, lo, hi);
    var t := Parted(s, lo, hi, c, cmp, AsWritten).0;
    PivotIsIn(s, lo, hi, m, cmp);
    LastIndexIff(s, lo, hi, s[m], cmp, AsWritten);
    EqualToSame(cmp, s[lo], s[m], p);
    RearrangedAll(s[lo..hi + 1], t[lo..hi + 1], e => cmp(e, p) == 0);
    forall n | lo <= n <= hi
      ensures cmp(t[n], p) == 0
    {
      assert t[n] == t[lo..hi + 1][n - lo];
    }
  }

  lemma EqualToSame<T(!new)>(cmp: (T, T) -> int, x: T, y: T, p: T)
    requires TotalPreorder(cmp) && cmp(x, p) == 0 && cmp(y, p) == 0
    ensures cmp(x, y) == 0
  {
    hide TotalPreorder;
    Reverse(cmp, x, p);
    Reverse(cmp, y, p);
    Transitive(cmp, x, p, y);
    Transitive(cmp, y, p, x);
    Reverse(cmp, x, y);
  }

  /** So qksort on a range of equals has returned after k - i calls at the latest. */
  lemma {:induction false} EqualsEnd<T(!new)>(s: seq<T>, i: nat, k: int, tape: seq<Choice>, p: T, cmp: (T, T) -> int)
    requires i <= k + 1 && k < |s| && TotalPreorder(cmp) && AllEqual(s, i, k, p, cmp)
    requires |tape| >= k - i && AllMemory(tape)
    ensures var r := Qksort(s, i, k, tape, cmp, AsWritten);
            && r.Returned? && |tape| - |r.tape| <= (if i < k then k - i else 0) && AllMemory(r.tape)
    decreases |tape|
  {
    hide TotalPreorder, Parted, KeptOutside;
    if i < k {
      assert tape[0] in tape;
      EqualsProgress(s, i, k, tape[0], p, cmp);
      var (t, j) := Parted(s, i, k, tape[0], cmp, AsWritten);
      EqualsEnd(t, i, j, tape[1..], p, cmp);
      var left := Qksort(t, i, j, tape[1..], cmp, AsWritten);
      QksortRearranges(t, i, j, tape[1..], cmp, AsWritten);
      KeptBehind(t, left.data, i, j);
      EqualsEnd(left.data, j + 1, k, left.tape, p, cmp);
    }
  }

  /** With the last element as pivot and an equal of it before it, both sides keep an equal of it. */
  lemma BothSidesKeepEqual<T(!new)>(s: seq<T>, lo: nat, hi: nat, q: nat, cmp: (T, T) -> int)
    requires lo <= q < hi < |s| && TotalPreorder(cmp) && cmp(s[q], s[hi]) == 0
    requires forall m :: lo <= m < q ==> cmp(s[m], s[hi]) != 0
    ensures var (t, j) := Parted(s, lo, hi, Choosing(hi, lo), cmp, AsWritten);
            q <= j < hi && cmp(t[q], s[hi]) == 0 && cmp(t[hi], s[hi]) == 0
  {
    hide TotalPreorder, Guarded, Rearranged;
    var p := s[hi];
    ChoosingIsPivot(hi, lo, hi);
    PivotIsIn(s, lo, hi, hi, cmp);
    Reverse(cmp, p, p);
    FirstRoundGuarded(s, lo, hi, p, cmp, AsWritten);
    ScansStop(s, lo - 1, hi + 1, lo, hi, p, cmp, AsWritten);
    SwapGuards(s, lo - 1, hi + 1, lo, hi, p, cmp, AsWritten);
    LoopSplits(Swap(s, q, hi), q, hi, lo, hi, p, cmp, AsWritten);
    EndsStay(Swap(s, q, hi), q, hi, lo, hi, p, cmp);
  }

  /** The loop leaves what it has put at its ends: it moves only what lies between. */
  lemma {:induction false} EndsStay<T(!new)>(s: seq<T>, i: nat, k: nat, lo: nat, hi: nat, p: T, cmp: (T, T) -> int)
    requires Guarded(s, i, k, lo, hi, p, cmp, AsWritten) && k <= hi
    ensures var t := Loop(s, i, k, p, cmp, AsWritten).0;
            |t| == |s| && (forall m :: 0 <= m <= i ==> t[m] == s[m]) && (forall m :: k <= m < |s| ==> t[m] == s[m])
    decreases k
  {
    hide Guarded;
    ScansStop(s, i, k, lo, hi, p, cmp, AsWritten);
    var (k', i') := (ScanDown(s, k, p, cmp), ScanUp(s, i, p, cmp, AsWritten));
    if i' < k' {
      SwapGuards(s, i, k, lo, hi, p, cmp, AsWritten);
      EndsStay(Swap(s, i', k'), i', k', lo, hi, p, cmp);
    }
  }

  /** The run stays on the same range while its last element has no equal and is chosen each time. */
  lemma StuckOnLast<T(!new)>(s: seq<T>, i: nat, k: nat, n: nat, cmp: (T, T) -> int) returns (tape: seq<Choice>)
    requires i < k < |s| && TotalPreorder(cmp) && forall m :: i <= m < k ==> cmp(s[m], s[k]) != 0
    ensures |tape| >= n && AllMemory(tape) && Qksort(s, i, k, tape, cmp, AsWritten) == Running(s)
  {
    hide TotalPreorder, Qksort;
    tape := seq(n, _ => Choosing(k, i));
    ChoosingIsPivot(k, i, k);
    QksortStuck(s, i, k, tape, cmp, AsWritten);
  }

  lemma {:induction false} NoEqualBefore<T>(s: seq<T>, lo: nat, hi: nat, n: nat, cmp: (T, T) -> int)
    requires lo <= n <= hi < |s|
    requires forall q: nat :: !FirstEqual(s, lo, hi, cmp, q)
    ensures forall m :: lo <= m < n ==> cmp(s[m], s[hi]) != 0
  {
    if n > lo {
      NoEqualBefore(s, lo, hi, n - 1, cmp);
      assert !FirstEqual(s, lo, hi, cmp, n - 1);
    }
  }

  /** `q` is the first position before the end of the range with an equal of its last element. */
  ghost predicate FirstEqual<T>(s: seq<T>, lo: nat, hi: nat, cmp: (T, T) -> int, q: nat) {
    lo <= q < hi < |s| && cmp(s[q], s[hi]) == 0 && forall m :: lo <= m < q ==> cmp(s[m], s[hi]) != 0
  }

  /** A rearranged range still has an element that differs from `p`. */
  lemma DifferingElement<T>(s: seq<T>, t: seq<T>, lo: nat, hi: nat, d: nat, p: T, cmp: (T, T) -> int) returns (e: nat)
    requires Rearranged(s, t, lo, hi) && lo <= d <= hi && cmp(s[d], p) != 0
    ensures lo <= e <= hi < |t| && cmp(t[e], p) != 0
  {
    assert s[lo..hi + 1][d - lo] in multiset(s[lo..hi + 1]);
    assert s[d] in t[lo..hi + 1];
    var m :| 0 <= m < |t[lo..hi + 1]| && t[lo..hi + 1][m] == s[d];
    e := lo + m;
  }

  /** Of two elements that differ from each other, one differs from the last. */
  lemma OneDiffersFromLast<T(!new)>(t: seq<T>, q: nat, e: nat, j: nat, p: T, cmp: (T, T) -> int) returns (d: nat)
    requires TotalPreorder(cmp) && q <= j && e <= j < |t| && cmp(t[q], p) == 0 && cmp(t[e], p) != 0
    ensures (d == q || d == e) && d < j && cmp(t[d], t[j]) != 0
  {
    hide TotalPreorder;
    Reverse(cmp, t[j], t[j]);
    Reverse(cmp, t[q], p);
    if cmp(t[q], t[j]) != 0 {
      d := q;
    } else {
      d := e;
      if cmp(t[e], t[j]) == 0 {
        Reverse(cmp, t[q], t[j]);
        Transitive(cmp, p, t[q], t[j]);
        Transitive(cmp, t[j], t[q], p);
        Reverse(cmp, p, t[j]);
        Reverse(cmp, t[j], p);
        EqualToSame(cmp, t[e], p, t[j]);
      }
    }
  }

  /** From two elements that differ, runs of any length that have not returned: the last element is
      chosen, and if it has an equal before it, one of the two parts still has elements that differ. */
  lemma {:induction false} RunsOn<T(!new)>(s: seq<T>, i: nat, k: nat, n: nat, cmp: (T, T) -> int, d: nat)
    returns (tape: seq<Choice>)
    requires TotalPreorder(cmp) && i <= d < k < |s| && cmp(s[d], s[k]) != 0
    ensures |tape| >= n && AllMemory(tape) && Qksort(s, i, k, tape, cmp, AsWritten).Running?
    decreases k - i
  {
    hide TotalPreorder, Parted, Rearranged, KeptOutside;
    if q: nat :| FirstEqual(s, i, k, cmp, q) {
      var c := Choosing(k, i);
      BothSidesKeepEqual(s, i, k, q, cmp);
      PartedSplits(s, i, k, c, cmp, AsWritten);
      var (t, j) := Parted(s, i, k, c, cmp, AsWritten);
      var e := DifferingElement(s, t, i, k, d, s[k], cmp);
      if e <= j {
        var d' := OneDiffersFromLast(t, q, e, j, s[k], cmp);
        var left := RunsOn(t, i, j, n, cmp, d');
        tape := [c] + left;
        assert tape[1..] == left;
      } else {
        var left := QksortCompletes(t, i, j, cmp, AsWritten);
        var u := Qksort(t, i, j, left, cmp, AsWritten).data;
        QksortRearranges(t, i, j, left, cmp, AsWritten);
        KeptBehind(t, u, i, j);
        var d' := OneDiffersFromLast(t, k, e, k, s[k], cmp);
        var right := RunsOn(u, j + 1, k, n, cmp, d');
        tape := [c] + left + right;
        QksortComposed(s, i, k, c, left, right, cmp, AsWritten);
      }
    } else {
      NoEqualBefore(s, i, k, k, cmp);
      tape := StuckOnLast(s, i, k, n, cmp);
    }
  }

  /** As written, qksort can go on for any number of calls, none of them failing, if and only if its
      range holds two elements that differ. */
  lemma AsWrittenRunsOnIff<T(!new)>(s: seq<T>, i: nat, k: int, cmp: (T, T) -> int)
    requires i <= k + 1 && k < |s| && TotalPreorder(cmp)
    ensures (forall n: nat :: CanRunOn(s, i, k, n, cmp))
            <==> (exists a, b :: i <= a < b <= k && cmp(s[a], s[b]) != 0)
  {
    hide TotalPreorder, Qksort;
    if a, b :| i <= a < b <= k && cmp(s[a], s[b]) != 0 {
      var d := DiffersFromLast(s, i, k, a, b, cmp);
      forall n: nat
        ensures CanRunOn(s, i, k, n, cmp)
      {
        var tape := RunsOn(s, i, k, n, cmp, d);
      }
    } else {
      var n: nat := if i < k then k - i else 0;
      forall tape: seq<Choice> | |tape| >= n && AllMemory(tape)
        ensures !Qksort(s, i, k, tape, cmp, AsWritten).Running?
      {
        if i < k {
          AllEqualToLast(s, i, k, cmp);
          EqualsEnd(s, i, k, tape, s[k], cmp);
        } else {
          NothingToDo(s, i, k, tape, cmp);
        }
      }
      assert !CanRunOn(s, i, k, n, cmp);
    }
  }

  lemma NothingToDo<T(!new)>(s: seq<T>, i: nat, k: int, tape: seq<Choice>, cmp: (T, T) -> int)
    requires k < |s| && k <= i && TotalPreorder(cmp)
    ensures Qksort(s, i, k, tape, cmp, AsWritten).Returned?
  {
  }

  lemma AllEqualToLast<T(!new)>(s: seq<T>, i: nat, k: nat, cmp: (T, T) -> int)
    requires i <= k < |s| && TotalPreorder(cmp)
    requires forall a, b :: i <= a < b <= k ==> cmp(s[a], s[b]) == 0
    ensures AllEqual(s, i, k, s[k], cmp)
  {
    hide TotalPreorder;
    Reverse(cmp, s[k], s[k]);
  }

  lemma DiffersFromLast<T(!new)>(s: seq<T>, i: nat, k: nat, a: nat, b: nat, cmp: (T, T) -> int) returns (d: nat)
    requires i <= a < b <= k < |s| && TotalPreorder(cmp) && cmp(s[a], s[b]) != 0
    ensures i <= d < k && cmp(s[d], s[k]) != 0
  {
    hide TotalPreorder;
    if cmp(s[a], s[k]) != 0 {
      d := a;
    } else {
      d := b;
      if cmp(s[b], s[k]) == 0 {
        EqualToSame(cmp, s[a], s[b], s[k]);
      }
    }
  }

  // ---------- what goes wrong as written ----------

  const UNSORTABLE: seq<int> := [3, 1, 2]

  const MISLEADING_TAPE: seq<Choice> := [Choice(1, 1, 1, true, true), Choice(0, 0, 0, true, true)]

  /** As written, 1 splits [3, 1 | 2], which leaves 3 left of 2. */
  lemma AsWrittenFirstSplit()
    ensures TotalPreorder(CompareInt)
    ensures Parted(UNSORTABLE, 0, 2, MISLEADING_TAPE[0], CompareInt, AsWritten) == ([3, 1, 2], 1)
  {
    CompareIntIsPreorder();
    SameCandidates(MISLEADING_TAPE[0], 0, 2);
    var s := UNSORTABLE;
    assert ScanDown(s, 3, 1, CompareInt) == 1 by {
      assert ScanDown(s, 2, 1, CompareInt) == 1;
    }
    assert ScanUp(s, -1, 1, CompareInt, AsWritten) == 1 by {
      assert ScanUp(s, 0, 1, CompareInt, AsWritten) == 1;
    }
  }

  lemma AsWrittenSecondSplit()
    ensures TotalPreorder(CompareInt)
    ensures Parted([3, 1, 2], 0, 1, MISLEADING_TAPE[1], CompareInt, AsWritten) == ([1, 3, 2], 0)
  {
    CompareIntIsPreorder();
    SameCandidates(MISLEADING_TAPE[1], 0, 1);
    var (s, t) := ([3, 1, 2], [1, 3, 2]);
    assert ScanDown(s, 2, 3, CompareInt) == 1 && ScanUp(s, -1, 3, CompareInt, AsWritten) == 0;
    assert Swap(s, 0, 1) == t;
    assert ScanDown(t, 1, 3, CompareInt) == 0 && ScanUp(t, 0, 3, CompareInt, AsWritten) == 1;
    assert Loop(t, 0, 1, 3, CompareInt, AsWritten) == (t, 0);
  }

  /** As written, qksort can return 0 and leave the range unsorted: here it leaves [1, 3, 2]. */
  lemma AsWrittenDoesNotSort()
    ensures TotalPreorder(CompareInt)
    ensures Qksort(UNSORTABLE, 0, 2, MISLEADING_TAPE, CompareInt, AsWritten) == Returned([1, 3, 2], [])
    ensures !Sorted([1, 3, 2], CompareInt)
  {
    hide Parted, PivotIndex;
    AsWrittenFirstSplit();
    AsWrittenSecondSplit();
    var rest := MISLEADING_TAPE[1..];
    assert rest[0] == MISLEADING_TAPE[1] && rest[1..] == [];
    assert Qksort([3, 1, 2], 0, 1, rest, CompareInt, AsWritten) == Returned([1, 3, 2], []);
    var t := [1, 3, 2];
    assert CompareInt(t[1], t[2]) > 0;
  }
}
