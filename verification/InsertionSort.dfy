/** issort: insertion sort in place, for any comparator. */
module InsertionSort {
  import opened Comparing

  /** Where the inner loop puts `key`: behind the last element that does not come after it. */
  function Place<T>(s: seq<T>, key: T, cmp: (T, T) -> int): (r: seq<T>)
    ensures |r| == |s| + 1
  {
    var last := |s| - 1;
    if s != [] && cmp(s[last], key) > 0 then Place(s[..last], key, cmp) + [s[last]] else s + [key]
  }

  function Placed<T>(s: seq<T>, cmp: (T, T) -> int): (r: seq<T>)
    ensures |r| == |s|
  {
    if s == [] then [] else Place(Placed(s[..|s| - 1], cmp), s[|s| - 1], cmp)
  }

  lemma {:induction false} PlaceIsRearrangement<T>(s: seq<T>, key: T, cmp: (T, T) -> int)
    ensures multiset(Place(s, key, cmp)) == multiset(s) + multiset{key}
  {
    var last := |s| - 1;
    if s != [] && cmp(s[last], key) > 0 {
      PlaceIsRearrangement(s[..last], key, cmp);
      assert s == s[..last] + [s[last]];
    }
  }

  /** Nothing comes after `bound` when it did not before. */
  lemma PlaceBelow<T>(s: seq<T>, key: T, cmp: (T, T) -> int, bound: T)
    requires cmp(key, bound) <= 0 && forall i :: 0 <= i < |s| ==> cmp(s[i], bound) <= 0
    ensures forall i :: 0 <= i < |Place(s, key, cmp)| ==> cmp(Place(s, key, cmp)[i], bound) <= 0
  {
    hide Place;
    PlaceIsRearrangement(s, key, cmp);
    RearrangedAll(s + [key], Place(s, key, cmp), e => cmp(e, bound) <= 0);
  }

  lemma {:induction false} PlaceSorts<T(!new)>(s: seq<T>, key: T, cmp: (T, T) -> int)
    requires TotalPreorder(cmp) && Sorted(s, cmp)
    ensures Sorted(Place(s, key, cmp), cmp)
  {
    hide TotalPreorder;
    if s != [] {
      var last := s[|s| - 1];
      Reverse(cmp, last, key);
      if cmp(last, key) > 0 {
        var front := s[..|s| - 1];
        PlaceSorts(front, key, cmp);
        PlaceBelow(front, key, cmp, last);
        SortedAppend(Place(front, key, cmp), last, cmp);
      } else {
        forall i | 0 <= i < |s|
          ensures cmp(s[i], key) <= 0
        {
          if i < |s| - 1 {
            Transitive(cmp, s[i], last, key);
          }
        }
        SortedAppend(s, key, cmp);
      }
    }
  }

  /** The key passes only elements that come after it, so no class is reordered. */
  lemma {:induction false} PlaceIsStable<T(!new)>(s: seq<T>, key: T, cmp: (T, T) -> int, x: T)
    requires TotalPreorder(cmp)
    ensures Class(Place(s, key, cmp), x, cmp) == Class(s + [key], x, cmp)
  {
    hide TotalPreorder;
    var f := (e: T) => cmp(e, x) == 0;
    if s != [] && cmp(s[|s| - 1], key) > 0 {
      var (front, last) := (s[..|s| - 1], s[|s| - 1]);
      PlaceIsStable(front, key, cmp, x);
      FilterAppend(f, Place(front, key, cmp), [last]);
      FilterAppend(f, front, [key]);
      FilterAppend(f, s, [key]);
      FilterAppend(f, front, [last]);
      assert s == front + [last];
      FilterOne(f, key);
      FilterOne(f, last);
      if f(key) && f(last) {
        Reverse(cmp, key, x);
        Transitive(cmp, last, x, key);
      }
    }
  }

  lemma {:induction false} PlacedIsSort<T(!new)>(s: seq<T>, cmp: (T, T) -> int)
    requires TotalPreorder(cmp)
    ensures Sorted(Placed(s, cmp), cmp) && multiset(Placed(s, cmp)) == multiset(s)
  {
    hide TotalPreorder;
    if s != [] {
      var (front, last) := (s[..|s| - 1], s[|s| - 1]);
      PlacedIsSort(front, cmp);
      PlaceSorts(Placed(front, cmp), last, cmp);
      PlaceIsRearrangement(Placed(front, cmp), last, cmp);
      assert s == front + [last];
    }
  }

  /** Insertion sort is stable: the elements of every class keep their order. */
  lemma {:induction false} PlacedIsStable<T(!new)>(s: seq<T>, cmp: (T, T) -> int, x: T)
    requires TotalPreorder(cmp)
    ensures Class(Placed(s, cmp), x, cmp) == Class(s, x, cmp)
  {
    hide TotalPreorder;
    if s != [] {
      var (front, last) := (s[..|s| - 1], s[|s| - 1]);
      var f := (e: T) => cmp(e, x) == 0;
      PlacedIsStable(front, cmp, x);
      PlaceIsStable(Placed(front, cmp), last, cmp, x);
      FilterAppend(f, Placed(front, cmp), [last]);
      FilterAppend(f, front, [last]);
      assert s == front + [last];
    }
  }

  /** Where the inner loop stops is the place of the key. */
  lemma {:induction false} PlaceAt<T>(s: seq<T>, key: T, cmp: (T, T) -> int, i: nat)
    requires i <= |s| && (i > 0 ==> cmp(s[i - 1], key) <= 0)
    requires forall m :: i <= m < |s| ==> cmp(s[m], key) > 0
    ensures Place(s, key, cmp) == s[..i] + [key] + s[i..]
  {
    if i == |s| {
      assert s[..i] == s && s[i..] == [];
    } else {
      var (front, last) := (s[..|s| - 1], s[|s| - 1]);
      calc {
        Place(s, key, cmp);
        Place(front, key, cmp) + [last];
        { PlaceAt(front, key, cmp, i); }
        front[..i] + [key] + front[i..] + [last];
        { assert front[i..] + [last] == s[i..] && front[..i] == s[..i]; }
        s[..i] + [key] + s[i..];
      }
    }
  }

  /** An array that was shifted by one from `i` on and has the key there. */
  lemma ShiftedIs<T>(t: seq<T>, front: seq<T>, key: T, i: nat)
    requires |t| == |front| + 1 && i <= |front| && t[i] == key
    requires forall m :: 0 <= m < i ==> t[m] == front[m]
    requires forall m :: i <= m < |front| ==> t[m + 1] == front[m]
    ensures t == front[..i] + [key] + front[i..]
  {
    var r := front[..i] + [key] + front[i..];
    forall m | 0 <= m < |t|
      ensures t[m] == r[m]
    {
      if m > i {
        assert t[m - 1 + 1] == front[m - 1];
      }
    }
  }

  /** One round: element `j` is moved to its place in the part before it. */
  method Insert<T>(a: array<T>, j: nat, cmp: (T, T) -> int)
    requires j < a.Length
    modifies a
    ensures a[..j + 1] == Place(old(a[..j]), old(a[j]), cmp) && a[j + 1..] == old(a[j + 1..])
  {
    hide Place;
    ghost var front := a[..j];
    var key := a[j];
    var i := j - 1;
    while i >= 0 && cmp(a[i], key) > 0
      invariant -1 <= i < j
      invariant forall m :: 0 <= m <= i ==> a[m] == front[m]
      invariant forall m :: i < m < j ==> a[m + 1] == front[m] && cmp(front[m], key) > 0
      invariant forall m :: j < m < a.Length ==> a[m] == old(a[m])
      decreases i
    {
      a[i + 1] := a[i];
      i := i - 1;
    }
    a[i + 1] := key;
    PlaceAt(front, key, cmp, i + 1);
    ShiftedIs(a[..j + 1], front, key, i + 1);
  }

  lemma PlacedNext<T>(s: seq<T>, j: nat, cmp: (T, T) -> int)
    requires j < |s|
    ensures Placed(s[..j + 1], cmp) == Place(Placed(s[..j], cmp), s[j], cmp)
    ensures Placed(s[..0], cmp) == [] && Placed(s[..1], cmp) == s[..1]
  {
    assert s[..j + 1][..j] == s[..j];
    assert s[..1][..0] == [];
  }

  /** The outer loop. */
  method InsertAll<T>(a: array<T>, size: int, cmp: (T, T) -> int)
    requires size <= a.Length
    modifies a
    ensures size >= 0 ==> a[..size] == Placed(old(a[..size]), cmp) && a[size..] == old(a[size..])
    ensures size < 0 ==> a[..] == old(a[..])
  {
    hide Place, Placed;
    ghost var s := a[..];
    if size > 0 {
      PlacedNext(s, 0, cmp);
    }
    var j := 1;
    while j < size
      invariant 1 <= j && (size >= 1 ==> j <= size)
      invariant size >= 1 ==> a[..j] == Placed(s[..j], cmp) && a[j..] == s[j..]
      invariant size < 1 ==> a[..] == s
    {
      PlacedNext(s, j, cmp);
      Insert(a, j, cmp);
      j := j + 1;
    }
    if size == 0 {
      EmptyPlaced(cmp);
    }
  }

  lemma EmptyPlaced<T>(cmp: (T, T) -> int)
    ensures Placed<T>([], cmp) == []
  {
  }

  /** issort on the first `size` elements: a stable sort of them that leaves the others alone.
      `memory` says whether its malloc succeeds. */
  method Issort<T(!new)>(a: array<T>, size: int, cmp: (T, T) -> int, memory: bool) returns (r: int)
    requires size <= a.Length && TotalPreorder(cmp)
    modifies a
    ensures r == if memory then 0 else -1
    ensures !memory || size < 0 ==> a[..] == old(a[..])
    ensures memory && size >= 0 ==> a[..size] == Placed(old(a[..size]), cmp)
    ensures memory && size >= 0 ==>
              && a[size..] == old(a[size..])
              && Sorted(a[..size], cmp)
              && multiset(a[..size]) == old(multiset(a[..size]))
              && forall x :: Class(a[..size], x, cmp) == Class(old(a[..size]), x, cmp)
  {
    hide TotalPreorder, Class, Placed;
    if !memory {
      return -1;
    }
    InsertAll(a, size, cmp);
    if size >= 0 {
      ghost var s := old(a[..size]);
      PlacedIsSort(s, cmp);
      forall x
        ensures Class(a[..size], x, cmp) == Class(s, x, cmp)
      {
        PlacedIsStable(s, cmp, x);
      }
    }
    return 0;
  }
}
