/** What the sorting functions ask of their comparator, and how sequences are compared. */
module Comparing {

  /** The contract of a C comparator: cmp(x, y) is negative, zero or positive as x comes before,
      with or after y, consistently for all keys. Distinct keys may compare as equal. */
  ghost predicate TotalPreorder<T(!new)>(cmp: (T, T) -> int) {
    && (forall x, y :: cmp(x, y) > 0 <==> cmp(y, x) < 0)
    && (forall x, y, z :: cmp(x, y) <= 0 && cmp(y, z) <= 0 ==> cmp(x, z) <= 0)
  }

  lemma Reverse<T(!new)>(cmp: (T, T) -> int, x: T, y: T)
    requires TotalPreorder(cmp)
    ensures cmp(x, y) > 0 <==> cmp(y, x) < 0
    ensures cmp(x, y) == 0 <==> cmp(y, x) == 0
  {
  }

  lemma Transitive<T(!new)>(cmp: (T, T) -> int, x: T, y: T, z: T)
    requires TotalPreorder(cmp) && cmp(x, y) <= 0 && cmp(y, z) <= 0
    ensures cmp(x, z) <= 0
  {
  }

  /** Strictly before, through an element that is not after. */
  lemma StrictlyBefore<T(!new)>(cmp: (T, T) -> int, x: T, y: T, z: T)
    requires TotalPreorder(cmp) && cmp(x, y) <= 0 && cmp(y, z) <= 0
    requires cmp(x, y) < 0 || cmp(y, z) < 0
    ensures cmp(x, z) < 0
  {
    hide TotalPreorder;
    Transitive(cmp, x, y, z);
    Reverse(cmp, x, z);
    Reverse(cmp, x, y);
    Reverse(cmp, y, z);
    if cmp(x, z) == 0 {
      if cmp(x, y) < 0 {
        Transitive(cmp, y, z, x);
      } else {
        Transitive(cmp, z, x, y);
      }
    }
  }

  ghost predicate Sorted<T>(s: seq<T>, cmp: (T, T) -> int) {
    forall i, j :: 0 <= i < j < |s| ==> cmp(s[i], s[j]) <= 0
  }

  /** The elements of `s` that satisfy `f`, in their order. */
  function Filter<T>(f: T -> bool, s: seq<T>): (r: seq<T>) {
    if s == [] then []
    else
      var last := |s| - 1;
      Filter(f, s[..last]) + if f(s[last]) then [s[last]] else []
  }

  /** The elements of `s` that compare as equal to `x`. */
  function Class<T>(s: seq<T>, x: T, cmp: (T, T) -> int): (r: seq<T>) {
    Filter(e => cmp(e, x) == 0, s)
  }

  /** The elements of `s` that do not come after `x`. */
  function AtMost<T>(s: seq<T>, x: T, cmp: (T, T) -> int): (r: seq<T>) {
    Filter(e => cmp(e, x) <= 0, s)
  }

  lemma {:induction false} FilterAppend<T>(f: T -> bool, a: seq<T>, b: seq<T>)
    ensures Filter(f, a + b) == Filter(f, a) + Filter(f, b)
  {
    if b == [] {
      assert a + b == a;
    } else {
      var last := |b| - 1;
      assert (a + b)[..|a + b| - 1] == a + b[..last];
      FilterAppend(f, a, b[..last]);
    }
  }

  lemma {:induction false} FilterNone<T>(f: T -> bool, s: seq<T>)
    requires forall i :: 0 <= i < |s| ==> !f(s[i])
    ensures Filter(f, s) == []
  {
    if s != [] {
      FilterNone(f, s[..|s| - 1]);
    }
  }

  lemma SplitAt<T>(s: seq<T>, k: nat)
    requires k < |s|
    ensures s == s[..k] + [s[k]] + s[k + 1..]
  {
  }

  /** The first element that counts, with what counts behind it. */
  lemma FilterFirst<T>(f: T -> bool, s: seq<T>, k: nat)
    requires k < |s| && f(s[k]) && forall i :: 0 <= i < k ==> !f(s[i])
    ensures Filter(f, s) == [s[k]] + Filter(f, s[k + 1..])
  {
    hide Filter;
    var (front, here, behind) := (s[..k], [s[k]], s[k + 1..]);
    FilterNone(f, front);
    FilterOne(f, s[k]);
    FilterAppend(f, front, here);
    FilterAppend(f, front + here, behind);
    SplitAt(s, k);
  }

  /** The last element that counts, with what counts before it. */
  lemma FilterLast<T>(f: T -> bool, s: seq<T>, k: nat)
    requires k < |s| && f(s[k]) && forall i :: k < i < |s| ==> !f(s[i])
    ensures Filter(f, s) == Filter(f, s[..k]) + [s[k]]
  {
    hide Filter;
    var (front, here, behind) := (s[..k], [s[k]], s[k + 1..]);
    FilterNone(f, behind);
    FilterOne(f, s[k]);
    FilterAppend(f, front, here);
    FilterAppend(f, front + here, behind);
    SplitAt(s, k);
  }

  lemma FilterOne<T>(f: T -> bool, x: T)
    ensures Filter(f, [x]) == if f(x) then [x] else []
  {
    assert [x][..0] == [];
  }

  lemma SortedAppend<T>(s: seq<T>, x: T, cmp: (T, T) -> int)
    requires Sorted(s, cmp) && forall i :: 0 <= i < |s| ==> cmp(s[i], x) <= 0
    ensures Sorted(s + [x], cmp)
  {
  }

  /** What holds of all elements of a sequence holds of every rearrangement. */
  lemma RearrangedAll<T>(a: seq<T>, b: seq<T>, f: T -> bool)
    requires multiset(a) == multiset(b)
    requires forall i :: 0 <= i < |a| ==> f(a[i])
    ensures forall i :: 0 <= i < |b| ==> f(b[i])
  {
    forall i | 0 <= i < |b|
      ensures f(b[i])
    {
      assert b[i] in multiset(a);
    }
  }
}
