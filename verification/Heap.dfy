/** The binary max-heap over a growing array.

    `HeapSpec` holds the operations on the sequence of stored elements and what they achieve;
    the class `Heap` performs them in place. */
module HeapSpec {

  function Parent(j: nat): (p: nat)
    requires j > 0
    ensures p < j
  {
    (j - 1) / 2
  }

  ghost predicate IsHeap(s: seq<int>) {
    forall j :: 1 <= j < |s| ==> s[Parent(j)] >= s[j]
  }

  /** The loop of insert: the hole at `i` moves up until `x` fits. */
  function SiftUp(s: seq<int>, i: nat, x: int): (r: seq<int>)
    requires i < |s|
    ensures |r| == |s|
    decreases i
  {
    if i > 0 && x > s[Parent(i)] then SiftUp(s[i := s[Parent(i)]], Parent(i), x) else s[i := x]
  }

  function Insert(s: seq<int>, x: int): (r: seq<int>)
    ensures |r| == |s| + 1
  {
    SiftUp(s + [x], |s|, x)
  }

  function InsertAll(s: seq<int>, xs: seq<int>): (r: seq<int>)
    decreases |xs|
  {
    if xs == [] then s else InsertAll(Insert(s, xs[0]), xs[1..])
  }

  /** The larger child of `i` if it is larger than the element at `i`, and otherwise `i`. */
  function Larger(s: seq<int>, i: nat): (m: nat)
    requires i < |s|
    ensures m < |s| && (m == i || m == 2 * i + 1 || m == 2 * i + 2)
  {
    var (l, r) := (2 * i + 1, 2 * i + 2);
    var m := if l < |s| && s[l] > s[i] then l else i;
    if r < |s| && s[r] > s[m] then r else m
  }

  function PercolateDown(s: seq<int>, i: nat): (r: seq<int>)
    requires i < |s|
    ensures |r| == |s|
    decreases |s| - i
  {
    var m := Larger(s, i);
    if m == i then s else PercolateDown(s[m := s[i]][i := s[m]], m)
  }

  /** What deleteMax leaves. */
  function DeleteMax(s: seq<int>): (r: seq<int>)
    requires s != []
    ensures |r| == |s| - 1
  {
    var t := s[0 := s[|s| - 1]][..|s| - 1];
    if t == [] then [] else PercolateDown(t, 0)
  }

  // ---------- heap order and contents ----------

  /** A heap but for the hole at `i`, into which `x` may go at `i` or above. */
  ghost predicate HoleAt(s: seq<int>, i: nat, x: int) {
    && i < |s|
    && (forall j :: 1 <= j < |s| && j != i && Parent(j) != i ==> s[Parent(j)] >= s[j])
    && (forall j :: 1 <= j < |s| && Parent(j) == i ==> s[j] <= x && (i > 0 ==> s[j] <= s[Parent(i)]))
  }

  lemma {:induction false} SiftUpOrders(s: seq<int>, i: nat, x: int)
    requires HoleAt(s, i, x)
    ensures IsHeap(SiftUp(s, i, x))
    decreases i
  {
    if i > 0 && x > s[Parent(i)] {
      var t := s[i := s[Parent(i)]];
      assert HoleAt(t, Parent(i), x);
      SiftUpOrders(t, Parent(i), x);
    }
  }

  lemma SwapRearranges(s: seq<int>, i: nat, j: nat)
    requires i < |s| && j < |s|
    ensures multiset(s[j := s[i]][i := s[j]]) == multiset(s)
  {
  }

  lemma {:induction false} SiftUpKeeps(s: seq<int>, i: nat, x: int)
    requires i < |s|
    ensures multiset(SiftUp(s, i, x)) == multiset(s[i := x])
    decreases i
  {
    if i > 0 && x > s[Parent(i)] {
      var q := Parent(i);
      SiftUpKeeps(s[i := s[q]], q, x);
      SwapRearranges(s[i := x], i, q);
      assert s[i := s[q]][q := x] == s[i := x][q := x][i := s[q]];
    }
  }

  lemma InsertIsHeap(s: seq<int>, x: int)
    requires IsHeap(s)
    ensures IsHeap(Insert(s, x)) && multiset(Insert(s, x)) == multiset(s) + multiset{x}
  {
    assert HoleAt(s + [x], |s|, x);
    SiftUpOrders(s + [x], |s|, x);
    SiftUpKeeps(s + [x], |s|, x);
    assert (s + [x])[|s| := x] == s + [x];
  }

  /** A heap but for the element at `i`, which may be too small. */
  ghost predicate TooSmallAt(s: seq<int>, i: nat) {
    && i < |s|
    && (forall j :: 1 <= j < |s| && Parent(j) != i ==> s[Parent(j)] >= s[j])
    && (forall j :: 1 <= j < |s| && Parent(j) == i && i > 0 ==> s[Parent(i)] >= s[j])
  }

  lemma ChildrenOf(i: nat, j: nat)
    requires j > 0
    ensures Parent(j) == i <==> j == 2 * i + 1 || j == 2 * i + 2
  {
  }

  lemma {:induction false} PercolateDownOrders(s: seq<int>, i: nat)
    requires TooSmallAt(s, i)
    ensures IsHeap(PercolateDown(s, i))
    decreases |s| - i
  {
    var m := Larger(s, i);
    if m != i {
      var t := s[m := s[i]][i := s[m]];
      ChildrenOf(i, m);
      forall j | 1 <= j < |t| && Parent(j) != m
        ensures t[Parent(j)] >= t[j]
      {
        ChildrenOf(i, j);
      }
      PercolateDownOrders(t, m);
    } else {
      forall j | 1 <= j < |s|
        ensures s[Parent(j)] >= s[j]
      {
        ChildrenOf(i, j);
      }
    }
  }

  lemma {:induction false} PercolateDownKeeps(s: seq<int>, i: nat)
    requires i < |s|
    ensures multiset(PercolateDown(s, i)) == multiset(s)
    decreases |s| - i
  {
    var m := Larger(s, i);
    if m != i {
      SwapRearranges(s, i, m);
      PercolateDownKeeps(s[m := s[i]][i := s[m]], m);
    }
  }

  lemma {:induction false} RootIsMax(s: seq<int>, j: nat)
    requires IsHeap(s) && j < |s|
    ensures s[j] <= s[0]
  {
    if j > 0 {
      RootIsMax(s, Parent(j));
    }
  }

  /** Moving the last element to the front takes the first one out. */
  lemma LastToFront(s: seq<int>)
    requires s != []
    ensures multiset(s[0 := s[|s| - 1]][..|s| - 1]) == multiset(s) - multiset{s[0]}
  {
    var n := |s| - 1;
    var t := s[0 := s[n]][..n];
    SwapRearranges(s, n, 0);
    assert s[0 := s[n]][n := s[0]] == t + [s[0]];
    assert multiset(t + [s[0]]) == multiset(t) + multiset{s[0]};
  }

  lemma RootIsMaximum(s: seq<int>)
    requires IsHeap(s) && s != []
    ensures IsMaxOf(multiset(s), s[0]) && multiset(s) != multiset{}
  {
    assert s[0] in multiset(s);
    forall x | x in multiset(s)
      ensures x <= s[0]
    {
      assert x in s;
      var j :| 0 <= j < |s| && s[j] == x;
      RootIsMax(s, j);
    }
  }

  lemma DeleteMaxIsHeap(s: seq<int>)
    requires IsHeap(s) && s != []
    ensures IsHeap(DeleteMax(s)) && multiset(DeleteMax(s)) == multiset(s) - multiset{s[0]}
  {
    LastToFront(s);
    var t := s[0 := s[|s| - 1]][..|s| - 1];
    if t != [] {
      PercolateDownOrders(t, 0);
      PercolateDownKeeps(t, 0);
    }
  }

  // ---------- any sequence of operations ----------

  datatype Op = Put(x: int) | TakeMax | Build(xs: seq<int>)

  /** A run on the heap: the heap it leaves, and what the calls of deleteMax return. */
  function Run(s: seq<int>, ops: seq<Op>): (r: (seq<int>, seq<int>))
    decreases |ops|
  {
    if ops == [] then (s, [])
    else
      match ops[0]
      case Put(x) => Run(Insert(s, x), ops[1..])
      case Build(xs) => Run(InsertAll(s, xs), ops[1..])
      case TakeMax =>
        if s == [] then
          var (end, outs) := Run(s, ops[1..]);
          (end, [-1] + outs)
        else
          var (end, outs) := Run(DeleteMax(s), ops[1..]);
          (end, [s[0]] + outs)
  }

  /** `t` is a heap of what `s` holds and `added`. */
  ghost predicate HeapWith(s: seq<int>, added: multiset<int>, t: seq<int>) {
    IsHeap(t) && multiset(t) == multiset(s) + added
  }

  /** `x` is the maximum of what `s` holds, and `t` is a heap of the rest. */
  ghost predicate HeapWithoutMax(s: seq<int>, x: int, t: seq<int>) {
    IsMaxOf(multiset(s), x) && IsHeap(t) && multiset(t) == multiset(s) - multiset{x}
  }

  ghost predicate IsMaxOf(m: multiset<int>, x: int) {
    x in m && forall y :: y in m ==> y <= x
  }

  /** The reference: the same run on a bag, from which the maximum is taken. */
  ghost predicate BagRun(m: multiset<int>, ops: seq<Op>, end: multiset<int>, outs: seq<int>)
    decreases |ops|
  {
    if ops == [] then end == m && outs == []
    else
      match ops[0]
      case Put(x) => BagRun(m + multiset{x}, ops[1..], end, outs)
      case Build(xs) => BagRun(m + multiset(xs), ops[1..], end, outs)
      case TakeMax =>
        && outs != []
        && if m == multiset{} then outs[0] == -1 && BagRun(m, ops[1..], end, outs[1..])
           else IsMaxOf(m, outs[0]) && BagRun(m - multiset{outs[0]}, ops[1..], end, outs[1..])
  }

  /** The bag's run is determined by its operations. */
  lemma {:induction false} BagRunUnique(
      m: multiset<int>, ops: seq<Op>, end: multiset<int>, outs: seq<int>, end': multiset<int>, outs': seq<int>)
    requires BagRun(m, ops, end, outs) && BagRun(m, ops, end', outs')
    ensures end == end' && outs == outs'
    decreases |ops|
  {
    if ops != [] {
      match ops[0]
      case Put(x) => BagRunUnique(m + multiset{x}, ops[1..], end, outs, end', outs');
      case Build(xs) => BagRunUnique(m + multiset(xs), ops[1..], end, outs, end', outs');
      case TakeMax =>
        assert outs[0] == outs'[0];
        var rest := if m == multiset{} then m else m - multiset{outs[0]};
        BagRunUnique(rest, ops[1..], end, outs[1..], end', outs'[1..]);
        assert outs == [outs[0]] + outs[1..] && outs' == [outs'[0]] + outs'[1..];
    }
  }

  lemma {:induction false} InsertAllIsHeap(s: seq<int>, xs: seq<int>)
    requires IsHeap(s)
    ensures IsHeap(InsertAll(s, xs)) && multiset(InsertAll(s, xs)) == multiset(s) + multiset(xs)
    decreases |xs|
  {
    if xs != [] {
      InsertIsHeap(s, xs[0]);
      InsertAllIsHeap(Insert(s, xs[0]), xs[1..]);
      assert xs == [xs[0]] + xs[1..];
    }
  }

  /** Over every sequence of operations heap order is kept, the contents are what was put in less
      what was taken out, and every deleteMax returns the maximum of what is there, or -1. */
  lemma {:induction false} RunRefinesBag(s: seq<int>, ops: seq<Op>)
    requires IsHeap(s)
    ensures IsHeap(Run(s, ops).0)
    ensures BagRun(multiset(s), ops, multiset(Run(s, ops).0), Run(s, ops).1)
    decreases |ops|
  {
    hide IsHeap, Insert, DeleteMax, InsertAll;
    if ops != [] {
      match ops[0]
      case Put(x) =>
        InsertIsHeap(s, x);
        RunRefinesBag(Insert(s, x), ops[1..]);
      case Build(xs) =>
        InsertAllIsHeap(s, xs);
        RunRefinesBag(InsertAll(s, xs), ops[1..]);
      case TakeMax =>
        if s == [] {
          RunRefinesBag(s, ops[1..]);
          var outs := Run(s, ops[1..]).1;
          assert ([-1] + outs)[1..] == outs;
        } else {
          RootIsMaximum(s);
          DeleteMaxIsHeap(s);
          RunRefinesBag(DeleteMax(s), ops[1..]);
          var outs := Run(DeleteMax(s), ops[1..]).1;
          assert ([s[0]] + outs)[1..] == outs;
        }
    }
  }

  // ---------- draining ----------

  /** Everything, by repeated deleteMax. */
  function DrainAll(s: seq<int>): (r: seq<int>)
    decreases |s|
  {
    if s == [] then [] else [s[0]] + DrainAll(DeleteMax(s))
  }

  /** The print loop: it stops at the first -1 that deleteMax returns. */
  function Drain(s: seq<int>): (r: seq<int>)
    decreases |s|
  {
    if s == [] || s[0] == -1 then [] else [s[0]] + Drain(DeleteMax(s))
  }

  ghost predicate Descending(s: seq<int>) {
    forall i, j :: 0 <= i < j < |s| ==> s[i] >= s[j]
  }

  /** Putting the maximum in front of the rest in descending order. */
  lemma ConsDescending(x: int, rest: seq<int>, m: multiset<int>)
    requires IsMaxOf(m, x) && multiset(rest) == m - multiset{x} && Descending(rest)
    ensures Descending([x] + rest) && multiset([x] + rest) == m
  {
    var all := [x] + rest;
    assert multiset(all) == multiset{x} + multiset(rest);
    forall i, j | 0 <= i < j < |all|
      ensures all[i] >= all[j]
    {
      assert all[j] == rest[j - 1];
      assert rest[j - 1] in multiset(rest);
      assert i > 0 ==> all[i] == rest[i - 1];
    }
  }

  /** Repeated deleteMax is a descending sort. */
  lemma {:induction false} DrainAllSorts(s: seq<int>)
    requires IsHeap(s)
    ensures Descending(DrainAll(s)) && multiset(DrainAll(s)) == multiset(s)
    decreases |s|
  {
    hide IsHeap, DeleteMax, IsMaxOf;
    if s != [] {
      hide Descending;
      RootIsMaximum(s);
      DeleteMaxIsHeap(s);
      DrainAllSorts(DeleteMax(s));
      ConsDescending(s[0], DrainAll(DeleteMax(s)), multiset(s));
    }
  }

  /** `d` holds exactly the elements of `m` above -1. */
  ghost predicate HoldsAbove(d: seq<int>, m: multiset<int>) {
    forall v :: multiset(d)[v] == if v > -1 then m[v] else 0
  }

  lemma ConsAbove(x: int, d: seq<int>, m: multiset<int>)
    requires x in m && x > -1 && HoldsAbove(d, m - multiset{x})
    ensures HoldsAbove([x] + d, m)
  {
    assert multiset([x] + d) == multiset{x} + multiset(d);
  }

  lemma StopsAtMaximum(m: multiset<int>)
    requires IsMaxOf(m, -1)
    ensures HoldsAbove([], m)
  {
  }

  lemma InRest(s: seq<int>, rest: seq<int>, x: int)
    requires s != [] && multiset(rest) == multiset(s) - multiset{s[0]} && s[0] != x
    ensures x in s <==> x in rest
  {
    assert x in s <==> x in multiset(s);
    assert x in rest <==> x in multiset(rest);
  }

  lemma ConsPrefix(x: int, a: seq<int>, b: seq<int>)
    ensures [x] + a <= [x] + b <==> a <= b
    ensures [x] + a == [x] + b <==> a == b
  {
    assert ([x] + a)[1..] == a && ([x] + b)[1..] == b;
  }

  /** The print loop prints the elements above -1 in descending order, and then stops if -1 is stored:
      so it prints everything if and only if -1 is not stored. */
  lemma {:induction false} DrainPrints(s: seq<int>)
    requires IsHeap(s)
    ensures Drain(s) <= DrainAll(s)
    ensures Drain(s) == DrainAll(s) <==> -1 !in s
    ensures -1 in s ==> HoldsAbove(Drain(s), multiset(s))
    decreases |s|
  {
    hide IsHeap, DeleteMax, HoldsAbove;
    if s != [] {
      RootIsMaximum(s);
      if s[0] == -1 {
        StopsAtMaximum(multiset(s));
      } else {
        var rest := DeleteMax(s);
        DeleteMaxIsHeap(s);
        DrainPrints(rest);
        ConsPrefix(s[0], Drain(rest), DrainAll(rest));
        InRest(s, rest, -1);
        if -1 in s {
          assert -1 in multiset(s);
          ConsAbove(s[0], Drain(rest), multiset(s));
        }
      }
    }
  }
}

module HeapObject {
  import opened HeapSpec

  class Heap {
    var capacity: nat
    var count: nat
    var ar: array<int>

    ghost predicate Valid()
      reads this
    {
      ar.Length == capacity && count <= capacity
    }

    /** The stored elements, in array order. */
    ghost function Stored(): (s: seq<int>)
      reads this, ar
      requires Valid()
    {
      ar[..count]
    }

    constructor (capacity: nat)
      ensures Valid() && fresh(ar) && this.capacity == capacity && Stored() == []
    {
      this.capacity, count, ar := capacity, 0, new int[capacity];
    }

    /** The copy constructor: copies the whole array, into a new one. */
    constructor Copy(src: Heap)
      requires src.Valid()
      ensures Valid() && fresh(ar) && capacity == src.capacity && Stored() == src.Stored()
    {
      capacity, count := src.capacity, src.count;
      var copy := new int[src.capacity];
      forall i | 0 <= i < src.capacity {
        copy[i] := src.ar[i];
      }
      ar := copy;
    }

    method PercolateDown(i: int) returns (r: int)
      requires Valid()
      modifies ar
      ensures Valid() && r == -1
      ensures Stored() == if 0 <= i < count then HeapSpec.PercolateDown(old(Stored()), i) else old(Stored())
      decreases count - i
    {
      if i < 0 || i >= count {
        return -1;
      }
      var (left, right) := (2 * i + 1, 2 * i + 2);
      var max := if left < count && ar[left] > ar[i] then left else i;
      if right < count && ar[right] > ar[max] {
        max := right;
      }
      assert max == Larger(Stored(), i);
      if max != i {
        ghost var s := Stored();
        ar[max], ar[i] := ar[i], ar[max];
        assert Stored() == s[max := s[i]][i := s[max]];
        r := PercolateDown(max);
        return r;
      }
      return -1;
    }

    /** The capacity is doubled, which makes room unless it was 0. */
    method Resize()
      requires Valid()
      modifies this
      ensures Valid() && fresh(ar) && capacity == 2 * old(capacity) && Stored() == old(Stored())
    {
      var bigger := new int[2 * capacity];
      for i := 0 to count
        modifies bigger
        invariant bigger[..i] == ar[..i]
      {
        bigger[i] := ar[i];
      }
      capacity := 2 * capacity;
      ar := bigger;
    }

    /** insert. With capacity 0 doubling makes no room, and the source goes on to write past its array:
        `overrun` says so, and the model stops there. */
    method Insert(data: int) returns (overrun: bool)
      requires Valid()
      modifies this, ar
      ensures Valid() && (ar == old(ar) || fresh(ar))
      ensures overrun <==> old(capacity) == 0
      ensures capacity == 0 <==> old(capacity) == 0
      ensures overrun ==> Stored() == old(Stored())
      ensures !overrun ==> Stored() == HeapSpec.Insert(old(Stored()), data)
      ensures !overrun && IsHeap(old(Stored())) ==> HeapWith(old(Stored()), multiset{data}, Stored())
    {
      hide IsHeap, SiftUp;
      ghost var s := Stored();
      if count >= capacity {
        Resize();
      }
      assert Stored() == s;
      if count >= capacity {
        return true;
      }
      count := count + 1;
      var i := count - 1;
      SlotIrrelevant(s, ar[i], data);
      assert Stored() == s + [ar[i]];
      MoveHole(i, data);
      if IsHeap(s) {
        InsertIsHeap(s, data);
      }
      return false;
    }

    /** The loop of insert. */
    method MoveHole(start: nat, data: int)
      requires Valid() && start < count
      modifies ar
      ensures Stored() == SiftUp(old(Stored()), start, data)
    {
      var i := start;
      while i > 0 && data > ar[(i - 1) / 2]
        invariant 0 <= i < count
        invariant SiftUp(Stored(), i, data) == SiftUp(old(Stored()), start, data)
      {
        ghost var t := Stored();
        ar[i] := ar[(i - 1) / 2];
        assert Stored() == t[i := t[Parent(i)]];
        i := (i - 1) / 2;
      }
      ghost var t := Stored();
      ar[i] := data;
      assert Stored() == t[i := data];
    }

    /** What a new slot held before it is filled makes no difference. */
    lemma SlotIrrelevant(s: seq<int>, memory: int, x: int)
      ensures SiftUp(s + [memory], |s|, x) == HeapSpec.Insert(s, x)
    {
      var (t, u) := (s + [memory], s + [x]);
      if |s| > 0 {
        var p := s[Parent(|s|)];
        assert t[|s| := p] == u[|s| := p];
      }
      assert t[|s| := x] == u[|s| := x];
    }

    method DeleteMax() returns (data: int)
      requires Valid()
      modifies this`count, ar
      ensures Valid()
      ensures old(Stored()) == [] ==> data == -1 && Stored() == []
      ensures old(Stored()) != [] ==>
                data == old(Stored())[0] && Stored() == HeapSpec.DeleteMax(old(Stored()))
      ensures old(Stored()) != [] && IsHeap(old(Stored())) ==> HeapWithoutMax(old(Stored()), data, Stored())
    {
      hide IsHeap, IsMaxOf, HeapSpec.PercolateDown, HeapSpec.DeleteMax;
      if count <= 0 {
        return -1;
      }
      ghost var s := Stored();
      data := ar[0];
      LastToRoot();
      if IsHeap(s) {
        RootIsMaximum(s);
        DeleteMaxIsHeap(s);
      }
    }

    /** The last element goes to the root and sinks to its place. */
    method LastToRoot()
      requires Valid() && count > 0
      modifies this`count, ar
      ensures Valid() && Stored() == HeapSpec.DeleteMax(old(Stored()))
    {
      hide HeapSpec.PercolateDown;
      ghost var s := Stored();
      ar[0] := ar[count - 1];
      ar[count - 1] := 0;
      count := count - 1;
      assert Stored() == s[0 := s[|s| - 1]][..|s| - 1];
      var r := PercolateDown(0);
    }

    method BuildHeap(xs: seq<int>) returns (overrun: bool)
      requires Valid()
      modifies this, ar
      ensures Valid() && (ar == old(ar) || fresh(ar))
      ensures overrun <==> old(capacity) == 0 && xs != []
      ensures capacity == 0 <==> old(capacity) == 0
      ensures overrun ==> Stored() == old(Stored())
      ensures !overrun ==> Stored() == InsertAll(old(Stored()), xs)
      ensures !overrun && IsHeap(old(Stored())) ==> HeapWith(old(Stored()), multiset(xs), Stored())
    {
      hide IsHeap, HeapSpec.Insert;
      ghost var s := Stored();
      for i := 0 to |xs|
        invariant Valid() && (ar == old(ar) || fresh(ar))
        invariant (capacity == 0 <==> old(capacity) == 0) && (capacity == 0 ==> i == 0 && Stored() == s)
        invariant InsertAll(Stored(), xs[i..]) == InsertAll(s, xs)
      {
        overrun := Insert(xs[i]);
        if overrun {
          return true;
        }
        assert xs[i..][1..] == xs[i + 1..];
      }
      if IsHeap(s) {
        InsertAllIsHeap(s, xs);
      }
      return false;
    }

    /** Performs any sequence of operations, through any number of resizes: the object returns what the
        specified run returns, and so what a bag would. */
    method Perform(ops: seq<Op>) returns (outs: seq<int>)
      requires Valid() && capacity > 0
      modifies this, ar
      ensures Valid() && capacity > 0 && (ar == old(ar) || fresh(ar))
      ensures (Stored(), outs) == Run(old(Stored()), ops)
      ensures IsHeap(old(Stored())) ==>
                IsHeap(Stored()) && BagRun(multiset(old(Stored())), ops, multiset(Stored()), outs)
    {
      hide IsHeap, HeapWith, HeapWithoutMax, HeapSpec.Insert, HeapSpec.DeleteMax, InsertAll, BagRun;
      ghost var s := Stored();
      outs := [];
      for k := 0 to |ops|
        invariant Valid() && capacity > 0 && (ar == old(ar) || fresh(ar))
        invariant Run(Stored(), ops[k..]).0 == Run(s, ops).0
        invariant outs + Run(Stored(), ops[k..]).1 == Run(s, ops).1
      {
        assert ops[k..][1..] == ops[k + 1..];
        match ops[k] {
          case Put(x) =>
            var overrun := Insert(x);
          case Build(xs) =>
            var overrun := BuildHeap(xs);
          case TakeMax =>
            var data := DeleteMax();
            outs := outs + [data];
        }
      }
      assert ops[|ops|..] == [] && outs + [] == outs;
      if IsHeap(s) {
        RunRefinesBag(s, ops);
      }
    }

    /** The output operator: it drains a copy, so this heap stays as it is. */
    method Print() returns (size: nat, printed: seq<int>)
      requires Valid()
      ensures size == |Stored()| && printed == Drain(Stored())
    {
      var cp := new Heap.Copy(this);
      size := cp.count;
      printed := cp.PrintLoop();
    }

    /** Its loop, which ends at the first -1 that deleteMax returns. */
    method PrintLoop() returns (printed: seq<int>)
      requires Valid()
      modifies this`count, ar
      ensures Valid() && printed == Drain(old(Stored()))
    {
      hide HeapSpec.DeleteMax, IsHeap, HeapWithoutMax;
      ghost var all := Stored();
      printed := [];
      var data := DeleteMax();
      while data != -1
        invariant Valid() && printed + Pending(data, Stored()) == Drain(all)
        decreases count + if data == -1 then 0 else 1
      {
        ghost var rest := Stored();
        printed := printed + [data];
        data := DeleteMax();
        assert Drain(rest) == Pending(data, Stored());
      }
    }

    /** What is still to be printed once `data` has been taken and `rest` is left. */
    static ghost function Pending(data: int, rest: seq<int>): (p: seq<int>) {
      if data == -1 then [] else [data] + Drain(rest)
    }
  }
}
