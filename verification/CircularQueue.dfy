/** The ring buffer queue. initCirQue only allocates the buffer, so the model starts from the meant
    empty state. */
module CircularQueue {
  import opened Wrappers

  /** The cell `i` places behind `front`. */
  function Cell(front: nat, i: nat, capacity: nat): (c: nat)
    requires capacity > 0
    ensures c < capacity
  {
    (front + i) % capacity
  }

  class CirQue {
    var data: array<int>
    var front: nat
    var rear: nat
    var count: nat
    var capacity: nat

    ghost predicate Valid()
      reads this
    {
      && data.Length == capacity && count <= capacity
      && (capacity > 0 ==> front < capacity && rear == Cell(front, count, capacity))
    }

    /** The queued elements, oldest first, wherever the buffer wraps. */
    ghost function Contents(): (s: seq<int>)
      reads this, data
      requires Valid()
      ensures |s| == count
    {
      seq(count, i requires 0 <= i < count reads this, data requires Valid() => data[Cell(front, i, capacity)])
    }

    constructor (capacity: nat)
      ensures Valid() && fresh(data) && this.capacity == capacity && Contents() == []
    {
      data := new int[capacity];
      front, rear, count, this.capacity := 0, 0, 0, capacity;
    }

    /** insertCirQue: refused when full, and then nothing changes. */
    method Insert(newData: int) returns (r: int)
      requires Valid()
      modifies data, `rear, `count
      ensures Valid()
      ensures old(count) == capacity ==>
                r == -1 && count == old(count) && rear == old(rear) && data[..] == old(data[..])
      ensures old(count) < capacity ==> r == 0 && Contents() == old(Contents()) + [newData]
    {
      if count == capacity {
        return -1;
      }
      hide Cell;
      ghost var s := Contents();
      forall i | 0 <= i < count
        ensures Cell(front, i, capacity) != rear
      {
        CellsApart(front, i, count, capacity);
      }
      data[rear] := newData;
      NextCell(front, count, capacity);
      rear := (rear + 1) % capacity;
      count := count + 1;
      assert Contents() == s + [newData];
      return 0;
    }

    /** removeCirQue: refused when empty, and then nothing changes. */
    method Remove() returns (r: int, out: Option<int>)
      requires Valid()
      modifies `front, `count
      ensures Valid()
      ensures old(count) == 0 ==> r == -1 && out == None && count == 0 && front == old(front)
      ensures old(count) > 0 ==>
                r == 0 && out == Some(old(Contents())[0]) && Contents() == old(Contents())[1..]
    {
      if count == 0 {
        return -1, None;
      }
      hide Cell;
      ghost var s := Contents();
      FirstCell(front, capacity);
      out := Some(data[front]);
      ghost var (f, f') := (front, (front + 1) % capacity);
      AroundTheEnd(front, capacity);
      forall i | 0 <= i < count
        ensures Cell(f', i, capacity) == Cell(f, i + 1, capacity)
      {
        ShiftedCell(f, f', i, capacity);
      }
      front := (front + 1) % capacity;
      count := count - 1;
      assert Contents() == s[1..];
      return 0, out;
    }
  }

  lemma CellValue(front: nat, i: nat, capacity: nat)
    requires front < capacity && i <= capacity
    ensures Cell(front, i, capacity) == if front + i < capacity then front + i else front + i - capacity
  {
  }

  lemma FirstCell(front: nat, capacity: nat)
    requires front < capacity
    ensures Cell(front, 0, capacity) == front
  {
    CellValue(front, 0, capacity);
  }

  /** Positions less than a whole round apart are different cells. */
  lemma CellsApart(front: nat, i: nat, j: nat, capacity: nat)
    requires front < capacity && i < j < capacity
    ensures Cell(front, i, capacity) != Cell(front, j, capacity)
  {
    hide Cell;
    CellValue(front, i, capacity);
    CellValue(front, j, capacity);
  }

  lemma NextCell(front: nat, i: nat, capacity: nat)
    requires front < capacity && i < capacity
    ensures (Cell(front, i, capacity) + 1) % capacity == Cell(front, i + 1, capacity)
  {
    hide Cell;
    CellValue(front, i, capacity);
    CellValue(front, i + 1, capacity);
  }

  lemma AroundTheEnd(front: nat, capacity: nat)
    requires front < capacity
    ensures (front + 1) % capacity == if front + 1 == capacity then 0 else front + 1
  {
  }

  /** Moving the front by one moves every position by one. */
  lemma ShiftedCell(front: nat, front': nat, i: nat, capacity: nat)
    requires front < capacity && i < capacity
    requires front' == if front + 1 == capacity then 0 else front + 1
    ensures Cell(front', i, capacity) == Cell(front, i + 1, capacity)
  {
    hide Cell;
    CellValue(front', i, capacity);
    CellValue(front, i + 1, capacity);
  }

  // ---------- any run ----------

  datatype Call = Put(x: int) | Take

  /** A run on a bounded queue: what it leaves, what it took, and what it accepted. */
  function Run(q: seq<int>, capacity: nat, calls: seq<Call>): (r: (seq<int>, seq<int>, seq<int>))
    decreases |calls|
  {
    if calls == [] then (q, [], [])
    else
      match calls[0]
      case Put(x) =>
        if |q| == capacity then Run(q, capacity, calls[1..])
        else
          var (end, taken, accepted) := Run(q + [x], capacity, calls[1..]);
          (end, taken, [x] + accepted)
      case Take =>
        if q == [] then Run(q, capacity, calls[1..])
        else
          var (end, taken, accepted) := Run(q[1..], capacity, calls[1..]);
          (end, [q[0]] + taken, accepted)
  }

  /** Over any run the queue never exceeds its capacity, and what was taken followed by what is left
      is what was there followed by what was accepted, in order. */
  lemma {:induction false} RunIsBoundedFifo(q: seq<int>, capacity: nat, calls: seq<Call>)
    requires |q| <= capacity
    ensures var (end, taken, accepted) := Run(q, capacity, calls);
            |end| <= capacity && taken + end == q + accepted
    decreases |calls|
  {
    if calls != [] {
      match calls[0]
      case Put(x) =>
        if |q| == capacity {
          RunIsBoundedFifo(q, capacity, calls[1..]);
        } else {
          RunIsBoundedFifo(q + [x], capacity, calls[1..]);
          var accepted := Run(q + [x], capacity, calls[1..]).2;
          assert (q + [x]) + accepted == q + ([x] + accepted);
        }
      case Take =>
        if q == [] {
          RunIsBoundedFifo(q, capacity, calls[1..]);
        } else {
          RunIsBoundedFifo(q[1..], capacity, calls[1..]);
          var (end, taken, accepted) := Run(q[1..], capacity, calls[1..]);
          assert ([q[0]] + taken) + end == [q[0]] + (taken + end);
          assert q + accepted == [q[0]] + (q[1..] + accepted);
        }
    }
  }

  /** One more call after a run: an insertion is accepted exactly if there is room, a removal takes
      exactly the oldest element left, and otherwise nothing changes. */
  lemma {:induction false} RunOneMore(q: seq<int>, capacity: nat, calls: seq<Call>, c: Call)
    ensures var (end, taken, accepted) := Run(q, capacity, calls);
            Run(q, capacity, calls + [c])
            == match c
               case Put(x) => if |end| == capacity then (end, taken, accepted) else (end + [x], taken, accepted + [x])
               case Take => if end == [] then (end, taken, accepted) else (end[1..], taken + [end[0]], accepted)
    decreases |calls|
  {
    if calls == [] {
      var one := [c];
      assert calls + [c] == one && one[1..] == calls;
      assert c.Put? ==> [c.x] + [] == [] + [c.x];
      assert q != [] ==> [q[0]] + [] == [] + [q[0]];
    } else {
      assert (calls + [c])[1..] == calls[1..] + [c];
      var q' := match calls[0]
                case Put(x) => if |q| == capacity then q else q + [x]
                case Take => if q == [] then q else q[1..];
      RunOneMore(q', capacity, calls[1..], c);
      var (end, taken, accepted) := Run(q', capacity, calls[1..]);
      if end != [] {
        FrontOfAppend(if calls[0].Take? && q != [] then [q[0]] else [], taken, end[0]);
      }
      match calls[0] {
        case Put(x) => FrontOfAppend([x], accepted, if c.Put? then c.x else 0);
        case Take =>
      }
    }
  }

  lemma FrontOfAppend(a: seq<int>, b: seq<int>, x: int)
    ensures a + (b + [x]) == (a + b) + [x]
  {
  }

  /** Performs a run on a ring: it behaves like the bounded queue. */
  method Perform(que: CirQue, calls: seq<Call>) returns (taken: seq<int>)
    requires que.Valid()
    modifies que, que.data
    ensures que.Valid() && que.data == old(que.data) && que.capacity == old(que.capacity)
    ensures var r := Run(old(que.Contents()), que.capacity, calls);
            que.Contents() == r.0 && taken == r.1
  {
    taken := [];
    ghost var goal := Run(que.Contents(), que.capacity, calls);
    for k := 0 to |calls|
      invariant que.Valid() && que.data == old(que.data) && que.capacity == old(que.capacity)
      invariant Run(que.Contents(), que.capacity, calls[k..]).0 == goal.0
      invariant taken + Run(que.Contents(), que.capacity, calls[k..]).1 == goal.1
    {
      assert calls[k..][1..] == calls[k + 1..];
      ghost var q := que.Contents();
      match calls[k] {
        case Put(x) =>
          var r := que.Insert(x);
          assert que.Contents() == if |q| == que.capacity then q else q + [x];
        case Take =>
          var r, out := que.Remove();
          if out.Some? {
            taken := taken + [out.value];
          }
      }
    }
  }
}
