/** The singly linked list with head, tail and size, and the queue, stack and event queue that are
    built on it. */
module LinkedList {
  import opened Wrappers

  class Elmt<T> {
    var data: T
    var next: Elmt?<T>

    constructor (data: T)
      ensures this.data == data && next == null
    {
      this.data, next := data, null;
    }
  }

  ghost predicate Distinct<T>(s: seq<T>) {
    forall i, j :: 0 <= i < j < |s| ==> s[i] != s[j]
  }

  lemma Inserted<T>(s: seq<T>, p: nat, x: T)
    requires p <= |s| && Distinct(s) && x !in s
    ensures var t := s[..p] + [x] + s[p..];
            && Distinct(t)
            && forall i :: 0 <= i < |t| ==> t[i] == if i < p then s[i] else if i == p then x else s[i - 1]
  {
  }

  lemma Removed<T>(s: seq<T>, p: nat)
    requires p < |s| && Distinct(s)
    ensures var t := s[..p] + s[p + 1..];
            && Distinct(t) && s[p] !in t
            && forall i :: 0 <= i < |t| ==> t[i] == if i < p then s[i] else s[i + 1]
  {
  }

  /** `spine` lists the nodes of the list, from head to tail. */
  class List<T> {
    var size: int
    var head: Elmt?<T>
    var tail: Elmt?<T>
    ghost var spine: seq<Elmt<T>>

    /** The list is an acyclic chain of exactly `size` nodes that starts at `head` and ends at `tail`. */
    ghost predicate Valid()
      reads this, spine
    {
      && size == |spine|
      && Distinct(spine)
      && (forall i {:trigger spine[i].next} :: 0 <= i < |spine| ==>
            spine[i].next == if i + 1 < |spine| then spine[i + 1] else null)
      && head == (if spine == [] then null else spine[0])
      && tail == (if spine == [] then null else spine[|spine| - 1])
    }

    ghost function Contents(): (s: seq<T>)
      reads this, spine
      ensures |s| == |spine|
    {
      seq(|spine|, i requires 0 <= i < |spine| reads this, spine => spine[i].data)
    }

    /** The node before position `p`: NULL at the front. */
    ghost predicate IsBefore(element: Elmt?<T>, p: nat)
      reads this
    {
      p <= |spine| && if p == 0 then element == null else element == spine[p - 1]
    }

    /** list_init */
    constructor ()
      ensures Valid() && Contents() == [] && spine == []
    {
      size, head, tail, spine := 0, null, null, [];
    }

    /** list_ins_next: `data` becomes element number `p`. */
    method InsNext(element: Elmt?<T>, data: T, memory: bool, ghost p: nat) returns (r: int)
      requires Valid() && IsBefore(element, p)
      modifies this, spine
      ensures Valid() && r == if memory then 0 else -1
      ensures !memory ==> spine == old(spine) && Contents() == old(Contents())
      ensures memory ==>
                && Contents() == old(Contents())[..p] + [data] + old(Contents())[p..]
                && |spine| == |old(spine)| + 1 && fresh(spine[p])
                && spine == old(spine)[..p] + [spine[p]] + old(spine)[p..]
    {
      if !memory {
        return -1;
      }
      hide Distinct;
      ghost var nodes := spine;
      assert element != null ==> nodes[p - 1].next == if p < |nodes| then nodes[p] else null;
      var newElement := new Elmt(data);
      if element == null {
        if size == 0 {
          tail := newElement;
        }
        newElement.next := head;
        head := newElement;
      } else {
        if element.next == null {
          tail := newElement;
        }
        newElement.next := element.next;
        element.next := newElement;
      }
      size := size + 1;
      spine := nodes[..p] + [newElement] + nodes[p..];
      Inserted(nodes, p, newElement);
      assert Contents() == old(Contents())[..p] + [data] + old(Contents())[p..];
      return 0;
    }

    /** list_rem_next: element number `p` is unlinked and its data handed back, if there is one. */
    method RemNext(element: Elmt?<T>, ghost p: nat) returns (r: int, data: Option<T>)
      requires Valid() && IsBefore(element, p)
      modifies this, spine
      ensures Valid()
      ensures p == |old(spine)| ==> r == -1 && data == None && spine == old(spine) && Contents() == old(Contents())
      ensures p < |old(spine)| ==>
                && r == 0 && data == Some(old(Contents())[p])
                && Contents() == old(Contents())[..p] + old(Contents())[p + 1..]
                && spine == old(spine)[..p] + old(spine)[p + 1..]
    {
      ghost var nodes := spine;
      assert element != null ==> nodes[p - 1].next == if p < |nodes| then nodes[p] else null;
      assert p < |nodes| ==> nodes[p].next == if p + 1 < |nodes| then nodes[p + 1] else null;
      if size == 0 {
        return -1, None;
      }
      var oldElement: Elmt<T>;
      if element == null {
        data := Some(head.data);
        oldElement := head;
        head := head.next;
        if size == 1 {
          tail := null;
        }
      } else {
        if element.next == null {
          return -1, None;
        }
        data := Some(element.next.data);
        oldElement := element.next;
        element.next := element.next.next;
        if element.next == null {
          tail := element;
        }
      }
      oldElement.next := null;
      size := size - 1;
      spine := nodes[..p] + nodes[p + 1..];
      Removed(nodes, p);
      assert Contents() == old(Contents())[..p] + old(Contents())[p + 1..];
      return 0, data;
    }

    /** list_rem_next with NULL for the element: the first element is unlinked, if there is one. */
    method RemFirst() returns (r: int, data: Option<T>)
      requires Valid()
      modifies this, spine
      ensures Valid()
      ensures old(Contents()) == [] ==> r == -1 && data == None && spine == [] && Contents() == []
      ensures old(Contents()) != [] ==>
                && r == 0 && data == Some(old(Contents())[0])
                && Contents() == old(Contents())[1..] && spine == old(spine)[1..]
    {
      r, data := RemNext(null, 0);
    }

    /** list_destroy: every payload still in the list is handed to the destroy function exactly
        once, from head to tail; without a destroy function the list is only emptied. */
    method Destroy(hasDestroy: bool) returns (destroyed: seq<T>)
      requires Valid()
      modifies this, spine
      ensures Valid() && size == 0 && Contents() == []
      ensures destroyed == if hasDestroy then old(Contents()) else []
    {
      hide Distinct;
      destroyed := [];
      ghost var (all, k) := (Contents(), 0);
      while size > 0
        invariant Valid() && (forall i :: 0 <= i < |spine| ==> spine[i] in old(spine))
        invariant 0 <= k <= |all| && size == |all| - k && Contents() == all[k..]
        invariant destroyed == if hasDestroy then all[..k] else []
        decreases size
      {
        var r, data := RemFirst();
        assert all[k..][1..] == all[k + 1..] && all[..k + 1] == all[..k] + [all[k]];
        k := k + 1;
        if r == 0 && hasDestroy {
          destroyed := destroyed + [data.value];
        }
      }
      head := null;
      tail := null;
    }
  }

  // ---------- queue and stack ----------

  method Enqueue<T>(queue: List<T>, data: T, memory: bool) returns (r: int)
    requires queue.Valid()
    modifies queue, queue.spine
    ensures queue.Valid() && r == if memory then 0 else -1
    ensures queue.Contents() == old(queue.Contents()) + if memory then [data] else []
    ensures forall i :: 0 <= i < |queue.spine| ==> queue.spine[i] in old(queue.spine) || fresh(queue.spine[i])
  {
    r := queue.InsNext(queue.tail, data, memory, |queue.spine|);
  }

  method Dequeue<T>(queue: List<T>) returns (r: int, data: Option<T>)
    requires queue.Valid()
    modifies queue, queue.spine
    ensures queue.Valid()
    ensures old(queue.Contents()) == [] ==> r == -1 && data == None && queue.Contents() == []
    ensures old(queue.Contents()) != [] ==>
              r == 0 && data == Some(old(queue.Contents())[0]) && queue.Contents() == old(queue.Contents())[1..]
    ensures forall i :: 0 <= i < |queue.spine| ==> queue.spine[i] in old(queue.spine)
  {
    r, data := queue.RemFirst();
  }

  method Push<T>(stack: List<T>, data: T, memory: bool) returns (r: int)
    requires stack.Valid()
    modifies stack, stack.spine
    ensures stack.Valid() && r == if memory then 0 else -1
    ensures stack.Contents() == (if memory then [data] else []) + old(stack.Contents())
    ensures forall i :: 0 <= i < |stack.spine| ==> stack.spine[i] in old(stack.spine) || fresh(stack.spine[i])
  {
    r := stack.InsNext(null, data, memory, 0);
  }

  method Pop<T>(stack: List<T>) returns (r: int, data: Option<T>)
    requires stack.Valid()
    modifies stack, stack.spine
    ensures stack.Valid()
    ensures old(stack.Contents()) == [] ==> r == -1 && data == None && stack.Contents() == []
    ensures old(stack.Contents()) != [] ==>
              r == 0 && data == Some(old(stack.Contents())[0]) && stack.Contents() == old(stack.Contents())[1..]
    ensures forall i :: 0 <= i < |stack.spine| ==> stack.spine[i] in old(stack.spine)
  {
    r, data := stack.RemFirst();
  }

  // ---------- what they are for ----------

  /** Calls on a queue or a stack of payloads; a call that fails for want of memory changes nothing. */
  datatype Call<T> = Add(data: T, memory: bool) | Take

  /** The payloads that were added, in order. */
  function Added<T>(calls: seq<Call<T>>): (xs: seq<T>) {
    if calls == [] then []
    else (if calls[0].Add? && calls[0].memory then [calls[0].data] else []) + Added(calls[1..])
  }

  /** A run on a queue: what it leaves, and what was taken. */
  function QueueRun<T>(q: seq<T>, calls: seq<Call<T>>): (r: (seq<T>, seq<T>))
    decreases |calls|
  {
    if calls == [] then (q, [])
    else
      match calls[0]
      case Add(data, memory) => QueueRun(q + (if memory then [data] else []), calls[1..])
      case Take =>
        if q == [] then QueueRun(q, calls[1..])
        else
          var (end, taken) := QueueRun(q[1..], calls[1..]);
          (end, [q[0]] + taken)
  }

  /** First in, first out, over any interleaving: what was taken followed by what is still queued is
      what was there followed by what was added. */
  lemma {:induction false} QueueIsFifo<T>(q: seq<T>, calls: seq<Call<T>>)
    ensures var (end, taken) := QueueRun(q, calls); taken + end == q + Added(calls)
    decreases |calls|
  {
    if calls != [] {
      match calls[0]
      case Add(data, memory) => QueueIsFifo(q + (if memory then [data] else []), calls[1..]);
      case Take =>
        if q == [] {
          QueueIsFifo(q, calls[1..]);
        } else {
          QueueIsFifo(q[1..], calls[1..]);
          var (end, taken) := QueueRun(q[1..], calls[1..]);
          assert ([q[0]] + taken) + end == [q[0]] + (taken + end);
          assert q + Added(calls) == [q[0]] + (q[1..] + Added(calls));
        }
    }
  }

  /** One more call after a run: it adds at the end, or takes the oldest payload left, if there is one. */
  lemma {:induction false} QueueOneMore<T>(q: seq<T>, calls: seq<Call<T>>, c: Call<T>)
    ensures var (end, taken) := QueueRun(q, calls);
            QueueRun(q, calls + [c])
            == match c
               case Add(data, memory) => (if memory then end + [data] else end, taken)
               case Take => if end == [] then (end, taken) else (end[1..], taken + [end[0]])
    decreases |calls|
  {
    if calls == [] {
      var one := [c];
      assert calls + [c] == one && one[1..] == calls;
      assert q + [] == q;
      assert q != [] ==> [q[0]] + [] == [] + [q[0]];
    } else {
      assert (calls + [c])[1..] == calls[1..] + [c];
      var q' := match calls[0]
                case Add(data, memory) => q + (if memory then [data] else [])
                case Take => if q == [] then q else q[1..];
      QueueOneMore(q', calls[1..], c);
      var (end, taken) := QueueRun(q', calls[1..]);
      if calls[0].Take? && q != [] && end != [] {
        assert [q[0]] + (taken + [end[0]]) == ([q[0]] + taken) + [end[0]];
      }
    }
  }

  /** Performs a run on a queue: the list behaves like the sequence. */
  method QueuePerform<T>(queue: List<T>, calls: seq<Call<T>>) returns (taken: seq<T>)
    requires queue.Valid()
    modifies queue, queue.spine
    ensures queue.Valid() && (queue.Contents(), taken) == QueueRun(old(queue.Contents()), calls)
    ensures taken + queue.Contents() == old(queue.Contents()) + Added(calls)
  {
    taken := [];
    ghost var q := queue.Contents();
    for k := 0 to |calls|
      invariant queue.Valid()
      invariant forall i :: 0 <= i < |queue.spine| ==> queue.spine[i] in old(queue.spine) || fresh(queue.spine[i])
      invariant QueueRun(queue.Contents(), calls[k..]).0 == QueueRun(q, calls).0
      invariant taken + QueueRun(queue.Contents(), calls[k..]).1 == QueueRun(q, calls).1
    {
      assert calls[k..][1..] == calls[k + 1..];
      match calls[k] {
        case Add(data, memory) =>
          var r := Enqueue(queue, data, memory);
        case Take =>
          var r, data := Dequeue(queue);
          if data.Some? {
            taken := taken + [data.value];
          }
      }
    }
    assert calls[|calls|..] == [] && taken + [] == taken;
    QueueIsFifo(q, calls);
  }

  /** A run on a stack, whose top is element 0. `None` says that a pop found it empty. */
  function StackRun<T>(s: seq<T>, calls: seq<Call<T>>): (r: (seq<T>, seq<Option<T>>))
    decreases |calls|
  {
    if calls == [] then (s, [])
    else
      match calls[0]
      case Add(data, memory) => StackRun((if memory then [data] else []) + s, calls[1..])
      case Take =>
        var (end, taken) := StackRun(if s == [] then s else s[1..], calls[1..]);
        (end, [if s == [] then None else Some(s[0])] + taken)
  }

  /** The first of the calls still to come. */
  lemma StackNext<T>(s: seq<T>, calls: seq<Call<T>>, k: nat)
    requires k < |calls|
    ensures var (end, taken) := StackRun(s, calls[k..]);
            match calls[k]
            case Add(data, memory) =>
              StackRun((if memory then [data] else []) + s, calls[k + 1..]) == (end, taken)
            case Take =>
              var rest := StackRun(if s == [] then s else s[1..], calls[k + 1..]);
              end == rest.0 && taken == [if s == [] then None else Some(s[0])] + rest.1
  {
    assert calls[k..][1..] == calls[k + 1..];
  }

  /** Performs a run on a stack: the list behaves like the sequence. */
  method StackPerform<T>(stack: List<T>, calls: seq<Call<T>>) returns (taken: seq<Option<T>>)
    requires stack.Valid()
    modifies stack, stack.spine
    ensures stack.Valid() && (stack.Contents(), taken) == StackRun(old(stack.Contents()), calls)
  {
    hide StackRun;
    taken := [];
    ghost var goal := StackRun(stack.Contents(), calls);
    assert calls[0..] == calls && [] + goal.1 == goal.1;
    for k := 0 to |calls|
      invariant stack.Valid()
      invariant forall i :: 0 <= i < |stack.spine| ==> stack.spine[i] in old(stack.spine) || fresh(stack.spine[i])
      invariant StackRun(stack.Contents(), calls[k..]).0 == goal.0
      invariant taken + StackRun(stack.Contents(), calls[k..]).1 == goal.1
    {
      StackNext(stack.Contents(), calls, k);
      match calls[k] {
        case Add(data, memory) =>
          var r := Push(stack, data, memory);
        case Take =>
          var r, data := Pop(stack);
          ghost var rest := StackRun(stack.Contents(), calls[k + 1..]).1;
          assert taken + ([data] + rest) == (taken + [data]) + rest;
          taken := taken + [data];
      }
    }
    StackRunNone(stack.Contents(), calls[|calls|..]);
    assert taken + [] == taken;
  }

  lemma StackRunNone<T>(s: seq<T>, calls: seq<Call<T>>)
    requires calls == []
    ensures StackRun(s, calls) == (s, [])
  {
  }

  /** A run that never finds its stack empty does the same on top of any other stack. */
  lemma {:induction false} StackRunOnTop<T>(s: seq<T>, base: seq<T>, calls: seq<Call<T>>)
    requires None !in StackRun(s, calls).1
    ensures StackRun(s + base, calls) == (StackRun(s, calls).0 + base, StackRun(s, calls).1)
    decreases |calls|
  {
    if calls != [] {
      match calls[0]
      case Add(data, memory) =>
        var x := if memory then [data] else [];
        StackRunOnTop(x + s, base, calls[1..]);
        assert x + (s + base) == (x + s) + base;
      case Take =>
        var taken := StackRun(s, calls).1;
        assert taken[0] in taken && s != [];
        StackRunOnTop(s[1..], base, calls[1..]);
        assert (s + base)[1..] == s[1..] + base;
    }
  }

  /** Last in, first out: after any balanced calls a pop takes what was pushed before them, and the
      stack is what it was before the push. */
  lemma StackIsLifo<T>(base: seq<T>, x: T, calls: seq<Call<T>>)
    requires StackRun([], calls).0 == [] && None !in StackRun([], calls).1
    ensures StackRun(base, [Add(x, true)] + calls + [Take])
            == (base, StackRun([], calls).1 + [Some(x)])
  {
    var all := [Add(x, true)] + calls + [Take];
    assert all[1..] == calls + [Take];
    assert [x] + base == [] + ([x] + base);
    StackRunOnTop([], [x] + base, calls);
    StackRunAppend([x] + base, calls, [Take]);
    var pop: seq<Call<T>> := [Take];
    assert pop[1..] == [] && ([x] + base)[1..] == base;
    assert StackRun(base, pop[1..]) == (base, []);
    assert StackRun([x] + base, pop) == (base, [Some(x)] + []);
    assert [Some(x)] + [] == [Some(x)];
  }

  lemma {:induction false} StackRunAppend<T>(s: seq<T>, a: seq<Call<T>>, b: seq<Call<T>>)
    ensures var (mid, taken) := StackRun(s, a);
            var (end, more) := StackRun(mid, b);
            StackRun(s, a + b) == (end, taken + more)
    decreases |a|
  {
    if a == [] {
      assert a + b == b;
      assert [] + StackRun(s, b).1 == StackRun(s, b).1;
    } else {
      assert (a + b)[1..] == a[1..] + b;
      match a[0]
      case Add(data, memory) => StackRunAppend((if memory then [data] else []) + s, a[1..], b);
      case Take =>
        var rest := if s == [] then s else s[1..];
        StackRunAppend(rest, a[1..], b);
        var (mid, taken) := StackRun(rest, a[1..]);
        var first := if s == [] then None else Some(s[0]);
        assert [first] + (taken + StackRun(mid, b).1) == ([first] + taken) + StackRun(mid, b).1;
    }
  }
}

/** Events are copied into a queue when they are received, and dispatched and freed in turn. */
module Events {
  import opened LinkedList
  import opened Wrappers

  /** receive_event: a copy of the event is queued. It fails when either malloc does; in the second
      case the copy is lost. */
  method ReceiveEvent<Event>(queue: List<Event>, event: Event, eventMemory: bool, nodeMemory: bool) returns (r: int)
    requires queue.Valid()
    modifies queue, queue.spine
    ensures queue.Valid() && r == if eventMemory && nodeMemory then 0 else -1
    ensures queue.Contents() == old(queue.Contents()) + if r == 0 then [event] else []
    ensures forall i :: 0 <= i < |queue.spine| ==> queue.spine[i] in old(queue.spine) || fresh(queue.spine[i])
  {
    if !eventMemory {
      return -1;
    }
    var code := Enqueue(queue, event, nodeMemory);
    if code != 0 {
      return -1;
    }
    return 0;
  }

  /** process_event: the oldest event is dispatched, if there is one. */
  method ProcessEvent<Event>(queue: List<Event>) returns (r: int, dispatched: Option<Event>)
    requires queue.Valid()
    modifies queue, queue.spine
    ensures queue.Valid()
    ensures forall i :: 0 <= i < |queue.spine| ==> queue.spine[i] in old(queue.spine)
    ensures old(queue.Contents()) == [] ==> r == -1 && dispatched == None && queue.Contents() == []
    ensures old(queue.Contents()) != [] ==>
              && r == 0 && dispatched == Some(old(queue.Contents())[0])
              && queue.Contents() == old(queue.Contents())[1..]
  {
    if queue.size < 1 {
      return -1, None;
    }
    var code, event := Dequeue(queue);
    if code != 0 {
      return -1, None;
    }
    return 0, event;
  }

  datatype EventCall<Event> = Receive(event: Event, eventMemory: bool, nodeMemory: bool) | Process

  /** What the calls mean for the queue. */
  function QueueCalls<Event>(calls: seq<EventCall<Event>>): (qs: seq<Call<Event>>)
    ensures |qs| == |calls|
  {
    seq(|calls|, k requires 0 <= k < |calls| =>
      match calls[k]
      case Receive(event, eventMemory, nodeMemory) => Add(event, eventMemory && nodeMemory)
      case Process => Take)
  }

  /** Performs any interleaving of the two: the events dispatched followed by those still queued are
      those queued before followed by those received successfully, in order. */
  method Perform<Event>(queue: List<Event>, calls: seq<EventCall<Event>>)
    returns (received: seq<Event>, dispatched: seq<Event>)
    requires queue.Valid()
    modifies queue, queue.spine
    ensures queue.Valid() && received == Added(QueueCalls(calls))
    ensures (queue.Contents(), dispatched) == QueueRun(old(queue.Contents()), QueueCalls(calls))
    ensures dispatched + queue.Contents() == old(queue.Contents()) + received
  {
    received, dispatched := [], [];
    ghost var (q, qs) := (queue.Contents(), QueueCalls(calls));
    for k := 0 to |calls|
      invariant queue.Valid()
      invariant forall i :: 0 <= i < |queue.spine| ==> queue.spine[i] in old(queue.spine) || fresh(queue.spine[i])
      invariant received + Added(qs[k..]) == Added(qs)
      invariant QueueRun(queue.Contents(), qs[k..]).0 == QueueRun(q, qs).0
      invariant dispatched + QueueRun(queue.Contents(), qs[k..]).1 == QueueRun(q, qs).1
    {
      assert qs[k..][1..] == qs[k + 1..];
      match calls[k] {
        case Receive(event, eventMemory, nodeMemory) =>
          var r := ReceiveEvent(queue, event, eventMemory, nodeMemory);
          if r == 0 {
            received := received + [event];
          }
        case Process =>
          var r, event := ProcessEvent(queue);
          if event.Some? {
            dispatched := dispatched + [event.value];
          }
      }
    }
    assert qs[|calls|..] == [] && dispatched + [] == dispatched && received + [] == received;
    QueueIsFifo(q, qs);
  }
}
