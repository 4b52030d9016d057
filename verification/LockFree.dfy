/** Producers and consumers around a lock-free stack.

    The threads interleave at their atomic accesses: taking a number and pushing it are separate
    steps, and so are popping a value and counting it. The stack is atomic; a push may fail at any
    time, a pop fails only on an empty stack. Any number of threads and any iteration count. */
module LockFree {

  /** Where a producer stands; `i` is its loop counter. */
  datatype Producer = Looping(i: nat) | Pushing(i: nat, value: int) | Finished

  /** Where a consumer stands. `Checking` reads the flag; `Draining` and `Counting` are the loop
      inside it, `LastDraining` and `LastCounting` the loop after it. */
  datatype Consumer = Checking | Draining | Counting | LastDraining | LastCounting | Returned

  datatype Main = JoiningProducers | SettingFlag | JoiningConsumers | Exited

  /** `popped` records every value ever popped. */
  datatype State = State(iterations: nat, producers: seq<Producer>, consumers: seq<Consumer>, main: Main,
                         produced: nat, consumed: nat, stack: seq<int>, flag: bool, popped: seq<int>)

  function Start(iterations: nat, producers: nat, consumers: nat): (s: State) {
    State(iterations, seq(producers, _ => Looping(0)), seq(consumers, _ => Checking), JoiningProducers,
          0, 0, [], false, [])
  }

  datatype Action =
    | Take(p: nat)        // a producer takes the next number
    | Push(p: nat)        // it pushes that number
    | PushFails(p: nat)   // the push fails and will be tried again
    | Leave(p: nat)       // the loop of a producer ends
    | ReadFlag(c: nat)    // a consumer looks whether production is over
    | Pop(c: nat)         // it pops, in either of its loops
    | Count(c: nat)       // it counts what it popped
    | MainStep

  predicate AllFinished(ps: seq<Producer>) {
    forall p :: 0 <= p < |ps| ==> ps[p].Finished?
  }

  predicate AllReturned(cs: seq<Consumer>) {
    forall c :: 0 <= c < |cs| ==> cs[c].Returned?
  }

  predicate Enabled(s: State, a: Action) {
    match a
    case Take(p) => p < |s.producers| && s.producers[p].Looping? && s.producers[p].i != s.iterations
    case Push(p) => p < |s.producers| && s.producers[p].Pushing?
    case PushFails(p) => p < |s.producers| && s.producers[p].Pushing?
    case Leave(p) => p < |s.producers| && s.producers[p] == Looping(s.iterations)
    case ReadFlag(c) => c < |s.consumers| && s.consumers[c].Checking?
    case Pop(c) => c < |s.consumers| && (s.consumers[c].Draining? || s.consumers[c].LastDraining?)
    case Count(c) => c < |s.consumers| && (s.consumers[c].Counting? || s.consumers[c].LastCounting?)
    case MainStep =>
      match s.main
      case JoiningProducers => AllFinished(s.producers)
      case SettingFlag => true
      case JoiningConsumers => AllReturned(s.consumers)
      case Exited => false
  }

  function Step(s: State, a: Action): (s': State)
    requires Enabled(s, a)
  {
    match a
    case Take(p) =>
      s.(produced := s.produced + 1,
         producers := s.producers[p := Pushing(s.producers[p].i, s.produced + 1)])
    case Push(p) =>
      s.(stack := [s.producers[p].value] + s.stack,
         producers := s.producers[p := Looping(s.producers[p].i + 1)])
    case PushFails(_) => s
    case Leave(p) => s.(producers := s.producers[p := Finished])
    case ReadFlag(c) => s.(consumers := s.consumers[c := if s.flag then LastDraining else Draining])
    case Pop(c) =>
      var last := s.consumers[c].LastDraining?;
      if s.stack == [] then
        s.(consumers := s.consumers[c := if last then Returned else Checking])
      else
        s.(stack := s.stack[1..], popped := s.popped + [s.stack[0]],
           consumers := s.consumers[c := if last then LastCounting else Counting])
    case Count(c) =>
      var last := s.consumers[c].LastCounting?;
      s.(consumed := s.consumed + 1,
         consumers := s.consumers[c := if last then LastDraining else Draining])
    case MainStep =>
      match s.main
      case JoiningProducers => s.(main := SettingFlag)
      case SettingFlag => s.(main := JoiningConsumers, flag := true)
      case _ => s.(main := Exited)
  }

  // ---------- what is in flight ----------

  function Taken(p: Producer, iterations: nat): (n: nat) {
    match p
    case Looping(i) => i
    case Pushing(i, _) => i + 1
    case Finished => iterations
  }

  /** How many numbers the producers have taken. */
  function TotalTaken(ps: seq<Producer>, iterations: nat): (n: nat) {
    if ps == [] then 0 else Taken(ps[0], iterations) + TotalTaken(ps[1..], iterations)
  }

  function Held(p: Producer): (m: multiset<int>) {
    if p.Pushing? then multiset{p.value} else multiset{}
  }

  /** The values taken and not yet pushed. */
  function InHand(ps: seq<Producer>): (m: multiset<int>) {
    if ps == [] then multiset{} else Held(ps[0]) + InHand(ps[1..])
  }

  function Owes(c: Consumer): (n: nat) {
    if c.Counting? || c.LastCounting? then 1 else 0
  }

  /** The values popped and not yet counted. */
  function Uncounted(cs: seq<Consumer>): (n: nat) {
    if cs == [] then 0 else Owes(cs[0]) + Uncounted(cs[1..])
  }

  function UpTo(n: nat): (m: multiset<int>) {
    if n == 0 then multiset{} else UpTo(n - 1) + multiset{n}
  }

  lemma {:induction false} TotalTakenUpdate(ps: seq<Producer>, p: nat, x: Producer, iterations: nat)
    requires p < |ps|
    ensures TotalTaken(ps[p := x], iterations)
            == TotalTaken(ps, iterations) - Taken(ps[p], iterations) + Taken(x, iterations)
  {
    if p > 0 {
      assert ps[p := x][1..] == ps[1..][p - 1 := x];
      TotalTakenUpdate(ps[1..], p - 1, x, iterations);
    } else {
      assert ps[p := x][1..] == ps[1..];
    }
  }

  lemma {:induction false} InHandUpdate(ps: seq<Producer>, p: nat, x: Producer)
    requires p < |ps|
    ensures InHand(ps[p := x]) + Held(ps[p]) == InHand(ps) + Held(x)
  {
    hide Held;
    var ps' := ps[p := x];
    var (rest, rest') := (InHand(ps[1..]), InHand(ps'[1..]));
    assert InHand(ps) == Held(ps[0]) + rest && InHand(ps') == Held(ps'[0]) + rest';
    if p > 0 {
      assert ps'[1..] == ps[1..][p - 1 := x];
      InHandUpdate(ps[1..], p - 1, x);
      Regroup(Held(ps[0]), rest', Held(ps[p]), rest, Held(x));
    } else {
      assert ps'[1..] == ps[1..];
      assert Held(x) + rest + Held(ps[0]) == Held(ps[0]) + rest + Held(x);
    }
  }

  lemma Regroup(a: multiset<int>, b: multiset<int>, c: multiset<int>, d: multiset<int>, e: multiset<int>)
    requires b + c == d + e
    ensures (a + b) + c == (a + d) + e
  {
    assert (a + b) + c == a + (b + c);
    assert (a + d) + e == a + (d + e);
  }

  lemma {:induction false} UncountedUpdate(cs: seq<Consumer>, c: nat, x: Consumer)
    requires c < |cs|
    ensures Uncounted(cs[c := x]) == Uncounted(cs) - Owes(cs[c]) + Owes(x)
  {
    if c > 0 {
      assert cs[c := x][1..] == cs[1..][c - 1 := x];
      UncountedUpdate(cs[1..], c - 1, x);
    } else {
      assert cs[c := x][1..] == cs[1..];
    }
  }

  lemma {:induction false} AllFinishedTotals(ps: seq<Producer>, iterations: nat)
    requires AllFinished(ps)
    ensures InHand(ps) == multiset{} && TotalTaken(ps, iterations) == |ps| * iterations
  {
    if ps != [] {
      AllFinishedTotals(ps[1..], iterations);
      assert |ps| * iterations == iterations + (|ps| - 1) * iterations;
    }
  }

  lemma {:induction false} AllReturnedTotals(cs: seq<Consumer>)
    requires AllReturned(cs)
    ensures Uncounted(cs) == 0
  {
    if cs != [] {
      AllReturnedTotals(cs[1..]);
    }
  }

  lemma {:induction false} TotalTakenBound(ps: seq<Producer>, iterations: nat)
    requires forall p :: 0 <= p < |ps| ==> Taken(ps[p], iterations) <= iterations
    ensures TotalTaken(ps, iterations) <= |ps| * iterations
  {
    if ps != [] {
      TotalTakenBound(ps[1..], iterations);
      assert |ps| * iterations == iterations + (|ps| - 1) * iterations;
    }
  }

  lemma {:induction false} UpToCounts(n: nat, v: int)
    ensures UpTo(n)[v] == (if 1 <= v <= n then 1 else 0) && |UpTo(n)| == n
  {
    if n > 0 {
      UpToCounts(n - 1, v);
    }
  }

  // ---------- what every step keeps ----------

  /** Every number taken is in exactly one place: in a producer's hand, on the stack, or popped. */
  ghost predicate Conserved(s: State) {
    && TotalTaken(s.producers, s.iterations) == s.produced
    && (forall p :: 0 <= p < |s.producers| ==> Taken(s.producers[p], s.iterations) <= s.iterations)
    && InHand(s.producers) + multiset(s.stack) + multiset(s.popped) == UpTo(s.produced)
    && s.consumed + Uncounted(s.consumers) == |s.popped|
  }

  /** The handshake: the flag is up only when no push can follow, so a consumer that leaves the
      first loop finds every value that is still to come on the stack already. */
  ghost predicate Handshake(s: State) {
    && (!s.main.JoiningProducers? ==> AllFinished(s.producers))
    && (s.flag <==> s.main.JoiningConsumers? || s.main.Exited?)
    && (forall c :: 0 <= c < |s.consumers| ==>
          (s.consumers[c].LastDraining? || s.consumers[c].LastCounting? || s.consumers[c].Returned? ==> s.flag))
    && (forall c :: 0 <= c < |s.consumers| ==> (s.consumers[c].Returned? ==> s.stack == []))
    && (s.main.Exited? ==> AllReturned(s.consumers))
  }

  lemma {:induction false} StartConserved(iterations: nat, producers: nat, consumers: nat)
    ensures Conserved(Start(iterations, producers, consumers))
  {
    var s := Start(iterations, producers, consumers);
    StartProducers(producers, iterations);
    StartConsumers(consumers);
  }

  lemma StartHandshake(iterations: nat, producers: nat, consumers: nat)
    ensures Handshake(Start(iterations, producers, consumers))
  {
  }

  lemma {:induction false} StartProducers(n: nat, iterations: nat)
    ensures var ps := seq(n, _ => Looping(0)); TotalTaken(ps, iterations) == 0 && InHand(ps) == multiset{}
  {
    if n > 0 {
      var ps := seq(n, _ => Looping(0));
      assert ps[1..] == seq(n - 1, _ => Looping(0));
      StartProducers(n - 1, iterations);
    }
  }

  lemma {:induction false} StartConsumers(n: nat)
    ensures Uncounted(seq(n, _ => Checking)) == 0
  {
    if n > 0 {
      assert seq(n, _ => Checking)[1..] == seq(n - 1, _ => Checking);
      StartConsumers(n - 1);
    }
  }

  /** The new number goes into the producer's hand. */
  lemma TakeKeepsConserved(s: State, p: nat)
    requires Conserved(s) && Enabled(s, Take(p))
    ensures Conserved(Step(s, Take(p)))
  {
    hide UpTo, InHand, TotalTaken, Uncounted;
    var s' := Step(s, Take(p));
    var n := s'.produced;
    TotalTakenUpdate(s.producers, p, s'.producers[p], s.iterations);
    UpToNext(s.produced);
    assert InHand(s'.producers) == InHand(s.producers) + multiset{n} by {
      InHandUpdate(s.producers, p, s'.producers[p]);
      assert Held(s'.producers[p]) == multiset{n} && Held(s.producers[p]) == multiset{};
    }
  }

  /** The value goes from the producer's hand to the stack. */
  lemma PushKeepsConserved(s: State, p: nat)
    requires Conserved(s) && Enabled(s, Push(p))
    ensures Conserved(Step(s, Push(p)))
  {
    hide UpTo, InHand, TotalTaken, Uncounted;
    var s' := Step(s, Push(p));
    var value := s.producers[p].value;
    TotalTakenUpdate(s.producers, p, s'.producers[p], s.iterations);
    assert multiset(s'.stack) == multiset{value} + multiset(s.stack);
    assert InHand(s.producers) == InHand(s'.producers) + multiset{value} by {
      InHandUpdate(s.producers, p, s'.producers[p]);
      assert Held(s'.producers[p]) == multiset{} && Held(s.producers[p]) == multiset{value};
    }
  }

  lemma LeaveKeepsConserved(s: State, p: nat)
    requires Conserved(s) && Enabled(s, Leave(p))
    ensures Conserved(Step(s, Leave(p)))
  {
    hide UpTo, InHand, TotalTaken, Uncounted;
    var s' := Step(s, Leave(p));
    TotalTakenUpdate(s.producers, p, Finished, s.iterations);
    assert InHand(s'.producers) == InHand(s.producers) by {
      InHandUpdate(s.producers, p, Finished);
      assert InHand(s'.producers) + multiset{} == InHand(s'.producers);
      assert InHand(s.producers) + multiset{} == InHand(s.producers);
    }
  }

  lemma UpToNext(n: nat)
    ensures UpTo(n + 1) == UpTo(n) + multiset{n + 1}
  {
  }

  /** Reading the flag neither takes nor counts anything. */
  lemma ReadFlagKeepsConserved(s: State, c: nat)
    requires Conserved(s) && Enabled(s, ReadFlag(c))
    ensures Conserved(Step(s, ReadFlag(c)))
  {
    hide UpTo, InHand, TotalTaken, Uncounted;
    UncountedUpdate(s.consumers, c, Step(s, ReadFlag(c)).consumers[c]);
  }

  /** The value goes from the stack to the popped ones, where it is still to be counted. */
  lemma PopKeepsConserved(s: State, c: nat)
    requires Conserved(s) && Enabled(s, Pop(c))
    ensures Conserved(Step(s, Pop(c)))
  {
    hide UpTo, InHand, TotalTaken, Uncounted;
    var s' := Step(s, Pop(c));
    UncountedUpdate(s.consumers, c, s'.consumers[c]);
    if s.stack != [] {
      TopMoves(InHand(s.producers), s.stack, s.popped);
    }
  }

  lemma TopMoves(hand: multiset<int>, stack: seq<int>, popped: seq<int>)
    requires stack != []
    ensures hand + multiset(stack[1..]) + multiset(popped + [stack[0]])
            == hand + multiset(stack) + multiset(popped)
  {
    var (top, rest, done) := (multiset{stack[0]}, multiset(stack[1..]), multiset(popped));
    assert stack == [stack[0]] + stack[1..];
    assert multiset(stack) == top + rest && multiset(popped + [stack[0]]) == done + top;
    Regroup(hand, rest, done + top, top + rest, done);
  }

  lemma CountKeepsConserved(s: State, c: nat)
    requires Conserved(s) && Enabled(s, Count(c))
    ensures Conserved(Step(s, Count(c)))
  {
    hide UpTo, InHand, TotalTaken, Uncounted;
    UncountedUpdate(s.consumers, c, Step(s, Count(c)).consumers[c]);
  }

  lemma StepKeepsConserved(s: State, a: Action)
    requires Conserved(s) && Enabled(s, a)
    ensures Conserved(Step(s, a))
  {
    match a {
      case Take(p) => TakeKeepsConserved(s, p);
      case Push(p) => PushKeepsConserved(s, p);
      case Leave(p) => LeaveKeepsConserved(s, p);
      case ReadFlag(c) => ReadFlagKeepsConserved(s, c);
      case Pop(c) => PopKeepsConserved(s, c);
      case Count(c) => CountKeepsConserved(s, c);
      case _ =>
    }
  }

  lemma StepKeepsHandshake(s: State, a: Action)
    requires Handshake(s) && Enabled(s, a)
    ensures Handshake(Step(s, a))
  {
  }

  /** The stack is one: a pop right after a push takes the value pushed and restores the stack. */
  lemma PopTakesPushed(s: State, p: nat, c: nat)
    requires Enabled(s, Push(p)) && Enabled(s, Pop(c))
    ensures Enabled(Step(s, Push(p)), Pop(c))
    ensures var s' := Step(Step(s, Push(p)), Pop(c));
            s'.popped == s.popped + [s.producers[p].value] && s'.stack == s.stack
  {
  }

  // ---------- every interleaving ----------

  ghost predicate IsRun(run: seq<State>, actions: seq<Action>) {
    && |run| == |actions| + 1
    && run[0] == Start(run[0].iterations, |run[0].producers|, |run[0].consumers|)
    && (forall k :: 0 <= k < |actions| ==> Enabled(run[k], actions[k]) && run[k + 1] == Step(run[k], actions[k]))
  }

  lemma {:induction false} RunShape(run: seq<State>, actions: seq<Action>, k: nat)
    requires IsRun(run, actions) && k < |run|
    ensures run[k].iterations == run[0].iterations
    ensures |run[k].producers| == |run[0].producers| && |run[k].consumers| == |run[0].consumers|
  {
    if k > 0 {
      RunShape(run, actions, k - 1);
    }
  }

  lemma {:induction false} RunKeepsInv(run: seq<State>, actions: seq<Action>, k: nat)
    requires IsRun(run, actions) && k < |run|
    ensures Conserved(run[k]) && Handshake(run[k])
  {
    hide Conserved, Handshake;
    if k == 0 {
      assert Handshake(run[0]) by { StartHandshake(run[0].iterations, |run[0].producers|, |run[0].consumers|); }
      StartConserved(run[0].iterations, |run[0].producers|, |run[0].consumers|);
    } else {
      RunKeepsInv(run, actions, k - 1);
      StepKeepsConserved(run[k - 1], actions[k - 1]);
      StepKeepsHandshake(run[k - 1], actions[k - 1]);
    }
  }

  /** At every point of every interleaving no value has been popped twice, nothing was popped that
      was not produced, and the counters never run ahead of the work nor past the planned total. */
  lemma NothingTwice(run: seq<State>, actions: seq<Action>, k: nat, v: int)
    requires IsRun(run, actions) && k < |run|
    ensures multiset(run[k].popped)[v] <= if 1 <= v <= run[k].produced then 1 else 0
    ensures run[k].consumed <= |run[k].popped| <= run[k].produced <= |run[0].producers| * run[0].iterations
  {
    RunShape(run, actions, k);
    RunKeepsInv(run, actions, k);
    var s := run[k];
    UpToCounts(s.produced, v);
    TotalTakenBound(s.producers, s.iterations);
    assert (InHand(s.producers) + multiset(s.stack) + multiset(s.popped))[v] == UpTo(s.produced)[v];
    assert |InHand(s.producers) + multiset(s.stack) + multiset(s.popped)| == |UpTo(s.produced)|;
  }

  /** Once every consumer has returned, the stack is empty, both counters show the planned total, and
      each value 1..N was popped exactly once, provided there is a consumer at all. With no
      consumer this fails exactly when something was planned. */
  lemma AllConsumed(run: seq<State>, actions: seq<Action>, k: nat)
    requires IsRun(run, actions) && k < |run|
    requires AllFinished(run[k].producers) && AllReturned(run[k].consumers)
    ensures var (s, n) := (run[k], |run[0].producers| * run[0].iterations);
            s.produced == n
            && ((s.stack == [] && s.consumed == n && forall v :: multiset(s.popped)[v] == if 1 <= v <= n then 1 else 0)
                <==> |run[0].consumers| > 0 || n == 0)
  {
    RunShape(run, actions, k);
    RunKeepsInv(run, actions, k);
    var s := run[k];
    AllFinishedTotals(s.producers, s.iterations);
    AllReturnedTotals(s.consumers);
    UpToCounts(s.produced, 0);
    assert |multiset(s.stack) + multiset(s.popped)| == s.produced;
    if |s.consumers| > 0 {
      assert s.consumers[0].Returned?;
    }
    if s.stack == [] {
      forall v
        ensures multiset(s.popped)[v] == if 1 <= v <= s.produced then 1 else 0
      {
        UpToCounts(s.produced, v);
        assert (multiset(s.stack) + multiset(s.popped))[v] == UpTo(s.produced)[v];
      }
    }
    if |s.consumers| == 0 {
      NoConsumerPops(run, actions, k);
    }
  }

  /** A returned consumer has seen the flag, so its return alone shows that all producers ended. */
  lemma ReturnMeansAllProduced(run: seq<State>, actions: seq<Action>, k: nat, c: nat)
    requires IsRun(run, actions) && k < |run| && c < |run[k].consumers| && run[k].consumers[c].Returned?
    ensures AllFinished(run[k].producers) && run[k].stack == []
  {
    RunKeepsInv(run, actions, k);
  }

  lemma {:induction false} NoConsumerPops(run: seq<State>, actions: seq<Action>, k: nat)
    requires IsRun(run, actions) && k < |run| && |run[0].consumers| == 0
    ensures run[k].popped == [] && run[k].consumed == 0
  {
    if k > 0 {
      NoConsumerPops(run, actions, k - 1);
      RunShape(run, actions, k - 1);
    }
  }

  /** What main prints when it is through. */
  lemma PrintedCounts(run: seq<State>, actions: seq<Action>, k: nat)
    requires IsRun(run, actions) && k < |run| && run[k].main.Exited? && |run[0].consumers| > 0
    ensures run[k].produced == run[k].consumed == |run[0].producers| * run[0].iterations
  {
    RunShape(run, actions, k);
    RunKeepsInv(run, actions, k);
    AllConsumed(run, actions, k);
  }

  // ---------- the program can always end ----------

  /** How many accesses a producer still needs when no push fails. */
  function Left(p: Producer, iterations: nat): (n: int) {
    match p
    case Looping(i) => 2 * (iterations - i) + 1
    case Pushing(i, _) => 2 * (iterations - i)
    case Finished => 0
  }

  function ProducersLeft(ps: seq<Producer>, iterations: nat): (n: int) {
    if ps == [] then 0 else Left(ps[0], iterations) + ProducersLeft(ps[1..], iterations)
  }

  function MainLeft(m: Main): (n: nat) {
    match m
    case JoiningProducers => 3
    case SettingFlag => 2
    case JoiningConsumers => 1
    case Exited => 0
  }

  /** How far a consumer is from returning once the flag is up and the stack stays empty. */
  function Distance(c: Consumer): (n: nat) {
    match c
    case Counting => 4
    case Draining => 3
    case Checking => 2
    case LastCounting => 2
    case LastDraining => 1
    case Returned => 0
  }

  function ConsumersLeft(cs: seq<Consumer>): (n: nat) {
    if cs == [] then 0 else Distance(cs[0]) + ConsumersLeft(cs[1..])
  }

  lemma {:induction false} ProducersLeftUpdate(ps: seq<Producer>, p: nat, x: Producer, iterations: nat)
    requires p < |ps|
    ensures ProducersLeft(ps[p := x], iterations)
            == ProducersLeft(ps, iterations) - Left(ps[p], iterations) + Left(x, iterations)
  {
    if p > 0 {
      assert ps[p := x][1..] == ps[1..][p - 1 := x];
      ProducersLeftUpdate(ps[1..], p - 1, x, iterations);
    } else {
      assert ps[p := x][1..] == ps[1..];
    }
  }

  lemma {:induction false} ProducersLeftBound(ps: seq<Producer>, iterations: nat)
    requires forall p :: 0 <= p < |ps| ==> Taken(ps[p], iterations) <= iterations
    ensures ProducersLeft(ps, iterations) >= 0
  {
    if ps != [] {
      ProducersLeftBound(ps[1..], iterations);
    }
  }

  lemma {:induction false} ConsumersLeftUpdate(cs: seq<Consumer>, c: nat, x: Consumer)
    requires c < |cs|
    ensures ConsumersLeft(cs[c := x]) == ConsumersLeft(cs) - Distance(cs[c]) + Distance(x)
  {
    if c > 0 {
      assert cs[c := x][1..] == cs[1..][c - 1 := x];
      ConsumersLeftUpdate(cs[1..], c - 1, x);
    } else {
      assert cs[c := x][1..] == cs[1..];
    }
  }

  /** What is left to do: by the producers, then by main, then by the consumers. */
  ghost predicate LessLeft(s': State, s: State) {
    var (p', p) := (ProducersLeft(s'.producers, s'.iterations), ProducersLeft(s.producers, s.iterations));
    var (m', m) := (MainLeft(s'.main), MainLeft(s.main));
    var (c', c) := (ConsumersLeft(s'.consumers) + 2 * |s'.stack|, ConsumersLeft(s.consumers) + 2 * |s.stack|);
    p' < p || (p' == p && (m' < m || (m' == m && c' < c)))
  }

  lemma ProducerMoves(s: State, p: nat) returns (a: Action)
    requires p < |s.producers| && !s.producers[p].Finished?
    ensures Enabled(s, a) && LessLeft(Step(s, a), s)
  {
    a := match s.producers[p]
         case Looping(i) => if i == s.iterations then Leave(p) else Take(p)
         case Pushing(_, _) => Push(p);
    ProducersLeftUpdate(s.producers, p, Step(s, a).producers[p], s.iterations);
  }

  lemma ConsumerMoves(s: State, c: nat) returns (a: Action)
    requires c < |s.consumers| && !s.consumers[c].Returned? && s.flag
    ensures Enabled(s, a) && LessLeft(Step(s, a), s)
  {
    a := match s.consumers[c]
         case Checking => ReadFlag(c)
         case Draining => Pop(c)
         case LastDraining => Pop(c)
         case _ => Count(c);
    ConsumersLeftUpdate(s.consumers, c, Step(s, a).consumers[c]);
  }

  /** As long as main has not exited, somebody can do something that leaves less to do. */
  lemma SomethingMoves(s: State) returns (a: Action)
    requires Handshake(s) && !s.main.Exited?
    ensures Enabled(s, a) && LessLeft(Step(s, a), s)
  {
    if p: nat :| p < |s.producers| && !s.producers[p].Finished? {
      a := ProducerMoves(s, p);
    } else if c: nat :| s.main.JoiningConsumers? && c < |s.consumers| && !s.consumers[c].Returned? {
      a := ConsumerMoves(s, c);
    } else {
      a := MainStep;
    }
  }

  /** From every point of every interleaving the program can go on to its end. */
  lemma CanExit(run: seq<State>, actions: seq<Action>) returns (run': seq<State>, actions': seq<Action>)
    requires IsRun(run, actions)
    ensures IsRun(run', actions') && run <= run' && actions <= actions'
    ensures run'[|actions'|].main.Exited?
    decreases
      var s := run[|actions|]; ProducersLeft(s.producers, s.iterations),
      var s := run[|actions|]; MainLeft(s.main),
      var s := run[|actions|]; ConsumersLeft(s.consumers) + 2 * |s.stack|
  {
    var s := run[|actions|];
    RunKeepsInv(run, actions, |actions|);
    if s.main.Exited? {
      return run, actions;
    }
    ProducersLeftBound(s.producers, s.iterations);
    var a := SomethingMoves(s);
    run', actions' := CanExit(run + [Step(s, a)], actions + [a]);
  }

  /** For all numbers of iterations, producers and consumers there is an interleaving that ends, and
      with a consumer it prints the planned total twice. */
  lemma SomeRunCompletes(iterations: nat, producers: nat, consumers: nat)
    returns (run: seq<State>, actions: seq<Action>)
    ensures IsRun(run, actions) && run[0] == Start(iterations, producers, consumers)
    ensures var s := run[|actions|];
            && s.main.Exited? && AllFinished(s.producers) && AllReturned(s.consumers)
            && (consumers > 0 ==> s.produced == s.consumed == producers * iterations)
  {
    run, actions := CanExit([Start(iterations, producers, consumers)], []);
    RunKeepsInv(run, actions, |actions|);
    if consumers > 0 {
      PrintedCounts(run, actions, |actions|);
    }
  }
}
