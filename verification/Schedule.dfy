/**
  What the gossip queue of p2p/src/gossip.rs is meant to be: one list of waiting
  messages, kept in order of delivery. The lane-based queue is proved to be this list
  (module GossipQueue); here is what holds of it over whole runs.
 */
module Schedule {
  import opened Basics
  import opened Messages

  datatype MessagePriority = Low | Normal | High | Critical

  function Rank(p: MessagePriority): nat {
    match p
    case Low => 0
    case Normal => 1
    case High => 2
    case Critical => 3
  }

  /** Of two priorities the lower is the one named first here. */
  lemma RankOrder(p: MessagePriority, q: MessagePriority)
    ensures Rank(p) < Rank(q) <==>
            (p == Low && q != Low) || (p == Normal && q != Low && q != Normal) || (p == High && q == Critical)
  {
  }

  datatype Item = Item(priority: MessagePriority, msg: GossipMessage)

  /** `items` in order of delivery; `next` is the sequence number of the next message. */
  datatype State = State(items: seq<Item>, capacity: nat, next: nat)

  /** Delivery order: higher priority first, then the older message. */
  predicate Before(a: Item, b: Item) {
    Rank(a.priority) > Rank(b.priority) || (a.priority == b.priority && a.msg.sequence < b.msg.sequence)
  }

  predicate Ordered(items: seq<Item>) {
    forall i, j :: 0 <= i < j < |items| ==> Before(items[i], items[j])
  }

  predicate Valid(s: State) {
    && |s.items| <= s.capacity
    && Ordered(s.items)
    && forall i :: 0 <= i < |s.items| ==> s.items[i].msg.sequence < s.next
  }

  /** Number of waiting messages that a new message of priority `p` has to let pass. */
  function AheadOfNew(items: seq<Item>, p: MessagePriority): (k: nat)
    ensures k <= |items|
    ensures forall i :: 0 <= i < k ==> Rank(items[i].priority) >= Rank(p)
    ensures k < |items| ==> Rank(items[k].priority) < Rank(p)
  {
    if items == [] || Rank(items[0].priority) < Rank(p) then 0 else 1 + AheadOfNew(items[1..], p)
  }

  function Insert(items: seq<Item>, x: Item): seq<Item> {
    var k := AheadOfNew(items, x.priority);
    items[..k] + [x] + items[k..]
  }

  predicate Admits(s: State) {
    |s.items| < s.capacity
  }

  function Arrival(s: State, p: MessagePriority, peer: string, message: P2pMessage, now: nat): Item {
    Item(p, GossipMessage(peer, message, now, s.next))
  }

  function Enqueue(s: State, p: MessagePriority, peer: string, message: P2pMessage, now: nat): State {
    if Admits(s) then State(Insert(s.items, Arrival(s, p, peer, message, now)), s.capacity, s.next + 1) else s
  }

  function Dequeue(s: State): State {
    if s.items == [] then s else s.(items := s.items[1..])
  }

  // ---------- Runs ----------

  datatype Op = Put(priority: MessagePriority, peer: string, message: P2pMessage, now: nat) | Take

  function Apply(s: State, op: Op): State {
    match op
    case Put(p, peer, message, now) => Enqueue(s, p, peer, message, now)
    case Take => Dequeue(s)
  }

  function Run(s: State, ops: seq<Op>): State
    decreases ops
  {
    if ops == [] then s else Run(Apply(s, ops[0]), ops[1..])
  }

  function AcceptedNow(s: State, op: Op): seq<Item> {
    if op.Put? && Admits(s) then [Arrival(s, op.priority, op.peer, op.message, op.now)] else []
  }

  function DeliveredNow(s: State, op: Op): seq<Item> {
    if op.Take? && s.items != [] then [s.items[0]] else []
  }

  /** The messages accepted during a run, in order. */
  function Accepted(s: State, ops: seq<Op>): seq<Item>
    decreases ops
  {
    if ops == [] then [] else AcceptedNow(s, ops[0]) + Accepted(Apply(s, ops[0]), ops[1..])
  }

  /** The messages delivered during a run, in order. */
  function Delivered(s: State, ops: seq<Op>): seq<Item>
    decreases ops
  {
    if ops == [] then [] else DeliveredNow(s, ops[0]) + Delivered(Apply(s, ops[0]), ops[1..])
  }

  lemma InsertKeepsOrder(items: seq<Item>, x: Item)
    requires Ordered(items)
    requires forall i :: 0 <= i < |items| ==> items[i].msg.sequence < x.msg.sequence
    ensures Ordered(Insert(items, x))
  {
    var k := AheadOfNew(items, x.priority);
    var all := Insert(items, x);
    forall i, j | 0 <= i < j < |all|
      ensures Before(all[i], all[j])
    {
      assert i == k < j - 1 ==> Before(items[k], items[j - 1]);
    }
  }

  lemma InsertAdds(items: seq<Item>, x: Item)
    ensures multiset(Insert(items, x)) == multiset(items) + multiset{x}
  {
    var k := AheadOfNew(items, x.priority);
    assert items == items[..k] + items[k..];
  }

  lemma StepValid(s: State, op: Op)
    requires Valid(s)
    ensures Valid(Apply(s, op))
  {
    if op.Put? && Admits(s) {
      InsertKeepsOrder(s.items, Arrival(s, op.priority, op.peer, op.message, op.now));
    }
  }

  /** Every run keeps the queue within capacity and in delivery order. */
  lemma {:induction false} RunValid(s: State, ops: seq<Op>)
    requires Valid(s)
    ensures Valid(Run(s, ops))
    decreases ops
  {
    if ops != [] {
      StepValid(s, ops[0]);
      RunValid(Apply(s, ops[0]), ops[1..]);
    }
  }

  /** The accepted messages of a run carry consecutive sequence numbers. */
  lemma {:induction false} RunNumbers(s: State, ops: seq<Op>)
    ensures Run(s, ops).next == s.next + |Accepted(s, ops)| && Run(s, ops).capacity == s.capacity
    ensures forall i :: 0 <= i < |Accepted(s, ops)| ==> Accepted(s, ops)[i].msg.sequence == s.next + i
    decreases ops
  {
    if ops != [] {
      RunNumbers(Apply(s, ops[0]), ops[1..]);
    }
  }

  lemma StepConserves(s: State, op: Op)
    ensures multiset(s.items) + multiset(AcceptedNow(s, op))
         == multiset(DeliveredNow(s, op)) + multiset(Apply(s, op).items)
  {
    if op.Put? && Admits(s) {
      InsertAdds(s.items, Arrival(s, op.priority, op.peer, op.message, op.now));
    } else if op.Take? && s.items != [] {
      assert s.items == [s.items[0]] + s.items[1..];
    }
  }

  lemma TwoStages(start: seq<Item>, in1: seq<Item>, out1: seq<Item>, middle: seq<Item>,
                  in2: seq<Item>, out2: seq<Item>, end: seq<Item>)
    requires multiset(start) + multiset(in1) == multiset(out1) + multiset(middle)
    requires multiset(middle) + multiset(in2) == multiset(out2) + multiset(end)
    ensures multiset(start) + multiset(in1 + in2) == multiset(out1 + out2) + multiset(end)
  {
    assert multiset(in1 + in2) == multiset(in1) + multiset(in2);
    assert multiset(out1 + out2) == multiset(out1) + multiset(out2);
    forall x: Item
      ensures (multiset(start) + multiset(in1 + in2))[x] == (multiset(out1 + out2) + multiset(end))[x]
    {
      assert (multiset(start) + multiset(in1))[x] == (multiset(out1) + multiset(middle))[x];
      assert (multiset(middle) + multiset(in2))[x] == (multiset(out2) + multiset(end))[x];
    }
  }

  /** What was accepted in a run is exactly what was delivered or still waits, each once. */
  lemma {:induction false} RunConserves(s: State, ops: seq<Op>)
    ensures multiset(s.items) + multiset(Accepted(s, ops)) == multiset(Delivered(s, ops)) + multiset(Run(s, ops).items)
    decreases ops
  {
    if ops != [] {
      var s' := Apply(s, ops[0]);
      StepConserves(s, ops[0]);
      RunConserves(s', ops[1..]);
      TwoStages(s.items, AcceptedNow(s, ops[0]), DeliveredNow(s, ops[0]), s'.items,
                Accepted(s', ops[1..]), Delivered(s', ops[1..]), Run(s', ops[1..]).items);
    }
  }

  /** Delivery order determines the list: there is only one way to sort given messages. */
  lemma {:induction false} SortIsUnique(xs: seq<Item>, ys: seq<Item>)
    requires Ordered(xs) && Ordered(ys) && multiset(xs) == multiset(ys)
    ensures xs == ys
    decreases xs
  {
    if xs == [] {
      assert |multiset(ys)| == 0;
    } else {
      assert xs[0] in multiset(ys);
      assert ys[0] in multiset(xs) by {
        assert |ys| == |multiset(ys)| == |multiset(xs)| == |xs|;
        assert ys[0] in multiset(ys);
      }
      assert xs[0] == ys[0];
      assert xs == [xs[0]] + xs[1..] && ys == [ys[0]] + ys[1..];
      assert multiset(xs[1..]) == multiset(xs) - multiset{xs[0]};
      assert multiset(ys[1..]) == multiset(ys) - multiset{ys[0]};
      SortIsUnique(xs[1..], ys[1..]);
    }
  }

  function Takes(n: nat): (ops: seq<Op>)
    ensures |ops| == n && forall i :: 0 <= i < n ==> ops[i] == Take
  {
    seq(n, _ => Take)
  }

  lemma {:induction false} DrainDelivers(s: State)
    ensures Delivered(s, Takes(|s.items|)) == s.items && Run(s, Takes(|s.items|)).items == []
    decreases |s.items|
  {
    if s.items != [] {
      DrainDelivers(Dequeue(s));
      assert Takes(|s.items|)[1..] == Takes(|s.items| - 1);
    }
  }

  lemma Cancel(a: multiset<Item>, b: multiset<Item>)
    ensures a + b - a == b
  {
  }

  /** Taking until the queue is empty, after any run, delivers the stable sort of the
      messages accepted and not yet delivered: `sorted` stands for any list of them in
      order of priority and then of age. */
  lemma DrainSorts(s: State, ops: seq<Op>, sorted: seq<Item>)
    requires Valid(s)
    requires Ordered(sorted)
    requires multiset(sorted) == multiset(s.items) + multiset(Accepted(s, ops)) - multiset(Delivered(s, ops))
    ensures var end := Run(s, ops);
      Delivered(end, Takes(|sorted|)) == sorted && Run(end, Takes(|sorted|)).items == []
  {
    RunValid(s, ops);
    RunConserves(s, ops);
    assert multiset(sorted) == multiset(Run(s, ops).items) by {
      Cancel(multiset(Delivered(s, ops)), multiset(Run(s, ops).items));
    }
    SortIsUnique(sorted, Run(s, ops).items);
    DrainDelivers(Run(s, ops));
  }

  // ---------- Waiting time ----------

  function TakeCount(ops: seq<Op>): nat
    decreases ops
  {
    if ops == [] then 0 else (if ops[0].Take? then 1 else 0) + TakeCount(ops[1..])
  }

  /** Whether the step accepts a message of strictly higher priority than `p`. */
  function Overtakes(s: State, op: Op, p: MessagePriority): nat {
    if op.Put? && Admits(s) && Rank(op.priority) > Rank(p) then 1 else 0
  }

  function Overtakers(s: State, ops: seq<Op>, p: MessagePriority): nat
    decreases ops
  {
    if ops == [] then 0 else Overtakes(s, ops[0], p) + Overtakers(Apply(s, ops[0]), ops[1..], p)
  }

  /** At no point of the run have there been more takes than messages to let pass. */
  ghost predicate StillWaiting(s: State, ops: seq<Op>, i: nat, p: MessagePriority) {
    forall k :: 0 <= k <= |ops| ==> TakeCount(ops[..k]) <= i + Overtakers(s, ops[..k], p)
  }

  /** Position `i` after one step. */
  function NextPosition(s: State, op: Op, i: nat, p: MessagePriority): int {
    i + Overtakes(s, op, p) - (if op.Take? then 1 else 0)
  }

  /** Position `i` followed step by step: it never falls below the front. */
  predicate StaysBehind(s: State, ops: seq<Op>, i: nat, p: MessagePriority)
    decreases ops
  {
    ops == [] ||
    var j := NextPosition(s, ops[0], i, p);
    j >= 0 && StaysBehind(Apply(s, ops[0]), ops[1..], j, p)
  }

  lemma FirstStep(s: State, ops: seq<Op>, k: nat, p: MessagePriority)
    requires 0 < k <= |ops|
    ensures TakeCount(ops[..k]) == (if ops[0].Take? then 1 else 0) + TakeCount(ops[1..][..k - 1])
    ensures Overtakers(s, ops[..k], p) == Overtakes(s, ops[0], p) + Overtakers(Apply(s, ops[0]), ops[1..][..k - 1], p)
  {
    assert ops[..k][0] == ops[0] && ops[..k][1..] == ops[1..][..k - 1];
  }

  lemma WaitingSurvivesStep(s: State, ops: seq<Op>, i: nat, p: MessagePriority)
    requires ops != [] && StillWaiting(s, ops, i, p)
    ensures var j := NextPosition(s, ops[0], i, p);
      j >= 0 && StillWaiting(Apply(s, ops[0]), ops[1..], j, p)
  {
    var s', j := Apply(s, ops[0]), NextPosition(s, ops[0], i, p);
    FirstStep(s, ops, 1, p);
    assert TakeCount(ops[1..][..0]) == 0 && Overtakers(s', ops[1..][..0], p) == 0;
    forall k | 0 <= k <= |ops[1..]|
      ensures TakeCount(ops[1..][..k]) <= j + Overtakers(s', ops[1..][..k], p)
    {
      FirstStep(s, ops, k + 1, p);
    }
  }

  lemma WaitingFromStep(s: State, ops: seq<Op>, i: nat, p: MessagePriority)
    requires ops != [] && NextPosition(s, ops[0], i, p) >= 0
    requires StillWaiting(Apply(s, ops[0]), ops[1..], NextPosition(s, ops[0], i, p), p)
    ensures StillWaiting(s, ops, i, p)
  {
    forall k | 0 <= k <= |ops|
      ensures TakeCount(ops[..k]) <= i + Overtakers(s, ops[..k], p)
    {
      if k > 0 {
        FirstStep(s, ops, k, p);
      }
    }
  }

  lemma {:induction false} StillWaitingStepByStep(s: State, ops: seq<Op>, i: nat, p: MessagePriority)
    ensures StillWaiting(s, ops, i, p) <==> StaysBehind(s, ops, i, p)
    decreases ops
  {
    if ops == [] {
      assert ops[..0] == [];
    } else {
      if NextPosition(s, ops[0], i, p) >= 0 {
        StillWaitingStepByStep(Apply(s, ops[0]), ops[1..], NextPosition(s, ops[0], i, p), p);
      }
      if StillWaiting(s, ops, i, p) {
        WaitingSurvivesStep(s, ops, i, p);
      } else if StaysBehind(s, ops, i, p) {
        WaitingFromStep(s, ops, i, p);
      }
    }
  }

  lemma DeliveredIsGone(s: State, ops: seq<Op>, x: Item)
    requires Valid(s) && x !in s.items && x.msg.sequence < s.next
    ensures x !in Run(s, ops).items
    decreases ops
  {
    if ops != [] {
      StepValid(s, ops[0]);
      DeliveredIsGone(Apply(s, ops[0]), ops[1..], x);
    }
  }

  lemma PositionStep(s: State, op: Op, i: nat)
    requires Ordered(s.items) && i < |s.items| && !(op.Take? && i == 0)
    ensures var j := NextPosition(s, op, i, s.items[i].priority);
      0 <= j < |Apply(s, op).items| && Apply(s, op).items[j] == s.items[i]
  {
  }

  /** The message is there, at the position that counts takes and overtakers. */
  ghost predicate FoundAfter(s: State, ops: seq<Op>, i: nat, x: Item) {
    var j, items := i + Overtakers(s, ops, x.priority) - TakeCount(ops), Run(s, ops).items;
    0 <= j < |items| && items[j] == x
  }

  lemma FrontTaken(s: State, ops: seq<Op>)
    requires Valid(s) && s.items != [] && ops != [] && ops[0].Take?
    ensures s.items[0] !in Run(s, ops).items
  {
    var x := s.items[0];
    StepValid(s, ops[0]);
    assert forall k :: 0 < k < |s.items| ==> Before(x, s.items[k]);
    DeliveredIsGone(Apply(s, ops[0]), ops[1..], x);
  }

  lemma {:induction false} PositionFollowed(s: State, ops: seq<Op>, i: nat)
    requires Valid(s) && i < |s.items|
    ensures StaysBehind(s, ops, i, s.items[i].priority) ==> FoundAfter(s, ops, i, s.items[i])
    ensures !StaysBehind(s, ops, i, s.items[i].priority) ==> s.items[i] !in Run(s, ops).items
    decreases ops
  {
    if ops != [] {
      var x, s' := s.items[i], Apply(s, ops[0]);
      if ops[0].Take? && i == 0 {
        FrontTaken(s, ops);
      } else {
        StepValid(s, ops[0]);
        PositionStep(s, ops[0], i);
        PositionFollowed(s', ops[1..], NextPosition(s, ops[0], i, x.priority));
      }
    }
  }

  /** Where the message at position `i` is after any run: still waiting, at the position
      that counts takes and overtakers, exactly as long as the takes have never
      outnumbered the messages to let pass. */
  lemma PositionAfter(s: State, ops: seq<Op>, i: nat)
    requires Valid(s) && i < |s.items|
    ensures var x, end := s.items[i], Run(s, ops);
      && (StillWaiting(s, ops, i, x.priority) <==> x in end.items)
      && (StillWaiting(s, ops, i, x.priority) ==> FoundAfter(s, ops, i, x))
  {
    StillWaitingStepByStep(s, ops, i, s.items[i].priority);
    PositionFollowed(s, ops, i);
  }

  /** The exact waiting time. After a message of priority `p` is accepted, and then any
      run, the next take delivers it exactly when that take has number
      1 + (messages ahead on entry) + (higher-priority messages accepted since), and no
      earlier take had. */
  lemma ExactWaitingTime(s: State, p: MessagePriority, peer: string, message: P2pMessage, now: nat, ops: seq<Op>)
    requires Valid(s) && Admits(s)
    ensures var entered := Enqueue(s, p, peer, message, now);
      var x, ahead, end := Arrival(s, p, peer, message, now), AheadOfNew(s.items, p), Run(entered, ops);
      (end.items != [] && end.items[0] == x) <==>
      (StillWaiting(entered, ops, ahead, p)
       && TakeCount(ops) + 1 == 1 + ahead + Overtakers(entered, ops, p))
  {
    var entered := Enqueue(s, p, peer, message, now);
    var x, ahead, end := Arrival(s, p, peer, message, now), AheadOfNew(s.items, p), Run(entered, ops);
    StepValid(s, Put(p, peer, message, now));
    assert entered.items[ahead] == x;
    PositionAfter(entered, ops, ahead);
    RunValid(entered, ops);
    if end.items != [] && end.items[0] == x {
      var j := ahead + Overtakers(entered, ops, p) - TakeCount(ops);
      assert end.items[j] == x;
      assert j > 0 ==> Before(x, x);
    }
  }
}
