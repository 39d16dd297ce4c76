/**
  The gossip queue of p2p/src/gossip.rs: four first-in-first-out lanes, one per
  priority. Each operation is proved to act as its counterpart in module Schedule does
  on a single list in delivery order.
 */
module GossipQueue {
  import opened Basics
  import opened Messages
  import S = Schedule

  type Priority = S.MessagePriority
  type Lanes = map<Priority, seq<GossipMessage>>

  const DELIVERY_ORDER: seq<Priority> := [S.Critical, S.High, S.Normal, S.Low]

  function Tagged(p: Priority, lane: seq<GossipMessage>): (items: seq<S.Item>)
    ensures |items| == |lane|
    ensures forall i :: 0 <= i < |items| ==> items[i] == S.Item(p, lane[i])
  {
    seq(|lane|, i requires 0 <= i < |lane| => S.Item(p, lane[i]))
  }

  ghost predicate HasAllLanes(queues: Lanes) {
    forall p: Priority :: p in queues
  }

  predicate Descending(order: seq<Priority>) {
    forall i, j :: 0 <= i < j < |order| ==> S.Rank(order[i]) > S.Rank(order[j])
  }

  /** The given lanes one after the other. */
  ghost function FlattenOver(queues: Lanes, order: seq<Priority>): (items: seq<S.Item>)
    requires HasAllLanes(queues)
    ensures forall i :: 0 <= i < |items| ==> items[i].priority in order
  {
    if order == [] then [] else Tagged(order[0], queues[order[0]]) + FlattenOver(queues, order[1..])
  }

  ghost function Flatten(queues: Lanes): seq<S.Item>
    requires HasAllLanes(queues)
  {
    FlattenOver(queues, DELIVERY_ORDER)
  }

  lemma AheadIs(items: seq<S.Item>, p: Priority, k: nat)
    requires k <= |items|
    requires forall i :: 0 <= i < k ==> S.Rank(items[i].priority) >= S.Rank(p)
    requires k < |items| ==> S.Rank(items[k].priority) < S.Rank(p)
    ensures S.AheadOfNew(items, p) == k
  {
  }

  lemma SpliceBehind<T>(a: seq<T>, b: seq<T>, k: nat, x: T)
    requires k <= |b|
    ensures (a + b)[..|a| + k] + [x] + (a + b)[|a| + k..] == a + (b[..k] + [x] + b[k..])
  {
  }

  lemma InsertBehind(lane: seq<S.Item>, rest: seq<S.Item>, x: S.Item)
    requires forall i :: 0 <= i < |lane| ==> S.Rank(lane[i].priority) >= S.Rank(x.priority)
    ensures S.Insert(lane + rest, x) == lane + S.Insert(rest, x)
  {
    var k := S.AheadOfNew(rest, x.priority);
    AheadIs(lane + rest, x.priority, |lane| + k);
    SpliceBehind(lane, rest, k, x);
  }

  lemma InsertFirst(rest: seq<S.Item>, x: S.Item)
    requires forall i :: 0 <= i < |rest| ==> S.Rank(rest[i].priority) < S.Rank(x.priority)
    ensures S.Insert(rest, x) == [x] + rest
  {
  }

  lemma {:induction false} OtherLanesUntouched(queues: Lanes, p: Priority, lane: seq<GossipMessage>,
                                               order: seq<Priority>)
    requires HasAllLanes(queues) && p !in order
    ensures FlattenOver(queues[p := lane], order) == FlattenOver(queues, order)
  {
    if order != [] {
      OtherLanesUntouched(queues, p, lane, order[1..]);
    }
  }

  lemma PushBehind(p: Priority, lane: seq<GossipMessage>, m: GossipMessage, rest: seq<S.Item>)
    ensures Tagged(p, lane + [m]) + rest == Tagged(p, lane) + ([S.Item(p, m)] + rest)
  {
  }

  /** Appending to a lane inserts into the flat list. */
  lemma {:induction false} PushInserts(queues: Lanes, p: Priority, m: GossipMessage, order: seq<Priority>)
    requires HasAllLanes(queues) && Descending(order) && p in order
    ensures FlattenOver(queues[p := queues[p] + [m]], order) == S.Insert(FlattenOver(queues, order), S.Item(p, m))
  {
    var lane, rest, x := Tagged(order[0], queues[order[0]]), FlattenOver(queues, order[1..]), S.Item(p, m);
    var changed := queues[p := queues[p] + [m]];
    InsertBehind(lane, rest, x);
    calc {
      FlattenOver(changed, order);
      Tagged(order[0], changed[order[0]]) + FlattenOver(changed, order[1..]);
      {
        if order[0] == p {
          OtherLanesUntouched(queues, p, queues[p] + [m], order[1..]);
          InsertFirst(rest, x);
          PushBehind(p, queues[p], m, rest);
        } else {
          PushInserts(queues, p, m, order[1..]);
        }
      }
      lane + S.Insert(rest, x);
      S.Insert(FlattenOver(queues, order), x);
    }
  }

  lemma PopFirst(p: Priority, lane: seq<GossipMessage>, rest: seq<S.Item>)
    requires lane != []
    ensures (Tagged(p, lane) + rest)[1..] == Tagged(p, lane[1..]) + rest
  {
  }

  /** The front of the first lane that is not empty is the front of the flat list. */
  lemma {:induction false} PopTakesFront(queues: Lanes, order: seq<Priority>, i: nat)
    requires HasAllLanes(queues) && Descending(order) && i < |order|
    requires queues[order[i]] != [] && forall k :: 0 <= k < i ==> queues[order[k]] == []
    ensures var p, items := order[i], FlattenOver(queues, order);
      && items != [] && items[0] == S.Item(p, queues[p][0])
      && FlattenOver(queues[p := queues[p][1..]], order) == items[1..]
  {
    var p := order[i];
    var lane, rest := Tagged(order[0], queues[order[0]]), FlattenOver(queues, order[1..]);
    if i == 0 {
      OtherLanesUntouched(queues, p, queues[p][1..], order[1..]);
      PopFirst(p, queues[p], rest);
    } else {
      PopTakesFront(queues, order[1..], i - 1);
      assert lane == [] && lane + rest == rest;
      assert queues[p := queues[p][1..]][order[0]] == [];
    }
  }

  lemma {:induction false} EmptyLanes(queues: Lanes, order: seq<Priority>)
    requires HasAllLanes(queues) && forall k :: 0 <= k < |order| ==> queues[order[k]] == []
    ensures FlattenOver(queues, order) == []
  {
    if order != [] {
      EmptyLanes(queues, order[1..]);
    }
  }

  lemma {:induction false} FlattenMore(queues: Lanes, order: seq<Priority>, p: Priority)
    requires HasAllLanes(queues)
    ensures FlattenOver(queues, order + [p]) == FlattenOver(queues, order) + Tagged(p, queues[p])
  {
    if order != [] {
      assert (order + [p])[1..] == order[1..] + [p];
      FlattenMore(queues, order[1..], p);
    } else {
      assert FlattenOver(queues, ([p])[1..]) == [];
    }
  }

  ghost function Abstraction(queues: Lanes, capacity: nat, next: nat): S.State
    requires HasAllLanes(queues)
  {
    S.State(Flatten(queues), capacity, next)
  }

  lemma EnqueueRefines(queues: Lanes, capacity: nat, next: nat,
                       p: Priority, peer: string, message: P2pMessage, now: nat)
    requires HasAllLanes(queues) && |Flatten(queues)| < capacity
    ensures HasAllLanes(queues[p := queues[p] + [GossipMessage(peer, message, now, next)]])
    ensures Abstraction(queues[p := queues[p] + [GossipMessage(peer, message, now, next)]], capacity, next + 1)
         == S.Enqueue(Abstraction(queues, capacity, next), p, peer, message, now)
  {
    PushInserts(queues, p, GossipMessage(peer, message, now, next), DELIVERY_ORDER);
  }

  /** Messages waiting in all four lanes. */
  function Waiting(queues: Lanes): nat
    requires S.Critical in queues && S.High in queues && S.Normal in queues && S.Low in queues
  {
    |queues[S.Critical]| + |queues[S.High]| + |queues[S.Normal]| + |queues[S.Low]|
  }

  lemma FlattenIsLanes(queues: Lanes)
    requires HasAllLanes(queues)
    ensures Flatten(queues) == Tagged(S.Critical, queues[S.Critical]) + Tagged(S.High, queues[S.High])
                               + Tagged(S.Normal, queues[S.Normal]) + Tagged(S.Low, queues[S.Low])
    ensures |Flatten(queues)| == Waiting(queues)
  {
    var none: seq<Priority> := [];
    FlattenMore(queues, none, S.Critical);
    FlattenMore(queues, [S.Critical], S.High);
    FlattenMore(queues, [S.Critical, S.High], S.Normal);
    FlattenMore(queues, [S.Critical, S.High, S.Normal], S.Low);
    assert none + [S.Critical] == [S.Critical] && [S.Critical] + [S.High] == [S.Critical, S.High];
    assert [S.Critical, S.High] + [S.Normal] == [S.Critical, S.High, S.Normal];
    assert [S.Critical, S.High, S.Normal] + [S.Low] == DELIVERY_ORDER;
  }

  function FirstWaiting(queues: Lanes): Priority
    requires S.Critical in queues && S.High in queues && S.Normal in queues
  {
    if queues[S.Critical] != [] then S.Critical else if queues[S.High] != [] then S.High
    else if queues[S.Normal] != [] then S.Normal else S.Low
  }

  lemma FirstInOrder(queues: Lanes, i: nat)
    requires HasAllLanes(queues) && i <= |DELIVERY_ORDER|
    requires forall k :: 0 <= k < i ==> queues[DELIVERY_ORDER[k]] == []
    ensures i < |DELIVERY_ORDER| && queues[DELIVERY_ORDER[i]] != [] ==>
              FirstWaiting(queues) == DELIVERY_ORDER[i] && Waiting(queues) > 0
    ensures i == |DELIVERY_ORDER| ==> Waiting(queues) == 0
  {
    assert i > 0 ==> queues[DELIVERY_ORDER[0]] == [];
    assert i > 1 ==> queues[DELIVERY_ORDER[1]] == [];
    assert i > 2 ==> queues[DELIVERY_ORDER[2]] == [];
    assert i > 3 ==> queues[DELIVERY_ORDER[3]] == [];
  }

  class GossipQueue {
    var queues: Lanes
    var maxQueueSize: nat
    var sequenceCounter: nat

    ghost function State(): S.State
      requires HasAllLanes(queues)
      reads this
    {
      Abstraction(queues, maxQueueSize, sequenceCounter)
    }

    ghost predicate Valid()
      reads this
    {
      HasAllLanes(queues) && S.Valid(State())
    }

    constructor (maxQueueSize: nat)
      ensures Valid() && State() == S.State([], maxQueueSize, 0)
    {
      queues := map[S.Critical := [], S.High := [], S.Normal := [], S.Low := []];
      this.maxQueueSize := maxQueueSize;
      sequenceCounter := 0;
      new;
      assert HasAllLanes(queues) by {
        forall p: Priority
          ensures p in queues
        {
          assert p == S.Critical || p == S.High || p == S.Normal || p == S.Low;
        }
      }
      EmptyLanes(queues, DELIVERY_ORDER);
    }

    method Len() returns (total: nat)
      requires Valid()
      ensures total == |State().items|
    {
      total := 0;
      for i := 0 to |DELIVERY_ORDER|
        invariant total == |FlattenOver(queues, DELIVERY_ORDER[..i])|
      {
        assert DELIVERY_ORDER[..i + 1] == DELIVERY_ORDER[..i] + [DELIVERY_ORDER[i]];
        FlattenMore(queues, DELIVERY_ORDER[..i], DELIVERY_ORDER[i]);
        total := total + |queues[DELIVERY_ORDER[i]]|;
      }
      assert DELIVERY_ORDER[..4] == DELIVERY_ORDER;
    }

    method Enqueue(priority: Priority, peerId: string, message: P2pMessage, now: nat) returns (accepted: bool)
      requires Valid()
      modifies this
      ensures Valid()
      ensures accepted <==> S.Admits(old(State()))
      ensures State() == S.Enqueue(old(State()), priority, peerId, message, now)
      ensures accepted <==> Waiting(old(queues)) < old(maxQueueSize)
      ensures maxQueueSize == old(maxQueueSize)
      ensures accepted ==>
                && sequenceCounter == old(sequenceCounter) + 1
                && queues == old(queues)[priority := old(queues)[priority]
                                         + [GossipMessage(peerId, message, now, old(sequenceCounter))]]
      ensures !accepted ==> queues == old(queues) && sequenceCounter == old(sequenceCounter)
    {
      FlattenIsLanes(queues);
      S.StepValid(State(), S.Put(priority, peerId, message, now));
      var total := Len();
      if total >= maxQueueSize {
        return false;
      }
      var gossipMsg := GossipMessage(peerId, message, now, sequenceCounter);
      EnqueueRefines(queues, maxQueueSize, sequenceCounter, priority, peerId, message, now);
      sequenceCounter := sequenceCounter + 1;
      queues := queues[priority := queues[priority] + [gossipMsg]];
      accepted := true;
    }

    /** Delivers the front of the flat list, if there is one. */
    method Dequeue() returns (r: Option<GossipMessage>)
      requires Valid()
      modifies this
      ensures Valid() && State() == S.Dequeue(old(State()))
      ensures r == if old(State().items) == [] then None else Some(old(State().items)[0].msg)
      ensures maxQueueSize == old(maxQueueSize) && sequenceCounter == old(sequenceCounter)
      ensures r == None <==> Waiting(old(queues)) == 0
      ensures r == None ==> queues == old(queues)
      ensures r != None ==>
                var was, p := old(queues), FirstWaiting(old(queues));
                was[p] != [] && r == Some(was[p][0]) && queues == was[p := was[p][1..]]
    {
      S.StepValid(State(), S.Take);
      for i := 0 to |DELIVERY_ORDER|
        invariant queues == old(queues) && maxQueueSize == old(maxQueueSize) && sequenceCounter == old(sequenceCounter)
        invariant forall k :: 0 <= k < i ==> queues[DELIVERY_ORDER[k]] == []
      {
        var priority := DELIVERY_ORDER[i];
        FirstInOrder(queues, i);
        if queues[priority] != [] {
          r := Some(queues[priority][0]);
          PopTakesFront(queues, DELIVERY_ORDER, i);
          queues := queues[priority := queues[priority][1..]];
          return;
        }
      }
      FirstInOrder(queues, |DELIVERY_ORDER|);
      EmptyLanes(queues, DELIVERY_ORDER);
      r := None;
    }

    method IsEmpty() returns (empty: bool)
      requires Valid()
      ensures empty <==> State().items == []
    {
      var total := Len();
      empty := total == 0;
    }
  }

  // ---------- Choosing a priority ----------

  function GetMessagePriority(message: P2pMessage, subscriptionWeight: nat): Priority {
    match message
    case HeartbeatAck(_, _) => S.Low
    case Heartbeat(_, _, _) => S.Normal
    case NodeJoin(_, _, _) => S.Normal
    case ChunkAnnounce(_, _) => if subscriptionWeight >= 3 then S.High else S.Normal
    case ChunkRequest(_, _) => if subscriptionWeight >= 3 then S.High else S.Normal
    case LedgerSync(_, _, _) => S.High
    case LedgerRequest(_) => S.High
    case ChallengeRequest(_) => S.High
    case ChallengeResponse(_) => S.High
    case ReplicationRequest(_, _) => if subscriptionWeight >= 3 then S.Critical else S.High
    case ChunkResponse(_, _, _) => if subscriptionWeight >= 2 then S.High else S.Normal
  }

  /** Which messages have which priority, for every weight. */
  lemma PriorityTable(message: P2pMessage, weight: nat)
    ensures var p := GetMessagePriority(message, weight);
      && (p == S.Critical <==> message.ReplicationRequest? && weight >= 3)
      && (p == S.High <==>
            || message.LedgerSync? || message.LedgerRequest? || message.ChallengeRequest? || message.ChallengeResponse?
            || (message.ReplicationRequest? && weight < 3)
            || ((message.ChunkAnnounce? || message.ChunkRequest?) && weight >= 3)
            || (message.ChunkResponse? && weight >= 2))
      && (p == S.Low <==> message.HeartbeatAck?)
  {
  }

  /** Paying more never delays a message: whatever is waiting, a message sent with the
      greater weight enters no further back. */
  lemma HigherWeightNeverWaitsLonger(items: seq<S.Item>, message: P2pMessage, low: nat, high: nat)
    requires low <= high
    ensures S.AheadOfNew(items, GetMessagePriority(message, high))
         <= S.AheadOfNew(items, GetMessagePriority(message, low))
  {
  }
}
