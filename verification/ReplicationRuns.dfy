/** What holds of the replication bookkeeping of module Replication over whole runs. */
module ReplicationRuns {
  import opened Basics
  import opened Replication

  // ---------- The cached flag ----------

  datatype Op =
    | Register(chunkId: string)
    | Record(chunkId: string, peerId: string, shards: nat)
    | Death(peerId: string)
    | Unregister(chunkId: string)

  ghost function Apply(m: Model, defaultReplicas: nat, op: Op): Model {
    match op
    case Register(c) => m[c := NewChunk(c, defaultReplicas)]
    case Record(c, p, shards) => if c in m then m[c := Add(m[c], p, shards)] else m
    case Death(p) => DropEverywhere(m, p)
    case Unregister(c) => m - {c}
  }

  /** The chunks after the operations. */
  ghost function Run(m: Model, defaultReplicas: nat, ops: seq<Op>): Model {
    if ops == [] then m
    else Apply(Run(m, defaultReplicas, ops[..|ops| - 1]), defaultReplicas, ops[|ops| - 1])
  }

  /** Operation `i` recorded `shards` for the peer while the chunk was tracked, and neither a
      later record, the peer's death nor a new start of the tracking has replaced that. */
  ghost predicate OnRecord(ops: seq<Op>, c: string, p: string, shards: nat, i: nat) {
    && i < |ops| && ops[i] == Record(c, p, shards) && TrackedAfter(ops[..i], c)
    && forall k :: i < k < |ops| ==> !Replaces(ops[k], c, p)
  }

  /** The chunk was registered, and not unregistered since. */
  ghost predicate TrackedAfter(ops: seq<Op>, c: string) {
    exists i :: 0 <= i < |ops| && ops[i] == Register(c) && forall k :: i < k < |ops| ==> ops[k] != Unregister(c)
  }

  lemma TrackedOneMore(ops: seq<Op>, c: string)
    requires ops != []
    ensures var n := |ops| - 1;
      TrackedAfter(ops, c) <==> ops[n] == Register(c) || (ops[n] != Unregister(c) && TrackedAfter(ops[..n], c))
  {
    var n := |ops| - 1;
    if TrackedAfter(ops, c) {
      var i :| 0 <= i < |ops| && ops[i] == Register(c) && forall k :: i < k < |ops| ==> ops[k] != Unregister(c);
      if i < n {
        assert ops[..n][i] == Register(c);
      }
    }
    if TrackedAfter(ops[..n], c) && ops[n] != Unregister(c) {
      var i :| 0 <= i < n && ops[..n][i] == Register(c) && forall k :: i < k < n ==> ops[..n][k] != Unregister(c);
      forall k | i < k < |ops|
        ensures ops[k] != Unregister(c)
      {
        assert k < n ==> ops[..n][k] == ops[k];
      }
      assert ops[i] == Register(c);
    }
  }

  ghost predicate HasRecord(ops: seq<Op>, c: string, p: string, shards: nat) {
    exists i: nat :: OnRecord(ops, c, p, shards, i)
  }

  /** The operation ends what was on record for the peer and the chunk. */
  predicate Replaces(op: Op, c: string, p: string) {
    Resets(op, c) || op == Death(p) || (op.Record? && op.chunkId == c && op.peerId == p)
  }

  lemma HasRecordOneMore(ops: seq<Op>, c: string, p: string, shards: nat)
    requires ops != []
    ensures var n := |ops| - 1;
      HasRecord(ops, c, p, shards) <==>
      (ops[n] == Record(c, p, shards) && TrackedAfter(ops[..n], c))
      || (HasRecord(ops[..n], c, p, shards) && !Replaces(ops[n], c, p))
  {
    var n := |ops| - 1;
    assert forall k :: 0 <= k < n ==> ops[..n][k] == ops[k];
    forall i: nat | i < n
      ensures ops[..n][..i] == ops[..i]
    {
    }
    if HasRecord(ops, c, p, shards) {
      var i: nat :| OnRecord(ops, c, p, shards, i);
      if i < n {
        assert OnRecord(ops[..n], c, p, shards, i);
      }
    }
    if HasRecord(ops[..n], c, p, shards) && !Replaces(ops[n], c, p) {
      var i: nat :| OnRecord(ops[..n], c, p, shards, i);
      assert OnRecord(ops, c, p, shards, i);
    }
    if ops[n] == Record(c, p, shards) && TrackedAfter(ops[..n], c) {
      assert OnRecord(ops, c, p, shards, n);
    }
  }

  ghost predicate Remembers(m: Model, defaultReplicas: nat, ops: seq<Op>, c: string) {
    && (c in m <==> TrackedAfter(ops, c))
    && (c in m ==> m[c].chunkId == c && m[c].target == defaultReplicas)
    && forall p, shards: nat :: HasRecord(ops, c, p, shards) <==>
                                c in m && p in m[c].replicas && m[c].replicas[p] == shards
  }

  /** In every run, the chunks tracked are those registered and not unregistered since, and
      what is on record for a peer is the last record about it while the chunk was tracked,
      unless the peer died or the chunk was registered anew since. */
  lemma {:induction false} RunRemembers(defaultReplicas: nat, ops: seq<Op>, c: string)
    ensures Remembers(Run(map[], defaultReplicas, ops), defaultReplicas, ops, c)
  {
    if ops != [] {
      var n := |ops| - 1;
      var end := Run(map[], defaultReplicas, ops);
      RunRemembers(defaultReplicas, ops[..n], c);
      TrackedOneMore(ops, c);
      forall p, shards: nat
        ensures HasRecord(ops, c, p, shards) <==> c in end && p in end[c].replicas && end[c].replicas[p] == shards
      {
        HasRecordOneMore(ops, c, p, shards);
      }
    }
  }

  /** The operation starts or ends the tracking of the chunk. */
  predicate Resets(op: Op, c: string) {
    (op.Register? || op.Unregister?) && op.chunkId == c
  }

  /** The operation makes the flag of the chunk, if tracked, be computed. */
  predicate Recomputes(op: Op, c: string) {
    op.Death? || (op.Record? && op.chunkId == c)
  }

  /** Something was recorded about the chunk, or some peer died, since it was registered. */
  ghost predicate Touched(ops: seq<Op>, c: string) {
    exists i :: 0 <= i < |ops| && Recomputes(ops[i], c) && forall k :: i < k < |ops| ==> !Resets(ops[k], c)
  }

  lemma TouchedAfter(ops: seq<Op>, c: string)
    requires ops != []
    ensures var n := |ops| - 1;
      Touched(ops, c) <==> Recomputes(ops[n], c) || (!Resets(ops[n], c) && Touched(ops[..n], c))
  {
    var n := |ops| - 1;
    if Touched(ops, c) {
      var i :| 0 <= i < |ops| && Recomputes(ops[i], c) && forall k :: i < k < |ops| ==> !Resets(ops[k], c);
      if i < n {
        assert Recomputes(ops[..n][i], c);
      }
    }
    if Touched(ops[..n], c) && !Resets(ops[n], c) {
      var i :| 0 <= i < n && Recomputes(ops[..n][i], c) && forall k :: i < k < n ==> !Resets(ops[..n][k], c);
      forall k | i < k < |ops|
        ensures !Resets(ops[k], c)
      {
        assert k < n ==> ops[..n][k] == ops[k];
      }
      assert Recomputes(ops[i], c);
    }
  }

  /** The cached flag in every run and for every target: it is set exactly if the recorded
      shards reach the target and the flag has been computed since the chunk was
      registered. Until then nothing is on record. */
  lemma {:induction false} FlagIsSum(defaultReplicas: nat, ops: seq<Op>, c: string)
    requires c in Run(map[], defaultReplicas, ops)
    ensures var chunk := Run(map[], defaultReplicas, ops)[c];
      && chunk.target == defaultReplicas
      && (chunk.complete <==> Touched(ops, c) && Total(chunk.replicas) >= defaultReplicas)
      && (!Touched(ops, c) ==> chunk.replicas == map[])
  {
    var n := |ops| - 1;
    TouchedAfter(ops, c);
    if c in Run(map[], defaultReplicas, ops[..n]) {
      FlagIsSum(defaultReplicas, ops[..n], c);
    }
  }

  /** The flag disagrees with the sum exactly for chunks with target zero that have not been
      touched since they were registered. */
  lemma FlagDisagreesOnlyUntouched(defaultReplicas: nat, ops: seq<Op>, c: string)
    requires c in Run(map[], defaultReplicas, ops)
    ensures var chunk := Run(map[], defaultReplicas, ops)[c];
      (chunk.complete <==> Total(chunk.replicas) >= defaultReplicas) <==>
      !(defaultReplicas == 0 && !Touched(ops, c))
  {
    FlagIsSum(defaultReplicas, ops, c);
  }

  /** With target zero, a chunk just registered counts as incomplete although nothing is
      missing. */
  lemma FlagWrongForTargetZero(c: string)
    ensures var end := Run(map[], 0, [Register(c)]);
      c in end && !end[c].complete && Sufficient(end[c].replicas, 0)
  {
    assert [Register(c)][..0] == [];
  }

  // ---------- Sequences of deaths ----------

  ghost function DropAll(m: Model, dead: seq<string>): Model
    decreases dead
  {
    if dead == [] then m else DropAll(DropEverywhere(m, dead[0]), dead[1..])
  }

  function AsSet(dead: seq<string>): set<string> {
    set p | p in dead
  }

  /** Some death of the sequence reported the chunk. */
  ghost predicate Reported(m: Model, dead: seq<string>, c: string)
    decreases dead
  {
    dead != [] && (NeedsRepair(m, dead[0], c) || Reported(DropEverywhere(m, dead[0]), dead[1..], c))
  }

  /** The chunk when all of `dead` are gone: no trace of them, and the flag recomputed. */
  ghost function Survivor(c: Chunk, dead: set<string>): Chunk {
    if dead == {} then c
    else c.(replicas := c.replicas - dead, complete := Sufficient(c.replicas - dead, c.target))
  }

  lemma RestOfDead(dead: seq<string>)
    requires dead != []
    ensures AsSet(dead) == {dead[0]} + AsSet(dead[1..])
  {
  }

  lemma {:induction false} DropAllIsSurvivor(m: Model, dead: seq<string>)
    ensures DropAll(m, dead) == map c | c in m :: Survivor(m[c], AsSet(dead))
    decreases dead
  {
    if dead != [] {
      RestOfDead(dead);
      DropAllIsSurvivor(DropEverywhere(m, dead[0]), dead[1..]);
      forall c | c in m
        ensures Survivor(Drop(m[c], dead[0]), AsSet(dead[1..])) == Survivor(m[c], AsSet(dead))
      {
        assert m[c].replicas - {dead[0]} - AsSet(dead[1..]) == m[c].replicas - AsSet(dead);
        assert AsSet(dead[1..]) == {} ==> AsSet(dead) == {dead[0]};
      }
    }
  }

  /** The states after a sequence of deaths depend only on who died, and no state mentions
      a dead peer. */
  lemma DeathOrderIrrelevant(m: Model, dead: seq<string>, dead': seq<string>)
    requires AsSet(dead) == AsSet(dead')
    ensures DropAll(m, dead) == DropAll(m, dead')
    ensures forall c, p :: c in DropAll(m, dead) && p in dead ==> p !in DropAll(m, dead)[c].replicas
  {
    DropAllIsSurvivor(m, dead);
    DropAllIsSurvivor(m, dead');
    assert forall p :: p in dead ==> p in AsSet(dead);
  }

  ghost predicate LostShards(c: Chunk, dead: set<string>) {
    exists p :: p in dead && Held(c.replicas, p) > 0
  }

  lemma {:induction false} TotalShrinks(replicas: map<string, nat>, dead: set<string>)
    ensures Total(replicas - dead) <= Total(replicas)
    ensures Total(replicas - dead) == Total(replicas) <==> forall p :: p in dead ==> Held(replicas, p) == 0
    decreases dead
  {
    if dead == {} {
      assert replicas - dead == replicas;
    } else {
      var p :| p in dead;
      var others := dead - {p};
      TotalShrinks(replicas, others);
      assert replicas - dead == (replicas - others) - {p};
      if p in replicas {
        TotalWithout(replicas - others, p);
      } else {
        assert replicas - dead == replicas - others;
      }
    }
  }

  /** The chunks reported by the deaths of a sequence, taken together, are those that lost
      shards to any of the dead and are left with too few: again, the order is irrelevant. */
  lemma {:induction false} ReportsTogether(m: Model, dead: seq<string>, c: string)
    requires c in m
    ensures Reported(m, dead, c) <==>
              LostShards(m[c], AsSet(dead)) && Total(m[c].replicas - AsSet(dead)) < m[c].target
    decreases dead
  {
    if dead != [] {
      var p, later := dead[0], AsSet(dead[1..]);
      var replicas, left := m[c].replicas, m[c].replicas - {p};
      RestOfDead(dead);
      ReportsTogether(DropEverywhere(m, p), dead[1..], c);
      assert replicas - AsSet(dead) == left - later;
      TotalShrinks(left, later);
      assert LostShards(m[c], AsSet(dead)) <==> Held(replicas, p) > 0 || LostShards(Drop(m[c], p), later) by {
        LostNowOrLater(m[c], p, later);
      }
    }
  }

  lemma LostNowOrLater(c: Chunk, p: string, later: set<string>)
    ensures LostShards(c, {p} + later) <==> Held(c.replicas, p) > 0 || LostShards(Drop(c, p), later)
  {
  }

  /** No loss goes unreported: in every reachable state, a chunk that was complete before
      a sequence of deaths and is not complete after it was reported by one of them. */
  lemma LossIsReported(defaultReplicas: nat, ops: seq<Op>, dead: seq<string>, c: string)
    requires var m := Run(map[], defaultReplicas, ops);
      c in m && m[c].complete && c in DropAll(m, dead) && !DropAll(m, dead)[c].complete
    ensures Reported(Run(map[], defaultReplicas, ops), dead, c)
  {
    var m := Run(map[], defaultReplicas, ops);
    FlagIsSum(defaultReplicas, ops, c);
    DropAllIsSurvivor(m, dead);
    TotalShrinks(m[c].replicas, AsSet(dead));
    ReportsTogether(m, dead, c);
  }
}
