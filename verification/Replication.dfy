/**
  Replication bookkeeping, storage/src/replication.rs: which peer holds how many shards
  of which chunk, and what happens when a peer dies.
 */
module Replication {
  import opened Basics

  /** What a ReplicationState says. */
  datatype Chunk = Chunk(chunkId: string, target: nat, replicas: map<string, nat>, complete: bool)

  ghost function Total(replicas: map<string, nat>): nat {
    if replicas == map[] then 0
    else
      var p :| p in replicas;
      replicas[p] + Total(replicas - {p})
  }

  ghost predicate Sufficient(replicas: map<string, nat>, target: nat) {
    Total(replicas) >= target
  }

  lemma {:induction false} TotalWithout(replicas: map<string, nat>, p: string)
    requires p in replicas
    ensures Total(replicas) == replicas[p] + Total(replicas - {p})
    decreases replicas
  {
    var q :| q in replicas && Total(replicas) == replicas[q] + Total(replicas - {q});
    if q != p {
      TotalWithout(replicas - {q}, p);
      TotalWithout(replicas - {p}, q);
      assert replicas - {q} - {p} == replicas - {p} - {q};
    }
  }

  function SumOver(replicas: map<string, nat>, ps: seq<string>): nat
    requires forall p :: p in ps ==> p in replicas
  {
    if ps == [] then 0 else SumOver(replicas, ps[..|ps| - 1]) + replicas[ps[|ps| - 1]]
  }

  lemma {:induction false} SumOverFewer(replicas: map<string, nat>, ps: seq<string>, p: string)
    requires p in replicas && p !in ps && forall q :: q in ps ==> q in replicas
    ensures SumOver(replicas - {p}, ps) == SumOver(replicas, ps)
  {
    if ps != [] {
      SumOverFewer(replicas, ps[..|ps| - 1], p);
    }
  }

  /** The total is the sum of the shard counts of all peers, listed in any order. */
  lemma {:induction false} TotalIsSum(replicas: map<string, nat>, ps: seq<string>)
    requires NoDuplicates(ps) && forall p :: p in ps <==> p in replicas
    ensures Total(replicas) == SumOver(replicas, ps)
    decreases |ps|
  {
    if ps == [] {
      assert forall p :: p !in replicas;
    } else {
      var p, fewer := ps[|ps| - 1], ps[..|ps| - 1];
      assert ps == fewer + [p];
      assert p !in fewer;
      TotalWithout(replicas, p);
      TotalIsSum(replicas - {p}, fewer);
      SumOverFewer(replicas, fewer, p);
    }
  }

  function Held(replicas: map<string, nat>, p: string): nat {
    if p in replicas then replicas[p] else 0
  }

  function NewChunk(id: string, target: nat): Chunk {
    Chunk(id, target, map[], false)
  }

  ghost function Add(c: Chunk, p: string, shards: nat): Chunk {
    var replicas := c.replicas[p := shards];
    c.(replicas := replicas, complete := Sufficient(replicas, c.target))
  }

  ghost function Drop(c: Chunk, p: string): Chunk {
    var replicas := c.replicas - {p};
    c.(replicas := replicas, complete := Sufficient(replicas, c.target))
  }

  class ReplicationState {
    const chunkId: string
    const targetReplicas: nat
    var currentReplicas: map<string, nat>
    var isComplete: bool

    ghost function View(): Chunk
      reads this
    {
      Chunk(chunkId, targetReplicas, currentReplicas, isComplete)
    }

    constructor (chunkId: string, targetReplicas: nat)
      ensures View() == NewChunk(chunkId, targetReplicas)
    {
      this.chunkId, this.targetReplicas := chunkId, targetReplicas;
      currentReplicas := map[];
      isComplete := false;
    }

    /** Sums the shard counts, in an order that is not known. */
    method CheckReplication() returns (ok: bool)
      ensures ok <==> Sufficient(currentReplicas, targetReplicas)
      ensures ok <==> Total(currentReplicas) >= targetReplicas
    {
      var totalShards, rest := 0, currentReplicas;
      while rest != map[]
        invariant forall p :: p in rest ==> p in currentReplicas && rest[p] == currentReplicas[p]
        invariant totalShards + Total(rest) == Total(currentReplicas)
        decreases rest.Keys
      {
        var p :| p in rest;
        TotalWithout(rest, p);
        totalShards := totalShards + rest[p];
        rest := rest - {p};
      }
      ok := totalShards >= targetReplicas;
    }

    method AddReplica(peerId: string, shardCount: nat)
      modifies this
      ensures View() == Add(old(View()), peerId, shardCount)
      ensures currentReplicas == old(currentReplicas)[peerId := shardCount]
      ensures isComplete <==> Total(currentReplicas) >= targetReplicas
    {
      currentReplicas := currentReplicas[peerId := shardCount];
      isComplete := CheckReplication();
    }

    method RemovePeer(peerId: string) returns (removed: nat)
      modifies this
      ensures View() == Drop(old(View()), peerId)
      ensures removed == Held(old(currentReplicas), peerId)
      ensures currentReplicas == old(currentReplicas) - {peerId}
      ensures removed == if peerId in old(currentReplicas) then old(currentReplicas)[peerId] else 0
      ensures isComplete <==> Total(currentReplicas) >= targetReplicas
    {
      removed := if peerId in currentReplicas then currentReplicas[peerId] else 0;
      currentReplicas := currentReplicas - {peerId};
      isComplete := CheckReplication();
    }
  }

  type Model = map<string, Chunk>

  ghost function DropEverywhere(m: Model, p: string): Model {
    map c | c in m :: Drop(m[c], p)
  }

  /** The peer held shards of the chunk, and without them there are too few. */
  ghost predicate NeedsRepair(m: Model, p: string, c: string) {
    c in m && Held(m[c].replicas, p) > 0 && !Sufficient(m[c].replicas - {p}, m[c].target)
  }

  /** Midway through a traversal that drops the peer everywhere. */
  ghost predicate PartlyDropped(before: Model, now: Model, rest: set<string>, p: string) {
    && now.Keys == before.Keys
    && forall c :: c in before ==> now[c] == if c in rest then before[c] else Drop(before[c], p)
  }

  /** Listed, each once, are the visited chunks that need repair. */
  ghost predicate Reports(chunks: seq<string>, before: Model, rest: set<string>, p: string) {
    && NoDuplicates(chunks)
    && forall c :: c in chunks <==> c !in rest && NeedsRepair(before, p, c)
  }

  lemma OneMoreDropped(chunks: seq<string>, before: Model, now: Model, rest: set<string>, p: string, c: string)
    requires c in rest && c in before && PartlyDropped(before, now, rest, p) && Reports(chunks, before, rest, p)
    ensures PartlyDropped(before, now[c := Drop(now[c], p)], rest - {c}, p)
    ensures NeedsRepair(now, p, c) <==> NeedsRepair(before, p, c)
    ensures Reports(if NeedsRepair(before, p, c) then chunks + [c] else chunks, before, rest - {c}, p)
  {
  }

  class ReplicationManager {
    var states: map<string, ReplicationState>
    var defaultReplicas: nat

    ghost predicate Valid()
      reads this, states.Values
    {
      && (forall c :: c in states ==> states[c].chunkId == c)
      && (forall c, d :: c in states && d in states && c != d ==> states[c] != states[d])
    }

    ghost function Contents(): Model
      reads this, states.Values
    {
      map c | c in states :: states[c].View()
    }

    constructor (defaultReplicas: nat)
      ensures Valid() && Contents() == map[] && this.defaultReplicas == defaultReplicas
    {
      states, this.defaultReplicas := map[], defaultReplicas;
    }

    method RegisterChunk(chunkId: string)
      requires Valid()
      modifies this`states
      ensures Valid() && fresh(states.Values - old(states.Values))
      ensures Contents() == old(Contents())[chunkId := NewChunk(chunkId, defaultReplicas)]
    {
      var state := new ReplicationState(chunkId, defaultReplicas);
      states := states[chunkId := state];
      assert forall c :: c in states && c != chunkId ==> states[c] in old(states.Values);
    }

    method RecordPeerShards(chunkId: string, peerId: string, shardCount: nat)
      requires Valid()
      modifies states.Values
      ensures Valid()
      ensures Contents() == if chunkId !in states then old(Contents())
                            else old(Contents())[chunkId := Add(old(Contents())[chunkId], peerId, shardCount)]
    {
      if chunkId in states {
        states[chunkId].AddReplica(peerId, shardCount);
      }
    }

    /** Every chunk loses the peer; reported, each once, are the chunks that lost shards
        and have too few left. */
    method HandlePeerDeath(deadPeerId: string) returns (chunksNeedingRepair: seq<string>)
      requires Valid()
      modifies states.Values
      ensures Valid()
      ensures Contents() == DropEverywhere(old(Contents()), deadPeerId)
      ensures NoDuplicates(chunksNeedingRepair)
      ensures forall c :: c in chunksNeedingRepair <==> NeedsRepair(old(Contents()), deadPeerId, c)
      ensures forall c :: c in chunksNeedingRepair <==>
                c in old(Contents()) && deadPeerId in old(Contents())[c].replicas
                && old(Contents())[c].replicas[deadPeerId] > 0
                && Total(old(Contents())[c].replicas - {deadPeerId}) < old(Contents())[c].target
    {
      ghost var before := Contents();
      chunksNeedingRepair := [];
      var rest := states.Keys;
      while rest != {}
        invariant Valid() && rest <= states.Keys
        invariant PartlyDropped(before, Contents(), rest, deadPeerId)
        invariant Reports(chunksNeedingRepair, before, rest, deadPeerId)
        decreases rest
      {
        ghost var now := Contents();
        var chunkId :| chunkId in rest;
        var failing := DropFrom(chunkId, deadPeerId);
        OneMoreDropped(chunksNeedingRepair, before, now, rest, deadPeerId, chunkId);
        rest := rest - {chunkId};
        if failing {
          chunksNeedingRepair := chunksNeedingRepair + [chunkId];
        }
      }
    }

    /** The part of it that concerns one chunk. */
    method DropFrom(chunkId: string, deadPeerId: string) returns (failing: bool)
      requires Valid() && chunkId in states
      modifies states[chunkId]
      ensures Valid() && Contents() == old(Contents())[chunkId := Drop(old(Contents())[chunkId], deadPeerId)]
      ensures failing <==> NeedsRepair(old(Contents()), deadPeerId, chunkId)
    {
      var removed := states[chunkId].RemovePeer(deadPeerId);
      failing := removed > 0 && !states[chunkId].isComplete;
    }

    method ChunksNeedingReplication() returns (incomplete: set<string>)
      ensures incomplete == set c | c in states && !states[c].isComplete
    {
      incomplete := set c | c in states && !states[c].isComplete;
    }

    method IsReplicated(chunkId: string) returns (ok: bool)
      ensures ok <==> chunkId in Contents() && Contents()[chunkId].complete
    {
      ok := if chunkId in states then states[chunkId].isComplete else false;
    }

    method UnregisterChunk(chunkId: string)
      requires Valid()
      modifies this`states
      ensures Valid() && states.Values <= old(states.Values)
      ensures Contents() == old(Contents()) - {chunkId}
    {
      states := states - {chunkId};
    }
  }
}
