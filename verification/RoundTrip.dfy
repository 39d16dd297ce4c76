/**
  From a file to shards and back: what survives the loss of shards. Joins modules
  Chunking and Erasure.
 */
module RoundTrip {
  import opened Basics
  import opened Chunking
  import opened Erasure
  import opened ErasureCode

  /** Shards as they were made, in any order and perhaps repeated. */
  ghost predicate Genuine(shards: seq<Bytes>, received: seq<Shard>)
    requires |shards| == TOTAL_SHARDS
  {
    forall k :: 0 <= k < |received| ==> received[k].0 < TOTAL_SHARDS && received[k].1 == shards[received[k].0]
  }

  ghost function Indices(received: seq<Shard>): set<nat> {
    set r | r in received :: r.0
  }

  lemma IndicesMore(received: seq<Shard>, r: Shard)
    ensures Indices(received + [r]) == Indices(received) + {r.0}
  {
  }

  lemma {:induction false} IndicesBounded(received: seq<Shard>)
    ensures |Indices(received)| <= |received|
  {
    if received != [] {
      var n := |received| - 1;
      IndicesBounded(received[..n]);
      IndicesMore(received[..n], received[n]);
      assert received == received[..n] + [received[n]];
    }
  }

  ghost predicate Holds(slots: Slots, shards: seq<Bytes>, indices: set<nat>)
    requires |shards| == TOTAL_SHARDS
  {
    forall i :: 0 <= i < 5 ==> slots[i] == if i in indices then Some(shards[i]) else None
  }

  lemma {:induction false} PlaceGenuine(shards: seq<Bytes>, received: seq<Shard>)
    requires |shards| == TOTAL_SHARDS && Genuine(shards, received)
    ensures Place(received).Ok? && Holds(Place(received).value, shards, Indices(received))
    ensures forall i :: i in Indices(received) ==> i < 5
  {
    if received != [] {
      var n := |received| - 1;
      PlaceGenuine(shards, received[..n]);
      IndicesMore(received[..n], received[n]);
      assert received == received[..n] + [received[n]];
    }
  }

  lemma HeldCarry(data: Bytes, shards: seq<Bytes>, slots: Slots, indices: set<nat>, j: nat)
    requires IsEncoding(data, shards) && Holds(slots, shards, indices) && j < ShardSize(|data|)
    ensures Uniform(slots, ShardSize(|data|))
    ensures Carries(ColumnAt(slots, ShardSize(|data|), j), DataWord(data, j))
  {
  }

  lemma RecoveredByte(data: Bytes, shards: seq<Bytes>, slots: Slots, indices: set<nat>, t: nat, j: nat)
    requires IsEncoding(data, shards) && Holds(slots, shards, indices) && t < 3 && j < ShardSize(|data|)
    requires Uniform(slots, ShardSize(|data|)) && |PresentShards(slots)| >= 3
    ensures Present(ColumnAt(slots, ShardSize(|data|), j)) >= 3
    ensures Recovered(ColumnAt(slots, ShardSize(|data|), j), t) == DataWord(data, j).At(t)
  {
    HeldCarry(data, shards, slots, indices, j);
    CountPresent(slots, ShardSize(|data|), j);
    AnyThreeRecover(ColumnAt(slots, ShardSize(|data|), j), DataWord(data, j), t);
  }

  lemma ThirdAt(data: Bytes, t: nat, j: nat)
    requires t < 3 && j < ShardSize(|data|)
    ensures Third(Padded(data), ShardSize(|data|), t)[j] == DataWord(data, j).At(t)
  {
  }

  lemma SolvedIsThird(data: Bytes, shards: seq<Bytes>, slots: Slots, indices: set<nat>, t: nat)
    requires IsEncoding(data, shards) && Holds(slots, shards, indices) && t < 3
    requires Uniform(slots, ShardSize(|data|)) && |PresentShards(slots)| >= 3
    ensures SolvedShard(slots, ShardSize(|data|), t) == Third(Padded(data), ShardSize(|data|), t)
  {
    var size := ShardSize(|data|);
    var solved, third := SolvedShard(slots, size, t), Third(Padded(data), size, t);
    forall j | 0 <= j < size
      ensures solved[j] == third[j]
    {
      RecoveredByte(data, shards, slots, indices, t, j);
      ThirdAt(data, t, j);
    }
  }

  lemma SizeOfHeld(data: Bytes, shards: seq<Bytes>, slots: Slots, indices: set<nat>)
    requires IsEncoding(data, shards) && Holds(slots, shards, indices) && |PresentShards(slots)| > 0
    ensures SizeOfFirst(slots) == ShardSize(|data|)
    ensures Uniform(slots, ShardSize(|data|)) <==> data != []
  {
  }

  lemma ThirdsMakeWhole(data: Bytes)
    ensures var p, size := Padded(data), ShardSize(|data|);
      Third(p, size, 0) + Third(p, size, 1) + Third(p, size, 2) == p
  {
  }

  lemma CodecOnHeld(data: Bytes, shards: seq<Bytes>, slots: Slots, indices: set<nat>)
    requires IsEncoding(data, shards) && Holds(slots, shards, indices)
    ensures CodecReconstruct(slots).Ok? <==> data != [] && |PresentShards(slots)| >= 3
    ensures CodecReconstruct(slots).Ok? ==>
              var s := CodecReconstruct(slots).value; s[0] + s[1] + s[2] == Padded(data)
  {
    if |PresentShards(slots)| >= 3 {
      SizeOfHeld(data, shards, slots, indices);
      if data != [] {
        SolvedIsThird(data, shards, slots, indices, 0);
        SolvedIsThird(data, shards, slots, indices, 1);
        SolvedIsThird(data, shards, slots, indices, 2);
        ThirdsMakeWhole(data);
      }
    }
  }

  /** Reconstruction from genuine shards succeeds exactly if the data is not empty and at
      least three different shards are there, and then yields the data, followed by fewer
      than three zeros. */
  lemma ReconstructsExactly(data: Bytes, shards: seq<Bytes>, received: seq<Shard>)
    requires IsEncoding(data, shards) && Genuine(shards, received)
    ensures Reconstruction(received).Ok? <==> data != [] && |Indices(received)| >= 3
    ensures Reconstruction(received).Ok? ==>
              Reconstruction(received).value == Padded(data)
              && Reconstruction(received).value[..|data|] == data
              && ExtendsByZeros(data, Reconstruction(received).value)
  {
    PaddedExtends(data);
    IndicesBounded(received);
    PlaceGenuine(shards, received);
    var slots := Place(received).value;
    assert PresentShards(slots) == Indices(received);
    CodecOnHeld(data, shards, slots, Indices(received));
  }

  /** Shards of one positive size, looking only at the last received for each index. */
  ghost predicate SameSize(received: seq<Shard>, size: nat) {
    size > 0 && forall k: nat :: LastOf(received, k) ==> |received[k].1| == size
  }

  lemma LastFor(received: seq<Shard>, j: nat) returns (k: nat)
    requires j < |received|
    ensures LastOf(received, k) && received[k].0 == received[j].0
    decreases |received| - j
  {
    if m :| j < m < |received| && received[m].0 == received[j].0 {
      k := LastFor(received, m);
    } else {
      k := j;
    }
  }

  lemma PresentAreIndices(slots: Slots, received: seq<Shard>)
    requires HoldsLast(slots, received)
    ensures PresentShards(slots) == Indices(received)
  {
    forall i | i in Indices(received)
      ensures i in PresentShards(slots)
    {
      var r :| r in received && r.0 == i;
      var j :| 0 <= j < |received| && received[j] == r;
      var k := LastFor(received, j);
    }
    forall i | i in PresentShards(slots)
      ensures i in Indices(received)
    {
      var k: nat :| LastOf(received, k) && received[k].0 == i;
      assert received[k] in received;
    }
  }

  lemma UniformIffSameSize(slots: Slots, received: seq<Shard>, size: nat)
    requires HoldsLast(slots, received)
    ensures Uniform(slots, size) <==> SameSize(received, size)
  {
    if SameSize(received, size) {
      forall i | 0 <= i < 5 && slots[i].Some?
        ensures |slots[i].value| == size
      {
        var k: nat :| LastOf(received, k) && received[k].0 == i;
      }
    }
  }

  lemma SizeIfUniform(slots: Slots, size: nat)
    requires Uniform(slots, size) && |PresentShards(slots)| > 0
    ensures SizeOfFirst(slots) == size
  {
    var i :| i in PresentShards(slots);
  }

  lemma CodecOutcome(slots: Slots, received: seq<Shard>)
    requires HoldsLast(slots, received)
    ensures CodecReconstruct(slots).Ok? <==> |Indices(received)| >= 3 && exists size: nat :: SameSize(received, size)
    ensures CodecReconstruct(slots).Err? ==> CodecReconstruct(slots) == Err(CodecFailed)
  {
    PresentAreIndices(slots, received);
    UniformIffSameSize(slots, received, SizeOfFirst(slots));
    if size: nat :| SameSize(received, size) {
      UniformIffSameSize(slots, received, size);
      if |Indices(received)| >= 3 {
        SizeIfUniform(slots, size);
      }
    }
  }

  /** When reconstruction succeeds, whatever was received, and with which error it fails. */
  lemma ReconstructionOutcome(received: seq<Shard>)
    ensures |received| < 3 ==> Reconstruction(received) == Err(TooFewShards(|received|))
    ensures forall k: nat :: |received| >= 3 && FirstOutOfRange(received, k) ==>
              Reconstruction(received) == Err(IndexOutOfRange(received[k].0))
    ensures |received| >= 3 && (forall k :: 0 <= k < |received| ==> received[k].0 < 5) ==>
              if |Indices(received)| >= 3 && (exists size: nat :: SameSize(received, size))
              then Reconstruction(received).Ok? else Reconstruction(received) == Err(CodecFailed)
  {
    PlaceHoldsLast(received);
    if Place(received).Ok? {
      CodecOutcome(Place(received).value, received);
    } else {
      var first: nat :| FirstOutOfRange(received, first) && Place(received) == Err(IndexOutOfRange(received[first].0));
      forall k: nat | FirstOutOfRange(received, k)
        ensures k == first
      {
      }
    }
  }

  lemma SolvedKeepsPresent(slots: Slots, size: nat, t: nat)
    requires Uniform(slots, size) && |PresentShards(slots)| >= 3 && t < 3 && slots[t].Some?
    ensures SolvedShard(slots, size, t) == slots[t].value
  {
    var shard := SolvedShard(slots, size, t);
    forall j | 0 <= j < size
      ensures shard[j] == slots[t].value[j]
    {
      assert Present(ColumnAt(slots, size, j)) >= 3;
      assert ColumnAt(slots, size, j)[t] == Some(slots[t].value[j]);
    }
  }

  lemma ResultIsRow(received: seq<Shard>, slots: Slots, size: nat)
    requires Reconstruction(received).Ok? && Place(received) == Ok(slots) && size == SizeOfFirst(slots)
    ensures Uniform(slots, size) && |PresentShards(slots)| >= 3
    ensures Reconstruction(received).value
         == SolvedShard(slots, size, 0) + SolvedShard(slots, size, 1) + SolvedShard(slots, size, 2)
  {
  }

  lemma ThirdOfRow(a: Bytes, b: Bytes, c: Bytes, t: nat, size: nat)
    requires |a| == size && |b| == size && |c| == size && t < 3
    ensures (a + b + c)[t * size..t * size + size] == if t == 0 then a else if t == 1 then b else c
  {
  }

  lemma KeptInRow(received: seq<Shard>, slots: Slots, size: nat, t: nat)
    requires Reconstruction(received).Ok? && Place(received) == Ok(slots) && size == SizeOfFirst(slots)
    requires t < 3 && slots[t].Some?
    ensures var value := Reconstruction(received).value;
      |slots[t].value| == size && |value| == 3 * size && t * size + size <= |value|
      && value[t * size..t * size + size] == slots[t].value
  {
    ResultIsRow(received, slots, size);
    SolvedKeepsPresent(slots, size, t);
    ThirdOfRow(SolvedShard(slots, size, 0), SolvedShard(slots, size, 1), SolvedShard(slots, size, 2), t, size);
  }

  /** A data shard that was received comes back as it is, in its third of the result. */
  lemma ReceivedThirdsKept(received: seq<Shard>, k: nat)
    requires Reconstruction(received).Ok? && LastOf(received, k) && received[k].0 < 3
    ensures var value, t, size := Reconstruction(received).value, received[k].0, |received[k].1|;
      |value| == 3 * size && t * size + size <= |value| && value[t * size..t * size + size] == received[k].1
  {
    PlaceHoldsLast(received);
    var slots := Place(received).value;
    KeptInRow(received, slots, SizeOfFirst(slots), received[k].0);
  }

  /** Encoding nothing and decoding it again fails, even with all five shards at hand. */
  lemma EmptyDataIsLost(shards: seq<Bytes>)
    requires IsEncoding([], shards)
    ensures Reconstruction([(0, shards[0]), (1, shards[1]), (2, shards[2]), (3, shards[3]), (4, shards[4])]).Err?
  {
  }

  /** The chunks read back: each reconstructed and trimmed to its length. */
  ghost predicate ReadsBack(chunks: seq<Bytes>, received: seq<seq<Shard>>, read: seq<Bytes>) {
    && |received| == |chunks| && |read| == |chunks|
    && forall i :: 0 <= i < |chunks| ==>
         && Reconstruction(received[i]).Ok?
         && |chunks[i]| <= |Reconstruction(received[i]).value|
         && read[i] == Reconstruction(received[i]).value[..|chunks[i]|]
  }

  /** Any file survives: chunked, encoded chunk by chunk, and with at least three shards
      left of every chunk, it is read back and put together again as it was. */
  lemma FileSurvives(file: Bytes, chunks: seq<Bytes>, shards: seq<seq<Bytes>>, received: seq<seq<Shard>>)
      returns (read: seq<Bytes>)
    requires IsChunking(file, chunks)
    requires |shards| == |chunks| && |received| == |chunks|
    requires forall i :: 0 <= i < |chunks| ==>
               IsEncoding(chunks[i], shards[i]) && Genuine(shards[i], received[i]) && |Indices(received[i])| >= 3
    ensures ReadsBack(chunks, received, read)
    ensures Concat(read) == file
  {
    forall i | 0 <= i < |chunks|
      ensures Reconstruction(received[i]).Ok? && |chunks[i]| <= |Reconstruction(received[i]).value|
      ensures Reconstruction(received[i]).value[..|chunks[i]|] == chunks[i]
    {
      ReconstructsExactly(chunks[i], shards[i], received[i]);
    }
    read := chunks;
  }
}
