/**
  Encoding data into five shards and getting it back from three, core/src/erasure.rs.
 */
module Erasure {
  import opened Basics
  import opened ErasureCode

  const DATA_SHARDS: nat := 3
  const TOTAL_SHARDS: nat := 5

  datatype ErasureError = TooFewShards(given: nat) | IndexOutOfRange(index: nat) | CodecFailed

  type Shard = (nat, Bytes)

  // ---------- Encoding ----------

  function ShardSize(n: nat): nat {
    (n + DATA_SHARDS - 1) / DATA_SHARDS
  }

  function Zeros(n: nat): Bytes {
    seq(n, _ => 0)
  }

  /** The data filled up with zeros to three shards of equal size. */
  function Padded(data: Bytes): (padded: Bytes)
    ensures |padded| == 3 * ShardSize(|data|) && data <= padded
  {
    data + Zeros(3 * ShardSize(|data|) - |data|)
  }

  function DataWord(data: Bytes, j: nat): Word
    requires j < ShardSize(|data|)
  {
    var padded, size := Padded(data), ShardSize(|data|);
    Word(padded[j], padded[size + j], padded[2 * size + j])
  }

  /** Five shards of equal size that carry the data: at every position, the code word of
      three bytes of the padded data, one from each third. */
  ghost predicate IsEncoding(data: Bytes, shards: seq<Bytes>) {
    && |shards| == TOTAL_SHARDS
    && (forall i :: 0 <= i < TOTAL_SHARDS ==> |shards[i]| == ShardSize(|data|))
    && (forall i, j :: 0 <= i < TOTAL_SHARDS && 0 <= j < ShardSize(|data|) ==>
          shards[i][j] == Encoded(DataWord(data, j), i))
  }

  /** What the codec fills a parity shard with. */
  function ParityShard(shards: seq<Bytes>, size: nat, i: nat): (parity: Bytes)
    requires |shards| >= DATA_SHARDS && 3 <= i < 5
    requires |shards[0]| == size && |shards[1]| == size && |shards[2]| == size
    ensures |parity| == size
    ensures forall j :: 0 <= j < size ==> parity[j] == Encoded(Word(shards[0][j], shards[1][j], shards[2][j]), i)
  {
    seq<Byte>(size, j requires 0 <= j < size => Encoded(Word(shards[0][j], shards[1][j], shards[2][j]), i))
  }

  function Third(padded: Bytes, size: nat, i: nat): Bytes
    requires |padded| == 3 * size && i < 3
  {
    if i == 0 then padded[..size] else if i == 1 then padded[size..2 * size] else padded[2 * size..]
  }

  ghost predicate AreThirds(data: Bytes, shards: seq<Bytes>) {
    var padded, size := Padded(data), ShardSize(|data|);
    && |shards| == 3
    && shards[0] == Third(padded, size, 0) && shards[1] == Third(padded, size, 1) && shards[2] == Third(padded, size, 2)
  }

  lemma ThirdsCarryWords(data: Bytes, shards: seq<Bytes>, j: nat, i: nat)
    requires AreThirds(data, shards) && j < ShardSize(|data|) && i < 5
    ensures Word(shards[0][j], shards[1][j], shards[2][j]) == DataWord(data, j)
    ensures i < 3 ==> shards[i][j] == Encoded(DataWord(data, j), i)
  {
  }

  lemma ThirdsEncode(data: Bytes, shards: seq<Bytes>)
    requires AreThirds(data, shards)
    ensures var size := ShardSize(|data|);
      IsEncoding(data, shards + [ParityShard(shards, size, 3), ParityShard(shards, size, 4)])
  {
    var size := ShardSize(|data|);
    var p3, p4 := ParityShard(shards, size, 3), ParityShard(shards, size, 4);
    var all := shards + [p3, p4];
    assert all[0] == shards[0] && all[1] == shards[1] && all[2] == shards[2] && all[3] == p3 && all[4] == p4;
    forall i, j | 0 <= i < TOTAL_SHARDS && 0 <= j < size
      ensures all[i][j] == Encoded(DataWord(data, j), i)
    {
      ThirdsCarryWords(data, shards, j, i);
      if i == 3 {
        assert p3[j] == Encoded(Word(shards[0][j], shards[1][j], shards[2][j]), 3);
      } else if i == 4 {
        assert p4[j] == Encoded(Word(shards[0][j], shards[1][j], shards[2][j]), 4);
      }
    }
  }

  /** `padded` is the data followed by just as many zeros, none to two, as make its length
      a multiple of three. */
  predicate ExtendsByZeros(data: Bytes, padded: Bytes) {
    && |data| <= |padded| < |data| + 3 && |padded| % 3 == 0
    && forall k :: 0 <= k < |padded| ==> padded[k] == if k < |data| then data[k] else 0
  }

  lemma PaddedExtends(data: Bytes)
    ensures ExtendsByZeros(data, Padded(data)) && |Padded(data)| == 3 * ShardSize(|data|)
  {
  }

  lemma ThreeInARow(data: Bytes, shards: seq<Bytes>)
    requires IsEncoding(data, shards)
    ensures shards[0] + shards[1] + shards[2] == Padded(data)
  {
    var row, padded, size := shards[0] + shards[1] + shards[2], Padded(data), ShardSize(|data|);
    forall k | 0 <= k < |padded|
      ensures row[k] == padded[k]
    {
      var i, j := if k < size then 0 else if k < 2 * size then 1 else 2, 0;
      j := k - i * size;
      assert shards[i][j] == Encoded(DataWord(data, j), i);
    }
  }

  method Encode(data: Bytes) returns (shards: seq<Bytes>)
    ensures IsEncoding(data, shards)
    ensures |shards| == 5 && forall i :: 0 <= i < 5 ==> |data| <= 3 * |shards[i]| < |data| + 3
    ensures ExtendsByZeros(data, shards[0] + shards[1] + shards[2])
  {
    PaddedExtends(data);
    if |data| == 0 {
      shards := [[], [], [], [], []];
      return;
    }
    var totalLen := ShardSize(|data|) * DATA_SHARDS;
    var padded := data + Zeros(totalLen - |data|);
    var shardSize := totalLen / DATA_SHARDS;
    assert padded == Padded(data) && shardSize == ShardSize(|data|);
    shards := [];
    while |shards| < DATA_SHARDS
      invariant |shards| <= DATA_SHARDS
      invariant forall i :: 0 <= i < |shards| ==> shards[i] == Third(padded, shardSize, i)
    {
      shards := shards + [Third(padded, shardSize, |shards|)];
    }
    ThirdsEncode(data, shards);
    shards := shards + [ParityShard(shards, shardSize, 3), ParityShard(shards, shardSize, 4)];
    ThreeInARow(data, shards);
  }

  // ---------- The codec's reconstruction ----------

  /** One place per shard index. */
  type Slots = s: seq<Option<Bytes>> | |s| == 5 witness [None, None, None, None, None]

  function PresentShards(slots: Slots): set<nat> {
    set i | 0 <= i < 5 && slots[i].Some?
  }

  /** Every shard present has the given, positive size. */
  predicate Uniform(slots: Slots, size: nat) {
    size > 0 && forall i :: 0 <= i < 5 && slots[i].Some? ==> |slots[i].value| == size
  }

  function ColumnAt(slots: Slots, size: nat, j: nat): Column
    requires Uniform(slots, size) && j < size
  {
    seq(5, i requires 0 <= i < 5 => if slots[i].Some? then Some(slots[i].value[j]) else None)
  }

  function CountUpTo(slots: Slots, n: nat): nat
    requires n <= 5
  {
    if n == 0 then 0 else CountUpTo(slots, n - 1) + (if slots[n - 1].Some? then 1 else 0)
  }

  lemma {:induction false} CountIsSize(slots: Slots, n: nat)
    requires n <= 5
    ensures |set i | 0 <= i < n && slots[i].Some?| == CountUpTo(slots, n)
  {
    if n > 0 {
      CountIsSize(slots, n - 1);
      var before := set i | 0 <= i < n - 1 && slots[i].Some?;
      assert (set i | 0 <= i < n && slots[i].Some?) == if slots[n - 1].Some? then before + {n - 1} else before;
    }
  }

  lemma CountPresent(slots: Slots, size: nat, j: nat)
    requires Uniform(slots, size) && j < size
    ensures Present(ColumnAt(slots, size, j)) == |PresentShards(slots)|
  {
    CountIsSize(slots, 5);
    assert CountUpTo(slots, 1) == CountUpTo(slots, 0) + (if slots[0].Some? then 1 else 0);
    assert CountUpTo(slots, 3) == CountUpTo(slots, 2) + (if slots[2].Some? then 1 else 0);
    assert CountUpTo(slots, 4) == CountUpTo(slots, 3) + (if slots[3].Some? then 1 else 0);
  }

  /** The size of some shard that is present; zero if none is. */
  function SizeOfFirst(slots: Slots): nat {
    if slots[0].Some? then |slots[0].value| else if slots[1].Some? then |slots[1].value|
    else if slots[2].Some? then |slots[2].value| else if slots[3].Some? then |slots[3].value|
    else if slots[4].Some? then |slots[4].value| else 0
  }

  /** The data shards, present or solved for; the codec refuses empty shards, unequal
      sizes, and fewer than three shards. */
  function CodecReconstruct(slots: Slots): (r: Result<seq<Bytes>, ErasureError>)
    ensures r.Ok? ==> |r.value| == 3
  {
    var size := SizeOfFirst(slots);
    if !Uniform(slots, size) || |PresentShards(slots)| < DATA_SHARDS then Err(CodecFailed)
    else Ok(seq(3, t requires 0 <= t < 3 => SolvedShard(slots, size, t)))
  }

  function SolvedShard(slots: Slots, size: nat, t: nat): (shard: Bytes)
    requires Uniform(slots, size) && |PresentShards(slots)| >= DATA_SHARDS && t < 3
    ensures |shard| == size
    ensures forall j :: 0 <= j < size ==>
              Present(ColumnAt(slots, size, j)) >= 3 && shard[j] == Recovered(ColumnAt(slots, size, j), t)
  {
    assert forall j :: 0 <= j < size ==> Present(ColumnAt(slots, size, j)) >= 3 by {
      forall j | 0 <= j < size
        ensures Present(ColumnAt(slots, size, j)) >= 3
      {
        CountPresent(slots, size, j);
      }
    }
    seq<Byte>(size, j requires 0 <= j < size && Present(ColumnAt(slots, size, j)) >= 3 =>
      Recovered(ColumnAt(slots, size, j), t))
  }

  const NO_SHARDS: Slots := [None, None, None, None, None]

  /** The shards put in their places, a later one replacing an earlier one. */
  function Place(received: seq<Shard>): Result<Slots, ErasureError> {
    if received == [] then Ok(NO_SHARDS)
    else
      var n := |received| - 1;
      match Place(received[..n])
      case Err(e) => Err(e)
      case Ok(slots) =>
        if received[n].0 >= TOTAL_SHARDS then Err(IndexOutOfRange(received[n].0))
        else Ok(slots[received[n].0 := Some(received[n].1)])
  }

  function Reconstruction(received: seq<Shard>): Result<Bytes, ErasureError> {
    if |received| < DATA_SHARDS then Err(TooFewShards(|received|))
    else
      match Place(received)
      case Err(e) => Err(e)
      case Ok(slots) =>
        match CodecReconstruct(slots)
        case Err(e) => Err(e)
        case Ok(shards) => Ok(shards[0] + shards[1] + shards[2])
  }

  lemma {:induction false} PlaceStops(received: seq<Shard>, k: nat)
    requires k <= |received| && Place(received[..k]).Err?
    ensures Place(received) == Place(received[..k])
  {
    if k < |received| {
      var n := |received| - 1;
      assert received[..n][..k] == received[..k];
      PlaceStops(received[..n], k);
    } else {
      assert received[..k] == received;
    }
  }

  /** The shard at `k` is the last one received for its index. */
  predicate LastOf(received: seq<Shard>, k: nat) {
    k < |received| && forall m :: k < m < |received| ==> received[m].0 != received[k].0
  }

  lemma LastOneMore(received: seq<Shard>, k: nat)
    requires received != [] && k < |received| - 1
    ensures LastOf(received, k) <==>
            LastOf(received[..|received| - 1], k) && received[k].0 != received[|received| - 1].0
  {
    var n := |received| - 1;
    assert forall m :: 0 <= m < n ==> received[..n][m] == received[m];
  }

  /** Each place holds the last shard received for it, and nothing if none was. */
  ghost predicate HoldsLast(slots: Slots, received: seq<Shard>) {
    && (forall k: nat :: LastOf(received, k) ==> received[k].0 < 5 && slots[received[k].0] == Some(received[k].1))
    && (forall i :: 0 <= i < 5 && slots[i].Some? ==> exists k: nat :: LastOf(received, k) && received[k].0 == i)
  }

  predicate FirstOutOfRange(received: seq<Shard>, k: nat) {
    k < |received| && received[k].0 >= 5 && forall m :: 0 <= m < k ==> received[m].0 < 5
  }

  lemma HoldsOneMore(slots: Slots, received: seq<Shard>)
    requires received != [] && HoldsLast(slots, received[..|received| - 1]) && received[|received| - 1].0 < 5
    ensures var last := received[|received| - 1]; HoldsLast(slots[last.0 := Some(last.1)], received)
  {
    var n := |received| - 1;
    var before, more := received[..n], slots[received[n].0 := Some(received[n].1)];
    forall k: nat | LastOf(received, k)
      ensures received[k].0 < 5 && more[received[k].0] == Some(received[k].1)
    {
      if k < n {
        LastOneMore(received, k);
        assert before[k] == received[k];
      }
    }
    forall i | 0 <= i < 5 && more[i].Some?
      ensures exists k: nat :: LastOf(received, k) && received[k].0 == i
    {
      if i == received[n].0 {
        assert LastOf(received, n);
      } else {
        var k: nat :| LastOf(before, k) && before[k].0 == i;
        LastOneMore(received, k);
      }
    }
  }

  /** The shards are put in their places, or the first index out of range is reported. */
  lemma {:induction false} PlaceHoldsLast(received: seq<Shard>)
    ensures Place(received).Ok? ==>
              HoldsLast(Place(received).value, received) && forall k :: 0 <= k < |received| ==> received[k].0 < 5
    ensures Place(received).Err? ==>
              exists k: nat :: FirstOutOfRange(received, k) && Place(received) == Err(IndexOutOfRange(received[k].0))
  {
    if received != [] {
      var n := |received| - 1;
      var before := received[..n];
      PlaceHoldsLast(before);
      assert forall m :: 0 <= m < n ==> before[m] == received[m];
      if Place(before).Err? {
        var k: nat :| FirstOutOfRange(before, k) && Place(before) == Err(IndexOutOfRange(before[k].0));
        assert FirstOutOfRange(received, k);
      } else if received[n].0 < 5 {
        HoldsOneMore(Place(before).value, received);
      } else {
        assert FirstOutOfRange(received, n);
      }
    }
  }

  method Reconstruct(received: seq<Shard>) returns (r: Result<Bytes, ErasureError>)
    ensures r == Reconstruction(received)
  {
    if |received| < DATA_SHARDS {
      return Err(TooFewShards(|received|));
    }
    var slots := NO_SHARDS;
    for k := 0 to |received|
      invariant Place(received[..k]) == Ok(slots)
    {
      var (idx, data) := received[k];
      assert received[..k + 1][..k] == received[..k];
      if idx >= TOTAL_SHARDS {
        PlaceStops(received, k + 1);
        return Err(IndexOutOfRange(idx));
      }
      slots := slots[idx := Some(data)];
    }
    assert received[..|received|] == received;
    var solved := CodecReconstruct(slots);
    if solved.Err? {
      return Err(solved.error);
    }
    var result: Bytes := [];
    for i := 0 to DATA_SHARDS
      invariant result == if i == 0 then [] else if i == 1 then solved.value[0]
                          else if i == 2 then solved.value[0] + solved.value[1]
                          else solved.value[0] + solved.value[1] + solved.value[2]
    {
      result := result + solved.value[i];
    }
    r := Ok(result);
  }
}
