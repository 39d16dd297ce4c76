/** Splitting a file into chunks and putting it together again, core/src/chunking.rs. */
module Chunking {
  import opened Basics

  const CHUNK_SIZE: nat := 4 * 1024 * 1024

  function Concat(chunks: seq<Bytes>): Bytes {
    if chunks == [] then [] else Concat(chunks[..|chunks| - 1]) + chunks[|chunks| - 1]
  }

  /** The chunks of `data`: in order, all of full size but perhaps the last, none empty. */
  ghost predicate IsChunking(data: Bytes, chunks: seq<Bytes>) {
    && Concat(chunks) == data
    && (forall i :: 0 <= i < |chunks| - 1 ==> |chunks[i]| == CHUNK_SIZE)
    && (forall i :: 0 <= i < |chunks| ==> 0 < |chunks[i]| <= CHUNK_SIZE)
  }

  lemma ConcatMore(chunks: seq<Bytes>, chunk: Bytes)
    ensures Concat(chunks + [chunk]) == Concat(chunks) + chunk
  {
  }

  method ChunkData(data: Bytes) returns (chunks: seq<Bytes>)
    ensures IsChunking(data, chunks)
    ensures |chunks| == ChunkCount(|data|)
    ensures |data| <= |chunks| * 4_194_304 && (data != [] ==> |chunks| * 4_194_304 < |data| + 4_194_304)
    ensures data == [] ==> chunks == []
  {
    chunks := [];
    if |data| == 0 {
      return;
    }
    var i := 0;
    while i < |data|
      invariant i == |chunks| * CHUNK_SIZE
      invariant i < |data| + CHUNK_SIZE
      invariant Concat(chunks) == data[..Min(i, |data|)]
      invariant forall k :: 0 <= k < |chunks| - 1 ==> |chunks[k]| == CHUNK_SIZE
      invariant forall k :: 0 <= k < |chunks| ==> 0 < |chunks[k]| <= CHUNK_SIZE
      invariant i <= |data| ==> forall k :: 0 <= k < |chunks| ==> |chunks[k]| == CHUNK_SIZE
    {
      var end := Min(i + CHUNK_SIZE, |data|);
      ConcatMore(chunks, data[i..end]);
      assert data[..i] + data[i..end] == data[..end];
      chunks := chunks + [data[i..end]];
      i := i + CHUNK_SIZE;
    }
    assert data[..|data|] == data;
  }

  method AssembleChunks(chunks: seq<Bytes>) returns (data: Bytes)
    ensures data == Concat(chunks)
  {
    data := [];
    for i := 0 to |chunks|
      invariant data == Concat(chunks[..i])
    {
      assert chunks[..i + 1] == chunks[..i] + [chunks[i]];
      ConcatMore(chunks[..i], chunks[i]);
      data := data + chunks[i];
    }
    assert chunks[..|chunks|] == chunks;
  }

  function ChunkCount(dataLen: nat): nat {
    if dataLen == 0 then 0 else (dataLen + CHUNK_SIZE - 1) / CHUNK_SIZE
  }

  lemma {:induction false} ConcatLength(chunks: seq<Bytes>)
    requires forall i :: 0 <= i < |chunks| ==> |chunks[i]| == CHUNK_SIZE
    ensures |Concat(chunks)| == |chunks| * CHUNK_SIZE
  {
    if chunks != [] {
      ConcatLength(chunks[..|chunks| - 1]);
    }
  }

  /** Putting together two lists of chunks, and a single one, in order. */
  lemma {:induction false} ConcatSplits(first: seq<Bytes>, second: seq<Bytes>, chunk: Bytes)
    ensures Concat(first + second) == Concat(first) + Concat(second) && Concat([chunk]) == chunk
  {
    assert [chunk][..0] == [];
    if second == [] {
      assert first + second == first;
    } else {
      var n := |second| - 1;
      ConcatSplits(first, second[..n], chunk);
      assert (first + second)[..|first| + n] == first + second[..n];
    }
  }

  /** A file has only one chunking: every chunk holds four mebibytes, but the last perhaps
      fewer, from the corresponding multiple on. */
  lemma {:induction false} ChunkingIsUnique(data: Bytes, chunks: seq<Bytes>, k: nat)
    requires IsChunking(data, chunks) && k < |chunks|
    ensures k * 4_194_304 < |data|
    ensures chunks[k] == data[k * 4_194_304..Min(k * 4_194_304 + 4_194_304, |data|)]
    ensures |chunks| == ChunkCount(|data|)
    decreases |chunks|
  {
    var n := |chunks| - 1;
    var whole := chunks[..n];
    ConcatLength(whole);
    assert data == Concat(whole) + chunks[n];
    if k < n {
      ChunkingIsUnique(Concat(whole), whole, k);
    }
  }
}
