/**
  Reading the ledger and computing its root, ledger/src/store.rs and ledger/src/schema.rs:
  one vector of hashes, overwritten level by level. Rows are given by their serialised text,
  in order of sequence number; the numbers run from one without gaps.
 */
module LedgerStore {
  import opened Basics
  import opened Merkle
  import opened MerklePaths
  import opened MerkleInputs
  import Hex

  /** At most this many rows go into the root. */
  const ROW_LIMIT: nat := 100_000

  /** At most this many rows answer a request for entries. */
  const ANSWER_LIMIT: nat := 10_000

  /** The text `empty`. */
  const EMPTY_LEDGER: Bytes := [0x65, 0x6D, 0x70, 0x74, 0x79]

  /** The rows numbered above `fromSeq`, in order, at most `limit` of them. */
  function EntriesFrom(rows: seq<Bytes>, fromSeq: int, limit: nat): seq<Bytes> {
    var start := Min(Max(0, fromSeq), |rows|);
    rows[start..Min(start + limit, |rows|)]
  }

  /** What is read are the rows from the first numbered above `fromSeq` on, in their order, up
      to the limit or the last row. */
  lemma EntriesAreConsecutive(rows: seq<Bytes>, fromSeq: int, limit: nat)
    ensures var read, skipped := EntriesFrom(rows, fromSeq, limit), if fromSeq > 0 then fromSeq else 0;
      && (forall k :: 0 <= k < |read| ==> skipped + k < |rows| && read[k] == rows[skipped + k])
      && |read| <= limit && (|read| < limit ==> skipped + |read| >= |rows|)
  {
  }

  /** Different rows are read by number: those in the window that opens at `fromSeq`. */
  lemma EntryIsRead(rows: seq<Bytes>, fromSeq: int, limit: nat, n: nat)
    requires NoDuplicates(rows) && 1 <= n <= |rows|
    ensures rows[n - 1] in EntriesFrom(rows, fromSeq, limit) <==> fromSeq < n <= Max(0, fromSeq) + limit
  {
    var start := Min(Max(0, fromSeq), |rows|);
    if fromSeq < n <= Max(0, fromSeq) + limit {
      assert EntriesFrom(rows, fromSeq, limit)[n - 1 - start] == rows[n - 1];
    }
  }

  /** The answer to a request for entries. */
  function Answer(rows: seq<Bytes>, fromSeq: int): seq<Bytes> {
    EntriesFrom(rows, fromSeq, ANSWER_LIMIT)
  }

  /** The rows the root is computed over. */
  function RowsRead(rows: seq<Bytes>): seq<Bytes> {
    EntriesFrom(rows, 0, ROW_LIMIT)
  }

  function LedgerRoot(h: HashFunction, rows: seq<Bytes>): Digest {
    if rows == [] then h(EMPTY_LEDGER) else Root(h, LeafHashes(h, RowsRead(rows)))
  }

  method ComputeMerkleRoot(h: HashFunction, rows: seq<Bytes>) returns (root: string)
    ensures root == Hex.Encode(LedgerRoot(h, rows))
    ensures rows == [] ==> root == Hex.Encode(h([0x65, 0x6D, 0x70, 0x74, 0x79]))
    ensures rows != [] ==>
              exists layers, top: Digest ::
                root == Hex.Encode(top) && BuiltUp(h, LeafHashes(h, rows[..Min(|rows|, 100_000)]), layers, top)
  {
    var entries := RowsRead(rows);
    if |entries| == 0 {
      return Hex.Encode(h(EMPTY_LEDGER));
    }
    var hashes := LeafHashes(h, entries);
    while |hashes| > 1
      invariant hashes != []
      invariant Root(h, hashes) == LedgerRoot(h, rows)
      decreases |hashes|
    {
      var nextLevel := [];
      var i := 0;
      while i < |hashes|
        invariant i % 2 == 0 && 0 <= i <= |hashes| + 1
        invariant |nextLevel| == i / 2
        invariant forall k :: 0 <= k < |nextLevel| ==> nextLevel[k] == h(ParentInput(hashes, k))
      {
        var left := hashes[i];
        var right := if i + 1 < |hashes| then hashes[i + 1] else hashes[i];
        assert Join(left, right) == ParentInput(hashes, i / 2);
        nextLevel := nextLevel + [h(Join(left, right))];
        i := i + 2;
      }
      assert nextLevel == NextLayer(h, hashes);
      hashes := nextLevel;
    }
    root := Hex.Encode(hashes[0]);
    LayersBuiltUp(h, LeafHashes(h, entries));
    assert entries == rows[..Min(|rows|, 100_000)];
    assert BuiltUp(h, LeafHashes(h, entries), Layers(h, LeafHashes(h, entries)), hashes[0]);
  }

  /** The overwriting loop and the layered builder agree: a tree over the rows read has
      the ledger's root, in its root field and alone in its top layer. */
  lemma SameRootAsTree(h: HashFunction, rows: seq<Bytes>, tree: MerkleTree)
    requires rows != [] && IsTreeOf(h, tree, LeafHashes(h, RowsRead(rows)))
    ensures tree.root == LedgerRoot(h, rows)
    ensures tree.layers != [] && tree.layers[|tree.layers| - 1] == [LedgerRoot(h, rows)]
  {
    LayerHoldsNodes(h, tree.leaves, |tree.layers| - 1);
  }

  lemma EncodeInjective(a: Digest, b: Digest)
    requires Hex.Encode(a) == Hex.Encode(b)
    ensures a == b
  {
    Hex.RoundTrip(a);
    Hex.RoundTrip(b);
  }

  /** Two inputs with one digest, to be found wherever different rows give one root. */
  function LedgerCollision(h: HashFunction, mine: seq<Bytes>, theirs: seq<Bytes>): Option<Collision> {
    if mine == [] && theirs == [] then None
    else if mine == [] then Some(Collision(EMPTY_LEDGER, Top(h, RowsRead(theirs))))
    else if theirs == [] then Some(Collision(EMPTY_LEDGER, Top(h, RowsRead(mine))))
    else AnyCollision(h, RowsRead(mine), RowsRead(theirs))
  }

  lemma TopIsLong(h: HashFunction, chunks: seq<Bytes>)
    requires chunks != [] && Distinguishable(chunks)
    ensures |Top(h, chunks)| >= 64
  {
  }

  lemma EmptyOrNot(h: HashFunction, rows: seq<Bytes>)
    requires rows != [] && Distinguishable(rows) && h(EMPTY_LEDGER) == LedgerRoot(h, rows)
    ensures IsCollision(h, Some(Collision(EMPTY_LEDGER, Top(h, RowsRead(rows)))))
  {
    TopIsLong(h, RowsRead(rows));
    TopIsHashedForRoot(h, RowsRead(rows));
  }

  /** Two ledgers that advertise the same root have read the same rows, or a collision is
      computed, if they have the same size or the rows are all different and longer than a
      pair of digests. Rows beyond the limit are not covered. */
  lemma SameRootSameRows(h: HashFunction, mine: seq<Bytes>, theirs: seq<Bytes>)
    requires |mine| == |theirs| || (Distinguishable(mine) && Distinguishable(theirs))
    requires Hex.Encode(LedgerRoot(h, mine)) == Hex.Encode(LedgerRoot(h, theirs))
    ensures RowsRead(mine) == RowsRead(theirs) || IsCollision(h, LedgerCollision(h, mine, theirs))
    ensures |mine| <= ROW_LIMIT && |theirs| <= ROW_LIMIT ==>
              mine == theirs || IsCollision(h, LedgerCollision(h, mine, theirs))
  {
    EncodeInjective(LedgerRoot(h, mine), LedgerRoot(h, theirs));
    if mine != [] && theirs != [] {
      if |mine| == |theirs| {
        ChunkBinding(h, RowsRead(mine), RowsRead(theirs));
      } else {
        BindingAtAnyLength(h, RowsRead(mine), RowsRead(theirs));
      }
    } else if theirs != [] {
      EmptyOrNot(h, theirs);
    } else if mine != [] {
      EmptyOrNot(h, mine);
    }
    assert |mine| <= ROW_LIMIT ==> RowsRead(mine) == mine;
    assert |theirs| <= ROW_LIMIT ==> RowsRead(theirs) == theirs;
  }

  /** Appended rows leave the root as it is exactly if there are none or the ledger was full,
      or a collision is computed. */
  lemma AppendedRowsUnseen(h: HashFunction, rows: seq<Bytes>, more: seq<Bytes>)
    requires Distinguishable(rows + more)
    ensures (LedgerRoot(h, rows + more) == LedgerRoot(h, rows) <==> more == [] || |rows| >= ROW_LIMIT)
            || IsCollision(h, LedgerCollision(h, rows, rows + more))
  {
    if more == [] {
      assert rows + more == rows;
    } else if |rows| >= ROW_LIMIT {
      RowsBeyondLimitUnseen(h, rows, more);
    } else if LedgerRoot(h, rows + more) == LedgerRoot(h, rows) {
      assert Distinguishable(rows) by {
        assert forall i :: 0 <= i < |rows| ==> rows[i] == (rows + more)[i];
      }
      SameRootSameRows(h, rows, rows + more);
      assert |RowsRead(rows)| < |RowsRead(rows + more)|;
    }
  }

  /** Rows appended to a full ledger do not reach the root. */
  lemma RowsBeyondLimitUnseen(h: HashFunction, rows: seq<Bytes>, more: seq<Bytes>)
    requires |rows| >= ROW_LIMIT
    ensures LedgerRoot(h, rows + more) == LedgerRoot(h, rows)
  {
    assert RowsRead(rows + more) == RowsRead(rows);
  }
}
