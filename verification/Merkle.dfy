/**
  The Merkle tree of core/src/merkle.rs: building it level by level, generating the
  path of a leaf, and verifying a path. The hash function is a parameter `h`.
 */
module Merkle {
  import opened Basics

  type HashFunction = Bytes -> Digest

  // ---------- What the tree is ----------

  /** The 64 bytes hashed for a pair of neighbours. */
  function Join(left: Digest, right: Digest): Bytes {
    var l: Bytes, r: Bytes := left, right;
    l + r
  }

  /** The bytes hashed for the node above positions `2 * i` and `2 * i + 1`: a last
      node without a right neighbour is paired with itself. */
  function ParentInput(layer: seq<Digest>, i: nat): Bytes
    requires 2 * i < |layer|
  {
    Join(layer[2 * i], layer[if 2 * i + 1 < |layer| then 2 * i + 1 else 2 * i])
  }

  function NextLayer(h: HashFunction, layer: seq<Digest>): (next: seq<Digest>)
    ensures |next| == (|layer| + 1) / 2
    ensures forall i :: 0 <= i < |next| ==> next[i] == h(ParentInput(layer, i))
  {
    seq<Digest>((|layer| + 1) / 2, i requires 0 <= i < (|layer| + 1) / 2 => h(ParentInput(layer, i)))
  }

  function Root(h: HashFunction, layer: seq<Digest>): Digest
    requires layer != []
    decreases |layer|
  {
    if |layer| == 1 then layer[0] else Root(h, NextLayer(h, layer))
  }

  function Layers(h: HashFunction, layer: seq<Digest>): (layers: seq<seq<Digest>>)
    requires layer != []
    ensures layers != [] && layers[0] == layer
    decreases |layer|
  {
    if |layer| == 1 then [layer] else [layer] + Layers(h, NextLayer(h, layer))
  }

  datatype MerkleTree = MerkleTree(leaves: seq<Digest>, layers: seq<seq<Digest>>, root: Digest)

  ghost predicate IsTreeOf(h: HashFunction, tree: MerkleTree, leaves: seq<Digest>) {
    && tree.leaves == leaves
    && (leaves == [] ==> tree.layers == [] && tree.root == h([]))
    && (leaves != [] ==> tree.layers == Layers(h, leaves) && tree.root == Root(h, leaves))
  }

  // ---------- The tree without recursion ----------

  /** One layer above another: over two neighbours stands the digest of the left one
      followed by the right one, over a last node without neighbour that of the node twice. */
  ghost predicate StandsOn(h: HashFunction, above: seq<Digest>, below: seq<Digest>) {
    && |above| == (|below| + 1) / 2
    && forall i :: 0 <= i < |above| ==>
         var left: Bytes, right: Bytes := below[2 * i], below[if 2 * i + 1 < |below| then 2 * i + 1 else 2 * i];
         above[i] == h(left + right)
  }

  /** Layer upon layer, from the leaves to the root alone. */
  ghost predicate BuiltUp(h: HashFunction, leaves: seq<Digest>, layers: seq<seq<Digest>>, root: Digest) {
    && layers != [] && layers[0] == leaves && layers[|layers| - 1] == [root]
    && forall k :: 0 <= k < |layers| - 1 ==> |layers[k]| > 1 && StandsOn(h, layers[k + 1], layers[k])
  }

  lemma {:induction false} LayersBuiltUp(h: HashFunction, leaves: seq<Digest>)
    requires leaves != []
    ensures BuiltUp(h, leaves, Layers(h, leaves), Root(h, leaves))
    decreases |leaves|
  {
    if |leaves| > 1 {
      var next, layers := NextLayer(h, leaves), Layers(h, leaves);
      LayersBuiltUp(h, next);
      assert layers == [leaves] + Layers(h, next);
      forall k | 0 <= k < |layers| - 1
        ensures |layers[k]| > 1 && StandsOn(h, layers[k + 1], layers[k])
      {
        if k > 0 {
          assert layers[k] == Layers(h, next)[k - 1] && layers[k + 1] == Layers(h, next)[k];
        }
      }
    }
  }

  lemma {:induction false} BuiltUpIsLayers(h: HashFunction, leaves: seq<Digest>, layers: seq<seq<Digest>>, root: Digest)
    requires BuiltUp(h, leaves, layers, root)
    ensures leaves != [] && layers == Layers(h, leaves) && root == Root(h, leaves)
    decreases |layers|
  {
    if |layers| > 1 {
      assert StandsOn(h, layers[1], layers[0]);
      assert layers[1] == NextLayer(h, leaves);
      forall k | 0 <= k < |layers[1..]| - 1
        ensures |layers[1..][k]| > 1 && StandsOn(h, layers[1..][k + 1], layers[1..][k])
      {
        assert layers[1..][k] == layers[k + 1] && layers[1..][k + 1] == layers[k + 2];
      }
      BuiltUpIsLayers(h, layers[1], layers[1..], root);
      assert layers == [leaves] + layers[1..];
    }
  }

  /** The recursive definitions are the layers built up, and no others. */
  lemma LayersIffBuiltUp(h: HashFunction, leaves: seq<Digest>, layers: seq<seq<Digest>>, root: Digest)
    requires leaves != []
    ensures layers == Layers(h, leaves) && root == Root(h, leaves) <==> BuiltUp(h, leaves, layers, root)
  {
    LayersBuiltUp(h, leaves);
    if BuiltUp(h, leaves, layers, root) {
      BuiltUpIsLayers(h, leaves, layers, root);
    }
  }

  /** The root over two digests. */
  lemma RootOfTwo(h: HashFunction, a: Digest, b: Digest)
    ensures var left: Bytes, right: Bytes := a, b; Root(h, [a, b]) == h(left + right)
  {
  }

  // ---------- Building it ----------

  /** The layers so far end with `current`, and building on from there gives the rest. */
  ghost predicate BuiltUpTo(h: HashFunction, leaves: seq<Digest>, layers: seq<seq<Digest>>, current: seq<Digest>)
    requires leaves != []
  {
    && current != [] && layers != [] && layers[|layers| - 1] == current
    && layers[..|layers| - 1] + Layers(h, current) == Layers(h, leaves)
    && Root(h, current) == Root(h, leaves)
  }

  lemma LayerAdded(h: HashFunction, leaves: seq<Digest>, layers: seq<seq<Digest>>, current: seq<Digest>)
    requires leaves != [] && BuiltUpTo(h, leaves, layers, current) && |current| > 1
    ensures BuiltUpTo(h, leaves, layers + [NextLayer(h, current)], NextLayer(h, current))
  {
  }

  method FromHashes(h: HashFunction, leaves: seq<Digest>) returns (tree: MerkleTree)
    ensures IsTreeOf(h, tree, leaves)
    ensures leaves != [] ==> BuiltUp(h, leaves, tree.layers, tree.root)
  {
    if |leaves| == 0 {
      return MerkleTree([], [], h([]));
    }
    var layers := [leaves];
    var current := leaves;
    while |current| > 1
      invariant BuiltUpTo(h, leaves, layers, current)
      decreases |current|
    {
      var next := [];
      var i := 0;
      while i < |current|
        invariant i % 2 == 0 && 0 <= i <= |current| + 1
        invariant |next| == i / 2
        invariant forall k :: 0 <= k < |next| ==> next[k] == h(ParentInput(current, k))
      {
        var left := current[i];
        var right := if i + 1 < |current| then current[i + 1] else current[i];
        assert Join(left, right) == ParentInput(current, i / 2);
        next := next + [h(Join(left, right))];
        i := i + 2;
      }
      assert next == NextLayer(h, current);
      LayerAdded(h, leaves, layers, current);
      layers := layers + [next];
      current := next;
    }
    assert layers == layers[..|layers| - 1] + Layers(h, current);
    tree := MerkleTree(leaves, layers, current[0]);
    LayersBuiltUp(h, leaves);
  }

  function LeafHashes(h: HashFunction, chunks: seq<Bytes>): (leaves: seq<Digest>)
    ensures |leaves| == |chunks|
    ensures forall i :: 0 <= i < |leaves| ==> leaves[i] == h(chunks[i])
  {
    seq<Digest>(|chunks|, i requires 0 <= i < |chunks| => h(chunks[i]))
  }

  method FromChunks(h: HashFunction, chunks: seq<Bytes>) returns (tree: MerkleTree)
    ensures IsTreeOf(h, tree, LeafHashes(h, chunks))
  {
    tree := FromHashes(h, LeafHashes(h, chunks));
  }

  // ---------- An independent description of the layers ----------

  /** Number of nodes at a height above `n` leaves. */
  function Width(n: nat, height: nat): nat {
    if height == 0 then n else (Width(n, height - 1) + 1) / 2
  }

  /** The digest at a position, computed downwards from that position alone. */
  function Node(h: HashFunction, leaves: seq<Digest>, height: nat, i: nat): Digest
    requires i < Width(|leaves|, height)
    decreases height
  {
    if height == 0 then leaves[i]
    else
      var below := Width(|leaves|, height - 1);
      h(Join(Node(h, leaves, height - 1, 2 * i),
             Node(h, leaves, height - 1, if 2 * i + 1 < below then 2 * i + 1 else 2 * i)))
  }

  function Pow2(k: nat): nat {
    if k == 0 then 1 else 2 * Pow2(k - 1)
  }

  lemma Scale(a: int, b: int, p: nat)
    requires a <= b
    ensures a * p <= b * p
  {
  }

  lemma Twice(w: int, p: int)
    ensures w * (2 * p) == (2 * w) * p
  {
  }

  lemma HalvedCeiling(n: nat, below: nat, w: nat, p: nat)
    requires w == (below + 1) / 2
    requires n <= below * p && (n > 0 ==> (below - 1) * p < n)
    ensures n <= w * (2 * p) && (n > 0 ==> (w - 1) * (2 * p) < n)
  {
    Twice(w, p);
    Twice(w - 1, p);
    Scale(below, 2 * w, p);
    Scale(2 * w - 2, below - 1, p);
  }

  /** A layer has the leaf count divided by a power of two, rounded up. */
  lemma {:induction false} WidthIsCeiling(n: nat, height: nat)
    ensures n <= Width(n, height) * Pow2(height)
    ensures n > 0 ==> (Width(n, height) - 1) * Pow2(height) < n
  {
    if height > 0 {
      WidthIsCeiling(n, height - 1);
      HalvedCeiling(n, Width(n, height - 1), Width(n, height), Pow2(height - 1));
    }
  }

  lemma {:induction false} NodeOfNextLayer(h: HashFunction, leaves: seq<Digest>, height: nat, i: nat)
    requires leaves != []
    ensures Width(|leaves|, height + 1) == Width(|NextLayer(h, leaves)|, height)
    ensures i < Width(|leaves|, height + 1) ==>
              Node(h, leaves, height + 1, i) == Node(h, NextLayer(h, leaves), height, i)
  {
    if height == 0 {
    } else {
      NodeOfNextLayer(h, leaves, height - 1, 2 * i);
      var below := Width(|leaves|, height);
      NodeOfNextLayer(h, leaves, height - 1, if 2 * i + 1 < below then 2 * i + 1 else 2 * i);
    }
  }

  /** The layered builder holds, at every height and position, the digest described
      by `Node`; only the top layer is a single node, and that node is the root. */
  lemma {:induction false} LayerHoldsNodes(h: HashFunction, leaves: seq<Digest>, height: nat)
    requires leaves != [] && height < |Layers(h, leaves)|
    ensures |Layers(h, leaves)[height]| == Width(|leaves|, height)
    ensures forall i :: 0 <= i < Width(|leaves|, height) ==>
              Layers(h, leaves)[height][i] == Node(h, leaves, height, i)
    ensures height < |Layers(h, leaves)| - 1 ==> Width(|leaves|, height) > 1
    ensures height == |Layers(h, leaves)| - 1 ==> Layers(h, leaves)[height] == [Root(h, leaves)]
    decreases height
  {
    if height > 0 {
      var next := NextLayer(h, leaves);
      assert Layers(h, leaves) == [leaves] + Layers(h, next);
      assert Layers(h, leaves)[height] == Layers(h, next)[height - 1];
      LayerHoldsNodes(h, next, height - 1);
      NodeOfNextLayer(h, leaves, height - 1, 0);
      forall i | 0 <= i < Width(|leaves|, height)
        ensures Layers(h, leaves)[height][i] == Node(h, leaves, height, i)
      {
        NodeOfNextLayer(h, leaves, height - 1, i);
      }
    }
  }

  /** There are `1 + ceil(log2 n)` layers. */
  lemma LayerCount(h: HashFunction, leaves: seq<Digest>)
    requires leaves != []
    ensures var top := |Layers(h, leaves)| - 1;
      |leaves| <= Pow2(top) && (top > 0 ==> Pow2(top - 1) < |leaves|)
  {
    var top := |Layers(h, leaves)| - 1;
    LayerHoldsNodes(h, leaves, top);
    WidthIsCeiling(|leaves|, top);
    if top > 0 {
      LayerHoldsNodes(h, leaves, top - 1);
      WidthIsCeiling(|leaves|, top - 1);
      Scale(1, Width(|leaves|, top - 1) - 1, Pow2(top - 1));
    }
  }
}
