/**
  Merkle paths: generating and verifying them as core/src/merkle.rs does, and what an
  accepted path proves. Binding and soundness are stated without assuming the hash
  injective: whenever they would fail, a function computes two different inputs with
  the same digest.
 */
module MerklePaths {
  import opened Basics
  import opened Merkle
  import Hex

  // ---------- Proofs as they travel: digests in hexadecimal ----------

  datatype ProofNode = ProofNode(hash: string, isRight: bool)

  datatype MerkleProof = MerkleProof(leafIndex: nat, leafHash: string, siblings: seq<ProofNode>, root: string)

  datatype Step = Step(sibling: Digest, isRight: bool)

  function StepInput(current: Digest, step: Step): Bytes {
    if step.isRight then Join(current, step.sibling) else Join(step.sibling, current)
  }

  function Fold(h: HashFunction, current: Digest, path: seq<Step>): Digest
    decreases path
  {
    if path == [] then current else Fold(h, h(StepInput(current, path[0])), path[1..])
  }

  function ParseSiblings(siblings: seq<ProofNode>): (path: Option<seq<Step>>)
    ensures path.Some? ==> |path.value| == |siblings|
  {
    if siblings == [] then Some([])
    else
      match (Hex.ParseDigest(siblings[0].hash), ParseSiblings(siblings[1..]))
      case (Some(digest), Some(rest)) => Some([Step(digest, siblings[0].isRight)] + rest)
      case _ => None
  }

  /** A well-formed proof whose siblings lead from its leaf to its root. */
  predicate Accepts(h: HashFunction, proof: MerkleProof) {
    var leaf, path, root := Hex.ParseDigest(proof.leafHash), ParseSiblings(proof.siblings), Hex.ParseDigest(proof.root);
    leaf.Some? && path.Some? && root.Some? && Fold(h, leaf.value, path.value) == root.value
  }

  /** The next digest is that of the current one and the sibling, one after the other, the
      sibling last if it is on the right. */
  ghost predicate ChainStep(h: HashFunction, node: ProofNode, current: Bytes, sibling: Bytes, next: Digest) {
    && |sibling| == 32 && Hex.Denotes(node.hash, sibling)
    && next == h(if node.isRight then current + sibling else sibling + current)
  }

  /** `path` leads step by step from the leaf to the root. */
  ghost predicate ChainFrom(h: HashFunction, leaf: Digest, nodes: seq<ProofNode>, root: Digest,
                            path: seq<Digest>, siblings: seq<Digest>) {
    && |siblings| == |nodes| && |path| == |nodes| + 1 && path[0] == leaf && path[|nodes|] == root
    && forall k :: 0 <= k < |nodes| ==> ChainStep(h, nodes[k], path[k], siblings[k], path[k + 1])
  }

  lemma ChainOneMore(h: HashFunction, leaf: Digest, nodes: seq<ProofNode>, root: Digest,
                     path: seq<Digest>, siblings: seq<Digest>, s: Digest)
    requires nodes != [] && Hex.Denotes(nodes[0].hash, s)
    requires ChainFrom(h, h(StepInput(leaf, Step(s, nodes[0].isRight))), nodes[1..], root, path, siblings)
    ensures ChainFrom(h, leaf, nodes, root, [leaf] + path, [s] + siblings)
  {
    var longer, all := [leaf] + path, [s] + siblings;
    forall k | 0 <= k < |nodes|
      ensures ChainStep(h, nodes[k], longer[k], all[k], longer[k + 1])
    {
      if k > 0 {
        assert ChainStep(h, nodes[1..][k - 1], path[k - 1], siblings[k - 1], path[k]);
      }
    }
  }

  lemma ChainOneLess(h: HashFunction, leaf: Digest, nodes: seq<ProofNode>, root: Digest,
                     path: seq<Digest>, siblings: seq<Digest>)
    requires nodes != [] && ChainFrom(h, leaf, nodes, root, path, siblings)
    ensures Hex.Denotes(nodes[0].hash, siblings[0])
    ensures ChainFrom(h, h(StepInput(leaf, Step(siblings[0], nodes[0].isRight))), nodes[1..], root,
                      path[1..], siblings[1..])
  {
    assert ChainStep(h, nodes[0], path[0], siblings[0], path[1]);
    forall k | 0 <= k < |nodes[1..]|
      ensures ChainStep(h, nodes[1..][k], path[1..][k], siblings[1..][k], path[1..][k + 1])
    {
      assert ChainStep(h, nodes[k + 1], path[k + 1], siblings[k + 1], path[k + 2]);
    }
  }

  lemma {:induction false} FoldIffChain(h: HashFunction, leaf: Digest, nodes: seq<ProofNode>, root: Digest)
    ensures ParseSiblings(nodes).Some? && Fold(h, leaf, ParseSiblings(nodes).value) == root
       <==> exists path, siblings :: ChainFrom(h, leaf, nodes, root, path, siblings)
    decreases nodes
  {
    if nodes == [] {
      if leaf == root {
        assert ChainFrom(h, leaf, nodes, root, [leaf], []);
      }
    } else {
      var parsed := Hex.ParseDigest(nodes[0].hash);
      if parsed.Some? {
        var s := parsed.value;
        var next := h(StepInput(leaf, Step(s, nodes[0].isRight)));
        Hex.ParseDigestIff(nodes[0].hash, s);
        FoldIffChain(h, next, nodes[1..], root);
        if path, siblings :| ChainFrom(h, next, nodes[1..], root, path, siblings) {
          ChainOneMore(h, leaf, nodes, root, path, siblings, s);
        }
      }
      forall path, siblings | ChainFrom(h, leaf, nodes, root, path, siblings)
        ensures ParseSiblings(nodes).Some? && Fold(h, leaf, ParseSiblings(nodes).value) == root
      {
        ChainOneLess(h, leaf, nodes, root, path, siblings);
        Hex.ParseDigestIff(nodes[0].hash, siblings[0]);
      }
    }
  }

  /** A proof as received is accepted exactly if its leaf, siblings and root are digests in
      hexadecimal and some chain leads from the leaf to the root. */
  lemma AcceptsIffChain(h: HashFunction, proof: MerkleProof)
    ensures Accepts(h, proof) <==>
            exists leaf: Digest, root: Digest, path, siblings ::
              Hex.Denotes(proof.leafHash, leaf) && Hex.Denotes(proof.root, root)
              && ChainFrom(h, leaf, proof.siblings, root, path, siblings)
  {
    if Accepts(h, proof) {
      var leaf, root := Hex.ParseDigest(proof.leafHash).value, Hex.ParseDigest(proof.root).value;
      Hex.ParseDigestIff(proof.leafHash, leaf);
      Hex.ParseDigestIff(proof.root, root);
      FoldIffChain(h, leaf, proof.siblings, root);
    }
    forall leaf: Digest, root: Digest, path, siblings
      | Hex.Denotes(proof.leafHash, leaf) && Hex.Denotes(proof.root, root)
        && ChainFrom(h, leaf, proof.siblings, root, path, siblings)
      ensures Accepts(h, proof)
    {
      Hex.ParseDigestIff(proof.leafHash, leaf);
      Hex.ParseDigestIff(proof.root, root);
      FoldIffChain(h, leaf, proof.siblings, root);
    }
  }

  method VerifyProof(h: HashFunction, proof: MerkleProof) returns (ok: bool)
    ensures ok <==> Accepts(h, proof)
  {
    var leaf := Hex.ParseDigest(proof.leafHash);
    if leaf.None? {
      return false;
    }
    var current := leaf.value;
    var k := 0;
    assert proof.siblings[0..] == proof.siblings;
    while k < |proof.siblings|
      invariant 0 <= k <= |proof.siblings|
      invariant ParseSiblings(proof.siblings).Some? <==> ParseSiblings(proof.siblings[k..]).Some?
      invariant ParseSiblings(proof.siblings).Some? ==>
                  Fold(h, leaf.value, ParseSiblings(proof.siblings).value) ==
                  Fold(h, current, ParseSiblings(proof.siblings[k..]).value)
    {
      assert proof.siblings[k..][1..] == proof.siblings[k + 1..];
      var digest := Hex.ParseDigest(proof.siblings[k].hash);
      if digest.None? {
        return false;
      }
      var step := Step(digest.value, proof.siblings[k].isRight);
      assert ParseSiblings(proof.siblings[k..]).Some? ==>
          ParseSiblings(proof.siblings[k..]).value[1..] == ParseSiblings(proof.siblings[k + 1..]).value;
      current := h(StepInput(current, step));
      k := k + 1;
    }
    var root := Hex.ParseDigest(proof.root);
    ok := root.Some? && current == root.value;
  }

  // ---------- Generating a path ----------

  function Sibling(layer: seq<Digest>, i: nat): Digest
    requires i < |layer|
  {
    var other := if i % 2 == 0 then i + 1 else i - 1;
    if other < |layer| then layer[other] else layer[i]
  }

  /** Each layer has a position above position `i` of the first one. */
  predicate Stacked(layers: seq<seq<Digest>>, i: nat) {
    layers != [] ==> i < |layers[0]| && Stacked(layers[1..], i / 2)
  }

  /** The siblings met when climbing from position `i` through the given layers. */
  function Climb(layers: seq<seq<Digest>>, i: nat): (path: seq<Step>)
    requires Stacked(layers, i)
    ensures |path| == |layers|
  {
    if layers == [] then []
    else [Step(Sibling(layers[0], i), i % 2 == 0)] + Climb(layers[1..], i / 2)
  }

  function Written(path: seq<Step>): (nodes: seq<ProofNode>)
    ensures |nodes| == |path|
    ensures forall k :: 0 <= k < |path| ==> nodes[k] == ProofNode(Hex.Encode(path[k].sibling), path[k].isRight)
  {
    seq(|path|, k requires 0 <= k < |path| => ProofNode(Hex.Encode(path[k].sibling), path[k].isRight))
  }

  lemma {:induction false} LayersAreStacked(h: HashFunction, leaves: seq<Digest>, i: nat)
    requires i < |leaves|
    ensures Stacked(Layers(h, leaves), i)
    decreases |leaves|
  {
    if |leaves| > 1 {
      LayersAreStacked(h, NextLayer(h, leaves), i / 2);
      assert Layers(h, leaves)[1..] == Layers(h, NextLayer(h, leaves));
    } else {
      assert Layers(h, leaves)[1..] == [];
    }
  }

  lemma {:induction false} StackedPrefix(layers: seq<seq<Digest>>, i: nat, n: nat)
    requires Stacked(layers, i) && n <= |layers|
    ensures Stacked(layers[..n], i) && Climb(layers[..n], i) == Climb(layers, i)[..n]
  {
    if n > 0 {
      StackedPrefix(layers[1..], i / 2, n - 1);
      assert layers[..n][1..] == layers[1..][..n - 1];
    }
  }

  /** The proof as generated: the loop also visits the root layer. */
  function Generated(h: HashFunction, leaves: seq<Digest>, i: nat): MerkleProof
    requires i < |leaves|
  {
    LayersAreStacked(h, leaves, i);
    MerkleProof(i, Hex.Encode(leaves[i]), Written(Climb(Layers(h, leaves), i)), Hex.Encode(Root(h, leaves)))
  }

  method Proof(h: HashFunction, tree: MerkleTree, index: nat) returns (proof: Option<MerkleProof>)
    requires IsTreeOf(h, tree, tree.leaves)
    ensures proof.None? <==> index >= |tree.leaves|
    ensures proof.Some? ==> proof.value == Generated(h, tree.leaves, index)
    ensures proof.Some? ==>
              && proof.value.leafIndex == index && proof.value.leafHash == Hex.Encode(tree.leaves[index])
              && proof.value.root == Hex.Encode(tree.root) && |proof.value.siblings| == |tree.layers|
  {
    if index >= |tree.leaves| {
      return None;
    }
    LayersAreStacked(h, tree.leaves, index);
    ghost var path := Climb(tree.layers, index);
    var siblings: seq<ProofNode> := [];
    var idx: nat := index;
    var k := 0;
    while k < |tree.layers|
      invariant 0 <= k <= |tree.layers| && |siblings| == k
      invariant Stacked(tree.layers[k..], idx)
      invariant Climb(tree.layers[k..], idx) == path[k..]
      invariant siblings == Written(path)[..k]
    {
      var layer := tree.layers[k];
      assert tree.layers[k..][1..] == tree.layers[k + 1..];
      assert path[k] == path[k..][0] && path[k + 1..] == path[k..][1..];
      var siblingIdx := if idx % 2 == 0 then idx + 1 else idx - 1;
      var sibling := if siblingIdx < |layer| then layer[siblingIdx] else layer[idx];
      siblings := siblings + [ProofNode(Hex.Encode(sibling), idx % 2 == 0)];
      idx := idx / 2;
      k := k + 1;
    }
    proof := Some(MerkleProof(index, Hex.Encode(tree.leaves[index]), siblings, Hex.Encode(tree.root)));
  }

  // ---------- Completeness ----------

  /** The layers a path has to cross: all but the root's own. */
  function Crossed(h: HashFunction, leaves: seq<Digest>): (layers: seq<seq<Digest>>)
    requires leaves != []
    ensures |layers| == |Layers(h, leaves)| - 1
  {
    var layers := Layers(h, leaves);
    layers[..|layers| - 1]
  }

  function Path(h: HashFunction, leaves: seq<Digest>, i: nat): (path: seq<Step>)
    requires i < |leaves|
    ensures |path| == |Crossed(h, leaves)|
  {
    LayersAreStacked(h, leaves, i);
    StackedPrefix(Layers(h, leaves), i, |Layers(h, leaves)| - 1);
    Climb(Crossed(h, leaves), i)
  }

  lemma ClimbOneLayer(h: HashFunction, leaves: seq<Digest>, i: nat)
    requires i < |leaves| && |leaves| > 1
    ensures Path(h, leaves, i) == [Step(Sibling(leaves, i), i % 2 == 0)] + Path(h, NextLayer(h, leaves), i / 2)
    ensures StepInput(leaves[i], Path(h, leaves, i)[0]) == ParentInput(leaves, i / 2)
  {
    LayersAreStacked(h, leaves, i);
    StackedPrefix(Layers(h, leaves), i, |Layers(h, leaves)| - 1);
    assert Crossed(h, leaves)[1..] == Crossed(h, NextLayer(h, leaves));
    assert Crossed(h, leaves)[0] == leaves;
  }

  /** Folding the siblings of a leaf through every layer below the root gives the root. */
  lemma {:induction false} PathLeadsToRoot(h: HashFunction, leaves: seq<Digest>, i: nat)
    requires i < |leaves|
    ensures Fold(h, leaves[i], Path(h, leaves, i)) == Root(h, leaves)
    decreases |leaves|
  {
    if |leaves| > 1 {
      ClimbOneLayer(h, leaves, i);
      PathLeadsToRoot(h, NextLayer(h, leaves), i / 2);
      assert Path(h, leaves, i)[1..] == Path(h, NextLayer(h, leaves), i / 2);
    }
  }

  lemma {:induction false} FoldOneMore(h: HashFunction, current: Digest, path: seq<Step>, last: Step)
    ensures Fold(h, current, path + [last]) == h(StepInput(Fold(h, current, path), last))
    decreases path
  {
    if path == [] {
      assert Fold(h, h(StepInput(current, last)), [last][1..]) == h(StepInput(current, last));
    } else {
      assert (path + [last])[1..] == path[1..] + [last];
      FoldOneMore(h, h(StepInput(current, path[0])), path[1..], last);
    }
  }

  lemma {:induction false} FoldSplits(h: HashFunction, current: Digest, low: seq<Step>, high: seq<Step>)
    ensures Fold(h, current, low + high) == Fold(h, Fold(h, current, low), high)
    decreases low
  {
    if low == [] {
      assert low + high == high;
    } else {
      assert (low + high)[1..] == low[1..] + high;
      FoldSplits(h, h(StepInput(current, low[0])), low[1..], high);
    }
  }

  lemma {:induction false} ClimbToTheTop(h: HashFunction, leaves: seq<Digest>, i: nat)
    requires i < |leaves|
    ensures Stacked(Layers(h, leaves), i)
    ensures Climb(Layers(h, leaves), i) == Path(h, leaves, i) + [Step(Root(h, leaves), true)]
    decreases |leaves|
  {
    LayersAreStacked(h, leaves, i);
    if |leaves| == 1 {
      assert Climb(Layers(h, leaves)[1..], 0) == [];
      assert Crossed(h, leaves) == [];
    } else {
      ClimbOneLayer(h, leaves, i);
      ClimbToTheTop(h, NextLayer(h, leaves), i / 2);
      assert Layers(h, leaves)[1..] == Layers(h, NextLayer(h, leaves));
    }
  }

  lemma {:induction false} ParseWritten(path: seq<Step>)
    ensures ParseSiblings(Written(path)) == Some(path)
  {
    if path != [] {
      Hex.ParseWritten(path[0].sibling);
      ParseWritten(path[1..]);
      assert Written(path)[1..] == Written(path[1..]);
      assert [path[0]] + path[1..] == path;
    }
  }

  lemma AcceptsWritten(h: HashFunction, index: nat, leaf: Digest, path: seq<Step>, root: Digest)
    ensures Accepts(h, MerkleProof(index, Hex.Encode(leaf), Written(path), Hex.Encode(root))) <==>
            Fold(h, leaf, path) == root
  {
    Hex.ParseWritten(leaf);
    Hex.ParseWritten(root);
    ParseWritten(path);
  }

  /** A generated proof carries one node too many, the root paired with itself, so it
      is accepted exactly when the digest of that pair is the root again. Without its
      last node it is always accepted. */
  lemma GeneratedProof(h: HashFunction, leaves: seq<Digest>, i: nat)
    requires i < |leaves|
    ensures var proof, root := Generated(h, leaves, i), Root(h, leaves);
      && (Accepts(h, proof) <==> h(Join(root, root)) == root)
      && |proof.siblings| > 0
      && Accepts(h, proof.(siblings := proof.siblings[..|proof.siblings| - 1]))
  {
    var path, root := Path(h, leaves, i), Root(h, leaves);
    PathLeadsToRoot(h, leaves, i);
    ClimbToTheTop(h, leaves, i);
    FoldOneMore(h, leaves[i], path, Step(root, true));
    AcceptsWritten(h, i, leaves[i], path + [Step(root, true)], root);
    AcceptsWritten(h, i, leaves[i], path, root);
    var siblings := Generated(h, leaves, i).siblings;
    assert siblings[..|siblings| - 1] == Written(path);
  }

  function Fill(b: Byte): Digest {
    seq(32, _ => b)
  }

  function AlwaysOnes(input: Bytes): Digest {
    Fill(255)
  }

  /** A generated proof that the verifier refuses: one leaf of zero bytes, under a hash
      that is never zero. */
  lemma GeneratedProofRefused()
    ensures !Accepts(AlwaysOnes, Generated(AlwaysOnes, [Fill(0)], 0))
  {
    GeneratedProof(AlwaysOnes, [Fill(0)], 0);
    assert Fill(0)[0] != Fill(255)[0];
  }

  // ---------- Soundness and binding ----------

  datatype Collision = Collision(first: Bytes, second: Bytes)

  predicate IsCollision(h: HashFunction, c: Option<Collision>) {
    c.Some? && c.value.first != c.value.second && h(c.value.first) == h(c.value.second)
  }

  lemma JoinInjective(a: Digest, b: Digest, c: Digest, d: Digest)
    requires Join(a, b) == Join(c, d)
    ensures a == c && b == d
  {
    assert Join(a, b)[..32] == a && Join(a, b)[32..] == b;
    assert Join(c, d)[..32] == c && Join(c, d)[32..] == d;
  }

  /** The directions say that the path starts at position `i`. */
  predicate Spells(path: seq<Step>, i: nat)
    decreases path
  {
    path != [] ==> (path[0].isRight <==> i % 2 == 0) && Spells(path[1..], i / 2)
  }

  /** Walks a claimed path beside the true nodes of the tree and reports the first place
      where different inputs were hashed to the same digest. */
  function PathCollision(h: HashFunction, layer: seq<Digest>, i: nat, claimed: Digest, path: seq<Step>)
      : Option<Collision>
    requires i < |layer|
    decreases path
  {
    if path == [] then None
    else
      var trueInput, claimedInput := ParentInput(layer, i / 2), StepInput(claimed, path[0]);
      if trueInput != claimedInput && h(trueInput) == h(claimedInput) then Some(Collision(trueInput, claimedInput))
      else PathCollision(h, NextLayer(h, layer), i / 2, h(claimedInput), path[1..])
  }

  /** An accepted path of the right length, spelling position `i`, can only start at the
      digest that is at position `i`. */
  lemma {:induction false} PathSoundness(h: HashFunction, layer: seq<Digest>, i: nat, claimed: Digest, path: seq<Step>)
    requires i < |layer|
    requires |path| == |Layers(h, layer)| - 1 && Spells(path, i)
    requires Fold(h, claimed, path) == Root(h, layer)
    ensures claimed == layer[i] || IsCollision(h, PathCollision(h, layer, i, claimed, path))
    decreases path
  {
    if path != [] {
      var trueInput, claimedInput := ParentInput(layer, i / 2), StepInput(claimed, path[0]);
      PathSoundness(h, NextLayer(h, layer), i / 2, h(claimedInput), path[1..]);
      if trueInput == claimedInput {
        var other := Sibling(layer, i);
        if path[0].isRight {
          JoinInjective(layer[i], other, claimed, path[0].sibling);
        } else {
          JoinInjective(other, layer[i], path[0].sibling, claimed);
        }
      }
    }
  }

  /** The same, for a proof in the form in which it is received. */
  lemma {:induction false} ProofSoundness(h: HashFunction, leaves: seq<Digest>, i: nat, proof: MerkleProof)
    requires i < |leaves| && Accepts(h, proof)
    requires Hex.ParseDigest(proof.root) == Some(Root(h, leaves))
    requires |proof.siblings| == |Layers(h, leaves)| - 1 && Spells(ParseSiblings(proof.siblings).value, i)
    ensures var leaf := Hex.ParseDigest(proof.leafHash).value;
      leaf == leaves[i] || IsCollision(h, PathCollision(h, leaves, i, leaf, ParseSiblings(proof.siblings).value))
  {
    PathSoundness(h, leaves, i, Hex.ParseDigest(proof.leafHash).value, ParseSiblings(proof.siblings).value);
  }

  /** Finds the node at which a claimed path of any directions starts, so many layers below
      the root as the path is long, or the first place from the root down where different
      inputs were hashed to the same digest. */
  function Trace(h: HashFunction, layer: seq<Digest>, claimed: Digest, path: seq<Step>): Result<nat, Collision>
    requires layer != [] && |path| < |Layers(h, layer)|
    ensures var trace := Trace(h, layer, claimed, path);
      trace.Ok? ==> trace.value < |Layers(h, layer)[|Layers(h, layer)| - 1 - |path|]|
    decreases |layer|
  {
    if |layer| == 1 then Ok(0)
    else if |path| < |Layers(h, layer)| - 1 then Trace(h, NextLayer(h, layer), claimed, path)
    else
      var claimedInput := StepInput(claimed, path[0]);
      match Trace(h, NextLayer(h, layer), h(claimedInput), path[1..])
      case Err(c) => Err(c)
      case Ok(i) =>
        if ParentInput(layer, i) != claimedInput then Err(Collision(ParentInput(layer, i), claimedInput))
        else Ok(if path[0].isRight || 2 * i + 1 == |layer| then 2 * i else 2 * i + 1)
  }

  /** The digest is at the traced position of its layer, or the traced inputs collide. */
  ghost predicate Traced(h: HashFunction, layers: seq<seq<Digest>>, claimed: Digest, length: nat,
                         trace: Result<nat, Collision>)
    requires length < |layers|
  {
    match trace
    case Ok(i) => i < |layers[|layers| - 1 - length]| && layers[|layers| - 1 - length][i] == claimed
    case Err(c) => IsCollision(h, Some(c))
  }

  lemma ParentOfClaimed(layer: seq<Digest>, i: nat, claimed: Digest, step: Step)
    requires 2 * i < |layer| && ParentInput(layer, i) == StepInput(claimed, step)
    ensures layer[if step.isRight || 2 * i + 1 == |layer| then 2 * i else 2 * i + 1] == claimed
  {
    var second := layer[if 2 * i + 1 < |layer| then 2 * i + 1 else 2 * i];
    if step.isRight {
      JoinInjective(layer[2 * i], second, claimed, step.sibling);
    } else {
      JoinInjective(layer[2 * i], second, step.sibling, claimed);
    }
  }

  /** Any path that leads to the root and is no longer than the tree is high starts at a node
      of the tree, as far below the root as the path is long, or a collision is computed.
      Neither length nor directions are given: the verifier checks neither. */
  lemma {:induction false} AnyPathStartsAtNode(h: HashFunction, layer: seq<Digest>, claimed: Digest, path: seq<Step>)
    requires layer != [] && |path| < |Layers(h, layer)|
    requires Fold(h, claimed, path) == Root(h, layer)
    ensures Traced(h, Layers(h, layer), claimed, |path|, Trace(h, layer, claimed, path))
    decreases |layer|
  {
    if |layer| > 1 {
      var next := NextLayer(h, layer);
      assert Layers(h, layer)[1..] == Layers(h, next);
      if |path| < |Layers(h, layer)| - 1 {
        AnyPathStartsAtNode(h, next, claimed, path);
      } else {
        AnyPathStartsAtNode(h, next, h(StepInput(claimed, path[0])), path[1..]);
        var trace := Trace(h, next, h(StepInput(claimed, path[0])), path[1..]);
        if trace.Ok? && ParentInput(layer, trace.value) == StepInput(claimed, path[0]) {
          ParentOfClaimed(layer, trace.value, claimed, path[0]);
        }
      }
    }
  }

  /** An inner node passes for a leaf: the root itself is accepted, as any leaf, with no
      siblings at all. */
  lemma RootPassesForLeaf(h: HashFunction, leaves: seq<Digest>, i: nat)
    requires leaves != []
    ensures Accepts(h, MerkleProof(i, Hex.Encode(Root(h, leaves)), [], Hex.Encode(Root(h, leaves))))
  {
    AcceptsWritten(h, i, Root(h, leaves), [], Root(h, leaves));
  }

  lemma {:induction false} PathSpells(h: HashFunction, leaves: seq<Digest>, i: nat)
    requires i < |leaves|
    ensures Spells(Path(h, leaves, i), i)
    decreases |leaves|
  {
    if |leaves| > 1 {
      ClimbOneLayer(h, leaves, i);
      PathSpells(h, NextLayer(h, leaves), i / 2);
      assert Path(h, leaves, i)[1..] == Path(h, NextLayer(h, leaves), i / 2);
    }
  }

  lemma {:induction false} SameHeight(h: HashFunction, xs: seq<Digest>, ys: seq<Digest>)
    requires |xs| == |ys| && xs != []
    ensures |Layers(h, xs)| == |Layers(h, ys)|
    decreases |xs|
  {
    if |xs| > 1 {
      SameHeight(h, NextLayer(h, xs), NextLayer(h, ys));
    }
  }

  /** First position at which two lists of the same length differ. */
  function FirstDifference<T(==)>(xs: seq<T>, ys: seq<T>): (i: nat)
    requires |xs| == |ys|
    ensures i <= |xs| && (i == |xs| <==> xs == ys) && (i < |xs| ==> xs[i] != ys[i])
  {
    if xs == [] then 0
    else if xs[0] != ys[0] then 0
    else
      assert xs == [xs[0]] + xs[1..] && ys == [ys[0]] + ys[1..];
      1 + FirstDifference(xs[1..], ys[1..])
  }

  function LeafCollision(h: HashFunction, xs: seq<Digest>, ys: seq<Digest>): Option<Collision>
    requires |xs| == |ys|
  {
    var i := FirstDifference(xs, ys);
    if i == |xs| then None else PathCollision(h, ys, i, xs[i], Path(h, xs, i))
  }

  /** The root binds a list of known length: equal roots mean equal leaves, or a
      collision is computed. */
  lemma RootBinding(h: HashFunction, xs: seq<Digest>, ys: seq<Digest>)
    requires |xs| == |ys| && xs != [] && Root(h, xs) == Root(h, ys)
    ensures xs == ys || IsCollision(h, LeafCollision(h, xs, ys))
  {
    if xs != ys {
      var i := FirstDifference(xs, ys);
      PathLeadsToRoot(h, xs, i);
      PathSpells(h, xs, i);
      SameHeight(h, xs, ys);
      PathSoundness(h, ys, i, xs[i], Path(h, xs, i));
    }
  }

  function ChunkCollision(h: HashFunction, cs: seq<Bytes>, ds: seq<Bytes>): Option<Collision>
    requires |cs| == |ds|
  {
    var i := FirstDifference(cs, ds);
    if i < |cs| && h(cs[i]) == h(ds[i]) then Some(Collision(cs[i], ds[i]))
    else LeafCollision(h, LeafHashes(h, cs), LeafHashes(h, ds))
  }

  /** The root of a tree over chunks binds the chunks themselves. */
  lemma ChunkBinding(h: HashFunction, cs: seq<Bytes>, ds: seq<Bytes>)
    requires |cs| == |ds| && cs != []
    requires Root(h, LeafHashes(h, cs)) == Root(h, LeafHashes(h, ds))
    ensures cs == ds || IsCollision(h, ChunkCollision(h, cs, ds))
  {
    RootBinding(h, LeafHashes(h, cs), LeafHashes(h, ds));
    var i := FirstDifference(cs, ds);
    if i < |cs| && h(cs[i]) != h(ds[i]) {
      assert LeafHashes(h, cs)[i] != LeafHashes(h, ds)[i];
    }
  }

  lemma SameNextLayer(h: HashFunction, leaves: seq<Digest>)
    requires |leaves| % 2 == 1
    ensures NextLayer(h, leaves + [leaves[|leaves| - 1]]) == NextLayer(h, leaves)
  {
  }

  /** The length has to be known: repeating the last leaf of a list of odd length, three
      or more, leaves the root unchanged. */
  lemma RepeatedLastLeaf(h: HashFunction, leaves: seq<Digest>)
    requires |leaves| % 2 == 1 && |leaves| >= 3
    ensures Root(h, leaves + [leaves[|leaves| - 1]]) == Root(h, leaves)
  {
    SameNextLayer(h, leaves);
  }
}
