/**
  Trees over chunks, core/src/merkle.rs, by the bytes hashed for every node. From these a
  collision can be read off wherever two different chunk lists, of whatever lengths, lead
  to one root.
 */
module MerkleInputs {
  import opened Basics
  import opened Merkle
  import opened MerklePaths
  import Hex

  /** Position of the second child of node `i`, under a layer of the given width: a last
      node without a neighbour serves as both children. */
  function SecondChild(width: nat, i: nat): nat {
    if 2 * i + 1 < width then 2 * i + 1 else 2 * i
  }

  /** The bytes hashed for the node at a position: a chunk, or the digests of two nodes. */
  function Input(h: HashFunction, chunks: seq<Bytes>, height: nat, i: nat): Bytes
    requires i < Width(|chunks|, height)
    decreases height
  {
    if height == 0 then chunks[i]
    else
      var below := Width(|chunks|, height - 1);
      Join(h(Input(h, chunks, height - 1, 2 * i)), h(Input(h, chunks, height - 1, SecondChild(below, i))))
  }

  lemma {:induction false} InputOfNode(h: HashFunction, chunks: seq<Bytes>, height: nat, i: nat)
    requires i < Width(|chunks|, height)
    ensures h(Input(h, chunks, height, i)) == Node(h, LeafHashes(h, chunks), height, i)
    decreases height
  {
    if height > 0 {
      var below := Width(|chunks|, height - 1);
      InputOfNode(h, chunks, height - 1, 2 * i);
      InputOfNode(h, chunks, height - 1, SecondChild(below, i));
    }
  }

  function Height(h: HashFunction, chunks: seq<Bytes>): (height: nat)
    requires chunks != []
    ensures Width(|chunks|, height) == 1
  {
    var leaves := LeafHashes(h, chunks);
    LayerHoldsNodes(h, leaves, |Layers(h, leaves)| - 1);
    |Layers(h, leaves)| - 1
  }

  /** The bytes hashed for the root. */
  function Top(h: HashFunction, chunks: seq<Bytes>): Bytes
    requires chunks != []
  {
    Input(h, chunks, Height(h, chunks), 0)
  }

  lemma TopIsHashedForRoot(h: HashFunction, chunks: seq<Bytes>)
    requires chunks != []
    ensures h(Top(h, chunks)) == Root(h, LeafHashes(h, chunks))
  {
    var leaves := LeafHashes(h, chunks);
    LayerHoldsNodes(h, leaves, Height(h, chunks));
    InputOfNode(h, chunks, Height(h, chunks), 0);
  }

  /** A proof as generated is accepted exactly if the root is hashed from itself twice over,
      or the bytes hashed for the root and those of the extra step are a collision. */
  lemma AcceptedGeneratedProof(h: HashFunction, chunks: seq<Bytes>, i: nat)
    requires i < |chunks|
    ensures var leaves := LeafHashes(h, chunks);
      var top, twice := Top(h, chunks), Join(Root(h, leaves), Root(h, leaves));
      Accepts(h, Generated(h, leaves, i)) <==> top == twice || IsCollision(h, Some(Collision(top, twice)))
  {
    GeneratedProof(h, LeafHashes(h, chunks), i);
    TopIsHashedForRoot(h, chunks);
  }

  // ---------- Membership by paths of any length ----------

  /** No chunk can be mistaken for a pair of digests. */
  ghost predicate NonePairs(chunks: seq<Bytes>) {
    forall i :: 0 <= i < |chunks| ==> |chunks[i]| != 64
  }

  function CompareWithNode(h: HashFunction, chunks: seq<Bytes>, height: nat, i: nat, claimed: Bytes)
      : Result<nat, Collision>
    requires i < Width(|chunks|, height)
  {
    var input := Input(h, chunks, height, i);
    if input == claimed then Ok(i) else Err(Collision(input, claimed))
  }

  /** What a path shows that starts from a claimed input at the given height. */
  function MembershipAt(h: HashFunction, chunks: seq<Bytes>, claimed: Bytes, path: seq<Step>, height: nat)
      : Result<nat, Collision>
    requires chunks != [] && |path| + height == |Layers(h, LeafHashes(h, chunks))| - 1
  {
    match Trace(h, LeafHashes(h, chunks), h(claimed), path)
    case Err(c) => Err(c)
    case Ok(i) =>
      LayerHoldsNodes(h, LeafHashes(h, chunks), height);
      CompareWithNode(h, chunks, height, i, claimed)
  }

  /** What an accepted path from a claimed chunk shows: the place of that chunk, or two
      inputs with one digest. Of a path higher than the tree, the steps too many make up an
      input for a leaf. */
  function Membership(h: HashFunction, chunks: seq<Bytes>, claimed: Bytes, path: seq<Step>): Result<nat, Collision>
    requires chunks != []
  {
    var layers := |Layers(h, LeafHashes(h, chunks))|;
    if |path| < layers then MembershipAt(h, chunks, claimed, path, layers - 1 - |path|)
    else
      var n := |path| - layers;
      MembershipAt(h, chunks, StepInput(Fold(h, h(claimed), path[..n]), path[n]), path[n + 1..], 0)
  }

  /** The place is that of the claimed chunk, or the two inputs collide. */
  ghost predicate Shown(h: HashFunction, chunks: seq<Bytes>, claimed: Bytes, shown: Result<nat, Collision>) {
    match shown
    case Ok(i) => i < |chunks| && chunks[i] == claimed
    case Err(c) => IsCollision(h, Some(c))
  }

  lemma NodeShows(h: HashFunction, chunks: seq<Bytes>, height: nat, i: nat, claimed: Bytes)
    requires (height == 0 || |claimed| != 64) && i < Width(|chunks|, height)
    requires h(claimed) == Node(h, LeafHashes(h, chunks), height, i)
    ensures Shown(h, chunks, claimed, CompareWithNode(h, chunks, height, i, claimed))
  {
    InputOfNode(h, chunks, height, i);
  }

  lemma TraceIsNode(h: HashFunction, leaves: seq<Digest>, claimed: Digest, path: seq<Step>, height: nat)
    requires leaves != [] && |path| + height == |Layers(h, leaves)| - 1
    requires Fold(h, claimed, path) == Root(h, leaves)
    ensures var trace := Trace(h, leaves, claimed, path);
      && (trace.Ok? ==> trace.value < Width(|leaves|, height) && Node(h, leaves, height, trace.value) == claimed)
      && (trace.Err? ==> IsCollision(h, Some(trace.error)))
  {
    AnyPathStartsAtNode(h, leaves, claimed, path);
    LayerHoldsNodes(h, leaves, height);
  }

  lemma PathShows(h: HashFunction, chunks: seq<Bytes>, claimed: Bytes, path: seq<Step>, height: nat)
    requires chunks != [] && |path| + height == |Layers(h, LeafHashes(h, chunks))| - 1
    requires height == 0 || |claimed| != 64
    requires Fold(h, h(claimed), path) == Root(h, LeafHashes(h, chunks))
    ensures Shown(h, chunks, claimed, MembershipAt(h, chunks, claimed, path, height))
  {
    TraceIsNode(h, LeafHashes(h, chunks), h(claimed), path, height);
    var trace := Trace(h, LeafHashes(h, chunks), h(claimed), path);
    if trace.Ok? {
      NodeShows(h, chunks, height, trace.value, claimed);
    }
  }

  /** Neither the length of a path nor its directions need be known when neither the claimed
      chunk nor those of the tree are as long as two digests: an accepted path can then only
      start at a chunk of the tree, or a collision is computed. */
  lemma AcceptedChunkIsMember(h: HashFunction, chunks: seq<Bytes>, claimed: Bytes, path: seq<Step>)
    requires chunks != [] && NonePairs(chunks) && |claimed| != 64
    requires Fold(h, h(claimed), path) == Root(h, LeafHashes(h, chunks))
    ensures Shown(h, chunks, claimed, Membership(h, chunks, claimed, path))
  {
    var layers := |Layers(h, LeafHashes(h, chunks))|;
    if |path| < layers {
      PathShows(h, chunks, claimed, path, layers - 1 - |path|);
    } else {
      var n := |path| - layers;
      var low, last, high := path[..n], path[n], path[n + 1..];
      assert path == (low + [last]) + high;
      FoldSplits(h, h(claimed), low + [last], high);
      FoldOneMore(h, h(claimed), low, last);
      PathShows(h, chunks, StepInput(Fold(h, h(claimed), low), last), high, 0);
    }
  }

  /** The same for an accepted proof in the form in which it is received, with the digest of
      the claimed chunk as its leaf. */
  lemma AcceptedProofShowsChunk(h: HashFunction, chunks: seq<Bytes>, claimed: Bytes, proof: MerkleProof)
    requires chunks != [] && NonePairs(chunks) && |claimed| != 64
    requires Accepts(h, proof) && Hex.ParseDigest(proof.leafHash) == Some(h(claimed))
    requires Hex.ParseDigest(proof.root) == Some(Root(h, LeafHashes(h, chunks)))
    ensures Shown(h, chunks, claimed, Membership(h, chunks, claimed, ParseSiblings(proof.siblings).value))
  {
    AcceptedChunkIsMember(h, chunks, claimed, ParseSiblings(proof.siblings).value);
  }

  // ---------- Chunk lists of any lengths ----------

  /** Chunks that cannot be mistaken for one another nor for a pair of digests. */
  ghost predicate Distinguishable(chunks: seq<Bytes>) {
    NoDuplicates(chunks) && forall i :: 0 <= i < |chunks| ==> |chunks[i]| > 64
  }

  /** Descends along first children from two nodes until the bytes hashed differ. */
  function FirstChildCollision(h: HashFunction, cs: seq<Bytes>, k: nat, i: nat,
                               ds: seq<Bytes>, l: nat, j: nat): Option<Collision>
    requires i < Width(|cs|, k) && j < Width(|ds|, l)
    decreases k
  {
    var a, b := Input(h, cs, k, i), Input(h, ds, l, j);
    if a != b then Some(Collision(a, b))
    else if k > 0 && l > 0 then FirstChildCollision(h, cs, k - 1, 2 * i, ds, l - 1, 2 * j)
    else None
  }

  lemma ChildrenAgree(h: HashFunction, cs: seq<Bytes>, k: nat, i: nat, ds: seq<Bytes>, l: nat, j: nat)
    requires k > 0 && l > 0 && i < Width(|cs|, k) && j < Width(|ds|, l)
    requires Input(h, cs, k, i) == Input(h, ds, l, j)
    ensures h(Input(h, cs, k - 1, 2 * i)) == h(Input(h, ds, l - 1, 2 * j))
    ensures h(Input(h, cs, k - 1, SecondChild(Width(|cs|, k - 1), i)))
         == h(Input(h, ds, l - 1, SecondChild(Width(|ds|, l - 1), j)))
  {
    var p, q := Width(|cs|, k - 1), Width(|ds|, l - 1);
    JoinInjective(h(Input(h, cs, k - 1, 2 * i)), h(Input(h, cs, k - 1, SecondChild(p, i))),
                  h(Input(h, ds, l - 1, 2 * j)), h(Input(h, ds, l - 1, SecondChild(q, j))));
  }

  lemma SecondChildrenAgree(h: HashFunction, cs: seq<Bytes>, k: nat, i: nat, ds: seq<Bytes>, l: nat, j: nat,
                            p: nat, q: nat)
    requires k > 0 && l > 0 && i < Width(|cs|, k) && j < Width(|ds|, l)
    requires Input(h, cs, k, i) == Input(h, ds, l, j)
    requires p == SecondChild(Width(|cs|, k - 1), i) && q == SecondChild(Width(|ds|, l - 1), j)
    ensures h(Input(h, cs, k - 1, p)) == h(Input(h, ds, l - 1, q))
  {
    ChildrenAgree(h, cs, k, i, ds, l, j);
  }

  /** Nodes at different heights, or at different positions of one tree, do not share a
      digest, or a collision is computed. */
  lemma {:induction false} NodesDiffer(h: HashFunction, cs: seq<Bytes>, k: nat, i: nat, ds: seq<Bytes>, l: nat, j: nat)
    requires Distinguishable(cs) && i < Width(|cs|, k) && j < Width(|ds|, l)
    requires k < l || (k == l && cs == ds && i != j)
    requires h(Input(h, cs, k, i)) == h(Input(h, ds, l, j))
    ensures IsCollision(h, FirstChildCollision(h, cs, k, i, ds, l, j))
    decreases k
  {
    if Input(h, cs, k, i) == Input(h, ds, l, j) && k > 0 {
      ChildrenAgree(h, cs, k, i, ds, l, j);
      NodesDiffer(h, cs, k - 1, 2 * i, ds, l - 1, 2 * j);
    }
  }

  lemma {:induction false} WidthGrows(m: nat, n: nat, k: nat)
    requires m <= n
    ensures Width(m, k) <= Width(n, k)
  {
    if k > 0 {
      WidthGrows(m, n, k - 1);
    }
  }

  /** Descends along the last nodes of two trees of one height until the bytes hashed differ
      or one tree has a node more, which then repeats its neighbour. */
  function EdgeCollision(h: HashFunction, cs: seq<Bytes>, ds: seq<Bytes>, k: nat): Option<Collision>
    requires 0 < Width(|cs|, k) == Width(|ds|, k) && |cs| < |ds|
    decreases k
  {
    var last := Width(|cs|, k) - 1;
    var a, b := Input(h, cs, k, last), Input(h, ds, k, last);
    if a != b then Some(Collision(a, b))
    else if k == 0 then None
    else if Width(|cs|, k - 1) == Width(|ds|, k - 1) then EdgeCollision(h, cs, ds, k - 1)
    else FirstChildCollision(h, ds, k - 1, 2 * last, ds, k - 1, SecondChild(Width(|ds|, k - 1), last))
  }

  /** Below a layer of equal width, either the widths agree again, and the last node is the
      second child of the last node above, or the shorter list lacks the last node. */
  lemma EdgeBelow(m: nat, n: nat, k: nat)
    requires k > 0 && m < n && 0 < Width(m, k) == Width(n, k)
    ensures var last, p, q := Width(m, k) - 1, Width(m, k - 1), Width(n, k - 1);
      && 0 < p <= q
      && SecondChild(p, last) == p - 1
      && SecondChild(q, last) == q - 1
      && (p != q ==> p - 1 == 2 * last && q - 1 == 2 * last + 1)
  {
    WidthGrows(m, n, k - 1);
  }

  ghost predicate EdgesAgree(h: HashFunction, cs: seq<Bytes>, ds: seq<Bytes>, k: nat)
    requires 0 < Width(|cs|, k) == Width(|ds|, k)
  {
    h(Input(h, cs, k, Width(|cs|, k) - 1)) == h(Input(h, ds, k, Width(|ds|, k) - 1))
  }

  lemma EdgeGoesOn(h: HashFunction, cs: seq<Bytes>, ds: seq<Bytes>, k: nat)
    requires k > 0 && 0 < Width(|cs|, k) == Width(|ds|, k) && |cs| < |ds|
    requires var last := Width(|cs|, k) - 1; Input(h, cs, k, last) == Input(h, ds, k, last)
    requires Width(|cs|, k - 1) == Width(|ds|, k - 1)
    ensures 0 < Width(|cs|, k - 1) && EdgesAgree(h, cs, ds, k - 1)
  {
    EdgeBelow(|cs|, |ds|, k);
    var last := Width(|cs|, k - 1) - 1;
    SecondChildrenAgree(h, cs, k, Width(|cs|, k) - 1, ds, k, Width(|cs|, k) - 1, last, last);
  }

  lemma EdgeEnds(h: HashFunction, cs: seq<Bytes>, ds: seq<Bytes>, k: nat)
    requires k > 0 && 0 < Width(|cs|, k) == Width(|ds|, k) && |cs| < |ds|
    requires var last := Width(|cs|, k) - 1; Input(h, cs, k, last) == Input(h, ds, k, last)
    requires Width(|cs|, k - 1) != Width(|ds|, k - 1)
    ensures var last := Width(|cs|, k) - 1;
      2 * last + 1 < Width(|ds|, k - 1)
      && h(Input(h, ds, k - 1, 2 * last)) == h(Input(h, ds, k - 1, 2 * last + 1))
  {
    EdgeBelow(|cs|, |ds|, k);
    ChildrenAgree(h, cs, k, Width(|cs|, k) - 1, ds, k, Width(|cs|, k) - 1);
  }

  lemma EdgeFound(h: HashFunction, cs: seq<Bytes>, ds: seq<Bytes>, k: nat)
    requires 0 < Width(|cs|, k) == Width(|ds|, k) && |cs| < |ds| && EdgesAgree(h, cs, ds, k)
    requires var last := Width(|cs|, k) - 1; Input(h, cs, k, last) != Input(h, ds, k, last)
    ensures IsCollision(h, EdgeCollision(h, cs, ds, k))
  {
  }

  lemma EdgeRepeats(h: HashFunction, cs: seq<Bytes>, ds: seq<Bytes>, k: nat)
    requires k > 0 && 0 < Width(|cs|, k) == Width(|ds|, k) && |cs| < |ds| && Distinguishable(ds)
    requires var last := Width(|cs|, k) - 1; Input(h, cs, k, last) == Input(h, ds, k, last)
    requires Width(|cs|, k - 1) != Width(|ds|, k - 1)
    ensures IsCollision(h, EdgeCollision(h, cs, ds, k))
  {
    var last := Width(|cs|, k) - 1;
    EdgeEnds(h, cs, ds, k);
    NodesDiffer(h, ds, k - 1, 2 * last, ds, k - 1, 2 * last + 1);
  }

  /** The lists have different lengths but trees of one height: the shorter one repeats a
      node where the longer one has another. */
  lemma {:induction false} EdgesDiffer(h: HashFunction, cs: seq<Bytes>, ds: seq<Bytes>, k: nat)
    requires 0 < Width(|cs|, k) == Width(|ds|, k) && |cs| < |ds|
    requires Distinguishable(ds) && EdgesAgree(h, cs, ds, k)
    ensures IsCollision(h, EdgeCollision(h, cs, ds, k))
    decreases k
  {
    var last := Width(|cs|, k) - 1;
    if Input(h, cs, k, last) != Input(h, ds, k, last) {
      EdgeFound(h, cs, ds, k);
    } else if Width(|cs|, k - 1) == Width(|ds|, k - 1) {
      EdgeGoesOn(h, cs, ds, k);
      EdgesDiffer(h, cs, ds, k - 1);
    } else {
      EdgeRepeats(h, cs, ds, k);
    }
  }

  /** For lists of different lengths. */
  function LengthCollision(h: HashFunction, cs: seq<Bytes>, ds: seq<Bytes>): Option<Collision>
    requires cs != [] && ds != [] && |cs| != |ds|
  {
    var k, l := Height(h, cs), Height(h, ds);
    if k < l then FirstChildCollision(h, cs, k, 0, ds, l, 0)
    else if l < k then FirstChildCollision(h, ds, l, 0, cs, k, 0)
    else if |cs| < |ds| then EdgeCollision(h, cs, ds, k)
    else EdgeCollision(h, ds, cs, k)
  }

  function AnyCollision(h: HashFunction, cs: seq<Bytes>, ds: seq<Bytes>): Option<Collision>
    requires cs != [] && ds != []
  {
    if |cs| == |ds| then ChunkCollision(h, cs, ds) else LengthCollision(h, cs, ds)
  }

  /** The root binds distinguishable chunks without their number being known: equal roots
      mean equal lists, or a collision is computed. */
  lemma BindingAtAnyLength(h: HashFunction, cs: seq<Bytes>, ds: seq<Bytes>)
    requires cs != [] && ds != [] && Distinguishable(cs) && Distinguishable(ds)
    requires Root(h, LeafHashes(h, cs)) == Root(h, LeafHashes(h, ds))
    ensures cs == ds || IsCollision(h, AnyCollision(h, cs, ds))
  {
    if |cs| == |ds| {
      ChunkBinding(h, cs, ds);
    } else {
      var k, l := Height(h, cs), Height(h, ds);
      TopIsHashedForRoot(h, cs);
      TopIsHashedForRoot(h, ds);
      if k < l {
        NodesDiffer(h, cs, k, 0, ds, l, 0);
      } else if l < k {
        NodesDiffer(h, ds, l, 0, cs, k, 0);
      } else if |cs| < |ds| {
        EdgesDiffer(h, cs, ds, k);
      } else {
        EdgesDiffer(h, ds, cs, k);
      }
    }
  }
}
