/** The Merkle tree over one day's leaves, and inclusion proofs against it.

    `Build`, `Root`, `Prove` and `VerifyInclusion` keep the loops of the source and
    are proved against the functions `Sealed`, `RootOf`, `PathOf` and `Accepts`.
    What those functions guarantee is proved in module `MerkleLaws`. */
module Merkle {
  import opened Basics
  import opened Ordering
  import opened Hashing

  datatype BuildError = NoLeaves | DuplicateLeaf

  datatype MerkleTree = MerkleTree(leaves: seq<Digest>)

  datatype Side = Left | Right

  datatype Sibling = Sibling(hash: Digest, side: Side)

  datatype MerkleProof = MerkleProof(leaf: Digest, siblings: seq<Sibling>, leafCount: u32)

  function NodePreimage(left: Digest, right: Digest): Preimage {
    Preimage(Tag.Node, Raw(left) + Raw(right))
  }

  lemma NodePreimageInjective(a: Digest, b: Digest, c: Digest, d: Digest)
    requires NodePreimage(a, b) == NodePreimage(c, d)
    ensures a == c && b == d
  {
    ConcatSplit(Raw(a), Raw(b), Raw(c), Raw(d));
    RawInjective(a, c);
    RawInjective(b, d);
  }

  function NodeHash(h: HashFn, left: Digest, right: Digest): Digest {
    h(NodePreimage(left, right))
  }

  // --- building ---------------------------------------------------------------

  /** The tree a leaf list seals to: its leaves in order, or why there is none. */
  function Sealed(leaves: seq<Digest>): Result<MerkleTree, BuildError> {
    if leaves == [] then Err(NoLeaves)
    else
      var sorted := SortBy(Raw, leaves);
      if HasAdjacentRepeat(Raw, sorted) then Err(DuplicateLeaf) else Ok(MerkleTree(sorted))
  }

  method Build(leaves: seq<Digest>) returns (r: Result<MerkleTree, BuildError>)
    ensures r == Sealed(leaves)
  {
    if |leaves| == 0 {
      return Err(NoLeaves);
    }
    var sorted := SortBy(Raw, leaves);
    var i := 0;
    while i + 1 < |sorted|
      invariant forall k :: 0 <= k < i && k + 1 < |sorted| ==> Raw(sorted[k]) != Raw(sorted[k + 1])
    {
      if sorted[i] == sorted[i + 1] {
        assert Raw(sorted[i]) == Raw(sorted[i + 1]);
        return Err(DuplicateLeaf);
      }
      if Raw(sorted[i]) == Raw(sorted[i + 1]) {
        RawInjective(sorted[i], sorted[i + 1]);
      }
      i := i + 1;
    }
    return Ok(MerkleTree(sorted));
  }

  // --- the root ---------------------------------------------------------------

  /** One level up: neighbours are hashed together, an odd last node is promoted. */
  function NextLevel(h: HashFn, level: seq<Digest>): (next: seq<Digest>)
    ensures |next| == (|level| + 1) / 2
  {
    if |level| <= 1 then level
    else [NodeHash(h, level[0], level[1])] + NextLevel(h, level[2..])
  }

  function RootOf(h: HashFn, level: seq<Digest>): Digest
    requires level != []
    decreases |level|
  {
    if |level| == 1 then level[0] else RootOf(h, NextLevel(h, level))
  }

  method Root(h: HashFn, tree: MerkleTree) returns (root: Digest)
    requires tree.leaves != []
    ensures root == RootOf(h, tree.leaves)
  {
    var level := tree.leaves;
    while |level| > 1
      invariant level != []
      invariant RootOf(h, level) == RootOf(h, tree.leaves)
      decreases |level|
    {
      level := NextLevel(h, level);
    }
    root := level[0];
  }

  // --- proving ----------------------------------------------------------------

  /** The sibling of position `index`, when that position is not a promoted node. */
  function StepOf(level: seq<Digest>, index: nat): seq<Sibling>
    requires index < |level|
  {
    if index % 2 == 1 then [Sibling(level[index - 1], Left)]
    else if index + 1 < |level| then [Sibling(level[index + 1], Right)]
    else []
  }

  function PathOf(h: HashFn, level: seq<Digest>, index: nat): seq<Sibling>
    requires index < |level|
    decreases |level|
  {
    if |level| == 1 then []
    else StepOf(level, index) + PathOf(h, NextLevel(h, level), index / 2)
  }

  /** `binary_search` on the leaves, which `Sealed` leaves sorted and distinct. */
  function IndexOf(leaves: seq<Digest>, target: Digest): (r: Option<nat>)
    ensures r.Some? ==> r.value < |leaves| && leaves[r.value] == target
    ensures r.None? ==> target !in leaves
  {
    if leaves == [] then None
    else if leaves[|leaves| - 1] == target then Some(|leaves| - 1)
    else IndexOf(leaves[..|leaves| - 1], target)
  }

  /** The proof an honest prover hands out for the leaf at `index`. */
  function ProofAt(h: HashFn, leaves: seq<Digest>, index: nat): MerkleProof
    requires index < |leaves|
  {
    MerkleProof(leaves[index], PathOf(h, leaves, index), Saturate32(|leaves|))
  }

  function ProofOf(h: HashFn, leaves: seq<Digest>, target: Digest): Option<MerkleProof> {
    match IndexOf(leaves, target)
    case None => None
    case Some(i) => Some(ProofAt(h, leaves, i))
  }

  method Prove(h: HashFn, tree: MerkleTree, target: Digest) returns (proof: Option<MerkleProof>)
    ensures proof == ProofOf(h, tree.leaves, target)
  {
    var found := IndexOf(tree.leaves, target);
    if found.None? {
      return None;
    }
    var index: nat := found.value;
    var level := tree.leaves;
    var siblings: seq<Sibling> := [];
    ghost var whole := PathOf(h, level, index);
    while |level| > 1
      invariant index < |level|
      invariant siblings + PathOf(h, level, index) == whole
      decreases |level|
    {
      var isRight := index % 2 == 1;
      var siblingIndex := if isRight then index - 1 else index + 1;
      PrependStep(h, siblings, level, index);
      if siblingIndex < |level| {
        siblings := siblings + [Sibling(level[siblingIndex], if isRight then Left else Right)];
      } else {
        assert siblings + [] == siblings;
      }
      level := NextLevel(h, level);
      index := index / 2;
    }
    assert siblings + [] == siblings;
    proof := Some(MerkleProof(target, siblings, Saturate32(|tree.leaves|)));
  }

  lemma PrependStep(h: HashFn, before: seq<Sibling>, level: seq<Digest>, index: nat)
    requires index < |level| && |level| > 1
    ensures before + StepOf(level, index) + PathOf(h, NextLevel(h, level), index / 2)
         == before + PathOf(h, level, index)
  {
  }

  // --- verifying --------------------------------------------------------------

  function NextPowerOfTwo(n: nat, from: nat := 1): (p: nat)
    requires from > 0
    ensures p >= n && p >= from
    decreases n - from
  {
    if from >= n then from else NextPowerOfTwo(n, 2 * from)
  }

  function TrailingZeros(n: nat): nat
    requires n > 0
  {
    if n % 2 == 1 then 0 else 1 + TrailingZeros(n / 2)
  }

  function MaxDepth(leafCount: nat): nat
    requires leafCount > 0
  {
    if leafCount == 1 then 0 else TrailingZeros(NextPowerOfTwo(leafCount))
  }

  function Climb(h: HashFn, current: Digest, step: Sibling): Digest {
    match step.side
    case Left => NodeHash(h, step.hash, current)
    case Right => NodeHash(h, current, step.hash)
  }

  function FoldPath(h: HashFn, leaf: Digest, siblings: seq<Sibling>): Digest {
    if siblings == [] then leaf
    else Climb(h, FoldPath(h, leaf, siblings[..|siblings| - 1]), siblings[|siblings| - 1])
  }

  predicate Accepts(h: HashFn, proof: MerkleProof, root: Digest) {
    && proof.leafCount != 0
    && |proof.siblings| <= MaxDepth(proof.leafCount)
    && FoldPath(h, proof.leaf, proof.siblings) == root
  }

  method VerifyInclusion(h: HashFn, proof: MerkleProof, root: Digest) returns (ok: bool)
    ensures ok <==> Accepts(h, proof, root)
  {
    if proof.leafCount == 0 {
      return false;
    }
    var maxDepth := MaxDepth(proof.leafCount);
    if |proof.siblings| > maxDepth {
      return false;
    }
    var current := proof.leaf;
    for i := 0 to |proof.siblings|
      invariant current == FoldPath(h, proof.leaf, proof.siblings[..i])
    {
      assert proof.siblings[..i + 1][..i] == proof.siblings[..i];
      current := Climb(h, current, proof.siblings[i]);
    }
    assert proof.siblings[..|proof.siblings|] == proof.siblings;
    return current == root;
  }
}
