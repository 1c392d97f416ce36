/** Inclusion proofs: every honest proof is accepted (up to a bound on the number of
    leaves that is proved exact), and every accepted proof of a leaf is the honest one. */
module MerkleProofs {
  import opened Basics
  import opened Ordering
  import opened Hashing
  import opened Merkle
  import opened MerkleLaws

  // --- paths in the symbolic tree --------------------------------------------------

  /** Siblings met from the `i`-th leaf up to the root. */
  function PathIn(h: HashFn, t: Tree, i: nat): seq<Sibling>
    requires i < |Flatten(t)|
  {
    match t
    case Leaf(_) => []
    case Inner(l, r) =>
      if i < |Flatten(l)| then PathIn(h, l, i) + [Sibling(DigestOf(h, r), Right)]
      else PathIn(h, r, i - |Flatten(l)|) + [Sibling(DigestOf(h, l), Left)]
  }

  /** How many leaves hang left of the `j`-th tree of a level. */
  function Offset(ts: seq<Tree>, j: nat): nat
    requires j <= |ts|
  {
    if j == 0 then 0 else Offset(ts, j - 1) + |Flatten(ts[j - 1])|
  }

  lemma {:induction false} PairAt(ts: seq<Tree>, k: nat)
    requires 2 * k < |ts|
    ensures Pair(ts)[k] == if 2 * k + 1 < |ts| then Inner(ts[2 * k], ts[2 * k + 1]) else ts[2 * k]
  {
    if k > 0 {
      PairAt(ts[2..], k - 1);
    }
  }

  lemma {:induction false} PairOffset(ts: seq<Tree>, k: nat)
    requires 2 * k < |ts|
    ensures Offset(Pair(ts), k) == Offset(ts, 2 * k)
  {
    if k > 0 {
      PairOffset(ts, k - 1);
      PairAt(ts, k - 1);
      assert Offset(ts, 2 * k - 1) == Offset(ts, 2 * k - 2) + |Flatten(ts[2 * k - 2])|;
    }
  }

  lemma PathThrough(h: HashFn, l: Tree, r: Tree, i: nat)
    ensures i < |Flatten(l)| ==>
      i < |Flatten(Inner(l, r))| && PathIn(h, Inner(l, r), i) == PathIn(h, l, i) + [Sibling(DigestOf(h, r), Right)]
    ensures i < |Flatten(r)| ==>
      |Flatten(l)| + i < |Flatten(Inner(l, r))|
      && PathIn(h, Inner(l, r), |Flatten(l)| + i) == PathIn(h, r, i) + [Sibling(DigestOf(h, l), Left)]
  {
  }

  lemma StepAt(h: HashFn, ts: seq<Tree>, k: nat)
    requires 2 * k < |ts|
    ensures StepOf(Digested(h, ts), 2 * k) ==
            if 2 * k + 1 < |ts| then [Sibling(DigestOf(h, ts[2 * k + 1]), Right)] else []
    ensures 2 * k + 1 < |ts| ==> StepOf(Digested(h, ts), 2 * k + 1) == [Sibling(DigestOf(h, ts[2 * k]), Left)]
  {
  }

  lemma LiftLeft(h: HashFn, ts: seq<Tree>, k: nat, i: nat, up: Tree)
    requires |ts| > 1 && 2 * k < |ts| && i < |Flatten(ts[2 * k])|
    requires up == if 2 * k + 1 < |ts| then Inner(ts[2 * k], ts[2 * k + 1]) else ts[2 * k]
    ensures i < |Flatten(up)|
    ensures PathIn(h, up, i) == PathIn(h, ts[2 * k], i) + StepOf(Digested(h, ts), 2 * k)
  {
    StepAt(h, ts, k);
    if 2 * k + 1 < |ts| {
      PathThrough(h, ts[2 * k], ts[2 * k + 1], i);
    } else {
      assert PathIn(h, up, i) + [] == PathIn(h, up, i);
    }
  }

  lemma ComposePaths(whole: seq<Sibling>, mid: seq<Sibling>, below: seq<Sibling>, step: seq<Sibling>,
                     up: seq<Sibling>, full: seq<Sibling>)
    requires whole == mid + up && mid == below + step && full == step + up
    ensures whole == below + full
  {
  }

  /** One level of the walk: what holds of the paired level holds of this one. */
  lemma StepUp(h: HashFn, ts: seq<Tree>, j: nat, i: nat, k: nat, i': nat, at: nat)
    requires |ts| > 1 && j < |ts| && i < |Flatten(ts[j])| && k == j / 2
    requires i' < |Flatten(Pair(ts)[k])| && at < |Flatten(TreeOf(Pair(ts)))|
    requires PathIn(h, Pair(ts)[k], i') == PathIn(h, ts[j], i) + StepOf(Digested(h, ts), j)
    requires PathIn(h, TreeOf(Pair(ts)), at) == PathIn(h, Pair(ts)[k], i') + PathOf(h, Digested(h, Pair(ts)), k)
    ensures at < |Flatten(TreeOf(ts))|
    ensures PathIn(h, TreeOf(ts), at) == PathIn(h, ts[j], i) + PathOf(h, Digested(h, ts), j)
  {
    hide Flatten, PathIn, Pair, DigestOf, NextLevel;
    PairDigested(h, ts);
    var level := Digested(h, ts);
    ComposePaths(PathIn(h, TreeOf(ts), at), PathIn(h, Pair(ts)[k], i'), PathIn(h, ts[j], i),
                 StepOf(level, j), PathOf(h, NextLevel(h, level), k), PathOf(h, level, j));
  }

  /** The prover's level loop walks the path of the symbolic tree. */
  lemma {:induction false} PathsAgree(h: HashFn, ts: seq<Tree>, j: nat, i: nat, at: nat)
    requires j < |ts| && i < |Flatten(ts[j])| && at == Offset(ts, j) + i
    ensures at < |Flatten(TreeOf(ts))|
    ensures PathIn(h, TreeOf(ts), at) == PathIn(h, ts[j], i) + PathOf(h, Digested(h, ts), j)
    decreases |ts|
  {
    hide Flatten, PathIn, Pair, StepOf, DigestOf, NextLevel;
    if |ts| > 1 {
      var k := j / 2;
      PairAt(ts, k);
      PairOffset(ts, k);
      var i' := i;
      if j % 2 == 1 {
        i' := |Flatten(ts[j - 1])| + i;
        StepAt(h, ts, k);
        PathThrough(h, ts[j - 1], ts[j], i);
      } else {
        LiftLeft(h, ts, k, i, Pair(ts)[k]);
      }
      PathsAgree(h, Pair(ts), k, i', at);
      StepUp(h, ts, j, i, k, i', at);
    }
  }

  lemma {:induction false} LeafOffset(ds: seq<Digest>, j: nat)
    requires j <= |ds|
    ensures Offset(Leaves(ds), j) == j
  {
    if j > 0 {
      LeafOffset(ds, j - 1);
    }
  }

  lemma ProverPath(h: HashFn, ds: seq<Digest>, j: nat)
    requires j < |ds|
    ensures Flatten(TreeOver(ds)) == ds
    ensures PathOf(h, ds, j) == PathIn(h, TreeOver(ds), j)
  {
    RootIsTreeDigest(h, ds);
    LeafOffset(ds, j);
    PathsAgree(h, Leaves(ds), j, 0, j);
    assert Digested(h, Leaves(ds)) == ds;
  }

  // --- completeness ------------------------------------------------------------------

  lemma {:induction false} PathFolds(h: HashFn, t: Tree, i: nat)
    requires i < |Flatten(t)|
    ensures FoldPath(h, Flatten(t)[i], PathIn(h, t, i)) == DigestOf(h, t)
  {
    match t {
      case Leaf(_) =>
      case Inner(l, r) =>
        var n := |Flatten(l)|;
        var p := PathIn(h, t, i);
        if i < n {
          PathFolds(h, l, i);
          assert p[..|p| - 1] == PathIn(h, l, i);
        } else {
          PathFolds(h, r, i - n);
          assert p[..|p| - 1] == PathIn(h, r, i - n);
        }
    }
  }

  /** The number of levels above `n` leaves. */
  function CeilLog2(n: nat): nat {
    if n <= 1 then 0 else 1 + CeilLog2((n + 1) / 2)
  }

  lemma {:induction false} PathLength(h: HashFn, level: seq<Digest>, index: nat)
    requires index < |level|
    ensures |PathOf(h, level, index)| <= CeilLog2(|level|)
    ensures index == 0 ==> |PathOf(h, level, index)| == CeilLog2(|level|)
    decreases |level|
  {
    if |level| > 1 {
      PathLength(h, NextLevel(h, level), index / 2);
    }
  }

  lemma {:induction false} CeilLog2Bracket(n: nat)
    requires n >= 1
    ensures n <= Pow2(CeilLog2(n))
    ensures n > 1 ==> Pow2(CeilLog2(n) - 1) < n
  {
    if n > 1 {
      CeilLog2Bracket((n + 1) / 2);
    }
  }

  lemma {:induction false} NextPowerIsLeast(n: nat, k: nat)
    requires n >= 1 && k <= CeilLog2(n)
    ensures Pow2(k) > 0 && NextPowerOfTwo(n, Pow2(k)) == Pow2(CeilLog2(n))
    decreases CeilLog2(n) - k
  {
    Pow2Grows(k, k);
    CeilLog2Bracket(n);
    if k < CeilLog2(n) {
      Pow2Grows(k, CeilLog2(n) - 1);
      NextPowerIsLeast(n, k + 1);
    }
  }

  lemma {:induction false} TrailingZerosOfPower(k: nat)
    ensures Pow2(k) > 0 && TrailingZeros(Pow2(k)) == k
  {
    Pow2Grows(k, k);
    if k > 0 {
      TrailingZerosOfPower(k - 1);
    }
  }

  /** `next_power_of_two().trailing_zeros()` is the depth of the tree. */
  lemma MaxDepthIsDepth(n: nat)
    requires n >= 1
    ensures MaxDepth(n) == CeilLog2(n)
  {
    NextPowerIsLeast(n, 0);
    TrailingZerosOfPower(CeilLog2(n));
  }

  lemma {:induction false} CeilLog2Monotone(m: nat, n: nat)
    requires m <= n
    ensures CeilLog2(m) <= CeilLog2(n)
    decreases n
  {
    if m > 1 {
      CeilLog2Monotone((m + 1) / 2, (n + 1) / 2);
    }
  }

  lemma TwoTo32()
    ensures Pow2(32) == 0x1_0000_0000
  {
    assert Pow2(8) == 256;
    assert Pow2(16) == 65536 by {
      assert Pow2(12) == 4096;
    }
    assert Pow2(24) == 0x100_0000 by {
      assert Pow2(20) == 0x10_0000;
    }
    assert Pow2(28) == 0x1000_0000;
  }

  /** `leaf_count` saturates at `u32::MAX`, whose depth is 32: the verifier's length
      test lets every honest path through exactly up to 2^32 leaves. */
  lemma DepthBoundExact(n: nat)
    requires n >= 1
    ensures CeilLog2(n) <= MaxDepth(Saturate32(n)) <==> n <= 0x1_0000_0000
  {
    TwoTo32();
    MaxDepthIsDepth(Saturate32(n));
    DepthAtMost32(n);
    DepthAtMost32(U32_MAX);
    CeilLog2Bracket(U32_MAX);
    if n > U32_MAX && CeilLog2(U32_MAX) < 32 {
      Pow2Grows(CeilLog2(U32_MAX), 31);
      assert false;
    }
  }

  lemma DepthAtMost32(n: nat)
    requires n >= 1
    ensures CeilLog2(n) <= 32 <==> n <= 0x1_0000_0000
  {
    TwoTo32();
    CeilLog2Bracket(n);
    if CeilLog2(n) <= 32 {
      Pow2Grows(CeilLog2(n), 32);
    } else {
      Pow2Grows(32, CeilLog2(n) - 1);
    }
  }

  /** Completeness with its exact bound: every proof the prover hands out verifies if
      and only if the tree has at most 2^32 leaves. Beyond that the first leaf's own
      honest proof is one step too long for the saturated count. */
  lemma HonestProofsVerify(h: HashFn, leaves: seq<Digest>)
    requires leaves != []
    ensures (forall i :: 0 <= i < |leaves| ==> Accepts(h, ProofAt(h, leaves, i), RootOf(h, leaves)))
       <==> |leaves| <= 0x1_0000_0000
  {
    RootIsTreeDigest(h, leaves);
    DepthBoundExact(|leaves|);
    forall i | 0 <= i < |leaves|
      ensures FoldPath(h, leaves[i], PathOf(h, leaves, i)) == RootOf(h, leaves)
      ensures |PathOf(h, leaves, i)| <= CeilLog2(|leaves|)
    {
      ProverPath(h, leaves, i);
      PathFolds(h, TreeOver(leaves), i);
      PathLength(h, leaves, i);
    }
    PathLength(h, leaves, 0);
    if |leaves| > 0x1_0000_0000 {
      assert !Accepts(h, ProofAt(h, leaves, 0), RootOf(h, leaves));
    }
  }

  /** The prover answers exactly for members of the sealed set. */
  lemma ProvesExactlyMembers(h: HashFn, leaves: seq<Digest>, target: Digest)
    requires Sealed(leaves).Ok?
    ensures ProofOf(h, Sealed(leaves).value.leaves, target).Some? <==> target in leaves
    ensures target in leaves && |leaves| <= 0x1_0000_0000 ==>
      Accepts(h, ProofOf(h, Sealed(leaves).value.leaves, target).value, RootOf(h, Sealed(leaves).value.leaves))
  {
    SealedExact(leaves);
    var t := Sealed(leaves).value.leaves;
    EqualBagsSameLength(t, leaves);
    if target in leaves {
      MemberAcross(leaves, t, target);
      HonestProofsVerify(h, t);
      var i := IndexOf(t, target).value;
      assert |t| <= 0x1_0000_0000 ==> Accepts(h, ProofAt(h, t, i), RootOf(h, t));
    } else if IndexOf(t, target).Some? {
      MemberAcross(t, leaves, target);
    }
  }

  // --- soundness -----------------------------------------------------------------------

  function StepPreimage(current: Digest, step: Sibling): Preimage {
    if step.side == Left then NodePreimage(step.hash, current) else NodePreimage(current, step.hash)
  }

  /** The node preimages a verifier hashes along a path. */
  function PathPreimages(h: HashFn, leaf: Digest, siblings: seq<Sibling>): set<Preimage> {
    if siblings == [] then {}
    else
      var below := siblings[..|siblings| - 1];
      var last := siblings[|siblings| - 1];
      var current := FoldPath(h, leaf, below);
      PathPreimages(h, leaf, below)
      + {StepPreimage(current, last)}
  }

  lemma LeafIsNoNode(h: HashFn, d: Digest, p: Preimage, all: set<Preimage>)
    requires LeafTagged(h, [d], all) && p.tag == Tag.Node && p in all && Injective(h, all)
    ensures h(p) != d
  {
    assert d in [d];
  }

  /** The last step of an accepted path splits the root's node. */
  lemma LastStepSplits(h: HashFn, t: Tree, current: Digest, last: Sibling, all: set<Preimage>)
    requires Climb(h, current, last) == DigestOf(h, t)
    requires LeafTagged(h, Flatten(t), all) && NodePreimages(h, t) <= all && Injective(h, all)
    requires StepPreimage(current, last) in all
    ensures t.Inner?
    ensures last.side == Left ==> last.hash == DigestOf(h, t.left) && current == DigestOf(h, t.right)
    ensures last.side == Right ==> current == DigestOf(h, t.left) && last.hash == DigestOf(h, t.right)
  {
    var l, r := if last.side == Left then last.hash else current, if last.side == Left then current else last.hash;
    var p := StepPreimage(current, last);
    assert p == NodePreimage(l, r) && h(p) == DigestOf(h, t);
    if t.Leaf? {
      LeafIsNoNode(h, t.digest, p, all);
      assert false;
    }
    var a, b := DigestOf(h, t.left), DigestOf(h, t.right);
    assert NodePreimage(a, b) in all;
    NodePreimageInjective(l, r, a, b);
  }

  lemma {:induction false} AcceptedPathIsAPath(h: HashFn, t: Tree, leaf: Digest, siblings: seq<Sibling>,
                                               all: set<Preimage>)
    returns (i: nat)
    requires FoldPath(h, leaf, siblings) == DigestOf(h, t)
    requires LeafTagged(h, Flatten(t), all) && LeafTagged(h, [leaf], all)
    requires NodePreimages(h, t) <= all && PathPreimages(h, leaf, siblings) <= all && Injective(h, all)
    ensures i < |Flatten(t)| && Flatten(t)[i] == leaf && siblings == PathIn(h, t, i)
    decreases t
  {
    i := 0;
    if siblings == [] {
      if t.Inner? {
        LeafIsNotNode(h, leaf, t, all);
      }
    } else {
      var below, last := siblings[..|siblings| - 1], siblings[|siblings| - 1];
      LastStepSplits(h, t, FoldPath(h, leaf, below), last, all);
      LeafTaggedParts(h, Flatten(t.left), Flatten(t.right), all);
      if last.side == Left {
        var k := AcceptedPathIsAPath(h, t.right, leaf, below, all);
        i := |Flatten(t.left)| + k;
      } else {
        i := AcceptedPathIsAPath(h, t.left, leaf, below, all);
      }
      assert siblings == below + [last];
    }
  }

  lemma IndexUnique(ds: seq<Digest>, i: nat)
    requires KeysDistinct(Raw, ds) && i < |ds|
    ensures IndexOf(ds, ds[i]) == Some(i)
  {
    assert forall k :: 0 <= k < |ds| && k != i ==> Raw(ds[k]) != Raw(ds[i]);
  }

  /** Soundness and uniqueness. If the verifier accepts a proof for the digest of a
      leaf-tagged preimage `p` against the root of the leaves `ps`, then `p` is one of
      `ps` and the sibling list, sides included, is the one the prover emits; or two
      preimages hashed by the tree or by the verifier collide. */
  lemma AcceptedProofIsHonest(h: HashFn, ps: seq<Preimage>, p: Preimage, proof: MerkleProof)
    requires AllLeaves(ps) && p.tag.IsLeaf()
    requires Sealed(Digests(h, ps)).Ok? && Sealed(Digests(h, ps)).value.leaves != []
    requires proof.leaf == h(p)
    requires Accepts(h, proof, RootOf(h, Sealed(Digests(h, ps)).value.leaves))
    ensures
      || (p in ps
          && ProofOf(h, Sealed(Digests(h, ps)).value.leaves, proof.leaf).Some?
          && ProofOf(h, Sealed(Digests(h, ps)).value.leaves, proof.leaf).value.siblings == proof.siblings)
      || Collides(h, Hashed(h, ps) + {p} + PathPreimages(h, proof.leaf, proof.siblings))
  {
    var all := Hashed(h, ps) + {p} + PathPreimages(h, proof.leaf, proof.siblings);
    InjectiveUnlessCollides(h, all);
    if Injective(h, all) {
      var ds := Digests(h, ps);
      SealedExact(ds);
      var t := Sealed(ds).value.leaves;
      RootIsTreeDigest(h, t);
      SealedLeafTagged(h, ps, all);
      assert LeafTagged(h, [proof.leaf], all);
      var i := AcceptedPathIsAPath(h, TreeOver(t), proof.leaf, proof.siblings, all);
      ProverPath(h, t, i);
      IndexUnique(t, i);
      MemberAcross(t, ds, proof.leaf);
      var k :| 0 <= k < |ds| && ds[k] == proof.leaf;
      assert ps[k] in SetOf(ps);
      assert p in all && ps[k] in all && h(ps[k]) == h(p);
    }
  }

  /** Why the leaf tag matters: without it the digest of an inner node passes as a
      leaf. Over any four leaves, `H(a, b)` has an accepted proof of one step. */
  lemma InnerNodePassesUntagged(h: HashFn, a: Digest, b: Digest, c: Digest, d: Digest)
    ensures Accepts(h, MerkleProof(NodeHash(h, a, b), [Sibling(NodeHash(h, c, d), Right)], 4), RootOf(h, [a, b, c, d]))
  {
    MaxDepthIsDepth(4);
    assert CeilLog2(4) == 2;
    var up := NextLevel(h, [a, b, c, d]);
    assert [a, b, c, d][2..] == [c, d] && [c, d][2..] == [];
    assert NextLevel(h, [c, d]) == [NodeHash(h, c, d)] + NextLevel(h, []);
    assert up == [NodeHash(h, a, b), NodeHash(h, c, d)];
    var s := [Sibling(NodeHash(h, c, d), Right)];
    assert s[..0] == [];
    assert RootOf(h, up) == NodeHash(h, up[0], up[1]);
  }

  /** `leaf_count` binds nothing: a proof accepted under one count is accepted under
      exactly the counts at least as deep as its path, so under every larger one. */
  lemma LeafCountIsOnlyABound(h: HashFn, proof: MerkleProof, root: Digest, count: u32)
    requires Accepts(h, proof, root)
    ensures Accepts(h, proof.(leafCount := count), root) <==> count >= 1 && |proof.siblings| <= CeilLog2(count)
    ensures count >= proof.leafCount ==> Accepts(h, proof.(leafCount := count), root)
  {
    MaxDepthIsDepth(proof.leafCount);
    if count >= 1 {
      MaxDepthIsDepth(count);
    }
    if count >= proof.leafCount {
      CeilLog2Monotone(proof.leafCount, count);
    }
  }
}
