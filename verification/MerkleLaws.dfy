/** What the Merkle tree promises: the root is a function of the leaf set, it binds
    that set, honest proofs are accepted, and accepted proofs are the honest ones.

    The level-by-level construction is related to a symbolic binary tree whose
    leaves, read left to right, are exactly the sorted digests. Promotion then needs
    no special case: the shape of the tree never enters the binding argument. */
module MerkleLaws {
  import opened Basics
  import opened Ordering
  import opened Hashing
  import opened Merkle

  // --- the symbolic tree --------------------------------------------------------

  datatype Tree = Leaf(digest: Digest) | Inner(left: Tree, right: Tree)

  function DigestOf(h: HashFn, t: Tree): Digest {
    match t
    case Leaf(d) => d
    case Inner(l, r) => NodeHash(h, DigestOf(h, l), DigestOf(h, r))
  }

  function Flatten(t: Tree): (ds: seq<Digest>)
    ensures ds != []
  {
    match t
    case Leaf(d) => [d]
    case Inner(l, r) => Flatten(l) + Flatten(r)
  }

  /** Every node preimage hashed on the way to the tree's digest. */
  function NodePreimages(h: HashFn, t: Tree): set<Preimage> {
    match t
    case Leaf(_) => {}
    case Inner(l, r) =>
      {NodePreimage(DigestOf(h, l), DigestOf(h, r))} + NodePreimages(h, l) + NodePreimages(h, r)
  }

  function Digested(h: HashFn, ts: seq<Tree>): (ds: seq<Digest>)
    ensures |ds| == |ts| && forall i :: 0 <= i < |ts| ==> ds[i] == DigestOf(h, ts[i])
  {
    seq(|ts|, i requires 0 <= i < |ts| => DigestOf(h, ts[i]))
  }

  function FlattenAll(ts: seq<Tree>): seq<Digest> {
    if ts == [] then [] else Flatten(ts[0]) + FlattenAll(ts[1..])
  }

  function Pair(ts: seq<Tree>): (next: seq<Tree>)
    ensures |next| == (|ts| + 1) / 2
  {
    if |ts| <= 1 then ts else [Inner(ts[0], ts[1])] + Pair(ts[2..])
  }

  function TreeOf(ts: seq<Tree>): Tree
    requires ts != []
    decreases |ts|
  {
    if |ts| == 1 then ts[0] else TreeOf(Pair(ts))
  }

  function Leaves(ds: seq<Digest>): (ts: seq<Tree>)
    ensures |ts| == |ds| && forall i :: 0 <= i < |ds| ==> ts[i] == Leaf(ds[i])
  {
    seq(|ds|, i requires 0 <= i < |ds| => Leaf(ds[i]))
  }

  lemma {:induction false} PairDigested(h: HashFn, ts: seq<Tree>)
    ensures Digested(h, Pair(ts)) == NextLevel(h, Digested(h, ts))
  {
    if |ts| > 1 {
      PairDigested(h, ts[2..]);
      assert Digested(h, ts)[2..] == Digested(h, ts[2..]);
    }
  }

  lemma {:induction false} PairFlattens(ts: seq<Tree>)
    ensures FlattenAll(Pair(ts)) == FlattenAll(ts)
  {
    if |ts| > 1 {
      PairFlattens(ts[2..]);
      var rest := ts[1..];
      assert rest[1..] == ts[2..];
      assert Pair(ts)[0] == Inner(ts[0], ts[1]) && Pair(ts)[1..] == Pair(ts[2..]);
    }
  }

  /** The level loop computes the digest of a tree over those very leaves. */
  lemma {:induction false} LevelsAreTree(h: HashFn, ts: seq<Tree>)
    requires ts != []
    ensures RootOf(h, Digested(h, ts)) == DigestOf(h, TreeOf(ts))
    ensures Flatten(TreeOf(ts)) == FlattenAll(ts)
    decreases |ts|
  {
    if |ts| == 1 {
      assert FlattenAll(ts) == Flatten(ts[0]) + [];
    } else {
      PairDigested(h, ts);
      PairFlattens(ts);
      LevelsAreTree(h, Pair(ts));
    }
  }

  lemma {:induction false} FlattenLeaves(ds: seq<Digest>)
    ensures FlattenAll(Leaves(ds)) == ds
  {
    if ds != [] {
      FlattenLeaves(ds[1..]);
      assert Leaves(ds)[1..] == Leaves(ds[1..]);
    }
  }

  function TreeOver(ds: seq<Digest>): Tree
    requires ds != []
  {
    TreeOf(Leaves(ds))
  }

  lemma RootIsTreeDigest(h: HashFn, ds: seq<Digest>)
    requires ds != []
    ensures RootOf(h, ds) == DigestOf(h, TreeOver(ds))
    ensures Flatten(TreeOver(ds)) == ds
  {
    LevelsAreTree(h, Leaves(ds));
    FlattenLeaves(ds);
    assert Digested(h, Leaves(ds)) == ds;
  }

  // --- sealing a set --------------------------------------------------------------

  lemma RawKeysApart(ds: seq<Digest>)
    ensures KeyedApart(Raw, ds)
  {
    forall i, j | 0 <= i < |ds| && 0 <= j < |ds| && Raw(ds[i]) == Raw(ds[j])
      ensures ds[i] == ds[j]
    {
      RawInjective(ds[i], ds[j]);
    }
  }

  /** `build` accepts exactly the non-empty lists without a repeated digest, and
      keeps every leaf. */
  lemma SealedExact(leaves: seq<Digest>)
    ensures Sealed(leaves) == Err(NoLeaves) <==> leaves == []
    ensures Sealed(leaves).Ok? <==> leaves != [] && KeysDistinct(Raw, leaves)
    ensures Sealed(leaves).Ok? ==>
      var t := Sealed(leaves).value.leaves;
      multiset(t) == multiset(leaves) && SortedBy(Raw, t) && KeysDistinct(Raw, t) && t != []
  {
    SortByCorrect(Raw, leaves);
    var s := SortBy(Raw, leaves);
    AdjacentRepeatExact(Raw, s);
    if KeysDistinct(Raw, leaves) {
      KeysDistinctPermuted(Raw, leaves, s);
    }
    if KeysDistinct(Raw, s) {
      KeysDistinctPermuted(Raw, s, leaves);
    }
  }

  /** Two collections of one leaf set, in any order, seal alike: the same tree, or
      the same error. */
  lemma SealIgnoresOrder(a: seq<Digest>, b: seq<Digest>)
    requires multiset(a) == multiset(b)
    ensures Sealed(a) == Sealed(b)
  {
    SortByCorrect(Raw, a);
    SortByCorrect(Raw, b);
    RawKeysApart(SortBy(Raw, a));
    SortedUnique(Raw, SortBy(Raw, a), SortBy(Raw, b));
    EqualBagsSameLength(a, b);
  }

  // --- binding --------------------------------------------------------------------

  /** Every leaf of the tree is the digest of a leaf-tagged preimage in `ps`. */
  ghost predicate LeafTagged(h: HashFn, ds: seq<Digest>, ps: set<Preimage>) {
    forall d :: d in ds ==> exists p :: p in ps && p.tag.IsLeaf() && h(p) == d
  }

  lemma LeafTaggedParts(h: HashFn, a: seq<Digest>, b: seq<Digest>, ps: set<Preimage>)
    requires LeafTagged(h, a + b, ps)
    ensures LeafTagged(h, a, ps) && LeafTagged(h, b, ps)
  {
    forall d | d in a
      ensures exists p :: p in ps && p.tag.IsLeaf() && h(p) == d
    {
      assert d in a + b;
    }
    forall d | d in b
      ensures exists p :: p in ps && p.tag.IsLeaf() && h(p) == d
    {
      assert d in a + b;
    }
  }

  /** A leaf-tagged digest is no inner node's digest. */
  lemma LeafIsNotNode(h: HashFn, d: Digest, t: Tree, all: set<Preimage>)
    requires LeafTagged(h, [d], all) && t.Inner? && NodePreimages(h, t) <= all
    requires Injective(h, all)
    ensures d != DigestOf(h, t)
  {
    assert d in [d];
    var p :| p in all && p.tag.IsLeaf() && h(p) == d;
    assert NodePreimage(DigestOf(h, t.left), DigestOf(h, t.right)) in all;
  }

  lemma ChildrenAgree(h: HashFn, t: Tree, u: Tree, all: set<Preimage>)
    requires t.Inner? && u.Inner? && DigestOf(h, t) == DigestOf(h, u)
    requires NodePreimages(h, t) <= all && NodePreimages(h, u) <= all && Injective(h, all)
    ensures DigestOf(h, t.left) == DigestOf(h, u.left)
    ensures DigestOf(h, t.right) == DigestOf(h, u.right)
  {
    var a, b, c, d := DigestOf(h, t.left), DigestOf(h, t.right), DigestOf(h, u.left), DigestOf(h, u.right);
    assert NodePreimage(a, b) in all && NodePreimage(c, d) in all;
    NodePreimageInjective(a, b, c, d);
  }

  /** Over leaf-tagged digests, equal digests come from equal trees, whatever their
      sizes and shapes. */
  lemma {:induction false} DigestBindsTree(h: HashFn, t: Tree, u: Tree, all: set<Preimage>)
    requires DigestOf(h, t) == DigestOf(h, u)
    requires LeafTagged(h, Flatten(t), all) && LeafTagged(h, Flatten(u), all)
    requires NodePreimages(h, t) <= all && NodePreimages(h, u) <= all && Injective(h, all)
    ensures t == u
    decreases t
  {
    match (t, u) {
      case (Leaf(_), Leaf(_)) =>
      case (Leaf(d), Inner(_, _)) => LeafIsNotNode(h, d, u, all);
      case (Inner(_, _), Leaf(d)) => LeafIsNotNode(h, d, t, all);
      case (Inner(l, r), Inner(l', r')) =>
        ChildrenAgree(h, t, u, all);
        LeafTaggedParts(h, Flatten(l), Flatten(r), all);
        LeafTaggedParts(h, Flatten(l'), Flatten(r'), all);
        DigestBindsTree(h, l, l', all);
        DigestBindsTree(h, r, r', all);
    }
  }

  /** Everything hashed to get from two leaf sets to their roots. */
  function Hashed(h: HashFn, ps: seq<Preimage>): set<Preimage> {
    var s := Sealed(Digests(h, ps));
    SetOf(ps) + if s.Ok? && s.value.leaves != [] then NodePreimages(h, TreeOver(s.value.leaves)) else {}
  }

  ghost predicate AllLeaves(ps: seq<Preimage>) {
    forall p :: p in ps ==> p.tag.IsLeaf()
  }

  /** The root of a leaf collection, as `chain::root` computes it. */
  function RootOfSet(h: HashFn, leaves: seq<Digest>): (r: Result<Digest, BuildError>)
    ensures r.Ok? <==> Sealed(leaves).Ok?
  {
    match Sealed(leaves)
    case Err(e) => Err(e)
    case Ok(t) =>
      SealedExact(leaves);
      Ok(RootOf(h, t.leaves))
  }

  lemma SealedLeafTagged(h: HashFn, ps: seq<Preimage>, all: set<Preimage>)
    requires AllLeaves(ps) && Sealed(Digests(h, ps)).Ok? && SetOf(ps) <= all
    ensures LeafTagged(h, Sealed(Digests(h, ps)).value.leaves, all)
  {
    var ds := Digests(h, ps);
    SealedExact(ds);
    forall d | d in Sealed(ds).value.leaves
      ensures exists p :: p in all && p.tag.IsLeaf() && h(p) == d
    {
      MemberAcross(Sealed(ds).value.leaves, ds, d);
      var i :| 0 <= i < |ds| && ds[i] == d;
      assert ps[i] in SetOf(ps) && ps[i].tag.IsLeaf() && h(ps[i]) == d;
    }
  }

  /** The root binds the leaf set. Two collections of leaf preimages, of any sizes,
      that `build` accepts and that have one root are the same collection, or two
      preimages hashed while computing those roots collide. */
  lemma RootBindsLeafSet(h: HashFn, ps: seq<Preimage>, qs: seq<Preimage>)
    requires AllLeaves(ps) && AllLeaves(qs)
    requires RootOfSet(h, Digests(h, ps)).Ok? && RootOfSet(h, Digests(h, qs)) == RootOfSet(h, Digests(h, ps))
    ensures multiset(ps) == multiset(qs) || Collides(h, Hashed(h, ps) + Hashed(h, qs))
  {
    var all := Hashed(h, ps) + Hashed(h, qs);
    InjectiveUnlessCollides(h, all);
    if Injective(h, all) {
      var ds, es := Digests(h, ps), Digests(h, qs);
      SealedExact(ds);
      SealedExact(es);
      var t, u := Sealed(ds).value.leaves, Sealed(es).value.leaves;
      RootIsTreeDigest(h, t);
      RootIsTreeDigest(h, u);
      SealedLeafTagged(h, ps, all);
      SealedLeafTagged(h, qs, all);
      DigestBindsTree(h, TreeOver(t), TreeOver(u), all);
      assert t == u;
      assert multiset(ds) == multiset(es);
      assert forall p :: p in ps ==> p in SetOf(ps);
      assert forall q :: q in qs ==> q in SetOf(qs);
      DigestsBind(h, ps, qs, all);
    }
  }

  /** Trees of one shape bind their leaves without any assumption on the leaves. */
  ghost predicate SameShape(t: Tree, u: Tree) {
    match (t, u)
    case (Leaf(_), Leaf(_)) => true
    case (Inner(l, r), Inner(l', r')) => SameShape(l, l') && SameShape(r, r')
    case _ => false
  }

  lemma {:induction false} DigestBindsSameShape(h: HashFn, t: Tree, u: Tree, all: set<Preimage>)
    requires SameShape(t, u) && DigestOf(h, t) == DigestOf(h, u)
    requires NodePreimages(h, t) <= all && NodePreimages(h, u) <= all && Injective(h, all)
    ensures t == u
    decreases t
  {
    if t.Inner? {
      ChildrenAgree(h, t, u, all);
      DigestBindsSameShape(h, t.left, u.left, all);
      DigestBindsSameShape(h, t.right, u.right, all);
    }
  }

  ghost predicate SameShapes(ts: seq<Tree>, us: seq<Tree>) {
    |ts| == |us| && forall i :: 0 <= i < |ts| ==> SameShape(ts[i], us[i])
  }

  lemma {:induction false} PairSameShapes(ts: seq<Tree>, us: seq<Tree>)
    requires SameShapes(ts, us)
    ensures SameShapes(Pair(ts), Pair(us))
  {
    if |ts| > 1 {
      PairSameShapes(ts[2..], us[2..]);
    }
  }

  lemma {:induction false} SizeFixesShape(ts: seq<Tree>, us: seq<Tree>)
    requires SameShapes(ts, us) && ts != []
    ensures SameShape(TreeOf(ts), TreeOf(us))
    decreases |ts|
  {
    if |ts| > 1 {
      PairSameShapes(ts, us);
      SizeFixesShape(Pair(ts), Pair(us));
    }
  }

  /** Every node preimage of the tree a digest list seals to. */
  function NodesHashed(h: HashFn, leaves: seq<Digest>): set<Preimage> {
    var s := Sealed(leaves);
    if s.Ok? && s.value.leaves != [] then NodePreimages(h, TreeOver(s.value.leaves)) else {}
  }

  /** With the leaf count fixed, arbitrary 32-byte strings in the place of leaves are
      bound too. This is what makes `verify` sound over a store whose leaf rows may
      have been rewritten to anything. */
  lemma RootBindsSameSize(h: HashFn, a: seq<Digest>, b: seq<Digest>)
    requires |a| == |b|
    requires RootOfSet(h, a).Ok? && RootOfSet(h, b) == RootOfSet(h, a)
    ensures multiset(a) == multiset(b) || Collides(h, NodesHashed(h, a) + NodesHashed(h, b))
  {
    var all := NodesHashed(h, a) + NodesHashed(h, b);
    InjectiveUnlessCollides(h, all);
    if Injective(h, all) {
      SealedExact(a);
      SealedExact(b);
      var t, u := Sealed(a).value.leaves, Sealed(b).value.leaves;
      EqualBagsSameLength(t, a);
      EqualBagsSameLength(u, b);
      RootIsTreeDigest(h, t);
      RootIsTreeDigest(h, u);
      SizeFixesShape(Leaves(t), Leaves(u));
      DigestBindsSameShape(h, TreeOver(t), TreeOver(u), all);
    }
  }

  // --- digests in order ---------------------------------------------------------------------------

  lemma {:induction false} LexAppend(a: Bytes, b: Bytes, x: u8, y: u8)
    requires |a| == |b| && LexLeq(a, b) && (a == b ==> x <= y)
    ensures LexLeq(a + [x], b + [y])
  {
    if a != [] {
      assert (a + [x])[1..] == a[1..] + [x] && (b + [y])[1..] == b[1..] + [y];
      if a[0] == b[0] {
        assert a == [a[0]] + a[1..] && b == [b[0]] + b[1..];
        LexAppend(a[1..], b[1..], x, y);
      }
    }
  }

  /** Equal widths compare as the numbers do. */
  lemma {:induction false} BigEndianOrdered(m: nat, n: nat, width: nat)
    requires m <= n < Pow256(width)
    ensures LexLeq(BigEndian(m, width), BigEndian(n, width))
  {
    if width > 0 {
      BigEndianOrdered(m / 256, n / 256, width - 1);
      if BigEndian(m / 256, width - 1) == BigEndian(n / 256, width - 1) {
        BigEndianInjective(m / 256, n / 256, width - 1);
      }
      LexAppend(BigEndian(m / 256, width - 1), BigEndian(n / 256, width - 1), m % 256, n % 256);
    }
  }

  lemma RawOrdered(d: Digest, e: Digest)
    requires d < e
    ensures LexLeq(Raw(d), Raw(e)) && Raw(d) != Raw(e)
  {
    Pow256Values();
    BigEndianOrdered(d, e, 32);
    if Raw(d) == Raw(e) {
      RawInjective(d, e);
    }
  }

  /** Leaves given in any order seal to the arrangement that ascends. */
  lemma SealsTo(leaves: seq<Digest>, s: seq<Digest>)
    requires multiset(leaves) == multiset(s) && s != []
    requires forall i, j :: 0 <= i < j < |s| ==> s[i] < s[j]
    ensures Sealed(leaves) == Ok(MerkleTree(s))
  {
    hide Raw, LexLeq;
    forall i, j | 0 <= i < j < |s|
      ensures LexLeq(Raw(s[i]), Raw(s[j])) && Raw(s[i]) != Raw(s[j])
    {
      RawOrdered(s[i], s[j]);
    }
    SealIgnoresOrder(leaves, s);
    SealedExact(s);
    RawKeysApart(s);
    SortedUnique(Raw, s, Sealed(s).value.leaves);
  }

  /** A sealed tree holds the leaves it was given, in ascending order as numbers. */
  lemma SealedAscends(leaves: seq<Digest>)
    ensures Sealed(leaves).Ok? ==>
      var t := Sealed(leaves).value.leaves;
      multiset(t) == multiset(leaves) && forall i, j :: 0 <= i < j < |t| ==> t[i] < t[j]
  {
    hide Raw, LexLeq, Sealed;
    SealedExact(leaves);
    if Sealed(leaves).Ok? {
      var t := Sealed(leaves).value.leaves;
      forall i, j | 0 <= i < j < |t|
        ensures t[i] < t[j]
      {
        assert LexLeq(Raw(t[i]), Raw(t[j])) && Raw(t[i]) != Raw(t[j]);
        if t[j] < t[i] {
          RawOrdered(t[j], t[i]);
          LexAntisymmetric(Raw(t[i]), Raw(t[j]));
        }
      }
    }
  }
}
