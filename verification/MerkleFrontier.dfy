/** What a root binds when only one side is known to be leaves. Digests of any kind may
    stand in the other tree, and then the root still fixes it as a frontier of the
    first: some subtrees stand as their digests, and nothing else has changed. */
module MerkleFrontier {
  import opened Basics
  import opened Ordering
  import opened Hashing
  import opened Merkle
  import opened MerkleLaws

  /** `u` is `t` cut short: a leaf of `u` is the digest of a subtree of `t`. */
  predicate Truncates(h: HashFn, u: Tree, t: Tree) {
    match u
    case Leaf(d) => d == DigestOf(h, t)
    case Inner(l, r) => t.Inner? && Truncates(h, l, t.left) && Truncates(h, r, t.right)
  }

  /** Against leaf-tagged digests, a tree has the same digest exactly when it is the
      other cut short, whatever its own leaves are. */
  lemma {:induction false} DigestTruncates(h: HashFn, u: Tree, t: Tree, all: set<Preimage>)
    requires LeafTagged(h, Flatten(t), all)
    requires NodePreimages(h, t) <= all && NodePreimages(h, u) <= all && Injective(h, all)
    ensures DigestOf(h, u) == DigestOf(h, t) <==> Truncates(h, u, t)
    decreases u
  {
    if u.Inner? && t.Inner? {
      LeafTaggedParts(h, Flatten(t.left), Flatten(t.right), all);
      DigestTruncates(h, u.left, t.left, all);
      DigestTruncates(h, u.right, t.right, all);
      if DigestOf(h, u) == DigestOf(h, t) {
        ChildrenAgree(h, u, t, all);
      }
    } else if u.Inner? {
      LeafIsNotNode(h, t.digest, u, all);
    }
  }

  /** A leaf-tagged digest in the cut tree is a leaf of the whole one. */
  lemma {:induction false} TaggedLeafSurvives(h: HashFn, u: Tree, t: Tree, d: Digest, all: set<Preimage>)
    requires Truncates(h, u, t) && d in Flatten(u) && LeafTagged(h, [d], all)
    requires NodePreimages(h, t) <= all && Injective(h, all)
    ensures d in Flatten(t)
    decreases u
  {
    match u {
      case Leaf(_) =>
        if t.Inner? {
          LeafIsNotNode(h, d, t, all);
        }
      case Inner(l, r) =>
        if d in Flatten(l) {
          TaggedLeafSurvives(h, l, t.left, d, all);
        } else {
          TaggedLeafSurvives(h, r, t.right, d, all);
        }
    }
  }

  /** The digests `b` seal to a frontier of the tree the digests `a` seal to. */
  predicate FrontierOf(h: HashFn, b: seq<Digest>, a: seq<Digest>) {
    && Sealed(a).Ok? && Sealed(a).value.leaves != [] && Sealed(b).Ok? && Sealed(b).value.leaves != []
    && Truncates(h, TreeOver(Sealed(b).value.leaves), TreeOver(Sealed(a).value.leaves))
  }

  /** Everything hashed on either side: the leaf preimages known and both trees' nodes. */
  function BothHashed(h: HashFn, ps: seq<Preimage>, b: seq<Digest>, qs: seq<Preimage>): set<Preimage> {
    SetOf(ps) + SetOf(qs) + NodesHashed(h, Digests(h, ps)) + NodesHashed(h, b)
  }

  /** A list of any digests has the root of the leaves `ps` exactly when it is a frontier
      of their tree; then whatever leaf preimages it is known to contain are among `ps`.
      Or two of the preimages hashed collide. */
  lemma RootBindsFrontier(h: HashFn, ps: seq<Preimage>, b: seq<Digest>, qs: seq<Preimage>)
    requires AllLeaves(ps) && AllLeaves(qs) && RootOfSet(h, Digests(h, ps)).Ok?
    requires forall q :: q in qs ==> h(q) in b
    ensures
      || Collides(h, BothHashed(h, ps, b, qs))
      || ((RootOfSet(h, b) == RootOfSet(h, Digests(h, ps)) <==> FrontierOf(h, b, Digests(h, ps)))
          && (FrontierOf(h, b, Digests(h, ps)) ==> forall q :: q in qs ==> q in ps))
  {
    var all := BothHashed(h, ps, b, qs);
    var a := Digests(h, ps);
    InjectiveUnlessCollides(h, all);
    if Injective(h, all) && Sealed(b).Ok? {
      SealedExact(a);
      SealedExact(b);
      var t, u := TreeOver(Sealed(a).value.leaves), TreeOver(Sealed(b).value.leaves);
      RootIsTreeDigest(h, Sealed(a).value.leaves);
      RootIsTreeDigest(h, Sealed(b).value.leaves);
      SealedLeafTagged(h, ps, all);
      DigestTruncates(h, u, t, all);
      if Truncates(h, u, t) {
        forall q | q in qs
          ensures q in ps
        {
          SurvivingPreimage(h, ps, b, q, all);
        }
      }
    }
  }

  lemma SurvivingPreimage(h: HashFn, ps: seq<Preimage>, b: seq<Digest>, q: Preimage, all: set<Preimage>)
    requires FrontierOf(h, b, Digests(h, ps)) && h(q) in b && q.tag.IsLeaf()
    requires q in all && SetOf(ps) <= all && NodesHashed(h, Digests(h, ps)) <= all && Injective(h, all)
    ensures q in ps
  {
    hide Truncates;
    var a := Digests(h, ps);
    SealedExact(a);
    SealedExact(b);
    var s, t := Sealed(b).value.leaves, Sealed(a).value.leaves;
    RootIsTreeDigest(h, s);
    RootIsTreeDigest(h, t);
    MemberAcross(b, s, h(q));
    TaggedLeafSurvives(h, TreeOver(s), TreeOver(t), h(q), all);
    MemberAcross(t, a, h(q));
    var i :| 0 <= i < |a| && a[i] == h(q);
    assert ps[i] in SetOf(ps);
  }
}
