/** Tagged hashing. Every digest is `SHA256(SHA256(tag) || SHA256(tag) || msg)`.

    SHA-256 itself is a parameter: nothing is assumed of it. A binding theorem
    therefore concludes "the claim holds, or two distinct preimages *among the
    ones these computations hash* have one digest". The finite set matters: over
    all byte strings a collision always exists, and the statement would say nothing. */
module Hashing {
  import opened Basics

  /** A 32-byte digest, read as a big-endian number. */
  type Digest = d: int | 0 <= d < TWO_TO_256

  /** The raw digest bytes (`as_bytes`). */
  function Raw(d: Digest): (b: Bytes)
    ensures |b| == 32
  {
    BigEndian(d, 32)
  }

  lemma RawInjective(d: Digest, e: Digest)
    requires Raw(d) == Raw(e)
    ensures d == e
  {
    Pow256Values();
    BigEndianInjective(d, e, 32);
  }

  datatype Tag =
    | MemoryLeaf | QuestLeaf | VerdictLeaf | MetaLeaf | Node | FootageRoot
    | Link | Genesis | QuestAnswer | Persona | Egress
  {
    /** The frozen wire string. */
    function AsStr(): Bytes {
      match this
      case MemoryLeaf => Ascii("ghostr/v1/memory-leaf")
      case QuestLeaf => Ascii("ghostr/v1/quest-leaf")
      case VerdictLeaf => Ascii("ghostr/v1/verdict-leaf")
      case MetaLeaf => Ascii("ghostr/v1/meta-leaf")
      case Node => Ascii("ghostr/v1/node")
      case FootageRoot => Ascii("ghostr/v1/footage-root")
      case Link => Ascii("ghostr/v1/link")
      case Genesis => Ascii("ghostr/v1/genesis")
      case QuestAnswer => Ascii("ghostr/v1/quest-answer")
      case Persona => Ascii("ghostr/v1/persona")
      case Egress => Ascii("ghostr/v1/egress")
    }

    /** The tags a Merkle leaf can carry. */
    predicate IsLeaf() {
      MemoryLeaf? || QuestLeaf? || VerdictLeaf? || MetaLeaf?
    }
  }

  /** What is hashed: a domain and a message. */
  datatype Preimage = Preimage(tag: Tag, msg: Bytes)

  type HashFn = Preimage -> Digest

  ghost predicate Injective(h: HashFn, s: set<Preimage>) {
    forall p, q :: p in s && q in s && h(p) == h(q) ==> p == q
  }

  /** Two distinct members of `s` share a digest. */
  ghost predicate Collides(h: HashFn, s: set<Preimage>) {
    exists p, q :: p in s && q in s && p != q && h(p) == h(q)
  }

  lemma InjectiveUnlessCollides(h: HashFn, s: set<Preimage>)
    ensures Injective(h, s) <==> !Collides(h, s)
  {
  }

  function Concat(parts: seq<Bytes>): Bytes {
    if parts == [] then [] else Concat(parts[..|parts| - 1]) + parts[|parts| - 1]
  }

  /** What the hasher has absorbed when it is finalised. */
  function Framed(sha: Bytes -> Digest, p: Preimage): Bytes {
    Raw(sha(p.tag.AsStr())) + Raw(sha(p.tag.AsStr())) + p.msg
  }

  function TaggedHash(sha: Bytes -> Digest, p: Preimage): Digest {
    sha(Framed(sha, p))
  }

  /** Feeds the tag digest twice and then each part; no length prefixes, so the
      result depends on the concatenation alone. */
  method TaggedHashParts(sha: Bytes -> Digest, tag: Tag, parts: seq<Bytes>) returns (d: Digest)
    ensures d == sha(Raw(sha(tag.AsStr())) + Raw(sha(tag.AsStr())) + Concat(parts))
    ensures d == TaggedHash(sha, Preimage(tag, Concat(parts)))
  {
    var tagDigest := Raw(sha(tag.AsStr()));
    var absorbed: Bytes := tagDigest;
    absorbed := absorbed + tagDigest;
    for i := 0 to |parts|
      invariant absorbed == tagDigest + tagDigest + Concat(parts[..i])
    {
      assert parts[..i + 1][..i] == parts[..i];
      absorbed := absorbed + parts[i];
    }
    assert parts[..|parts|] == parts;
    d := sha(absorbed);
  }

  lemma AsciiInjective(s: string, t: string)
    requires forall i :: 0 <= i < |s| ==> s[i] < 128 as char
    requires forall i :: 0 <= i < |t| ==> t[i] < 128 as char
    requires Ascii(s) == Ascii(t)
    ensures s == t
  {
    assert |Ascii(s)| == |s| && |Ascii(t)| == |t|;
    forall i | 0 <= i < |s|
      ensures s[i] == t[i]
    {
      assert Ascii(s)[i] == s[i] as int && Ascii(t)[i] == t[i] as int;
    }
  }

  /** Every tag is its own hash domain: the eleven wire strings differ pairwise. */
  lemma TagStringsDistinct(s: Tag, t: Tag)
    requires s.AsStr() == t.AsStr()
    ensures s == t
  {
    TagFingerprint(s);
    TagFingerprint(t);
  }

  /** Length and two characters are enough to tell the wire strings apart. */
  function Fingerprint(t: Tag): (nat, char, char) {
    match t
    case MemoryLeaf => (21, 'm', 'e')
    case QuestLeaf => (20, 'q', 'u')
    case VerdictLeaf => (22, 'v', 'e')
    case MetaLeaf => (19, 'm', 'e')
    case Node => (14, 'n', 'o')
    case FootageRoot => (22, 'f', 'o')
    case Link => (14, 'l', 'i')
    case Genesis => (17, 'g', 'e')
    case QuestAnswer => (22, 'q', 'u')
    case Persona => (17, 'p', 'e')
    case Egress => (16, 'e', 'g')
  }

  lemma TagFingerprint(t: Tag)
    ensures |t.AsStr()| == Fingerprint(t).0
    ensures t.AsStr()[10] == Fingerprint(t).1 as int
    ensures t.AsStr()[11] == Fingerprint(t).2 as int
  {
  }

  /** What SHA-256 is asked to hash for one preimage. */
  function ShaInputs(sha: Bytes -> Digest, p: Preimage): set<Bytes> {
    {p.tag.AsStr(), Framed(sha, p)}
  }

  ghost predicate ShaCollides(sha: Bytes -> Digest, s: set<Bytes>) {
    exists a, b :: a in s && b in s && a != b && sha(a) == sha(b)
  }

  /** Domain separation and framing cost nothing in binding: a tagged collision
      is a SHA-256 collision among the four strings the two hashes feed it, so a
      memory leaf can never stand in for a node, a link or a quest. */
  lemma TaggedCollisionIsShaCollision(sha: Bytes -> Digest, p: Preimage, q: Preimage)
    requires p != q && TaggedHash(sha, p) == TaggedHash(sha, q)
    ensures ShaCollides(sha, ShaInputs(sha, p) + ShaInputs(sha, q))
  {
    var s := ShaInputs(sha, p) + ShaInputs(sha, q);
    assert Framed(sha, p) in s && Framed(sha, q) in s;
    if Framed(sha, p) == Framed(sha, q) {
      var a, b := Raw(sha(p.tag.AsStr())), Raw(sha(q.tag.AsStr()));
      ConcatSplit(a + a, p.msg, b + b, q.msg);
      ConcatSplit(a, a, b, b);
      RawInjective(sha(p.tag.AsStr()), sha(q.tag.AsStr()));
      assert p.tag.AsStr() in s && q.tag.AsStr() in s;
      if p.tag.AsStr() == q.tag.AsStr() {
        TagStringsDistinct(p.tag, q.tag);
        assert false;
      }
    }
  }

  // --- sequences of preimages and their digests --------------------------------

  function Digests(h: HashFn, ps: seq<Preimage>): (ds: seq<Digest>)
    ensures |ds| == |ps| && forall i :: 0 <= i < |ps| ==> ds[i] == h(ps[i])
  {
    seq(|ps|, i requires 0 <= i < |ps| => h(ps[i]))
  }

  lemma WithoutDigests(h: HashFn, ps: seq<Preimage>, j: nat)
    requires j < |ps|
    ensures Digests(h, Without(ps, j)) == Without(Digests(h, ps), j)
  {
  }

  /** Without collisions, equal bags of digests come from equal bags of preimages. */
  lemma {:induction false} DigestsBind(h: HashFn, ps: seq<Preimage>, qs: seq<Preimage>, all: set<Preimage>)
    requires multiset(Digests(h, ps)) == multiset(Digests(h, qs))
    requires forall p :: p in ps ==> p in all
    requires forall q :: q in qs ==> q in all
    requires Injective(h, all)
    ensures multiset(ps) == multiset(qs)
    decreases |ps|
  {
    var ds, es := Digests(h, ps), Digests(h, qs);
    EqualBagsSameLength(ds, es);
    if ps != [] {
      var j := FindEqual(ds, es);
      assert ps[0] == qs[j];
      WithoutDigests(h, ps, 0);
      WithoutDigests(h, qs, j);
      WithoutMultiset(ds, 0);
      WithoutMultiset(es, j);
      WithoutWithin(ps, 0, all);
      WithoutWithin(qs, j, all);
      DigestsBind(h, Without(ps, 0), Without(qs, j), all);
      WithoutMultiset(ps, 0);
      WithoutMultiset(qs, j);
      MultisetRestore(multiset(ps), multiset(qs), ps[0]);
    }
  }
}
