/** The leaf payloads, byte by byte: a map with its fields in the order of their encoded
    names, each name and value as RFC 8949 writes it. */
module LeafBytes {
  import opened Basics
  import opened Hashing
  import opened Ordering
  import opened Calendar
  import opened Chain
  import opened Cbor
  import opened Canonical
  import opened CanonicalLaws
  import opened CborBytes
  import opened Leaves

  // --- records in canonical order ----------------------------------------------------------------------

  /** Neighbours ascend, and so everything does. */
  ghost predicate StepsUp(keys: seq<Bytes>) {
    forall i :: 0 <= i < |keys| - 1 ==> Below(keys[i], keys[i + 1])
  }

  predicate Below(a: Bytes, b: Bytes) {
    LexLeq(a, b) && a != b
  }

  lemma {:induction false} StepsSort(keys: seq<Bytes>, i: nat, j: nat)
    requires StepsUp(keys) && i < j < |keys|
    ensures Below(keys[i], keys[j])
    decreases j
  {
    if i + 1 < j {
      StepsSort(keys, i, j - 1);
      assert Below(keys[j - 1], keys[j - 1 + 1]);
      LexTransitive(keys[i], keys[j - 1], keys[j]);
      if keys[i] == keys[j] {
        LexAntisymmetric(keys[i], keys[j - 1]);
      }
    } else {
      assert Below(keys[i], keys[i + 1]);
    }
  }

  function KeyBytes(entries: seq<Entry>): (keys: seq<Bytes>)
    ensures |keys| == |entries| && forall i :: 0 <= i < |entries| ==> keys[i] == Encode(entries[i].key)
  {
    seq(|entries|, i requires 0 <= i < |entries| => Encode(entries[i].key))
  }

  function KeyedOf(entries: seq<Entry>): (keyed: seq<Keyed>)
    ensures |keyed| == |entries|
    ensures forall i :: 0 <= i < |entries| ==> keyed[i] == Keyed(Encode(entries[i].key), entries[i].key, entries[i].val)
  {
    seq(|entries|, i requires 0 <= i < |entries| => Keyed(Encode(entries[i].key), entries[i].key, entries[i].val))
  }

  /** Field entries of a record the canonicaliser leaves alone. */
  ghost predicate ScalarEntries(entries: seq<Entry>) {
    forall i :: 0 <= i < |entries| ==> Scalar(entries[i].key) && Scalar(entries[i].val)
  }

  lemma ScalarPasses(e: Entry)
    requires Scalar(e.key) && Scalar(e.val)
    ensures CanonEntry(e) == Ok(Keyed(Encode(e.key), e.key, e.val))
  {
  }

  lemma {:induction false} ScalarsPass(entries: seq<Entry>)
    requires ScalarEntries(entries)
    ensures CanonEntries(entries) == Ok(KeyedOf(entries))
    decreases |entries|
  {
    hide Encode, Scalar, Canonicalize;
    if entries != [] {
      forall i | 0 <= i < |entries[1..]|
        ensures Scalar(entries[1..][i].key) && Scalar(entries[1..][i].val)
      {
        assert entries[1..][i] == entries[i + 1];
      }
      ScalarsPass(entries[1..]);
      ScalarPasses(entries[0]);
      assert KeyedOf(entries) == [KeyedOf(entries)[0]] + KeyedOf(entries[1..]);
    } else {
      assert KeyedOf(entries) == [];
    }
  }

  /** However a record's fields are declared, what is encoded is the arrangement of them
      whose encoded names ascend. */
  lemma RecordInOrder(entries: seq<Entry>, sorted: seq<Entry>)
    requires ScalarEntries(entries) && multiset(entries) == multiset(sorted) && StepsUp(KeyBytes(sorted))
    ensures ToCanonicalCbor(Map(entries)) == Ok(Encode(Map(sorted)))
  {
    hide Encode, StepsUp, SortBy, Scalar, KeyedOf;
    ScalarsPass(entries);
    KeyedBags(entries, sorted);
    KeyedInOrder(sorted);
    SortsTo(KeyedOf(entries), KeyedOf(sorted));
    KeyedStrips(sorted);
  }

  lemma KeyedStrips(entries: seq<Entry>)
    ensures Strip(KeyedOf(entries)) == entries
  {
    hide Encode;
  }

  lemma KeyedInOrder(sorted: seq<Entry>)
    requires StepsUp(KeyBytes(sorted))
    ensures SortedBy(EncodedKey, KeyedOf(sorted)) && KeysDistinct(EncodedKey, KeyedOf(sorted))
  {
    hide Encode, LexLeq, StepsUp;
    var wanted := KeyedOf(sorted);
    forall i, j | 0 <= i < j < |wanted|
      ensures LexLeq(EncodedKey(wanted[i]), EncodedKey(wanted[j])) && EncodedKey(wanted[i]) != EncodedKey(wanted[j])
    {
      StepsSort(KeyBytes(sorted), i, j);
    }
  }

  lemma SortsTo(keyed: seq<Keyed>, wanted: seq<Keyed>)
    requires multiset(keyed) == multiset(wanted)
    requires SortedBy(EncodedKey, wanted) && KeysDistinct(EncodedKey, wanted)
    ensures SealMap(keyed) == Ok(Map(Strip(wanted)))
  {
    hide LexLeq, SortBy;
    SortByCorrect(EncodedKey, keyed);
    SortedUnique(EncodedKey, wanted, SortBy(EncodedKey, keyed));
    AdjacentRepeatExact(EncodedKey, wanted);
  }

  lemma KeyedWithout(entries: seq<Entry>, j: nat)
    requires j < |entries|
    ensures KeyedOf(Without(entries, j)) == Without(KeyedOf(entries), j)
    ensures multiset(KeyedOf(Without(entries, j))) == multiset(KeyedOf(entries)) - multiset{KeyedOf(entries)[j]}
    ensures KeyedOf(entries)[j] in multiset(KeyedOf(entries))
  {
    hide Encode;
    WithoutMultiset(KeyedOf(entries), j);
  }

  lemma {:induction false} KeyedBags(a: seq<Entry>, b: seq<Entry>)
    requires multiset(a) == multiset(b)
    ensures multiset(KeyedOf(a)) == multiset(KeyedOf(b))
    decreases |a|
  {
    hide Encode, Without;
    EqualBagsSameLength(a, b);
    if a != [] {
      var j := FindEqual(a, b);
      WithoutMultiset(a, 0);
      WithoutMultiset(b, j);
      ShorterWithout(a, 0);
      KeyedBags(Without(a, 0), Without(b, j));
      KeyedWithout(a, 0);
      KeyedWithout(b, j);
      MultisetRestore(multiset(KeyedOf(a)), multiset(KeyedOf(b)), KeyedOf(a)[0]);
    } else {
      assert KeyedOf(a) == [] && KeyedOf(b) == [];
    }
  }

  lemma ShorterWithout(a: seq<Entry>, j: nat)
    requires j < |a|
    ensures |Without(a, j)| == |a| - 1
  {
  }

  // --- fields as bytes ------------------------------------------------------------------------------------

  /** Named values one after the other: a text head, the name in ASCII, the value. */
  function Fields(names: seq<string>, vals: seq<Value>): Bytes
    requires |names| == |vals| && forall i :: 0 <= i < |names| ==> |names[i]| < 24
  {
    if names == [] then []
    else [0x60 + |names[0]|] + Ascii(names[0]) + Encode(vals[0]) + Fields(names[1..], vals[1..])
  }

  function FieldEntries(names: seq<string>, vals: seq<Value>): (entries: seq<Entry>)
    requires |names| == |vals|
    ensures |entries| == |names|
    ensures forall i :: 0 <= i < |names| ==> entries[i] == Entry(Text(Ascii(names[i])), vals[i])
  {
    seq(|names|, i requires 0 <= i < |names| => Entry(Text(Ascii(names[i])), vals[i]))
  }

  lemma {:induction false} FieldsEncode(names: seq<string>, vals: seq<Value>)
    requires |names| == |vals| && forall i :: 0 <= i < |names| ==> |names[i]| < 24
    ensures EncodeEntries(FieldEntries(names, vals)) == Fields(names, vals)
    decreases |names|
  {
    var entries := FieldEntries(names, vals);
    if names != [] {
      FieldsEncode(names[1..], vals[1..]);
      assert entries[1..] == FieldEntries(names[1..], vals[1..]);
      NameEncodes(names[0]);
      hide Encode;
      assert EncodeEntry(entries[0]) == [0x60 + |names[0]|] + Ascii(names[0]) + Encode(vals[0]);
    }
  }

  lemma NameEncodes(name: string)
    requires |name| < 24
    ensures Encode(Text(Ascii(name))) == [0x60 + |name|] + Ascii(name)
  {
  }

  /** Names whose encodings ascend: shorter first, and then by the first letter that
      differs. */
  ghost predicate NamesAscend(names: seq<string>) {
    forall i :: 0 <= i < |names| - 1 ==> NameBelow(names[i], names[i + 1])
  }

  ghost predicate NameBelow(a: string, b: string) {
    || |a| < |b|
    || (|a| == |b| && exists k :: 0 <= k < |a| && a[..k] == b[..k] && a[k] < b[k])
  }

  lemma {:induction false} LexAt(a: Bytes, b: Bytes, k: nat)
    requires k < |a| && k < |b| && a[..k] == b[..k] && a[k] < b[k]
    ensures Below(a, b)
    decreases k
  {
    if k > 0 {
      assert a[0] == a[..k][0] == b[..k][0] == b[0];
      assert a[1..][..k - 1] == a[..k][1..] && b[1..][..k - 1] == b[..k][1..];
      LexAt(a[1..], b[1..], k - 1);
    }
  }

  lemma NameBelowEncodes(a: string, b: string)
    requires |a| < 24 && |b| < 24 && NameBelow(a, b)
    requires forall i :: 0 <= i < |a| ==> a[i] < 128 as char
    requires forall i :: 0 <= i < |b| ==> b[i] < 128 as char
    ensures Below(Encode(Text(Ascii(a))), Encode(Text(Ascii(b))))
  {
    NameEncodes(a);
    NameEncodes(b);
    var x, y := Encode(Text(Ascii(a))), Encode(Text(Ascii(b)));
    hide Encode, LexLeq;
    if |a| < |b| {
      LexAt(x, y, 0);
    } else {
      var k :| 0 <= k < |a| && a[..k] == b[..k] && a[k] < b[k];
      assert forall i :: 0 <= i < k ==> a[i] == a[..k][i] && b[i] == b[..k][i];
      LexAt(x, y, k + 1);
    }
  }

  /** A record with short ASCII names, in the order its encoding gives them. */
  lemma FieldsInOrder(entries: seq<Entry>, names: seq<string>, vals: seq<Value>)
    requires |names| == |vals| < 24 && NamesAscend(names) && ScalarEntries(entries)
    requires forall i :: 0 <= i < |names| ==>
      |names[i]| < 24 && forall k :: 0 <= k < |names[i]| ==> names[i][k] < 128 as char
    requires multiset(entries) == multiset(FieldEntries(names, vals))
    ensures ToCanonicalCbor(Map(entries)) == Ok([0xA0 + |names|] + Fields(names, vals))
  {
    hide ToCanonicalCbor, ScalarEntries, NamesAscend, StepsUp, Fields;
    NamesStepUp(names, vals);
    RecordInOrder(entries, FieldEntries(names, vals));
    FieldsEncode(names, vals);
    MapEncodes(FieldEntries(names, vals));
  }

  lemma MapEncodes(entries: seq<Entry>)
    requires |entries| < 24
    ensures Encode(Map(entries)) == [0xA0 + |entries|] + EncodeEntries(entries)
  {
    hide EncodeEntries;
  }

  lemma NamesStepUp(names: seq<string>, vals: seq<Value>)
    requires |names| == |vals| && NamesAscend(names)
    requires forall i :: 0 <= i < |names| ==>
      |names[i]| < 24 && forall k :: 0 <= k < |names[i]| ==> names[i][k] < 128 as char
    ensures StepsUp(KeyBytes(FieldEntries(names, vals)))
  {
    hide NameBelow, Below, Encode, Ascii;
    var sorted := FieldEntries(names, vals);
    forall i | 0 <= i < |sorted| - 1
      ensures Below(KeyBytes(sorted)[i], KeyBytes(sorted)[i + 1])
    {
      assert NameBelow(names[i], names[i + 1]);
      NameBelowEncodes(names[i], names[i + 1]);
    }
  }

  // --- declared order and written order ---------------------------------------------------------------------

  /** Position `k` of one order is position `order[k]` of the other. */
  ghost predicate Reorders(order: seq<nat>, back: seq<nat>) {
    && |order| == |back|
    && (forall k :: 0 <= k < |order| ==> order[k] < |back| && back[order[k]] == k)
    && (forall i :: 0 <= i < |back| ==> back[i] < |order| && order[back[i]] == i)
  }

  ghost predicate Picks<T(!new)>(s: seq<T>, t: seq<T>, order: seq<nat>) {
    |t| == |order| == |s| && forall k :: 0 <= k < |t| ==> order[k] < |s| && t[k] == s[order[k]]
  }

  lemma {:induction false} DistinctBag<T>(s: seq<T>)
    requires forall i, j :: 0 <= i < j < |s| ==> s[i] != s[j]
    ensures multiset(s) == multiset(SetOf(s))
    decreases |s|
  {
    if s != [] {
      var n := |s| - 1;
      DistinctBag(s[..n]);
      assert s == s[..n] + [s[n]];
      assert s[n] !in s[..n];
      assert SetOf(s) == SetOf(s[..n]) + {s[n]};
    }
  }

  lemma PicksSameBag<T(!new)>(s: seq<T>, t: seq<T>, order: seq<nat>, back: seq<nat>)
    requires Reorders(order, back) && Picks(s, t, order)
    requires forall i, j :: 0 <= i < j < |s| ==> s[i] != s[j]
    ensures multiset(s) == multiset(t)
  {
    forall i, j | 0 <= i < j < |t|
      ensures t[i] != t[j]
    {
      assert back[order[i]] == i && back[order[j]] == j;
    }
    forall x
      ensures x in SetOf(s) <==> x in SetOf(t)
    {
      if x in s {
        var i :| 0 <= i < |s| && s[i] == x;
        assert t[back[i]] == x;
      }
    }
    assert SetOf(s) == SetOf(t);
    DistinctBag(s);
    DistinctBag(t);
  }

  /** A record written in the order of its encoded names, whatever order declares it. */
  lemma RecordBytes(declared: seq<Bytes>, vals: seq<Value>, names: seq<string>, sorted: seq<Value>, order: seq<nat>,
                    back: seq<nat>)
    requires |declared| == |vals| && FieldNames(declared) && Scalars(vals)
    requires |names| == |sorted| < 24 && NamesAscend(names)
    requires forall i :: 0 <= i < |names| ==>
      |names[i]| < 24 && forall k :: 0 <= k < |names[i]| ==> names[i][k] < 128 as char
    requires |order| == |names| == |declared| && Reorders(order, back)
    requires forall k :: 0 <= k < |order| ==> Ascii(names[k]) == declared[order[k]] && sorted[k] == vals[order[k]]
    ensures ToCanonicalCbor(Record(declared, vals)) == Ok([0xA0 + |names|] + Fields(names, sorted))
  {
    hide Fields, NamesAscend, Scalar, Ascii;
    var entries := Record(declared, vals).entries;
    RecordScalars(declared, vals);
    assert Picks(entries, FieldEntries(names, sorted), order);
    PicksSameBag(entries, FieldEntries(names, sorted), order, back);
    FieldsInOrder(entries, names, sorted);
  }

  lemma RecordScalars(names: seq<Bytes>, vals: seq<Value>)
    requires |names| == |vals| && FieldNames(names) && Scalars(vals)
    ensures ScalarEntries(Record(names, vals).entries)
  {
    forall i | 0 <= i < |names|
      ensures Scalar(Text(names[i]))
    {
      AsciiIsUtf8(names[i]);
    }
  }

  // --- the three payloads -----------------------------------------------------------------------------------

  function MemoryOrder(): seq<string> {
    ["id", "text", "occurred_at"]
  }

  function MemoryInOrder(m: Memory): (vals: seq<Value>) {
    [ByteString(BigEndian(m.id, 16)), Text(m.text), if m.occurredAt == None then Null else Integer(m.occurredAt.value)]
  }

  lemma MemorySteps()
    ensures NamesAscend(MemoryOrder()) && ShortAscii(MemoryOrder())
  {
    var ns := MemoryOrder();
    assert NameBelow(ns[0], ns[1]) && NameBelow(ns[1], ns[2]);
  }

  ghost predicate ShortAscii(names: seq<string>) {
    forall i :: 0 <= i < |names| ==>
      |names[i]| < 24 && forall k :: 0 <= k < |names[i]| ==> names[i][k] < 128 as char
  }

  /** A memory's leaf: its salt, then a map of three fields. */
  lemma MemoryBytes(m: Memory)
    ensures forall i :: 0 <= i < 3 ==> |MemoryOrder()[i]| < 24
    ensures MemoryPreimage(m) ==
      Preimage(Tag.MemoryLeaf, m.salt + ([0xA3] + Fields(MemoryOrder(), MemoryInOrder(m))))
  {
    hide Fields, NamesAscend, Ascii;
    MemoryEncodes(m);
    MemorySteps();
    var order := [0, 1, 2];
    assert Reorders(order, order);
    RecordBytes(MemoryNames(), MemoryFields(m), MemoryOrder(), MemoryInOrder(m), order, order);
  }

  function VerdictOrder(): seq<string> {
    ["verdict", "quest_id", "severity", "answered_at"]
  }

  function VerdictInOrder(id: Uuid, v: Verdict, answeredAt: i64): (vals: seq<Value>) {
    VerdictTags(v, v);
    [Text(Ascii(VerdictTag(v))), ByteString(BigEndian(id, 16)), SeverityValue(v), Integer(answeredAt)]
  }

  lemma VerdictSteps()
    ensures NamesAscend(VerdictOrder()) && ShortAscii(VerdictOrder())
  {
    var ns := VerdictOrder();
    assert ns[1][..0] == ns[2][..0] && ns[1][0] < ns[2][0];
    assert NameBelow(ns[0], ns[1]) && NameBelow(ns[1], ns[2]) && NameBelow(ns[2], ns[3]);
  }

  /** A verdict's leaf: its salt, then the kind of answer, the quest, how far off a
      correction was, and the instant. */
  lemma VerdictBytes(q: Quest, v: Verdict, answeredAt: i64)
    ensures forall i :: 0 <= i < 4 ==> |VerdictOrder()[i]| < 24
    ensures VerdictPreimage(q, v, answeredAt) ==
      Preimage(Tag.VerdictLeaf, q.verdictSalt +
        ([0xA4] + Fields(VerdictOrder(), VerdictInOrder(q.issued.id, v, answeredAt))))
  {
    hide Fields, NamesAscend, Ascii, SeverityValue;
    VerdictEncodes(q.issued.id, v, answeredAt);
    VerdictSteps();
    var order, back := [1, 0, 2, 3], [1, 0, 2, 3];
    assert Reorders(order, back);
    RecordBytes(VerdictNames(), VerdictFields(q.issued.id, v, answeredAt), VerdictOrder(),
                VerdictInOrder(q.issued.id, v, answeredAt), order, back);
  }

  /** The quest's fields, in the order they are written. */
  function QuestOrder(): seq<string> {
    ["id", "kind", "decoy", "facet", "holdout", "confidence", "difficulty", "issued_for", "persona_content",
     "persona_ordinal", "answer_commitment"]
  }

  function QuestInOrder(q: Issued): (vals: seq<Value>) {
    VariantNames(q.variant, q.variant);
    FacetNames(q.facet, q.facet);
    [ByteString(BigEndian(q.id, 16)), Text(Ascii(q.variant.Name())), Boolean(q.decoy), Text(Ascii(q.facet.Name())),
     Boolean(q.holdout), Integer(q.confidence), Integer(q.difficulty), Text(Render(q.issuedFor)),
     Text(ToHex(q.personaContent)), Integer(q.personaOrdinal), Text(ToHex(q.answerCommitment))]
  }

  lemma QuestSteps()
    ensures NamesAscend(QuestOrder()) && ShortAscii(QuestOrder())
  {
    hide QuestOrder, NameBelow;
    QuestShort(0);
    forall i | 0 <= i < 10
      ensures NameBelow(QuestOrder()[i], QuestOrder()[i + 1])
    {
      QuestStep(i);
    }
    forall i | 0 <= i < 11
      ensures |QuestOrder()[i]| < 24 && forall k :: 0 <= k < |QuestOrder()[i]| ==> QuestOrder()[i][k] < 128 as char
    {
      QuestShort(i);
    }
  }

  lemma QuestShort(i: nat)
    requires i < 11
    ensures |QuestOrder()| == 11 && |QuestOrder()[i]| < 24
    ensures forall k :: 0 <= k < |QuestOrder()[i]| ==> QuestOrder()[i][k] < 128 as char
  {
  }

  lemma QuestStep(i: nat)
    requires i < 10
    ensures |QuestOrder()| == 11 && NameBelow(QuestOrder()[i], QuestOrder()[i + 1])
  {
    var a, b := QuestOrder()[i], QuestOrder()[i + 1];
    var k := if i == 8 then 8 else 0;
    assert |a| == |b| ==> a[..k] == b[..k] && a[k] < b[k];
  }

  /** Where each field written is declared, and back. */
  function Places(): seq<nat> {
    [0, 4, 10, 5, 9, 7, 6, 1, 3, 2, 8]
  }

  function PlacesBack(): seq<nat> {
    [0, 7, 9, 8, 1, 3, 6, 5, 10, 4, 2]
  }

  lemma QuestPlaced(q: Issued, k: nat)
    requires k < 11
    ensures Ascii(QuestOrder()[k]) == QuestNames()[Places()[k]]
    ensures QuestInOrder(q)[k] == QuestFields(q)[Places()[k]]
  {
    hide Ascii, ToHex, Render, BigEndian;
  }

  /** A quest's leaf: its salt, then a map of eleven fields. */
  lemma QuestBytes(q: Quest)
    ensures |QuestOrder()| == |QuestInOrder(q.issued)| == 11
    ensures forall i :: 0 <= i < 11 ==> |QuestOrder()[i]| < 24
    ensures QuestPreimage(q) ==
      Preimage(Tag.QuestLeaf, q.leafSalt + ([0xAB] + Fields(QuestOrder(), QuestInOrder(q.issued))))
  {
    hide Fields, NamesAscend, Ascii, QuestFields, QuestInOrder, QuestNames, QuestOrder, FieldNames, Scalars;
    QuestEncodes(q.issued);
    QuestSteps();
    QuestCounts(q.issued);
    assert Reorders(Places(), PlacesBack());
    forall k | 0 <= k < 11
      ensures Ascii(QuestOrder()[k]) == QuestNames()[Places()[k]]
      ensures QuestInOrder(q.issued)[k] == QuestFields(q.issued)[Places()[k]]
    {
      QuestPlaced(q.issued, k);
    }
    RecordBytes(QuestNames(), QuestFields(q.issued), QuestOrder(), QuestInOrder(q.issued), Places(), PlacesBack());
  }

  lemma QuestCounts(q: Issued)
    ensures |QuestOrder()| == |QuestInOrder(q)| == |QuestNames()| == |QuestFields(q)| == 11
  {
  }

  // --- as numerals --------------------------------------------------------------------------------------------

  /** A memory whose id is 1, whose text is "hi" and which occurred 1767225600000
      milliseconds after the epoch. */
  lemma MemoryLiteral(m: Memory)
    requires m.id == 1 && m.text == [0x68, 0x69] && m.occurredAt == Some(1767225600000)
    ensures MemoryPreimage(m).msg == m.salt + ([0xA3]
      + ([0x62, 0x69, 0x64] + [0x50, 0, 0, 0, 0, 0, 0, 0, 0, 0, 0, 0, 0, 0, 0, 0, 1]
      + ([0x64, 0x74, 0x65, 0x78, 0x74] + [0x62, 0x68, 0x69]
      + ([0x6B, 0x6F, 0x63, 0x63, 0x75, 0x72, 0x72, 0x65, 0x64, 0x5F, 0x61, 0x74]
         + [0x1B, 0x00, 0x00, 0x01, 0x9B, 0x76, 0xDA, 0xA8, 0x00]))))
  {
    hide MemoryPreimage, Fields;
    MemoryBytes(m);
    assert MemoryInOrder(m) == [ByteString(BigEndian(1, 16)), Text([0x68, 0x69]), Integer(1767225600000)];
    ThreeFields(MemoryInOrder(m));
    LiteralValues();
  }

  lemma ThreeFields(vals: seq<Value>)
    requires |vals| == 3
    ensures forall i :: 0 <= i < 3 ==> |MemoryOrder()[i]| < 24
    ensures Fields(MemoryOrder(), vals) ==
      [0x62, 0x69, 0x64] + Encode(vals[0]) + ([0x64, 0x74, 0x65, 0x78, 0x74] + Encode(vals[1])
      + ([0x6B, 0x6F, 0x63, 0x63, 0x75, 0x72, 0x72, 0x65, 0x64, 0x5F, 0x61, 0x74] + Encode(vals[2])))
  {
    hide Encode;
    LiteralNames();
    hide Ascii;
    var names := MemoryOrder();
    assert names[1..] == ["text", "occurred_at"] && names[1..][1..] == ["occurred_at"];
    assert Fields([], []) == [];
    assert Fields(names[1..][1..], vals[1..][1..]) == [0x6B] + Ascii("occurred_at") + Encode(vals[2]) + Fields([], []);
  }

  lemma LiteralNames()
    ensures [0x62] + Ascii("id") == [0x62, 0x69, 0x64]
    ensures [0x64] + Ascii("text") == [0x64, 0x74, 0x65, 0x78, 0x74]
    ensures [0x6B] + Ascii("occurred_at") == [0x6B, 0x6F, 0x63, 0x63, 0x75, 0x72, 0x72, 0x65, 0x64, 0x5F, 0x61, 0x74]
  {
  }

  lemma {:induction false} NoBytes(k: nat)
    ensures BigEndian(0, k) == seq(k, i => 0)
  {
    if k > 0 {
      NoBytes(k - 1);
    }
  }

  lemma LiteralValues()
    ensures Encode(ByteString(BigEndian(1, 16))) == [0x50, 0, 0, 0, 0, 0, 0, 0, 0, 0, 0, 0, 0, 0, 0, 0, 1]
    ensures Encode(Text([0x68, 0x69])) == [0x62, 0x68, 0x69]
    ensures Encode(Integer(1767225600000)) == [0x1B, 0x00, 0x00, 0x01, 0x9B, 0x76, 0xDA, 0xA8, 0x00]
  {
    hide BigEndian;
    BigEndianIs([0x00, 0x00, 0x01, 0x9B, 0x76, 0xDA, 0xA8, 0x00]);
    assert BigEndian(1, 16) == BigEndian(0, 15) + [1] by { LastOfSixteen(); }
    NoBytes(15);
    assert BigEndian(1, 16) == [0, 0, 0, 0, 0, 0, 0, 0, 0, 0, 0, 0, 0, 0, 0, 1];
  }

  lemma LastOfSixteen()
    ensures BigEndian(1, 16) == BigEndian(0, 15) + [1]
  {
  }

  // --- the names that are committed to ----------------------------------------------------------------------

  /** How each kind of answer is written. */
  lemma AnswerNames(v: Verdict)
    ensures Encode(VerdictInOrder(0, v, 0)[0]) == match v
      case Confirm => [0x67] + Ascii("confirm")
      case Correct(_, _) => [0x67] + Ascii("correct")
      case Reject(_) => [0x66] + Ascii("reject")
      case Unknown => [0x67] + Ascii("unknown")
      case Void(_) => [0x64] + Ascii("void")
  {
    hide Encode, Ascii;
    VerdictTags(v, v);
    NameEncodes(VerdictTag(v));
  }

  /** And how far off a correction was. */
  lemma SeverityNames(v: Verdict)
    ensures Encode(VerdictInOrder(0, v, 0)[2]) == match v
      case Correct(Minor, _) => [0x65] + Ascii("minor")
      case Correct(Major, _) => [0x65] + Ascii("major")
      case _ => [0xF6]
  {
    VerdictTags(v, v);
    NameEncodes("minor");
    NameEncodes("major");
  }

  /** How each kind of quest is written. */
  lemma KindNames(variant: Variant)
    ensures Encode(Text(Ascii(variant.Name()))) == match variant
      case VoiceProbe => [0x6A] + Ascii("VoiceProbe")
      case FactRecall => [0x6A] + Ascii("FactRecall")
      case Prediction => [0x6A] + Ascii("Prediction")
      case Preference => [0x6A] + Ascii("Preference")
      case Cloze => [0x65] + Ascii("Cloze")
      case Counterfactual => [0x6E] + Ascii("Counterfactual")
  {
    hide Encode, Ascii;
    NameEncodes(variant.Name());
  }

  /** How each facet is written. */
  lemma FacetNamesWritten(facet: Facet)
    ensures Encode(Text(Ascii(facet.Name()))) == match facet
      case Voice => [0x65] + Ascii("voice")
      case Opinion => [0x67] + Ascii("opinion")
      case Relationship => [0x6C] + Ascii("relationship")
      case Routine => [0x67] + Ascii("routine")
      case Lore => [0x64] + Ascii("lore")
  {
    hide Encode, Ascii;
    NameEncodes(facet.Name());
  }
}
