/** The records a day commits to and the leaf preimages they become.

    A leaf is `salt || canonical CBOR` under the leaf kind's own tag. Each preimage is
    proved to bind exactly the fields the design says it binds, and no others. */
module Leaves {
  import opened Basics
  import opened Hashing
  import opened Calendar
  import opened Chain
  import opened Cbor
  import opened Canonical
  import opened CanonicalLaws

  type Utf8 = t: Bytes | |t| < LIMIT && ValidUtf8(t) witness []

  // --- hexadecimal digests -----------------------------------------------------------------

  function HexDigit(n: nat): u8
    requires n < 16
  {
    if n < 10 then 48 + n else 87 + n
  }

  predicate IsLowerHex(c: u8) {
    48 <= c <= 57 || 97 <= c <= 102
  }

  function HexValue(c: u8): nat
    requires IsLowerHex(c)
  {
    if c <= 57 then c - 48 else c - 87
  }

  /** The low `digits` hex digits of `n`, most significant first. */
  function Hex(n: nat, digits: nat): (s: Bytes)
    ensures |s| == digits && forall i :: 0 <= i < digits ==> IsLowerHex(s[i])
  {
    if digits == 0 then [] else Hex(n / 16, digits - 1) + [HexDigit(n % 16)]
  }

  function Unhex(s: Bytes): nat
    requires forall i :: 0 <= i < |s| ==> IsLowerHex(s[i])
  {
    if s == [] then 0 else 16 * Unhex(s[..|s| - 1]) + HexValue(s[|s| - 1])
  }

  function Pow16(n: nat): nat {
    if n == 0 then 1 else 16 * Pow16(n - 1)
  }

  function ToHex(d: Digest): (s: Bytes)
    ensures |s| == 64 && forall i :: 0 <= i < 64 ==> IsLowerHex(s[i])
  {
    Hex(d, 64)
  }

  /** Accepts exactly 64 lowercase hex digits. */
  function FromHex(s: Bytes): Option<Digest> {
    if |s| == 64 && forall i :: 0 <= i < |s| ==> IsLowerHex(s[i]) then
      UnhexBound(s);
      Pow16Value();
      Some(Unhex(s))
    else None
  }

  lemma {:induction false} UnhexBound(s: Bytes)
    requires forall i :: 0 <= i < |s| ==> IsLowerHex(s[i])
    ensures Unhex(s) < Pow16(|s|)
  {
    if s != [] {
      UnhexBound(s[..|s| - 1]);
    }
  }

  lemma {:induction false} Pow16IsPow256(n: nat)
    ensures Pow16(2 * n) == Pow256(n)
  {
    if n > 0 {
      Pow16IsPow256(n - 1);
      assert Pow16(2 * n) == 16 * (16 * Pow16(2 * (n - 1)));
    }
  }

  lemma Pow16Value()
    ensures Pow16(64) == TWO_TO_256
  {
    Pow16IsPow256(32);
    Pow256Values();
  }

  lemma {:induction false} HexRoundTrip(n: nat, digits: nat)
    requires n < Pow16(digits)
    ensures Unhex(Hex(n, digits)) == n
  {
    if digits > 0 {
      HexRoundTrip(n / 16, digits - 1);
      assert Hex(n, digits)[..digits - 1] == Hex(n / 16, digits - 1);
    }
  }

  lemma {:induction false} UnhexInverse(s: Bytes)
    requires forall i :: 0 <= i < |s| ==> IsLowerHex(s[i])
    ensures Hex(Unhex(s), |s|) == s
  {
    if s != [] {
      UnhexInverse(s[..|s| - 1]);
    }
  }

  /** One digest has one hex form: printing and parsing undo each other, both ways. */
  lemma HexExact(d: Digest, s: Bytes)
    ensures FromHex(ToHex(d)) == Some(d)
    ensures FromHex(s) == Some(d) <==> s == ToHex(d)
  {
    Pow16Value();
    HexRoundTrip(d, 64);
    if FromHex(s) == Some(d) {
      UnhexInverse(s);
    }
  }

  // --- records with text field names ---------------------------------------------------------

  /** A struct as the serializer sees it: field names paired with values. */
  function Record(names: seq<Bytes>, vals: seq<Value>): Value
    requires |names| == |vals|
  {
    Map(seq(|names|, i requires 0 <= i < |names| => Entry(Text(names[i]), vals[i])))
  }

  ghost predicate FieldNames(names: seq<Bytes>) {
    && |names| < 100
    && (forall i :: 0 <= i < |names| ==> |names[i]| < 100 && forall k :: 0 <= k < |names[i]| ==> names[i][k] < 0x80)
    && (forall i, j :: 0 <= i < j < |names| ==> names[i] != names[j])
  }

  /** A scalar the canonicaliser leaves alone. */
  predicate Scalar(v: Value) {
    WellFormed(v) && !v.Map? && !v.Array? && !v.Float?
  }

  ghost predicate Scalars(vals: seq<Value>) {
    forall i :: 0 <= i < |vals| ==> Scalar(vals[i])
  }

  lemma RecordEncodes(names: seq<Bytes>, vals: seq<Value>)
    requires |names| == |vals| && FieldNames(names) && Scalars(vals)
    ensures WellFormed(Record(names, vals)) && Clean(Record(names, vals)) && PlainKeys(Record(names, vals))
    ensures ToCanonicalCbor(Record(names, vals)).Ok?
  {
    var es := Record(names, vals).entries;
    forall i | 0 <= i < |es|
      ensures es[i] == Entry(Text(names[i]), vals[i])
      ensures WellFormedEntry(es[i]) && CleanEntry(es[i]) && PlainEntry(es[i])
    {
      AsciiIsUtf8(names[i]);
    }
    assert forall i :: 0 <= i < |es| ==> WellFormedEntry(es[i]);
    FailsExactly(Record(names, vals));
  }

  lemma {:induction false} SameFields(a: seq<Entry>, b: seq<Entry>)
    requires SameEntries(a, b)
    requires forall i :: 0 <= i < |a| ==> a[i].key == b[i].key
    requires forall i, j :: 0 <= i < j < |a| ==> a[i].key != a[j].key
    ensures forall i :: 0 <= i < |a| ==> SameEntry(a[i], b[i])
  {
    hide SameUpToOrder;
    if a != [] {
      var j :| 0 <= j < |b| && SameEntry(a[0], b[j]) && SameEntries(a[1..], Without(b, j));
      assert j == 0;
      assert Without(b, 0) == b[1..];
      KeysOfTail(a, b);
      SameFields(a[1..], b[1..]);
      SameFromFirst(a, b);
    }
  }

  lemma KeysOfTail(a: seq<Entry>, b: seq<Entry>)
    requires |a| == |b| > 0
    requires forall i :: 0 <= i < |a| ==> a[i].key == b[i].key
    requires forall i, j :: 0 <= i < j < |a| ==> a[i].key != a[j].key
    ensures forall i :: 0 <= i < |a[1..]| ==> a[1..][i].key == b[1..][i].key
    ensures forall i, j :: 0 <= i < j < |a[1..]| ==> a[1..][i].key != a[1..][j].key
  {
  }

  lemma SameFromFirst(a: seq<Entry>, b: seq<Entry>)
    requires |a| == |b| > 0 && SameEntry(a[0], b[0])
    requires forall i :: 0 <= i < |a[1..]| ==> SameEntry(a[1..][i], b[1..][i])
    ensures forall i :: 0 <= i < |a| ==> SameEntry(a[i], b[i])
  {
    hide SameEntry;
    forall i | 0 < i < |a|
      ensures SameEntry(a[i], b[i])
    {
      assert SameEntry(a[1..][i - 1], b[1..][i - 1]);
    }
  }

  /** Records with the same names and one canonical encoding have the same fields. */
  lemma RecordBinds(names: seq<Bytes>, a: seq<Value>, b: seq<Value>)
    requires |names| == |a| == |b| && FieldNames(names) && Scalars(a) && Scalars(b)
    requires ToCanonicalCbor(Record(names, a)) == ToCanonicalCbor(Record(names, b))
    ensures a == b
  {
    RecordEncodes(names, a);
    RecordEncodes(names, b);
    OneEncodingPerValue(Record(names, a), Record(names, b));
    var x, y := Record(names, a).entries, Record(names, b).entries;
    SameFields(x, y);
    forall i | 0 <= i < |a|
      ensures a[i] == b[i]
    {
      assert SameEntry(x[i], y[i]);
      assert SameUpToOrder(a[i], b[i]);
    }
  }

  // --- memories --------------------------------------------------------------------------------

  datatype Memory = Memory(id: Uuid, text: Utf8, occurredAt: Option<i64>, ingestedAt: i64, salt: Salt)

  function IdValue(id: Uuid): Value {
    ByteString(BigEndian(id, 16))
  }

  function MillisValue(at: Option<i64>): Value {
    match at
    case None => Null
    case Some(t) => Integer(t)
  }

  function MemoryNames(): seq<Bytes> {
    [Ascii("id"), Ascii("text"), Ascii("occurred_at")]
  }

  function MemoryFields(m: Memory): (vals: seq<Value>)
    ensures |vals| == |MemoryNames()|
  {
    [IdValue(m.id), Text(m.text), MillisValue(m.occurredAt)]
  }

  lemma MemoryEncodes(m: Memory)
    ensures FieldNames(MemoryNames()) && Scalars(MemoryFields(m))
    ensures ToCanonicalCbor(Record(MemoryNames(), MemoryFields(m))).Ok?
  {
    var ns := MemoryNames();
    assert |ns[0]| == 2 && |ns[1]| == 4 && |ns[2]| == 11;
    RecordEncodes(ns, MemoryFields(m));
  }

  function MemoryPreimage(m: Memory): Preimage {
    MemoryEncodes(m);
    LeafPreimage(Tag.MemoryLeaf, m.salt, ToCanonicalCbor(Record(MemoryNames(), MemoryFields(m))).value)
  }

  /** A memory leaf binds the salt, the id, the text and the time of occurrence. */
  lemma MemoryLeafBinds(m: Memory, n: Memory)
    ensures MemoryPreimage(m) == MemoryPreimage(n)
       <==> m.salt == n.salt && m.id == n.id && m.text == n.text && m.occurredAt == n.occurredAt
  {
    MemoryEncodes(m);
    MemoryEncodes(n);
    if MemoryPreimage(m) == MemoryPreimage(n) {
      var a, b := MemoryFields(m), MemoryFields(n);
      LeafPreimageInjective(Tag.MemoryLeaf, m.salt, ToCanonicalCbor(Record(MemoryNames(), a)).value,
                            Tag.MemoryLeaf, n.salt, ToCanonicalCbor(Record(MemoryNames(), b)).value);
      RecordBinds(MemoryNames(), a, b);
      assert a[0] == b[0] && a[1] == b[1] && a[2] == b[2];
      IdInjective(m.id, n.id);
    }
  }

  lemma IdInjective(a: Uuid, b: Uuid)
    requires BigEndian(a, 16) == BigEndian(b, 16)
    ensures a == b
  {
    Pow256Values();
    BigEndianInjective(a, b, 16);
  }

  // --- quests ----------------------------------------------------------------------------------

  datatype Variant = VoiceProbe | FactRecall | Prediction | Preference | Cloze | Counterfactual {
    function Name(): string {
      match this
      case VoiceProbe => "VoiceProbe"
      case FactRecall => "FactRecall"
      case Prediction => "Prediction"
      case Preference => "Preference"
      case Cloze => "Cloze"
      case Counterfactual => "Counterfactual"
    }
  }

  datatype Facet = Voice | Opinion | Relationship | Routine | Lore {
    function Name(): string {
      match this
      case Voice => "voice"
      case Opinion => "opinion"
      case Relationship => "relationship"
      case Routine => "routine"
      case Lore => "lore"
    }
  }

  /** The quest as issued, with its ratios in the fixed point the preimage carries. */
  datatype Issued = Issued(
    id: Uuid, issuedFor: Date, personaOrdinal: u32, personaContent: Digest, variant: Variant, facet: Facet,
    difficulty: u32, confidence: u32, answerCommitment: Digest, holdout: bool, decoy: bool)

  datatype Severity = Minor | Major

  datatype Verdict =
    | Confirm
    | Correct(severity: Severity, correction: Utf8)
    | Reject(note: Option<Utf8>)
    | Unknown
    | Void(reason: Utf8)

  datatype Quest = Quest(
    issued: Issued, claim: Utf8, leafSalt: Salt, verdictSalt: Salt, expiresAt: i64, verdict: Option<Verdict>)

  function QuestNames(): seq<Bytes> {
    [Ascii("id"), Ascii("issued_for"), Ascii("persona_ordinal"), Ascii("persona_content"), Ascii("kind"),
     Ascii("facet"), Ascii("difficulty"), Ascii("confidence"), Ascii("answer_commitment"), Ascii("holdout"),
     Ascii("decoy")]
  }

  lemma VariantNames(v: Variant, w: Variant)
    ensures forall i :: 0 <= i < |v.Name()| ==> v.Name()[i] < 128 as char
    ensures |v.Name()| < 100
    ensures v.Name() == w.Name() ==> v == w
  {
    assert v.Name() == w.Name() ==>
        |v.Name()| == |w.Name()| && v.Name()[0] == w.Name()[0] && v.Name()[2] == w.Name()[2];
  }

  lemma FacetNames(v: Facet, w: Facet)
    ensures forall i :: 0 <= i < |v.Name()| ==> v.Name()[i] < 128 as char
    ensures |v.Name()| < 100
    ensures v.Name() == w.Name() ==> v == w
  {
    assert v.Name() == w.Name() ==> |v.Name()| == |w.Name()| && v.Name()[0] == w.Name()[0];
  }

  function QuestFields(q: Issued): (vals: seq<Value>)
    ensures |vals| == |QuestNames()|
  {
    VariantNames(q.variant, q.variant);
    FacetNames(q.facet, q.facet);
    [IdValue(q.id), Text(Render(q.issuedFor)), Integer(q.personaOrdinal), Text(ToHex(q.personaContent)),
     Text(Ascii(q.variant.Name())), Text(Ascii(q.facet.Name())), Integer(q.difficulty), Integer(q.confidence),
     Text(ToHex(q.answerCommitment)), Boolean(q.holdout), Boolean(q.decoy)]
  }

  /** Length and last letter tell the eleven field names apart. */
  lemma QuestNamesDistinct()
    ensures FieldNames(QuestNames())
  {
    var ns := QuestNames();
    forall i, j | 0 <= i < j < |ns|
      ensures ns[i] != ns[j]
    {
      QuestNameMark(i);
      QuestNameMark(j);
    }
    forall i | 0 <= i < |ns|
      ensures |ns[i]| < 100 && forall k :: 0 <= k < |ns[i]| ==> ns[i][k] < 0x80
    {
      QuestNameMark(i);
    }
  }

  /** The length and the last letter of each name. */
  function QuestMarks(): seq<(nat, char)> {
    [(2, 'd'), (10, 'r'), (15, 'l'), (15, 't'), (4, 'd'), (5, 't'), (10, 'y'), (10, 'e'), (17, 't'), (7, 't'), (5, 'y')]
  }

  lemma QuestNameMark(i: nat)
    requires i < 11
    ensures |QuestNames()| == |QuestMarks()| == 11
    ensures |QuestNames()[i]| == QuestMarks()[i].0 > 0
    ensures QuestNames()[i][|QuestNames()[i]| - 1] == QuestMarks()[i].1 as int
    ensures forall k :: 0 <= k < |QuestNames()[i]| ==> QuestNames()[i][k] < 0x80
  {
  }

  lemma ShortTextIsScalar(t: Bytes)
    requires |t| < 100 && forall i :: 0 <= i < |t| ==> t[i] < 0x80
    ensures Scalar(Text(t))
  {
    AsciiIsUtf8(t);
  }

  lemma NameIsScalar(s: string)
    requires |s| < 100 && forall i :: 0 <= i < |s| ==> s[i] < 128 as char
    ensures Scalar(Text(Ascii(s)))
  {
    ShortTextIsScalar(Ascii(s));
  }

  lemma QuestScalars(q: Issued)
    ensures Scalars(QuestFields(q))
  {
    hide Ascii, Render, ToHex, ValidUtf8;
    RenderedDateIsShort(q.issuedFor);
    ShortTextIsScalar(Render(q.issuedFor));
    ShortTextIsScalar(ToHex(q.personaContent));
    ShortTextIsScalar(ToHex(q.answerCommitment));
    VariantNames(q.variant, q.variant);
    NameIsScalar(q.variant.Name());
    FacetNames(q.facet, q.facet);
    NameIsScalar(q.facet.Name());
  }

  lemma QuestEncodes(q: Issued)
    ensures FieldNames(QuestNames()) && Scalars(QuestFields(q))
    ensures ToCanonicalCbor(Record(QuestNames(), QuestFields(q))).Ok?
  {
    hide QuestFields, QuestNames;
    QuestNamesDistinct();
    QuestScalars(q);
    RecordEncodes(QuestNames(), QuestFields(q));
  }

  function QuestPreimage(q: Quest): Preimage {
    QuestEncodes(q.issued);
    LeafPreimage(Tag.QuestLeaf, q.leafSalt, ToCanonicalCbor(Record(QuestNames(), QuestFields(q.issued))).value)
  }

  lemma QuestFieldsBind(p: Issued, q: Issued)
    requires QuestFields(p) == QuestFields(q)
    ensures p == q
  {
    var a, b := QuestFields(p), QuestFields(q);
    assert a[0] == b[0] && a[1] == b[1] && a[2] == b[2] && a[3] == b[3] && a[4] == b[4] && a[5] == b[5];
    assert a[6] == b[6] && a[7] == b[7] && a[8] == b[8] && a[9] == b[9] && a[10] == b[10];
    hide Ascii, Render, ToHex;
    IdInjective(p.id, q.id);
    RenderInjective(p.issuedFor, q.issuedFor);
    HexExact(p.personaContent, ToHex(q.personaContent));
    HexExact(q.personaContent, ToHex(q.personaContent));
    HexExact(p.answerCommitment, ToHex(q.answerCommitment));
    HexExact(q.answerCommitment, ToHex(q.answerCommitment));
    VariantNames(p.variant, q.variant);
    VariantNames(q.variant, p.variant);
    FacetNames(p.facet, q.facet);
    FacetNames(q.facet, p.facet);
    AsciiInjective(p.variant.Name(), q.variant.Name());
    AsciiInjective(p.facet.Name(), q.facet.Name());
  }

  /** A quest leaf binds the quest as issued and its own salt, and nothing else: not
      the claim's words, and not the verdict, which may arrive after the day sealed. */
  lemma QuestLeafBinds(p: Quest, q: Quest)
    ensures QuestPreimage(p) == QuestPreimage(q) <==> p.issued == q.issued && p.leafSalt == q.leafSalt
  {
    QuestEncodes(p.issued);
    QuestEncodes(q.issued);
    if QuestPreimage(p) == QuestPreimage(q) {
      var a, b := QuestFields(p.issued), QuestFields(q.issued);
      LeafPreimageInjective(Tag.QuestLeaf, p.leafSalt, ToCanonicalCbor(Record(QuestNames(), a)).value,
                            Tag.QuestLeaf, q.leafSalt, ToCanonicalCbor(Record(QuestNames(), b)).value);
      RecordBinds(QuestNames(), a, b);
      QuestFieldsBind(p.issued, q.issued);
    }
  }

  // --- verdicts ----------------------------------------------------------------------------------

  function VerdictTag(v: Verdict): string {
    match v
    case Confirm => "confirm"
    case Correct(_, _) => "correct"
    case Reject(_) => "reject"
    case Unknown => "unknown"
    case Void(_) => "void"
  }

  function SeverityValue(v: Verdict): Value {
    match v
    case Correct(Minor, _) => Text(Ascii("minor"))
    case Correct(Major, _) => Text(Ascii("major"))
    case _ => Null
  }

  function VerdictNames(): seq<Bytes> {
    [Ascii("quest_id"), Ascii("verdict"), Ascii("severity"), Ascii("answered_at")]
  }

  lemma VerdictTags(v: Verdict, w: Verdict)
    ensures forall i :: 0 <= i < |VerdictTag(v)| ==> VerdictTag(v)[i] < 128 as char
    ensures |VerdictTag(v)| < 100
    ensures VerdictTag(v) == VerdictTag(w) <==>
      (v.Confirm? <==> w.Confirm?) && (v.Correct? <==> w.Correct?) && (v.Reject? <==> w.Reject?)
      && (v.Unknown? <==> w.Unknown?) && (v.Void? <==> w.Void?)
  {
    if VerdictTag(v) == VerdictTag(w) {
      assert |VerdictTag(v)| == |VerdictTag(w)|;
      assert VerdictTag(v)[0] == VerdictTag(w)[0] && VerdictTag(v)[3] == VerdictTag(w)[3];
    }
  }

  function VerdictFields(id: Uuid, v: Verdict, answeredAt: i64): (vals: seq<Value>)
    ensures |vals| == |VerdictNames()|
  {
    VerdictTags(v, v);
    [IdValue(id), Text(Ascii(VerdictTag(v))), SeverityValue(v), Integer(answeredAt)]
  }

  lemma VerdictNamesDistinct()
    ensures FieldNames(VerdictNames())
  {
    var ns := VerdictNames();
    assert |ns[0]| == 8 && |ns[1]| == 7 && |ns[2]| == 8 && |ns[3]| == 11;
    assert ns[0][0] == 'q' as int && ns[2][0] == 's' as int;
  }

  lemma VerdictScalars(id: Uuid, v: Verdict, answeredAt: i64)
    ensures Scalars(VerdictFields(id, v, answeredAt))
  {
    hide Ascii, ValidUtf8;
    VerdictTags(v, v);
    NameIsScalar(VerdictTag(v));
    NameIsScalar("minor");
    NameIsScalar("major");
  }

  lemma VerdictEncodes(id: Uuid, v: Verdict, answeredAt: i64)
    ensures FieldNames(VerdictNames()) && Scalars(VerdictFields(id, v, answeredAt))
    ensures ToCanonicalCbor(Record(VerdictNames(), VerdictFields(id, v, answeredAt))).Ok?
  {
    hide VerdictFields, VerdictNames;
    VerdictNamesDistinct();
    VerdictScalars(id, v, answeredAt);
    RecordEncodes(VerdictNames(), VerdictFields(id, v, answeredAt));
  }

  function VerdictPreimage(q: Quest, v: Verdict, answeredAt: i64): Preimage {
    VerdictEncodes(q.issued.id, v, answeredAt);
    LeafPreimage(Tag.VerdictLeaf, q.verdictSalt,
                 ToCanonicalCbor(Record(VerdictNames(), VerdictFields(q.issued.id, v, answeredAt))).value)
  }

  /** The part of a verdict a leaf commits to: its shape, not its words. */
  predicate SameShapeOfAnswer(v: Verdict, w: Verdict) {
    && (v.Confirm? <==> w.Confirm?) && (v.Correct? <==> w.Correct?) && (v.Reject? <==> w.Reject?)
    && (v.Unknown? <==> w.Unknown?) && (v.Void? <==> w.Void?)
    && (v.Correct? ==> v.severity == w.severity)
  }

  lemma SeverityValues(v: Verdict, w: Verdict)
    requires VerdictTag(v) == VerdictTag(w)
    ensures SeverityValue(v) == SeverityValue(w) <==> SameShapeOfAnswer(v, w)
  {
    VerdictTags(v, w);
    assert Ascii("minor")[1] == 'i' as int && Ascii("major")[1] == 'a' as int;
  }

  /** A verdict leaf binds its salt, the quest, the kind of answer, its severity and
      the instant it was given; the words of a correction stay out of the preimage. */
  lemma VerdictLeafBinds(p: Quest, v: Verdict, t: i64, q: Quest, w: Verdict, u: i64)
    ensures VerdictPreimage(p, v, t) == VerdictPreimage(q, w, u)
       <==> p.verdictSalt == q.verdictSalt && p.issued.id == q.issued.id && SameShapeOfAnswer(v, w) && t == u
  {
    VerdictEncodes(p.issued.id, v, t);
    VerdictEncodes(q.issued.id, w, u);
    VerdictTags(v, w);
    VerdictTags(w, v);
    var a, b := VerdictFields(p.issued.id, v, t), VerdictFields(q.issued.id, w, u);
    if SameShapeOfAnswer(v, w) {
      SeverityValues(v, w);
    }
    if VerdictPreimage(p, v, t) == VerdictPreimage(q, w, u) {
      LeafPreimageInjective(Tag.VerdictLeaf, p.verdictSalt, ToCanonicalCbor(Record(VerdictNames(), a)).value,
                            Tag.VerdictLeaf, q.verdictSalt, ToCanonicalCbor(Record(VerdictNames(), b)).value);
      RecordBinds(VerdictNames(), a, b);
      VerdictFieldsBind(p.issued.id, v, t, q.issued.id, w, u);
    }
  }

  lemma VerdictFieldsBind(i: Uuid, v: Verdict, t: i64, j: Uuid, w: Verdict, u: i64)
    requires VerdictFields(i, v, t) == VerdictFields(j, w, u)
    ensures i == j && SameShapeOfAnswer(v, w) && t == u
  {
    var a, b := VerdictFields(i, v, t), VerdictFields(j, w, u);
    assert a[0] == b[0] && a[1] == b[1] && a[2] == b[2] && a[3] == b[3];
    IdInjective(i, j);
    VerdictTags(v, w);
    VerdictTags(w, v);
    AsciiInjective(VerdictTag(v), VerdictTag(w));
    SeverityValues(v, w);
  }
}
