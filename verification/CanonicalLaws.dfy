/** One byte string per value: what deterministic encoding guarantees, and the two
    corners where it does not. */
module CanonicalLaws {
  import opened Basics
  import opened Ordering
  import opened CborNumbers
  import opened Cbor
  import opened Canonical

  // --- entry by entry -----------------------------------------------------------------------

  predicate EntryOk(e: Entry) {
    CanonEntry(e).Ok?
  }

  lemma {:induction false} EntriesPointwise(es: seq<Entry>)
    ensures CanonEntries(es).Ok? <==> forall i :: 0 <= i < |es| ==> EntryOk(es[i])
    ensures CanonEntries(es).Ok? ==> |CanonEntries(es).value| == |es|
    ensures CanonEntries(es).Ok? ==>
      forall i :: 0 <= i < |es| ==> EntryOk(es[i]) && CanonEntries(es).value[i] == CanonEntry(es[i]).value
  {
    if es != [] {
      EntriesPointwise(es[1..]);
      assert es == [es[0]] + es[1..];
    }
  }

  lemma {:induction false} ItemsPointwise(vs: seq<Value>)
    ensures CanonItems(vs).Ok? <==> forall i :: 0 <= i < |vs| ==> Canonicalize(vs[i]).Ok?
    ensures CanonItems(vs).Ok? ==> |CanonItems(vs).value| == |vs|
    ensures CanonItems(vs).Ok? ==>
      forall i :: 0 <= i < |vs| ==> Canonicalize(vs[i]) == Ok(CanonItems(vs).value[i])
  {
    if vs != [] {
      ItemsPointwise(vs[1..]);
      assert vs == [vs[0]] + vs[1..];
    }
  }

  lemma SealMapExact(keyed: seq<Keyed>)
    ensures SealMap(keyed).Ok? <==> KeysDistinct(EncodedKey, keyed)
    ensures SealMap(keyed).Ok? ==> KeysDistinct(EncodedKey, SortBy(EncodedKey, keyed))
  {
    var sorted := SortBy(EncodedKey, keyed);
    SortByCorrect(EncodedKey, keyed);
    AdjacentRepeatExact(EncodedKey, sorted);
    if KeysDistinct(EncodedKey, keyed) {
      KeysDistinctPermuted(EncodedKey, keyed, sorted);
    }
    if KeysDistinct(EncodedKey, sorted) {
      KeysDistinctPermuted(EncodedKey, sorted, keyed);
    }
  }

  // --- when canonicalisation fails ------------------------------------------------------------

  /** No float, and no map with a repeated key, at any depth short of a tag. */
  predicate Clean(v: Value)
    decreases v
  {
    match v
    case Float(_) => false
    case Array(items) => forall i :: 0 <= i < |items| ==> Clean(items[i])
    case Map(entries) =>
      && (forall i :: 0 <= i < |entries| ==> CleanEntry(entries[i]))
      && (forall i, j :: 0 <= i < j < |entries| ==> entries[i].key != entries[j].key)
    case _ => true
  }

  predicate CleanEntry(e: Entry)
    decreases e
  {
    Clean(e.key) && Clean(e.val)
  }

  predicate WellFormedEntry(e: Entry) {
    WellFormed(e.key) && WellFormed(e.val)
  }

  /** Canonicalisation fails exactly on a float or a duplicate key. */
  lemma {:induction false} FailsExactly(v: Value)
    requires WellFormed(v)
    ensures Canonicalize(v).Ok? <==> Clean(v)
    decreases v
  {
    match v {
      case Array(items) =>
        ItemsPointwise(items);
        forall i | 0 <= i < |items|
          ensures Canonicalize(items[i]).Ok? <==> Clean(items[i])
        {
          FailsExactly(items[i]);
        }
      case Map(entries) =>
        EntriesPointwise(entries);
        forall i | 0 <= i < |entries|
          ensures EntryOk(entries[i]) <==> CleanEntry(entries[i])
        {
          EntryFailsExactly(entries[i]);
        }
        if CanonEntries(entries).Ok? {
          DuplicatesFailExactly(entries);
        }
      case _ =>
    }
  }

  lemma DuplicatesFailExactly(entries: seq<Entry>)
    requires CanonEntries(entries).Ok?
    requires forall i :: 0 <= i < |entries| ==> WellFormedEntry(entries[i])
    ensures SealMap(CanonEntries(entries).value).Ok?
       <==> forall i, j :: 0 <= i < j < |entries| ==> entries[i].key != entries[j].key
  {
    hide Encode, SealMap, CanonEntries;
    EntriesPointwise(entries);
    var keyed := CanonEntries(entries).value;
    SealMapExact(keyed);
    forall i, j | 0 <= i < j < |entries|
      ensures EncodedKey(keyed[i]) == EncodedKey(keyed[j]) <==> entries[i].key == entries[j].key
    {
      assert WellFormedEntry(entries[i]) && WellFormedEntry(entries[j]);
      KeysApart(entries[i].key, entries[j].key);
    }
  }

  lemma {:induction false} EntryFailsExactly(e: Entry)
    requires WellFormedEntry(e)
    ensures EntryOk(e) <==> CleanEntry(e)
    decreases e
  {
    FailsExactly(e.key);
    FailsExactly(e.val);
  }

  // --- and for which reason ---------------------------------------------------------------------------------

  predicate Floatless(v: Value)
    decreases v
  {
    match v
    case Float(_) => false
    case Array(items) => forall i :: 0 <= i < |items| ==> Floatless(items[i])
    case Map(entries) => forall i :: 0 <= i < |entries| ==> FloatlessEntry(entries[i])
    case _ => true
  }

  predicate FloatlessEntry(e: Entry)
    decreases e
  {
    Floatless(e.key) && Floatless(e.val)
  }

  predicate Repeatless(v: Value)
    decreases v
  {
    match v
    case Array(items) => forall i :: 0 <= i < |items| ==> Repeatless(items[i])
    case Map(entries) =>
      && (forall i :: 0 <= i < |entries| ==> RepeatlessEntry(entries[i]))
      && (forall i, j :: 0 <= i < j < |entries| ==> entries[i].key != entries[j].key)
    case _ => true
  }

  predicate RepeatlessEntry(e: Entry)
    decreases e
  {
    Repeatless(e.key) && Repeatless(e.val)
  }

  lemma {:induction false} ItemsFailFirst(vs: seq<Value>) returns (i: nat)
    requires CanonItems(vs).Err?
    ensures i < |vs| && Canonicalize(vs[i]) == Err(CanonItems(vs).error)
    decreases |vs|
  {
    hide Canonicalize;
    i := 0;
    if Canonicalize(vs[0]).Ok? {
      var j := ItemsFailFirst(vs[1..]);
      i := j + 1;
    }
  }

  lemma {:induction false} EntriesFailFirst(es: seq<Entry>) returns (i: nat)
    requires CanonEntries(es).Err?
    ensures i < |es| && CanonEntry(es[i]) == Err(CanonEntries(es).error)
    decreases |es|
  {
    hide CanonEntry;
    i := 0;
    if CanonEntry(es[0]).Ok? {
      var j := EntriesFailFirst(es[1..]);
      i := j + 1;
    }
  }

  /** A refusal names what is there: a float, or a repeated key. */
  lemma {:induction false} ReasonExact(v: Value)
    requires WellFormed(v)
    ensures Canonicalize(v) == Err(FloatRefused) ==> !Floatless(v)
    ensures Canonicalize(v) == Err(DuplicateKey) ==> !Repeatless(v)
    ensures Canonicalize(v).Err? ==> Canonicalize(v).error in {FloatRefused, DuplicateKey}
    decreases v, 1
  {
    hide Encode, SealMap;
    match v {
      case Array(items) =>
        if CanonItems(items).Err? {
          var i := ItemsFailFirst(items);
          ReasonExact(items[i]);
        }
      case Map(entries) =>
        if CanonEntries(entries).Err? {
          var i := EntriesFailFirst(entries);
          assert WellFormedEntry(entries[i]);
          EntryReason(entries[i]);
        } else {
          OnlyRepeats(CanonEntries(entries).value);
          assert forall i :: 0 <= i < |entries| ==> WellFormedEntry(entries[i]);
          DuplicatesFailExactly(entries);
        }
      case _ =>
    }
  }

  lemma {:induction false} EntryReason(e: Entry)
    requires WellFormedEntry(e)
    ensures CanonEntry(e) == Err(FloatRefused) ==> !FloatlessEntry(e)
    ensures CanonEntry(e) == Err(DuplicateKey) ==> !RepeatlessEntry(e)
    ensures CanonEntry(e).Err? ==> CanonEntry(e).error in {FloatRefused, DuplicateKey}
    decreases e, 0
  {
    hide Encode, Canonicalize;
    ReasonExact(e.key);
    ReasonExact(e.val);
  }

  lemma OnlyRepeats(keyed: seq<Keyed>)
    ensures SealMap(keyed).Err? ==> SealMap(keyed).error == DuplicateKey
  {
  }

  lemma KeysApart(k: Value, k': Value)
    requires WellFormed(k) && WellFormed(k')
    ensures Encode(k) == Encode(k') <==> k == k'
  {
    if Encode(k) == Encode(k') {
      EncodeInjective(k, [], k', []);
    }
  }

  // --- well-formedness is kept -----------------------------------------------------------------

  lemma {:induction false} StaysWellFormed(v: Value)
    requires WellFormed(v) && Canonicalize(v).Ok?
    ensures WellFormed(Canonicalize(v).value)
    decreases v
  {
    hide Encode, InsertBy, SortBy, LexLeq, ValidUtf8;
    match v {
      case Array(items) =>
        ItemsPointwise(items);
        forall i | 0 <= i < |items|
          ensures WellFormed(CanonItems(items).value[i])
        {
          StaysWellFormed(items[i]);
        }
      case Map(entries) =>
        EntriesPointwise(entries);
        var keyed := CanonEntries(entries).value;
        var sorted := SortBy(EncodedKey, keyed);
        SortByCorrect(EncodedKey, keyed);
        forall i | 0 <= i < |sorted|
          ensures WellFormed(sorted[i].key) && WellFormed(sorted[i].val)
        {
          MemberAcross(sorted, keyed, sorted[i]);
          var j :| 0 <= j < |keyed| && keyed[j] == sorted[i];
          EntryStaysWellFormed(entries[j]);
        }
      case _ =>
    }
  }

  lemma {:induction false} EntryStaysWellFormed(e: Entry)
    requires WellFormedEntry(e) && EntryOk(e)
    ensures WellFormed(CanonEntry(e).value.key) && WellFormed(CanonEntry(e).value.val)
    decreases e
  {
    StaysWellFormed(e.key);
    StaysWellFormed(e.val);
  }

  // --- idempotence --------------------------------------------------------------------------------

  predicate PlainKey(k: Value) {
    !k.Map? && !k.Array?
  }

  /** Every map key met without crossing a tag is a scalar (or a tag). */
  predicate PlainKeys(v: Value)
    decreases v
  {
    match v
    case Array(items) => forall i :: 0 <= i < |items| ==> PlainKeys(items[i])
    case Map(entries) => forall i :: 0 <= i < |entries| ==> PlainEntry(entries[i])
    case _ => true
  }

  predicate PlainEntry(e: Entry)
    decreases e
  {
    PlainKey(e.key) && PlainKeys(e.val)
  }

  lemma SortedIsFixed(keyed: seq<Keyed>)
    requires SortedBy(EncodedKey, keyed) && KeysDistinct(EncodedKey, keyed)
    ensures SortBy(EncodedKey, keyed) == keyed
  {
    SortByCorrect(EncodedKey, keyed);
    KeysDistinctPermuted(EncodedKey, keyed, SortBy(EncodedKey, keyed));
    SortedUnique(EncodedKey, SortBy(EncodedKey, keyed), keyed);
  }

  /** Canonical form is a fixed point. */
  lemma {:induction false} Idempotent(v: Value)
    requires PlainKeys(v) && Canonicalize(v).Ok?
    ensures Canonicalize(Canonicalize(v).value) == Canonicalize(v)
    ensures PlainKeys(Canonicalize(v).value)
    decreases v
  {
    hide Encode, InsertBy, SortBy, LexLeq;
    match v {
      case Array(items) =>
        ItemsPointwise(items);
        var cs := CanonItems(items).value;
        forall i | 0 <= i < |items|
          ensures Canonicalize(cs[i]) == Ok(cs[i]) && PlainKeys(cs[i])
        {
          Idempotent(items[i]);
        }
        ItemsPointwise(cs);
        assert CanonItems(cs).value == cs;
      case Map(entries) =>
        EntriesPointwise(entries);
        var keyed := CanonEntries(entries).value;
        var sorted := SortBy(EncodedKey, keyed);
        SortByCorrect(EncodedKey, keyed);
        SealMapExact(keyed);
        forall i | 0 <= i < |sorted|
          ensures CanonEntry(Strip(sorted)[i]) == Ok(sorted[i]) && PlainEntry(Strip(sorted)[i])
        {
          MemberAcross(sorted, keyed, sorted[i]);
          var j :| 0 <= j < |keyed| && keyed[j] == sorted[i];
          EntryIdempotent(entries[j]);
        }
        EntriesPointwise(Strip(sorted));
        assert CanonEntries(Strip(sorted)).value == sorted;
        SortedIsFixed(sorted);
        SealMapExact(sorted);
      case _ =>
    }
  }

  lemma {:induction false} EntryIdempotent(e: Entry)
    requires PlainEntry(e) && EntryOk(e)
    ensures var k := CanonEntry(e).value;
            CanonEntry(Entry(k.key, k.val)) == Ok(k) && PlainEntry(Entry(k.key, k.val))
    decreases e
  {
    Idempotent(e.val);
  }

  // --- blindness to entry order ---------------------------------------------------------------------

  /** Equal up to the order of map entries, at every depth short of a tag. */
  ghost predicate SameUpToOrder(v: Value, w: Value)
    decreases v
  {
    match (v, w)
    case (Array(a), Array(b)) => |a| == |b| && forall i :: 0 <= i < |a| ==> SameUpToOrder(a[i], b[i])
    case (Map(a), Map(b)) => SameEntries(a, b)
    case _ => v == w
  }

  ghost predicate SameEntry(a: Entry, b: Entry)
    decreases a
  {
    a.key == b.key && SameUpToOrder(a.val, b.val)
  }

  ghost predicate SameEntries(a: seq<Entry>, b: seq<Entry>)
    decreases a
  {
    |a| == |b| && (a == [] || exists j :: 0 <= j < |b| && SameEntry(a[0], b[j]) && SameEntries(a[1..], Without(b, j)))
  }

  lemma EntriesOkWithout(es: seq<Entry>, j: nat)
    requires j < |es|
    ensures CanonEntries(es).Ok? <==> EntryOk(es[j]) && CanonEntries(Without(es, j)).Ok?
  {
    hide CanonEntries, CanonEntry;
    var rest := Without(es, j);
    EntriesPointwise(es);
    EntriesPointwise(rest);
    assert forall i :: 0 <= i < j ==> rest[i] == es[i];
    assert forall i :: j <= i < |rest| ==> rest[i] == es[i + 1];
    if EntryOk(es[j]) && CanonEntries(rest).Ok? {
      forall i | 0 <= i < |es|
        ensures EntryOk(es[i])
      {
        assert i < j ==> EntryOk(rest[i]);
        assert i > j ==> EntryOk(rest[i - 1]);
      }
    }
  }

  lemma CanonEntriesWithout(es: seq<Entry>, j: nat)
    requires j < |es|
    ensures CanonEntries(es).Ok? <==> EntryOk(es[j]) && CanonEntries(Without(es, j)).Ok?
    ensures CanonEntries(es).Ok? ==>
      |CanonEntries(es).value| == |es| && CanonEntries(es).value[j] == CanonEntry(es[j]).value
      && CanonEntries(Without(es, j)).value == Without(CanonEntries(es).value, j)
  {
    hide CanonEntries, CanonEntry;
    EntriesOkWithout(es, j);
    EntriesPointwise(es);
    EntriesPointwise(Without(es, j));
    if CanonEntries(es).Ok? {
      assert CanonEntries(Without(es, j)).value == Without(CanonEntries(es).value, j);
    }
  }

  /** The outcome of two canonicalisations is one value, or both fail. */
  ghost predicate SameOutcome<T>(a: Result<T, Reason>, b: Result<T, Reason>) {
    (a.Ok? <==> b.Ok?) && (a.Ok? ==> a.value == b.value)
  }

  lemma {:induction false} EntriesOrderBlind(a: seq<Entry>, b: seq<Entry>)
    requires SameEntries(a, b)
    ensures CanonEntries(a).Ok? <==> CanonEntries(b).Ok?
    ensures CanonEntries(a).Ok? ==> multiset(CanonEntries(a).value) == multiset(CanonEntries(b).value)
    decreases a, 1
  {
    if a != [] {
      var j :| 0 <= j < |b| && SameEntry(a[0], b[j]) && SameEntries(a[1..], Without(b, j));
      EntryOrderBlind(a[0], b[j]);
      EntriesOrderBlind(a[1..], Without(b, j));
      assert Without(a, 0) == a[1..];
      CanonEntriesWithout(a, 0);
      CanonEntriesWithout(b, j);
      if CanonEntries(a).Ok? {
        var ka, kb := CanonEntries(a).value, CanonEntries(b).value;
        WithoutMultiset(ka, 0);
        WithoutMultiset(kb, j);
        MultisetRestore(multiset(ka), multiset(kb), ka[0]);
      }
    }
  }

  lemma {:induction false} EntryOrderBlind(a: Entry, b: Entry)
    requires SameEntry(a, b)
    ensures SameOutcome(CanonEntry(a), CanonEntry(b))
    decreases a, 0
  {
    OrderBlind(a.val, b.val);
  }

  lemma SealMapOrderBlind(a: seq<Keyed>, b: seq<Keyed>)
    requires multiset(a) == multiset(b)
    ensures SameOutcome(SealMap(a), SealMap(b))
  {
    hide LexLeq, InsertBy, SortBy, Encode;
    SealMapExact(a);
    SealMapExact(b);
    if KeysDistinct(EncodedKey, a) {
      KeysDistinctPermuted(EncodedKey, a, b);
      SortByCorrect(EncodedKey, a);
      SortByCorrect(EncodedKey, b);
      SortedUnique(EncodedKey, SortBy(EncodedKey, a), SortBy(EncodedKey, b));
    } else if KeysDistinct(EncodedKey, b) {
      KeysDistinctPermuted(EncodedKey, b, a);
    }
  }

  /** Canonicalisation does not see the order of map entries, at any depth. */
  lemma {:induction false} OrderBlind(v: Value, w: Value)
    requires SameUpToOrder(v, w)
    ensures SameOutcome(Canonicalize(v), Canonicalize(w))
    decreases v, 0
  {
    match (v, w) {
      case (Array(a), Array(b)) =>
        ItemsPointwise(a);
        ItemsPointwise(b);
        forall i | 0 <= i < |a|
          ensures SameOutcome(Canonicalize(a[i]), Canonicalize(b[i]))
        {
          OrderBlind(a[i], b[i]);
        }
        if CanonItems(a).Ok? {
          assert CanonItems(a).value == CanonItems(b).value;
        }
      case (Map(a), Map(b)) =>
        EntriesOrderBlind(a, b);
        if CanonEntries(a).Ok? {
          SealMapOrderBlind(CanonEntries(a).value, CanonEntries(b).value);
        }
      case _ =>
    }
  }

  // --- equal canonical forms come from equal values ---------------------------------------------------

  /** Each entry still carries the encoding of its key. */
  predicate Faithful(keyed: seq<Keyed>) {
    forall i :: 0 <= i < |keyed| ==> keyed[i].enc == Encode(keyed[i].key)
  }

  lemma StripInjective(a: seq<Keyed>, b: seq<Keyed>)
    requires Strip(a) == Strip(b) && Faithful(a) && Faithful(b)
    ensures a == b
  {
    assert |a| == |Strip(a)| == |Strip(b)| == |b|;
    forall i | 0 <= i < |a|
      ensures a[i] == b[i]
    {
      assert Strip(a)[i] == Strip(b)[i];
    }
  }

  lemma PlainKeyStays(e: Entry)
    requires PlainEntry(e) && EntryOk(e)
    ensures CanonEntry(e).value.key == e.key && CanonEntry(e).value.enc == Encode(e.key)
    ensures Canonicalize(e.val) == Ok(CanonEntry(e).value.val)
  {
  }

  lemma PlainKeysStayFaithful(es: seq<Entry>)
    requires CanonEntries(es).Ok? && forall i :: 0 <= i < |es| ==> PlainEntry(es[i])
    ensures Faithful(SortBy(EncodedKey, CanonEntries(es).value))
  {
    EntriesPointwise(es);
    var keyed := CanonEntries(es).value;
    var sorted := SortBy(EncodedKey, keyed);
    SortByCorrect(EncodedKey, keyed);
    forall i | 0 <= i < |sorted|
      ensures sorted[i].enc == Encode(sorted[i].key)
    {
      MemberAcross(sorted, keyed, sorted[i]);
      var j :| 0 <= j < |keyed| && keyed[j] == sorted[i];
      PlainKeyStays(es[j]);
    }
  }

  lemma {:induction false} EntriesReflect(a: seq<Entry>, b: seq<Entry>)
    requires CanonEntries(a).Ok? && CanonEntries(b).Ok?
    requires multiset(CanonEntries(a).value) == multiset(CanonEntries(b).value)
    requires forall i :: 0 <= i < |a| ==> PlainEntry(a[i])
    requires forall i :: 0 <= i < |b| ==> PlainEntry(b[i])
    ensures SameEntries(a, b)
    decreases a, 1
  {
    LengthsAgree(a, b);
    if a != [] {
      var j := FirstMatch(a, b);
      EntryReflects(a[0], b[j]);
      assert Without(a, 0) == a[1..];
      RemovalKeepsBags(a, b, j);
      WithoutPlain(b, j);
      EntriesReflect(a[1..], Without(b, j));
    }
  }

  lemma LengthsAgree(a: seq<Entry>, b: seq<Entry>)
    requires CanonEntries(a).Ok? && CanonEntries(b).Ok?
    requires multiset(CanonEntries(a).value) == multiset(CanonEntries(b).value)
    ensures |a| == |b|
  {
    EntriesPointwise(a);
    EntriesPointwise(b);
    EqualBagsSameLength(CanonEntries(a).value, CanonEntries(b).value);
  }

  lemma FirstMatch(a: seq<Entry>, b: seq<Entry>) returns (j: nat)
    requires CanonEntries(a).Ok? && CanonEntries(b).Ok? && a != []
    requires multiset(CanonEntries(a).value) == multiset(CanonEntries(b).value)
    ensures j < |b| && EntryOk(a[0]) && CanonEntry(b[j]) == CanonEntry(a[0])
    ensures |CanonEntries(a).value| == |a| && |CanonEntries(b).value| == |b|
    ensures CanonEntries(a).value[0] == CanonEntries(b).value[j]
  {
    EntriesPointwise(a);
    EntriesPointwise(b);
    j := FindEqual(CanonEntries(a).value, CanonEntries(b).value);
  }

  lemma RemovalKeepsBags(a: seq<Entry>, b: seq<Entry>, j: nat)
    requires CanonEntries(a).Ok? && CanonEntries(b).Ok? && a != [] && j < |b|
    requires |CanonEntries(a).value| == |a| && |CanonEntries(b).value| == |b|
    requires CanonEntries(a).value[0] == CanonEntries(b).value[j]
    requires multiset(CanonEntries(a).value) == multiset(CanonEntries(b).value)
    ensures CanonEntries(Without(a, 0)).Ok? && CanonEntries(Without(b, j)).Ok?
    ensures multiset(CanonEntries(Without(a, 0)).value) == multiset(CanonEntries(Without(b, j)).value)
  {
    CanonEntriesWithout(a, 0);
    CanonEntriesWithout(b, j);
    WithoutMultiset(CanonEntries(a).value, 0);
    WithoutMultiset(CanonEntries(b).value, j);
  }

  lemma WithoutPlain(b: seq<Entry>, j: nat)
    requires j < |b| && forall i :: 0 <= i < |b| ==> PlainEntry(b[i])
    ensures forall i :: 0 <= i < |Without(b, j)| ==> PlainEntry(Without(b, j)[i])
  {
  }

  lemma {:induction false} EntryReflects(a: Entry, b: Entry)
    requires PlainEntry(a) && PlainEntry(b)
    requires CanonEntry(a).Ok? && CanonEntry(a) == CanonEntry(b)
    ensures SameEntry(a, b)
    decreases a, 0
  {
    CanonReflects(a.val, b.val);
  }

  /** The converse of `OrderBlind`: values with one canonical form differ at most in
      the order of map entries. */
  lemma {:induction false} CanonReflects(v: Value, w: Value)
    requires PlainKeys(v) && PlainKeys(w)
    requires Canonicalize(v).Ok? && Canonicalize(v) == Canonicalize(w)
    ensures SameUpToOrder(v, w)
    decreases v, 0
  {
    match (v, w) {
      case (Array(a), Array(b)) =>
        ItemsPointwise(a);
        ItemsPointwise(b);
        forall i | 0 <= i < |a|
          ensures SameUpToOrder(a[i], b[i])
        {
          CanonReflects(a[i], b[i]);
        }
      case (Map(a), Map(b)) =>
        var ka, kb := CanonEntries(a).value, CanonEntries(b).value;
        PlainKeysStayFaithful(a);
        PlainKeysStayFaithful(b);
        StripInjective(SortBy(EncodedKey, ka), SortBy(EncodedKey, kb));
        SortByCorrect(EncodedKey, ka);
        SortByCorrect(EncodedKey, kb);
        EntriesReflect(a, b);
      case _ =>
    }
  }

  /** One byte string per value: on values whose map keys are scalars, two canonical
      encodings are equal if and only if the values are equal up to entry order. */
  lemma OneEncodingPerValue(v: Value, w: Value)
    requires WellFormed(v) && WellFormed(w) && PlainKeys(v) && PlainKeys(w)
    requires Clean(v) && Clean(w)
    ensures ToCanonicalCbor(v).Ok? && ToCanonicalCbor(w).Ok?
    ensures ToCanonicalCbor(v) == ToCanonicalCbor(w) <==> SameUpToOrder(v, w)
  {
    FailsExactly(v);
    FailsExactly(w);
    StaysWellFormed(v);
    StaysWellFormed(w);
    if SameUpToOrder(v, w) {
      OrderBlind(v, w);
    }
    if ToCanonicalCbor(v) == ToCanonicalCbor(w) {
      EncodeInjective(Canonicalize(v).value, [], Canonicalize(w).value, []);
      CanonReflects(v, w);
    }
  }

  // --- the strict decoder ---------------------------------------------------------------------------------

  /** `v` is already in canonical form. */
  predicate IsCanonical(v: Value) {
    Canonicalize(v) == Ok(v)
  }

  /** The strict test accepts exactly the encodings of canonical values, and returns
      that value: nothing indefinite, padded, reordered or trailing gets through. */
  lemma AcceptsExactlyCanonical(b: Bytes)
    ensures FromCanonicalCbor(b).Ok? <==> exists v :: WellFormed(v) && IsCanonical(v) && Encode(v) == b
    ensures FromCanonicalCbor(b).Ok? ==>
      WellFormed(FromCanonicalCbor(b).value) && IsCanonical(FromCanonicalCbor(b).value)
      && Encode(FromCanonicalCbor(b).value) == b
  {
    if FromCanonicalCbor(b).Ok? {
      var v := Decode(b).value.0;
      DecodedWellFormed(b);
      StaysWellFormed(v);
      var c := Canonicalize(v).value;
      RoundTrip(c, []);
      assert Encode(c) + [] == b;
    }
    if exists v :: WellFormed(v) && IsCanonical(v) && Encode(v) == b {
      var v :| WellFormed(v) && IsCanonical(v) && Encode(v) == b;
      RoundTrip(v, []);
      assert Encode(v) + [] == b;
    }
  }

  /** What the encoder writes, the strict decoder takes back as the canonical value. */
  lemma EncoderOutputAccepted(v: Value)
    requires WellFormed(v) && PlainKeys(v) && Clean(v)
    ensures ToCanonicalCbor(v).Ok?
    ensures FromCanonicalCbor(ToCanonicalCbor(v).value) == Canonicalize(v)
  {
    FailsExactly(v);
    StaysWellFormed(v);
    Idempotent(v);
    var c := Canonicalize(v).value;
    RoundTrip(c, []);
    assert Encode(c) + [] == Encode(c);
  }

  /** Two accepted strings that decode to one value up to entry order are one string. */
  lemma AcceptedStringsUnique(a: Bytes, b: Bytes)
    requires FromCanonicalCbor(a).Ok? && FromCanonicalCbor(b).Ok?
    requires SameUpToOrder(FromCanonicalCbor(a).value, FromCanonicalCbor(b).value)
    ensures a == b
  {
    AcceptsExactlyCanonical(a);
    AcceptsExactlyCanonical(b);
    OrderBlind(FromCanonicalCbor(a).value, FromCanonicalCbor(b).value);
  }

  // --- the two corners ---------------------------------------------------------------------------------------

  /** Tags are not looked into: a tagged value is canonical whatever it holds, a float
      or a map out of order included, and its encoding is accepted. */
  lemma TagsAreOpaque(number: u64, content: Value)
    requires WellFormed(Tagged(number, content))
    ensures IsCanonical(Tagged(number, content))
    ensures FromCanonicalCbor(Encode(Tagged(number, content))) == Ok(Tagged(number, content))
  {
    AcceptsExactlyCanonical(Encode(Tagged(number, content)));
    RoundTrip(Tagged(number, content), []);
    assert Encode(Tagged(number, content)) + [] == Encode(Tagged(number, content));
  }

  /** What is under a tag must still be written at its shortest: a double is accepted
      there exactly when no narrower float has its bits. */
  lemma TaggedFloatIsShortest(number: u64, bits: u64)
    requires !IsBignumTag(number)
    ensures FromCanonicalCbor(Head(6, number) + ([DOUBLE] + BigEndian(bits, 8))).Ok?
       <==> Narrow(bits, HALF_FORMAT).None? && Narrow(bits, SINGLE_FORMAT).None?
  {
    hide Canonicalize, Narrow, Head;
    var wide := [DOUBLE] + BigEndian(bits, 8);
    var v := Tagged(number, Float(bits));
    ReadsWide(number, bits);
    if FromCanonicalCbor(Head(6, number) + wide).Ok? {
      AcceptsExactlyCanonical(Head(6, number) + wide);
      assert Head(6, number) + wide == Head(6, number) + EncodeFloat(bits);
      ConcatSplit(Head(6, number), wide, Head(6, number), EncodeFloat(bits));
    } else {
      TagsAreOpaque(number, Float(bits));
    }
  }

  lemma ReadsWide(number: u64, bits: u64)
    requires !IsBignumTag(number)
    ensures Decode(Head(6, number) + ([DOUBLE] + BigEndian(bits, 8))) == Some((Tagged(number, Float(bits)), []))
  {
    hide Narrow;
    var wide := [DOUBLE] + BigEndian(bits, 8);
    HeadRoundTrip(6, number, wide);
    Pow256Values();
    BigEndianRoundTrip(bits, 8);
    assert wide[1..9] == BigEndian(bits, 8) && wide[9..] == [];
    assert Decode(wide) == Some((Float(bits), []));
  }

  function Pair(a: int, b: int): Value {
    Map([Entry(Integer(a), Null), Entry(Integer(b), Null)])
  }

  function Keys(k: Value, m: Value): Value {
    Map([Entry(k, Null), Entry(m, Null)])
  }

  /** Map-valued keys break the fixed point. Keys are sorted by their encoding as it
      arrived; here the first key is reordered inside, and the canonicaliser's own
      output is not canonical. The encoder writes bytes its own decoder rejects. */
  lemma MapKeysBreakIdempotence(a: int, b: int, c: int)
    requires 0 <= a < b < c < 24
    ensures WellFormed(Keys(Pair(b, a), Pair(a, c)))
    ensures Canonicalize(Keys(Pair(b, a), Pair(a, c))) == Ok(Keys(Pair(a, c), Pair(a, b)))
    ensures Canonicalize(Keys(Pair(a, c), Pair(a, b))) == Ok(Keys(Pair(a, b), Pair(a, c)))
    ensures FromCanonicalCbor(Encode(Keys(Pair(a, c), Pair(a, b)))) == Err(NotCanonical)
  {
    PairCanonical(b, a);
    PairCanonical(a, c);
    PairCanonical(a, b);
    PairOrder(b, a, a, c);
    PairOrder(a, c, a, b);
    TwoKeysSort(Pair(b, a), Pair(a, b), Pair(a, c), Pair(a, c));
    TwoKeysSort(Pair(a, c), Pair(a, c), Pair(a, b), Pair(a, b));
    KeysWellFormed(Pair(b, a), Pair(a, c));
    KeysWellFormed(Pair(a, c), Pair(a, b));
    KeysWellFormed(Pair(a, b), Pair(a, c));
    KeysDiffer(Pair(a, c), Pair(a, b));
    OutOfOrderRejected(Keys(Pair(a, c), Pair(a, b)), Keys(Pair(a, b), Pair(a, c)));
  }

  lemma KeysWellFormed(k: Value, m: Value)
    requires WellFormed(k) && WellFormed(m)
    ensures WellFormed(Keys(k, m))
  {
  }

  lemma KeysDiffer(k: Value, m: Value)
    requires k != m
    ensures Keys(k, m) != Keys(m, k)
  {
    assert Keys(k, m).entries[0].key == k && Keys(m, k).entries[0].key == m;
  }

  lemma OutOfOrderRejected(c: Value, d: Value)
    requires WellFormed(c) && WellFormed(d) && c != d && Canonicalize(c) == Ok(d)
    ensures FromCanonicalCbor(Encode(c)) == Err(NotCanonical)
  {
    RoundTrip(c, []);
    assert Encode(c) + [] == Encode(c);
    KeysApart(c, d);
  }

  lemma PairOrder(a: int, b: int, c: int, d: int)
    requires 0 <= a < 24 && 0 <= b < 24 && 0 <= c < 24 && 0 <= d < 24
    requires c < a || (c == a && d < b)
    ensures !LexLeq(Encode(Pair(a, b)), Encode(Pair(c, d)))
    ensures Encode(Pair(a, b)) != Encode(Pair(c, d))
    ensures WellFormed(Pair(a, b)) && WellFormed(Pair(c, d)) && Pair(a, b) != Pair(c, d)
  {
    PairEncoding(a, b);
    PairEncoding(c, d);
    var x: Bytes, y: Bytes := Encode(Pair(a, b)), Encode(Pair(c, d));
    assert x[1..] == [a, NULL, b, NULL] && y[1..] == [c, NULL, d, NULL];
    assert x[1..][1..] == [NULL, b, NULL] && y[1..][1..] == [NULL, d, NULL];
    assert x[1..][1..][1..] == [b, NULL] && y[1..][1..][1..] == [d, NULL];
    if a == c {
      assert !LexLeq(x[1..][1..][1..], y[1..][1..][1..]);
      assert !LexLeq(x[1..][1..], y[1..][1..]);
    }
    assert !LexLeq(x[1..], y[1..]);
    assert x[1] != y[1] || x[3] != y[3];
  }

  lemma PairEncoding(a: int, b: int)
    requires 0 <= a < 24 && 0 <= b < 24
    ensures Encode(Pair(a, b)) == [0xA2, a, NULL, b, NULL]
    ensures WellFormed(Pair(a, b))
  {
    hide Encode, EncodeEntries;
    KeysWellFormed(Integer(a), Integer(b));
    var x, y := Entry(Integer(a), Null), Entry(Integer(b), Null);
    SmallEncodings(a);
    SmallEncodings(b);
    ShortMapEncodes(x, y);
    assert Pair(a, b) == Map([x, y]);
  }

  lemma SmallEncodings(n: int)
    requires 0 <= n < 24
    ensures Encode(Integer(n)) == [n] && Encode(Null) == [NULL]
  {
  }

  lemma ShortMapEncodes(x: Entry, y: Entry)
    ensures Encode(Map([x, y])) == [0xA2] + (EncodeEntry(x) + EncodeEntry(y))
  {
    hide EncodeEntry;
    var es := [x, y];
    assert es[1..] == [y] && [y][1..] == [];
    assert EncodeEntries([y]) == EncodeEntry(y) + EncodeEntries([]);
    assert EncodeEntries(es) == EncodeEntry(x) + EncodeEntries([y]);
  }

  lemma PairCanonical(a: int, b: int)
    requires 0 <= a < 24 && 0 <= b < 24 && a != b
    ensures Canonicalize(Pair(a, b)) == Ok(if a < b then Pair(a, b) else Pair(b, a))
  {
    hide Encode, SealMap, SortBy, CanonEntries;
    SmallEncodings(a);
    SmallEncodings(b);
    var es := [Entry(Integer(a), Null), Entry(Integer(b), Null)];
    assert Canonicalize(Integer(a)) == Ok(Integer(a)) && Canonicalize(Integer(b)) == Ok(Integer(b));
    TwoEntries(es[0], es[1]);
    TwoKeyedSort(Keyed([a], Integer(a), Null), Keyed([b], Integer(b), Null));
  }

  lemma TwoEntries(x: Entry, y: Entry)
    requires EntryOk(x) && EntryOk(y)
    ensures CanonEntries([x, y]) == Ok([CanonEntry(x).value, CanonEntry(y).value])
  {
    EntriesPointwise([x, y]);
    assert CanonEntries([x, y]).value == [CanonEntry(x).value, CanonEntry(y).value];
  }

  lemma TwoKeyedSort(x: Keyed, y: Keyed)
    requires x.enc != y.enc
    ensures SealMap([x, y]) ==
      Ok(Map(if LexLeq(x.enc, y.enc) then [Entry(x.key, x.val), Entry(y.key, y.val)]
             else [Entry(y.key, y.val), Entry(x.key, x.val)]))
  {
    var s := [x, y];
    assert s[..1] == [x] && s[..1][..0] == [];
    assert SortBy(EncodedKey, [x]) == InsertBy(EncodedKey, SortBy(EncodedKey, []), x) == [x];
    assert SortBy(EncodedKey, s) == InsertBy(EncodedKey, [x], y);
    assert [x][..0] == [];
    assert InsertBy(EncodedKey, [], y) == [y];
    var sorted := if LexLeq(x.enc, y.enc) then [x, y] else [y, x];
    assert SortBy(EncodedKey, s) == sorted;
    assert EncodedKey(sorted[0]) != EncodedKey(sorted[1]);
    assert Strip(sorted) == if LexLeq(x.enc, y.enc) then [Entry(x.key, x.val), Entry(y.key, y.val)]
             else [Entry(y.key, y.val), Entry(x.key, x.val)];
  }

  /** A two-entry map whose larger key, as it arrived, comes first. */
  lemma TwoKeysSort(k: Value, kc: Value, m: Value, mc: Value)
    requires Canonicalize(k) == Ok(kc) && Canonicalize(m) == Ok(mc)
    requires Encode(k) != Encode(m) && !LexLeq(Encode(k), Encode(m))
    ensures Canonicalize(Keys(k, m)) == Ok(Keys(mc, kc))
  {
    TwoEntries(Entry(k, Null), Entry(m, Null));
    TwoKeyedSort(Keyed(Encode(k), kc, Null), Keyed(Encode(m), mc, Null));
  }
}
