/** Deterministic CBOR: the recursive canonicaliser, and the strict decoder
    that re-encodes and compares. `CanonicalizeValue` keeps the loops of the source;
    it and the two entry points are proved against the functions above them. */
module Canonical {
  import opened Basics
  import opened Ordering
  import opened Cbor

  datatype Reason = FloatRefused | DuplicateKey | Malformed | NotCanonical

  /** A map entry on its way through the sort: the key's encoding as it arrived, then
      the canonical key and value. */
  datatype Keyed = Keyed(enc: Bytes, key: Value, val: Value)

  function EncodedKey(k: Keyed): Bytes { k.enc }

  function Strip(keyed: seq<Keyed>): (entries: seq<Entry>)
    ensures |entries| == |keyed| && forall i :: 0 <= i < |keyed| ==> entries[i] == Entry(keyed[i].key, keyed[i].val)
  {
    seq(|keyed|, i requires 0 <= i < |keyed| => Entry(keyed[i].key, keyed[i].val))
  }

  // --- the canonicaliser ------------------------------------------------------------------

  function Canonicalize(v: Value): Result<Value, Reason>
    decreases v
  {
    match v
    case Map(entries) =>
      (match CanonEntries(entries)
       case Err(e) => Err(e)
       case Ok(keyed) => SealMap(keyed))
    case Array(items) =>
      (match CanonItems(items)
       case Err(e) => Err(e)
       case Ok(canonical) => Ok(Array(canonical)))
    case Float(_) => Err(FloatRefused)
    case _ => Ok(v)
  }

  /** Sorts the entries by encoded key and refuses a repeated one. */
  function SealMap(keyed: seq<Keyed>): Result<Value, Reason> {
    var sorted := SortBy(EncodedKey, keyed);
    if HasAdjacentRepeat(EncodedKey, sorted) then Err(DuplicateKey) else Ok(Map(Strip(sorted)))
  }

  function CanonEntry(e: Entry): Result<Keyed, Reason>
    decreases e
  {
    match Canonicalize(e.key)
    case Err(r) => Err(r)
    case Ok(key) =>
      match Canonicalize(e.val)
      case Err(r) => Err(r)
      case Ok(val) => Ok(Keyed(Encode(e.key), key, val))
  }

  function CanonEntries(entries: seq<Entry>): Result<seq<Keyed>, Reason>
    decreases entries
  {
    if entries == [] then Ok([])
    else
      match CanonEntry(entries[0])
      case Err(r) => Err(r)
      case Ok(k) =>
        match CanonEntries(entries[1..])
        case Err(r) => Err(r)
        case Ok(ks) => Ok([k] + ks)
  }

  function CanonItems(items: seq<Value>): Result<seq<Value>, Reason>
    decreases items
  {
    if items == [] then Ok([])
    else
      match Canonicalize(items[0])
      case Err(r) => Err(r)
      case Ok(c) =>
        match CanonItems(items[1..])
        case Err(r) => Err(r)
        case Ok(cs) => Ok([c] + cs)
  }

  function Prepend<T>(done: seq<T>, rest: Result<seq<T>, Reason>): Result<seq<T>, Reason> {
    match rest
    case Err(r) => Err(r)
    case Ok(more) => Ok(done + more)
  }

  lemma PrependNothing<T>(rest: Result<seq<T>, Reason>)
    ensures Prepend([], rest) == rest
  {
    if rest.Ok? {
      assert [] + rest.value == rest.value;
    }
  }

  lemma PrependOne<T>(done: seq<T>, x: T, rest: Result<seq<T>, Reason>)
    ensures Prepend(done, Prepend([x], rest)) == Prepend(done + [x], rest)
  {
    if rest.Ok? {
      assert done + ([x] + rest.value) == done + [x] + rest.value;
    }
  }

  method CanonicalizeValue(v: Value) returns (r: Result<Value, Reason>)
    ensures r == Canonicalize(v)
    decreases v
  {
    match v {
      case Map(entries) =>
        var keyed: seq<Keyed> := [];
        var i := 0;
        PrependNothing(CanonEntries(entries));
        assert entries[0..] == entries;
        while i < |entries|
          invariant 0 <= i <= |entries|
          invariant CanonEntries(entries) == Prepend(keyed, CanonEntries(entries[i..]))
        {
          var e := entries[i];
          assert entries[i..][0] == e && entries[i..][1..] == entries[i + 1..];
          var k := CanonicalizeEntry(e);
          if k.Err? {
            return Err(k.error);
          }
          ghost var before := keyed;
          keyed := keyed + [k.value];
          PrependOne(before, k.value, CanonEntries(entries[i + 1..]));
          i := i + 1;
        }
        assert entries[i..] == [] && keyed + [] == keyed;
        return SealMap(keyed);
      case Array(items) =>
        var canonical: seq<Value> := [];
        var i := 0;
        PrependNothing(CanonItems(items));
        assert items[0..] == items;
        while i < |items|
          invariant 0 <= i <= |items|
          invariant CanonItems(items) == Prepend(canonical, CanonItems(items[i..]))
        {
          assert items[i..][0] == items[i] && items[i..][1..] == items[i + 1..];
          var c := CanonicalizeValue(items[i]);
          if c.Err? {
            return Err(c.error);
          }
          ghost var before := canonical;
          canonical := canonical + [c.value];
          PrependOne(before, c.value, CanonItems(items[i + 1..]));
          i := i + 1;
        }
        assert items[i..] == [] && canonical + [] == canonical;
        return Ok(Array(canonical));
      case Float(_) =>
        return Err(FloatRefused);
      case _ =>
        return Ok(v);
    }
  }

  method CanonicalizeEntry(e: Entry) returns (r: Result<Keyed, Reason>)
    ensures r == CanonEntry(e)
    decreases e
  {
    var encoded := Encode(e.key);
    var key := CanonicalizeValue(e.key);
    if key.Err? {
      return Err(key.error);
    }
    var val := CanonicalizeValue(e.val);
    if val.Err? {
      return Err(val.error);
    }
    return Ok(Keyed(encoded, key.value, val.value));
  }

  // --- the entry points -----------------------------------------------------------------------

  function ToCanonicalCbor(v: Value): Result<Bytes, Reason> {
    match Canonicalize(v)
    case Err(r) => Err(r)
    case Ok(c) => Ok(Encode(c))
  }

  /** Decodes and accepts only what re-encodes to the same bytes. */
  function FromCanonicalCbor(b: Bytes): Result<Value, Reason> {
    match Decode(b)
    case None => Err(Malformed)
    case Some((v, _)) =>
      match Canonicalize(v)
      case Err(r) => Err(r)
      case Ok(c) => if Encode(c) == b then Ok(v) else Err(NotCanonical)
  }

  method VerifyCanonical(b: Bytes) returns (r: Result<(), Reason>)
    ensures r == if FromCanonicalCbor(b).Ok? then Ok(()) else Err(FromCanonicalCbor(b).error)
  {
    var decoded := Decode(b);
    if decoded.None? {
      return Err(Malformed);
    }
    var c := CanonicalizeValue(decoded.value.0);
    if c.Err? {
      return Err(c.error);
    }
    var buf := Encode(c.value);
    return if buf == b then Ok(()) else Err(NotCanonical);
  }
}
