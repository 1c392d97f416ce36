/** The lexicographic order Rust gives byte arrays, and the sorts built on it.
    Used for Merkle leaves and for CBOR map keys. */
module Ordering {
  import opened Basics

  predicate LexLeq(a: Bytes, b: Bytes) {
    a == [] || (b != [] && (a[0] < b[0] || (a[0] == b[0] && LexLeq(a[1..], b[1..]))))
  }

  lemma {:induction false} LexTotal(a: Bytes, b: Bytes)
    ensures LexLeq(a, b) || LexLeq(b, a)
  {
    if a != [] && b != [] {
      LexTotal(a[1..], b[1..]);
    }
  }

  lemma {:induction false} LexAntisymmetric(a: Bytes, b: Bytes)
    requires LexLeq(a, b) && LexLeq(b, a)
    ensures a == b
  {
    if a != [] {
      LexAntisymmetric(a[1..], b[1..]);
      assert a == [a[0]] + a[1..] && b == [b[0]] + b[1..];
    }
  }

  lemma {:induction false} LexTransitive(a: Bytes, b: Bytes, c: Bytes)
    requires LexLeq(a, b) && LexLeq(b, c)
    ensures LexLeq(a, c)
  {
    if a != [] && a[0] == b[0] == c[0] {
      LexTransitive(a[1..], b[1..], c[1..]);
    }
  }

  /** Inserts after every element whose key is not larger, so the sort is stable. */
  function InsertBy<T>(key: T -> Bytes, s: seq<T>, x: T): seq<T> {
    if s == [] then [x]
    else if LexLeq(key(s[|s| - 1]), key(x)) then s + [x]
    else InsertBy(key, s[..|s| - 1], x) + [s[|s| - 1]]
  }

  function SortBy<T>(key: T -> Bytes, s: seq<T>): seq<T> {
    if s == [] then [] else InsertBy(key, SortBy(key, s[..|s| - 1]), s[|s| - 1])
  }

  ghost predicate SortedBy<T>(key: T -> Bytes, s: seq<T>) {
    forall i, j :: 0 <= i < j < |s| ==> LexLeq(key(s[i]), key(s[j]))
  }

  lemma InsertedFrom<T>(s: seq<T>, x: T, r: seq<T>, i: nat)
    requires multiset(r) == multiset(s) + multiset{x} && i < |r|
    ensures r[i] == x || r[i] in s
  {
    assert r[i] in multiset(r);
  }

  lemma {:induction false} InsertByCorrect<T>(key: T -> Bytes, s: seq<T>, x: T)
    requires SortedBy(key, s)
    ensures SortedBy(key, InsertBy(key, s, x))
    ensures multiset(InsertBy(key, s, x)) == multiset(s) + multiset{x}
  {
    hide LexLeq;
    if s != [] {
      var n := |s| - 1;
      var last := s[n];
      assert s == s[..n] + [last];
      if LexLeq(key(last), key(x)) {
        forall i | 0 <= i < n
          ensures LexLeq(key(s[i]), key(x))
        {
          LexTransitive(key(s[i]), key(last), key(x));
        }
      } else {
        LexTotal(key(last), key(x));
        InsertByCorrect(key, s[..n], x);
        var r := InsertBy(key, s[..n], x);
        forall i | 0 <= i < |r|
          ensures LexLeq(key(r[i]), key(last))
        {
          InsertedFrom(s[..n], x, r, i);
        }
      }
    }
  }

  lemma {:induction false} SortByCorrect<T>(key: T -> Bytes, s: seq<T>)
    ensures SortedBy(key, SortBy(key, s))
    ensures multiset(SortBy(key, s)) == multiset(s)
    ensures |SortBy(key, s)| == |s|
  {
    if s != [] {
      var n := |s| - 1;
      SortByCorrect(key, s[..n]);
      InsertByCorrect(key, SortBy(key, s[..n]), s[n]);
      assert s == s[..n] + [s[n]];
    }
    assert |multiset(SortBy(key, s))| == |SortBy(key, s)|;
  }

  /** Equal keys name equal elements. */
  ghost predicate KeyedApart<T>(key: T -> Bytes, s: seq<T>) {
    forall i, j :: 0 <= i < |s| && 0 <= j < |s| && key(s[i]) == key(s[j]) ==> s[i] == s[j]
  }

  lemma DropLastMultiset<T>(s: seq<T>)
    requires s != []
    ensures multiset(s[..|s| - 1]) == multiset(s) - multiset{s[|s| - 1]}
  {
    assert s == s[..|s| - 1] + [s[|s| - 1]];
  }

  lemma MemberAcross<T>(s: seq<T>, t: seq<T>, x: T)
    requires multiset(s) == multiset(t) && x in s
    ensures x in t
  {
    assert x in multiset(s);
  }

  lemma PrefixKeepsOrder<T>(key: T -> Bytes, s: seq<T>)
    requires SortedBy(key, s) && s != []
    ensures SortedBy(key, s[..|s| - 1])
    ensures KeyedApart(key, s) ==> KeyedApart(key, s[..|s| - 1])
  {
  }

  /** A sorted arrangement of a multiset is unique when keys tell elements apart. */
  lemma {:induction false} SortedUnique<T>(key: T -> Bytes, s: seq<T>, t: seq<T>)
    requires SortedBy(key, s) && SortedBy(key, t)
    requires multiset(s) == multiset(t)
    requires KeyedApart(key, s)
    ensures s == t
    decreases |s|
  {
    hide SortedBy, KeyedApart;
    EqualBagsSameLength(s, t);
    if s != [] {
      LastsAgree(key, s, t);
      var s', t' := s[..|s| - 1], t[..|t| - 1];
      DropLastMultiset(s);
      DropLastMultiset(t);
      PrefixKeepsOrder(key, s);
      PrefixKeepsOrder(key, t);
      SortedUnique(key, s', t');
      assert s == s' + [s[|s| - 1]];
      assert t == t' + [t[|t| - 1]];
    }
  }

  lemma LastsAgree<T>(key: T -> Bytes, s: seq<T>, t: seq<T>)
    requires SortedBy(key, s) && SortedBy(key, t)
    requires multiset(s) == multiset(t) && |s| == |t| > 0
    requires KeyedApart(key, s)
    ensures s[|s| - 1] == t[|t| - 1]
  {
    var a, b := s[|s| - 1], t[|t| - 1];
    MemberAcross(s, t, a);
    MemberAcross(t, s, b);
    LastIsGreatest(key, t, a);
    LastIsGreatest(key, s, b);
    LexAntisymmetric(key(a), key(b));
    var j :| 0 <= j < |s| && s[j] == b;
  }

  lemma LastIsGreatest<T>(key: T -> Bytes, s: seq<T>, x: T)
    requires SortedBy(key, s) && x in s
    ensures LexLeq(key(x), key(s[|s| - 1]))
  {
    LexTotal(key(x), key(x));
  }

  /** `windows(2).any(|w| key(w[0]) == key(w[1]))` on a sorted sequence finds
      every repeated key, adjacent or not. */
  predicate HasAdjacentRepeat<T>(key: T -> Bytes, s: seq<T>) {
    exists i :: 0 <= i < |s| - 1 && key(s[i]) == key(s[i + 1])
  }

  ghost predicate KeysDistinct<T>(key: T -> Bytes, s: seq<T>) {
    forall i, j :: 0 <= i < j < |s| ==> key(s[i]) != key(s[j])
  }

  lemma AdjacentRepeatExact<T>(key: T -> Bytes, s: seq<T>)
    requires SortedBy(key, s)
    ensures !HasAdjacentRepeat(key, s) <==> KeysDistinct(key, s)
  {
    if !HasAdjacentRepeat(key, s) {
      forall i, j | 0 <= i < j < |s|
        ensures key(s[i]) != key(s[j])
      {
        if key(s[i]) == key(s[j]) {
          assert LexLeq(key(s[i]), key(s[i + 1]));
          LexTotal(key(s[j]), key(s[j]));
          assert LexLeq(key(s[i + 1]), key(s[j]));
          LexAntisymmetric(key(s[i]), key(s[i + 1]));
          assert false;
        }
      }
    }
  }

  /** Distinctness of keys is a property of the multiset. */
  lemma KeysDistinctPermuted<T>(key: T -> Bytes, s: seq<T>, t: seq<T>)
    requires multiset(s) == multiset(t) && KeysDistinct(key, s)
    ensures KeysDistinct(key, t)
  {
    forall i, j | 0 <= i < j < |t|
      ensures key(t[i]) != key(t[j])
    {
      MemberAcross(t, s, t[i]);
      MemberAcross(t, s, t[j]);
      var k :| 0 <= k < |s| && s[k] == t[i];
      var m :| 0 <= m < |s| && s[m] == t[j];
      if k == m {
        TwiceIn(t, i, j);
        OnceIn(key, s, k);
        assert false;
      }
    }
  }

  lemma TwiceIn<T>(t: seq<T>, i: nat, j: nat)
    requires i < j < |t| && t[i] == t[j]
    ensures multiset(t)[t[i]] >= 2
  {
    assert t == t[..j] + t[j..];
    assert t[i] in t[..j] && t[j] in t[j..];
  }

  lemma OnceIn<T>(key: T -> Bytes, s: seq<T>, k: nat)
    requires KeysDistinct(key, s) && k < |s|
    ensures multiset(s)[s[k]] == 1
  {
    assert s == s[..k] + [s[k]] + s[k + 1..];
    assert s[k] !in s[..k] && s[k] !in s[k + 1..];
  }
}
