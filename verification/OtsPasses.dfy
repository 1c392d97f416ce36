/** Upgrading again and again. A graft keeps the pending leaf, so a calendar that repeats
    its answer is asked again and its fragment is grafted again: every pass rewrites the
    file, with the same attestations once more. */
module OtsPasses {
  import opened Basics
  import opened Ots
  import opened OtsLaws

  // --- bags of what each element brings ---------------------------------------------------------------

  function FlatMap<T, U>(g: T -> seq<U>, s: seq<T>): seq<U> {
    if s == [] then [] else FlatMap(g, s[..|s| - 1]) + g(s[|s| - 1])
  }

  lemma {:induction false} FlatMapJoin<T, U>(g: T -> seq<U>, a: seq<T>, b: seq<T>)
    ensures FlatMap(g, a + b) == FlatMap(g, a) + FlatMap(g, b)
    decreases |b|
  {
    if b == [] {
      assert a + b == a;
    } else {
      var n := |b| - 1;
      FlatMapJoin(g, a, b[..n]);
      assert (a + b)[..|a + b| - 1] == a + b[..n];
    }
  }

  lemma FlatMapMiddle<T, U>(g: T -> seq<U>, a: seq<T>, x: T, b: seq<T>)
    ensures FlatMap(g, a + [x] + b) == FlatMap(g, a) + g(x) + FlatMap(g, b)
  {
    FlatMapJoin(g, a + [x], b);
    assert (a + [x])[..|a|] == a;
  }

  lemma FlatMapWithout<T, U>(g: T -> seq<U>, s: seq<T>, j: nat)
    requires j < |s|
    ensures multiset(FlatMap(g, s)) == multiset(FlatMap(g, Without(s, j))) + multiset(g(s[j]))
  {
    hide FlatMap;
    assert s == s[..j] + [s[j]] + s[j + 1..];
    FlatMapMiddle(g, s[..j], s[j], s[j + 1..]);
    FlatMapJoin(g, s[..j], s[j + 1..]);
  }

  /** More elements bring more, and the same elements in any order the same. */
  lemma {:induction false} FlatMapGrows<T, U>(g: T -> seq<U>, a: seq<T>, b: seq<T>)
    requires multiset(a) <= multiset(b)
    ensures multiset(FlatMap(g, a)) <= multiset(FlatMap(g, b))
    ensures multiset(a) == multiset(b) ==> multiset(FlatMap(g, a)) == multiset(FlatMap(g, b))
    decreases |a|
  {
    if a != [] {
      var n := |a| - 1;
      assert a[n] in multiset(b);
      var j :| 0 <= j < |b| && b[j] == a[n];
      DropOne(a, b, j);
      FlatMapGrows(g, a[..n], Without(b, j));
      FlatMapWithout(g, b, j);
    } else if multiset(a) == multiset(b) {
      EqualBagsSameLength(a, b);
    }
  }

  lemma DropOne<T>(a: seq<T>, b: seq<T>, j: nat)
    requires a != [] && j < |b| && b[j] == a[|a| - 1] && multiset(a) <= multiset(b)
    ensures multiset(a[..|a| - 1]) <= multiset(Without(b, j))
    ensures multiset(a) == multiset(b) ==> multiset(a[..|a| - 1]) == multiset(Without(b, j))
  {
    WithoutMultiset(a, |a| - 1);
    WithoutMultiset(b, j);
    assert Without(a, |a| - 1) == a[..|a| - 1];
  }

  function AskOne(p: Pair): seq<Request> {
    if p.0.Pending? then [(p.0.uri, p.1)] else []
  }

  function AnswerOne(exec: Exec, calendar: Calendar): Request -> seq<Pair> {
    (r: Request) => match Answer(exec, calendar, r) case None => [] case Some(fragment) => Pairs(fragment)
  }

  lemma {:induction false} AskedIsFlat(pairs: seq<Pair>)
    ensures Asked(pairs) == FlatMap(AskOne, pairs)
  {
    if pairs != [] {
      AskedIsFlat(pairs[1..]);
      assert pairs == [pairs[0]] + pairs[1..];
      FlatMapJoin(AskOne, [pairs[0]], pairs[1..]);
      assert FlatMap(AskOne, [pairs[0]]) == AskOne(pairs[0]);
    }
  }

  lemma {:induction false} GainedIsFlat(exec: Exec, calendar: Calendar, requests: seq<Request>)
    ensures Gained(exec, calendar, requests) == FlatMap(AnswerOne(exec, calendar), requests)
  {
    hide Answer, Pairs;
    if requests != [] {
      GainedIsFlat(exec, calendar, requests[..|requests| - 1]);
    }
  }

  // --- passes ------------------------------------------------------------------------------------------

  /** The file after `n` passes: the one written, or the one there was. */
  function Passes(exec: Exec, calendar: Calendar, file: File, n: nat): File {
    if n == 0 then file
    else
      var before := Passes(exec, calendar, file, n - 1);
      match Upgraded(exec, calendar, file.start, before)
      case Ok(Upgrade(_, Some(written))) => written
      case _ => before
  }

  /** What one pass gains for a proof with these attestations. */
  function PassGain(exec: Exec, calendar: Calendar, pairs: seq<Pair>): seq<Pair> {
    Gained(exec, calendar, Asked(pairs))
  }

  lemma PassGrows(exec: Exec, calendar: Calendar, a: seq<Pair>, b: seq<Pair>)
    requires multiset(a) <= multiset(b)
    ensures multiset(PassGain(exec, calendar, a)) <= multiset(PassGain(exec, calendar, b))
    ensures multiset(a) == multiset(b) ==>
      multiset(PassGain(exec, calendar, a)) == multiset(PassGain(exec, calendar, b))
  {
    AskedIsFlat(a);
    AskedIsFlat(b);
    GainedIsFlat(exec, calendar, Asked(a));
    GainedIsFlat(exec, calendar, Asked(b));
    FlatMapGrows(AskOne, a, b);
    FlatMapGrows(AnswerOne(exec, calendar), Asked(a), Asked(b));
  }

  lemma PassJoin(exec: Exec, calendar: Calendar, a: seq<Pair>, b: seq<Pair>)
    ensures PassGain(exec, calendar, a + b) == PassGain(exec, calendar, a) + PassGain(exec, calendar, b)
  {
    AskedConcat(a, b);
    GainedIsFlat(exec, calendar, Asked(a));
    GainedIsFlat(exec, calendar, Asked(b));
    GainedIsFlat(exec, calendar, Asked(a + b));
    FlatMapJoin(AnswerOne(exec, calendar), Asked(a), Asked(b));
  }

  /** The attestations after `n` passes, as a list up to order. */
  function PairsAfter(exec: Exec, calendar: Calendar, pairs: seq<Pair>, n: nat): seq<Pair> {
    if n == 0 then pairs
    else
      var before := PairsAfter(exec, calendar, pairs, n - 1);
      before + PassGain(exec, calendar, before)
  }

  /** `n` copies of a list. */
  function Copies<T>(s: seq<T>, n: nat): seq<T> {
    if n == 0 then [] else Copies(s, n - 1) + s
  }

  /** Each pass reads what the one before wrote, and adds what the calendars answer to
      everything the proof then asks; it rewrites the file whenever anything answers. */
  lemma {:induction false} PassesAdd(exec: Exec, calendar: Calendar, file: File, n: nat)
    requires ReadFile(exec, file).Some?
    ensures Passes(exec, calendar, file, n).start == file.start
    ensures ReadFile(exec, Passes(exec, calendar, file, n)).Some?
    ensures multiset(Pairs(ReadFile(exec, Passes(exec, calendar, file, n)).value))
         == multiset(PairsAfter(exec, calendar, Pairs(ReadFile(exec, file).value), n))
  {
    hide ReadFile, Merged, Outcome, Pairs, Requests, Gained, Asked, Answered;
    if n > 0 {
      PassesAdd(exec, calendar, file, n - 1);
      OnePass(exec, calendar, Passes(exec, calendar, file, n - 1));
      PassGrows(exec, calendar, PairsAfter(exec, calendar, Pairs(ReadFile(exec, file).value), n - 1),
                Pairs(ReadFile(exec, Passes(exec, calendar, file, n - 1)).value));
    }
  }

  lemma OnePass(exec: Exec, calendar: Calendar, file: File)
    requires ReadFile(exec, file).Some?
    ensures var after := Passes(exec, calendar, file, 1);
      var pairs := Pairs(ReadFile(exec, file).value);
      && after.start == file.start && ReadFile(exec, after).Some?
      && multiset(Pairs(ReadFile(exec, after).value)) == multiset(pairs) + multiset(PassGain(exec, calendar, pairs))
      && Upgraded(exec, calendar, file.start, file).Ok?
      && (Upgraded(exec, calendar, file.start, file).value.file.Some? <==> PassGain(exec, calendar, pairs) != [])
  {
    hide ReadFile, Merged, Outcome, Pairs, Requests, Gained, Asked, Answered;
    UpgradeReads(exec, calendar, file);
    UpgradeKeepsEverything(exec, calendar, file.start, file);
    RequestsExact(ReadFile(exec, file).value);
    GainWhenAnswered(exec, calendar, Requests(ReadFile(exec, file).value));
  }

  lemma UpgradeReads(exec: Exec, calendar: Calendar, file: File)
    requires ReadFile(exec, file).Some?
    ensures Upgraded(exec, calendar, file.start, file).Ok?
    ensures Passes(exec, calendar, file, 0) == file
  {
    hide ReadFile, Merged, Outcome;
  }

  /** An answer always brings something. */
  lemma {:induction false} GainWhenAnswered(exec: Exec, calendar: Calendar, requests: seq<Request>)
    ensures Answered(exec, calendar, requests) == 0 <==> Gained(exec, calendar, requests) == []
  {
    hide Answer, Pairs, Sound;
    if requests != [] {
      var n := |requests| - 1;
      GainWhenAnswered(exec, calendar, requests[..n]);
      if Answer(exec, calendar, requests[n]).Some? {
        AnswerIsSound(exec, calendar, requests[n]);
        SomethingAttested(exec, requests[n].1, Answer(exec, calendar, requests[n]).value);
      }
    }
  }

  lemma {:induction false} SomethingAttested(exec: Exec, from: Bytes, s: Step)
    requires Sound(exec, from, s)
    ensures Pairs(s) != []
    decreases s
  {
    if !s.kind.Attested? {
      SomethingAttested(exec, if s.kind.Operation? then s.output else from, s.next[0]);
    }
  }

  /** After any passes the proof holds at least as many copies of the first gain, and
      exactly that many whenever what the gain itself asks brings nothing. */
  lemma {:induction false} PairsAccumulate(exec: Exec, calendar: Calendar, pairs: seq<Pair>, n: nat)
    ensures var gain := PassGain(exec, calendar, pairs);
      var after := multiset(PairsAfter(exec, calendar, pairs, n));
      && multiset(pairs) + multiset(Copies(gain, n)) <= after
      && (PassGain(exec, calendar, gain) == [] ==> after == multiset(pairs) + multiset(Copies(gain, n)))
  {
    hide PassGain;
    if n > 0 {
      var gain := PassGain(exec, calendar, pairs);
      var before := PairsAfter(exec, calendar, pairs, n - 1);
      PairsAccumulate(exec, calendar, pairs, n - 1);
      PassGrows(exec, calendar, pairs, before);
      if PassGain(exec, calendar, gain) == [] {
        var same := pairs + Copies(gain, n - 1);
        assert multiset(same) == multiset(before);
        PassGrows(exec, calendar, same, before);
        PassJoin(exec, calendar, pairs, Copies(gain, n - 1));
        CopiesGainNothing(exec, calendar, gain, n - 1);
        assert gain + [] == gain;
      }
    }
  }

  lemma {:induction false} CopiesGainNothing(exec: Exec, calendar: Calendar, gain: seq<Pair>, n: nat)
    requires PassGain(exec, calendar, gain) == []
    ensures PassGain(exec, calendar, Copies(gain, n)) == []
  {
    if n > 0 {
      CopiesGainNothing(exec, calendar, gain, n - 1);
      PassJoin(exec, calendar, Copies(gain, n - 1), gain);
    }
  }

  ghost predicate ExactlyCopies(exec: Exec, calendar: Calendar, pairs: seq<Pair>, n: nat) {
    multiset(PairsAfter(exec, calendar, pairs, n))
      == multiset(pairs) + multiset(Copies(PassGain(exec, calendar, pairs), n))
  }

  /** With one calendar, after every number of passes the proof holds its attestations and
      that many copies of the first gain, exactly when nothing more is gained by asking
      what the first gain asks. */
  lemma CopiesExact(exec: Exec, calendar: Calendar, pairs: seq<Pair>)
    ensures (forall n: nat :: ExactlyCopies(exec, calendar, pairs, n))
       <==> PassGain(exec, calendar, PassGain(exec, calendar, pairs)) == []
  {
    hide PassGain;
    var gain := PassGain(exec, calendar, pairs);
    if PassGain(exec, calendar, gain) == [] {
      forall n: nat
        ensures ExactlyCopies(exec, calendar, pairs, n)
      {
        PairsAccumulate(exec, calendar, pairs, n);
      }
    } else if forall n: nat :: ExactlyCopies(exec, calendar, pairs, n) {
      assert ExactlyCopies(exec, calendar, pairs, 2);
      TwoPasses(exec, calendar, pairs);
      var more := PassGain(exec, calendar, gain);
      assert more[0] in multiset(more);
      NothingMore(multiset(pairs) + multiset(Copies(gain, 2)), multiset(more));
      assert false;
    }
  }

  lemma NothingMore<T>(a: multiset<T>, b: multiset<T>)
    requires a == a + b
    ensures b == multiset{}
  {
    forall x
      ensures b[x] == 0
    {
      assert (a + b)[x] == a[x] + b[x];
    }
  }

  lemma TwoPasses(exec: Exec, calendar: Calendar, pairs: seq<Pair>)
    ensures var gain := PassGain(exec, calendar, pairs);
      multiset(PairsAfter(exec, calendar, pairs, 2))
        == multiset(pairs) + multiset(Copies(gain, 2)) + multiset(PassGain(exec, calendar, gain))
  {
    hide PassGain;
    var gain := PassGain(exec, calendar, pairs);
    PassJoin(exec, calendar, pairs, gain);
    assert PairsAfter(exec, calendar, pairs, 1) == pairs + gain;
    assert PairsAfter(exec, calendar, pairs, 2) == pairs + gain + (gain + PassGain(exec, calendar, gain));
    assert Copies(gain, 1) == gain && Copies(gain, 2) == gain + gain;
  }

  /** The file itself. After `n` passes with a calendar that keeps its answers, the proof
      read back holds at least its own attestations and `n` copies of what the first
      pass gained; and each of those passes wrote a file, if the first one did. */
  lemma RepeatedPasses(exec: Exec, calendar: Calendar, file: File, n: nat)
    requires ReadFile(exec, file).Some?
    ensures var pairs := Pairs(ReadFile(exec, file).value);
      var now := Passes(exec, calendar, file, n);
      && ReadFile(exec, now).Some?
      && (multiset(pairs) + multiset(Copies(PassGain(exec, calendar, pairs), n))
          <= multiset(Pairs(ReadFile(exec, now).value)))
      && Upgraded(exec, calendar, file.start, now).Ok?
      && (PassGain(exec, calendar, pairs) != [] ==> Upgraded(exec, calendar, file.start, now).value.file.Some?)
  {
    hide ReadFile, Upgraded, Pairs, PassGain, PairsAfter;
    var pairs := Pairs(ReadFile(exec, file).value);
    PassesAdd(exec, calendar, file, n);
    PairsAccumulate(exec, calendar, pairs, n);
    var now := Passes(exec, calendar, file, n);
    OnePass(exec, calendar, now);
    PassGrows(exec, calendar, pairs, Pairs(ReadFile(exec, now).value));
    var later := PassGain(exec, calendar, Pairs(ReadFile(exec, now).value));
    assert |multiset(PassGain(exec, calendar, pairs))| <= |multiset(later)| by {
      SmallerBag(multiset(PassGain(exec, calendar, pairs)), multiset(later));
    }
    assert |multiset(later)| == |later|;
  }

  lemma SmallerBag<T>(a: multiset<T>, b: multiset<T>)
    requires a <= b
    ensures |a| <= |b|
  {
    assert b == a + (b - a);
  }
}
