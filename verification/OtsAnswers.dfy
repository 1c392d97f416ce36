/** From a calendar's answer to the report: a tree a calendar sends for an outstanding
    request reaches the file, and the state reported is what the file then says. */
module OtsAnswers {
  import opened Basics
  import opened Ots
  import opened OtsLaws

  /** A calendar that sends a well-formed tree, whatever follows it, has answered. */
  lemma SentIsAnswered(exec: Exec, calendar: Calendar, request: Request, sent: Step, rest: seq<Token>)
    requires Sound(exec, request.1, sent) && calendar(request) == Some(Write(sent) + rest)
    ensures Answer(exec, calendar, request) == Some(Flat(sent))
    ensures Pairs(Flat(sent)) == Pairs(sent)
  {
    WriteReads(exec, request.1, sent, rest);
    FlatKeeps(exec, request.1, sent);
  }

  lemma {:induction false} GainedFromEach(exec: Exec, calendar: Calendar, requests: seq<Request>, request: Request)
    requires request in requests && Answer(exec, calendar, request).Some?
    ensures forall p :: p in Pairs(Answer(exec, calendar, request).value) ==> p in Gained(exec, calendar, requests)
    ensures Answered(exec, calendar, requests) > 0
    decreases |requests|
  {
    hide Answer, Pairs;
    var n := |requests| - 1;
    if requests[n] != request {
      assert request in requests[..n];
      GainedFromEach(exec, calendar, requests[..n], request);
    }
  }

  /** What a calendar sends for a request the proof holds is in the file the upgrade writes:
      every attestation of it. */
  lemma SentIsWritten(exec: Exec, calendar: Calendar, digest: Bytes, file: File, uri: Bytes, message: Bytes, sent: Step,
                      rest: seq<Token>)
    requires ReadFile(exec, file).Some? && file.start == digest
    requires (Pending(uri), message) in Pairs(ReadFile(exec, file).value)
    requires Sound(exec, message, sent) && calendar((uri, message)) == Some(Write(sent) + rest)
    ensures Upgraded(exec, calendar, digest, file).Ok? && Upgraded(exec, calendar, digest, file).value.file.Some?
    ensures var written := Upgraded(exec, calendar, digest, file).value.file.value;
      && ReadFile(exec, written).Some?
      && forall p :: p in Pairs(sent) ==> p in Pairs(ReadFile(exec, written).value)
  {
    hide Pairs, Requests, Merged, ReadFile, Answer, Write, Sound, Outcome, Gained, Answered;
    var before := ReadFile(exec, file).value;
    RequestsExact(before);
    AskedExact(Pairs(before), (uri, message));
    SentIsAnswered(exec, calendar, (uri, message), sent, rest);
    GainedFromEach(exec, calendar, Requests(before), (uri, message));
    UpgradeReadable(exec, calendar, file);
    UpgradeKeepsEverything(exec, calendar, digest, file);
    var after := Pairs(ReadFile(exec, Upgraded(exec, calendar, digest, file).value.file.value).value);
    forall p | p in Pairs(sent)
      ensures p in after
    {
      assert p in multiset(after);
    }
  }

  lemma UpgradeReadable(exec: Exec, calendar: Calendar, file: File)
    ensures Upgraded(exec, calendar, file.start, file).Ok? <==> ReadFile(exec, file).Some?
  {
    hide ReadFile, Merged, Outcome;
  }

  /** A file holds one tree and nothing after it: with anything behind, it is malformed; and
      a proof of another digest is refused as such. */
  lemma FileExact(exec: Exec, calendar: Calendar, digest: Bytes, start: Bytes, tree: Step, rest: seq<Token>)
    requires Sound(exec, start, tree)
    ensures var file := File(start, Write(tree) + rest);
      && ReadFile(exec, file) == (if rest == [] then Some(Flat(tree)) else None)
      && (rest != [] ==> Upgraded(exec, calendar, digest, file) == Err(MalformedProof))
      && (rest == [] && start != digest ==> Upgraded(exec, calendar, digest, file) == Err(ProofDigestMismatch))
      && (rest == [] && start == digest ==> Upgraded(exec, calendar, digest, file).Ok?)
  {
    hide Write, Flat, Merged, Outcome, Parse, Sound;
    WriteReads(exec, start, tree, rest);
  }

  // --- what is reported -------------------------------------------------------------------------------------

  /** The first attestation that confirms is at `i`, or there is none before the end. */
  ghost predicate FirstConfirms(pairs: seq<Pair>, i: nat) {
    && i <= |pairs| && (forall k :: 0 <= k < i ==> !Confirms(pairs[k]))
    && (i < |pairs| ==> Confirms(pairs[i]))
  }

  lemma {:induction false} FirstHeightAt(pairs: seq<Pair>, i: nat)
    requires FirstConfirms(pairs, i)
    ensures FirstHeight(pairs) == if i < |pairs| then Some(pairs[i].0.height) else None
    decreases |pairs|
  {
    if i > 0 {
      assert !Confirms(pairs[0]);
      forall k | 0 <= k < i - 1
        ensures !Confirms(pairs[1..][k])
      {
        assert pairs[1..][k] == pairs[k + 1];
      }
      FirstHeightAt(pairs[1..], i - 1);
    }
  }

  /** The calendars of the pending attestations, in order. */
  function Waits(pairs: seq<Pair>): seq<Bytes> {
    if pairs == [] then []
    else
      var n := |pairs| - 1;
      Waits(pairs[..n]) + match pairs[n].0
                          case Pending(uri) => [uri]
                          case _ => []
  }

  lemma {:induction false} WaitsExact(pairs: seq<Pair>)
    ensures Uris(Asked(pairs)) == Waits(pairs)
    decreases |pairs|
  {
    if pairs != [] {
      var n := |pairs| - 1;
      WaitsExact(pairs[..n]);
      AskedConcat(pairs[..n], [pairs[n]]);
      assert pairs == pairs[..n] + [pairs[n]];
      var last: seq<Pair> := [pairs[n]];
      assert |last[1..]| == 0;
    }
  }

  /** The state an upgrade reports is that of the proof it leaves: confirmed at the height
      of the first attestation that confirms, or waiting for the calendars of every pending
      one, in order. The proof it leaves is the one written, or the old one. */
  lemma UpgradeReports(exec: Exec, calendar: Calendar, digest: Bytes, file: File, i: nat)
    requires Upgraded(exec, calendar, digest, file).Ok?
    requires var left := Upgraded(exec, calendar, digest, file).value.file;
      var proof := ReadFile(exec, if left.Some? then left.value else file);
      proof.Some? && FirstConfirms(Pairs(proof.value), i)
    ensures var upgrade := Upgraded(exec, calendar, digest, file).value;
      var pairs := Pairs(ReadFile(exec, if upgrade.file.Some? then upgrade.file.value else file).value);
      upgrade.state == if i < |pairs| then Confirmed(pairs[i].0.height) else Waiting(Waits(pairs))
  {
    hide Sound, Graft, Pairs, Parse, Answer, Requests, Merged, Flat, Write, BitcoinHeight;
    var before := ReadFile(exec, file).value;
    ParsedIsSound(exec, file.body, file.start);
    RequestsAreHeld(before);
    MergedKeeps(exec, calendar, digest, before, Requests(before));
    var (merged, count) := Merged(exec, calendar, before, Requests(before));
    WriteReads(exec, digest, merged, []);
    assert Write(merged) + [] == Write(merged);
    FlatKeeps(exec, digest, merged);
    var pairs := Pairs(merged);
    HeightExact(exec, digest, merged);
    RequestsExact(merged);
    FirstHeightAt(pairs, i);
    WaitsExact(pairs);
  }

  // --- where an answer goes ------------------------------------------------------------------------------------

  function Target(request: Request): Pair {
    (Pending(request.0), request.1)
  }

  /** The additions stand right behind the first pair that is the target; every other pair
      keeps its place. */
  ghost predicate Placed(before: seq<Pair>, after: seq<Pair>, a: seq<Pair>, target: Pair, added: seq<Pair>, b: seq<Pair>)
  {
    target !in a && before == a + [target] + b && after == a + [target] + added + b
  }

  /** A fragment is grafted beside the first pending leaf that asked for it. */
  lemma {:induction false} GraftPlaces(exec: Exec, from: Bytes, s: Step, request: Request, addition: Step)
    returns (a: seq<Pair>, b: seq<Pair>)
    requires Sound(exec, from, s) && Graft(s, request, addition).Some?
    ensures Placed(Pairs(s), Pairs(Graft(s, request, addition).value), a, Target(request), Pairs(addition), b)
    decreases s
  {
    hide Sound, Pairs, PairsOf, GraftInto, Placed;
    LeafOrBranch(exec, from, s);
    if IsTarget(s, request) {
      a, b := [], [];
      ForkedInPlace(s, addition);
    } else {
      a, b := GraftIntoPlaces(exec, if s.kind.Operation? then s.output else from, s.next, request, addition);
      BranchPairs(s, GraftInto(s.next, request, addition).value);
    }
  }

  lemma BranchPairs(s: Step, next: seq<Step>)
    requires !s.kind.Attested?
    ensures Pairs(s) == PairsOf(s.next) && Pairs(s.(next := next)) == PairsOf(next)
  {
    hide PairsOf;
    assert [] + PairsOf(s.next) == PairsOf(s.next) && [] + PairsOf(next) == PairsOf(next);
  }

  lemma ForkedInPlace(leaf: Step, addition: Step)
    requires leaf.kind.Attested? && leaf.kind.attestation.Pending? && leaf.next == []
    ensures Placed(Pairs(leaf), Pairs(Forked(leaf, addition)), [], (leaf.kind.attestation, leaf.output),
                   Pairs(addition), [])
  {
    var original := Step(leaf.kind, leaf.output, []);
    assert leaf == original;
    assert PairsOf([addition]) == Pairs(addition) + PairsOf([]);
    assert [original, addition][1..] == [addition];
    assert Pairs(Forked(leaf, addition)) == Pairs(original) + Pairs(addition);
    assert Pairs(leaf) == [(leaf.kind.attestation, leaf.output)];
  }

  lemma {:induction false} GraftIntoPlaces(exec: Exec, from: Bytes, steps: seq<Step>, request: Request, addition: Step)
    returns (a: seq<Pair>, b: seq<Pair>)
    requires AllSound(exec, from, steps) && GraftInto(steps, request, addition).Some?
    ensures Placed(PairsOf(steps), PairsOf(GraftInto(steps, request, addition).value), a, Target(request),
                   Pairs(addition), b)
    decreases steps
  {
    hide Graft, Sound, Pairs, PairsOf, Placed;
    var out := GraftInto(steps, request, addition).value;
    PairsOfStep(steps);
    PairsOfStep(out);
    if Graft(steps[0], request, addition).Some? {
      var a', b' := GraftPlaces(exec, from, steps[0], request, addition);
      a, b := a', b' + PairsOf(steps[1..]);
      assert out[1..] == steps[1..];
      PlacedBefore(Pairs(steps[0]), Pairs(out[0]), a', Target(request), Pairs(addition), b', PairsOf(steps[1..]));
    } else {
      var a', b' := GraftIntoPlaces(exec, from, steps[1..], request, addition);
      a, b := Pairs(steps[0]) + a', b';
      GraftFinds(steps[0], request, addition);
      assert out[1..] == GraftInto(steps[1..], request, addition).value;
      PlacedBehind(PairsOf(steps[1..]), PairsOf(out[1..]), a', Target(request), Pairs(addition), b', Pairs(steps[0]));
    }
  }

  lemma PlacedBefore(before: seq<Pair>, after: seq<Pair>, a: seq<Pair>, target: Pair, added: seq<Pair>, b: seq<Pair>,
                     rest: seq<Pair>)
    requires Placed(before, after, a, target, added, b)
    ensures Placed(before + rest, after + rest, a, target, added, b + rest)
  {
    assert a + [target] + b + rest == a + [target] + (b + rest);
    assert a + [target] + added + b + rest == a + [target] + added + (b + rest);
  }

  lemma PlacedBehind(before: seq<Pair>, after: seq<Pair>, a: seq<Pair>, target: Pair, added: seq<Pair>, b: seq<Pair>,
                     first: seq<Pair>)
    requires Placed(before, after, a, target, added, b) && target !in first
    ensures Placed(first + before, first + after, first + a, target, added, b)
  {
    assert first + (a + [target] + b) == first + a + [target] + b;
    assert first + (a + [target] + added + b) == first + a + [target] + added + b;
  }
}
