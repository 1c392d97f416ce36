/** What the upgrade pass keeps: every attestation, the digest each one is for, the
    shape that lets the tree be written down, and a confirmation once there is one. */
module OtsLaws {
  import opened Basics
  import opened Ots

  // --- grafting -----------------------------------------------------------------------------

  predicate RequestIn(request: Request, pairs: seq<Pair>) {
    (Pending(request.0), request.1) in pairs
  }

  lemma {:induction false} GraftFinds(s: Step, request: Request, addition: Step)
    ensures Graft(s, request, addition).Some? <==> RequestIn(request, Pairs(s))
    decreases s
  {
    GraftIntoFinds(s.next, request, addition);
  }

  lemma {:induction false} GraftIntoFinds(steps: seq<Step>, request: Request, addition: Step)
    ensures GraftInto(steps, request, addition).Some? <==> RequestIn(request, PairsOf(steps))
    decreases steps
  {
    if steps != [] {
      GraftFinds(steps[0], request, addition);
      GraftIntoFinds(steps[1..], request, addition);
    }
  }

  ghost predicate AllSound(exec: Exec, from: Bytes, steps: seq<Step>) {
    forall i :: 0 <= i < |steps| ==> Sound(exec, from, steps[i])
  }

  /** The grafted tree is well formed from the same digest, and holds the old
      attestations and the fragment's, no more and no fewer. */
  lemma {:induction false} GraftKeeps(exec: Exec, from: Bytes, s: Step, request: Request, addition: Step)
    requires Sound(exec, from, s) && Sound(exec, request.1, addition)
    requires Graft(s, request, addition).Some?
    ensures Sound(exec, from, Graft(s, request, addition).value)
    ensures multiset(Pairs(Graft(s, request, addition).value)) == multiset(Pairs(s)) + multiset(Pairs(addition))
    decreases s
  {
    hide Sound, Pairs, PairsOf, GraftInto;
    LeafOrBranch(exec, from, s);
    if IsTarget(s, request) {
      ForkedPairs(s, addition);
      ForkedSound(exec, from, s, addition);
    } else {
      var below := if s.kind.Operation? then s.output else from;
      GraftIntoKeeps(exec, below, s.next, request, addition);
      Rebranched(exec, from, s, GraftInto(s.next, request, addition).value);
    }
  }

  lemma Rebranched(exec: Exec, from: Bytes, s: Step, next: seq<Step>)
    requires Sound(exec, from, s) && !s.kind.Attested? && |next| == |s.next|
    requires AllSound(exec, if s.kind.Operation? then s.output else from, next)
    ensures Sound(exec, from, s.(next := next))
    ensures Pairs(s.(next := next)) == PairsOf(next) && Pairs(s) == PairsOf(s.next)
  {
    hide PairsOf;
  }

  lemma LeafOrBranch(exec: Exec, from: Bytes, s: Step)
    requires Sound(exec, from, s)
    ensures s.kind.Attested? ==> s.next == [] && s.output == from
    ensures !s.kind.Attested? ==> AllSound(exec, if s.kind.Operation? then s.output else from, s.next)
    ensures forall r, a :: GraftInto([], r, a).None?
  {
  }

  lemma ForkedSound(exec: Exec, from: Bytes, leaf: Step, addition: Step)
    requires leaf.kind.Attested? && leaf.output == from && Sound(exec, from, addition)
    ensures Sound(exec, from, Forked(leaf, addition))
  {
  }

  lemma ForkedPairs(leaf: Step, addition: Step)
    requires leaf.kind.Attested? && leaf.next == []
    ensures multiset(Pairs(Forked(leaf, addition))) == multiset(Pairs(leaf)) + multiset(Pairs(addition))
  {
    var original := Step(leaf.kind, leaf.output, []);
    assert leaf == original;
    assert PairsOf([addition]) == Pairs(addition) + PairsOf([]);
    assert [original, addition][1..] == [addition];
    assert Pairs(Forked(leaf, addition)) == Pairs(original) + Pairs(addition);
  }

  lemma {:induction false} GraftIntoKeeps(exec: Exec, from: Bytes, steps: seq<Step>, request: Request, addition: Step)
    requires AllSound(exec, from, steps) && Sound(exec, request.1, addition)
    requires GraftInto(steps, request, addition).Some?
    ensures |GraftInto(steps, request, addition).value| == |steps|
    ensures AllSound(exec, from, GraftInto(steps, request, addition).value)
    ensures multiset(PairsOf(GraftInto(steps, request, addition).value))
         == multiset(PairsOf(steps)) + multiset(Pairs(addition))
    decreases steps
  {
    hide Graft, Sound, Pairs;
    var out := GraftInto(steps, request, addition).value;
    if Graft(steps[0], request, addition).Some? {
      GraftKeeps(exec, from, steps[0], request, addition);
      assert out[1..] == steps[1..];
    } else {
      GraftIntoKeeps(exec, from, steps[1..], request, addition);
      assert out[1..] == GraftInto(steps[1..], request, addition).value;
    }
  }

  // --- requests and heights are functions of the pairs --------------------------------------------

  function Asked(pairs: seq<Pair>): seq<Request> {
    if pairs == [] then []
    else if pairs[0].0.Pending? then [(pairs[0].0.uri, pairs[0].1)] + Asked(pairs[1..])
    else Asked(pairs[1..])
  }

  lemma {:induction false} AskedConcat(a: seq<Pair>, b: seq<Pair>)
    ensures Asked(a + b) == Asked(a) + Asked(b)
  {
    if a == [] {
      assert a + b == b;
    } else {
      AskedConcat(a[1..], b);
      assert (a + b)[1..] == a[1..] + b;
    }
  }

  lemma {:induction false} RequestsExact(s: Step)
    ensures Requests(s) == Asked(Pairs(s))
    decreases s
  {
    RequestsOfExact(s.next);
    AskedConcat(Own(s), PairsOf(s.next));
  }

  lemma {:induction false} RequestsOfExact(steps: seq<Step>)
    ensures RequestsOf(steps) == Asked(PairsOf(steps))
    decreases steps
  {
    if steps != [] {
      RequestsExact(steps[0]);
      RequestsOfExact(steps[1..]);
      AskedConcat(Pairs(steps[0]), PairsOf(steps[1..]));
    }
  }

  lemma {:induction false} AskedExact(pairs: seq<Pair>, request: Request)
    ensures request in Asked(pairs) <==> RequestIn(request, pairs)
  {
    if pairs != [] {
      AskedExact(pairs[1..], request);
      assert pairs == [pairs[0]] + pairs[1..];
    }
  }

  /** A Bitcoin attestation whose height fits the report. */
  predicate Confirms(p: Pair) {
    p.0.Bitcoin? && p.0.height <= U32_MAX
  }

  function FirstHeight(pairs: seq<Pair>): Option<u32> {
    if pairs == [] then None
    else if Confirms(pairs[0]) then Some(pairs[0].0.height)
    else FirstHeight(pairs[1..])
  }

  lemma {:induction false} FirstHeightConcat(a: seq<Pair>, b: seq<Pair>)
    ensures FirstHeight(a + b) == if FirstHeight(a).Some? then FirstHeight(a) else FirstHeight(b)
  {
    if a == [] {
      assert a + b == b;
    } else {
      FirstHeightConcat(a[1..], b);
      assert (a + b)[1..] == a[1..] + b;
    }
  }

  lemma {:induction false} FirstHeightExact(pairs: seq<Pair>)
    ensures FirstHeight(pairs).Some? <==> exists p :: p in pairs && Confirms(p)
    ensures FirstHeight(pairs).Some? ==> exists p :: p in pairs && Confirms(p) && p.0.height == FirstHeight(pairs).value
  {
    if pairs != [] {
      FirstHeightExact(pairs[1..]);
      assert pairs == [pairs[0]] + pairs[1..];
    }
  }

  lemma {:induction false} HeightExact(exec: Exec, from: Bytes, s: Step)
    requires Sound(exec, from, s)
    ensures BitcoinHeight(s) == FirstHeight(Pairs(s))
    decreases s
  {
    if s.kind.Attested? {
      assert Pairs(s) == Own(s);
    } else {
      HeightOfExact(exec, if s.kind.Operation? then s.output else from, s.next);
      assert Pairs(s) == PairsOf(s.next);
    }
  }

  lemma {:induction false} HeightOfExact(exec: Exec, from: Bytes, steps: seq<Step>)
    requires AllSound(exec, from, steps)
    ensures BitcoinHeightOf(steps) == FirstHeight(PairsOf(steps))
    decreases steps
  {
    if steps != [] {
      HeightExact(exec, from, steps[0]);
      HeightOfExact(exec, from, steps[1..]);
      FirstHeightConcat(Pairs(steps[0]), PairsOf(steps[1..]));
    }
  }

  // --- writing and reading back -------------------------------------------------------------------------

  /** The tree as it reads back: a fork in last place merges into the fork above. */
  function Flat(s: Step): Step
    decreases s
  {
    match s.kind
    case Attested(_) => s
    case Operation(_) => if s.next == [] then s else s.(next := [Flat(s.next[0])])
    case Fork => s.(next := FlatBranches(s.next))
  }

  function FlatBranches(steps: seq<Step>): seq<Step>
    decreases steps
  {
    if steps == [] then []
    else if |steps| == 1 then (if steps[0].kind.Fork? then Flat(steps[0]).next else [Flat(steps[0])])
    else [Flat(steps[0])] + FlatBranches(steps[1..])
  }

  lemma {:induction false} PairsOfConcat(a: seq<Step>, b: seq<Step>)
    ensures PairsOf(a + b) == PairsOf(a) + PairsOf(b)
  {
    hide Pairs, PairsOf;
    if a == [] {
      assert a + b == b;
      PairsOfStep(a);
    } else {
      PairsOfConcat(a[1..], b);
      assert (a + b)[1..] == a[1..] + b;
      PairsOfStep(a);
      PairsOfStep(a + b);
    }
  }

  lemma PairsOfStep(steps: seq<Step>)
    ensures PairsOf(steps) == if steps == [] then [] else Pairs(steps[0]) + PairsOf(steps[1..])
  {
    hide Pairs;
  }

  lemma PairsOfOne(s: Step)
    ensures PairsOf([s]) == Pairs(s)
  {
    assert [s][1..] == [];
    assert PairsOf([s]) == Pairs(s) + PairsOf([]);
  }

  /** Flattening keeps every attestation, in order, and the tree's soundness. */
  lemma {:induction false} FlatKeeps(exec: Exec, from: Bytes, s: Step)
    requires Sound(exec, from, s)
    ensures Sound(exec, from, Flat(s)) && Pairs(Flat(s)) == Pairs(s) && Flat(s).kind == s.kind
    decreases s
  {
    match s.kind {
      case Attested(_) =>
      case Operation(_) =>
        FlatKeeps(exec, s.output, s.next[0]);
        PairsOfOne(s.next[0]);
        PairsOfOne(Flat(s.next[0]));
        assert s.next == [s.next[0]];
      case Fork =>
        assert AllSound(exec, from, s.next);
        FlatBranchesKeep(exec, from, s.next);
        assert AllSound(exec, from, FlatBranches(s.next));
    }
  }

  lemma {:induction false} FlatBranchesKeep(exec: Exec, from: Bytes, steps: seq<Step>)
    requires AllSound(exec, from, steps) && steps != []
    ensures AllSound(exec, from, FlatBranches(steps)) && PairsOf(FlatBranches(steps)) == PairsOf(steps)
    ensures |FlatBranches(steps)| >= |steps|
    decreases steps
  {
    FlatKeeps(exec, from, steps[0]);
    if |steps| == 1 {
      assert steps == [steps[0]];
      PairsOfOne(steps[0]);
      PairsOfOne(Flat(steps[0]));
      if steps[0].kind.Fork? {
        assert Pairs(Flat(steps[0])) == PairsOf(Flat(steps[0]).next);
      }
    } else {
      FlatBranchesKeep(exec, from, steps[1..]);
      PairsOfOne(Flat(steps[0]));
      PairsOfConcat([Flat(steps[0])], FlatBranches(steps[1..]));
    }
  }

  /** Reading back what was written gives the flattened tree and leaves what follows. */
  lemma {:induction false} WriteReads(exec: Exec, from: Bytes, s: Step, rest: seq<Token>)
    requires Sound(exec, from, s)
    ensures Parse(exec, Write(s) + rest, from) == Some((Flat(s), rest))
    ensures Write(s) != [] && (Write(s)[0] == Mark <==> s.kind.Fork?)
    decreases s, 1
  {
    match s.kind {
      case Attested(a) =>
        assert (Write(s) + rest)[1..] == rest;
      case Operation(op) =>
        WriteReads(exec, s.output, s.next[0], rest);
        assert (Write(s) + rest)[1..] == Write(s.next[0]) + rest;
      case Fork =>
        assert AllSound(exec, from, s.next);
        BranchesRead(exec, from, s.next, rest);
        assert (Write(s) + rest)[1..] == Write(s)[1..] + rest;
    }
  }

  lemma {:induction false} BranchesRead(exec: Exec, from: Bytes, steps: seq<Step>, rest: seq<Token>)
    requires AllSound(exec, from, steps) && |steps| >= 2
    ensures WriteBranches(steps) != [] && WriteBranches(steps)[0] == Mark
    ensures ParseBranches(exec, WriteBranches(steps)[1..] + rest, from) == Some((FlatBranches(steps), rest))
    decreases steps, 0
  {
    hide Sound, Parse, ParseBranches, Write, Flat;
    var first, others := steps[0], steps[1..];
    var tail := WriteBranches(others) + rest;
    WriteReads(exec, from, first, tail);
    assert WriteBranches(steps)[1..] + rest == Write(first) + tail;
    if |others| == 1 {
      var last := others[0];
      WriteReads(exec, from, last, rest);
      assert tail == Write(last) + rest && others == [last];
      LastBranchReads(exec, from, Write(first) + tail, first, last, rest);
    } else {
      BranchesRead(exec, from, others, rest);
      assert tail[1..] == WriteBranches(others)[1..] + rest;
      NextBranchReads(exec, from, Write(first) + tail, Flat(first), FlatBranches(others), tail, rest);
    }
  }

  /** A branch before the last, then a mark and the others. */
  lemma NextBranchReads(exec: Exec, from: Bytes, ts: seq<Token>, first: Step, others: seq<Step>, tail: seq<Token>,
                        rest: seq<Token>)
    requires tail != [] && tail[0] == Mark
    requires Parse(exec, ts, from) == Some((first, tail))
    requires ParseBranches(exec, tail[1..], from) == Some((others, rest))
    ensures ParseBranches(exec, ts, from) == Some(([first] + others, rest))
  {
    hide Parse;
  }

  /** The last branch, which the loop reads as its own branches if it is a fork. */
  lemma LastBranchReads(exec: Exec, from: Bytes, ts: seq<Token>, first: Step, last: Step, rest: seq<Token>)
    requires Write(last) != [] && (Write(last)[0] == Mark <==> last.kind.Fork?)
    requires Parse(exec, Write(last) + rest, from) == Some((Flat(last), rest))
    requires Parse(exec, ts, from) == Some((Flat(first), Write(last) + rest))
    ensures ParseBranches(exec, ts, from) == Some(([Flat(first)] + FlatBranches([last]), rest))
  {
    hide Write, Flat;
    assert [last][0] == last;
    if last.kind.Fork? {
      assert FlatBranches([last]) == Flat(last).next;
      assert ParseBranches(exec, (Write(last) + rest)[1..], from) == Some((Flat(last).next, rest));
      NextBranchReads(exec, from, ts, Flat(first), Flat(last).next, Write(last) + rest, rest);
    } else {
      assert [Flat(first)] + FlatBranches([last]) == [Flat(first), Flat(last)];
    }
  }

  lemma {:induction false} ParsedIsSound(exec: Exec, ts: seq<Token>, from: Bytes)
    ensures Parse(exec, ts, from).Some? ==> Sound(exec, from, Parse(exec, ts, from).value.0)
    decreases |ts|, 0
  {
    if ts != [] {
      match ts[0] {
        case Attest(_) =>
        case Apply(op) => ParsedIsSound(exec, ts[1..], exec(op, from));
        case Mark => ParsedBranchesAreSound(exec, ts[1..], from);
      }
    }
  }

  lemma {:induction false} ParsedBranchesAreSound(exec: Exec, ts: seq<Token>, from: Bytes)
    ensures var r := ParseBranches(exec, ts, from);
      r.Some? ==> |r.value.0| >= 2 && AllSound(exec, from, r.value.0)
    decreases |ts|, 1
  {
    ParsedIsSound(exec, ts, from);
    if Parse(exec, ts, from).Some? {
      var (first, rest) := Parse(exec, ts, from).value;
      if rest != [] {
        if rest[0] == Mark {
          ParsedBranchesAreSound(exec, rest[1..], from);
        } else {
          ParsedIsSound(exec, rest, from);
        }
      }
    }
  }

  // --- the whole pass -----------------------------------------------------------------------------------

  /** The pairs every answered request brings. */
  function Gained(exec: Exec, calendar: Calendar, requests: seq<Request>): seq<Pair> {
    if requests == [] then []
    else
      var n := |requests| - 1;
      Gained(exec, calendar, requests[..n])
      + match Answer(exec, calendar, requests[n])
        case None => []
        case Some(fragment) => Pairs(fragment)
  }

  function Answered(exec: Exec, calendar: Calendar, requests: seq<Request>): nat {
    if requests == [] then 0
    else
      var n := |requests| - 1;
      Answered(exec, calendar, requests[..n]) + if Answer(exec, calendar, requests[n]).Some? then 1 else 0
  }

  /** Every request is still there to be grafted when its turn comes, so every answer
      is merged; nothing merged means nothing changed. */
  lemma {:induction false} MergedKeeps(exec: Exec, calendar: Calendar, from: Bytes, tree: Step, requests: seq<Request>)
    requires Sound(exec, from, tree)
    requires forall i :: 0 <= i < |requests| ==> RequestIn(requests[i], Pairs(tree))
    ensures var (merged, count) := Merged(exec, calendar, tree, requests);
      && Sound(exec, from, merged)
      && multiset(Pairs(merged)) == multiset(Pairs(tree)) + multiset(Gained(exec, calendar, requests))
      && count == Answered(exec, calendar, requests)
      && (count == 0 ==> merged == tree && Gained(exec, calendar, requests) == [])
  {
    hide Sound, Graft, Pairs, Parse, Answer;
    if requests != [] {
      var n := |requests| - 1;
      MergedKeeps(exec, calendar, from, tree, requests[..n]);
      var (before, count) := Merged(exec, calendar, tree, requests[..n]);
      var answer := Answer(exec, calendar, requests[n]);
      if answer.Some? {
        assert (Pending(requests[n].0), requests[n].1) in multiset(Pairs(before));
        MergeOne(exec, calendar, from, before, requests[n]);
      }
    }
  }

  lemma MergeOne(exec: Exec, calendar: Calendar, from: Bytes, tree: Step, request: Request)
    requires Sound(exec, from, tree) && RequestIn(request, Pairs(tree)) && Answer(exec, calendar, request).Some?
    ensures var fragment := Answer(exec, calendar, request).value;
      && Graft(tree, request, fragment).Some? && Sound(exec, from, Graft(tree, request, fragment).value)
      && (multiset(Pairs(Graft(tree, request, fragment).value))
          == multiset(Pairs(tree)) + multiset(Pairs(fragment)))
  {
    hide Sound, Graft, Pairs, Parse, Answer;
    AnswerIsSound(exec, calendar, request);
    GraftFinds(tree, request, Answer(exec, calendar, request).value);
    GraftKeeps(exec, from, tree, request, Answer(exec, calendar, request).value);
  }

  lemma AnswerIsSound(exec: Exec, calendar: Calendar, request: Request)
    ensures Answer(exec, calendar, request).Some? ==> Sound(exec, request.1, Answer(exec, calendar, request).value)
  {
    if calendar(request).Some? {
      ParsedIsSound(exec, calendar(request).value, request.1);
    }
  }

  lemma RequestsAreHeld(s: Step)
    ensures forall i :: 0 <= i < |Requests(s)| ==> RequestIn(Requests(s)[i], Pairs(s))
  {
    RequestsExact(s);
    forall i | 0 <= i < |Requests(s)|
      ensures RequestIn(Requests(s)[i], Pairs(s))
    {
      AskedExact(Pairs(s), Requests(s)[i]);
    }
  }

  /** What an upgrade does to a proof, read back from the file it writes: well formed
      from the same digest, the attestations it had plus exactly the fragments', and
      no file at all when no calendar had an answer. */
  lemma UpgradeKeepsEverything(exec: Exec, calendar: Calendar, digest: Bytes, file: File)
    requires Upgraded(exec, calendar, digest, file).Ok?
    ensures ReadFile(exec, file).Some? && file.start == digest
    ensures var before := ReadFile(exec, file).value;
      var asked := Requests(before);
      match Upgraded(exec, calendar, digest, file).value.file
      case None => Answered(exec, calendar, asked) == 0
      case Some(written) =>
        && Answered(exec, calendar, asked) > 0
        && written.start == digest
        && ReadFile(exec, written).Some?
        && var after := ReadFile(exec, written).value;
           && Sound(exec, digest, after)
           && multiset(Pairs(after)) == multiset(Pairs(before)) + multiset(Gained(exec, calendar, asked))
  {
    hide Sound, Graft, Pairs, Parse, Answer, Requests;
    var before := ReadFile(exec, file).value;
    ParsedIsSound(exec, file.body, file.start);
    RequestsAreHeld(before);
    MergedKeeps(exec, calendar, digest, before, Requests(before));
    var (merged, _) := Merged(exec, calendar, before, Requests(before));
    WriteReads(exec, digest, merged, []);
    assert Write(merged) + [] == Write(merged);
    FlatKeeps(exec, digest, merged);
  }

  /** A confirmed proof stays confirmed, and an upgrade reports a confirmation exactly
      when the proof or a fragment carries one the report can express. Every request
      outstanding before is outstanding after, so a later pass can ask again. */
  lemma UpgradeConfirms(exec: Exec, calendar: Calendar, digest: Bytes, file: File)
    requires Upgraded(exec, calendar, digest, file).Ok? && ReadFile(exec, file).Some?
    ensures var before := ReadFile(exec, file).value;
      var gained := Gained(exec, calendar, Requests(before));
      && (Upgraded(exec, calendar, digest, file).value.state.Confirmed? <==>
            exists p :: (p in Pairs(before) || p in gained) && Confirms(p))
      && (BitcoinHeight(before).Some? ==> Upgraded(exec, calendar, digest, file).value.state.Confirmed?)
    ensures var before := ReadFile(exec, file).value;
      var (after, _) := Merged(exec, calendar, before, Requests(before));
      forall r :: r in Requests(before) ==> r in Requests(after)
  {
    hide Sound, Graft, Pairs, Parse, Answer, Requests, Merged;
    var before := ReadFile(exec, file).value;
    ParsedIsSound(exec, file.body, file.start);
    RequestsAreHeld(before);
    MergedKeeps(exec, calendar, digest, before, Requests(before));
    var (after, count) := Merged(exec, calendar, before, Requests(before));
    var gained := Gained(exec, calendar, Requests(before));
    SameMembers(Pairs(after), Pairs(before), gained);
    HeightExact(exec, digest, before);
    HeightExact(exec, digest, after);
    FirstHeightExact(Pairs(before));
    FirstHeightExact(Pairs(after));
    RequestsExact(before);
    RequestsExact(after);
    forall r | r in Requests(before)
      ensures r in Requests(after)
    {
      AskedExact(Pairs(before), r);
      AskedExact(Pairs(after), r);
    }
  }

  lemma SameMembers(all: seq<Pair>, a: seq<Pair>, b: seq<Pair>)
    requires multiset(all) == multiset(a) + multiset(b)
    ensures forall p :: p in all <==> p in a || p in b
  {
    forall p
      ensures p in all <==> p in a || p in b
    {
      assert p in all <==> p in multiset(all);
    }
  }
}
