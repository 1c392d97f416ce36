/** The upgrade pass on the tree it rewrites: nodes with mutable fields, a graft that
    descends and replaces one leaf in place, and the loop over the requests. */
module OtsTree {
  import opened Basics
  import opened Ots
  import opened OtsLaws

  class Node {
    var kind: Kind
    var output: Bytes
    var next: seq<Node>
    ghost var Repr: set<Node>

    ghost predicate Valid()
      reads this, Repr
      decreases Repr
    {
      && this in Repr
      && (forall i :: 0 <= i < |next| ==>
            next[i] in Repr && next[i].Repr < Repr && this !in next[i].Repr && next[i].Valid())
      && forall i, j :: 0 <= i < j < |next| ==> next[i].Repr !! next[j].Repr
    }

    /** The tree as a value. */
    ghost function Tree(): Step
      requires Valid()
      reads this, Repr
      decreases Repr, |next| + 1
    {
      Step(kind, output, TreesFrom(0))
    }

    ghost function TreesFrom(k: nat): (steps: seq<Step>)
      requires Valid() && k <= |next|
      ensures |steps| == |next| - k
      reads this, Repr
      decreases Repr, |next| - k
    {
      if k == |next| then [] else [next[k].Tree()] + TreesFrom(k + 1)
    }

    constructor (kind: Kind, output: Bytes)
      ensures Valid() && fresh(Repr) && Tree() == Step(kind, output, [])
    {
      this.kind, this.output, this.next := kind, output, [];
      Repr := {this};
    }
  }

  method Plant(s: Step) returns (n: Node)
    ensures n.Valid() && fresh(n.Repr) && n.Tree() == s
    decreases s
  {
    hide Node.TreesFrom;
    n := new Node(s.kind, s.output);
    for i := 0 to |s.next|
      invariant n.Valid() && fresh(n.Repr)
      invariant n.kind == s.kind && n.output == s.output && |n.next| == i
      invariant forall k :: 0 <= k < i ==> n.next[k].Tree() == s.next[k]
    {
      var child := Plant(s.next[i]);
      n.next := n.next + [child];
      n.Repr := n.Repr + child.Repr;
    }
    TreesAre(n, s.next, 0);
  }

  lemma {:induction false} TreesAre(n: Node, steps: seq<Step>, k: nat)
    requires n.Valid() && |n.next| == |steps| && k <= |steps|
    requires forall i :: k <= i < |steps| ==> n.next[i].Tree() == steps[i]
    ensures n.TreesFrom(k) == steps[k..]
    decreases |steps| - k
  {
    if k < |steps| {
      TreesAre(n, steps, k + 1);
    }
  }

  lemma TreeAt(n: Node, k: nat, i: nat)
    requires n.Valid() && k <= i < |n.next|
    ensures n.TreesFrom(k)[i - k] == n.next[i].Tree()
    decreases i - k
  {
    if k < i {
      TreeAt(n, k + 1, i);
    }
  }

  predicate Misses(steps: seq<Step>, i: nat, request: Request, addition: Step) {
    i <= |steps| && forall k :: 0 <= k < i ==> Graft(steps[k], request, addition).None?
  }

  /** The graft goes to the first child that takes it. */
  lemma {:induction false} FirstChildThatTakes(steps: seq<Step>, i: nat, request: Request, addition: Step)
    requires Misses(steps, i, request, addition)
    ensures i == |steps| ==> GraftInto(steps, request, addition).None?
    ensures i < |steps| && Graft(steps[i], request, addition).Some? ==>
      GraftInto(steps, request, addition) == Some(steps[i := Graft(steps[i], request, addition).value])
  {
    hide Graft;
    if i > 0 {
      FirstChildThatTakes(steps[1..], i - 1, request, addition);
      if i < |steps| && Graft(steps[i], request, addition).Some? {
        var taken := Graft(steps[i], request, addition).value;
        assert [steps[0]] + steps[1..][i - 1 := taken] == steps[i := taken];
      }
    } else if steps != [] && Graft(steps[0], request, addition).Some? {
      var taken := Graft(steps[0], request, addition).value;
      assert [taken] + steps[1..] == steps[0 := taken];
    }
  }

  lemma GraftUnfolds(s: Step, request: Request, addition: Step)
    ensures IsTarget(s, request) ==> Graft(s, request, addition) == Some(Forked(s, addition))
    ensures !IsTarget(s, request) ==>
      Graft(s, request, addition) ==
        (match GraftInto(s.next, request, addition) case None => None case Some(next) => Some(s.(next := next)))
  {
  }

  /** Replaces the pending leaf for the request with a fork carrying it and a copy of
      `addition`, and answers whether it found one. */
  method GraftNode(step: Node, request: Request, addition: Step) returns (found: bool)
    requires step.Valid()
    modifies step.Repr
    ensures step.Valid() && fresh(step.Repr - old(step.Repr))
    ensures found <==> Graft(old(step.Tree()), request, addition).Some?
    ensures found ==> step.Tree() == Graft(old(step.Tree()), request, addition).value
    ensures !found ==> unchanged(old(step.Repr)) && step.Repr == old(step.Repr)
    decreases step.Repr, 1
  {
    hide Graft, GraftInto, Node.TreesFrom;
    GraftUnfolds(step.Tree(), request, addition);
    if step.kind == Attested(Pending(request.0)) && step.output == request.1 {
      ForkLeaf(step, addition);
      return true;
    }
    ghost var before := step.TreesFrom(0);
    ghost var repr := step.Repr;
    forall k | 0 <= k < |before|
      ensures before[k] == step.next[k].Tree()
    {
      TreeAt(step, 0, k);
    }
    for i := 0 to |step.next|
      invariant unchanged(repr) && step.Repr == repr
      invariant Misses(before, i, request, addition)
    {
      found := GraftChild(step, i, request, addition);
      if found {
        FirstChildThatTakes(before, i, request, addition);
        TreesAre(step, before[i := step.next[i].Tree()], 0);
        return true;
      }
    }
    FirstChildThatTakes(before, |step.next|, request, addition);
    return false;
  }

  /** Grafts below one child; the others keep their trees. */
  method GraftChild(step: Node, i: nat, request: Request, addition: Step) returns (found: bool)
    requires step.Valid() && i < |step.next|
    modifies step.Repr
    ensures step.Valid() && fresh(step.Repr - old(step.Repr))
    ensures step.next == old(step.next) && step.kind == old(step.kind) && step.output == old(step.output)
    ensures found <==> Graft(old(step.next[i].Tree()), request, addition).Some?
    ensures found ==> step.next[i].Tree() == Graft(old(step.next[i].Tree()), request, addition).value
    ensures forall k :: 0 <= k < |step.next| && k != i ==> step.next[k].Tree() == old(step.next[k].Tree())
    ensures !found ==> unchanged(old(step.Repr)) && step.Repr == old(step.Repr)
    decreases step.Repr, 0
  {
    hide Graft, Node.TreesFrom, Node.Tree;
    found := GraftNode(step.next[i], request, addition);
    if found {
      step.Repr := step.Repr + step.next[i].Repr;
      forall k | 0 <= k < |step.next| && k != i
        ensures step.next[k].Valid() && step.next[k].Repr !! step.next[i].Repr
        ensures step.next[k].Tree() == old(step.next[k].Tree())
      {
        assert unchanged(old(step.next[k].Repr));
      }
    }
  }

  method ForkLeaf(step: Node, addition: Step)
    requires step.Valid()
    modifies step
    ensures step.Valid() && fresh(step.Repr - old(step.Repr))
    ensures step.Tree() == Forked(old(step.Tree()), addition)
  {
    hide Node.TreesFrom;
    var original := new Node(step.kind, step.output);
    var copy := Plant(addition);
    step.kind := Fork;
    step.next := [original, copy];
    step.Repr := {step} + original.Repr + copy.Repr;
    TreesAre(step, [original.Tree(), addition], 0);
  }

  // --- reading the tree ------------------------------------------------------------------------

  lemma RequestsFrom(n: Node, i: nat)
    requires n.Valid() && i < |n.next|
    ensures RequestsOf(n.TreesFrom(i)) == Requests(n.next[i].Tree()) + RequestsOf(n.TreesFrom(i + 1))
  {
    assert n.TreesFrom(i)[1..] == n.TreesFrom(i + 1);
  }

  method PendingRequests(step: Node) returns (out: seq<Request>)
    requires step.Valid()
    ensures out == Requests(step.Tree())
    decreases step.Repr
  {
    hide Requests, RequestsOf, Node.TreesFrom;
    RequestsUnfold(step.Tree());
    out := [];
    if step.kind.Attested? && step.kind.attestation.Pending? {
      out := [(step.kind.attestation.uri, step.output)];
    }
    for i := 0 to |step.next|
      invariant out + RequestsOf(step.TreesFrom(i)) == Requests(step.Tree())
    {
      var below := PendingRequests(step.next[i]);
      RequestsFrom(step, i);
      out := out + below;
    }
    NothingLeft(step);
  }

  lemma RequestsUnfold(s: Step)
    ensures Requests(s) ==
            (if s.kind.Attested? && s.kind.attestation.Pending? then [(s.kind.attestation.uri, s.output)] else [])
                           + RequestsOf(s.next)
  {
  }

  method FirstBitcoin(step: Node) returns (height: Option<u32>)
    requires step.Valid()
    ensures height == BitcoinHeight(step.Tree())
    decreases step.Repr
  {
    hide BitcoinHeight;
    BitcoinUnfold(step.Tree());
    if step.kind.Attested? && step.kind.attestation.Bitcoin? {
      var h := step.kind.attestation.height;
      return if h <= U32_MAX then Some(h) else None;
    }
    for i := 0 to |step.next|
      invariant BitcoinHeight(step.Tree()) == BitcoinHeightOf(step.TreesFrom(i))
    {
      height := FirstBitcoin(step.next[i]);
      assert step.TreesFrom(i)[1..] == step.TreesFrom(i + 1);
      if height.Some? {
        return height;
      }
    }
    assert step.TreesFrom(|step.next|) == [];
    return None;
  }

  lemma BitcoinUnfold(s: Step)
    ensures s.kind.Attested? && s.kind.attestation.Bitcoin? ==>
      BitcoinHeight(s) == if s.kind.attestation.height <= U32_MAX then Some(s.kind.attestation.height) else None
    ensures !(s.kind.Attested? && s.kind.attestation.Bitcoin?) ==> BitcoinHeight(s) == BitcoinHeightOf(s.next)
  {
  }

  method WriteNode(step: Node) returns (ts: seq<Token>)
    requires step.Valid()
    ensures ts == Write(step.Tree())
    decreases step.Repr
  {
    hide Write, WriteBranches, Node.TreesFrom;
    WriteUnfolds(step.Tree());
    match step.kind {
      case Attested(a) => ts := [Attest(a)];
      case Operation(op) =>
        ts := [Apply(op)];
        if step.next != [] {
          TreeAt(step, 0, 0);
          var below := WriteNode(step.next[0]);
          ts := ts + below;
        }
      case Fork =>
        ts := [];
        for i := 0 to |step.next|
          invariant ts + WriteBranches(step.TreesFrom(i)) == Write(step.Tree())
        {
          var below := WriteNode(step.next[i]);
          BranchWritten(step, i);
          ts := ts + (if i + 1 < |step.next| then [Mark] else []) + below;
        }
        NothingLeft(step);
    }
  }

  lemma NothingLeft(n: Node)
    requires n.Valid()
    ensures n.TreesFrom(|n.next|) == [] && WriteBranches([]) == [] && RequestsOf([]) == []
  {
  }

  lemma BranchWritten(n: Node, i: nat)
    requires n.Valid() && i < |n.next|
    ensures WriteBranches(n.TreesFrom(i)) ==
      (if i + 1 < |n.next| then [Mark] else []) + Write(n.next[i].Tree()) + WriteBranches(n.TreesFrom(i + 1))
  {
    hide Write;
    assert n.TreesFrom(i)[1..] == n.TreesFrom(i + 1);
  }

  lemma WriteUnfolds(s: Step)
    ensures s.kind.Attested? ==> Write(s) == [Attest(s.kind.attestation)]
    ensures s.kind.Operation? ==>
      Write(s) == if s.next == [] then [Apply(s.kind.op)] else [Apply(s.kind.op)] + Write(s.next[0])
    ensures s.kind.Fork? ==> Write(s) == WriteBranches(s.next)
  {
  }

  // --- the pass -----------------------------------------------------------------------------------

  /** Asks about every pending leaf and grafts what comes back. */
  method UpgradeProof(exec: Exec, calendar: Calendar, digest: Bytes, file: File)
    returns (r: Result<Upgrade, UpgradeError>)
    ensures r == Upgraded(exec, calendar, digest, file)
  {
    hide Graft, Requests, Parse, Write, BitcoinHeight;
    var read := ReadFile(exec, file);
    if read.None? {
      return Err(MalformedProof);
    }
    if file.start != digest {
      return Err(ProofDigestMismatch);
    }
    var tree := Plant(read.value);
    var merged := 0;
    var requests := PendingRequests(tree);
    for i := 0 to |requests|
      invariant tree.Valid() && fresh(tree.Repr)
      invariant (tree.Tree(), merged) == Merged(exec, calendar, read.value, requests[..i])
    {
      assert requests[..i + 1][..i] == requests[..i];
      var fragment := Answer(exec, calendar, requests[i]);
      if fragment.Some? {
        var found := GraftNode(tree, requests[i], fragment.value);
        if found {
          merged := merged + 1;
        }
      }
    }
    assert requests[..|requests|] == requests;
    var height := FirstBitcoin(tree);
    var waiting := PendingRequests(tree);
    var state := if height.Some? then Confirmed(height.value) else Waiting(Uris(waiting));
    if merged == 0 {
      return Ok(Upgrade(state, None));
    }
    var body := WriteNode(tree);
    return Ok(Upgrade(state, Some(File(file.start, body))));
  }
}
