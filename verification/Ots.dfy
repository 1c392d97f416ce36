/** OpenTimestamps proofs: the timestamp tree, the stream it is written as, and the
    upgrade pass that grafts a calendar's answer onto a pending leaf.

    `Graft`, `Requests`, `BitcoinHeight` and `Upgraded` say what the pass computes;
    module `OtsTree` has the tree the pass rewrites in place. */
module Ots {
  import opened Basics

  datatype Attestation = Bitcoin(height: u64) | Pending(uri: Bytes) | Unknown(tag: Bytes, payload: Bytes)

  /** A hash, a reversal, an append: what an operation is does not matter here. */
  datatype Op = Op(code: u8, argument: Bytes)

  type Exec = (Op, Bytes) -> Bytes

  datatype Kind = Fork | Operation(op: Op) | Attested(attestation: Attestation)

  datatype Step = Step(kind: Kind, output: Bytes, next: seq<Step>)

  /** An attestation and the digest it attests. */
  type Pair = (Attestation, Bytes)

  /** Every output follows from its parent's; operations have one child, attestations
      none, forks at least two. */
  predicate Sound(exec: Exec, from: Bytes, s: Step)
    decreases s
  {
    match s.kind
    case Fork => s.output == from && |s.next| >= 2 && forall i :: 0 <= i < |s.next| ==> Sound(exec, from, s.next[i])
    case Operation(op) => s.output == exec(op, from) && |s.next| == 1 && Sound(exec, s.output, s.next[0])
    case Attested(_) => s.output == from && s.next == []
  }

  function Own(s: Step): seq<Pair> {
    if s.kind.Attested? then [(s.kind.attestation, s.output)] else []
  }

  /** Every attestation of a tree with its digest, left to right. */
  function Pairs(s: Step): seq<Pair>
    decreases s
  {
    Own(s) + PairsOf(s.next)
  }

  function PairsOf(steps: seq<Step>): seq<Pair>
    decreases steps
  {
    if steps == [] then [] else Pairs(steps[0]) + PairsOf(steps[1..])
  }

  // --- the pass over one proof -------------------------------------------------------------

  type Request = (Bytes, Bytes)

  function Requests(s: Step): seq<Request>
    decreases s
  {
    (if s.kind.Attested? && s.kind.attestation.Pending? then [(s.kind.attestation.uri, s.output)] else [])
    + RequestsOf(s.next)
  }

  function RequestsOf(steps: seq<Step>): seq<Request>
    decreases steps
  {
    if steps == [] then [] else Requests(steps[0]) + RequestsOf(steps[1..])
  }

  function BitcoinHeight(s: Step): Option<u32>
    decreases s
  {
    if s.kind.Attested? && s.kind.attestation.Bitcoin? then
      (if s.kind.attestation.height <= U32_MAX then Some(s.kind.attestation.height) else None)
    else BitcoinHeightOf(s.next)
  }

  function BitcoinHeightOf(steps: seq<Step>): Option<u32>
    decreases steps
  {
    if steps == [] then None
    else if BitcoinHeight(steps[0]).Some? then BitcoinHeight(steps[0])
    else BitcoinHeightOf(steps[1..])
  }

  predicate IsTarget(s: Step, request: Request) {
    s.kind == Attested(Pending(request.0)) && s.output == request.1
  }

  /** The leaf, now one branch of a fork beside the calendar's answer. */
  function Forked(leaf: Step, addition: Step): Step {
    Step(Fork, leaf.output, [Step(leaf.kind, leaf.output, []), addition])
  }

  /** Replaces the first pending leaf that matches, if there is one. */
  function Graft(s: Step, request: Request, addition: Step): Option<Step>
    decreases s
  {
    if IsTarget(s, request) then Some(Forked(s, addition))
    else
      match GraftInto(s.next, request, addition)
      case None => None
      case Some(next) => Some(s.(next := next))
  }

  function GraftInto(steps: seq<Step>, request: Request, addition: Step): Option<seq<Step>>
    decreases steps
  {
    if steps == [] then None
    else
      match Graft(steps[0], request, addition)
      case Some(grafted) => Some([grafted] + steps[1..])
      case None =>
        match GraftInto(steps[1..], request, addition)
        case None => None
        case Some(rest) => Some([steps[0]] + rest)
  }

  // --- the stream a tree is written as --------------------------------------------------------

  datatype Token = Mark | Apply(op: Op) | Attest(attestation: Attestation)

  /** A fork writes a mark before every branch but the last, an operation its first
      child, an attestation nothing below itself. */
  function Write(s: Step): seq<Token>
    decreases s
  {
    match s.kind
    case Attested(a) => [Attest(a)]
    case Operation(op) => if s.next == [] then [Apply(op)] else [Apply(op)] + Write(s.next[0])
    case Fork => WriteBranches(s.next)
  }

  function WriteBranches(steps: seq<Step>): seq<Token>
    decreases steps
  {
    if steps == [] then []
    else if |steps| == 1 then Write(steps[0])
    else [Mark] + Write(steps[0]) + WriteBranches(steps[1..])
  }

  function Parse(exec: Exec, ts: seq<Token>, from: Bytes): (r: Option<(Step, seq<Token>)>)
    ensures r.Some? ==> |r.value.1| < |ts|
    decreases |ts|, 0
  {
    if ts == [] then None
    else
      match ts[0]
      case Attest(a) => Some((Step(Attested(a), from, []), ts[1..]))
      case Apply(op) =>
        (match Parse(exec, ts[1..], exec(op, from))
         case None => None
         case Some((child, rest)) => Some((Step(Operation(op), exec(op, from), [child]), rest)))
      case Mark =>
        (match ParseBranches(exec, ts[1..], from)
         case None => None
         case Some((branches, rest)) => Some((Step(Fork, from, branches), rest)))
  }

  /** The branches after a mark: one, then more after further marks, then the last. */
  function ParseBranches(exec: Exec, ts: seq<Token>, from: Bytes): (r: Option<(seq<Step>, seq<Token>)>)
    ensures r.Some? ==> |r.value.1| < |ts|
    decreases |ts|, 1
  {
    match Parse(exec, ts, from)
    case None => None
    case Some((first, rest)) =>
      if rest == [] then None
      else if rest[0] == Mark then
        (match ParseBranches(exec, rest[1..], from)
         case None => None
         case Some((branches, rest')) => Some(([first] + branches, rest')))
      else
        match Parse(exec, rest, from)
        case None => None
        case Some((last, rest')) => Some(([first, last], rest'))
  }

  // --- the upgrade --------------------------------------------------------------------------------

  /** A detached file: the digest it is for, and its tree as written. */
  datatype File = File(start: Bytes, body: seq<Token>)

  datatype UpgradeError = MalformedProof | ProofDigestMismatch

  datatype AnchorResult = Confirmed(height: u32) | Waiting(calendars: seq<Bytes>)

  datatype Upgrade = Upgrade(state: AnchorResult, file: Option<File>)

  type Calendar = Request -> Option<seq<Token>>

  function ReadFile(exec: Exec, file: File): Option<Step> {
    match Parse(exec, file.body, file.start)
    case None => None
    case Some((tree, rest)) => if rest == [] then Some(tree) else None
  }

  /** The fragment one request brings back: nothing when the calendar is unreachable
      or its answer does not parse. Tokens after the fragment are ignored. */
  function Answer(exec: Exec, calendar: Calendar, request: Request): Option<Step> {
    match calendar(request)
    case None => None
    case Some(body) =>
      match Parse(exec, body, request.1)
      case None => None
      case Some((fragment, _)) => Some(fragment)
  }

  /** The tree after a list of requests, and how many were merged into it. */
  function Merged(exec: Exec, calendar: Calendar, tree: Step, requests: seq<Request>): (Step, nat) {
    if requests == [] then (tree, 0)
    else
      var n := |requests| - 1;
      var (before, count) := Merged(exec, calendar, tree, requests[..n]);
      match Answer(exec, calendar, requests[n])
      case None => (before, count)
      case Some(fragment) =>
        match Graft(before, requests[n], fragment)
        case None => (before, count)
        case Some(grafted) => (grafted, count + 1)
  }

  function Uris(requests: seq<Request>): seq<Bytes> {
    seq(|requests|, i requires 0 <= i < |requests| => requests[i].0)
  }

  function Outcome(tree: Step): AnchorResult {
    match BitcoinHeight(tree)
    case Some(height) => Confirmed(height)
    case None => Waiting(Uris(Requests(tree)))
  }

  function Upgraded(exec: Exec, calendar: Calendar, digest: Bytes, file: File): Result<Upgrade, UpgradeError> {
    match ReadFile(exec, file)
    case None => Err(MalformedProof)
    case Some(tree) =>
      if file.start != digest then Err(ProofDigestMismatch)
      else
        var (merged, count) := Merged(exec, calendar, tree, Requests(tree));
        Ok(Upgrade(Outcome(merged), if count == 0 then None else Some(File(file.start, Write(merged)))))
  }
}
