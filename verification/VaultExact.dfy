/** Conservation of commitments, and the exactness of the verifier over a store that
    may have been rewritten behind its back. */
module VaultExact {
  import opened Basics
  import opened Hashing
  import opened Merkle
  import opened MerkleLaws
  import opened Calendar
  import opened Chain
  import opened Leaves
  import opened Vault
  import opened VaultLaws
  import opened VaultRuns

  // --- commit once ---------------------------------------------------------------------------------

  /** `after` is `before` some operations later: issued once and for all, and a stamp
      that was filled has not moved. */
  predicate Continues(before: QuestRow, after: QuestRow) {
    && after.quest.issued == before.quest.issued
    && after.quest.leafSalt == before.quest.leafSalt
    && (before.committedSeq.Some? ==> after.committedSeq == before.committedSeq)
    && (before.verdictCommittedSeq.Some? ==> after.verdictCommittedSeq == before.verdictCommittedSeq)
  }

  /** The row has a continuation in the later table. */
  ghost predicate HasContinuation(r: QuestRow, later: seq<QuestRow>) {
    exists j :: 0 <= j < |later| && Continues(r, later[j])
  }

  ghost predicate AllContinue(rows: seq<QuestRow>, later: seq<QuestRow>) {
    forall i :: 0 <= i < |rows| ==> HasContinuation(rows[i], later)
  }

  lemma PointwiseContinue(rows: seq<QuestRow>, later: seq<QuestRow>)
    requires |rows| == |later| && forall i :: 0 <= i < |rows| ==> Continues(rows[i], later[i])
    ensures AllContinue(rows, later)
  {
    forall i | 0 <= i < |rows|
      ensures HasContinuation(rows[i], later)
    {
      assert Continues(rows[i], later[i]);
    }
  }

  lemma IssueContinues(v: State, q: Quest)
    requires IdsAscend(v.quests) && RowsSane(v.quests, |v.footage|) && IssueQuest(v, q).Some?
    ensures AllContinue(v.quests, IssueQuest(v, q).value.quests)
  {
    var later := IssueQuest(v, q).value.quests;
    InsertedQuestSane(v.quests, q, |v.footage|);
    forall i | 0 <= i < |v.quests|
      ensures HasContinuation(v.quests[i], later)
    {
      assert v.quests[i] in later;
      var j :| 0 <= j < |later| && later[j] == v.quests[i];
      assert Continues(v.quests[i], later[j]);
    }
  }

  lemma StepContinues(h: HashFn, genesis: Digest, v: State, op: Op)
    requires Sound(h, genesis, v)
    ensures AllContinue(v.quests, Apply(h, genesis, v, op).quests)
  {
    hide Seal, AllContinue, IssueQuest, AnswerQuest, DaysGood;
    var w := Apply(h, genesis, v, op);
    match op {
      case Issue(q) =>
        if IssueQuest(v, q).Some? {
          IssueContinues(v, q);
        } else {
          PointwiseContinue(v.quests, w.quests);
        }
      case Answer(id, verdict, now, slotId, slotSalt, ok) =>
        AnswerShape(v, id, verdict, now, slotId, slotSalt, ok);
        PointwiseContinue(v.quests, w.quests);
      case SealDay(date, tz, start, end, version, draftOk) =>
        if Seal(h, genesis, Sealer, v, date, tz, start, end, version, draftOk).Ok? {
          SealShape(h, genesis, v, date, tz, start, end, version, draftOk);
        }
        PointwiseContinue(v.quests, w.quests);
      case _ => PointwiseContinue(v.quests, w.quests);
    }
  }

  lemma ContinueTransitive(a: seq<QuestRow>, b: seq<QuestRow>, c: seq<QuestRow>)
    requires AllContinue(a, b) && AllContinue(b, c)
    ensures AllContinue(a, c)
  {
    forall i | 0 <= i < |a|
      ensures HasContinuation(a[i], c)
    {
      assert HasContinuation(a[i], b);
      var k :| 0 <= k < |b| && Continues(a[i], b[k]);
      assert HasContinuation(b[k], c);
      var j :| 0 <= j < |c| && Continues(b[k], c[j]);
      assert Continues(a[i], c[j]);
    }
  }

  lemma {:induction false} RunContinues(h: HashFn, genesis: Digest, v: State, ops: seq<Op>)
    requires Sound(h, genesis, v)
    ensures AllContinue(v.quests, Run(h, genesis, v, ops).quests)
    decreases |ops|
  {
    hide Sound, Apply;
    if ops == [] {
      PointwiseContinue(v.quests, v.quests);
    } else {
      var w := Apply(h, genesis, v, ops[0]);
      StepKeeps(h, genesis, v, ops[0]);
      StepContinues(h, genesis, v, ops[0]);
      RunContinues(h, genesis, w, ops[1..]);
      ContinueTransitive(v.quests, w.quests, Run(h, genesis, w, ops[1..]).quests);
    }
  }

  /** The days whose tree holds a quest, and those that hold its verdict. */
  predicate CommitsQuest(v: State, day: nat, id: Uuid) {
    id in Ids(QuestsStamped(v.quests, Some(day)))
  }

  predicate CommitsVerdict(v: State, day: nat, id: Uuid) {
    id in Ids(VerdictsStamped(v.quests, Some(day)))
  }

  lemma CommittedAt(v: State, day: nat, id: Uuid) returns (i: nat, k: nat)
    ensures CommitsQuest(v, day, id) ==>
      i < |v.quests| && v.quests[i].quest.issued.id == id && v.quests[i].committedSeq == Some(day)
    ensures CommitsVerdict(v, day, id) ==>
      k < |v.quests| && v.quests[k].quest.issued.id == id && v.quests[k].verdictCommittedSeq == Some(day)
      && v.quests[k].status == Answered
  {
    i, k := 0, 0;
    QuestsFrom(v.quests, Some(day));
    VerdictsFrom(v.quests, Some(day));
    if CommitsQuest(v, day, id) {
      var rows := QuestsStamped(v.quests, Some(day));
      var j :| 0 <= j < |rows| && rows[j].quest.issued.id == id;
      i :| 0 <= i < |v.quests| && v.quests[i] == rows[j];
    }
    if CommitsVerdict(v, day, id) {
      var rows := VerdictsStamped(v.quests, Some(day));
      var j :| 0 <= j < |rows| && rows[j].quest.issued.id == id;
      k :| 0 <= k < |v.quests| && v.quests[k] == rows[j];
    }
  }

  /** In every reachable state each quest is committed by at most one sealed day, each
      verdict by at most one, and those days exist. */
  lemma CommittedOnce(h: HashFn, genesis: Digest, ops: seq<Op>, id: Uuid, a: nat, b: nat)
    ensures var v := Run(h, genesis, FRESH, ops);
      && (CommitsQuest(v, a, id) && CommitsQuest(v, b, id) ==> a == b && 1 <= a <= |v.footage|)
      && (CommitsVerdict(v, a, id) && CommitsVerdict(v, b, id) ==> a == b && 1 <= a <= |v.footage|)
  {
    hide CommitsQuest, CommitsVerdict, Run;
    var v := Run(h, genesis, FRESH, ops);
    FreshIsSound(h, genesis);
    RunKeeps(h, genesis, FRESH, ops);
    var i, k := CommittedAt(v, a, id);
    var i', k' := CommittedAt(v, b, id);
    assert RowsSane(v.quests, |v.footage|);
    if CommitsQuest(v, a, id) && CommitsQuest(v, b, id) {
      SameIdSameRow(v.quests, v.quests[i], i');
      assert RowSane(v.quests[i], |v.footage|);
    }
    if CommitsVerdict(v, a, id) && CommitsVerdict(v, b, id) {
      SameIdSameRow(v.quests, v.quests[k], k');
      assert RowSane(v.quests[k], |v.footage|);
    }
  }

  /** Over any two points of a run, a commitment made by the first still stands at the
      second, on the same day. */
  lemma CommitmentStands(h: HashFn, genesis: Digest, ops: seq<Op>, more: seq<Op>, i: nat)
    requires i < |Run(h, genesis, FRESH, ops).quests|
    ensures var v := Run(h, genesis, FRESH, ops);
      HasContinuation(v.quests[i], Run(h, genesis, v, more).quests)
  {
    hide Run, Sound, Continues;
    FreshIsSound(h, genesis);
    RunKeeps(h, genesis, FRESH, ops);
    RunContinues(h, genesis, Run(h, genesis, FRESH, ops), more);
  }

  /** A seal commits everything issued and everything answered that no day had
      committed: nothing is left waiting. */
  lemma SealCommitsAll(h: HashFn, genesis: Digest, v: State, date: Date, tz: TzName, start: i64, end: i64,
                       draftOk: bool)
    requires Sound(h, genesis, v)
    requires Seal(h, genesis, Sealer, v, date, tz, start, end, WithQuests, draftOk).Ok?
    ensures var w := Seal(h, genesis, Sealer, v, date, tz, start, end, WithQuests, draftOk).value;
      QuestsStamped(w.quests, None) == [] && VerdictsStamped(w.quests, None) == []
  {
    hide BuildRoot, LinkPreimage, Intact, DaysGood, Window, MarkCommitted, QuestsStamped, VerdictsStamped;
    SeqNumbers(h, genesis, v.footage);
    var w := Seal(h, genesis, Sealer, v, date, tz, start, end, WithQuests, draftOk).value;
    assert w.quests == Stamped(v.quests, |v.footage| + 1);
    NothingWaits(v.quests, |v.footage| + 1);
  }

  lemma NothingWaits(rows: seq<QuestRow>, seqNo: nat)
    requires IdsAscend(rows)
    ensures QuestsStamped(Stamped(rows, seqNo), None) == [] && VerdictsStamped(Stamped(rows, seqNo), None) == []
  {
    hide QuestsStamped, VerdictsStamped, Stamped;
    var out := Stamped(rows, seqNo);
    StampedExact(rows, seqNo);
    QuestsFrom(out, None);
    VerdictsFrom(out, None);
    var qs, vs := QuestsStamped(out, None), VerdictsStamped(out, None);
    forall i | 0 <= i < |out|
      ensures out[i].committedSeq.Some? && (out[i].status == Answered ==> out[i].verdictCommittedSeq.Some?)
    {
      assert StampedFrom(rows[i], out[i], seqNo);
    }
    if qs != [] {
      HasMember(qs);
    }
    if vs != [] {
      HasMember(vs);
    }
  }

  // --- exactness over a rewritten store ------------------------------------------------------------------

  /** The day's root is that of the leaf list `sealed`. Its count is another column,
      which neither the root nor the link commits to. */
  ghost predicate SealedOver(h: HashFn, f: Footage, sealed: seq<Digest>) {
    RootOfSet(h, sealed) == Ok(f.root) && |sealed| < U32_MAX
  }

  ghost predicate CountsAsSealed(days: seq<Footage>, sealed: seq<seq<Digest>>) {
    |days| == |sealed| && forall i :: 0 <= i < |days| ==> days[i].leafCount == |sealed[i]|
  }

  /** What re-deriving one day hashes, on both sides of the comparison. */
  function DayHashes(h: HashFn, sealed: seq<Digest>, derived: seq<Digest>): set<Preimage> {
    NodesHashed(h, sealed) + NodesHashed(h, derived)
  }

  lemma DayExact(h: HashFn, v: State, f: Footage, sealed: seq<Digest>)
    requires SealedOver(h, f, sealed) && f.leafCount == |sealed| && Rederived(h, v, f).Ok?
    ensures var derived := Rederived(h, v, f).value;
      (CheckDay(h, v, Sealer, f) == Ok(if multiset(derived) == multiset(sealed) then Good else Bad))
      || Collides(h, DayHashes(h, sealed, derived))
  {
    hide Rederived, NodesHashed;
    var derived := Rederived(h, v, f).value;
    if multiset(derived) == multiset(sealed) {
      EqualBagsSameLength(derived, sealed);
      SealIgnoresOrder(derived, sealed);
    } else if |derived| == |sealed| && RootOfSet(h, derived) == Ok(f.root) {
      RootBindsSameSize(h, sealed, derived);
    }
  }

  /** An untouched day whose count was edited is reported bad. */
  lemma EditedCountIsBad(h: HashFn, v: State, f: Footage, sealed: seq<Digest>)
    requires SealedOver(h, f, sealed) && SameAsSealed(h, v, f, sealed) && f.leafCount != |sealed|
    ensures CheckDay(h, v, Sealer, f) == Ok(Bad)
  {
    hide Rederived, RootOfSet;
    EqualBagsSameLength(Rederived(h, v, f).value, sealed);
  }

  /** Nothing hashed in comparing any of the days collides. */
  ghost predicate NoCollisions(h: HashFn, v: State, days: seq<Footage>, sealed: seq<seq<Digest>>) {
    |days| == |sealed| && forall i :: 0 <= i < |days| ==>
      Rederived(h, v, days[i]).Ok? && !Collides(h, DayHashes(h, sealed[i], Rederived(h, v, days[i]).value))
  }

  ghost predicate SameAsSealed(h: HashFn, v: State, f: Footage, sealed: seq<Digest>) {
    Rederived(h, v, f).Ok? && multiset(Rederived(h, v, f).value) == multiset(sealed)
  }

  /** `k` is the first day that differs from what was sealed, or past the end. */
  ghost predicate FirstDifference(h: HashFn, v: State, days: seq<Footage>, sealed: seq<seq<Digest>>, k: nat)
    requires |days| == |sealed|
  {
    && k <= |days|
    && (forall i :: 0 <= i < k ==> SameAsSealed(h, v, days[i], sealed[i]))
    && (k < |days| ==> !SameAsSealed(h, v, days[k], sealed[k]))
  }

  lemma {:induction false} FindDifference(h: HashFn, v: State, days: seq<Footage>, sealed: seq<seq<Digest>>,
                                          from: nat) returns (k: nat)
    requires |days| == |sealed| && from <= |days|
    requires forall i :: 0 <= i < from ==> SameAsSealed(h, v, days[i], sealed[i])
    ensures FirstDifference(h, v, days, sealed, k)
    decreases |days| - from
  {
    hide SameAsSealed;
    k := from;
    if from < |days| && SameAsSealed(h, v, days[from], sealed[from]) {
      k := FindDifference(h, v, days, sealed, from + 1);
    }
  }

  lemma {:induction false} CheckDaysExact(h: HashFn, v: State, days: seq<Footage>, sealed: seq<seq<Digest>>, k: nat,
                                          i: nat, report: VerifyReport)
    requires |days| == |sealed| && i <= k && FirstDifference(h, v, days, sealed, k)
    requires forall j :: 0 <= j < |days| ==> SealedOver(h, days[j], sealed[j])
    requires CountsAsSealed(days, sealed)
    requires NoCollisions(h, v, days, sealed)
    requires report.rootsOk && report.firstBadSeq.None? && report.rootsUnchecked == 0
    ensures CheckDays(h, v, Sealer, days[i..], report).Ok?
    ensures var r := CheckDays(h, v, Sealer, days[i..], report).value;
      && r.chainOk == report.chainOk && r.days == report.days && r.rootsUnchecked == 0
      && r.rootsOk == (k == |days|)
      && r.firstBadSeq == if k == |days| then None else Some(days[k].seqNo)
    decreases |days| - i
  {
    hide CheckDay, Rederived, DayHashes, SealedOver;
    if i < |days| {
      assert SealedOver(h, days[i], sealed[i]);
      DayExact(h, v, days[i], sealed[i]);
      assert days[i..][0] == days[i] && days[i..][1..] == days[i + 1..];
      if i < k {
        assert SameAsSealed(h, v, days[i], sealed[i]);
        CheckDaysExact(h, v, days, sealed, k, i + 1, Tally(report, AnchorOf(v, days[i].seqNo)));
      }
    }
  }

  /** Everything the comparison of all days hashes. */
  function AllHashes(h: HashFn, v: State, days: seq<Footage>, sealed: seq<seq<Digest>>): set<Preimage>
    requires |days| == |sealed|
  {
    if days == [] then {}
    else
      var n := |days| - 1;
      AllHashes(h, v, days[..n], sealed[..n])
      + match Rederived(h, v, days[n])
        case Err(_) => {}
        case Ok(derived) => DayHashes(h, sealed[n], derived)
  }

  lemma {:induction false} DayHashesIncluded(h: HashFn, v: State, days: seq<Footage>, sealed: seq<seq<Digest>>, i: nat)
    requires |days| == |sealed| && i < |days| && Rederived(h, v, days[i]).Ok?
    ensures DayHashes(h, sealed[i], Rederived(h, v, days[i]).value) <= AllHashes(h, v, days, sealed)
  {
    hide Rederived, DayHashes;
    var n := |days| - 1;
    if i < n {
      DayHashesIncluded(h, v, days[..n], sealed[..n], i);
    }
  }

  lemma CollidesGrows(h: HashFn, a: set<Preimage>, b: set<Preimage>)
    requires a <= b
    ensures Collides(h, a) ==> Collides(h, b)
  {
    if Collides(h, a) {
      var p, q :| p in a && q in a && p != q && h(p) == h(q);
      assert p in b && q in b;
    }
  }

  /** Exactness of the root check on the sealing device. Quests, leaf rows and anchors
      may hold anything. Given an intact chain whose days have the roots and the counts
      of the leaf lists `sealed`, and a re-derivation that succeeds, `verify` says
      `roots_ok` if and only if every day's re-derived digests are the set that was
      sealed; otherwise it names the earliest day that differs. The alternative is a
      hash collision among the nodes of the trees compared. */
  lemma RootCheckExact(h: HashFn, genesis: Digest, v: State, sealed: seq<seq<Digest>>)
    requires VerdictFrom(h, genesis, 1, Records(v.footage)).Ok?
    requires |sealed| == |v.footage|
    requires forall i :: 0 <= i < |sealed| ==> SealedOver(h, v.footage[i], sealed[i])
    requires CountsAsSealed(v.footage, sealed) && Derivable(h, v)
    ensures
      || Collides(h, AllHashes(h, v, v.footage, sealed))
      || (Verified(h, genesis, Sealer, v).Ok?
          && var r := Verified(h, genesis, Sealer, v).value;
             && r.chainOk && r.rootsUnchecked == 0
             && (r.rootsOk <==> AllAsSealed(h, v, sealed))
             && (!r.rootsOk ==> exists k :: 0 <= k < |sealed| && FirstDifference(h, v, v.footage, sealed, k)
                                            && r.firstBadSeq == Some(k + 1)))
  {
    hide Rederived, DayHashes, CheckDays, SealedOver, Intact, VerdictFrom, Collides, SameAsSealed;
    if !Collides(h, AllHashes(h, v, v.footage, sealed)) {
      forall i | 0 <= i < |v.footage|
        ensures Rederived(h, v, v.footage[i]).Ok?
        ensures !Collides(h, DayHashes(h, sealed[i], Rederived(h, v, v.footage[i]).value))
      {
        DayHashesIncluded(h, v, v.footage, sealed, i);
        CollidesGrows(h, DayHashes(h, sealed[i], Rederived(h, v, v.footage[i]).value),
            AllHashes(h, v, v.footage, sealed));
      }
      var k := FindDifference(h, v, v.footage, sealed, 0);
      CheckDaysExact(h, v, v.footage, sealed, k, 0, CleanReport(|v.footage|));
      assert v.footage[0..] == v.footage;
      VerdictExact(h, genesis, Records(v.footage));
      SeqNumbers(h, genesis, v.footage);
    }
  }

  // --- the count is the exact condition -----------------------------------------------------------------

  /** A clean report on a sealing device means every day was checked and matched. */
  lemma {:induction false} CleanMeansGood(h: HashFn, v: State, days: seq<Footage>, report: VerifyReport)
    requires CheckDays(h, v, Sealer, days, report).Ok? && CheckDays(h, v, Sealer, days, report).value.rootsOk
    ensures forall i :: 0 <= i < |days| ==> CheckDay(h, v, Sealer, days[i]) == Ok(Good)
    decreases |days|
  {
    hide Rederived, RootOfSet;
    if days != [] {
      var outcome := CheckDay(h, v, Sealer, days[0]);
      assert outcome == Ok(Good);
      CleanMeansGood(h, v, days[1..], Tally(report, AnchorOf(v, days[0].seqNo)));
      forall i | 0 <= i < |days|
        ensures CheckDay(h, v, Sealer, days[i]) == Ok(Good)
      {
        if i > 0 {
          assert days[i] == days[1..][i - 1];
        }
      }
    }
  }

  ghost predicate Derivable(h: HashFn, v: State) {
    forall i :: 0 <= i < |v.footage| ==> Rederived(h, v, v.footage[i]).Ok?
  }

  ghost predicate AllAsSealed(h: HashFn, v: State, sealed: seq<seq<Digest>>) {
    |sealed| == |v.footage| && forall i :: 0 <= i < |sealed| ==> SameAsSealed(h, v, v.footage[i], sealed[i])
  }

  ghost predicate RootsOk(h: HashFn, genesis: Digest, v: State) {
    Verified(h, genesis, Sealer, v).Ok? && Verified(h, genesis, Sealer, v).value.rootsOk
  }

  /** On this store the root check says exactly whether it holds what was sealed. */
  ghost predicate ExactOn(h: HashFn, genesis: Digest, v: State, sealed: seq<seq<Digest>>)
    requires |sealed| == |v.footage|
  {
    Collides(h, AllHashes(h, v, v.footage, sealed)) || (RootsOk(h, genesis, v) <==> AllAsSealed(h, v, sealed))
  }

  /** Take a store that holds what was sealed, on an intact chain. The root check is exact
      for every other content of its tables, if and only if every day's count is the
      number of leaves it was sealed over. */
  lemma CountIsTheCondition(h: HashFn, genesis: Digest, v: State, sealed: seq<seq<Digest>>)
    requires VerdictFrom(h, genesis, 1, Records(v.footage)).Ok?
    requires AllAsSealed(h, v, sealed)
    requires forall i :: 0 <= i < |sealed| ==> SealedOver(h, v.footage[i], sealed[i])
    ensures
      || Collides(h, AllHashes(h, v, v.footage, sealed))
      || (CountsAsSealed(v.footage, sealed)
          <==> forall w: State :: w.footage == v.footage && Derivable(h, w) ==> ExactOn(h, genesis, w, sealed))
  {
    hide Rederived, CheckDay, CheckDays, VerdictFrom, Collides, AllHashes;
    if CountsAsSealed(v.footage, sealed) {
      forall w: State | w.footage == v.footage && Derivable(h, w)
        ensures ExactOn(h, genesis, w, sealed)
      {
        RootCheckExact(h, genesis, w, sealed);
      }
    } else if forall w: State :: w.footage == v.footage && Derivable(h, w) ==> ExactOn(h, genesis, w, sealed) {
      assert Derivable(h, v);
      assert ExactOn(h, genesis, v, sealed);
      if RootsOk(h, genesis, v) {
        CleanMeansGood(h, v, v.footage, CleanReport(|v.footage|));
        var i :| 0 <= i < |sealed| && v.footage[i].leafCount != |sealed[i]|;
        EditedCountIsBad(h, v, v.footage[i], sealed[i]);
        assert false;
      }
    }
  }

  /** And a broken chain is reported as such, at the record that breaks it, with nothing
      else looked at. */
  lemma BrokenChainReported(h: HashFn, genesis: Digest, role: Role, v: State)
    requires VerdictFrom(h, genesis, 1, Records(v.footage)).Err?
    ensures exists k :: (0 <= k < |v.footage| && Intact(h, genesis, Records(v.footage)[..k])
                         && !Follows(h, genesis, Records(v.footage), k)
                         && Verified(h, genesis, role, v) ==
                              Ok(VerifyReport(|v.footage|, false, true, 0, Some(v.footage[k].seqNo), 0, 0)))
  {
    hide Intact, Follows;
    VerdictExact(h, genesis, Records(v.footage));
  }
}
