/** Safety over whole runs: from a fresh vault, after any operations in any order, the
    verifier reports a clean history; every quest and verdict is committed at most once
    and no later operation moves what a sealed day committed to. */
module VaultRuns {
  import opened Basics
  import opened Hashing
  import opened Merkle
  import opened MerkleLaws
  import opened Calendar
  import opened Chain
  import opened Leaves
  import opened Vault
  import opened VaultLaws

  // --- runs ----------------------------------------------------------------------------------

  datatype Op =
    | StoreMemory(m: Memory)
    | Shred(id: Uuid)
    | Issue(q: Quest)
    | Answer(id: Uuid, verdict: Verdict, now: i64, slotId: Uuid, slotSalt: Salt, commitmentOk: bool)
    | Expire(now: i64)
    | SealDay(date: Date, tz: TzName, start: i64, end: i64, version: Version, draftOk: bool)
    | Anchor(seqNo: nat, state: AnchorState)

  function OrElse<T>(o: Option<T>, fallback: T): T {
    if o.Some? then o.value else fallback
  }

  /** One operation on the sealing device; one that fails leaves what it leaves. */
  function Apply(h: HashFn, genesis: Digest, v: State, op: Op): State {
    match op
    case StoreMemory(m) => OrElse(PutMemory(v, m), v)
    case Shred(id) => v.(memories := ShredRows(v.memories, id))
    case Issue(q) => OrElse(IssueQuest(v, q), v)
    case Answer(id, verdict, now, slotId, slotSalt, ok) => AnswerQuest(v, id, verdict, now, slotId, slotSalt, ok).1
    case Expire(now) => v.(quests := ExpireRows(v.quests, now))
    case SealDay(date, tz, start, end, version, draftOk) =>
      (match Seal(h, genesis, Sealer, v, date, tz, start, end, version, draftOk)
       case Ok(w) => w
       case Err(_) => v)
    case Anchor(seqNo, state) => v.(anchors := v.anchors[seqNo := state])
  }

  function Run(h: HashFn, genesis: Digest, v: State, ops: seq<Op>): State
    decreases |ops|
  {
    if ops == [] then v else Run(h, genesis, Apply(h, genesis, v, ops[0]), ops[1..])
  }

  // --- every operation keeps the invariant and freezes the sealed days ----------------------------

  lemma SameDay(h: HashFn, v: State, w: State, f: Footage)
    requires LeavesOf(w, f.seqNo) == LeavesOf(v, f.seqNo)
    requires ActivityLeaves(h, w.quests, Some(f.seqNo)) == ActivityLeaves(h, v.quests, Some(f.seqNo))
    ensures Rederived(h, w, f) == Rederived(h, v, f)
    ensures CheckDay(h, w, Sealer, f) == CheckDay(h, v, Sealer, f)
  {
    hide ActivityLeaves, RootOfSet, MetaDigest;
  }

  /** Same footage, same leaf rows, same activity on every sealed day. */
  lemma UntouchedDays(h: HashFn, genesis: Digest, v: State, w: State)
    requires Sound(h, genesis, v)
    requires w.footage == v.footage && w.leaves == v.leaves
    requires IdsAscend(w.quests) && RowsSane(w.quests, |w.footage|)
    requires forall i :: 0 <= i < |v.footage| ==>
      ActivityLeaves(h, w.quests, Some(v.footage[i].seqNo)) == ActivityLeaves(h, v.quests, Some(v.footage[i].seqNo))
    ensures Sound(h, genesis, w) && DaysFrozen(h, v, w)
  {
    hide ActivityLeaves, Rederived, CheckDay, Intact;
    forall i | 0 <= i < |v.footage|
      ensures Rederived(h, w, v.footage[i]) == Rederived(h, v, v.footage[i])
      ensures CheckDay(h, w, Sealer, v.footage[i]) == Ok(Good)
    {
      assert CheckDay(h, v, Sealer, v.footage[i]) == Ok(Good);
      SameDay(h, v, w, v.footage[i]);
    }
    assert w.footage[..|v.footage|] == v.footage;
  }

  lemma SeqNumbers(h: HashFn, genesis: Digest, footage: seq<Footage>)
    requires Intact(h, genesis, Records(footage))
    ensures forall i :: 0 <= i < |footage| ==> footage[i].seqNo == i + 1
    ensures TipSeq(footage) == |footage|
    ensures TipLink(genesis, footage) == if footage == [] then genesis else Records(footage)[|footage| - 1].link
  {
    hide LinkOf;
    forall i | 0 <= i < |footage|
      ensures footage[i].seqNo == i + 1
    {
      assert Follows(h, genesis, Records(footage), i);
    }
  }

  lemma IssueKeeps(h: HashFn, genesis: Digest, v: State, q: Quest)
    requires Sound(h, genesis, v) && IssueQuest(v, q).Some?
    ensures Sound(h, genesis, IssueQuest(v, q).value) && DaysFrozen(h, v, IssueQuest(v, q).value)
  {
    var w := IssueQuest(v, q).value;
    InsertedQuestSane(v.quests, q, |v.footage|);
    forall i | 0 <= i < |v.footage|
      ensures ActivityLeaves(h, w.quests, Some(v.footage[i].seqNo)) ==
          ActivityLeaves(h, v.quests, Some(v.footage[i].seqNo))
    {
      InsertedQuestShares(h, v.quests, q, v.footage[i].seqNo);
    }
    UntouchedDays(h, genesis, v, w);
  }

  lemma AnswerKeeps(h: HashFn, genesis: Digest, v: State, id: Uuid, verdict: Verdict, now: i64, slotId: Uuid,
                    slotSalt: Salt, ok: bool)
    requires Sound(h, genesis, v)
    ensures var w := AnswerQuest(v, id, verdict, now, slotId, slotSalt, ok).1;
            Sound(h, genesis, w) && DaysFrozen(h, v, w)
  {
    hide Rederived, DaysGood, Intact, ActivityLeaves, DaysFrozen;
    var w := AnswerQuest(v, id, verdict, now, slotId, slotSalt, ok).1;
    AnswerShape(v, id, verdict, now, slotId, slotSalt, ok);
    if w.quests != v.quests {
      AnsweredShares(h, v.quests, FindQuest(v.quests, id).value, verdict, now, |v.footage|);
    }
    UntouchedDays(h, genesis, v, w);
  }

  /** An answer touches one open row, and the memories. */
  lemma AnswerShape(v: State, id: Uuid, verdict: Verdict, now: i64, slotId: Uuid, slotSalt: Salt, ok: bool)
    ensures var w := AnswerQuest(v, id, verdict, now, slotId, slotSalt, ok).1;
      && w.footage == v.footage && w.leaves == v.leaves
      && (w.quests == v.quests
          || (FindQuest(v.quests, id).Some? && FindQuest(v.quests, id).value < |v.quests|
              && var i := FindQuest(v.quests, id).value;
                 v.quests[i].status == Open && w.quests == v.quests[i := AnswerRow(v.quests[i], verdict, now)]))
  {
    FindQuestInRange(v.quests, id);
  }

  /** What a successful seal changes: one more day, its leaf rows, the stamps. */
  lemma SealShape(h: HashFn, genesis: Digest, v: State, date: Date, tz: TzName, start: i64, end: i64,
                  version: Version, draftOk: bool)
    requires Intact(h, genesis, Records(v.footage))
    requires Seal(h, genesis, Sealer, v, date, tz, start, end, version, draftOk).Ok?
    ensures var w := Seal(h, genesis, Sealer, v, date, tz, start, end, version, draftOk).value;
      && |w.footage| == |v.footage| + 1 && w.footage[..|v.footage|] == v.footage
      && w.quests == (if version == MemoriesOnly then v.quests else Stamped(v.quests, |v.footage| + 1))
      && forall m :: m != |v.footage| + 1 ==> LeavesOf(w, m) == LeavesOf(v, m)
  {
    hide MarkCommitted, LinkPreimage, Window, BuildRoot, Intact;
    SeqNumbers(h, genesis, v.footage);
  }

  /** The day a successful seal appends. */
  lemma SealedDay(h: HashFn, genesis: Digest, v: State, date: Date, tz: TzName, start: i64, end: i64,
                  version: Version, draftOk: bool)
    requires Intact(h, genesis, Records(v.footage))
    requires Seal(h, genesis, Sealer, v, date, tz, start, end, version, draftOk).Ok?
    ensures var w := Seal(h, genesis, Sealer, v, date, tz, start, end, version, draftOk).value;
      && |w.footage| == |v.footage| + 1 && |v.footage| < MAX_SEQ
      && var f := w.footage[|v.footage|];
         var built := BuildRoot(h, v, Window(v.memories, start, end), version, |v.footage| + 1, date, tz);
      && f.seqNo == |v.footage| + 1 && f.date == date && f.tz == tz && f.version == version
      && built.Ok? && f.root == built.value.root && f.leafCount == built.value.count
      && LeavesOf(w, f.seqNo) == built.value.leaves
      && f.prevLink == TipLink(genesis, v.footage) && f.link == LinkOf(h, RecordOf(f))
  {
    hide MarkCommitted, LinkPreimage, Window, BuildRoot, Intact;
    SeqNumbers(h, genesis, v.footage);
  }

  /** The digests the seal hashed are, element by element, those the verifier derives. */
  lemma SealedDayRederives(h: HashFn, genesis: Digest, v: State, date: Date, tz: TzName, start: i64, end: i64,
                           version: Version, draftOk: bool)
    requires Sound(h, genesis, v)
    requires Seal(h, genesis, Sealer, v, date, tz, start, end, version, draftOk).Ok?
    ensures var w := Seal(h, genesis, Sealer, v, date, tz, start, end, version, draftOk).value;
      && |w.footage| == |v.footage| + 1 && |v.footage| < MAX_SEQ
      && w.footage[|v.footage|].seqNo == |v.footage| + 1
      && Rederived(h, w, w.footage[|v.footage|]) ==
           DayLeaves(h, v, Window(v.memories, start, end), version, |v.footage| + 1, date, tz)
      && CheckDay(h, w, Sealer, w.footage[|v.footage|]) == Ok(Good)
  {
    hide Seal, ActivityLeaves, RootOfSet, Stamped, MemoryLeaves, MetaDigest, Window, Intact, LeavesOf, LinkOf;
    SealShape(h, genesis, v, date, tz, start, end, version, draftOk);
    SealedDay(h, genesis, v, date, tz, start, end, version, draftOk);
    StampedActivity(h, v.quests, |v.footage|, |v.footage| + 1);
  }

  lemma SealKeepsEarlier(h: HashFn, genesis: Digest, v: State, date: Date, tz: TzName, start: i64, end: i64,
                         version: Version, draftOk: bool, i: nat)
    requires Sound(h, genesis, v) && i < |v.footage|
    requires Seal(h, genesis, Sealer, v, date, tz, start, end, version, draftOk).Ok?
    ensures var w := Seal(h, genesis, Sealer, v, date, tz, start, end, version, draftOk).value;
      && i < |w.footage| && w.footage[i] == v.footage[i]
      && Rederived(h, w, v.footage[i]) == Rederived(h, v, v.footage[i])
      && CheckDay(h, w, Sealer, v.footage[i]) == Ok(Good)
  {
    hide Seal, ActivityLeaves, LeavesOf, Stamped, CheckDay, Rederived, Intact;
    var w := Seal(h, genesis, Sealer, v, date, tz, start, end, version, draftOk).value;
    SealShape(h, genesis, v, date, tz, start, end, version, draftOk);
    SeqNumbers(h, genesis, v.footage);
    StampedActivity(h, v.quests, |v.footage|, |v.footage| + 1);
    assert CheckDay(h, v, Sealer, v.footage[i]) == Ok(Good);
    assert w.footage[i] == w.footage[..|v.footage|][i];
    SameDay(h, v, w, v.footage[i]);
  }

  lemma RowsStaySane(rows: seq<QuestRow>, days: nat)
    requires RowsSane(rows, days)
    ensures RowsSane(rows, days + 1)
  {
    assert forall i :: 0 <= i < |rows| ==> RowSane(rows[i], days);
  }

  lemma SealKeepsRows(h: HashFn, genesis: Digest, v: State, date: Date, tz: TzName, start: i64, end: i64,
                      version: Version, draftOk: bool)
    requires Sound(h, genesis, v)
    requires Seal(h, genesis, Sealer, v, date, tz, start, end, version, draftOk).Ok?
    ensures var w := Seal(h, genesis, Sealer, v, date, tz, start, end, version, draftOk).value;
      IdsAscend(w.quests) && RowsSane(w.quests, |w.footage|)
  {
    hide Seal, Stamped, ActivityLeaves, Intact, LeavesOf, IdsAscend, RowsSane, DaysGood;
    SealShape(h, genesis, v, date, tz, start, end, version, draftOk);
    StampedActivity(h, v.quests, |v.footage|, |v.footage| + 1);
    RowsStaySane(v.quests, |v.footage|);
  }

  lemma SealExtendsChain(h: HashFn, genesis: Digest, v: State, date: Date, tz: TzName, start: i64, end: i64,
                         version: Version, draftOk: bool)
    requires Intact(h, genesis, Records(v.footage))
    requires Seal(h, genesis, Sealer, v, date, tz, start, end, version, draftOk).Ok?
    ensures var w := Seal(h, genesis, Sealer, v, date, tz, start, end, version, draftOk).value;
      Intact(h, genesis, Records(w.footage))
  {
    hide Seal, Window, BuildRoot, Intact, LinkOf, LeavesOf, Stamped;
    var w := Seal(h, genesis, Sealer, v, date, tz, start, end, version, draftOk).value;
    SealShape(h, genesis, v, date, tz, start, end, version, draftOk);
    SealedDay(h, genesis, v, date, tz, start, end, version, draftOk);
    SeqNumbers(h, genesis, v.footage);
    var f := w.footage[|v.footage|];
    assert w.footage == w.footage[..|v.footage|] + [f];
    assert Records(w.footage) == Records(v.footage) + [RecordOf(f)];
    IntactExtends(h, genesis, Records(v.footage), RecordOf(f));
  }

  lemma SealKeeps(h: HashFn, genesis: Digest, v: State, date: Date, tz: TzName, start: i64, end: i64,
                  version: Version, draftOk: bool)
    requires Sound(h, genesis, v)
    requires Seal(h, genesis, Sealer, v, date, tz, start, end, version, draftOk).Ok?
    ensures var w := Seal(h, genesis, Sealer, v, date, tz, start, end, version, draftOk).value;
            Sound(h, genesis, w) && DaysFrozen(h, v, w)
  {
    hide Seal, CheckDay, Rederived, Intact, IdsAscend, RowsSane, LeavesOf, Stamped, DayLeaves, TipLink;
    var w := Seal(h, genesis, Sealer, v, date, tz, start, end, version, draftOk).value;
    SealedDayRederives(h, genesis, v, date, tz, start, end, version, draftOk);
    SealExtendsChain(h, genesis, v, date, tz, start, end, version, draftOk);
    SealKeepsRows(h, genesis, v, date, tz, start, end, version, draftOk);
    SealShape(h, genesis, v, date, tz, start, end, version, draftOk);
    forall i | 0 <= i < |v.footage|
      ensures w.footage[i] == v.footage[i] && Rederived(h, w, v.footage[i]) == Rederived(h, v, v.footage[i])
      ensures CheckDay(h, w, Sealer, w.footage[i]) == Ok(Good)
    {
      SealKeepsEarlier(h, genesis, v, date, tz, start, end, version, draftOk, i);
    }
  }

  /** One step: the invariant holds on, and every day sealed so far re-derives to the
      very same leaves. In particular, answering or expiring a quest after its day
      sealed changes nothing there. */
  lemma StepKeeps(h: HashFn, genesis: Digest, v: State, op: Op)
    requires Sound(h, genesis, v)
    ensures Sound(h, genesis, Apply(h, genesis, v, op)) && DaysFrozen(h, v, Apply(h, genesis, v, op))
  {
    hide Sound, DaysFrozen, Seal, AnswerQuest, IssueQuest, ExpireRows;
    match op {
      case StoreMemory(m) => Unrelated(h, genesis, v, Apply(h, genesis, v, op));
      case Shred(id) => Unrelated(h, genesis, v, Apply(h, genesis, v, op));
      case Anchor(_, _) => Unrelated(h, genesis, v, Apply(h, genesis, v, op));
      case Issue(q) =>
        if IssueQuest(v, q).Some? {
          IssueKeeps(h, genesis, v, q);
        } else {
          Unrelated(h, genesis, v, v);
        }
      case Answer(id, verdict, now, slotId, slotSalt, ok) =>
        AnswerKeeps(h, genesis, v, id, verdict, now, slotId, slotSalt, ok);
      case Expire(now) => ExpireKeeps(h, genesis, v, now);
      case SealDay(date, tz, start, end, version, draftOk) =>
        if Seal(h, genesis, Sealer, v, date, tz, start, end, version, draftOk).Ok? {
          SealKeeps(h, genesis, v, date, tz, start, end, version, draftOk);
        } else {
          Unrelated(h, genesis, v, v);
        }
    }
  }

  lemma ExpireKeeps(h: HashFn, genesis: Digest, v: State, now: i64)
    requires Sound(h, genesis, v)
    ensures var w := v.(quests := ExpireRows(v.quests, now)); Sound(h, genesis, w) && DaysFrozen(h, v, w)
  {
    ExpiredShares(h, v.quests, now, |v.footage|);
    UntouchedDays(h, genesis, v, v.(quests := ExpireRows(v.quests, now)));
  }

  lemma Unrelated(h: HashFn, genesis: Digest, v: State, w: State)
    requires Sound(h, genesis, v)
    requires w.footage == v.footage && w.leaves == v.leaves && w.quests == v.quests
    ensures Sound(h, genesis, w) && DaysFrozen(h, v, w)
  {
    UntouchedDays(h, genesis, v, w);
  }

  lemma FrozenTransitive(h: HashFn, u: State, v: State, w: State)
    requires DaysFrozen(h, u, v) && DaysFrozen(h, v, w)
    ensures DaysFrozen(h, u, w)
  {
    hide Rederived;
    assert w.footage[..|u.footage|] == v.footage[..|u.footage|];
    forall i | 0 <= i < |u.footage|
      ensures Rederived(h, w, u.footage[i]) == Rederived(h, u, u.footage[i])
    {
      assert v.footage[i] == v.footage[..|u.footage|][i] == u.footage[i];
    }
  }

  /** Immutability over runs: whatever follows, each sealed day keeps its footage and
      its re-derived leaves. */
  lemma {:induction false} RunKeeps(h: HashFn, genesis: Digest, v: State, ops: seq<Op>)
    requires Sound(h, genesis, v)
    ensures Sound(h, genesis, Run(h, genesis, v, ops)) && DaysFrozen(h, v, Run(h, genesis, v, ops))
    decreases |ops|
  {
    hide Sound, Apply;
    if ops == [] {
      assert v.footage[..|v.footage|] == v.footage;
    } else {
      var w := Apply(h, genesis, v, ops[0]);
      StepKeeps(h, genesis, v, ops[0]);
      RunKeeps(h, genesis, w, ops[1..]);
      FrozenTransitive(h, v, w, Run(h, genesis, w, ops[1..]));
    }
  }

  // --- the verifier on a sound vault -----------------------------------------------------------------

  /** How many of the first `n` days have their anchor in a state. */
  function AnchorCount(v: State, days: seq<Footage>, state: AnchorState): nat {
    if days == [] then 0
    else AnchorCount(v, days[1..], state) + if AnchorOf(v, days[0].seqNo) == Some(state) then 1 else 0
  }

  lemma {:induction false} GoodDaysPass(h: HashFn, v: State, days: seq<Footage>, report: VerifyReport)
    requires forall i :: 0 <= i < |days| ==> CheckDay(h, v, Sealer, days[i]) == Ok(Good)
    ensures CheckDays(h, v, Sealer, days, report) ==
      Ok(report.(anchored := report.anchored + AnchorCount(v, days, Confirmed),
                 pending := report.pending + AnchorCount(v, days, Pending)))
    decreases |days|
  {
    hide CheckDay;
    if days != [] {
      assert CheckDay(h, v, Sealer, days[0]) == Ok(Good);
      forall i | 0 <= i < |days[1..]|
        ensures CheckDay(h, v, Sealer, days[1..][i]) == Ok(Good)
      {
        assert days[1..][i] == days[i + 1];
      }
      GoodDaysPass(h, v, days[1..], Tally(report, AnchorOf(v, days[0].seqNo)));
    }
  }

  lemma FreshIsSound(h: HashFn, genesis: Digest)
    ensures Sound(h, genesis, FRESH)
  {
  }

  /** The main safety theorem. From a fresh vault, after any interleaving of storing
      and shredding memories, issuing, answering and expiring quests, anchoring, and
      sealing any dates under either commitment version, `verify` on the sealing device
      reports an intact chain, every root matching, nothing unchecked, and as many days
      as the tip's sequence number. */
  lemma EveryRunVerifies(h: HashFn, genesis: Digest, ops: seq<Op>)
    ensures var v := Run(h, genesis, FRESH, ops);
      && TipSeq(v.footage) == |v.footage|
      && Verified(h, genesis, Sealer, v) ==
           Ok(VerifyReport(TipSeq(v.footage), true, true, 0, None,
                           AnchorCount(v, v.footage, Confirmed), AnchorCount(v, v.footage, Pending)))
  {
    hide CheckDay, CheckDays, Intact, VerdictFrom, Run;
    var v := Run(h, genesis, FRESH, ops);
    FreshIsSound(h, genesis);
    RunKeeps(h, genesis, FRESH, ops);
    SeqNumbers(h, genesis, v.footage);
    VerdictExact(h, genesis, Records(v.footage));
    GoodDaysPass(h, v, v.footage, CleanReport(|v.footage|));
  }
}
