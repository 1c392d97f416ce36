/** Every run of a vault verifies, and what a day committed to never changes.

    The sealing routine and the verifier build a day's leaves by different queries:
    one selects what is *not yet* committed, the other what is committed *to this day*,
    after any number of later operations. These laws say the two never disagree. */
module VaultLaws {
  import opened Basics
  import opened Hashing
  import opened Merkle
  import opened MerkleLaws
  import opened Calendar
  import opened Chain
  import opened Leaves
  import opened Vault

  // --- row by row ------------------------------------------------------------------------------

  /** What one row contributes to the quest leaves carrying a stamp. */
  function QuestShare(h: HashFn, r: QuestRow, stamp: Option<nat>): Option<Digest> {
    if r.committedSeq == stamp then Some(h(QuestPreimage(r.quest))) else None
  }

  function VerdictShare(h: HashFn, r: QuestRow, stamp: Option<nat>): Option<Result<Digest, SealError>> {
    if r.status == Answered && r.verdictCommittedSeq == stamp then Some(VerdictDigest(h, r)) else None
  }

  ghost predicate SameShares(h: HashFn, a: seq<QuestRow>, s: Option<nat>, b: seq<QuestRow>, t: Option<nat>) {
    |a| == |b| && forall i :: 0 <= i < |a| ==>
      QuestShare(h, a[i], s) == QuestShare(h, b[i], t) && VerdictShare(h, a[i], s) == VerdictShare(h, b[i], t)
  }

  ghost predicate SameShare(h: HashFn, a: QuestRow, b: QuestRow, stamp: Option<nat>) {
    QuestShare(h, a, stamp) == QuestShare(h, b, stamp) && VerdictShare(h, a, stamp) == VerdictShare(h, b, stamp)
  }

  lemma {:induction false} SameQuestLeaves(h: HashFn, a: seq<QuestRow>, s: Option<nat>, b: seq<QuestRow>,
                                           t: Option<nat>)
    requires SameShares(h, a, s, b, t)
    ensures QuestLeaves(h, QuestsStamped(a, s)) == QuestLeaves(h, QuestsStamped(b, t))
  {
    hide QuestPreimage, VerdictDigest;
    if a != [] {
      SharesTail(h, a, s, b, t);
      SameQuestLeaves(h, a[1..], s, b[1..], t);
      QuestLeavesStep(h, a, s);
      QuestLeavesStep(h, b, t);
    }
  }

  lemma SharesTail(h: HashFn, a: seq<QuestRow>, s: Option<nat>, b: seq<QuestRow>, t: Option<nat>)
    requires SameShares(h, a, s, b, t) && a != []
    ensures SameShares(h, a[1..], s, b[1..], t)
  {
    hide QuestShare, VerdictShare;
  }

  lemma QuestLeavesStep(h: HashFn, rows: seq<QuestRow>, stamp: Option<nat>)
    requires rows != []
    ensures QuestLeaves(h, QuestsStamped(rows, stamp)) ==
      (match QuestShare(h, rows[0], stamp) case Some(d) => [d] case None => [])
      + QuestLeaves(h, QuestsStamped(rows[1..], stamp))
  {
    hide QuestPreimage;
    var rest := QuestsStamped(rows[1..], stamp);
    assert ([rows[0]] + rest)[1..] == rest;
  }

  function Joined(first: Option<Result<Digest, SealError>>, rest: Result<seq<Digest>, SealError>)
    : Result<seq<Digest>, SealError>
  {
    match first
    case None => rest
    case Some(Err(e)) => Err(e)
    case Some(Ok(d)) => if rest.Err? then rest else Ok([d] + rest.value)
  }

  lemma VerdictLeavesStep(h: HashFn, rows: seq<QuestRow>, stamp: Option<nat>)
    requires rows != []
    ensures VerdictLeaves(h, VerdictsStamped(rows, stamp)) ==
      Joined(VerdictShare(h, rows[0], stamp), VerdictLeaves(h, VerdictsStamped(rows[1..], stamp)))
  {
    hide VerdictDigest;
    var rest := VerdictsStamped(rows[1..], stamp);
    assert ([rows[0]] + rest)[1..] == rest;
  }

  lemma {:induction false} SameVerdictLeaves(h: HashFn, a: seq<QuestRow>, s: Option<nat>, b: seq<QuestRow>,
                                             t: Option<nat>)
    requires SameShares(h, a, s, b, t)
    ensures VerdictLeaves(h, VerdictsStamped(a, s)) == VerdictLeaves(h, VerdictsStamped(b, t))
  {
    hide QuestPreimage, VerdictDigest;
    if a != [] {
      SharesTail(h, a, s, b, t);
      SameVerdictLeaves(h, a[1..], s, b[1..], t);
      VerdictLeavesStep(h, a, s);
      VerdictLeavesStep(h, b, t);
    }
  }

  lemma SameActivity(h: HashFn, a: seq<QuestRow>, s: Option<nat>, b: seq<QuestRow>, t: Option<nat>)
    requires SameShares(h, a, s, b, t)
    ensures ActivityLeaves(h, a, s) == ActivityLeaves(h, b, t)
  {
    SameQuestLeaves(h, a, s, b, t);
    SameVerdictLeaves(h, a, s, b, t);
  }

  // --- the invariant ----------------------------------------------------------------------------

  /** The primary key holds: ids strictly ascend. */
  ghost predicate IdsAscend(rows: seq<QuestRow>) {
    forall i, j :: 0 <= i < j < |rows| ==> rows[i].quest.issued.id < rows[j].quest.issued.id
  }

  predicate RowSane(r: QuestRow, days: nat) {
    && (r.committedSeq.Some? ==> 1 <= r.committedSeq.value <= days)
    && (r.verdictCommittedSeq.Some? ==> 1 <= r.verdictCommittedSeq.value <= days && r.status == Answered)
  }

  ghost predicate RowsSane(rows: seq<QuestRow>, days: nat) {
    forall i :: 0 <= i < |rows| ==> RowSane(rows[i], days)
  }

  ghost predicate DaysGood(h: HashFn, v: State) {
    forall i :: 0 <= i < |v.footage| ==> CheckDay(h, v, Sealer, v.footage[i]) == Ok(Good)
  }

  /** What holds of a vault in every state it can reach. */
  ghost predicate Sound(h: HashFn, genesis: Digest, v: State) {
    && Intact(h, genesis, Records(v.footage))
    && DaysGood(h, v)
    && IdsAscend(v.quests)
    && RowsSane(v.quests, |v.footage|)
  }

  // --- which rows a seal stamps ---------------------------------------------------------------------

  lemma {:induction false} AwaitingExact(rows: seq<QuestRow>, i: nat)
    requires IdsAscend(rows) && i < |rows|
    ensures rows[i].quest.issued.id in Ids(QuestsStamped(rows, None)) <==> rows[i].committedSeq.None?
    ensures rows[i].quest.issued.id in Ids(VerdictsStamped(rows, None))
       <==> rows[i].status == Answered && rows[i].verdictCommittedSeq.None?
  {
    var id := rows[i].quest.issued.id;
    QuestsFrom(rows, None);
    VerdictsFrom(rows, None);
    var qs, vs := QuestsStamped(rows, None), VerdictsStamped(rows, None);
    if id in Ids(qs) {
      var k :| 0 <= k < |qs| && qs[k].quest.issued.id == id;
      SameIdSameRow(rows, qs[k], i);
    }
    if id in Ids(vs) {
      var k :| 0 <= k < |vs| && vs[k].quest.issued.id == id;
      SameIdSameRow(rows, vs[k], i);
    }
    if rows[i].committedSeq.None? {
      var k :| 0 <= k < |qs| && qs[k] == rows[i];
      assert Ids(qs)[k] == id;
    }
    if rows[i].status == Answered && rows[i].verdictCommittedSeq.None? {
      var k :| 0 <= k < |vs| && vs[k] == rows[i];
      assert Ids(vs)[k] == id;
    }
  }

  lemma SameIdSameRow(rows: seq<QuestRow>, r: QuestRow, i: nat)
    requires IdsAscend(rows) && i < |rows| && r in rows && r.quest.issued.id == rows[i].quest.issued.id
    ensures r == rows[i]
  {
  }

  /** The query returns exactly the rows with the stamp. */
  lemma {:induction false} QuestsFrom(rows: seq<QuestRow>, stamp: Option<nat>)
    ensures forall r :: r in QuestsStamped(rows, stamp) <==> r in rows && r.committedSeq == stamp
  {
    if rows != [] {
      QuestsFrom(rows[1..], stamp);
      assert rows == [rows[0]] + rows[1..];
    }
  }

  lemma {:induction false} VerdictsFrom(rows: seq<QuestRow>, stamp: Option<nat>)
    ensures forall r :: r in VerdictsStamped(rows, stamp) <==>
      r in rows && r.status == Answered && r.verdictCommittedSeq == stamp
  {
    if rows != [] {
      VerdictsFrom(rows[1..], stamp);
      assert rows == [rows[0]] + rows[1..];
    }
  }

  /** The rows after a seal at `seqNo`. */
  function Stamped(rows: seq<QuestRow>, seqNo: nat): seq<QuestRow> {
    MarkCommitted(rows, seqNo, Ids(QuestsStamped(rows, None)), Ids(VerdictsStamped(rows, None)))
  }

  predicate StampedFrom(r: QuestRow, out: QuestRow, seqNo: nat) {
    out == r.(committedSeq := if r.committedSeq.None? then Some(seqNo) else r.committedSeq,
              verdictCommittedSeq := if r.status == Answered && r.verdictCommittedSeq.None? then Some(seqNo)
                                     else r.verdictCommittedSeq)
  }

  lemma StampedExact(rows: seq<QuestRow>, seqNo: nat)
    requires IdsAscend(rows)
    ensures |Stamped(rows, seqNo)| == |rows|
    ensures forall i :: 0 <= i < |rows| ==> StampedFrom(rows[i], Stamped(rows, seqNo)[i], seqNo)
  {
    forall i | 0 <= i < |rows|
      ensures StampedFrom(rows[i], Stamped(rows, seqNo)[i], seqNo)
    {
      AwaitingExact(rows, i);
    }
  }

  /** What the seal took is what the verifier will find under the new stamp, and no
      earlier day's share moves. */
  lemma StampedActivity(h: HashFn, rows: seq<QuestRow>, days: nat, seqNo: nat)
    requires IdsAscend(rows) && RowsSane(rows, days) && seqNo == days + 1
    ensures ActivityLeaves(h, Stamped(rows, seqNo), Some(seqNo)) == ActivityLeaves(h, rows, None)
    ensures forall m :: 1 <= m <= days ==>
      ActivityLeaves(h, Stamped(rows, seqNo), Some(m)) == ActivityLeaves(h, rows, Some(m))
    ensures IdsAscend(Stamped(rows, seqNo)) && RowsSane(Stamped(rows, seqNo), seqNo)
  {
    StampedExact(rows, seqNo);
    var out := Stamped(rows, seqNo);
    forall i | 0 <= i < |rows|
      ensures RowSane(out[i], seqNo) && out[i].quest == rows[i].quest
      ensures QuestShare(h, out[i], Some(seqNo)) == QuestShare(h, rows[i], None)
      ensures VerdictShare(h, out[i], Some(seqNo)) == VerdictShare(h, rows[i], None)
      ensures forall m :: 1 <= m <= days ==> SameShare(h, out[i], rows[i], Some(m))
    {
      assert StampedFrom(rows[i], out[i], seqNo) && RowSane(rows[i], days);
      StampKeepsShares(h, rows[i], out[i], days, seqNo);
    }
    SameActivity(h, out, Some(seqNo), rows, None);
    forall m | 1 <= m <= days
      ensures ActivityLeaves(h, out, Some(m)) == ActivityLeaves(h, rows, Some(m))
    {
      SameActivity(h, out, Some(m), rows, Some(m));
    }
  }

  lemma StampKeepsShares(h: HashFn, r: QuestRow, out: QuestRow, days: nat, seqNo: nat)
    requires StampedFrom(r, out, seqNo) && RowSane(r, days) && seqNo == days + 1
    ensures RowSane(out, seqNo) && out.quest == r.quest
    ensures QuestShare(h, out, Some(seqNo)) == QuestShare(h, r, None)
    ensures VerdictShare(h, out, Some(seqNo)) == VerdictShare(h, r, None)
    ensures forall m :: 1 <= m <= days ==> SameShare(h, out, r, Some(m))
  {
  }

  // --- operations that leave the sealed days alone ------------------------------------------------------

  /** The day's leaves, re-derived, are the same in both states. */
  ghost predicate DaysFrozen(h: HashFn, v: State, w: State) {
    && |v.footage| <= |w.footage| && w.footage[..|v.footage|] == v.footage
    && forall i :: 0 <= i < |v.footage| ==> Rederived(h, w, v.footage[i]) == Rederived(h, v, v.footage[i])
  }

  ghost predicate SameLeaves(h: HashFn, a: seq<QuestRow>, b: seq<QuestRow>, stamp: Option<nat>) {
    && QuestLeaves(h, QuestsStamped(a, stamp)) == QuestLeaves(h, QuestsStamped(b, stamp))
    && VerdictLeaves(h, VerdictsStamped(a, stamp)) == VerdictLeaves(h, VerdictsStamped(b, stamp))
  }

  lemma SameAfterHead(h: HashFn, a: seq<QuestRow>, b: seq<QuestRow>, stamp: Option<nat>)
    requires a != [] && b != [] && a[0] == b[0] && SameLeaves(h, a[1..], b[1..], stamp)
    ensures SameLeaves(h, a, b, stamp)
  {
    hide QuestShare, VerdictShare;
    QuestLeavesStep(h, a, stamp);
    QuestLeavesStep(h, b, stamp);
    VerdictLeavesStep(h, a, stamp);
    VerdictLeavesStep(h, b, stamp);
  }

  /** A fresh quest joins no sealed day. */
  lemma {:induction false} InsertedQuestShares(h: HashFn, rows: seq<QuestRow>, q: Quest, seqNo: nat)
    requires InsertQuest(rows, q).Some?
    ensures SameLeaves(h, InsertQuest(rows, q).value, rows, Some(seqNo))
  {
    hide QuestPreimage, VerdictDigest;
    var out := InsertQuest(rows, q).value;
    if rows == [] || q.issued.id < rows[0].quest.issued.id {
      assert out[1..] == rows;
      QuestLeavesStep(h, out, Some(seqNo));
      VerdictLeavesStep(h, out, Some(seqNo));
    } else {
      InsertedQuestShares(h, rows[1..], q, seqNo);
      assert out[1..] == InsertQuest(rows[1..], q).value;
      SameAfterHead(h, out, rows, Some(seqNo));
    }
  }

  lemma {:induction false} InsertedQuestSane(rows: seq<QuestRow>, q: Quest, days: nat)
    requires InsertQuest(rows, q).Some? && IdsAscend(rows) && RowsSane(rows, days)
    ensures IdsAscend(InsertQuest(rows, q).value) && RowsSane(InsertQuest(rows, q).value, days)
    ensures forall r :: r in InsertQuest(rows, q).value ==> r in rows || r == QuestRow(q, Open, None, None, None)
    ensures forall r :: r in rows ==> r in InsertQuest(rows, q).value
    ensures InsertQuest(rows, q).value != []
    ensures InsertQuest(rows, q).value[0].quest.issued.id ==
      if rows == [] || q.issued.id < rows[0].quest.issued.id then q.issued.id else rows[0].quest.issued.id
  {
    if rows != [] && q.issued.id > rows[0].quest.issued.id {
      var rest := InsertQuest(rows[1..], q).value;
      InsertedQuestSane(rows[1..], q, days);
      HeadAscends(rows[0], rest);
      assert rows == [rows[0]] + rows[1..];
    }
  }

  lemma HeadAscends(r: QuestRow, rest: seq<QuestRow>)
    requires IdsAscend(rest) && rest != [] && r.quest.issued.id < rest[0].quest.issued.id
    ensures IdsAscend([r] + rest)
  {
  }

  /** Answering an open quest, or expiring one, moves no share of a sealed day. */
  lemma AnsweredShares(h: HashFn, rows: seq<QuestRow>, i: nat, verdict: Verdict, now: i64, days: nat)
    requires i < |rows| && IdsAscend(rows) && RowsSane(rows, days) && rows[i].status == Open
    ensures var out := rows[i := AnswerRow(rows[i], verdict, now)];
      IdsAscend(out) && RowsSane(out, days)
      && forall m :: ActivityLeaves(h, out, Some(m)) == ActivityLeaves(h, rows, Some(m))
  {
    var out := rows[i := AnswerRow(rows[i], verdict, now)];
    assert RowSane(rows[i], days);
    QuestLeafBinds(rows[i].quest, out[i].quest);
    hide QuestPreimage, VerdictDigest;
    forall m
      ensures ActivityLeaves(h, out, Some(m)) == ActivityLeaves(h, rows, Some(m))
    {
      SameActivity(h, out, Some(m), rows, Some(m));
    }
  }

  lemma ExpiredShares(h: HashFn, rows: seq<QuestRow>, now: i64, days: nat)
    requires IdsAscend(rows) && RowsSane(rows, days)
    ensures IdsAscend(ExpireRows(rows, now)) && RowsSane(ExpireRows(rows, now), days)
    ensures forall m :: ActivityLeaves(h, ExpireRows(rows, now), Some(m)) == ActivityLeaves(h, rows, Some(m))
  {
    hide QuestPreimage, VerdictDigest;
    var out := ExpireRows(rows, now);
    forall j | 0 <= j < |rows|
      ensures out[j].quest == rows[j].quest && RowSane(out[j], days)
    {
      assert RowSane(rows[j], days);
    }
    forall m
      ensures ActivityLeaves(h, out, Some(m)) == ActivityLeaves(h, rows, Some(m))
    {
      SameActivity(h, out, Some(m), rows, Some(m));
    }
  }
}
