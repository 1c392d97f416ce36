/** What `verify` reports, on every device: the days it could not check, the anchors it
    counted, and where it stopped, each as a set of days. */
module VaultReport {
  import opened Basics
  import opened Hashing
  import opened Merkle
  import opened MerkleLaws
  import opened Calendar
  import opened Chain
  import opened Leaves
  import opened Vault
  import opened VaultLaws
  import opened VaultRuns
  import opened VaultExact
  import opened VaultBinding

  // --- how many leaves a store derives ------------------------------------------------------------------

  function QuestsUnder(rows: seq<QuestRow>, stamp: Option<nat>): set<int> {
    set i | 0 <= i < |rows| && rows[i].committedSeq == stamp
  }

  function VerdictsUnder(rows: seq<QuestRow>, stamp: Option<nat>): set<int> {
    set i | 0 <= i < |rows| && rows[i].status == Answered && rows[i].verdictCommittedSeq == stamp
  }

  lemma {:induction false} StampedLast(rows: seq<QuestRow>, stamp: Option<nat>)
    requires rows != []
    ensures var n := |rows| - 1;
      && QuestsStamped(rows, stamp) == QuestsStamped(rows[..n], stamp)
           + (if rows[n].committedSeq == stamp then [rows[n]] else [])
      && VerdictsStamped(rows, stamp) == VerdictsStamped(rows[..n], stamp)
           + (if rows[n].status == Answered && rows[n].verdictCommittedSeq == stamp then [rows[n]] else [])
    decreases |rows|
  {
    var n := |rows| - 1;
    if n > 0 {
      StampedLast(rows[1..], stamp);
      assert rows[1..][..n - 1] == rows[..n][1..];
    }
  }

  lemma {:induction false} StampedCounts(rows: seq<QuestRow>, stamp: Option<nat>)
    ensures |QuestsStamped(rows, stamp)| == |QuestsUnder(rows, stamp)|
    ensures |VerdictsStamped(rows, stamp)| == |VerdictsUnder(rows, stamp)|
    decreases |rows|
  {
    hide QuestsStamped, VerdictsStamped, QuestsUnder, VerdictsUnder;
    if rows == [] {
      NothingUnder(stamp);
    } else {
      var n := |rows| - 1;
      StampedLast(rows, stamp);
      StampedCounts(rows[..n], stamp);
      UnderLast(rows, stamp);
    }
  }

  lemma UnderLast(rows: seq<QuestRow>, stamp: Option<nat>)
    requires rows != []
    ensures var n := |rows| - 1;
      && |QuestsUnder(rows, stamp)| == |QuestsUnder(rows[..n], stamp)|
           + (if rows[n].committedSeq == stamp then 1 else 0)
      && |VerdictsUnder(rows, stamp)| == |VerdictsUnder(rows[..n], stamp)|
           + (if rows[n].status == Answered && rows[n].verdictCommittedSeq == stamp then 1 else 0)
  {
    var n := |rows| - 1;
    var front := rows[..n];
    QuestsLast(front, rows[n], stamp);
    VerdictsLast(front, rows[n], stamp);
    assert rows == front + [rows[n]];
  }

  lemma QuestsLast(front: seq<QuestRow>, r: QuestRow, stamp: Option<nat>)
    ensures |QuestsUnder(front + [r], stamp)| ==
            |QuestsUnder(front, stamp)| + if r.committedSeq == stamp then 1 else 0
  {
    OneMore(QuestsUnder(front, stamp), QuestsUnder(front + [r], stamp), |front|);
  }

  lemma VerdictsLast(front: seq<QuestRow>, r: QuestRow, stamp: Option<nat>)
    ensures |VerdictsUnder(front + [r], stamp)| ==
            |VerdictsUnder(front, stamp)| + if r.status == Answered && r.verdictCommittedSeq == stamp then 1 else 0
  {
    OneMore(VerdictsUnder(front, stamp), VerdictsUnder(front + [r], stamp), |front|);
  }

  /** A set that differs from another in at most one element, above all of it. */
  lemma OneMore(a: set<int>, b: set<int>, n: int)
    requires forall i :: i in a ==> i < n
    requires forall i :: i in b ==> i <= n
    requires forall i :: i < n ==> (i in a <==> i in b)
    ensures |b| == |a| + if n in b then 1 else 0
  {
    var c := if n in b then a + {n} else a;
    forall i
      ensures i in b <==> i in c
    {
      if i > n {
        assert i !in b && i !in a;
      }
    }
    assert b == c;
  }

  lemma NothingUnder(stamp: Option<nat>)
    ensures QuestsStamped([], stamp) == [] && VerdictsStamped([], stamp) == []
    ensures QuestsUnder([], stamp) == {} && VerdictsUnder([], stamp) == {}
  {
  }

  /** The leaves a store holds for a day: the metadata leaf, the stored rows and, under
      quests, the rows that carry the day's stamp. */
  function Held(v: State, f: Footage): nat {
    1 + |LeavesOf(v, f.seqNo)|
    + if f.version == MemoriesOnly then 0
      else |QuestsUnder(v.quests, Some(f.seqNo))| + |VerdictsUnder(v.quests, Some(f.seqNo))|
  }

  lemma HeldExact(h: HashFn, v: State, f: Footage)
    requires Rederived(h, v, f).Ok?
    ensures |Rederived(h, v, f).value| == Held(v, f)
  {
    hide QuestPreimage, VerdictDigest, MetaDigest, QuestsUnder, VerdictsUnder, QuestsStamped, VerdictsStamped;
    StampedCounts(v.quests, Some(f.seqNo));
    QuestLeafCount(h, QuestsStamped(v.quests, Some(f.seqNo)));
    VerdictLeafCount(h, VerdictsStamped(v.quests, Some(f.seqNo)));
  }

  // --- one day ---------------------------------------------------------------------------------------------

  /** The store does not hold as many leaves as the day records. */
  predicate Differs(v: State, f: Footage) {
    Saturate32(Held(v, f)) != f.leafCount
  }

  /** The day gives no alarm: its leaves have its root; or their number is another, on a
      replica that holds no memory rows for it. */
  predicate Passes(h: HashFn, v: State, role: Role, f: Footage) {
    && Rederived(h, v, f).Ok?
    && if Differs(v, f) then role == ReplicaDevice && LeavesOf(v, f.seqNo) == []
       else RootOfSet(h, Rederived(h, v, f).value) == Ok(f.root)
  }

  lemma PassesExact(h: HashFn, v: State, role: Role, f: Footage)
    ensures Passes(h, v, role, f) && Differs(v, f) <==> CheckDay(h, v, role, f) == Ok(Unchecked)
    ensures Passes(h, v, role, f) && !Differs(v, f) <==> CheckDay(h, v, role, f) == Ok(Good)
    ensures Rederived(h, v, f).Err? ==> CheckDay(h, v, role, f) == Err(Rederived(h, v, f).error)
    ensures Rederived(h, v, f).Ok? && !Passes(h, v, role, f) <==> CheckDay(h, v, role, f) == Ok(Bad)
  {
    hide Rederived, RootOfSet, Held, LeavesOf, Saturate32;
    if Rederived(h, v, f).Ok? {
      HeldExact(h, v, f);
    }
  }

  // --- the report ----------------------------------------------------------------------------------------

  /** Of the first `k` days, those with another number of leaves than recorded. */
  function UncheckedDays(v: State, k: nat): set<int>
    requires k <= |v.footage|
  {
    set i | 0 <= i < k && Differs(v, v.footage[i])
  }

  /** Of the first `k` days, those that were checked and have their anchor in this state. */
  function AnchoredDays(v: State, k: nat, state: AnchorState): set<int>
    requires k <= |v.footage|
  {
    set i | 0 <= i < k && !Differs(v, v.footage[i])
            && v.footage[i].seqNo in v.anchors && v.anchors[v.footage[i].seqNo] == state
  }

  /** The report after `k` days without an alarm. */
  function ReportAfter(v: State, k: nat): VerifyReport
    requires k <= |v.footage|
  {
    VerifyReport(|v.footage|, true, true, |UncheckedDays(v, k)|, None,
                 |AnchoredDays(v, k, Confirmed)|, |AnchoredDays(v, k, Pending)|)
  }

  lemma OneDayMore(v: State, k: nat)
    requires k < |v.footage|
    ensures ReportAfter(v, k + 1) ==
      if Differs(v, v.footage[k]) then ReportAfter(v, k).(rootsUnchecked := ReportAfter(v, k).rootsUnchecked + 1)
      else Tally(ReportAfter(v, k), AnchorOf(v, v.footage[k].seqNo))
  {
    hide Differs;
    OneMore(UncheckedDays(v, k), UncheckedDays(v, k + 1), k);
    OneAnchorMore(v, k, Confirmed);
    OneAnchorMore(v, k, Pending);
  }

  lemma OneAnchorMore(v: State, k: nat, state: AnchorState)
    requires k < |v.footage|
    ensures |AnchoredDays(v, k + 1, state)| == |AnchoredDays(v, k, state)|
      + if !Differs(v, v.footage[k]) && AnchorOf(v, v.footage[k].seqNo) == Some(state) then 1 else 0
  {
    hide Differs;
    OneMore(AnchoredDays(v, k, state), AnchoredDays(v, k + 1, state), k);
  }

  /** `k` is the first day that gives an alarm, or past the end. */
  ghost predicate FirstAlarm(h: HashFn, v: State, role: Role, k: nat) {
    && k <= |v.footage|
    && (forall i :: 0 <= i < k ==> Passes(h, v, role, v.footage[i]))
    && (k < |v.footage| ==> !Passes(h, v, role, v.footage[k]))
  }

  lemma {:induction false} CheckFrom(h: HashFn, v: State, role: Role, k: nat, i: nat)
    requires FirstAlarm(h, v, role, k) && i <= k
    ensures var r := CheckDays(h, v, role, v.footage[i..], ReportAfter(v, i));
      if k == |v.footage| then r == Ok(ReportAfter(v, k))
      else if Rederived(h, v, v.footage[k]).Err? then r == Err(Rederived(h, v, v.footage[k]).error)
      else r == Ok(ReportAfter(v, k).(rootsOk := false, firstBadSeq := Some(v.footage[k].seqNo)))
    decreases k - i
  {
    hide Passes, CheckDay, Rederived, ReportAfter, Differs;
    var days := v.footage[i..];
    if i < |v.footage| {
      assert days[0] == v.footage[i] && days[1..] == v.footage[i + 1..];
      PassesExact(h, v, role, v.footage[i]);
      if i < k {
        OneDayMore(v, i);
        CheckFrom(h, v, role, k, i + 1);
      }
    }
  }

  /** What `verify` reports on an intact chain, for every role and every content of the
      tables. It goes as far as the first day that gives an alarm. Up to there, the days
      counted unchecked are exactly those whose number of leaves is not the recorded one,
      and the anchors counted are those of the other days. */
  lemma VerifiedExact(h: HashFn, genesis: Digest, role: Role, v: State, k: nat)
    requires VerdictFrom(h, genesis, 1, Records(v.footage)).Ok? && FirstAlarm(h, v, role, k)
    ensures var r := Verified(h, genesis, role, v);
      if k < |v.footage| && Rederived(h, v, v.footage[k]).Err? then r == Err(Rederived(h, v, v.footage[k]).error)
      else r == Ok(VerifyReport(|v.footage|, true, k == |v.footage|, |UncheckedDays(v, k)|,
                                if k == |v.footage| then None else Some(k + 1),
                                |AnchoredDays(v, k, Confirmed)|, |AnchoredDays(v, k, Pending)|))
  {
    hide FirstAlarm, Passes, Rederived, UncheckedDays, AnchoredDays, VerdictFrom, Intact;
    CheckFrom(h, v, role, k, 0);
    assert v.footage[0..] == v.footage;
    NoDays(v);
    VerdictExact(h, genesis, Records(v.footage));
    SeqNumbers(h, genesis, v.footage);
    assert FirstAlarm(h, v, role, k) ==> k <= |v.footage| by { AlarmInRange(h, v, role, k); }
  }

  /** There is always such a day, or the end. */
  lemma {:induction false} AlarmAt(h: HashFn, v: State, role: Role, from: nat) returns (k: nat)
    requires from <= |v.footage| && forall i :: 0 <= i < from ==> Passes(h, v, role, v.footage[i])
    ensures FirstAlarm(h, v, role, k)
    decreases |v.footage| - from
  {
    hide Passes;
    k := from;
    if from < |v.footage| && Passes(h, v, role, v.footage[from]) {
      k := AlarmAt(h, v, role, from + 1);
    }
  }

  lemma AlarmInRange(h: HashFn, v: State, role: Role, k: nat)
    ensures FirstAlarm(h, v, role, k) ==> k <= |v.footage|
  {
  }

  lemma NoDays(v: State)
    ensures UncheckedDays(v, 0) == {} && forall state :: AnchoredDays(v, 0, state) == {}
  {
  }

  // --- a replica --------------------------------------------------------------------------------------------

  /** Of the days sealed on `v`, those the replica `r` holds less of: days sealed over a
      memory, and days whose activity it does not have. */
  function HeldInPart(h: HashFn, v: State, r: State): set<int> {
    set i | 0 <= i < |v.footage| && LessHeld(h, v, r, v.footage[i])
  }

  predicate LessHeld(h: HashFn, v: State, r: State, f: Footage) {
    || LeavesOf(v, f.seqNo) != []
    || (f.version == WithQuests
        && ActivityLeaves(h, r.quests, Some(f.seqNo)) != ActivityLeaves(h, v.quests, Some(f.seqNo)))
  }

  lemma LessHeldExact(h: HashFn, v: State, r: State, f: Footage)
    requires CheckDay(h, v, Sealer, f) == Ok(Good) && f.leafCount < U32_MAX
    requires r.leaves == map[] && NoneOrAll(h, v, r, f.seqNo) && Rederived(h, r, f).Ok?
    ensures Differs(r, f) <==> LessHeld(h, v, r, f)
  {
    hide ActivityLeaves, RootOfSet, MetaDigest, QuestsUnder, VerdictsUnder;
    HeldExact(h, r, f);
    assert LeafDigests([]) == [];
    var stored := LeavesOf(v, f.seqNo);
    assert |LeafDigests(stored)| == |stored|;
    var none: seq<Digest> := [];
    assert LeavesOf(r, f.seqNo) == [];
    if f.version == WithQuests {
      var mine, theirs := ActivityLeaves(h, r.quests, Some(f.seqNo)), ActivityLeaves(h, v.quests, Some(f.seqNo));
      assert mine == theirs || mine == Ok(none);
      assert |theirs.value| == 0 ==> theirs == Ok(none);
    }
  }

  /** A replica restored from an untouched history says which days it could not check:
      the count it reports is that of the days it holds less of, every day that was sealed
      over a memory among them. */
  lemma RestoredReport(h: HashFn, genesis: Digest, ops: seq<Op>, r: State)
    requires Restored(h, Run(h, genesis, FRESH, ops), r)
    requires forall i :: 0 <= i < |r.footage| ==> r.footage[i].leafCount < U32_MAX
    ensures var v := Run(h, genesis, FRESH, ops);
      var n := |v.footage|;
      && |r.footage| == n && UncheckedDays(r, n) == HeldInPart(h, v, r)
      && Verified(h, genesis, ReplicaDevice, r) ==
           Ok(VerifyReport(n, true, true, |HeldInPart(h, v, r)|, None,
                           |AnchoredDays(r, n, Confirmed)|, |AnchoredDays(r, n, Pending)|))
  {
    hide Run, CheckDay, Intact, Rederived, NoneOrAll, LessHeld, Differs, Passes, AnchoredDays, Verified, VerdictFrom;
    var v := Run(h, genesis, FRESH, ops);
    FreshIsSound(h, genesis);
    RunKeeps(h, genesis, FRESH, ops);
    VerdictExact(h, genesis, Records(v.footage));
    forall i | 0 <= i < |r.footage|
      ensures Passes(h, r, ReplicaDevice, r.footage[i])
      ensures Differs(r, r.footage[i]) <==> LessHeld(h, v, r, v.footage[i])
    {
      assert CheckDay(h, v, Sealer, v.footage[i]) == Ok(Good);
      ReplicaDay(h, v, r, v.footage[i]);
      PassesExact(h, r, ReplicaDevice, r.footage[i]);
      PassesDerives(h, r, ReplicaDevice, r.footage[i]);
      LessHeldExact(h, v, r, v.footage[i]);
    }
    assert UncheckedDays(r, |r.footage|) == HeldInPart(h, v, r);
    VerifiedExact(h, genesis, ReplicaDevice, r, |r.footage|);
  }

  lemma PassesDerives(h: HashFn, v: State, role: Role, f: Footage)
    ensures Passes(h, v, role, f) ==> Rederived(h, v, f).Ok?
  {
  }
}
