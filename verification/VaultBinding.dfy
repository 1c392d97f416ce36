/** The claim the whole vault makes, end to end: a history that verifies under an
    anchored tip is the history that was sealed. And what the seal relies on to keep it. */
module VaultBinding {
  import opened Basics
  import opened Hashing
  import opened Merkle
  import opened MerkleLaws
  import opened Calendar
  import opened Chain
  import opened Leaves
  import opened Vault
  import opened VaultLaws
  import opened VaultRuns
  import opened VaultExact

  /** The verifier finds nothing wrong. */
  ghost predicate Clean(h: HashFn, genesis: Digest, v: State) {
    var r := Verified(h, genesis, Sealer, v);
    r.Ok? && r.value.chainOk && r.value.rootsOk
  }

  lemma CleanExact(h: HashFn, genesis: Digest, v: State)
    requires Clean(h, genesis, v)
    ensures VerdictFrom(h, genesis, 1, Records(v.footage)).Ok?
    ensures forall i :: 0 <= i < |v.footage| ==> CheckDay(h, v, Sealer, v.footage[i]) == Ok(Good)
  {
    hide CheckDay, VerdictFrom;
    if VerdictFrom(h, genesis, 1, Records(v.footage)).Ok? {
      CleanMeansGood(h, v, v.footage, CleanReport(|v.footage|));
    }
  }

  /** Day `i` holds the same leaves in both stores. */
  ghost predicate SameDayLeaves(h: HashFn, v: State, w: State, i: nat) {
    && i < |v.footage| && i < |w.footage|
    && Rederived(h, v, v.footage[i]).Ok? && Rederived(h, w, w.footage[i]).Ok?
    && multiset(Rederived(h, v, v.footage[i]).value) == multiset(Rederived(h, w, w.footage[i]).value)
  }

  /** Comparing the trees of day `i` meets a collision. */
  ghost predicate DayCollides(h: HashFn, v: State, w: State, i: nat) {
    && i < |v.footage| && i < |w.footage|
    && Rederived(h, v, v.footage[i]).Ok? && Rederived(h, w, w.footage[i]).Ok?
    && Collides(h, DayHashes(h, Rederived(h, v, v.footage[i]).value, Rederived(h, w, w.footage[i]).value))
  }

  /** Two days that check good under one root hold the same leaves exactly when they
      record the same count. */
  lemma OneDayBound(h: HashFn, v: State, w: State, i: nat)
    requires i < |v.footage| && i < |w.footage|
    requires CheckDay(h, v, Sealer, v.footage[i]) == Ok(Good) && CheckDay(h, w, Sealer, w.footage[i]) == Ok(Good)
    requires v.footage[i].root == w.footage[i].root
    requires v.footage[i].leafCount < U32_MAX && w.footage[i].leafCount < U32_MAX
    ensures (SameDayLeaves(h, v, w, i) <==> v.footage[i].leafCount == w.footage[i].leafCount) || DayCollides(h, v, w, i)
  {
    hide Rederived, NodesHashed, RootOfSet, Collides;
    var a, b := Rederived(h, v, v.footage[i]).value, Rederived(h, w, w.footage[i]).value;
    if |a| == |b| {
      RootBindsSameSize(h, a, b);
    } else if SameDayLeaves(h, v, w, i) {
      EqualBagsSameLength(a, b);
    }
  }

  ghost predicate CountsTell(h: HashFn, v: State, w: State, i: nat) {
    i < |v.footage| && i < |w.footage| &&
    (SameDayLeaves(h, v, w, i) <==> v.footage[i].leafCount == w.footage[i].leafCount)
  }

  ghost predicate Unsaturated(v: State) {
    forall i :: 0 <= i < |v.footage| ==> v.footage[i].leafCount < U32_MAX
  }

  /** What an anchored tip binds. Take any two stores that `verify` finds clean, under any
      genesis links, with one tip link: the digest an anchor attests. They agree on the
      genesis and on every record, and a day has the same leaves in both exactly when
      both record the same leaf count for it; or two link preimages collide, or two
      nodes of some day's trees do. The count is a column no hash covers: module
      `VaultForgery` has two clean stores with one tip and different leaves. */
  lemma TipBindsHistory(h: HashFn, genesis: Digest, v: State, genesis': Digest, w: State)
    requires v.footage != [] && w.footage != []
    requires Clean(h, genesis, v) && Clean(h, genesis', w) && Unsaturated(v) && Unsaturated(w)
    requires TipLink(genesis, v.footage) == TipLink(genesis', w.footage)
    ensures
      || Collides(h, RecordPreimages(Records(v.footage)) + RecordPreimages(Records(w.footage)))
      || (exists i :: DayCollides(h, v, w, i))
      || (&& genesis == genesis' && Records(v.footage) == Records(w.footage)
          && forall i :: 0 <= i < |v.footage| ==> CountsTell(h, v, w, i))
  {
    hide CheckDay, VerdictFrom, Verified, Collides, SameDayLeaves, DayCollides, Clean;
    CleanExact(h, genesis, v);
    CleanExact(h, genesis', w);
    TipFreezesThePast(h, genesis, Records(v.footage), genesis', Records(w.footage));
    if Records(v.footage) == Records(w.footage) {
      forall i | 0 <= i < |v.footage|
        ensures CountsTell(h, v, w, i) || DayCollides(h, v, w, i)
      {
        assert Records(v.footage)[i] == Records(w.footage)[i];
        assert RecordOf(v.footage[i]) == RecordOf(w.footage[i]);
        OneDayBound(h, v, w, i);
      }
    }
  }

  // --- a replica --------------------------------------------------------------------------------------

  /** A device restored from the footage alone: no leaf rows, and of each day's quests
      and verdicts either none or all. */
  ghost predicate Restored(h: HashFn, v: State, r: State) {
    r.footage == v.footage && r.leaves == map[]
    && forall i :: 0 <= i < |v.footage| ==> NoneOrAll(h, v, r, v.footage[i].seqNo)
  }

  predicate NoneOrAll(h: HashFn, v: State, r: State, seqNo: nat) {
    || ActivityLeaves(h, r.quests, Some(seqNo)) == Ok([])
    || ActivityLeaves(h, r.quests, Some(seqNo)) == ActivityLeaves(h, v.quests, Some(seqNo))
  }

  lemma ReplicaDay(h: HashFn, v: State, r: State, f: Footage)
    requires CheckDay(h, v, Sealer, f) == Ok(Good) && f.leafCount < U32_MAX
    requires r.leaves == map[] && NoneOrAll(h, v, r, f.seqNo)
    ensures CheckDay(h, r, ReplicaDevice, f) in {Ok(Good), Ok(Unchecked)}
    ensures CheckDay(h, r, ReplicaDevice, f) == Ok(Good) ==>
        LeavesOf(v, f.seqNo) == [] && Rederived(h, r, f) == Rederived(h, v, f)
  {
    hide ActivityLeaves, RootOfSet, MetaDigest;
    var stored := LeavesOf(v, f.seqNo);
    assert LeafDigests([]) == [];
    assert |Rederived(h, v, f).value| == f.leafCount;
    if Saturate32(|Rederived(h, r, f).value|) == f.leafCount {
      assert |stored| == 0;
      var meta := [MetaDigest(h, f.seqNo, f.date, f.tz, 0)] + LeafDigests([]);
      assert meta + [] == meta;
      if f.version == WithQuests && ActivityLeaves(h, r.quests, Some(f.seqNo)) == Ok([]) {
        assert ActivityLeaves(h, v.quests, Some(f.seqNo)).value == [];
      }
    }
  }

  lemma {:induction false} NoBadDay(h: HashFn, r: State, days: seq<Footage>, report: VerifyReport)
    requires forall i :: 0 <= i < |days| ==> CheckDay(h, r, ReplicaDevice, days[i]) in {Ok(Good), Ok(Unchecked)}
    ensures var out := CheckDays(h, r, ReplicaDevice, days, report);
      out.Ok? && out.value.rootsOk == report.rootsOk && out.value.chainOk == report.chainOk &&
          out.value.firstBadSeq == report.firstBadSeq
      && out.value.days == report.days
    decreases |days|
  {
    hide CheckDay;
    if days != [] {
      assert CheckDay(h, r, ReplicaDevice, days[0]) in {Ok(Good), Ok(Unchecked)};
      forall i | 0 <= i < |days[1..]|
        ensures CheckDay(h, r, ReplicaDevice, days[1..][i]) in {Ok(Good), Ok(Unchecked)}
      {
        assert days[1..][i] == days[i + 1];
      }
      var next := if CheckDay(h, r, ReplicaDevice, days[0]) == Ok(Good) then Tally(report, AnchorOf(r, days[0].seqNo))
        else report.(rootsUnchecked := report.rootsUnchecked + 1);
      NoBadDay(h, r, days[1..], next);
    }
  }

  /** No false alarm: restored from an untouched history, a replica finds the chain
      intact and no bad day; a day it does check, it checks over the sealed leaves. */
  lemma ReplicaRaisesNoAlarm(h: HashFn, genesis: Digest, ops: seq<Op>, r: State)
    requires Restored(h, Run(h, genesis, FRESH, ops), r)
    requires forall i :: 0 <= i < |r.footage| ==> r.footage[i].leafCount < U32_MAX
    ensures var report := Verified(h, genesis, ReplicaDevice, r);
      report.Ok? && report.value.chainOk && report.value.rootsOk && report.value.firstBadSeq.None?
      && report.value.days == |r.footage|
    ensures forall i :: 0 <= i < |r.footage| && CheckDay(h, r, ReplicaDevice, r.footage[i]) == Ok(Good) ==>
      Rederived(h, r, r.footage[i]) == Rederived(h, Run(h, genesis, FRESH, ops), r.footage[i])
  {
    hide Run, CheckDay, CheckDays, VerdictFrom, Intact, Rederived, NoneOrAll;
    var v := Run(h, genesis, FRESH, ops);
    FreshIsSound(h, genesis);
    RunKeeps(h, genesis, FRESH, ops);
    VerdictExact(h, genesis, Records(v.footage));
    forall i | 0 <= i < |r.footage|
      ensures CheckDay(h, r, ReplicaDevice, r.footage[i]) in {Ok(Good), Ok(Unchecked)}
      ensures CheckDay(h, r, ReplicaDevice, r.footage[i]) == Ok(Good) ==>
          Rederived(h, r, r.footage[i]) == Rederived(h, v, r.footage[i])
    {
      assert CheckDay(h, v, Sealer, v.footage[i]) == Ok(Good);
      ReplicaDay(h, v, r, v.footage[i]);
    }
    NoBadDay(h, r, r.footage, CleanReport(|r.footage|));
  }

  // --- the seal and its stamps are one step -------------------------------------------------------------

  /** A seal that stops before its stamps are written. */
  function WithoutStamps(v: State, sealed: State): State {
    sealed.(quests := v.quests)
  }

  lemma NothingStampedAhead(h: HashFn, rows: seq<QuestRow>, days: nat, seqNo: nat)
    requires RowsSane(rows, days) && seqNo > days
    ensures ActivityLeaves(h, rows, Some(seqNo)) == Ok([])
  {
    hide QuestPreimage, VerdictDigest;
    QuestsFrom(rows, Some(seqNo));
    VerdictsFrom(rows, Some(seqNo));
    var qs, vs := QuestsStamped(rows, Some(seqNo)), VerdictsStamped(rows, Some(seqNo));
    forall i | 0 <= i < |rows|
      ensures rows[i].committedSeq != Some(seqNo) && rows[i].verdictCommittedSeq != Some(seqNo)
    {
      assert RowSane(rows[i], days);
    }
    if qs != [] {
      HasMember(qs);
    }
    if vs != [] {
      HasMember(vs);
    }
    var none: seq<Digest> := [];
    assert QuestLeaves(h, qs) == none && VerdictLeaves(h, vs) == Ok(none);
    assert ActivityLeaves(h, rows, Some(seqNo)) == Ok(none + none);
    assert none + none == none;
  }

  /** Stamping right after the seal is what keeps a day verifiable: left out, the day
      checks good exactly when nothing was waiting to be committed. */
  lemma StampsAreNeeded(h: HashFn, genesis: Digest, v: State, date: Date, tz: TzName, start: i64, end: i64,
                        draftOk: bool)
    requires Sound(h, genesis, v)
    requires Seal(h, genesis, Sealer, v, date, tz, start, end, WithQuests, draftOk).Ok?
    requires |Window(v.memories, start, end)| + 1 < U32_MAX
    ensures var w := Seal(h, genesis, Sealer, v, date, tz, start, end, WithQuests, draftOk).value;
      && |w.footage| == |v.footage| + 1
      && (CheckDay(h, WithoutStamps(v, w), Sealer, w.footage[|v.footage|]) == Ok(Good)
          <==> QuestsStamped(v.quests, None) == [] && VerdictsStamped(v.quests, None) == [])
  {
    hide Seal, ActivityLeaves, RootOfSet, MemoryLeaves, MetaDigest, Window, Intact, LinkOf, QuestsStamped,
         VerdictsStamped;
    var w := Seal(h, genesis, Sealer, v, date, tz, start, end, WithQuests, draftOk).value;
    var memories := Window(v.memories, start, end);
    var n := |v.footage|;
    SealedDay(h, genesis, v, date, tz, start, end, WithQuests, draftOk);
    NothingStampedAhead(h, v.quests, n, n + 1);
    ActivityCounts(h, v.quests);
    var fixed := [MetaDigest(h, n + 1, date, tz, |memories|)] + LeafDigests(MemoryLeaves(h, memories));
    assert fixed + [] == fixed;
    assert Rederived(h, WithoutStamps(v, w), w.footage[n]) == Ok(fixed);
    var activity := ActivityLeaves(h, v.quests, None).value;
    assert activity == [] ==> fixed + activity == fixed;
  }

  lemma ActivityCounts(h: HashFn, rows: seq<QuestRow>)
    ensures ActivityLeaves(h, rows, None).Ok? ==>
      |ActivityLeaves(h, rows, None).value| == |QuestsStamped(rows, None)| + |VerdictsStamped(rows, None)|
  {
    QuestLeafCount(h, QuestsStamped(rows, None));
    VerdictLeafCount(h, VerdictsStamped(rows, None));
  }

  lemma {:induction false} QuestLeafCount(h: HashFn, rows: seq<QuestRow>)
    ensures |QuestLeaves(h, rows)| == |rows|
  {
    hide QuestPreimage;
    if rows != [] {
      QuestLeafCount(h, rows[1..]);
    }
  }

  lemma {:induction false} VerdictLeafCount(h: HashFn, rows: seq<QuestRow>)
    ensures VerdictLeaves(h, rows).Ok? ==> |VerdictLeaves(h, rows).value| == |rows|
  {
    hide VerdictDigest;
    if rows != [] {
      VerdictLeafCount(h, rows[1..]);
    }
  }
}
