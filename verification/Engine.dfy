/** The engine over its store: tables that the operations rewrite in place, the loops of
    the seal and the verifier, each proved against its meaning in `Vault`. */
module Engine {
  import opened Basics
  import opened Hashing
  import opened Merkle
  import opened MerkleLaws
  import opened Calendar
  import opened Chain
  import opened Leaves
  import opened Vault
  import opened VaultLaws
  import opened VaultRuns
  import opened SealDue
  import opened SealDueRuns

  datatype StoreError = AppendOnly | MemoryNotFound

  class Store {
    const h: HashFn
    const genesis: Digest
    const role: Role
    var memories: seq<MemoryRow>
    var quests: seq<QuestRow>
    var footage: seq<Footage>
    var leaves: map<nat, seq<LeafRow>>
    var anchors: map<nat, AnchorState>

    /** The tables as one value. */
    function Tables(): State
      reads this
    {
      State(memories, quests, footage, leaves, anchors)
    }

    constructor (h: HashFn, genesis: Digest, role: Role)
      ensures this.h == h && this.genesis == genesis && this.role == role && Tables() == FRESH
    {
      this.h, this.genesis, this.role := h, genesis, role;
      memories, quests, footage, leaves, anchors := [], [], [], map[], map[];
    }

    method StoreMemory(m: Memory) returns (r: Result<(), StoreError>)
      modifies this`memories
      ensures r.Ok? <==> Vault.PutMemory(old(Tables()), m).Some?
      ensures Tables() == OrElse(Vault.PutMemory(old(Tables()), m), old(Tables()))
    {
      var rows := InsertMemory(memories, m);
      if rows.None? {
        return Err(AppendOnly);
      }
      memories := rows.value;
      return Ok(());
    }

    method Shred(id: Uuid) returns (r: Result<(), StoreError>)
      modifies this`memories
      ensures r.Ok? <==> exists i :: 0 <= i < |old(memories)| && RowId(old(memories)[i]) == id
      ensures Tables() == old(Tables()).(memories := ShredRows(old(memories), id))
    {
      var changed := 0;
      var n := |memories|;
      ghost var target := ShredRows(memories, id);
      for i := 0 to n
        invariant |memories| == n == |target|
        invariant forall k :: 0 <= k < i ==> memories[k] == target[k]
        invariant forall k :: i <= k < n ==> memories[k] == old(memories)[k]
        invariant changed > 0 <==> exists k :: 0 <= k < i && RowId(old(memories)[k]) == id
      {
        if RowId(memories[i]) == id {
          memories := memories[i := Shredded(id)];
          changed := changed + 1;
        }
      }
      assert memories == target;
      return if changed == 0 then Err(MemoryNotFound) else Ok(());
    }

    method Issue(q: Quest) returns (r: Result<(), StoreError>)
      modifies this`quests
      ensures r.Ok? <==> IssueQuest(old(Tables()), q).Some?
      ensures Tables() == OrElse(IssueQuest(old(Tables()), q), old(Tables()))
    {
      var rows := InsertQuest(quests, q);
      if rows.None? {
        return Err(AppendOnly);
      }
      quests := rows.value;
      return Ok(());
    }

    method Answer(id: Uuid, verdict: Verdict, now: i64, slotId: Uuid, slotSalt: Salt, commitmentOk: bool)
      returns (r: Option<AnswerError>)
      modifies this`quests, this`memories
      ensures (r, Tables()) == AnswerQuest(old(Tables()), id, verdict, now, slotId, slotSalt, commitmentOk)
    {
      var found := FindQuest(quests, id);
      if found.None? {
        return Some(NoSuchQuest);
      }
      FindQuestInRange(quests, id);
      var i := found.value;
      var row := quests[i];
      if !commitmentOk {
        return Some(CommitmentMismatch);
      }
      if row.quest.verdict.Some? || row.status == Answered {
        return Some(AlreadyAnswered);
      }
      if now > row.quest.expiresAt {
        return Some(PastExpiry);
      }
      if row.status != Open {
        return Some(NotOpen);
      }
      quests := quests[i := AnswerRow(row, verdict, now)];
      var words := Words(verdict);
      if words.Some? {
        var stored := StoreMemory(Memory(slotId, words.value, Some(now), now, slotSalt));
        if stored.Err? {
          return Some(MemoryExists);
        }
      }
      return None;
    }

    method Expire(now: i64)
      modifies this`quests
      ensures Tables() == old(Tables()).(quests := ExpireRows(old(quests), now))
    {
      var n := |quests|;
      for i := 0 to n
        invariant |quests| == n
        invariant forall k :: 0 <= k < i ==> quests[k] == ExpireRow(old(quests)[k], now)
        invariant forall k :: i <= k < n ==> quests[k] == old(quests)[k]
      {
        quests := quests[i := ExpireRow(quests[i], now)];
      }
      assert quests == ExpireRows(old(quests), now);
    }

    // --- sealing ---------------------------------------------------------------------------------

    /** The day's root over what the tables hold, leaf by leaf. */
    method DayRoot(day: seq<Memory>, version: Version, seqNo: u64, date: Date, tz: TzName)
      returns (r: Result<SealedRoot, SealError>)
      ensures r == BuildRoot(h, Tables(), day, version, seqNo, date, tz)
    {
      hide MemoryPreimage, QuestPreimage, VerdictPreimage, RootOfSet, MetaPreimage, Saturate32;
      var rows: seq<LeafRow> := [];
      var digests := [h(MetaPreimage(seqNo, date, tz, Saturate32(|day|)))];
      for i := 0 to |day|
        invariant rows == MemoryLeaves(h, day)[..i]
        invariant digests == [MetaDigest(h, seqNo, date, tz, |day|)] + LeafDigests(rows)
      {
        var leaf := h(MemoryPreimage(day[i]));
        rows := rows + [LeafRow(day[i].id, leaf)];
        digests := digests + [leaf];
      }
      assert rows == MemoryLeaves(h, day);
      if version == WithQuests {
        var activity := Activity(None);
        if activity.Err? {
          return Err(activity.error);
        }
        digests := digests + activity.value;
      }
      var root := RootOfSet(h, digests);
      if root.Err? {
        return Err(BadTree(root.error));
      }
      return Ok(SealedRoot(root.value, rows, Saturate32(|digests|)));
    }

    /** The quest and verdict leaves carrying one stamp. */
    method Activity(stamp: Option<nat>) returns (r: Result<seq<Digest>, SealError>)
      ensures r == ActivityLeaves(h, quests, stamp)
    {
      hide QuestPreimage, VerdictDigest;
      var out: seq<Digest> := [];
      var issued := QuestsStamped(quests, stamp);
      for i := 0 to |issued|
        invariant out + QuestLeaves(h, issued[i..]) == QuestLeaves(h, issued)
      {
        assert issued[i..][1..] == issued[i + 1..];
        out := out + [h(QuestPreimage(issued[i].quest))];
      }
      assert out == QuestLeaves(h, issued);
      var answered := VerdictsStamped(quests, stamp);
      ghost var before := out;
      ghost var done: seq<Digest> := [];
      AfterNothing(VerdictLeaves(h, answered));
      assert answered[0..] == answered;
      for i := 0 to |answered|
        invariant out == before + done
        invariant VerdictLeaves(h, answered) == AfterSome(done, VerdictLeaves(h, answered[i..]))
      {
        assert answered[i..][1..] == answered[i + 1..];
        var digest := VerdictDigest(h, answered[i]);
        if digest.Err? {
          return Err(digest.error);
        }
        AfterOne(done, digest.value, VerdictLeaves(h, answered[i + 1..]));
        out := out + [digest.value];
        done := done + [digest.value];
      }
      assert answered[|answered|..] == [];
      assert done + [] == done;
      return Ok(out);
    }

    /** `UPDATE … WHERE id = ? AND column IS NULL`, once for each id. */
    method MarkCommittedRows(seqNo: nat, issued: seq<Uuid>, answered: seq<Uuid>)
      modifies this`quests
      ensures quests == MarkCommitted(old(quests), seqNo, issued, answered)
    {
      hide StampRow;
      NothingStamped(quests, seqNo);
      assert issued[..0] == [] && answered[..0] == [];
      for i := 0 to |issued|
        invariant quests == MarkCommitted(old(quests), seqNo, issued[..i], [])
      {
        StampOneMore(old(quests), seqNo, issued[..i], [], issued[i]);
        assert issued[..i + 1] == issued[..i] + [issued[i]];
        quests := StampQuests(quests, seqNo, issued[i]);
      }
      assert issued[..|issued|] == issued;
      for i := 0 to |answered|
        invariant quests == MarkCommitted(old(quests), seqNo, issued, answered[..i])
      {
        StampOneMore(old(quests), seqNo, issued, answered[..i], answered[i]);
        assert answered[..i + 1] == answered[..i] + [answered[i]];
        quests := StampVerdicts(quests, seqNo, answered[i]);
      }
      assert answered[..|answered|] == answered;
    }

    /** Appends the day or refuses: the fork guard. A number that is not the tip's
        successor is a duplicate or a gap; a date is sealed once; and a number past the
        column's width lands on the last one. */
    method SealFootage(f: Footage, rows: seq<LeafRow>) returns (r: Result<(), SealError>)
      modifies this`footage, this`leaves
      ensures r.Ok? <==>
        f.seqNo == TipSeq(old(footage)) + 1 && SealedDate(old(footage), f.date).None? && f.seqNo <= MAX_SEQ
      ensures r.Ok? ==> footage == old(footage) + [f] && leaves == old(leaves)[f.seqNo := rows]
      ensures r.Err? ==> footage == old(footage) && leaves == old(leaves)
      ensures r.Err? && r.error.Gap? ==>
        r.error == Gap(TipSeq(footage) + 1, f.seqNo) && forall i :: 0 <= i < |footage| ==> footage[i].seqNo != f.seqNo
      ensures r.Err? && !r.error.Gap? ==> r.error == DuplicateSeq
    {
      if f.seqNo != TipSeq(footage) + 1 {
        for i := 0 to |footage|
          invariant footage == old(footage) && leaves == old(leaves)
          invariant forall k :: 0 <= k < i ==> footage[k].seqNo != f.seqNo
        {
          if footage[i].seqNo == f.seqNo {
            return Err(DuplicateSeq);
          }
        }
        return Err(Gap(TipSeq(footage) + 1, f.seqNo));
      }
      if SealedDate(footage, f.date).Some? || f.seqNo > MAX_SEQ {
        return Err(DuplicateSeq);
      }
      footage := footage + [f];
      leaves := leaves[f.seqNo := rows];
      return Ok(());
    }

    method Memoria(t: HomeTime, date: Date, tz: TzName, draftOk: bool) returns (r: Result<Footage, SealError>)
      modifies this`footage, this`leaves, this`quests
      ensures var (start, end) := DayWindow(t, date);
        var sealing := Seal(h, genesis, role, old(Tables()), date, tz, start, end, WithQuests, draftOk);
        match r
        case Err(e) => sealing == Err(e) && Tables() == old(Tables())
        case Ok(f) => sealing == Ok(Tables()) && footage == old(footage) + [f]
    {
      hide BuildRoot, LinkPreimage, Window, SealedDate, MarkCommitted, QuestsStamped, VerdictsStamped;
      if role == ReplicaDevice {
        return Err(Replica);
      }
      var existing := SealedDate(footage, date);
      if existing.Some? {
        return Err(AlreadySealed(existing.value));
      }
      var (start, end) := DayWindow(t, date);
      var day := Window(memories, start, end);
      if !draftOk {
        return Err(InvalidDraft);
      }
      if TipSeq(footage) >= MAX_SEQ {
        return Err(DuplicateSeq);
      }
      var seqNo := TipSeq(footage) + 1;
      var issued, answered := Ids(QuestsStamped(quests, None)), Ids(VerdictsStamped(quests, None));
      var built := DayRoot(day, WithQuests, seqNo, date, tz);
      if built.Err? {
        return Err(built.error);
      }
      var prev := TipLink(genesis, footage);
      var link := h(LinkPreimage(prev, built.value.root, seqNo, date, tz));
      var f := Footage(seqNo, date, tz, built.value.root, prev, link, built.value.count, WithQuests);
      var sealing := SealFootage(f, built.value.leaves);
      assert sealing.Ok?;
      MarkCommittedRows(seqNo, issued, answered);
      return Ok(f);
    }

    /** Walks back from yesterday, pushing the dates to seal as it meets them. */
    method CollectDue(t: HomeTime, created: Option<Date>, s: Settings, now: i64) returns (walk: Walk)
      ensures walk == WalkFor(Tables(), t, created, s, now)
    {
      hide Due, Stops, DayWindow, WalkBack;
      var pending: seq<Date> := [];
      var waiting: Option<Date> := None;
      var cursor: Date := Yesterday(t, now);
      var left: nat := s.maxBackfillDays;
      ghost var whole := WalkFor(Tables(), t, created, s, now);
      WalkUnfolds(t, footage, created, s.graceHours, now, cursor, left);
      NothingSeen(whole);
      while left > 0 && !Stops(footage, created, cursor)
        invariant whole == Seen(WalkBack(t, footage, created, s.graceHours, now, cursor, left), pending, waiting)
        decreases left
      {
        WalkUnfolds(t, footage, created, s.graceHours, now, cursor, left);
        ghost var older := Older(t, footage, created, s.graceHours, now, cursor, left);
        OneDateSeen(older, cursor, pending, waiting);
        if !Due(t, s.graceHours, now, cursor) {
          waiting := Some(cursor);
        } else {
          pending := pending + [cursor];
        }
        if Pred(cursor).None? {
          left := 0;
        } else {
          cursor := Pred(cursor).value;
          left := left - 1;
        }
        WalkUnfolds(t, footage, created, s.graceHours, now, cursor, left);
      }
      WalkUnfolds(t, footage, created, s.graceHours, now, cursor, left);
      walk := Walk(Reversed(pending), waiting);
      assert [] + walk.pending == walk.pending;
    }

    /** Seals dates oldest first, stopping at the first refusal. */
    method SealDates(t: HomeTime, tz: TzName, dates: seq<Date>, drafts: Drafts)
      returns (r: Result<seq<Date>, SealError>)
      modifies this`footage, this`leaves, this`quests
      ensures (r, Tables()) == SealAll(h, genesis, role, old(Tables()), t, tz, dates, drafts)
    {
      hide Seal, DayWindow;
      var sealed: seq<Date> := [];
      NothingAhead(SealAll(h, genesis, role, Tables(), t, tz, dates, drafts));
      assert dates[..0] == [];
      assert dates[0..] == dates;
      for i := 0 to |dates|
        invariant SealAll(h, genesis, role, old(Tables()), t, tz, dates, drafts) ==
          Ahead(dates[..i], SealAll(h, genesis, role, Tables(), t, tz, dates[i..], drafts))
        invariant sealed == dates[..i]
      {
        assert dates[i..][0] == dates[i] && dates[i..][1..] == dates[i + 1..];
        var outcome := Memoria(t, dates[i], tz, drafts(dates[i]));
        if outcome.Err? {
          return Err(outcome.error);
        }
        assert dates[..i + 1] == dates[..i] + [dates[i]];
        OneAhead(dates[..i], dates[i], SealAll(h, genesis, role, Tables(), t, tz, dates[i + 1..], drafts));
        sealed := sealed + [dates[i]];
      }
      assert dates[..|dates|] == dates && dates[|dates|..] == [] && dates + [] == dates;
      return Ok(sealed);
    }

    method SealDue(t: HomeTime, tz: TzName, created: Option<Date>, s: Settings, now: i64, drafts: Drafts)
      returns (r: Result<SealDueReport, SealError>)
      modifies this`footage, this`leaves, this`quests
      ensures (r, Tables()) == SealedDue(h, genesis, role, old(Tables()), t, tz, created, s, now, drafts)
    {
      var walk := CollectDue(t, created, s, now);
      var sealed := SealDates(t, tz, walk.pending, drafts);
      return match sealed case Err(e) => Err(e) case Ok(dates) => Ok(SealDueReport(dates, walk.waiting));
    }

    // --- verifying --------------------------------------------------------------------------------

    method Verify() returns (r: Result<VerifyReport, SealError>)
      ensures r == Verified(h, genesis, role, Tables())
    {
      hide ActivityLeaves, RootOfSet, MetaPreimage, VerdictFrom, Saturate32;
      var report := CleanReport(|footage|);
      var run := VerifyRun(h, genesis, Records(footage));
      if run.Err? {
        return Ok(report.(chainOk := false, firstBadSeq := Some(BadSeq(run.error))));
      }
      for i := 0 to |footage|
        invariant Verified(h, genesis, role, Tables()) == CheckDays(h, Tables(), role, footage[i..], report)
      {
        var f := footage[i];
        assert footage[i..][0] == f && footage[i..][1..] == footage[i + 1..];
        var outcome := VerifyDay(f);
        match outcome {
          case Err(e) => return Err(e);
          case Ok(Unchecked) => report := report.(rootsUnchecked := report.rootsUnchecked + 1);
          case Ok(Bad) => return Ok(report.(rootsOk := false, firstBadSeq := Some(f.seqNo)));
          case Ok(Good) =>
            var anchor := AnchorOf(Tables(), f.seqNo);
            if anchor == Some(Confirmed) {
              report := report.(anchored := report.anchored + 1);
            } else if anchor == Some(Pending) {
              report := report.(pending := report.pending + 1);
            }
        }
      }
      return Ok(report);
    }

    method VerifyDay(f: Footage) returns (r: Result<DayOutcome, SealError>)
      ensures r == CheckDay(h, Tables(), role, f)
    {
      hide ActivityLeaves, RootOfSet, MetaPreimage, Saturate32;
      var stored := LeavesOf(Tables(), f.seqNo);
      var activity: seq<Digest> := [];
      if f.version == WithQuests {
        var derived := Activity(Some(f.seqNo));
        if derived.Err? {
          return Err(derived.error);
        }
        activity := derived.value;
      }
      var digests := [h(MetaPreimage(f.seqNo, f.date, f.tz, Saturate32(|stored|)))];
      for i := 0 to |stored|
        invariant digests == [MetaDigest(h, f.seqNo, f.date, f.tz, |stored|)] + LeafDigests(stored)[..i]
      {
        digests := digests + [stored[i].leaf];
      }
      assert LeafDigests(stored)[..|stored|] == LeafDigests(stored);
      assert |digests + activity| == |stored| + 1 + |activity|;
      if f.version == MemoriesOnly {
        assert digests + activity == digests;
      }
      if Saturate32(|stored| + 1 + |activity|) != f.leafCount {
        return Ok(if role == ReplicaDevice && stored == [] then Unchecked else Bad);
      }
      var root := RootOfSet(h, digests + activity);
      return Ok(if root == Ok(f.root) then Good else Bad);
    }
  }

  // --- what the loops keep ----------------------------------------------------------------------------

  function AfterSome(done: seq<Digest>, rest: Result<seq<Digest>, SealError>): Result<seq<Digest>, SealError> {
    match rest
    case Err(e) => Err(e)
    case Ok(ds) => Ok(done + ds)
  }

  lemma AfterNothing(rest: Result<seq<Digest>, SealError>)
    ensures AfterSome([], rest) == rest
  {
    assert rest.Ok? ==> [] + rest.value == rest.value;
  }

  lemma AfterOne(done: seq<Digest>, d: Digest, rest: Result<seq<Digest>, SealError>)
    ensures AfterSome(done + [d], rest) == AfterSome(done, AfterSome([d], rest))
  {
    assert rest.Ok? ==> done + [d] + rest.value == done + ([d] + rest.value);
  }

  lemma NothingStamped(rows: seq<QuestRow>, seqNo: nat)
    ensures MarkCommitted(rows, seqNo, [], []) == rows
  {
  }

  function StampQuests(rows: seq<QuestRow>, seqNo: nat, id: Uuid): seq<QuestRow> {
    seq(|rows|, i requires 0 <= i < |rows| =>
      if rows[i].quest.issued.id == id && rows[i].committedSeq.None?
      then rows[i].(committedSeq := Some(seqNo))
      else rows[i])
  }

  function StampVerdicts(rows: seq<QuestRow>, seqNo: nat, id: Uuid): seq<QuestRow> {
    seq(|rows|, i requires 0 <= i < |rows| =>
      if rows[i].quest.issued.id == id && rows[i].verdictCommittedSeq.None?
      then rows[i].(verdictCommittedSeq := Some(seqNo)) else rows[i])
  }

  /** One more statement stamps one more id. */
  lemma StampOneMore(rows: seq<QuestRow>, seqNo: nat, issued: seq<Uuid>, answered: seq<Uuid>, id: Uuid)
    ensures answered == [] ==>
      StampQuests(MarkCommitted(rows, seqNo, issued, []), seqNo, id) == MarkCommitted(rows, seqNo, issued + [id], [])
    ensures StampVerdicts(MarkCommitted(rows, seqNo, issued, answered), seqNo, id) ==
        MarkCommitted(rows, seqNo, issued, answered + [id])
  {
  }

  function Reversed(s: seq<Date>): (r: seq<Date>)
    ensures |r| == |s| && forall i :: 0 <= i < |s| ==> r[i] == s[|s| - 1 - i]
  {
    seq(|s|, i requires 0 <= i < |s| => s[|s| - 1 - i])
  }

  /** The whole walk, from what is left of it and what has been pushed, newest first. */
  function Seen(older: Walk, pushed: seq<Date>, waiting: Option<Date>): Walk {
    Walk(older.pending + Reversed(pushed), if older.waiting.Some? then older.waiting else waiting)
  }

  /** What the walk finds beyond the cursor. */
  function Older(t: HomeTime, footage: seq<Footage>, created: Option<Date>, graceHours: u32, now: i64, cursor: Date,
                 left: nat): Walk
    requires left > 0
  {
    match Pred(cursor)
    case None => Walk([], None)
    case Some(previous) => WalkBack(t, footage, created, graceHours, now, previous, left - 1)
  }

  function Meeting(older: Walk, d: Date, due: bool): Walk {
    if due then older.(pending := older.pending + [d])
    else if older.waiting.None? then older.(waiting := Some(d))
    else older
  }

  lemma WalkUnfolds(t: HomeTime, footage: seq<Footage>, created: Option<Date>, graceHours: u32, now: i64,
                    cursor: Date, left: nat)
    ensures WalkBack(t, footage, created, graceHours, now, cursor, left) ==
      if left == 0 || Stops(footage, created, cursor) then Walk([], None)
      else Meeting(Older(t, footage, created, graceHours, now, cursor, left), cursor, Due(t, graceHours, now, cursor))
  {
  }

  lemma NothingSeen(walk: Walk)
    ensures Seen(walk, [], None) == walk
  {
    assert walk.pending + [] == walk.pending;
  }

  lemma OneDateSeen(older: Walk, d: Date, pushed: seq<Date>, waiting: Option<Date>)
    ensures Seen(Meeting(older, d, true), pushed, waiting) == Seen(older, pushed + [d], waiting)
    ensures Seen(Meeting(older, d, false), pushed, waiting) == Seen(older, pushed, Some(d))
  {
    assert Reversed(pushed + [d]) == [d] + Reversed(pushed);
    assert older.pending + [d] + Reversed(pushed) == older.pending + ([d] + Reversed(pushed));
  }

  function Ahead(done: seq<Date>, rest: (Result<seq<Date>, SealError>, State)): (Result<seq<Date>, SealError>, State) {
    (match rest.0 case Err(e) => Err(e) case Ok(more) => Ok(done + more), rest.1)
  }

  lemma NothingAhead(rest: (Result<seq<Date>, SealError>, State))
    ensures Ahead([], rest) == rest
  {
    assert rest.0.Ok? ==> [] + rest.0.value == rest.0.value;
  }

  lemma OneAhead(done: seq<Date>, d: Date, rest: (Result<seq<Date>, SealError>, State))
    ensures Ahead(done, Ahead([d], rest)) == Ahead(done + [d], rest)
  {
    assert rest.0.Ok? ==> done + ([d] + rest.0.value) == done + [d] + rest.0.value;
  }
}
