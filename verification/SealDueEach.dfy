/** Every memory is sealed. A memory that is stored, and not shredded, before the dates of
    a stretch are sealed is in the leaf rows of at least one of them; and of exactly one,
    where every closing minute of the stretch exists. */
module SealDueEach {
  import opened Basics
  import opened Hashing
  import opened Calendar
  import opened Chain
  import opened Leaves
  import opened Vault
  import opened VaultLaws
  import opened VaultRuns
  import opened VaultContent
  import opened VaultTakes
  import opened SealDue
  import opened SealDueRuns
  import opened SealDueOnce

  // --- a memory stays until it is shredded ----------------------------------------------------------

  lemma {:induction false} InsertKeeps(rows: seq<MemoryRow>, m: Memory, r: MemoryRow)
    requires InsertMemory(rows, m).Some? && r in rows
    ensures r in InsertMemory(rows, m).value
  {
    if rows != [] && m.id >= RowId(rows[0]) && r != rows[0] {
      assert r in rows[1..];
      InsertKeeps(rows[1..], m, r);
    }
  }

  lemma ApplyKeepsLive(h: HashFn, genesis: Digest, v: State, op: Op, m: Memory)
    requires Live(m) in v.memories && op != Shred(m.id) && !op.SealDay?
    ensures Live(m) in Apply(h, genesis, v, op).memories
  {
    hide InsertMemory, FindQuest, AnswerRow, Words, InsertQuest, ExpireRows;
    match op {
      case StoreMemory(n) =>
        if InsertMemory(v.memories, n).Some? {
          InsertKeeps(v.memories, n, Live(m));
        }
      case Shred(id) =>
        var i :| 0 <= i < |v.memories| && v.memories[i] == Live(m);
        assert ShredRows(v.memories, id)[i] == Live(m);
      case Answer(id, verdict, now, slotId, slotSalt, ok) =>
        if Words(verdict).Some? {
          var slot := Memory(slotId, Words(verdict).value, Some(now), now, slotSalt);
          if InsertMemory(v.memories, slot).Some? {
            InsertKeeps(v.memories, slot, Live(m));
          }
        }
      case _ =>
    }
  }

  // --- every window that holds it takes it ------------------------------------------------------------

  predicate InDay(t: HomeTime, d: Date, m: Memory) {
    FallsIn(Live(m), DayWindow(t, d).0, DayWindow(t, d).1)
  }

  /** Beyond the first `from` days, each day whose window holds the memory took it. */
  ghost predicate Takes(t: HomeTime, footage: seq<Footage>, log: SealLog, from: nat, m: Memory) {
    forall s :: from < s <= |footage| && InDay(t, footage[s - 1].date, m) ==> TakenBy(log, s, m)
  }

  ghost predicate Grows(before: seq<Footage>, after: seq<Footage>) {
    |before| <= |after| && after[..|before|] == before
  }

  lemma GrowsOn(a: seq<Footage>, b: seq<Footage>, c: seq<Footage>)
    requires Grows(a, b) && Grows(b, c)
    ensures Grows(a, c)
  {
    assert c[..|a|] == c[..|b|][..|a|];
  }

  lemma OneSealTakes(h: HashFn, genesis: Digest, v: State, t: HomeTime, tz: TzName, d: Date, drafts: Drafts,
                     log: SealLog, from: nat, m: Memory)
    requires Sound(h, genesis, v) && Live(m) in v.memories && Takes(t, v.footage, log, from, m)
    requires Seal(h, genesis, Sealer, v, d, tz, DayWindow(t, d).0, DayWindow(t, d).1, WithQuests, drafts(d)).Ok?
    ensures var (start, end) := DayWindow(t, d);
      var w := Seal(h, genesis, Sealer, v, d, tz, start, end, WithQuests, drafts(d)).value;
      && Live(m) in w.memories && Grows(v.footage, w.footage)
      && Takes(t, w.footage, LogStep(h, genesis, v, DateOp(t, tz, d, drafts), log), from, m)
  {
    hide Seal, Sound, DayWindow, Window, FallsIn;
    var (start, end) := DayWindow(t, d);
    var w := Seal(h, genesis, Sealer, v, d, tz, start, end, WithQuests, drafts(d)).value;
    SealAppends(h, genesis, Sealer, v, d, tz, start, end, WithQuests, drafts(d));
    SealLeavesMemories(h, genesis, v, d, tz, start, end, WithQuests, drafts(d));
    SoundIsTipped(h, genesis, v);
    WindowMembers(v.memories, start, end, m);
    var longer := LogStep(h, genesis, v, DateOp(t, tz, d, drafts), log);
    forall s | from < s <= |w.footage| && InDay(t, w.footage[s - 1].date, m)
      ensures TakenBy(longer, s, m)
    {
      if s <= |v.footage| {
        assert w.footage[s - 1] == w.footage[..|v.footage|][s - 1];
        assert TakenBy(log, s, m);
      }
    }
  }

  lemma {:induction false} SealAllTakes(h: HashFn, genesis: Digest, v: State, t: HomeTime, tz: TzName, dates: seq<Date>,
                                        drafts: Drafts, log: SealLog, from: nat, m: Memory)
    requires Sound(h, genesis, v) && Live(m) in v.memories && Takes(t, v.footage, log, from, m)
    ensures var w := SealAll(h, genesis, Sealer, v, t, tz, dates, drafts).1;
      && Live(m) in w.memories && Grows(v.footage, w.footage)
      && Takes(t, w.footage, SealAllLog(h, genesis, v, t, tz, dates, drafts, log), from, m)
    decreases |dates|
  {
    hide Seal, Sound, DayWindow, LogStep, Takes, Grows, DaysFrozen;
    SameGrows(v.footage);
    if dates != [] {
      var (start, end) := DayWindow(t, dates[0]);
      var sealing := Seal(h, genesis, Sealer, v, dates[0], tz, start, end, WithQuests, drafts(dates[0]));
      if sealing.Ok? {
        OneSealTakes(h, genesis, v, t, tz, dates[0], drafts, log, from, m);
        SealKeeps(h, genesis, v, dates[0], tz, start, end, WithQuests, drafts(dates[0]));
        var longer := LogStep(h, genesis, v, DateOp(t, tz, dates[0], drafts), log);
        SealAllTakes(h, genesis, sealing.value, t, tz, dates[1..], drafts, longer, from, m);
        GrowsOn(v.footage, sealing.value.footage,
                SealAll(h, genesis, Sealer, sealing.value, t, tz, dates[1..], drafts).1.footage);
      }
    }
  }

  lemma SameGrows(footage: seq<Footage>)
    ensures Grows(footage, footage)
  {
  }

  /** After the first `k` events, none shreds this memory. */
  ghost predicate NotShredded(events: seq<Event>, k: nat, m: Memory) {
    forall j :: k <= j < |events| ==> events[j] != Other(Shred(m.id))
  }

  lemma {:induction false} EventsTake(h: HashFn, genesis: Digest, home: Home, events: seq<Event>, k: nat, m: Memory)
    requires Clockwork(home.time) && Orderly(events) && k <= |events| && NotShredded(events, k, m)
    requires Live(m) in RunEvents(h, genesis, home, events[..k]).memories
    ensures var before, v := RunEvents(h, genesis, home, events[..k]), RunEvents(h, genesis, home, events);
      && Live(m) in v.memories && Grows(before.footage, v.footage)
      && Takes(home.time, v.footage, EventLog(h, genesis, home, events), |before.footage|, m)
    decreases |events|
  {
    hide Sound, Apply, SealAll, SealAllLog, WalkBack, LogStep, Ascending, SeenOver, Takes, Grows;
    var before := RunEvents(h, genesis, home, events[..k]);
    if k == |events| {
      assert events[..k] == events;
      SameGrows(before.footage);
      NothingBeyond(home.time, before.footage, EventLog(h, genesis, home, events), m);
    } else {
      var n := |events| - 1;
      var v, log := RunEvents(h, genesis, home, events[..n]), EventLog(h, genesis, home, events[..n]);
      assert events[..n][..k] == events[..k];
      EventsTake(h, genesis, home, events[..n], k, m);
      EventsKeep(h, genesis, home, events[..n]);
      match events[n] {
        case Other(op) =>
          assert events[n] != Other(Shred(m.id));
          ApplyKeepsLive(h, genesis, v, op, m);
          OtherKeepsFootage(h, genesis, v, op);
          OtherKeepsLog(h, genesis, v, op, log);
        case Tick(now, settings, drafts) =>
          var dates := WalkFor(v, home.time, home.created, settings, now).pending;
          SealAllTakes(h, genesis, v, home.time, home.tz, dates, drafts, log, |before.footage|, m);
          GrowsOn(before.footage, v.footage,
                  SealAll(h, genesis, Sealer, v, home.time, home.tz, dates, drafts).1.footage);
      }
    }
  }

  lemma OtherKeepsLog(h: HashFn, genesis: Digest, v: State, op: Op, log: SealLog)
    requires !op.SealDay?
    ensures LogStep(h, genesis, v, op, log) == log
  {
  }

  lemma NothingBeyond(t: HomeTime, footage: seq<Footage>, log: SealLog, m: Memory)
    ensures Takes(t, footage, log, |footage|, m)
  {
  }

  // --- at least once ------------------------------------------------------------------------------------

  ghost predicate AllSealed(footage: seq<Footage>, lo: Date, hi: Date) {
    forall d: Date :: lo < d <= hi ==> d in Dates(footage)
  }

  ghost predicate NoneSealed(footage: seq<Footage>, lo: Date, hi: Date) {
    forall d: Date :: lo < d <= hi ==> d !in Dates(footage)
  }

  /** Sealed into day `s` of this stretch: the leaf of the memory is among the day's rows. */
  predicate SealedInto(h: HashFn, t: HomeTime, v: State, s: nat, lo: Date, hi: Date, m: Memory) {
    && 1 <= s <= |v.footage| && lo < v.footage[s - 1].date <= hi && InDay(t, v.footage[s - 1].date, m)
    && LeafRow(m.id, h(MemoryPreimage(m))) in LeavesOf(v, s)
  }

  /** At least once. Over every run of the sealer among other operations: a memory live
      before any date of a stretch was sealed, never shredded after, and whose time falls
      between the cutoffs of the stretch, is in a day of the stretch once all of it is
      sealed. */
  lemma SealedAtLeastOnce(h: HashFn, genesis: Digest, home: Home, events: seq<Event>, k: nat, lo: Date, hi: Date,
                          m: Memory) returns (s: nat)
    requires Clockwork(home.time) && Orderly(events) && k <= |events| && NotShredded(events, k, m)
    requires Live(m) in RunEvents(h, genesis, home, events[..k]).memories
    requires NoneSealed(RunEvents(h, genesis, home, events[..k]).footage, lo, hi)
    requires AllSealed(RunEvents(h, genesis, home, events).footage, lo, hi)
    requires lo < hi && FallsIn(Live(m), Cutoff(home.time, lo), Cutoff(home.time, hi))
    ensures SealedInto(h, home.time, RunEvents(h, genesis, home, events), s, lo, hi, m)
    ensures TakenBy(EventLog(h, genesis, home, events), s, m)
  {
    hide RunEvents, EventLog, DayWindow, FitsDay, MemoryPreimage;
    var before, v := RunEvents(h, genesis, home, events[..k]), RunEvents(h, genesis, home, events);
    var log := EventLog(h, genesis, home, events);
    var at := if m.occurredAt == None then m.ingestedAt else m.occurredAt.value;
    var d := NoInstantDropped(home.time, lo, hi, at);
    assert d in Dates(v.footage);
    var i :| 0 <= i < |v.footage| && v.footage[i].date == d;
    s := i + 1;
    EventsTake(h, genesis, home, events, k, m);
    EventsFit(h, genesis, home, events);
    EarlierIsSealed(before.footage, v.footage, i);
    assert InDay(home.time, v.footage[s - 1].date, m);
    assert TakenBy(log, s, m) && KeptDay(h, v, log, s);
    var j :| 0 <= j < |log[s]| && log[s][j] == m;
    assert MemoryLeaves(h, log[s])[j] == LeafRow(m.id, h(MemoryPreimage(m)));
  }

  lemma EarlierIsSealed(before: seq<Footage>, after: seq<Footage>, i: nat)
    requires Grows(before, after) && i < |after|
    ensures i < |before| ==> after[i].date in Dates(before)
  {
    if i < |before| {
      assert after[i] == after[..|before|][i];
      assert Dates(before)[i] == after[i].date;
    }
  }

  /** Exactly once, where every closing minute of the stretch exists. */
  lemma SealedExactlyOnce(h: HashFn, genesis: Digest, home: Home, events: seq<Event>, k: nat, lo: Date, hi: Date,
                          m: Memory) returns (s: nat)
    requires Clockwork(home.time) && Orderly(events) && k <= |events| && NotShredded(events, k, m)
    requires Live(m) in RunEvents(h, genesis, home, events[..k]).memories
    requires NoneSealed(RunEvents(h, genesis, home, events[..k]).footage, lo, hi)
    requires AllSealed(RunEvents(h, genesis, home, events).footage, lo, hi)
    requires InStretch(RunEvents(h, genesis, home, events), lo, hi)
    requires lo + 1 < hi && Regular(home.time, lo, hi) && Resolves(home.time, lo, hi)
    requires FallsIn(Live(m), Cutoff(home.time, lo), Cutoff(home.time, hi))
    ensures SealedInto(h, home.time, RunEvents(h, genesis, home, events), s, lo, hi, m)
    ensures forall a: nat :: TakenBy(EventLog(h, genesis, home, events), a, m) <==> a == s
  {
    hide RunEvents, EventLog, SealedInto, FallsIn, Clockwork, Regular;
    s := SealedAtLeastOnce(h, genesis, home, events, k, lo, hi, m);
    WindowsDisjointExact(home.time, lo, hi);
    SealedOnce(h, genesis, home, events, lo, hi);
  }
}
