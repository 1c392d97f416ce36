/** Which days a memory is sealed into. Each seal takes the live memories of its date's
    window, so over a stretch of dates no memory is taken twice exactly when the windows
    share no instant: when every closing minute of the stretch exists. */
module SealDueOnce {
  import opened Basics
  import opened Hashing
  import opened Merkle
  import opened MerkleLaws
  import opened Ordering
  import opened Calendar
  import opened Chain
  import opened Leaves
  import opened Vault
  import opened VaultLaws
  import opened VaultRuns
  import opened VaultContent
  import opened SealDue
  import opened SealDueRuns

  // --- what each seal of a run took -------------------------------------------------------------------

  function DateOp(t: HomeTime, tz: TzName, d: Date, drafts: Drafts): Op {
    SealDay(d, tz, DayWindow(t, d).0, DayWindow(t, d).1, WithQuests, drafts(d))
  }

  /** The log of a run of seals, stopping where the run stops. */
  function SealAllLog(h: HashFn, genesis: Digest, v: State, t: HomeTime, tz: TzName, dates: seq<Date>, drafts: Drafts,
                      log: SealLog): SealLog
    decreases |dates|
  {
    if dates == [] then log
    else
      var op := DateOp(t, tz, dates[0], drafts);
      match Seal(h, genesis, Sealer, v, op.date, op.tz, op.start, op.end, op.version, op.draftOk)
      case Err(_) => log
      case Ok(w) => SealAllLog(h, genesis, w, t, tz, dates[1..], drafts, LogStep(h, genesis, v, op, log))
  }

  function StepLog(h: HashFn, genesis: Digest, home: Home, v: State, e: Event, log: SealLog): SealLog {
    match e
    case Tick(now, settings, drafts) =>
      SealAllLog(h, genesis, v, home.time, home.tz, WalkFor(v, home.time, home.created, settings, now).pending,
          drafts, log)
    case Other(op) => LogStep(h, genesis, v, op, log)
  }

  /** By sequence number, the memories each day of a run was sealed over. */
  function EventLog(h: HashFn, genesis: Digest, home: Home, events: seq<Event>): SealLog {
    if events == [] then map[]
    else
      var before := events[..|events| - 1];
      StepLog(h, genesis, home, RunEvents(h, genesis, home, before), events[|events| - 1],
          EventLog(h, genesis, home, before))
  }

  // --- the log is what was sealed ----------------------------------------------------------------------

  predicate FitsDay(t: HomeTime, footage: seq<Footage>, log: SealLog, s: nat)
    requires 1 <= s <= |footage|
  {
    s in log && forall i :: 0 <= i < |log[s]| ==> Within(DayWindow(t, footage[s - 1].date), Effective(log[s][i]))
  }

  /** Every sealed day has an entry, its stored leaves are the entry's, and the memories of
      the entry fall in the day's window; there is no other entry. */
  ghost predicate Fits(h: HashFn, t: HomeTime, v: State, log: SealLog) {
    && Kept(h, v, log)
    && (forall s :: 1 <= s <= |v.footage| ==> FitsDay(t, v.footage, log, s))
    && (forall s :: s in log ==> 1 <= s <= |v.footage|)
  }

  lemma {:induction false} WindowTakes(rows: seq<MemoryRow>, start: i64, end: i64)
    ensures forall m :: m in Window(rows, start, end) ==> start <= Effective(m) < end
  {
    if rows != [] {
      WindowTakes(rows[1..], start, end);
    }
  }

  lemma SealFits(h: HashFn, genesis: Digest, t: HomeTime, tz: TzName, v: State, d: Date, drafts: Drafts, log: SealLog)
    requires Sound(h, genesis, v) && Fits(h, t, v, log)
    requires Seal(h, genesis, Sealer, v, d, tz, DayWindow(t, d).0, DayWindow(t, d).1, WithQuests, drafts(d)).Ok?
    ensures var (start, end) := DayWindow(t, d);
      var w := Seal(h, genesis, Sealer, v, d, tz, start, end, WithQuests, drafts(d)).value;
      Sound(h, genesis, w) && Fits(h, t, w, LogStep(h, genesis, v, DateOp(t, tz, d, drafts), log))
  {
    hide Seal, Sound, DaysFrozen, Kept, FitsDay, Window, DayWindow;
    var (start, end) := DayWindow(t, d);
    var w := Seal(h, genesis, Sealer, v, d, tz, start, end, WithQuests, drafts(d)).value;
    var op := DateOp(t, tz, d, drafts);
    SealKeeps(h, genesis, v, d, tz, start, end, WithQuests, drafts(d));
    StepLogs(h, genesis, v, op, log);
    SealAppends(h, genesis, Sealer, v, d, tz, start, end, WithQuests, drafts(d));
    SoundIsTipped(h, genesis, v);
    WindowTakes(v.memories, start, end);
    NewDayFits(t, v.footage, w.footage, log, LogStep(h, genesis, v, op, log), d, Window(v.memories, start, end));
  }

  lemma SoundIsTipped(h: HashFn, genesis: Digest, v: State)
    requires Sound(h, genesis, v)
    ensures TipSeq(v.footage) == |v.footage|
  {
    hide Intact, DaysGood;
    SeqNumbers(h, genesis, v.footage);
  }

  lemma NewDayFits(t: HomeTime, footage: seq<Footage>, later: seq<Footage>, log: SealLog, longer: SealLog, d: Date,
                   memories: seq<Memory>)
    requires longer == log[|footage| + 1 := memories]
    requires |later| == |footage| + 1 && later[..|footage|] == footage && later[|footage|].date == d
    requires forall s :: 1 <= s <= |footage| ==> FitsDay(t, footage, log, s)
    requires forall m :: m in memories ==> Within(DayWindow(t, d), Effective(m))
    ensures forall s :: 1 <= s <= |later| ==> FitsDay(t, later, longer, s)
  {
    hide DayWindow, Effective;
    forall s | 1 <= s <= |later|
      ensures FitsDay(t, later, longer, s)
    {
      if s <= |footage| {
        assert FitsDay(t, footage, log, s);
        assert later[s - 1] == later[..|footage|][s - 1];
      } else {
        assert forall i :: 0 <= i < |memories| ==> memories[i] in memories;
      }
    }
  }

  lemma {:induction false} SealAllFits(h: HashFn, genesis: Digest, v: State, t: HomeTime, tz: TzName, dates: seq<Date>,
                                       drafts: Drafts, log: SealLog)
    requires Sound(h, genesis, v) && Fits(h, t, v, log)
    ensures Fits(h, t, SealAll(h, genesis, Sealer, v, t, tz, dates, drafts).1,
        SealAllLog(h, genesis, v, t, tz, dates, drafts, log))
    decreases |dates|
  {
    hide Seal, Sound, Fits, DayWindow, LogStep;
    if dates != [] {
      var (start, end) := DayWindow(t, dates[0]);
      var sealing := Seal(h, genesis, Sealer, v, dates[0], tz, start, end, WithQuests, drafts(dates[0]));
      if sealing.Ok? {
        SealFits(h, genesis, t, tz, v, dates[0], drafts, log);
        SealAllFits(h, genesis, sealing.value, t, tz, dates[1..], drafts,
                    LogStep(h, genesis, v, DateOp(t, tz, dates[0], drafts), log));
      }
    }
  }

  lemma OtherFits(h: HashFn, genesis: Digest, t: HomeTime, v: State, op: Op, log: SealLog)
    requires Sound(h, genesis, v) && Fits(h, t, v, log) && !op.SealDay?
    ensures Fits(h, t, Apply(h, genesis, v, op), LogStep(h, genesis, v, op, log))
  {
    hide Sound, Kept, FitsDay, Apply;
    StepLogs(h, genesis, v, op, log);
    OtherKeepsFootage(h, genesis, v, op);
  }

  /** Along every run, the log says what each day was sealed over. */
  lemma {:induction false} EventsFit(h: HashFn, genesis: Digest, home: Home, events: seq<Event>)
    requires Clockwork(home.time) && Orderly(events)
    ensures Fits(h, home.time, RunEvents(h, genesis, home, events), EventLog(h, genesis, home, events))
    decreases |events|
  {
    hide Sound, Apply, SealAll, SealAllLog, WalkBack, LogStep, Ascending, SeenOver, KeptDay, FitsDay;
    if events != [] {
      var k := |events| - 1;
      var v, log := RunEvents(h, genesis, home, events[..k]), EventLog(h, genesis, home, events[..k]);
      EventsFit(h, genesis, home, events[..k]);
      EventsKeep(h, genesis, home, events[..k]);
      match events[k] {
        case Other(op) => OtherFits(h, genesis, home.time, v, op, log);
        case Tick(now, settings, drafts) =>
          SealAllFits(h, genesis, v, home.time, home.tz, WalkFor(v, home.time, home.created, settings, now).pending,
              drafts, log);
      }
    }
  }

  // --- once ----------------------------------------------------------------------------------------------

  predicate TakenBy(log: SealLog, s: nat, m: Memory) {
    s in log && m in log[s]
  }

  /** No memory was sealed into two days. */
  ghost predicate Once(log: SealLog) {
    forall a: nat, b: nat, m: Memory :: TakenBy(log, a, m) && TakenBy(log, b, m) ==> a == b
  }

  /** Every date sealed lies in the stretch. */
  ghost predicate InStretch(v: State, lo: Date, hi: Date) {
    forall i :: 0 <= i < |v.footage| ==> lo < v.footage[i].date <= hi
  }

  lemma TakenInWindow(h: HashFn, t: HomeTime, v: State, log: SealLog, s: nat, m: Memory)
    requires Fits(h, t, v, log) && TakenBy(log, s, m)
    ensures 1 <= s <= |v.footage| && Within(DayWindow(t, v.footage[s - 1].date), Effective(m))
  {
    hide Kept, DayWindow, Effective;
    assert FitsDay(t, v.footage, log, s);
    var i :| 0 <= i < |log[s]| && log[s][i] == m;
  }

  /** Where every closing minute of the stretch exists, no run of the sealer among other
      operations seals a memory into two of its days. */
  lemma SealedOnce(h: HashFn, genesis: Digest, home: Home, events: seq<Event>, lo: Date, hi: Date)
    requires Clockwork(home.time) && Orderly(events) && InStretch(RunEvents(h, genesis, home, events), lo, hi)
    requires Disjoint(home.time, lo, hi)
    ensures Once(EventLog(h, genesis, home, events))
  {
    hide RunEvents, EventLog, DayWindow, Effective, Fits, Within;
    var t, v, log := home.time, RunEvents(h, genesis, home, events), EventLog(h, genesis, home, events);
    EventsFit(h, genesis, home, events);
    EventsAscend(h, genesis, home, events);
    forall a: nat, b: nat, m: Memory | TakenBy(log, a, m) && TakenBy(log, b, m)
      ensures a == b
    {
      TakenInWindow(h, t, v, log, a, m);
      TakenInWindow(h, t, v, log, b, m);
      var x, y := v.footage[a - 1].date, v.footage[b - 1].date;
      assert a < b ==> Overlap(t, x, y, Effective(m));
      assert b < a ==> Overlap(t, y, x, Effective(m));
    }
  }

  lemma EventsAscend(h: HashFn, genesis: Digest, home: Home, events: seq<Event>)
    requires Clockwork(home.time) && Orderly(events)
    ensures var f := RunEvents(h, genesis, home, events).footage;
      forall i, j :: 0 <= i < j < |f| ==> f[i].date < f[j].date
  {
    hide RunEvents, Verified;
    DatesAscendWithSeq(h, genesis, home, events);
  }

  // --- twice ---------------------------------------------------------------------------------------------

  const ONE_DAY := Settings(0, 1)

  function EveryDraft(d: Date): bool { true }

  /** The leaf digests of a day over one memory differ, so its tree builds. */
  predicate Apart(h: HashFn, home: Home, s: u64, d: Date, m: Memory) {
    MetaDigest(h, s, d, home.tz, 1) != h(MemoryPreimage(m))
  }

  /** A store of one memory and some sealed days, about to seal one more. */
  predicate OneMemory(v: State, m: Memory, n: nat) {
    v.memories == [Live(m)] && v.quests == [] && |v.footage| == n && TipSeq(v.footage) == n
  }

  lemma SealsOne(h: HashFn, genesis: Digest, home: Home, v: State, d: Date, m: Memory, n: nat)
    requires OneMemory(v, m, n) && n < 10 && SealedDate(v.footage, d).None?
    requires Within(DayWindow(home.time, d), Effective(m)) && Apart(h, home, n + 1, d, m)
    ensures var (start, end) := DayWindow(home.time, d);
      var sealing := Seal(h, genesis, Sealer, v, d, home.tz, start, end, WithQuests, true);
      && sealing.Ok? && OneMemory(sealing.value, m, n + 1)
      && sealing.value.footage[..n] == v.footage && sealing.value.footage[n].date == d
    ensures Window(v.memories, DayWindow(home.time, d).0, DayWindow(home.time, d).1) == [m]
  {
    hide MemoryPreimage, MetaPreimage, LinkPreimage, DayWindow, RootOf, BuildRoot, Window;
    var (start, end) := DayWindow(home.time, d);
    OneWindow(m, start, end);
    OneBuilds(h, v, home, d, m, n);
    assert MarkCommitted([], n + 1, [], []) == [];
    assert QuestsStamped([], None) == [] && VerdictsStamped([], None) == [];
    assert Ids([]) == [];
  }

  lemma OneWindow(m: Memory, start: i64, end: i64)
    requires start <= Effective(m) < end
    ensures Window([Live(m)], start, end) == [m]
  {
    hide Effective;
    assert [Live(m)][1..] == [] && Window([], start, end) == [] && [m] + [] == [m];
  }

  lemma OneBuilds(h: HashFn, v: State, home: Home, d: Date, m: Memory, n: nat)
    requires v.quests == [] && n < 10 && Apart(h, home, n + 1, d, m)
    ensures BuildRoot(h, v, [m], WithQuests, n + 1, d, home.tz).Ok?
  {
    hide MemoryPreimage, MetaPreimage, RootOf;
    var ds := [MetaDigest(h, n + 1, d, home.tz, 1), h(MemoryPreimage(m))];
    TwoLeaves(ds[0], ds[1]);
    NoActivity(h);
    assert LeafDigests(MemoryLeaves(h, [m])) == [ds[1]];
    assert [ds[0]] + [ds[1]] + [] == ds;
    assert DayLeaves(h, v, [m], WithQuests, n + 1, d, home.tz) == Ok(ds);
  }

  lemma TwoLeaves(a: Digest, b: Digest)
    requires a != b
    ensures Sealed([a, b]).Ok?
  {
    hide Raw;
    if Raw(a) == Raw(b) {
      RawInjective(a, b);
    }
    SealedExact([a, b]);
  }

  lemma NoActivity(h: HashFn)
    ensures ActivityLeaves(h, [], None) == Ok([])
  {
    var none: seq<Digest> := [];
    assert QuestsStamped([], None) == [] && VerdictsStamped([], None) == [];
    assert QuestLeaves(h, []) == none && VerdictLeaves(h, []) == Ok(none) && none + none == none;
  }

  /** A run of the sealer the day after `d`, looking at that one date. */
  lemma TickSealsOne(h: HashFn, genesis: Digest, home: Home, v: State, now: i64, d: Date, m: Memory, n: nat,
                     log: SealLog)
    requires OneMemory(v, m, n) && n < 10 && !Stops(v.footage, home.created, d)
    requires d > FIRST_DATE && home.time.dayOf(now) == d + 1 && now >= Cutoff(home.time, d)
    requires Within(DayWindow(home.time, d), Effective(m)) && Apart(h, home, n + 1, d, m)
    ensures var w := Step(h, genesis, home, v, Tick(now, ONE_DAY, EveryDraft));
      OneMemory(w, m, n + 1) && w.footage[..n] == v.footage && w.footage[n].date == d
    ensures StepLog(h, genesis, home, v, Tick(now, ONE_DAY, EveryDraft), log) == log[n + 1 := [m]]
  {
    hide Seal, Window, Effective, DayWindow, Apart;
    SealsOne(h, genesis, home, v, d, m, n);
    var t := home.time;
    assert Yesterday(t, now) == d;
    assert Due(t, 0, now, d);
    OneDateWalk(t, v.footage, home.created, now, d);
    var dates := [d];
    assert dates[1..] == [];
    var w := Seal(h, genesis, Sealer, v, d, home.tz, DayWindow(t, d).0, DayWindow(t, d).1, WithQuests, true).value;
    assert SealAll(h, genesis, Sealer, w, t, home.tz, [], EveryDraft).1 == w;
    assert SealAll(h, genesis, Sealer, v, t, home.tz, dates, EveryDraft).1 == w;
    assert LogStep(h, genesis, v, DateOp(t, home.tz, d, EveryDraft), log) == log[n + 1 := [m]];
    assert SealAllLog(h, genesis, w, t, home.tz, [], EveryDraft, log[n + 1 := [m]]) == log[n + 1 := [m]];
    assert SealAllLog(h, genesis, v, t, home.tz, dates, EveryDraft, log) == log[n + 1 := [m]];
  }

  lemma OneDateWalk(t: HomeTime, footage: seq<Footage>, created: Option<Date>, now: i64, d: Date)
    requires d > FIRST_DATE && !Stops(footage, created, d) && Due(t, 0, now, d)
    ensures WalkBack(t, footage, created, 0, now, d, 1).pending == [d]
  {
    hide Stops, Due;
    assert WalkBack(t, footage, created, 0, now, d - 1, 0) == Walk([], None);
    assert [] + [d] == [d];
  }

  /** One memory, and the sealer run the day after each of two dates. */
  function TwiceEvents(m: Memory, first: i64, second: i64): seq<Event> {
    [Other(StoreMemory(m)), Tick(first, ONE_DAY, EveryDraft), Tick(second, ONE_DAY, EveryDraft)]
  }

  /** A memory in the windows of two dates is sealed into both. */
  lemma SealedTwice(h: HashFn, genesis: Digest, home: Home, m: Memory, x: Date, y: Date, first: i64, second: i64)
    requires FIRST_DATE < x < y && (home.created.Some? ==> home.created.value <= x)
    requires home.time.dayOf(first) == x + 1 && first >= Cutoff(home.time, x)
    requires home.time.dayOf(second) == y + 1 && second >= Cutoff(home.time, y)
    requires Overlap(home.time, x, y, Effective(m)) && Apart(h, home, 1, x, m) && Apart(h, home, 2, y, m)
    ensures EventLog(h, genesis, home, TwiceEvents(m, first, second)) == map[1 := [m], 2 := [m]]
    ensures var v := RunEvents(h, genesis, home, TwiceEvents(m, first, second));
      |v.footage| == 2 && v.footage[0].date == x && v.footage[1].date == y
  {
    hide Step, StepLog, Apart, Cutoff, Effective, DayWindow, Within;
    var events := TwiceEvents(m, first, second);
    var one := State([Live(m)], [], [], map[], map[]);
    StoredFirst(h, genesis, home, m);
    assert events[..0] == [] && events[..1][..0] == [] && events[..2][..1] == events[..1] && events[..3] == events;
    assert RunEvents(h, genesis, home, []) == FRESH;
    assert RunEvents(h, genesis, home, events[..1]) == one;
    assert EventLog(h, genesis, home, events[..1]) == map[];
    TickSealsOne(h, genesis, home, one, first, x, m, 0, map[]);
    var two := Step(h, genesis, home, one, Tick(first, ONE_DAY, EveryDraft));
    assert RunEvents(h, genesis, home, events[..2]) == two;
    assert EventLog(h, genesis, home, events[..2]) == map[1 := [m]];
    assert Dates(two.footage) == [x];
    SealedDateExact(two.footage, y);
    TickSealsOne(h, genesis, home, two, second, y, m, 1, map[1 := [m]]);
    assert events[..|events| - 1] == events[..2];
  }

  lemma StoredFirst(h: HashFn, genesis: Digest, home: Home, m: Memory)
    ensures Step(h, genesis, home, FRESH, Other(StoreMemory(m))) == State([Live(m)], [], [], map[], map[])
    ensures StepLog(h, genesis, home, FRESH, Other(StoreMemory(m)), map[]) == map[]
  {
    assert [Live(m)] + [] == [Live(m)];
  }

  // --- exactly when ----------------------------------------------------------------------------------------

  /** The sealer can be run the day after a date, once the date is over. */
  predicate RunsAfter(home: Home, d: Date, now: i64) {
    home.time.dayOf(now) == d + 1 && now >= Cutoff(home.time, d)
  }

  ghost predicate HasRunAfter(home: Home, d: Date) {
    exists now: i64 :: RunsAfter(home, d, now)
  }

  ghost predicate CanRunAfter(home: Home, lo: Date, hi: Date) {
    forall d: Date :: lo < d <= hi ==> HasRunAfter(home, d)
  }

  /** The run is the sealer's, within the stretch. */
  ghost predicate RunWithin(h: HashFn, genesis: Digest, home: Home, events: seq<Event>, lo: Date, hi: Date) {
    Orderly(events) && InStretch(RunEvents(h, genesis, home, events), lo, hi)
  }

  ghost predicate OnceOn(h: HashFn, genesis: Digest, home: Home, events: seq<Event>, lo: Date, hi: Date) {
    RunWithin(h, genesis, home, events, lo, hi) ==> Once(EventLog(h, genesis, home, events))
  }

  /** Over a stretch of dates whose ends close when they should, no run of the sealer ever
      seals a memory into two days, if and only if every closing minute of the stretch
      exists. Where one does not, the memory that closes the date before the stretch is
      sealed into its first date and again after the missing one. The hash has only to
      keep that memory's leaf apart from the metadata leaves of those days. */
  lemma SealedOnceExact(h: HashFn, genesis: Digest, home: Home, lo: Date, hi: Date, m: Memory)
    requires Clockwork(home.time) && Regular(home.time, lo, hi) && CanRunAfter(home, lo, hi) && FIRST_DATE < lo
    requires lo + 1 < hi && (home.created.Some? ==> home.created.value <= lo + 1)
    requires home.time.resolve(lo).Some? && home.time.resolve(lo + 1).Some? && home.time.resolve(hi).Some?
    requires Effective(m) == Cutoff(home.time, lo)
    requires Apart(h, home, 1, lo + 1, m) && forall d: Date :: lo < d <= hi ==> Apart(h, home, 2, d, m)
    ensures Resolves(home.time, lo, hi) <==> forall events: seq<Event> :: OnceOn(h, genesis, home, events, lo, hi)
  {
    hide RunEvents, EventLog, Effective, Apart;
    WindowsDisjointExact(home.time, lo, hi);
    if Resolves(home.time, lo, hi) {
      forall events: seq<Event>
        ensures OnceOn(h, genesis, home, events, lo, hi)
      {
        if RunWithin(h, genesis, home, events, lo, hi) {
          SealedOnce(h, genesis, home, events, lo, hi);
        }
      }
    } else {
      var events := MissingMinuteSealsTwice(h, genesis, home, lo, hi, m);
      assert !OnceOn(h, genesis, home, events, lo, hi);
    }
  }

  lemma MissingMinuteSealsTwice(h: HashFn, genesis: Digest, home: Home, lo: Date, hi: Date, m: Memory)
    returns (events: seq<Event>)
    requires Clockwork(home.time) && Regular(home.time, lo, hi) && CanRunAfter(home, lo, hi) && FIRST_DATE < lo
    requires lo + 1 < hi && (home.created.Some? ==> home.created.value <= lo + 1)
    requires home.time.resolve(lo).Some? && home.time.resolve(lo + 1).Some? && home.time.resolve(hi).Some?
    requires Effective(m) == Cutoff(home.time, lo) && !Resolves(home.time, lo, hi)
    requires Apart(h, home, 1, lo + 1, m) && forall d: Date :: lo < d <= hi ==> Apart(h, home, 2, d, m)
    ensures RunWithin(h, genesis, home, events, lo, hi) && !Once(EventLog(h, genesis, home, events))
  {
    hide RunEvents, EventLog, Effective, Apart;
    var t := home.time;
    var g: Date :| lo <= g <= hi && t.resolve(g).None?;
    var y := NoInstantDropped(t, g, hi, Cutoff(t, lo));
    var x: Date := lo + 1;
    assert HasRunAfter(home, x) && HasRunAfter(home, y);
    var first: i64 :| RunsAfter(home, x, first);
    var second: i64 :| RunsAfter(home, y, second);
    assert Overlap(t, x, y, Effective(m));
    SealedTwice(h, genesis, home, m, x, y, first, second);
    events := TwiceEvents(m, first, second);
    assert second < first ==> t.dayOf(second) <= t.dayOf(first);
    assert TakenBy(EventLog(h, genesis, home, events), 1, m) && TakenBy(EventLog(h, genesis, home, events), 2, m);
  }
}
