/** Sealing what is due, over whole runs: the chain stays sound, dates ascend with their
    sequence numbers, and a date left behind a sealed one is never sealed later. */
module SealDueRuns {
  import opened Basics
  import opened Hashing
  import opened Calendar
  import opened Chain
  import opened Leaves
  import opened Vault
  import opened VaultLaws
  import opened VaultRuns
  import opened SealDue

  /** A run of seals keeps the vault sound and every earlier day as it was. */
  lemma {:induction false} SealAllKeeps(h: HashFn, genesis: Digest, v: State, t: HomeTime, tz: TzName,
                                        dates: seq<Date>, drafts: Drafts)
    requires Sound(h, genesis, v)
    ensures var w := SealAll(h, genesis, Sealer, v, t, tz, dates, drafts).1;
      Sound(h, genesis, w) && DaysFrozen(h, v, w)
    decreases |dates|
  {
    hide Seal, Sound, DaysFrozen, DayWindow;
    Unrelated(h, genesis, v, v);
    if dates != [] {
      var (start, end) := DayWindow(t, dates[0]);
      var sealing := Seal(h, genesis, Sealer, v, dates[0], tz, start, end, WithQuests, drafts(dates[0]));
      if sealing.Ok? {
        SealKeeps(h, genesis, v, dates[0], tz, start, end, WithQuests, drafts(dates[0]));
        SealAllKeeps(h, genesis, sealing.value, t, tz, dates[1..], drafts);
        FrozenTransitive(h, v, sealing.value, SealAll(h, genesis, Sealer, sealing.value, t, tz, dates[1..], drafts).1);
      }
    }
  }

  // --- runs of the sealer and everything else ---------------------------------------------------------

  datatype Event = Tick(now: i64, settings: Settings, drafts: Drafts) | Other(op: Op)

  datatype Home = Home(time: HomeTime, tz: TzName, created: Option<Date>)

  function Step(h: HashFn, genesis: Digest, home: Home, v: State, e: Event): State {
    match e
    case Tick(now, settings, drafts) =>
      SealedDue(h, genesis, Sealer, v, home.time, home.tz, home.created, settings, now, drafts).1
    case Other(op) => Apply(h, genesis, v, op)
  }

  function RunEvents(h: HashFn, genesis: Digest, home: Home, events: seq<Event>): State {
    if events == [] then FRESH
    else Step(h, genesis, home, RunEvents(h, genesis, home, events[..|events| - 1]), events[|events| - 1])
  }

  /** The home clock: a later instant is on no earlier date. */
  ghost predicate Clockwork(t: HomeTime) {
    forall a: i64, b: i64 :: a <= b ==> FIRST_DATE < t.dayOf(a) <= t.dayOf(b)
  }

  /** The sealer's clock never goes back, and nothing but the sealer seals. */
  ghost predicate Orderly(events: seq<Event>) {
    && (forall i, j :: 0 <= i < j < |events| && events[i].Tick? && events[j].Tick? ==> events[i].now <= events[j].now)
    && (forall i :: 0 <= i < |events| && events[i].Other? ==> !events[i].op.SealDay?)
  }

  ghost predicate AllBefore(dates: seq<Date>, d: Date) {
    forall i :: 0 <= i < |dates| ==> dates[i] < d
  }

  /** Every sealed date is over at some instant the sealer has seen. */
  ghost predicate SeenOver(events: seq<Event>, t: HomeTime, dates: seq<Date>) {
    dates != [] ==> exists i :: 0 <= i < |events| && events[i].Tick? && AllBefore(dates, t.dayOf(events[i].now))
  }

  /** What the walk collects lies after every date already sealed. */
  lemma PendingIsLater(t: HomeTime, footage: seq<Footage>, created: Option<Date>, s: Settings, now: i64, sealed: Date,
                       d: Date)
    requires sealed in Dates(footage) && sealed <= Yesterday(t, now)
    requires d in WalkBack(t, footage, created, s.graceHours, now, Yesterday(t, now), s.maxBackfillDays).pending
    ensures sealed < d <= Yesterday(t, now)
  {
    hide Due, WalkBack, Reach;
    WalkExact(t, footage, created, s.graceHours, now, Yesterday(t, now), s.maxBackfillDays);
    ReachExact(footage, created, Yesterday(t, now), s.maxBackfillDays);
    SealedDateExact(footage, sealed);
    assert Stops(footage, created, sealed);
  }

  lemma AscendingJoin(a: seq<Date>, b: seq<Date>, n: nat)
    requires Ascending(a) && Ascending(b) && n <= |b|
    requires forall i, j :: 0 <= i < |a| && 0 <= j < |b| ==> a[i] < b[j]
    ensures Ascending(a + b[..n])
  {
  }

  lemma TickAscends(h: HashFn, genesis: Digest, home: Home, v: State, now: i64, s: Settings, drafts: Drafts)
    requires Clockwork(home.time)
    requires Ascending(Dates(v.footage)) && AllBefore(Dates(v.footage), home.time.dayOf(now))
    ensures var w := Step(h, genesis, home, v, Tick(now, s, drafts));
      Ascending(Dates(w.footage)) && AllBefore(Dates(w.footage), home.time.dayOf(now))
  {
    hide SealAll, WalkBack, Ascending, Dates;
    var t := home.time;
    var walk := WalkFor(v, t, home.created, s, now);
    var before := Dates(v.footage);
    var n := SealAllAppends(h, genesis, Sealer, v, t, home.tz, walk.pending, drafts);
    WalkExact(t, v.footage, home.created, s.graceHours, now, Yesterday(t, now), s.maxBackfillDays);
    forall i, j | 0 <= i < |before| && 0 <= j < |walk.pending|
      ensures before[i] < walk.pending[j]
    {
      assert before[i] in before && walk.pending[j] in walk.pending;
      PendingIsLater(t, v.footage, home.created, s, now, before[i], walk.pending[j]);
    }
    forall j | 0 <= j < |walk.pending|
      ensures walk.pending[j] < t.dayOf(now)
    {
      assert walk.pending[j] in walk.pending;
    }
    AscendingJoin(before, walk.pending, n);
  }

  lemma {:induction false} EventsKeep(h: HashFn, genesis: Digest, home: Home, events: seq<Event>)
    requires Clockwork(home.time) && Orderly(events)
    ensures var v := RunEvents(h, genesis, home, events);
      Sound(h, genesis, v) && Ascending(Dates(v.footage)) && SeenOver(events, home.time, Dates(v.footage))
    decreases |events|
  {
    hide Sound, Ascending, AllBefore, Apply, SealAll, WalkBack, DaysFrozen, Dates;
    if events == [] {
      FreshIsSound(h, genesis);
      NothingYet();
    } else {
      var k := |events| - 1;
      var v := RunEvents(h, genesis, home, events[..k]);
      var dates := Dates(v.footage);
      EventsKeep(h, genesis, home, events[..k]);
      match events[k] {
        case Other(op) =>
          StepKeeps(h, genesis, v, op);
          OtherKeepsFootage(h, genesis, v, op);
          SeenLater(events, k, home.time, dates);
        case Tick(now, settings, drafts) =>
          if dates == [] {
            NothingYet();
          } else {
            LaterStill(events, k, home.time, dates);
          }
          TickAscends(h, genesis, home, v, now, settings, drafts);
          SealAllKeeps(h, genesis, v, home.time, home.tz, WalkFor(v, home.time, home.created, settings, now).pending,
              drafts);
      }
    }
  }

  lemma NothingYet()
    ensures Dates(FRESH.footage) == [] && Ascending([])
    ensures forall d :: AllBefore([], d)
  {
  }

  lemma OtherKeepsFootage(h: HashFn, genesis: Digest, v: State, op: Op)
    requires !op.SealDay?
    ensures Apply(h, genesis, v, op).footage == v.footage
  {
    if op.Answer? {
      AnswerShape(v, op.id, op.verdict, op.now, op.slotId, op.slotSalt, op.commitmentOk);
    }
  }

  lemma SeenLater(events: seq<Event>, k: nat, t: HomeTime, dates: seq<Date>)
    requires k < |events| && SeenOver(events[..k], t, dates)
    ensures SeenOver(events, t, dates)
  {
    hide AllBefore;
    if dates != [] {
      var i :| 0 <= i < k && events[..k][i].Tick? && AllBefore(dates, t.dayOf(events[..k][i].now));
      assert events[i] == events[..k][i];
    }
  }

  lemma LaterStill(events: seq<Event>, k: nat, t: HomeTime, dates: seq<Date>)
    requires k < |events| && events[k].Tick? && Orderly(events) && Clockwork(t)
    requires dates != [] && SeenOver(events[..k], t, dates)
    ensures AllBefore(dates, t.dayOf(events[k].now))
  {
    var i :| 0 <= i < k && events[..k][i].Tick? && AllBefore(dates, t.dayOf(events[..k][i].now));
    assert events[i] == events[..k][i];
  }

  /** Over every run in which only the sealer seals and its clock never goes back,
      between any other operations and whatever refusals it meets, a later sequence
      number is a later date; and the whole history verifies. */
  lemma DatesAscendWithSeq(h: HashFn, genesis: Digest, home: Home, events: seq<Event>)
    requires Clockwork(home.time) && Orderly(events)
    ensures var f := RunEvents(h, genesis, home, events).footage;
      forall i, j :: 0 <= i < j < |f| ==> f[i].seqNo < f[j].seqNo && f[i].date < f[j].date
    ensures var v := RunEvents(h, genesis, home, events);
      Verified(h, genesis, Sealer, v).Ok? && Verified(h, genesis, Sealer, v).value.chainOk
      && Verified(h, genesis, Sealer, v).value.rootsOk && Verified(h, genesis, Sealer, v).value.days == |v.footage|
  {
    hide RunEvents, CheckDay, CheckDays, Intact, VerdictFrom;
    var v := RunEvents(h, genesis, home, events);
    EventsKeep(h, genesis, home, events);
    SeqNumbers(h, genesis, v.footage);
    VerdictExact(h, genesis, Records(v.footage));
    GoodDaysPass(h, v, v.footage, CleanReport(|v.footage|));
    assert forall i :: 0 <= i < |v.footage| ==> Dates(v.footage)[i] == v.footage[i].date;
  }

  // --- dates left behind ------------------------------------------------------------------------------------

  /** The walk stops at the first sealed date it meets, so one run leaves an unsealed
      date behind it unsealed. */
  lemma LeftBehind(h: HashFn, genesis: Digest, role: Role, home: Home, v: State, s: Settings, now: i64,
                   drafts: Drafts, sealed: Date, d: Date)
    requires sealed in Dates(v.footage) && d < sealed <= Yesterday(home.time, now) && d !in Dates(v.footage)
    ensures var w := SealedDue(h, genesis, role, v, home.time, home.tz, home.created, s, now, drafts).1;
      d !in Dates(w.footage) && sealed in Dates(w.footage)
  {
    hide SealAll, WalkBack, Dates;
    var walk := WalkFor(v, home.time, home.created, s, now);
    var n := SealAllAppends(h, genesis, role, v, home.time, home.tz, walk.pending, drafts);
    if d in walk.pending[..n] {
      PendingIsLater(home.time, v.footage, home.created, s, now, sealed, d);
      assert false;
    }
  }

  /** And no later run ever seals it: once a date stands unsealed behind a sealed one, it
      is unsealed at every later point of every run of the sealer among other operations. */
  lemma {:induction false} LeftBehindForGood(h: HashFn, genesis: Digest, home: Home, events: seq<Event>, n: nat,
                                             sealed: Date, d: Date)
    requires Clockwork(home.time) && Orderly(events) && n <= |events|
    requires sealed in Dates(RunEvents(h, genesis, home, events[..n]).footage)
    requires d < sealed && d !in Dates(RunEvents(h, genesis, home, events[..n]).footage)
    ensures sealed in Dates(RunEvents(h, genesis, home, events).footage)
    ensures d !in Dates(RunEvents(h, genesis, home, events).footage)
    decreases |events|
  {
    hide Apply, SealedDue, Dates, Sound, Ascending;
    if n == |events| {
      assert events[..n] == events;
    } else {
      var k := |events| - 1;
      var v := RunEvents(h, genesis, home, events[..k]);
      assert events[..k][..n] == events[..n];
      LeftBehindForGood(h, genesis, home, events[..k], n, sealed, d);
      match events[k] {
        case Other(op) => OtherKeepsFootage(h, genesis, v, op);
        case Tick(now, settings, drafts) =>
          EventsKeep(h, genesis, home, events[..k]);
          LaterStill(events, k, home.time, Dates(v.footage));
          MemberBefore(Dates(v.footage), home.time.dayOf(now), sealed);
          LeftBehind(h, genesis, Sealer, home, v, settings, now, drafts, sealed, d);
      }
    }
  }

  lemma MemberBefore(dates: seq<Date>, bound: Date, d: Date)
    requires AllBefore(dates, bound) && d in dates
    ensures d < bound
  {
  }

  /** A missing closing minute can leave the day before unsealed for ever: yesterday,
      its cutoff read as the epoch, is sealed at once, while the date before it is still
      inside its grace. */
  lemma MissingMinuteStrands(h: HashFn, genesis: Digest, role: Role, home: Home, v: State, s: Settings, now: i64,
                             drafts: Drafts)
    requires var g := Yesterday(home.time, now);
      && g > FIRST_DATE && home.time.resolve(g).None? && now >= Saturate64(s.graceHours * 3_600_000)
      && !Due(home.time, s.graceHours, now, g - 1)
      && g !in Dates(v.footage) && g - 1 !in Dates(v.footage)
      && (home.created.Some? ==> home.created.value < g) && s.maxBackfillDays >= 1
    requires SealedDue(h, genesis, role, v, home.time, home.tz, home.created, s, now, drafts).0.Ok?
    ensures var g := Yesterday(home.time, now);
      var w := SealedDue(h, genesis, role, v, home.time, home.tz, home.created, s, now, drafts).1;
      g in Dates(w.footage) && g - 1 !in Dates(w.footage)
  {
    hide SealAll, WalkBack, Dates;
    var g := Yesterday(home.time, now);
    SealedDateExact(v.footage, g);
    SealDueExact(h, genesis, role, v, home.time, home.tz, home.created, s, now, drafts);
    assert !Stops(v.footage, home.created, g);
    assert Reach(v.footage, home.created, g, s.maxBackfillDays) >= 1;
    assert Due(home.time, s.graceHours, now, g);
    var sealed := SealedDue(h, genesis, role, v, home.time, home.tz, home.created, s, now, drafts).0.value.sealed;
    assert g in sealed && g - 1 !in sealed;
  }
}
