/** Day windows, and sealing whatever is due.

    A cutoff is the first instant the home zone gives for the day's closing minute. On a
    date whose closing minute a clock change skips there is none, and the code uses the
    epoch (the comment beside it says the earliest candidate is taken there too). What
    that does to the windows and to the backfill is proved here, exactly. */
module SealDue {
  import opened Basics
  import opened Hashing
  import opened Calendar
  import opened Chain
  import opened Leaves
  import opened Vault
  import opened VaultLaws
  import opened VaultRuns

  /** The home zone: when a date's closing minute falls, and which date an instant is on. */
  datatype HomeTime = HomeTime(resolve: Date -> Option<i64>, dayOf: i64 -> Date)

  const FIRST_DATE: Date := -99_999_999

  function Pred(d: Date): Option<Date> {
    if d > FIRST_DATE then Some(d - 1) else None
  }

  function Cutoff(t: HomeTime, d: Date): i64 {
    match t.resolve(d)
    case Some(millis) => millis
    case None => 0
  }

  /** The half-open window of one date: from the cutoff before to its own. */
  function DayWindow(t: HomeTime, d: Date): (i64, i64) {
    (Cutoff(t, if Pred(d).Some? then Pred(d).value else d), Cutoff(t, d))
  }

  predicate Within(window: (i64, i64), instant: int) {
    window.0 <= instant < window.1
  }

  // --- windows ----------------------------------------------------------------------------------

  /** No instant between two cutoffs falls outside every window between them. */
  lemma {:induction false} NoInstantDropped(t: HomeTime, lo: Date, hi: Date, instant: int) returns (d: Date)
    requires lo < hi && Cutoff(t, lo) <= instant < Cutoff(t, hi)
    ensures lo < d <= hi && Within(DayWindow(t, d), instant)
    decreases hi - lo
  {
    if Cutoff(t, hi - 1) <= instant {
      d := hi;
    } else {
      d := NoInstantDropped(t, lo, hi - 1, instant);
    }
  }

  /** Where the closing minute exists, a later date closes later, and after the epoch. */
  ghost predicate Regular(t: HomeTime, lo: Date, hi: Date) {
    && (forall d: Date :: lo <= d <= hi && t.resolve(d).Some? ==> t.resolve(d).value > 0)
    && (forall a: Date, b: Date :: lo <= a < b <= hi && t.resolve(a).Some? && t.resolve(b).Some?
          ==> t.resolve(a).value < t.resolve(b).value)
  }

  ghost predicate Resolves(t: HomeTime, lo: Date, hi: Date) {
    forall d: Date :: lo <= d <= hi ==> t.resolve(d).Some?
  }

  predicate Overlap(t: HomeTime, a: Date, b: Date, instant: int) {
    Within(DayWindow(t, a), instant) && Within(DayWindow(t, b), instant)
  }

  ghost predicate Disjoint(t: HomeTime, lo: Date, hi: Date) {
    forall a: Date, b: Date, instant: int :: lo < a < b <= hi ==> !Overlap(t, a, b, instant)
  }

  /** No instant belongs to two days of a stretch exactly when every closing minute in
      it exists. One that does not makes the next window reach back to the epoch. */
  lemma WindowsDisjointExact(t: HomeTime, lo: Date, hi: Date)
    requires lo + 1 < hi && Regular(t, lo, hi)
    requires t.resolve(lo).Some? && t.resolve(lo + 1).Some? && t.resolve(hi).Some?
    ensures Disjoint(t, lo, hi) <==> Resolves(t, lo, hi)
  {
    if Resolves(t, lo, hi) {
      forall a: Date, b: Date, instant: int | lo < a < b <= hi
        ensures !Overlap(t, a, b, instant)
      {
        assert a == b - 1 || t.resolve(a).value < t.resolve(b - 1).value;
      }
    } else {
      var g: Date :| lo <= g <= hi && t.resolve(g).None?;
      var instant := Cutoff(t, lo);
      var d := NoInstantDropped(t, g, hi, instant);
      assert Overlap(t, lo + 1, d, instant);
    }
  }

  // --- the walk back --------------------------------------------------------------------------------

  const I64_MAX: int := 0x7FFF_FFFF_FFFF_FFFF

  function Saturate64(n: int): i64 {
    if n > I64_MAX then I64_MAX else if n < -I64_MAX - 1 then -I64_MAX - 1 else n
  }

  /** When a date may be sealed: its cutoff plus the grace. */
  function Threshold(t: HomeTime, graceHours: u32, d: Date): i64 {
    Saturate64(Cutoff(t, d) + Saturate64(graceHours * 3_600_000))
  }

  predicate Due(t: HomeTime, graceHours: u32, now: i64, d: Date) {
    now >= Threshold(t, graceHours, d)
  }

  /** A sealed date, or one before the vault existed, ends the walk. */
  predicate Stops(footage: seq<Footage>, created: Option<Date>, d: Date) {
    SealedDate(footage, d).Some? || (created.Some? && d < created.value)
  }

  datatype Walk = Walk(pending: seq<Date>, waiting: Option<Date>)

  /** The dates to seal, oldest first, and the oldest still inside its grace. */
  function WalkBack(t: HomeTime, footage: seq<Footage>, created: Option<Date>, graceHours: u32, now: i64,
                    cursor: Date, budget: nat): Walk
    decreases budget
  {
    if budget == 0 || Stops(footage, created, cursor) then Walk([], None)
    else
      var rest := match Pred(cursor)
        case None => Walk([], None)
        case Some(previous) => WalkBack(t, footage, created, graceHours, now, previous, budget - 1);
      if Due(t, graceHours, now, cursor) then rest.(pending := rest.pending + [cursor])
      else if rest.waiting.None? then rest.(waiting := Some(cursor))
      else rest
  }

  /** How many dates the walk looks at. */
  function Reach(footage: seq<Footage>, created: Option<Date>, cursor: Date, budget: nat): nat
    decreases budget
  {
    if budget == 0 || Stops(footage, created, cursor) then 0
    else
      match Pred(cursor)
      case None => 1
      case Some(previous) => 1 + Reach(footage, created, previous, budget - 1)
  }

  lemma {:induction false} ReachExact(footage: seq<Footage>, created: Option<Date>, cursor: Date, budget: nat)
    ensures var n := Reach(footage, created, cursor, budget);
      && n <= budget && cursor - n >= FIRST_DATE - 1
      && (forall d: Date :: cursor - n < d <= cursor ==> !Stops(footage, created, d))
      && (n < budget && cursor - n >= FIRST_DATE ==> Stops(footage, created, cursor - n))
    decreases budget
  {
    if budget > 0 && !Stops(footage, created, cursor) && cursor > FIRST_DATE {
      ReachExact(footage, created, cursor - 1, budget - 1);
    }
  }

  ghost predicate Ascending(dates: seq<Date>) {
    forall i, j :: 0 <= i < j < |dates| ==> dates[i] < dates[j]
  }

  /** The dates collected are the due ones of an interval, in order. */
  ghost predicate Collects(t: HomeTime, graceHours: u32, now: i64, dates: seq<Date>, from: int, to: int) {
    && Ascending(dates) && |dates| <= to - from
    && forall d: Date :: d in dates <==> from < d <= to && Due(t, graceHours, now, d)
  }

  lemma CollectsOneMore(t: HomeTime, graceHours: u32, now: i64, dates: seq<Date>, from: int, d: Date)
    requires Collects(t, graceHours, now, dates, from, d - 1) && from < d
    ensures Collects(t, graceHours, now, if Due(t, graceHours, now, d) then dates + [d] else dates, from, d)
  {
    hide Due;
    forall i | 0 <= i < |dates|
      ensures dates[i] < d
    {
      assert dates[i] in dates;
    }
  }

  /** What the walk collects: exactly the due dates within its reach, in order. */
  lemma {:induction false} WalkExact(t: HomeTime, footage: seq<Footage>, created: Option<Date>, graceHours: u32,
                                     now: i64, cursor: Date, budget: nat)
    ensures Collects(t, graceHours, now, WalkBack(t, footage, created, graceHours, now, cursor, budget).pending,
                     cursor - Reach(footage, created, cursor, budget), cursor)
    decreases budget
  {
    hide Due, Stops, Collects;
    if budget > 0 && !Stops(footage, created, cursor) {
      var older: seq<Date>, from: int := [], cursor - 1;
      if cursor > FIRST_DATE {
        WalkExact(t, footage, created, graceHours, now, cursor - 1, budget - 1);
        older := WalkBack(t, footage, created, graceHours, now, cursor - 1, budget - 1).pending;
        from := cursor - 1 - Reach(footage, created, cursor - 1, budget - 1);
      } else {
        CollectsNothing(t, graceHours, now, cursor - 1);
      }
      CollectsOneMore(t, graceHours, now, older, from, cursor);
      assert [] + [cursor] == [cursor];
    } else {
      CollectsNothing(t, graceHours, now, cursor);
    }
  }

  lemma CollectsNothing(t: HomeTime, graceHours: u32, now: i64, at: int)
    ensures Collects(t, graceHours, now, [], at, at)
  {
  }

  /** The walk names the oldest date still waiting. */
  lemma {:induction false} WaitingExact(t: HomeTime, footage: seq<Footage>, created: Option<Date>, graceHours: u32,
                                        now: i64, cursor: Date, budget: nat)
    ensures var w := WalkBack(t, footage, created, graceHours, now, cursor, budget).waiting;
      var n := Reach(footage, created, cursor, budget);
      && (w.None? ==> forall d: Date :: cursor - n < d <= cursor ==> Due(t, graceHours, now, d))
      && (w.Some? ==> cursor - n < w.value <= cursor && !Due(t, graceHours, now, w.value))
      && (w.Some? ==> forall d: Date :: cursor - n < d < w.value ==> Due(t, graceHours, now, d))
    decreases budget
  {
    hide Due, Stops;
    if budget > 0 && !Stops(footage, created, cursor) && cursor > FIRST_DATE {
      WaitingExact(t, footage, created, graceHours, now, cursor - 1, budget - 1);
    }
  }

  ghost predicate ThresholdsAscend(t: HomeTime, graceHours: u32, lo: Date, hi: Date) {
    forall a: Date, b: Date :: lo <= a < b <= hi ==> Threshold(t, graceHours, a) <= Threshold(t, graceHours, b)
  }

  predicate LeavesNoHole(t: HomeTime, graceHours: u32, now: i64, a: Date, b: Date) {
    Due(t, graceHours, now, b) ==> Due(t, graceHours, now, a)
  }

  /** At every instant, the due dates of a stretch are its oldest ones, exactly when no
      date's cutoff comes before an older date's. */
  lemma NoHolesExact(t: HomeTime, graceHours: u32, lo: Date, hi: Date)
    ensures ThresholdsAscend(t, graceHours, lo, hi) <==>
      forall now: i64, a: Date, b: Date :: lo <= a < b <= hi ==> LeavesNoHole(t, graceHours, now, a, b)
  {
    if !ThresholdsAscend(t, graceHours, lo, hi) {
      var a: Date, b: Date :| lo <= a < b <= hi && Threshold(t, graceHours, a) > Threshold(t, graceHours, b);
      assert !LeavesNoHole(t, graceHours, Threshold(t, graceHours, b), a, b);
    }
  }

  /** A date is due from the instant its grace has passed: that many hours after its closing
      minute, or after the epoch where there is none; at the last instant at the latest. */
  lemma DueExact(t: HomeTime, graceHours: u32, now: i64, d: Date)
    ensures var from := (if t.resolve(d).Some? then t.resolve(d).value as int else 0) + 3_600_000 * graceHours;
      Due(t, graceHours, now, d) <==> now >= from || now == 0x7FFF_FFFF_FFFF_FFFF
  {
  }

  /** At the instant a date closes, the date before is still waiting too exactly when
      the grace is longer than the day between their cutoffs. */
  lemma OlderWaitsToo(t: HomeTime, graceHours: u32, d: Date)
    requires d > FIRST_DATE && graceHours > 0
    requires Cutoff(t, d - 1) + graceHours * 3_600_000 <= I64_MAX && Cutoff(t, d) < I64_MAX
    ensures !Due(t, graceHours, Cutoff(t, d), d)
    ensures !Due(t, graceHours, Cutoff(t, d), d - 1) <==> graceHours * 3_600_000 > Cutoff(t, d) - Cutoff(t, d - 1)
  {
  }

  ghost predicate Consecutive(dates: seq<Date>) {
    forall i :: 0 <= i < |dates| ==> dates[i] == dates[0] + i
  }

  lemma AscendingIndex(dates: seq<Date>, i: nat, k: nat)
    requires Ascending(dates) && i < |dates| && k < |dates|
    ensures dates[i] < dates[k] <==> i < k
  {
  }

  /** An ascending list of exactly the dates of an interval runs through it. */
  lemma OldestAreConsecutive(dates: seq<Date>, lo: Date, hi: int)
    requires Ascending(dates)
    requires forall d: Date :: d in dates <==> lo <= d < hi
    ensures Consecutive(dates) && (dates != [] ==> dates[0] == lo)
  {
    forall i | 0 <= i < |dates| - 1
      ensures dates[i + 1] as int - dates[i] as int == 1
    {
      assert dates[i] in dates && dates[i + 1] in dates;
      var next: Date := dates[i] + 1;
      assert next in dates;
      var k :| 0 <= k < |dates| && dates[k] == next;
      AscendingIndex(dates, i, k);
      AscendingIndex(dates, k, i + 1);
    }
    Steps(dates, |dates|);
    if dates != [] {
      assert dates[0] in dates;
      assert lo in dates;
      var k :| 0 <= k < |dates| && dates[k] == lo;
      AscendingIndex(dates, k, 0);
    }
  }

  lemma {:induction false} Steps(dates: seq<Date>, n: nat)
    requires n <= |dates| && forall i :: 0 <= i < |dates| - 1 ==> dates[i + 1] as int - dates[i] as int == 1
    ensures forall i :: 0 <= i < n ==> dates[i] == dates[0] + i
  {
    if n > 1 {
      Steps(dates, n - 1);
      assert dates[n - 2 + 1] as int - dates[n - 2] as int == 1;
    }
  }

  /** One contiguous block, ending at the oldest waiting date, when cutoffs ascend over
      the dates the walk looks at. */
  lemma PendingIsABlock(t: HomeTime, footage: seq<Footage>, created: Option<Date>, graceHours: u32, now: i64,
                        cursor: Date, budget: nat)
    requires var from := if cursor - budget < FIRST_DATE then FIRST_DATE else cursor - budget;
      ThresholdsAscend(t, graceHours, from, cursor)
    ensures var w := WalkBack(t, footage, created, graceHours, now, cursor, budget);
      && Consecutive(w.pending)
      && (w.pending != [] ==> w.pending[0] == cursor - Reach(footage, created, cursor, budget) + 1)
  {
    hide Due, Stops, WalkBack, Reach, Threshold;
    var w := WalkBack(t, footage, created, graceHours, now, cursor, budget);
    var n := Reach(footage, created, cursor, budget);
    ReachExact(footage, created, cursor, budget);
    WalkExact(t, footage, created, graceHours, now, cursor, budget);
    WaitingExact(t, footage, created, graceHours, now, cursor, budget);
    var lo := cursor - n + 1;
    var hi: int := if w.waiting.Some? then w.waiting.value else cursor + 1;
    forall d: Date
      ensures d in w.pending <==> lo <= d < hi
    {
      if lo <= d <= cursor && w.waiting.Some? && d > w.waiting.value {
        LaterWaitsToo(t, graceHours, now, w.waiting.value, d);
      }
    }
    if w.pending != [] {
      assert w.pending[0] in w.pending;
      OldestAreConsecutive(w.pending, lo, hi);
    }
  }

  lemma LaterWaitsToo(t: HomeTime, graceHours: u32, now: i64, a: Date, b: Date)
    requires Threshold(t, graceHours, a) <= Threshold(t, graceHours, b) && !Due(t, graceHours, now, a)
    ensures !Due(t, graceHours, now, b)
  {
  }

  // --- sealing what is due --------------------------------------------------------------------------

  datatype Settings = Settings(graceHours: u32, maxBackfillDays: u32)

  /** What the machine brings to one run: whether each day's draft validates. */
  type Drafts = Date -> bool

  datatype SealDueReport = SealDueReport(sealed: seq<Date>, waiting: Option<Date>)

  /** Seals dates in the order given, stopping at the first refusal. */
  function SealAll(h: HashFn, genesis: Digest, role: Role, v: State, t: HomeTime, tz: TzName, dates: seq<Date>,
                   drafts: Drafts)
    : (Result<seq<Date>, SealError>, State)
    decreases |dates|
  {
    if dates == [] then (Ok([]), v)
    else
      var (start, end) := DayWindow(t, dates[0]);
      match Seal(h, genesis, role, v, dates[0], tz, start, end, WithQuests, drafts(dates[0]))
      case Err(e) => (Err(e), v)
      case Ok(w) =>
        var (rest, last) := SealAll(h, genesis, role, w, t, tz, dates[1..], drafts);
        (match rest case Err(e) => Err(e) case Ok(more) => Ok([dates[0]] + more), last)
  }

  function Yesterday(t: HomeTime, now: i64): Date {
    var today := t.dayOf(now);
    match Pred(today)
    case None => today
    case Some(d) => d
  }

  function WalkFor(v: State, t: HomeTime, created: Option<Date>, s: Settings, now: i64): Walk {
    WalkBack(t, v.footage, created, s.graceHours, now, Yesterday(t, now), s.maxBackfillDays)
  }

  function SealedDue(h: HashFn, genesis: Digest, role: Role, v: State, t: HomeTime, tz: TzName, created: Option<Date>,
                     s: Settings, now: i64, drafts: Drafts): (Result<SealDueReport, SealError>, State)
  {
    var walk := WalkFor(v, t, created, s, now);
    var (r, w) := SealAll(h, genesis, role, v, t, tz, walk.pending, drafts);
    (match r case Err(e) => Err(e) case Ok(sealed) => Ok(SealDueReport(sealed, walk.waiting)), w)
  }

  lemma SealAppends(h: HashFn, genesis: Digest, role: Role, v: State, date: Date, tz: TzName, start: i64, end: i64,
                    version: Version, draftOk: bool)
    requires Seal(h, genesis, role, v, date, tz, start, end, version, draftOk).Ok?
    ensures role == Sealer && SealedDate(v.footage, date).None?
    ensures var w := Seal(h, genesis, role, v, date, tz, start, end, version, draftOk).value;
      && |w.footage| == |v.footage| + 1 && w.footage[..|v.footage|] == v.footage
      && w.footage[|v.footage|].date == date && w.footage[|v.footage|].seqNo == TipSeq(v.footage) + 1
  {
    hide BuildRoot, Window, MarkCommitted, LinkPreimage;
  }

  function Dates(footage: seq<Footage>): (ds: seq<Date>)
    ensures |ds| == |footage| && forall i :: 0 <= i < |footage| ==> ds[i] == footage[i].date
  {
    seq(|footage|, i requires 0 <= i < |footage| => footage[i].date)
  }

  lemma {:induction false} SealedDateExact(footage: seq<Footage>, date: Date)
    ensures SealedDate(footage, date).Some? <==> date in Dates(footage)
  {
    if footage != [] {
      var n := |footage| - 1;
      SealedDateExact(footage[..n], date);
      assert Dates(footage) == Dates(footage[..n]) + [footage[n].date];
    }
  }

  /** The dates appended are the first `n` of those asked for. */
  ghost predicate Extends(before: seq<Footage>, after: seq<Footage>, dates: seq<Date>, n: nat) {
    n <= |dates| && Dates(after) == Dates(before) + dates[..n]
  }

  lemma ExtendsOne(a: seq<Footage>, b: seq<Footage>, c: seq<Footage>, dates: seq<Date>, n: nat)
    requires dates != [] && Dates(b) == Dates(a) + [dates[0]] && Extends(b, c, dates[1..], n)
    ensures Extends(a, c, dates, n + 1)
  {
    assert dates[..n + 1] == [dates[0]] + dates[1..][..n];
  }

  /** What a run of seals appends: the dates, in order, as far as it got. */
  lemma {:induction false} SealAllAppends(h: HashFn, genesis: Digest, role: Role, v: State, t: HomeTime, tz: TzName,
                                          dates: seq<Date>, drafts: Drafts)
    returns (n: nat)
    ensures var (r, w) := SealAll(h, genesis, role, v, t, tz, dates, drafts);
      Extends(v.footage, w.footage, dates, n) && (r.Ok? ==> r.value == dates && n == |dates|)
    decreases |dates|
  {
    hide Seal, DayWindow, Dates;
    n := 0;
    if dates != [] {
      var (start, end) := DayWindow(t, dates[0]);
      var sealing := Seal(h, genesis, role, v, dates[0], tz, start, end, WithQuests, drafts(dates[0]));
      if sealing.Ok? {
        SealAppends(h, genesis, role, v, dates[0], tz, start, end, WithQuests, drafts(dates[0]));
        OneDateMore(v.footage, sealing.value.footage);
        var m := SealAllAppends(h, genesis, role, sealing.value, t, tz, dates[1..], drafts);
        var later := SealAll(h, genesis, role, sealing.value, t, tz, dates[1..], drafts).1;
        ExtendsOne(v.footage, sealing.value.footage, later.footage, dates, m);
        n := m + 1;
        assert [dates[0]] + dates[1..] == dates;
      }
    }
    assert Dates(v.footage) + dates[..0] == Dates(v.footage);
  }

  lemma OneDateMore(before: seq<Footage>, after: seq<Footage>)
    requires |after| == |before| + 1 && after[..|before|] == before
    ensures Dates(after) == Dates(before) + [after[|before|].date]
  {
    assert forall i :: 0 <= i < |before| ==> after[i] == after[..|before|][i];
  }

  /** The date reported as waiting is the oldest of the stretch that is not yet due. */
  ghost predicate OldestWaiting(t: HomeTime, graceHours: u32, now: i64, from: int, to: int, waiting: Option<Date>) {
    match waiting
    case None => forall d: Date :: from < d <= to ==> Due(t, graceHours, now, d)
    case Some(w) =>
      && from < w <= to && !Due(t, graceHours, now, w)
      && forall d: Date :: from < d < w ==> Due(t, graceHours, now, d)
  }

  /** Every date sealed was unsealed, not before the vault, past its grace, over, and
      one of at most the configured number; and every such date the walk reached is. The
      report names the oldest date left waiting. */
  lemma SealDueExact(h: HashFn, genesis: Digest, role: Role, v: State, t: HomeTime, tz: TzName, created: Option<Date>,
                     s: Settings, now: i64, drafts: Drafts)
    requires SealedDue(h, genesis, role, v, t, tz, created, s, now, drafts).0.Ok?
    ensures var (r, w) := SealedDue(h, genesis, role, v, t, tz, created, s, now, drafts);
      var sealed := r.value.sealed;
      var n := Reach(v.footage, created, Yesterday(t, now), s.maxBackfillDays);
      && Dates(w.footage) == Dates(v.footage) + sealed
      && Ascending(sealed) && |sealed| <= n <= s.maxBackfillDays
      && (forall d: Date :: d in sealed <==>
            Yesterday(t, now) - n < d <= Yesterday(t, now) && Due(t, s.graceHours, now, d))
      && (forall d: Date :: d in sealed ==>
            SealedDate(v.footage, d).None? && (created.Some? ==> created.value <= d))
      && OldestWaiting(t, s.graceHours, now, Yesterday(t, now) - n, Yesterday(t, now), r.value.waiting)
  {
    hide SealAll, Due, WalkBack, Reach;
    WaitingExact(t, v.footage, created, s.graceHours, now, Yesterday(t, now), s.maxBackfillDays);
    var walk := WalkFor(v, t, created, s, now);
    var n := SealAllAppends(h, genesis, role, v, t, tz, walk.pending, drafts);
    assert walk.pending[..|walk.pending|] == walk.pending;
    WalkExact(t, v.footage, created, s.graceHours, now, Yesterday(t, now), s.maxBackfillDays);
    ReachExact(v.footage, created, Yesterday(t, now), s.maxBackfillDays);
    forall d: Date | d in walk.pending
      ensures SealedDate(v.footage, d).None? && (created.Some? ==> created.value <= d)
    {
      assert !Stops(v.footage, created, d);
    }
  }

  lemma {:induction false} NothingPending(t: HomeTime, before: seq<Footage>, after: seq<Footage>,
                                          created: Option<Date>, graceHours: u32, now: i64, cursor: Date, budget: nat)
    requires forall d: Date :: SealedDate(before, d).Some? ==> SealedDate(after, d).Some?
    requires forall d: Date :: d in WalkBack(t, before, created, graceHours, now, cursor, budget).pending ==>
        SealedDate(after, d).Some?
    ensures WalkBack(t, after, created, graceHours, now, cursor, budget).pending == []
    decreases budget
  {
    hide SealedDate, Due;
    var w := WalkBack(t, before, created, graceHours, now, cursor, budget);
    if budget > 0 && !Stops(after, created, cursor) {
      if cursor > FIRST_DATE {
        var older := WalkBack(t, before, created, graceHours, now, cursor - 1, budget - 1).pending;
        assert forall d: Date :: d in older ==> d in w.pending;
        NothingPending(t, before, after, created, graceHours, now, cursor - 1, budget - 1);
      }
    }
  }

  /** A second run at the same instant seals nothing. */
  lemma SecondRunSealsNothing(h: HashFn, genesis: Digest, role: Role, v: State, t: HomeTime, tz: TzName,
                              created: Option<Date>, s: Settings, now: i64, drafts: Drafts)
    requires SealedDue(h, genesis, role, v, t, tz, created, s, now, drafts).0.Ok?
    ensures var w := SealedDue(h, genesis, role, v, t, tz, created, s, now, drafts).1;
      && SealedDue(h, genesis, role, w, t, tz, created, s, now, drafts).1 == w
      && SealedDue(h, genesis, role, w, t, tz, created, s, now, drafts).0.Ok?
      && SealedDue(h, genesis, role, w, t, tz, created, s, now, drafts).0.value.sealed == []
  {
    hide WalkBack, Seal;
    var w := SealedDue(h, genesis, role, v, t, tz, created, s, now, drafts).1;
    var walk := WalkFor(v, t, created, s, now);
    var n := SealAllAppends(h, genesis, role, v, t, tz, walk.pending, drafts);
    assert walk.pending[..|walk.pending|] == walk.pending;
    forall d: Date
      ensures SealedDate(w.footage, d).Some? <==> SealedDate(v.footage, d).Some? || d in walk.pending
    {
      SealedDateExact(w.footage, d);
      SealedDateExact(v.footage, d);
    }
    NothingPending(t, v.footage, w.footage, created, s.graceHours, now, Yesterday(t, now), s.maxBackfillDays);
  }
}
