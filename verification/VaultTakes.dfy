/** What a seal takes: every live memory of the day, each once, in the order of the table,
    and nothing else; and so, over whole runs, every memory at least once. */
module VaultTakes {
  import opened Basics
  import opened Hashing
  import opened Merkle
  import opened MerkleLaws
  import opened Calendar
  import opened Chain
  import opened Leaves
  import opened Vault
  import opened VaultLaws
  import opened VaultRuns
  import opened VaultContent
  import opened VaultWrites

  /** A row that is not shredded, and whose memory occurred in `[start, end)`; one without a
      time of occurrence counts from when it was taken in. */
  predicate FallsIn(r: MemoryRow, start: int, end: int) {
    match r
    case Shredded(_) => false
    case Live(m) => start <= (if m.occurredAt == None then m.ingestedAt else m.occurredAt.value) < end
  }

  ghost predicate Increasing(at: seq<nat>) {
    forall i, j :: 0 <= i < j < |at| ==> at[i] < at[j]
  }

  /** `at` lists, in order, the positions of the table whose memory falls in the window. */
  ghost predicate Selects(table: seq<MemoryRow>, start: int, end: int, at: seq<nat>) {
    && Increasing(at)
    && forall i: nat :: i in at <==> i < |table| && FallsIn(table[i], start, end)
  }

  /** Row by row, the leaf of the memory at the selected position. */
  ghost predicate LeavesAt(h: HashFn, table: seq<MemoryRow>, rows: seq<LeafRow>, at: seq<nat>) {
    && |rows| == |at|
    && forall k :: 0 <= k < |at| ==>
         && at[k] < |table| && table[at[k]].Live?
         && rows[k] == LeafRow(table[at[k]].memory.id, h(MemoryPreimage(table[at[k]].memory)))
  }

  function Shifted(at: seq<nat>): (out: seq<nat>)
    ensures |out| == |at| && forall k :: 0 <= k < |at| ==> out[k] == at[k] + 1
  {
    seq(|at|, k requires 0 <= k < |at| => at[k] + 1)
  }

  lemma ShiftedMembers(at: seq<nat>)
    ensures forall i: nat :: i in Shifted(at) <==> i > 0 && i - 1 in at
  {
    forall i: nat | i > 0 && i - 1 in at
      ensures i in Shifted(at)
    {
      var k :| 0 <= k < |at| && at[k] == i - 1;
      assert Shifted(at)[k] == i;
    }
  }

  lemma SelectsFromTail(table: seq<MemoryRow>, start: int, end: int, rest: seq<nat>)
    requires table != [] && Selects(table[1..], start, end, rest)
    ensures FallsIn(table[0], start, end) ==> Selects(table, start, end, [0] + Shifted(rest))
    ensures !FallsIn(table[0], start, end) ==> Selects(table, start, end, Shifted(rest))
  {
    hide FallsIn;
    var at := Shifted(rest);
    ShiftedMembers(rest);
    forall i: nat
      ensures i in at <==> 0 < i < |table| && FallsIn(table[i], start, end)
    {
      if 0 < i {
        assert i in at <==> i - 1 in rest;
        assert i < |table| ==> table[1..][i - 1] == table[i];
      }
    }
  }

  /** The memories stand at these positions of the table. */
  ghost predicate Finds(table: seq<MemoryRow>, memories: seq<Memory>, at: seq<nat>) {
    && |memories| == |at|
    && forall k :: 0 <= k < |at| ==> at[k] < |table| && table[at[k]] == Live(memories[k])
  }

  lemma FindsFromTail(table: seq<MemoryRow>, memories: seq<Memory>, rest: seq<nat>)
    requires table != [] && Finds(table[1..], memories, rest)
    ensures Finds(table, memories, Shifted(rest))
    ensures table[0].Live? ==> Finds(table, [table[0].memory] + memories, [0] + Shifted(rest))
  {
    forall k | 0 <= k < |rest|
      ensures rest[k] + 1 < |table| && table[rest[k] + 1] == Live(memories[k])
    {
      assert table[1..][rest[k]] == table[rest[k] + 1];
    }
    if table[0].Live? {
      FindsFirst(table, memories, Shifted(rest));
    }
  }

  lemma FindsFirst(table: seq<MemoryRow>, memories: seq<Memory>, at: seq<nat>)
    requires table != [] && table[0].Live? && Finds(table, memories, at)
    ensures Finds(table, [table[0].memory] + memories, [0] + at)
  {
  }

  /** The window query returns the selected memories, in table order. */
  lemma {:induction false} WindowSelects(table: seq<MemoryRow>, start: i64, end: i64) returns (at: seq<nat>)
    ensures Selects(table, start, end, at) && Finds(table, Window(table, start, end), at)
    decreases |table|
  {
    if table == [] {
      at := [];
    } else {
      hide Selects, Finds, Shifted, FallsIn;
      var rest := WindowSelects(table[1..], start, end);
      SelectsFromTail(table, start, end, rest);
      FindsFromTail(table, Window(table[1..], start, end), rest);
      InWindowExact(table[0], start, end);
      if InWindow(table[0], start, end) {
        at := [0] + Shifted(rest);
      } else {
        at := Shifted(rest);
      }
    }
  }

  lemma InWindowExact(r: MemoryRow, start: i64, end: i64)
    ensures InWindow(r, start, end) <==> FallsIn(r, start, end)
    ensures InWindow(r, start, end) ==> r.Live?
  {
  }

  /** A memory is in the window exactly when its row is live there and in time. */
  lemma WindowMembers(table: seq<MemoryRow>, start: i64, end: i64, m: Memory)
    ensures m in Window(table, start, end) <==> Live(m) in table && FallsIn(Live(m), start, end)
  {
    hide FallsIn, Window;
    var at := WindowSelects(table, start, end);
    var ms := Window(table, start, end);
    if m in ms {
      var k :| 0 <= k < |ms| && ms[k] == m;
      assert at[k] in at;
    }
    if Live(m) in table && FallsIn(Live(m), start, end) {
      var i :| 0 <= i < |table| && table[i] == Live(m);
      assert i in at;
      var k :| 0 <= k < |at| && at[k] == i;
      assert ms[k] == m;
    }
  }

  /** The day `f` is over the metadata leaf that names the number of memories, the leaf of
      each memory at the positions `at` of the table, and the activity, in this order. */
  ghost predicate SealedFrom(h: HashFn, table: seq<MemoryRow>, at: seq<nat>, rows: seq<LeafRow>, activity: seq<Digest>,
                             f: Footage, digests: seq<Digest>)
  {
    && LeavesAt(h, table, rows, at)
    && |digests| == 1 + |rows| + |activity|
    && digests[0] == h(MetaPreimage(f.seqNo, f.date, f.tz, Saturate32(|at|)))
    && (forall k :: 0 <= k < |rows| ==> digests[1 + k] == rows[k].leaf)
    && digests[1 + |rows|..] == activity
    && RootOfSet(h, digests) == Ok(f.root) && f.leafCount == Saturate32(|digests|)
  }

  function ActivityUnder(h: HashFn, v: State, version: Version): seq<Digest> {
    if version == MemoriesOnly || ActivityLeaves(h, v.quests, None).Err? then []
    else ActivityLeaves(h, v.quests, None).value
  }

  /** What a seal appends: one day, over one leaf for every live memory whose time falls in
      the window, in table order, and no others. */
  lemma SealTakesTheDay(h: HashFn, genesis: Digest, v: State, date: Date, tz: TzName, start: i64, end: i64,
                        version: Version, draftOk: bool) returns (at: seq<nat>, digests: seq<Digest>)
    requires Sound(h, genesis, v)
    requires Seal(h, genesis, Sealer, v, date, tz, start, end, version, draftOk).Ok?
    ensures Selects(v.memories, start, end, at)
    ensures var w := Seal(h, genesis, Sealer, v, date, tz, start, end, version, draftOk).value;
      && w.memories == v.memories && w.anchors == v.anchors
      && |w.footage| == |v.footage| + 1 && w.footage[..|v.footage|] == v.footage
      && var f := w.footage[|v.footage|];
         f.seqNo == |v.footage| + 1 && f.date == date && f.tz == tz && f.version == version
         && SealedFrom(h, v.memories, at, LeavesOf(w, f.seqNo), ActivityUnder(h, v, version), f, digests)
  {
    hide Seal, Window, LeavesOf, DayLeaves, ActivityLeaves, RootOfSet, LinkOf, TipLink, Sound, Selects, Finds,
         LeavesAt, MemoryLeaves, MemoryPreimage, MetaPreimage;
    var memories := Window(v.memories, start, end);
    at := WindowSelects(v.memories, start, end);
    assert |memories| == |at| by { FoundLeaves(h, v.memories, memories, at); }
    SoundParts(h, genesis, v);
    SealedDay(h, genesis, v, date, tz, start, end, version, draftOk);
    SealShape(h, genesis, v, date, tz, start, end, version, draftOk);
    SealLeavesMemories(h, genesis, v, date, tz, start, end, version, draftOk);
    DayDigests(h, v, memories, version, |v.footage| + 1, date, tz);
    FoundLeaves(h, v.memories, memories, at);
    digests := DayLeaves(h, v, memories, version, |v.footage| + 1, date, tz).value;
  }

  lemma FoundLeaves(h: HashFn, table: seq<MemoryRow>, memories: seq<Memory>, at: seq<nat>)
    requires Finds(table, memories, at)
    ensures |memories| == |at| && LeavesAt(h, table, MemoryLeaves(h, memories), at)
  {
    hide MemoryPreimage;
  }

  lemma DayDigests(h: HashFn, v: State, memories: seq<Memory>, version: Version, seqNo: u64, date: Date, tz: TzName)
    requires DayLeaves(h, v, memories, version, seqNo, date, tz).Ok?
    ensures var ds := DayLeaves(h, v, memories, version, seqNo, date, tz).value;
      var rows := MemoryLeaves(h, memories);
      && |ds| == 1 + |rows| + |ActivityUnder(h, v, version)|
      && ds[0] == h(MetaPreimage(seqNo, date, tz, Saturate32(|memories|)))
      && (forall k :: 0 <= k < |rows| ==> ds[1 + k] == rows[k].leaf)
      && ds[1 + |rows|..] == ActivityUnder(h, v, version)
  {
    hide ActivityLeaves, MetaPreimage, MemoryLeaves;
  }

  lemma SoundParts(h: HashFn, genesis: Digest, v: State)
    requires Sound(h, genesis, v)
    ensures Intact(h, genesis, Records(v.footage)) && IdsAscend(v.quests) && RowsSane(v.quests, |v.footage|)
  {
    hide Intact;
  }

  lemma SealLeavesMemories(h: HashFn, genesis: Digest, v: State, date: Date, tz: TzName, start: i64, end: i64,
                           version: Version, draftOk: bool)
    requires Seal(h, genesis, Sealer, v, date, tz, start, end, version, draftOk).Ok?
    ensures Seal(h, genesis, Sealer, v, date, tz, start, end, version, draftOk).value.memories == v.memories
    ensures Seal(h, genesis, Sealer, v, date, tz, start, end, version, draftOk).value.anchors == v.anchors
  {
    hide BuildRoot, Window, MarkCommitted, LinkPreimage;
  }

  // --- what was shredded stays out ------------------------------------------------------------------------

  /** The leaf rows of the first `days` days are as they were, and no later day has a row
      with this id. */
  ghost predicate StaysOut(before: State, after: State, id: Uuid) {
    && |before.footage| <= |after.footage|
    && (forall s :: 1 <= s <= |before.footage| ==> LeavesOf(after, s) == LeavesOf(before, s))
    && (forall s :: |before.footage| < s <= |after.footage| ==> NoRow(LeavesOf(after, s), id))
  }

  ghost predicate NoRow(rows: seq<LeafRow>, id: Uuid) {
    forall k :: 0 <= k < |rows| ==> rows[k].memoryId != id
  }

  lemma ShreddedTakesNoRow(h: HashFn, table: seq<MemoryRow>, rows: seq<LeafRow>, at: seq<nat>, id: Uuid)
    requires MemoriesAscend(table) && Shredded(id) in table && LeavesAt(h, table, rows, at)
    ensures NoRow(rows, id)
  {
    hide MemoryPreimage;
    var i :| 0 <= i < |table| && table[i] == Shredded(id);
    forall k | 0 <= k < |rows|
      ensures rows[k].memoryId != id
    {
      assert at[k] != i;
    }
  }

  lemma StepStaysOut(h: HashFn, genesis: Digest, before: State, v: State, op: Op, id: Uuid)
    requires Sound(h, genesis, v) && MemoriesAscend(v.memories) && Shredded(id) in v.memories
    requires StaysOut(before, v, id)
    ensures Shredded(id) in Apply(h, genesis, v, op).memories && StaysOut(before, Apply(h, genesis, v, op), id)
  {
    hide Seal, Sound, MemoriesAscend, AnswerRow, FindQuest, Words, InsertMemory, InsertQuest, StaysOut;
    var w := Apply(h, genesis, v, op);
    match op {
      case StoreMemory(m) => InsertedStill(v.memories, m, Shredded(id));
      case Shred(other) => ShreddedStill(v.memories, other, id);
      case Answer(_, verdict, now, slotId, slotSalt, _) =>
        if Words(verdict).Some? {
          InsertedStill(v.memories, Memory(slotId, Words(verdict).value, Some(now), now, slotSalt), Shredded(id));
        }
      case SealDay(date, tz, start, end, version, draftOk) =>
        if Seal(h, genesis, Sealer, v, date, tz, start, end, version, draftOk).Ok? {
          SealStaysOut(h, genesis, before, v, op, id);
        }
      case _ =>
    }
    SameDaysStayOut(before, v, w, id);
  }

  lemma SealStaysOut(h: HashFn, genesis: Digest, before: State, v: State, op: Op, id: Uuid)
    requires Sound(h, genesis, v) && MemoriesAscend(v.memories) && Shredded(id) in v.memories && op.SealDay?
    requires Seal(h, genesis, Sealer, v, op.date, op.tz, op.start, op.end, op.version, op.draftOk).Ok?
    requires StaysOut(before, v, id)
    ensures StaysOut(before, Apply(h, genesis, v, op), id) && Apply(h, genesis, v, op).memories == v.memories
  {
    hide Seal, Sound, MemoriesAscend, LeavesOf, NoRow, LeavesAt, Selects, RootOfSet, ActivityUnder, MetaPreimage,
         StaysOut, Stamped, Intact, IdsAscend, RowsSane;
    var w := Apply(h, genesis, v, op);
    var at, ds := SealTakesTheDay(h, genesis, v, op.date, op.tz, op.start, op.end, op.version, op.draftOk);
    SoundParts(h, genesis, v);
    SealShape(h, genesis, v, op.date, op.tz, op.start, op.end, op.version, op.draftOk);
    ShreddedTakesNoRow(h, v.memories, LeavesOf(w, |v.footage| + 1), at, id);
    OneDayStaysOut(before, v, w, id);
  }

  lemma OneDayStaysOut(before: State, v: State, w: State, id: Uuid)
    requires StaysOut(before, v, id) && |w.footage| == |v.footage| + 1
    requires forall s :: s != |v.footage| + 1 ==> LeavesOf(w, s) == LeavesOf(v, s)
    requires NoRow(LeavesOf(w, |v.footage| + 1), id)
    ensures StaysOut(before, w, id)
  {
    hide LeavesOf, NoRow;
  }

  lemma SameDaysStayOut(before: State, v: State, w: State, id: Uuid)
    requires StaysOut(before, v, id)
    ensures w.footage == v.footage && w.leaves == v.leaves ==> StaysOut(before, w, id)
  {
    hide LeavesOf, NoRow;
    SameRows(v, w);
  }

  lemma SameRows(v: State, w: State)
    ensures w.leaves == v.leaves ==> forall s :: LeavesOf(w, s) == LeavesOf(v, s)
  {
  }

  lemma InsertedStill(rows: seq<MemoryRow>, m: Memory, r: MemoryRow)
    requires MemoriesAscend(rows) && r in rows
    ensures InsertMemory(rows, m).Some? ==> r in InsertMemory(rows, m).value
  {
    hide InsertMemory, MemoriesAscend;
    var p := InsertExact(rows, m);
    if InsertMemory(rows, m).Some? {
      assert rows == rows[..p] + rows[p..];
    }
  }

  lemma ShreddedStill(rows: seq<MemoryRow>, other: Uuid, id: Uuid)
    requires Shredded(id) in rows
    ensures Shredded(id) in ShredRows(rows, other)
  {
    var i :| 0 <= i < |rows| && rows[i] == Shredded(id);
    assert ShredRows(rows, other)[i] == Shredded(id);
  }

  lemma {:induction false} RunStaysOut(h: HashFn, genesis: Digest, before: State, v: State, ops: seq<Op>, id: Uuid)
    requires Sound(h, genesis, v) && MemoriesAscend(v.memories) && Shredded(id) in v.memories
    requires StaysOut(before, v, id)
    ensures StaysOut(before, Run(h, genesis, v, ops), id) && Shredded(id) in Run(h, genesis, v, ops).memories
    decreases |ops|
  {
    hide Apply, Sound, MemoriesAscend, StaysOut, DaysFrozen;
    if ops != [] {
      StepKeeps(h, genesis, v, ops[0]);
      StepKeepsKeys(h, genesis, v, ops[0]);
      StepStaysOut(h, genesis, before, v, ops[0], id);
      RunStaysOut(h, genesis, before, Apply(h, genesis, v, ops[0]), ops[1..], id);
    }
  }

  /** Shredding a memory, at any point of a run, leaves the leaf rows of every sealed day as
      they were, and no day sealed afterwards has a row for it: it cannot come back. */
  lemma ShreddedNeverSealed(h: HashFn, genesis: Digest, ops: seq<Op>, id: Uuid, more: seq<Op>)
    requires HasId(Run(h, genesis, FRESH, ops).memories, id)
    ensures var v := Run(h, genesis, FRESH, ops);
      var z := Run(h, genesis, Apply(h, genesis, v, Shred(id)), more);
      StaysOut(v, z, id) && Shredded(id) in z.memories
  {
    hide Run, Sound, MemoriesAscend, DaysFrozen, LeavesOf;
    var v := Run(h, genesis, FRESH, ops);
    var w := Apply(h, genesis, v, Shred(id));
    FreshIsSound(h, genesis);
    assert MemoriesAscend(FRESH.memories) by { NoMemories(); }
    RunKeeps(h, genesis, FRESH, ops);
    RunKeepsKeys(h, genesis, FRESH, ops);
    StepKeeps(h, genesis, v, Shred(id));
    StepKeepsKeys(h, genesis, v, Shred(id));
    SameRows(v, w);
    var i :| 0 <= i < |v.memories| && RowId(v.memories[i]) == id;
    assert w.memories[i] == Shredded(id);
    RunStaysOut(h, genesis, v, w, more, id);
  }

  lemma NoMemories()
    ensures MemoriesAscend([])
  {
  }
}
