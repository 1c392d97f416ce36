/** The vault as a value: the tables of the store, the queries the seal and the
    verifier run on them, and what each operation makes of them.

    Tables are kept in primary-key order, so `ORDER BY id` is the order they have.
    A stamp column is an option: `None` is "not yet committed to any day". */
module Vault {
  import opened Basics
  import opened Hashing
  import opened Merkle
  import opened MerkleLaws
  import opened Calendar
  import opened Chain
  import opened Leaves

  // --- tables --------------------------------------------------------------------------------

  datatype MemoryRow = Live(memory: Memory) | Shredded(gone: Uuid)

  function RowId(r: MemoryRow): Uuid {
    match r
    case Live(m) => m.id
    case Shredded(id) => id
  }

  datatype Status = Open | Answered | Expired | Voided

  datatype QuestRow = QuestRow(
    quest: Quest, status: Status, answeredAt: Option<i64>,
    committedSeq: Option<nat>, verdictCommittedSeq: Option<nat>)

  datatype Version = MemoriesOnly | WithQuests

  datatype Footage = Footage(
    seqNo: u64, date: Date, tz: TzName, root: Digest, prevLink: Digest, link: Digest, leafCount: u32, version: Version)

  datatype LeafRow = LeafRow(memoryId: Uuid, leaf: Digest)

  datatype AnchorState = Unanchored | Pending | Confirmed | Failed

  datatype State = State(
    memories: seq<MemoryRow>, quests: seq<QuestRow>, footage: seq<Footage>,
    leaves: map<nat, seq<LeafRow>>, anchors: map<nat, AnchorState>)

  const FRESH := State([], [], [], map[], map[])

  // --- queries --------------------------------------------------------------------------------

  /** `COALESCE(occurred_at, ingested_at)`. */
  function Effective(m: Memory): i64 {
    match m.occurredAt
    case Some(t) => t
    case None => m.ingestedAt
  }

  predicate InWindow(r: MemoryRow, start: i64, end: i64) {
    r.Live? && start <= Effective(r.memory) < end
  }

  /** Live memories whose effective time falls in `[start, end)`, in id order. */
  function Window(rows: seq<MemoryRow>, start: i64, end: i64): seq<Memory> {
    if rows == [] then []
    else if InWindow(rows[0], start, end) then [rows[0].memory] + Window(rows[1..], start, end)
    else Window(rows[1..], start, end)
  }

  /** Quests whose commitment stamp is `stamp`: `None` selects those awaiting one. */
  function QuestsStamped(rows: seq<QuestRow>, stamp: Option<nat>): seq<QuestRow> {
    if rows == [] then []
    else if rows[0].committedSeq == stamp then [rows[0]] + QuestsStamped(rows[1..], stamp)
    else QuestsStamped(rows[1..], stamp)
  }

  /** Answered quests whose verdict stamp is `stamp`. */
  function VerdictsStamped(rows: seq<QuestRow>, stamp: Option<nat>): seq<QuestRow> {
    if rows == [] then []
    else if rows[0].status == Answered && rows[0].verdictCommittedSeq == stamp then
      [rows[0]] + VerdictsStamped(rows[1..], stamp)
    else VerdictsStamped(rows[1..], stamp)
  }

  function LeavesOf(v: State, seqNo: nat): seq<LeafRow> {
    if seqNo in v.leaves then v.leaves[seqNo] else []
  }

  function SealedDate(footage: seq<Footage>, date: Day): Option<nat> {
    if footage == [] then None
    else if footage[|footage| - 1].date == date then Some(footage[|footage| - 1].seqNo)
    else SealedDate(footage[..|footage| - 1], date)
  }

  function RecordOf(f: Footage): ChainRecord {
    ChainRecord(f.seqNo, f.date, f.tz, f.root, f.prevLink, f.link)
  }

  function Records(footage: seq<Footage>): (rs: seq<ChainRecord>)
    ensures |rs| == |footage| && forall i :: 0 <= i < |footage| ==> rs[i] == RecordOf(footage[i])
  {
    seq(|footage|, i requires 0 <= i < |footage| => RecordOf(footage[i]))
  }

  // --- a day's leaves --------------------------------------------------------------------------

  datatype SealError =
    | Replica | AlreadySealed(seqNo: nat) | InvalidDraft | MissingVerdict(id: Uuid) | BadTree(error: BuildError)
    | DuplicateSeq | Gap(expected: nat, got: nat)

  function MemoryLeaves(h: HashFn, memories: seq<Memory>): (rows: seq<LeafRow>)
    ensures |rows| == |memories|
  {
    seq(|memories|, i requires 0 <= i < |memories| => LeafRow(memories[i].id, h(MemoryPreimage(memories[i]))))
  }

  function LeafDigests(rows: seq<LeafRow>): (ds: seq<Digest>)
    ensures |ds| == |rows| && forall i :: 0 <= i < |rows| ==> ds[i] == rows[i].leaf
  {
    seq(|rows|, i requires 0 <= i < |rows| => rows[i].leaf)
  }

  function QuestLeaves(h: HashFn, rows: seq<QuestRow>): seq<Digest> {
    if rows == [] then [] else [h(QuestPreimage(rows[0].quest))] + QuestLeaves(h, rows[1..])
  }

  /** `COALESCE(answered_at, 0)`. */
  function AnsweredAt(r: QuestRow): i64 {
    if r.answeredAt.Some? then r.answeredAt.value else 0
  }

  /** Refuses a row that is answered but carries no verdict. */
  function VerdictDigest(h: HashFn, r: QuestRow): Result<Digest, SealError> {
    match r.quest.verdict
    case None => Err(MissingVerdict(r.quest.issued.id))
    case Some(v) => Ok(h(VerdictPreimage(r.quest, v, AnsweredAt(r))))
  }

  function VerdictLeaves(h: HashFn, rows: seq<QuestRow>): Result<seq<Digest>, SealError> {
    if rows == [] then Ok([])
    else
      match VerdictDigest(h, rows[0])
      case Err(e) => Err(e)
      case Ok(d) =>
        match VerdictLeaves(h, rows[1..])
        case Err(e) => Err(e)
        case Ok(ds) => Ok([d] + ds)
  }

  /** The quest and verdict leaves carrying one stamp, quests first. */
  function ActivityLeaves(h: HashFn, rows: seq<QuestRow>, stamp: Option<nat>): Result<seq<Digest>, SealError> {
    match VerdictLeaves(h, VerdictsStamped(rows, stamp))
    case Err(e) => Err(e)
    case Ok(ds) => Ok(QuestLeaves(h, QuestsStamped(rows, stamp)) + ds)
  }

  function MetaDigest(h: HashFn, seqNo: u64, date: Date, tz: TzName, memories: nat): Digest {
    h(MetaPreimage(seqNo, date, tz, Saturate32(memories)))
  }

  datatype SealedRoot = SealedRoot(root: Digest, leaves: seq<LeafRow>, count: u32)

  /** The leaves a day is about to be sealed over. */
  function DayLeaves(h: HashFn, v: State, memories: seq<Memory>, version: Version, seqNo: u64, date: Date, tz: TzName)
    : Result<seq<Digest>, SealError>
  {
    var fixed := [MetaDigest(h, seqNo, date, tz, |memories|)] + LeafDigests(MemoryLeaves(h, memories));
    if version == MemoriesOnly then Ok(fixed)
    else
      match ActivityLeaves(h, v.quests, None)
      case Err(e) => Err(e)
      case Ok(activity) => Ok(fixed + activity)
  }

  function BuildRoot(h: HashFn, v: State, memories: seq<Memory>, version: Version, seqNo: u64, date: Date, tz: TzName)
    : Result<SealedRoot, SealError>
  {
    match DayLeaves(h, v, memories, version, seqNo, date, tz)
    case Err(e) => Err(e)
    case Ok(digests) =>
      match RootOfSet(h, digests)
      case Err(e) => Err(BadTree(e))
      case Ok(root) => Ok(SealedRoot(root, MemoryLeaves(h, memories), Saturate32(|digests|)))
  }

  // --- sealing ------------------------------------------------------------------------------------

  datatype Role = Sealer | ReplicaDevice

  function Ids(rows: seq<QuestRow>): seq<Uuid> {
    seq(|rows|, i requires 0 <= i < |rows| => rows[i].quest.issued.id)
  }

  /** Fills a stamp that is still empty; never moves one. */
  function StampRow(r: QuestRow, seqNo: nat, quests: seq<Uuid>, verdicts: seq<Uuid>): QuestRow {
    r.(committedSeq := if r.committedSeq.None? && r.quest.issued.id in quests then Some(seqNo) else r.committedSeq,
       verdictCommittedSeq := if r.verdictCommittedSeq.None? && r.quest.issued.id in verdicts then Some(seqNo)
                              else r.verdictCommittedSeq)
  }

  function MarkCommitted(rows: seq<QuestRow>, seqNo: nat, quests: seq<Uuid>, verdicts: seq<Uuid>): (out: seq<QuestRow>)
    ensures |out| == |rows| && forall i :: 0 <= i < |rows| ==> out[i] == StampRow(rows[i], seqNo, quests, verdicts)
  {
    seq(|rows|, i requires 0 <= i < |rows| => StampRow(rows[i], seqNo, quests, verdicts))
  }

  const MAX_SEQ: u64 := 0x7FFF_FFFF_FFFF_FFFF

  /** The link the next day hangs from. */
  function TipLink(genesis: Digest, footage: seq<Footage>): Digest {
    if footage == [] then genesis else footage[|footage| - 1].link
  }

  function TipSeq(footage: seq<Footage>): nat {
    if footage == [] then 0 else footage[|footage| - 1].seqNo
  }

  /** Seals `date` over the memories in `[start, end)`. `draftOk` is the outcome of the
      composition and validation of the day's prose, which no leaf depends on. */
  function Seal(h: HashFn, genesis: Digest, role: Role, v: State, date: Date, tz: TzName, start: i64, end: i64,
                version: Version, draftOk: bool): Result<State, SealError>
  {
    if role == ReplicaDevice then Err(Replica)
    else if SealedDate(v.footage, date).Some? then Err(AlreadySealed(SealedDate(v.footage, date).value))
    else if !draftOk then Err(InvalidDraft)
    else if TipSeq(v.footage) >= MAX_SEQ then Err(DuplicateSeq)
    else
      var seqNo := TipSeq(v.footage) + 1;
      var memories := Window(v.memories, start, end);
      match BuildRoot(h, v, memories, version, seqNo, date, tz)
      case Err(e) => Err(e)
      case Ok(sealed) =>
        var prev := TipLink(genesis, v.footage);
        var link := h(LinkPreimage(prev, sealed.root, seqNo, date, tz));
        var f := Footage(seqNo, date, tz, sealed.root, prev, link, sealed.count, version);
        Ok(v.(footage := v.footage + [f],
              leaves := v.leaves[seqNo := sealed.leaves],
              quests := if version == MemoriesOnly then v.quests
                        else MarkCommitted(v.quests, seqNo, Ids(QuestsStamped(v.quests, None)),
                                           Ids(VerdictsStamped(v.quests, None)))))
  }

  // --- the other operations --------------------------------------------------------------------------

  function InsertMemory(rows: seq<MemoryRow>, m: Memory): Option<seq<MemoryRow>> {
    if rows == [] || m.id < RowId(rows[0]) then Some([Live(m)] + rows)
    else if m.id == RowId(rows[0]) then None
    else
      match InsertMemory(rows[1..], m)
      case None => None
      case Some(rest) => Some([rows[0]] + rest)
  }

  function PutMemory(v: State, m: Memory): Option<State> {
    match InsertMemory(v.memories, m)
    case None => None
    case Some(rows) => Some(v.(memories := rows))
  }

  function ShredRows(rows: seq<MemoryRow>, id: Uuid): seq<MemoryRow> {
    seq(|rows|, i requires 0 <= i < |rows| => if RowId(rows[i]) == id then Shredded(id) else rows[i])
  }

  function InsertQuest(rows: seq<QuestRow>, q: Quest): Option<seq<QuestRow>> {
    if rows == [] || q.issued.id < rows[0].quest.issued.id then Some([QuestRow(q, Open, None, None, None)] + rows)
    else if q.issued.id == rows[0].quest.issued.id then None
    else
      match InsertQuest(rows[1..], q)
      case None => None
      case Some(rest) => Some([rows[0]] + rest)
  }

  function IssueQuest(v: State, q: Quest): Option<State> {
    match InsertQuest(v.quests, q)
    case None => None
    case Some(rows) => Some(v.(quests := rows))
  }

  function FindQuest(rows: seq<QuestRow>, id: Uuid): Option<nat> {
    if rows == [] then None
    else if rows[0].quest.issued.id == id then Some(0)
    else
      match FindQuest(rows[1..], id)
      case None => None
      case Some(i) => Some(i + 1)
  }

  datatype AnswerError = NoSuchQuest | CommitmentMismatch | AlreadyAnswered | PastExpiry | NotOpen | MemoryExists

  /** A verdict's own words, when it carries any. */
  function Words(v: Verdict): Option<Utf8> {
    match v
    case Correct(_, correction) => if IsBlank(correction) then None else Some(correction)
    case Reject(Some(note)) => if IsBlank(note) then None else Some(note)
    case _ => None
  }

  predicate IsBlank(t: Bytes) {
    forall i :: 0 <= i < |t| ==> t[i] == 32 || 9 <= t[i] <= 13
  }

  function AnswerRow(r: QuestRow, verdict: Verdict, now: i64): QuestRow {
    r.(quest := r.quest.(verdict := Some(verdict)), status := Answered, answeredAt := Some(now))
  }

  /** Records a verdict: the commitment check first, then the answer, then the
      correction as a memory. A memory that cannot be written leaves the answer. */
  function AnswerQuest(v: State, id: Uuid, verdict: Verdict, now: i64, slotId: Uuid, slotSalt: Salt, commitmentOk: bool)
    : (Option<AnswerError>, State)
  {
    match FindQuest(v.quests, id)
    case None => (Some(NoSuchQuest), v)
    case Some(i) =>
      FindQuestInRange(v.quests, id);
      var r := v.quests[i];
      if !commitmentOk then (Some(CommitmentMismatch), v)
      else if r.quest.verdict.Some? || r.status == Answered then (Some(AlreadyAnswered), v)
      else if now > r.quest.expiresAt then (Some(PastExpiry), v)
      else if r.status != Open then (Some(NotOpen), v)
      else
        var answered := v.(quests := v.quests[i := AnswerRow(r, verdict, now)]);
        match Words(verdict)
        case None => (None, answered)
        case Some(words) =>
          match PutMemory(answered, Memory(slotId, words, Some(now), now, slotSalt))
          case None => (Some(MemoryExists), answered)
          case Some(stored) => (None, stored)
  }

  lemma {:induction false} FindQuestInRange(rows: seq<QuestRow>, id: Uuid)
    ensures FindQuest(rows, id).Some? ==>
      FindQuest(rows, id).value < |rows| && rows[FindQuest(rows, id).value].quest.issued.id == id
  {
    if rows != [] {
      FindQuestInRange(rows[1..], id);
    }
  }

  function ExpireRow(r: QuestRow, now: i64): QuestRow {
    if r.status == Open && r.quest.expiresAt < now then r.(status := Expired) else r
  }

  function ExpireRows(rows: seq<QuestRow>, now: i64): (out: seq<QuestRow>)
    ensures |out| == |rows| && forall i :: 0 <= i < |rows| ==> out[i] == ExpireRow(rows[i], now)
  {
    seq(|rows|, i requires 0 <= i < |rows| => ExpireRow(rows[i], now))
  }

  // --- verifying ----------------------------------------------------------------------------------------

  datatype VerifyReport = VerifyReport(
    days: nat, chainOk: bool, rootsOk: bool, rootsUnchecked: nat, firstBadSeq: Option<nat>, anchored: nat, pending: nat)

  /** A sealed day's digests, re-derived from what the store holds now, under the
      rules the day was sealed under. */
  function Rederived(h: HashFn, v: State, f: Footage): Result<seq<Digest>, SealError> {
    var stored := LeavesOf(v, f.seqNo);
    var fixed := [MetaDigest(h, f.seqNo, f.date, f.tz, |stored|)] + LeafDigests(stored);
    if f.version == MemoriesOnly then Ok(fixed)
    else
      match ActivityLeaves(h, v.quests, Some(f.seqNo))
      case Err(e) => Err(e)
      case Ok(activity) => Ok(fixed + activity)
  }

  datatype DayOutcome = Good | Unchecked | Bad

  function CheckDay(h: HashFn, v: State, role: Role, f: Footage): Result<DayOutcome, SealError> {
    match Rederived(h, v, f)
    case Err(e) => Err(e)
    case Ok(digests) =>
      if Saturate32(|digests|) != f.leafCount then
        Ok(if role == ReplicaDevice && LeavesOf(v, f.seqNo) == [] then Unchecked else Bad)
      else Ok(if RootOfSet(h, digests) == Ok(f.root) then Good else Bad)
  }

  function Tally(report: VerifyReport, anchor: Option<AnchorState>): VerifyReport {
    match anchor
    case Some(Confirmed) => report.(anchored := report.anchored + 1)
    case Some(Pending) => report.(pending := report.pending + 1)
    case _ => report
  }

  function AnchorOf(v: State, seqNo: nat): Option<AnchorState> {
    if seqNo in v.anchors then Some(v.anchors[seqNo]) else None
  }

  /** The second half of the check: day by day, stopping at the first bad one. */
  function CheckDays(h: HashFn, v: State, role: Role, days: seq<Footage>, report: VerifyReport)
    : Result<VerifyReport, SealError>
    decreases |days|
  {
    if days == [] then Ok(report)
    else
      match CheckDay(h, v, role, days[0])
      case Err(e) => Err(e)
      case Ok(Bad) => Ok(report.(rootsOk := false, firstBadSeq := Some(days[0].seqNo)))
      case Ok(Unchecked) => CheckDays(h, v, role, days[1..], report.(rootsUnchecked := report.rootsUnchecked + 1))
      case Ok(Good) => CheckDays(h, v, role, days[1..], Tally(report, AnchorOf(v, days[0].seqNo)))
  }

  function BadSeq(e: ChainError): nat {
    match e
    case ChainBroken(seqNo) => seqNo
    case ChainGap(_, next) => next
  }

  function CleanReport(days: nat): VerifyReport {
    VerifyReport(days, true, true, 0, None, 0, 0)
  }

  function Verified(h: HashFn, genesis: Digest, role: Role, v: State): Result<VerifyReport, SealError> {
    match VerdictFrom(h, genesis, 1, Records(v.footage))
    case Err(e) => Ok(CleanReport(|v.footage|).(chainOk := false, firstBadSeq := Some(BadSeq(e))))
    case Ok(_) => CheckDays(h, v, role, v.footage, CleanReport(|v.footage|))
  }
}
