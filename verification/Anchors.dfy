/** The upgrade pass over a vault's anchor rows: which rows are asked about, what a row
    becomes, and what the report counts. */
module Anchors {
  import opened Basics
  import Vault
  import Ots
  import OtsLaws
  import OtsTree

  datatype Row = Row(
    state: Vault.AnchorState, digest: Bytes, submittedAt: Option<i64>, blockHeight: Option<u32>, ots: Option<Ots.File>)

  const UPGRADE_WINDOW_DAYS: int := 8
  const DAY_MS: int := 1000 * 60 * 60 * 24

  /** Division that truncates toward zero. */
  function Truncated(n: int, d: int): int
    requires d > 0
  {
    if n >= 0 then n / d else -((-n) / d)
  }

  predicate TooOld(row: Row, now: i64) {
    row.submittedAt.Some? && Truncated(now - row.submittedAt.value, DAY_MS) >= UPGRADE_WINDOW_DAYS
  }

  datatype Outcome = Skipped | Abandoned | StillPending | Confirmed

  predicate Upgradable(row: Row) {
    row.state == Vault.Pending && row.ots.Some?
  }

  function UpgradedRow(exec: Ots.Exec, calendar: Ots.Calendar, now: i64, row: Row): (Row, Outcome) {
    if !Upgradable(row) then (row, Skipped)
    else if TooOld(row, now) then (row, Abandoned)
    else
      match Ots.Upgraded(exec, calendar, row.digest, row.ots.value)
      case Err(_) => (row, StillPending)
      case Ok(upgrade) =>
        if upgrade.file.None? then (row, StillPending)
        else if upgrade.state.Confirmed? then
          (row.(state := Vault.Confirmed, blockHeight := Some(upgrade.state.height), ots := upgrade.file), Confirmed)
        else (row.(ots := upgrade.file), StillPending)
  }

  datatype Report = Report(asked: nat, confirmed: nat, stillPending: nat, abandoned: nat)

  const EMPTY := Report(0, 0, 0, 0)

  function Counted(r: Report, o: Outcome): Report {
    match o
    case Skipped => r
    case Abandoned => r.(abandoned := r.abandoned + 1)
    case StillPending => r.(asked := r.asked + 1, stillPending := r.stillPending + 1)
    case Confirmed => r.(asked := r.asked + 1, confirmed := r.confirmed + 1)
  }

  type Rows = map<nat, Row>

  /** The report over the first `n` sequence numbers. */
  function Counts(exec: Ots.Exec, calendar: Ots.Calendar, now: i64, rows: Rows, n: nat): Report {
    if n == 0 then EMPTY
    else
      var before := Counts(exec, calendar, now, rows, n - 1);
      if n in rows then Counted(before, UpgradedRow(exec, calendar, now, rows[n]).1) else before
  }

  class AnchorTable {
    var rows: Rows

    method UpgradeAnchors(exec: Ots.Exec, calendar: Ots.Calendar, now: i64, tipSeq: nat) returns (report: Report)
      modifies this
      ensures report == Counts(exec, calendar, now, old(rows), tipSeq)
      ensures rows == map s | s in old(rows) ::
        if 1 <= s <= tipSeq then UpgradedRow(exec, calendar, now, old(rows)[s]).0 else old(rows)[s]
    {
      hide UpgradedRow;
      report := EMPTY;
      for seqNo := 1 to tipSeq + 1
        invariant report == Counts(exec, calendar, now, old(rows), seqNo - 1)
        invariant rows == map s | s in old(rows) ::
          if 1 <= s < seqNo then UpgradedRow(exec, calendar, now, old(rows)[s]).0 else old(rows)[s]
      {
        if seqNo in rows {
          var outcome := UpgradeOne(exec, calendar, now, seqNo);
          report := Counted(report, outcome);
        }
      }
    }

    method UpgradeOne(exec: Ots.Exec, calendar: Ots.Calendar, now: i64, seqNo: nat) returns (outcome: Outcome)
      requires seqNo in rows
      modifies this
      ensures rows == old(rows)[seqNo := UpgradedRow(exec, calendar, now, old(rows)[seqNo]).0]
      ensures outcome == UpgradedRow(exec, calendar, now, old(rows)[seqNo]).1
    {
      hide Ots.Upgraded;
      var row := rows[seqNo];
      assert rows[seqNo := row] == rows;
      if !Upgradable(row) {
        return Skipped;
      }
      if TooOld(row, now) {
        return Abandoned;
      }
      var upgrade := OtsTree.UpgradeProof(exec, calendar, row.digest, row.ots.value);
      if upgrade.Err? || upgrade.value.file.None? {
        return StillPending;
      }
      row := row.(ots := upgrade.value.file);
      if upgrade.value.state.Confirmed? {
        row := row.(state := Vault.Confirmed, blockHeight := Some(upgrade.value.state.height));
        rows := rows[seqNo := row];
        return Confirmed;
      }
      rows := rows[seqNo := row];
      return StillPending;
    }
  }

  // --- what a pass keeps ---------------------------------------------------------------------------

  function Pending(exec: Ots.Exec, rows: Rows, n: nat): nat {
    if n == 0 then 0 else Pending(exec, rows, n - 1) + if n in rows && Upgradable(rows[n]) then 1 else 0
  }

  /** The report accounts for every pending row that has a proof, once. */
  lemma {:induction false} ReportBalances(exec: Ots.Exec, calendar: Ots.Calendar, now: i64, rows: Rows, n: nat)
    ensures var r := Counts(exec, calendar, now, rows, n);
      r.asked == r.confirmed + r.stillPending && r.asked + r.abandoned == Pending(exec, rows, n)
  {
    hide Ots.Upgraded, TooOld;
    if n > 0 {
      ReportBalances(exec, calendar, now, rows, n - 1);
    }
  }

  /** The proof a row carries, read back. */
  function Proof(exec: Ots.Exec, row: Row): Option<Ots.Step> {
    match row.ots
    case None => None
    case Some(file) => Ots.ReadFile(exec, file)
  }

  /** An upgrade never loses a proof: what was readable stays readable, for the same
      digest, with every attestation it had; and only a pending row changes state, to
      confirmed. */
  lemma RowKeepsProof(exec: Ots.Exec, calendar: Ots.Calendar, now: i64, row: Row)
    ensures var after := UpgradedRow(exec, calendar, now, row).0;
      && after.digest == row.digest && after.submittedAt == row.submittedAt
      && (after.state == row.state || (row.state == Vault.Pending && after.state == Vault.Confirmed))
      && (Proof(exec, row).Some? ==> Proof(exec, after).Some?)
      && (Proof(exec, row).Some? ==>
            multiset(Ots.Pairs(Proof(exec, row).value)) <= multiset(Ots.Pairs(Proof(exec, after).value)))
  {
    hide Ots.Upgraded, Ots.ReadFile, Ots.Pairs, TooOld;
    if Upgradable(row) && Ots.Upgraded(exec, calendar, row.digest, row.ots.value).Ok? {
      OtsLaws.UpgradeKeepsEverything(exec, calendar, row.digest, row.ots.value);
    }
  }

  /** When a row becomes confirmed: it was pending and young enough, its proof is a
      proof of its digest, some calendar answered, and the proof or an answer carries a
      Bitcoin attestation. A proof that already carried one is not enough by itself. */
  lemma ConfirmedExact(exec: Ots.Exec, calendar: Ots.Calendar, now: i64, row: Row)
    ensures UpgradedRow(exec, calendar, now, row).1 == Confirmed <==>
      && Upgradable(row) && !TooOld(row, now)
      && Proof(exec, row).Some? && row.ots.value.start == row.digest
      && var asked := Ots.Requests(Proof(exec, row).value);
         && OtsLaws.Answered(exec, calendar, asked) > 0
         && exists p :: (p in Ots.Pairs(Proof(exec, row).value) || p in OtsLaws.Gained(exec, calendar, asked))
                        && OtsLaws.Confirms(p)
  {
    hide Ots.ReadFile, Ots.Pairs, Ots.Requests, Ots.Merged, TooOld, OtsLaws.Confirms;
    if Upgradable(row) {
      var file := row.ots.value;
      if Ots.Upgraded(exec, calendar, row.digest, file).Ok? {
        OtsLaws.UpgradeKeepsEverything(exec, calendar, row.digest, file);
        OtsLaws.UpgradeConfirms(exec, calendar, row.digest, file);
      }
    }
  }
}
