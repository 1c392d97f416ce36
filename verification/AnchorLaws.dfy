/** What an anchor pass reports, as sets of rows, and what a confirmed row then says. */
module AnchorLaws {
  import opened Basics
  import opened Anchors
  import Vault
  import Ots
  import OtsLaws
  import OtsAnswers
  import OtsPasses

  /** A row is given up eight days after it was submitted, to the millisecond. */
  lemma TooOldExact(row: Row, now: i64)
    ensures TooOld(row, now) <==> row.submittedAt.Some? && now - row.submittedAt.value >= 691_200_000
  {
  }

  /** A row the pass may ask about: pending, with a proof. */
  predicate Waits(rows: Rows, s: nat) {
    s in rows && rows[s].state == Vault.Pending && rows[s].ots.Some?
  }

  predicate GivenUp(rows: Rows, now: i64, s: nat) {
    Waits(rows, s) && rows[s].submittedAt.Some? && now - rows[s].submittedAt.value >= 691_200_000
  }

  /** The row leaves the pass confirmed. */
  predicate Confirms(exec: Ots.Exec, calendar: Ots.Calendar, now: i64, rows: Rows, s: nat) {
    Waits(rows, s) && UpgradedRow(exec, calendar, now, rows[s]).0.state == Vault.Confirmed
  }

  function AbandonedRows(rows: Rows, now: i64, n: nat): set<nat> {
    set s: nat | 1 <= s <= n && GivenUp(rows, now, s)
  }

  function ConfirmedRows(exec: Ots.Exec, calendar: Ots.Calendar, now: i64, rows: Rows, n: nat): set<nat> {
    set s: nat | 1 <= s <= n && Confirms(exec, calendar, now, rows, s)
  }

  function AskedRows(rows: Rows, now: i64, n: nat): set<nat> {
    set s: nat | 1 <= s <= n && Waits(rows, s) && !GivenUp(rows, now, s)
  }

  function LeftPending(exec: Ots.Exec, calendar: Ots.Calendar, now: i64, rows: Rows, n: nat): set<nat> {
    set s: nat | 1 <= s <= n && Waits(rows, s) && !GivenUp(rows, now, s) && !Confirms(exec, calendar, now, rows, s)
  }

  lemma OutcomeExact(exec: Ots.Exec, calendar: Ots.Calendar, now: i64, rows: Rows, s: nat)
    requires s in rows
    ensures var o := UpgradedRow(exec, calendar, now, rows[s]).1;
      && (o == Skipped <==> !Waits(rows, s)) && (o == Abandoned <==> GivenUp(rows, now, s))
      && (o == Confirmed <==> Confirms(exec, calendar, now, rows, s))
      && (Confirms(exec, calendar, now, rows, s) ==> !GivenUp(rows, now, s))
  {
    hide Ots.Upgraded, TooOld;
    TooOldExact(rows[s], now);
  }

  lemma OneMore(a: set<nat>, b: set<nat>, n: nat)
    requires n !in a && forall s :: s in b <==> s in a || (s == n && n in b)
    ensures |b| == |a| + if n in b then 1 else 0
  {
    var c := if n in b then a + {n} else a;
    forall s: nat
      ensures s in b <==> s in c
    {
    }
    assert b == c;
  }

  /** The report counts rows one to the last: those asked about, those given up for their
      age, and of those asked about the ones that leave the pass confirmed and the ones
      that do not. */
  lemma {:induction false} ReportExact(exec: Ots.Exec, calendar: Ots.Calendar, now: i64, rows: Rows, n: nat)
    ensures var r := Counts(exec, calendar, now, rows, n);
      && r.asked == |AskedRows(rows, now, n)| && r.abandoned == |AbandonedRows(rows, now, n)|
      && r.confirmed == |ConfirmedRows(exec, calendar, now, rows, n)|
      && r.stillPending == |LeftPending(exec, calendar, now, rows, n)|
  {
    hide UpgradedRow, GivenUp, Waits, Confirms;
    if n > 0 {
      ReportExact(exec, calendar, now, rows, n - 1);
      if n in rows {
        OutcomeExact(exec, calendar, now, rows, n);
      }
      AbsentRow(exec, calendar, now, rows, n);
      OneMore(AskedRows(rows, now, n - 1), AskedRows(rows, now, n), n);
      OneMore(AbandonedRows(rows, now, n - 1), AbandonedRows(rows, now, n), n);
      OneMore(ConfirmedRows(exec, calendar, now, rows, n - 1), ConfirmedRows(exec, calendar, now, rows, n), n);
      OneMore(LeftPending(exec, calendar, now, rows, n - 1), LeftPending(exec, calendar, now, rows, n), n);
    }
  }

  lemma AbsentRow(exec: Ots.Exec, calendar: Ots.Calendar, now: i64, rows: Rows, s: nat)
    ensures s !in rows ==> !Waits(rows, s)
    ensures !Waits(rows, s) ==> !GivenUp(rows, now, s) && !Confirms(exec, calendar, now, rows, s)
  {
    hide UpgradedRow;
  }

  /** A row that becomes confirmed carries the height of the first attestation in its new
      proof that confirms; a row that does not keeps its state and its height. */
  lemma HeightRecorded(exec: Ots.Exec, calendar: Ots.Calendar, now: i64, row: Row, i: nat)
    requires var after := UpgradedRow(exec, calendar, now, row).0;
      Proof(exec, after).Some? && OtsAnswers.FirstConfirms(Ots.Pairs(Proof(exec, after).value), i)
    ensures var (after, outcome) := UpgradedRow(exec, calendar, now, row);
      var pairs := Ots.Pairs(Proof(exec, after).value);
      && (outcome == Confirmed ==>
            i < |pairs| && after.state == Vault.Confirmed && after.blockHeight == Some(pairs[i].0.height))
      && (outcome != Confirmed ==> after.state == row.state && after.blockHeight == row.blockHeight)
  {
    hide Ots.Upgraded, Ots.ReadFile, Ots.Pairs, TooOld, OtsAnswers.FirstConfirms;
    if Upgradable(row) && !TooOld(row, now) && Ots.Upgraded(exec, calendar, row.digest, row.ots.value).Ok?
       && Ots.Upgraded(exec, calendar, row.digest, row.ots.value).value.file.Some? {
      OtsAnswers.UpgradeReports(exec, calendar, row.digest, row.ots.value, i);
    }
  }

  /** What a row gains: asked about and with a proof of its digest, it holds afterwards the
      attestations it had and exactly the fragments'; any other row is as it was. */
  lemma RowGains(exec: Ots.Exec, calendar: Ots.Calendar, now: i64, row: Row)
    ensures var after := UpgradedRow(exec, calendar, now, row).0;
      if Upgradable(row) && !TooOld(row, now) && Proof(exec, row).Some? && row.ots.value.start == row.digest then
        var before := Ots.Pairs(Proof(exec, row).value);
        var gained := OtsLaws.Gained(exec, calendar, Ots.Requests(Proof(exec, row).value));
        Proof(exec, after).Some?
        && multiset(Ots.Pairs(Proof(exec, after).value)) == multiset(before) + multiset(gained)
      else after == row
  {
    hide Ots.Upgraded, Ots.ReadFile, Ots.Pairs, Ots.Requests, TooOld, OtsLaws.Gained, OtsLaws.Answered;
    if Upgradable(row) {
      var file := row.ots.value;
      OtsAnswers.UpgradeReadable(exec, calendar, file);
      if Ots.Upgraded(exec, calendar, row.digest, file).Ok? {
        OtsLaws.UpgradeKeepsEverything(exec, calendar, row.digest, file);
        OtsPasses.GainWhenAnswered(exec, calendar, Ots.Requests(Ots.ReadFile(exec, file).value));
      }
    }
  }
}
