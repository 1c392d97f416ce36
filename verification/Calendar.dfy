/** Calendar dates and the way they are written into hash preimages.

    A `Day` is a date counted from 1970-01-01. `Civil` walks the Gregorian calendar
    one day at a time, as `pred_opt` and `succ_opt` do, and `Render` is the display
    form of `NaiveDate`: four digits for the years 0 to 9999, a sign and at least four
    digits outside them. */
module Calendar {
  import opened Basics

  type Day = int

  datatype CivilDate = CivilDate(year: int, month: int, day: int)

  predicate IsLeap(year: int) {
    year % 4 == 0 && (year % 100 != 0 || year % 400 == 0)
  }

  function DaysIn(year: int, month: int): int {
    if month == 2 then (if IsLeap(year) then 29 else 28)
    else if month in {4, 6, 9, 11} then 30
    else 31
  }

  predicate Valid(d: CivilDate) {
    1 <= d.month <= 12 && 1 <= d.day <= DaysIn(d.year, d.month)
  }

  function Next(d: CivilDate): CivilDate {
    if d.day < DaysIn(d.year, d.month) then d.(day := d.day + 1)
    else if d.month < 12 then CivilDate(d.year, d.month + 1, 1)
    else CivilDate(d.year + 1, 1, 1)
  }

  function Previous(d: CivilDate): CivilDate {
    if d.day > 1 then d.(day := d.day - 1)
    else if d.month > 1 then CivilDate(d.year, d.month - 1, DaysIn(d.year, d.month - 1))
    else CivilDate(d.year - 1, 12, 31)
  }

  function Civil(n: Day): (d: CivilDate)
    ensures Valid(d)
    decreases if n < 0 then -n else n
  {
    if n == 0 then CivilDate(1970, 1, 1)
    else if n > 0 then Next(Civil(n - 1))
    else Previous(Civil(n + 1))
  }

  predicate Before(a: CivilDate, b: CivilDate) {
    a.year < b.year || (a.year == b.year && (a.month < b.month || (a.month == b.month && a.day < b.day)))
  }

  lemma CivilAdvances(n: Day)
    ensures Before(Civil(n), Civil(n + 1))
  {
    if n < 0 {
      assert Civil(n) == Previous(Civil(n + 1));
    }
  }

  lemma {:induction false} CivilMonotone(m: Day, n: Day)
    requires m < n
    ensures Before(Civil(m), Civil(n))
    decreases n - m
  {
    CivilAdvances(n - 1);
    if m < n - 1 {
      CivilMonotone(m, n - 1);
    }
  }

  // --- decimal rendering --------------------------------------------------------------

  const ZERO: u8 := 48
  const DASH: u8 := 45
  const PLUS: u8 := 43

  function Pow10(n: nat): nat {
    if n == 0 then 1 else 10 * Pow10(n - 1)
  }

  function Decimal(n: nat, width: nat): (s: Bytes)
    ensures |s| == width
    ensures forall i :: 0 <= i < width ==> ZERO <= s[i] <= ZERO + 9
  {
    if width == 0 then [] else Decimal(n / 10, width - 1) + [ZERO + n % 10]
  }

  function DigitCount(n: nat): nat {
    if n < 10 then 1 else 1 + DigitCount(n / 10)
  }

  function FromDecimal(s: Bytes): int {
    if s == [] then 0 else 10 * FromDecimal(s[..|s| - 1]) + (s[|s| - 1] - ZERO)
  }

  lemma {:induction false} DecimalRoundTrip(n: nat, width: nat)
    requires n < Pow10(width)
    ensures FromDecimal(Decimal(n, width)) == n
  {
    if width > 0 {
      DecimalRoundTrip(n / 10, width - 1);
      assert Decimal(n, width)[..width - 1] == Decimal(n / 10, width - 1);
    }
  }

  lemma {:induction false} DigitCountFits(n: nat, width: nat)
    requires DigitCount(n) <= width
    ensures n < Pow10(width)
  {
    if n < 10 {
      Pow10Positive(width - 1);
    } else {
      DigitCountFits(n / 10, width - 1);
    }
  }

  lemma {:induction false} Pow10Positive(n: nat)
    ensures Pow10(n) >= 1
  {
    if n > 0 {
      Pow10Positive(n - 1);
    }
  }

  function YearWidth(n: nat): nat {
    if DigitCount(n) < 4 then 4 else DigitCount(n)
  }

  function RenderYear(year: int): Bytes {
    if 0 <= year <= 9999 then Decimal(year, 4)
    else if year < 0 then [DASH] + Decimal(-year, YearWidth(-year))
    else [PLUS] + Decimal(year, YearWidth(year))
  }

  function RenderMonthDay(d: CivilDate): (s: Bytes)
    requires Valid(d)
    ensures |s| == 6
  {
    [DASH] + Decimal(d.month, 2) + [DASH] + Decimal(d.day, 2)
  }

  function Render(n: Day): Bytes {
    RenderYear(Civil(n).year) + RenderMonthDay(Civil(n))
  }

  lemma RenderYearInjective(x: int, y: int)
    requires RenderYear(x) == RenderYear(y)
    ensures x == y
  {
    YearReadsBack(x);
    YearReadsBack(y);
  }

  function ReadYear(s: Bytes): int
    requires s != []
  {
    if s[0] == DASH then -FromDecimal(s[1..])
    else if s[0] == PLUS then FromDecimal(s[1..])
    else FromDecimal(s)
  }

  lemma YearReadsBack(y: int)
    ensures RenderYear(y) != [] && ReadYear(RenderYear(y)) == y
  {
    if 0 <= y <= 9999 {
      assert Pow10(4) == 10000;
      DecimalRoundTrip(y, 4);
    } else {
      var n := if y < 0 then -y else y;
      var w := YearWidth(n);
      DigitCountFits(n, w);
      DecimalRoundTrip(n, w);
      assert RenderYear(y)[1..] == Decimal(n, w);
    }
  }

  lemma Decimal2Injective(m: nat, n: nat)
    requires m < 100 && n < 100 && Decimal(m, 2) == Decimal(n, 2)
    ensures m == n
  {
    assert Pow10(2) == 100;
    DecimalRoundTrip(m, 2);
    DecimalRoundTrip(n, 2);
  }

  lemma RenderMonthDayInjective(a: CivilDate, b: CivilDate)
    requires Valid(a) && Valid(b) && RenderMonthDay(a) == RenderMonthDay(b)
    ensures a.month == b.month && a.day == b.day
  {
    var s, t := RenderMonthDay(a), RenderMonthDay(b);
    assert s[1..3] == Decimal(a.month, 2) && t[1..3] == Decimal(b.month, 2);
    assert s[4..6] == Decimal(a.day, 2) && t[4..6] == Decimal(b.day, 2);
    Decimal2Injective(a.month, b.month);
    Decimal2Injective(a.day, b.day);
  }

  /** Two dates render alike only if they are the same date, in any year. */
  lemma RenderInjective(m: Day, n: Day)
    requires Render(m) == Render(n)
    ensures m == n
  {
    var a, b := Civil(m), Civil(n);
    var ya, yb := RenderYear(a.year), RenderYear(b.year);
    ConcatSplit(ya, RenderMonthDay(a), yb, RenderMonthDay(b));
    RenderYearInjective(a.year, b.year);
    RenderMonthDayInjective(a, b);
    if m < n { CivilMonotone(m, n); }
    if n < m { CivilMonotone(n, m); }
  }

  /** Comfortably more than the dates `NaiveDate` can represent (years -262143 to
      262142), so that every such date is covered. */
  type Date = d: int | -100_000_000 < d < 100_000_000

  lemma {:induction false} CivilYearNear(n: Day)
    ensures if n < 0 then n <= Civil(n).year - 1970 <= 0 else 0 <= Civil(n).year - 1970 <= n
    decreases if n < 0 then -n else n
  {
    if n > 0 { CivilYearNear(n - 1); }
    if n < 0 { CivilYearNear(n + 1); }
  }

  lemma {:induction false} DigitCountBound(n: nat, width: nat)
    requires n < Pow10(width) && width >= 1
    ensures DigitCount(n) <= width
  {
    if n >= 10 {
      DigitCountBound(n / 10, width - 1);
    }
  }

  lemma RenderedDateIsShort(d: Date)
    ensures |Render(d)| < 100
    ensures forall i :: 0 <= i < |Render(d)| ==> Render(d)[i] < 0x80
  {
    CivilYearNear(d);
    var year := Civil(d).year;
    assert Pow10(9) == 1_000_000_000;
    DigitCountBound(if year < 0 then -year else year, 9);
  }

  predicate IsLetter(c: u8) {
    65 <= c <= 90 || 97 <= c <= 122
  }

  lemma RenderHasNoLetter(n: Day)
    ensures forall i :: 0 <= i < |Render(n)| ==> !IsLetter(Render(n)[i])
  {
  }

  /** An IANA zone name: never empty, and it starts with a letter. */
  type TzName = b: Bytes | b != [] && IsLetter(b[0]) witness [85]

  /** A date followed by a zone name parses back, although neither is framed and
      neither has a fixed width: no letter occurs in a date, and a zone starts with one. */
  lemma DateZoneInjective(m: Day, tz: TzName, n: Day, tz': TzName)
    requires Render(m) + tz == Render(n) + tz'
    ensures m == n && tz == tz'
  {
    RenderHasNoLetter(m);
    RenderHasNoLetter(n);
    LetterSplits(Render(m), tz, Render(n), tz');
    RenderInjective(m, n);
  }

  lemma LetterSplits(a: Bytes, b: Bytes, c: Bytes, d: Bytes)
    requires a + b == c + d && b != [] && d != [] && IsLetter(b[0]) && IsLetter(d[0])
    requires forall i :: 0 <= i < |a| ==> !IsLetter(a[i])
    requires forall i :: 0 <= i < |c| ==> !IsLetter(c[i])
    ensures a == c && b == d
  {
    var s := a + b;
    assert forall i :: 0 <= i < |a| ==> !IsLetter(s[i]);
    assert forall i :: 0 <= i < |c| ==> !IsLetter((c + d)[i]);
    assert IsLetter(s[|a|]) && IsLetter((c + d)[|c|]);
    ConcatSplit(a, b, c, d);
  }
}
