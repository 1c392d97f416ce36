/** The calendar in closed form: a civil date and the number of days since 1970-01-01 it
    stands for determine each other, and what a date is written as. */
module CalendarLaws {
  import opened Basics
  import opened Calendar

  /** A leap year: 400 divides it, or 4 does and 100 does not. */
  predicate Leaps(year: int) {
    year % 400 == 0 || (year % 4 == 0 && year % 100 != 0)
  }

  /** Days from the start of 1970 to the start of a year: 365 each and one more for every
      fourth year, except the centuries that 400 does not divide. */
  function YearStart(year: int): int {
    365 * (year - 1970)
    + ((year - 1) / 4 - 1969 / 4) - ((year - 1) / 100 - 1969 / 100) + ((year - 1) / 400 - 1969 / 400)
  }

  /** Days from the start of a common year to the start of a month. */
  function MonthStart(month: int): int
    requires 1 <= month <= 12
  {
    [0, 31, 59, 90, 120, 151, 181, 212, 243, 273, 304, 334][month - 1]
  }

  function DayNumber(d: CivilDate): int
    requires 1 <= d.month <= 12
  {
    YearStart(d.year) + MonthStart(d.month) + (if d.month > 2 && Leaps(d.year) then 1 else 0) + d.day - 1
  }

  lemma Quarters(y: int)
    ensures y / 4 - (y - 1) / 4 == if y % 4 == 0 then 1 else 0
  {
  }

  lemma Centuries(y: int)
    ensures y / 100 - (y - 1) / 100 == if y % 100 == 0 then 1 else 0
  {
  }

  lemma FourCenturies(y: int)
    ensures y / 400 - (y - 1) / 400 == if y % 400 == 0 then 1 else 0
  {
  }

  lemma Divides(y: int)
    ensures y % 400 == 0 ==> y % 100 == 0
    ensures y % 100 == 0 ==> y % 4 == 0
  {
    if y % 400 == 0 {
      Hundreds(4 * (y / 400));
    }
    if y % 100 == 0 {
      Fours(25 * (y / 100));
    }
  }

  lemma Hundreds(k: int)
    ensures 100 * k % 100 == 0
  {
  }

  lemma Fours(k: int)
    ensures 4 * k % 4 == 0
  {
  }

  lemma NextYear(year: int)
    ensures YearStart(year + 1) == YearStart(year) + if Leaps(year) then 366 else 365
    ensures Leaps(year) <==> IsLeap(year)
  {
    Quarters(year);
    Centuries(year);
    FourCenturies(year);
    Divides(year);
  }

  lemma NextCounts(d: CivilDate)
    requires Valid(d)
    ensures Valid(Next(d)) && DayNumber(Next(d)) == DayNumber(d) + 1
  {
    hide YearStart, Leaps, IsLeap;
    NextYear(d.year);
  }

  lemma PreviousCounts(d: CivilDate)
    requires Valid(d)
    ensures Valid(Previous(d)) && DayNumber(Previous(d)) == DayNumber(d) - 1
  {
    hide YearStart, Leaps, IsLeap;
    NextYear(d.year);
    NextYear(d.year - 1);
  }

  lemma {:induction false} CivilCounts(n: Day)
    ensures DayNumber(Civil(n)) == n
    decreases if n < 0 then -n else n
  {
    hide DayNumber, Next, Previous, Valid;
    if n > 0 {
      CivilCounts(n - 1);
      NextCounts(Civil(n - 1));
    } else if n < 0 {
      CivilCounts(n + 1);
      PreviousCounts(Civil(n + 1));
    } else {
      Epoch();
    }
  }

  lemma Epoch()
    ensures DayNumber(CivilDate(1970, 1, 1)) == 0
  {
  }

  lemma {:induction false} YearsApart(a: int, b: int)
    requires a <= b
    ensures YearStart(a) <= YearStart(b)
    decreases b - a
  {
    hide YearStart;
    if a < b {
      YearsApart(a, b - 1);
      NextYear(b - 1);
    }
  }

  lemma NumbersApart(a: CivilDate, b: CivilDate)
    requires Valid(a) && Valid(b) && Before(a, b)
    ensures DayNumber(a) < DayNumber(b)
  {
    hide YearStart, Leaps, IsLeap;
    NextYear(a.year);
    if a.year < b.year {
      YearsApart(a.year + 1, b.year);
    }
  }

  /** One date, one number: every valid civil date is that of its day number, and every
      day number is that of its civil date. */
  lemma CivilExact(n: Day, d: CivilDate)
    requires Valid(d)
    ensures Civil(n) == d <==> DayNumber(d) == n
  {
    hide DayNumber, DaysIn, Civil;
    CivilCounts(n);
    if DayNumber(d) == n && Civil(n) != d {
      if Before(Civil(n), d) {
        NumbersApart(Civil(n), d);
      } else {
        NumbersApart(d, Civil(n));
      }
      assert false;
    }
  }

  // --- as written ----------------------------------------------------------------------------------------

  /** The decimal digit of this value, in ASCII. */
  function Digit(n: int): u8
    requires 0 <= n < 10
  {
    0x30 + n
  }

  lemma TwoDigits(n: nat)
    requires n < 100
    ensures Decimal(n, 2) == [Digit(n / 10), Digit(n % 10)]
  {
    assert Decimal(n / 10, 1) == Decimal(n / 100, 0) + [Digit(n / 10)];
  }

  lemma FourDigits(n: nat)
    requires n < 10000
    ensures Decimal(n, 4) == [Digit(n / 1000), Digit(n / 100 % 10), Digit(n / 10 % 10), Digit(n % 10)]
  {
    TwoDigits(n / 100);
    assert n / 100 / 10 == n / 1000 && n / 10 / 10 == n / 100;
    assert Decimal(n, 4) == Decimal(n / 10, 3) + [Digit(n % 10)];
    assert Decimal(n / 10, 3) == Decimal(n / 100, 2) + [Digit(n / 10 % 10)];
  }

  /** A date of the years 0 to 9999 is ten bytes: year, month and day in decimal, with
      dashes between. */
  lemma RenderBytes(n: Day, d: CivilDate)
    requires Valid(d) && 0 <= d.year <= 9999 && DayNumber(d) == n
    ensures Render(n) ==
      [Digit(d.year / 1000), Digit(d.year / 100 % 10), Digit(d.year / 10 % 10), Digit(d.year % 10), 0x2D,
       Digit(d.month / 10), Digit(d.month % 10), 0x2D, Digit(d.day / 10), Digit(d.day % 10)]
  {
    hide DayNumber, Decimal;
    CivilExact(n, d);
    FourDigits(d.year);
    TwoDigits(d.month);
    TwoDigits(d.day);
  }

  /** 2024-02-29, the 19782nd day after the epoch. */
  lemma LeapDayBytes()
    ensures Render(19782) == [0x32, 0x30, 0x32, 0x34, 0x2D, 0x30, 0x32, 0x2D, 0x32, 0x39]
  {
    hide Render, Civil;
    RenderBytes(19782, CivilDate(2024, 2, 29));
  }

  /** Years outside those are signed. */
  lemma RenderSigns(n: Day)
    ensures Render(n) != []
    ensures Render(n)[0] == 0x2D <==> Civil(n).year < 0
    ensures Render(n)[0] == 0x2B <==> Civil(n).year > 9999
  {
    hide Civil;
  }
}
