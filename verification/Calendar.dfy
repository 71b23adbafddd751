/** The proleptic Gregorian calendar, counted day by day from January 1, 1970, and the closed
    formulas that the conversion of a time stamp relies on. */
module Calendar {

  function B(b: bool): nat { if b then 1 else 0 }

  predicate Leap(y: nat) { y % 4 == 0 && (y % 100 != 0 || y % 400 == 0) }

  function YearLength(y: nat): nat { 365 + B(Leap(y)) }

  function MonthLength(y: nat, m: nat): nat
    requires 1 <= m <= 12
  {
    if m == 2 then 28 + B(Leap(y)) else if m == 4 || m == 6 || m == 9 || m == 11 then 30 else 31
  }

  /** The days from January 1, 1970 to January 1 of the year `y`. */
  function DaysBeforeYear(y: nat): nat {
    if y <= 1970 then 0 else DaysBeforeYear(y - 1) + YearLength(y - 1)
  }

  function DaysBeforeMonth(y: nat, m: nat): nat
    requires 1 <= m <= 12
  {
    if m == 1 then 0 else DaysBeforeMonth(y, m - 1) + MonthLength(y, m - 1)
  }

  ghost predicate IsDate(y: nat, m: nat, d: nat) {
    1970 <= y && 1 <= m <= 12 && 1 <= d <= MonthLength(y, m)
  }

  /** The days from January 1, 1970 to a date. */
  function DayNumber(y: nat, m: nat, d: nat): int
    requires 1 <= m <= 12
  {
    DaysBeforeYear(y) + DaysBeforeMonth(y, m) + d - 1
  }

  // ---------- the day number determines the date ----------

  lemma {:induction false} MonthsInYear(y: nat, m: nat, m': nat)
    requires 1 <= m <= m' <= 12
    ensures m < m' ==> DaysBeforeMonth(y, m) + MonthLength(y, m) <= DaysBeforeMonth(y, m')
    ensures DaysBeforeMonth(y, m') + MonthLength(y, m') <= YearLength(y)
    decreases m' - m, 12 - m'
  {
    if m + 1 < m' { MonthsInYear(y, m, m' - 1); }
    if m' < 12 {
      MonthsInYear(y, m' + 1, m' + 1);
    } else {
      DaysBeforeMonths(y);
    }
  }

  lemma {:induction false} YearsApart(y: nat, y': nat)
    requires 1970 <= y < y'
    ensures DaysBeforeYear(y) + YearLength(y) <= DaysBeforeYear(y')
    decreases y' - y
  {
    if y + 1 < y' { YearsApart(y, y' - 1); }
  }

  /** Two dates with the same day number are the same. */
  lemma {:induction false} DateIsUnique(y: nat, m: nat, d: nat, y': nat, m': nat, d': nat)
    requires IsDate(y, m, d) && IsDate(y', m', d') && DayNumber(y, m, d) == DayNumber(y', m', d')
    ensures y == y' && m == m' && d == d'
  {
    MonthsInYear(y, m, m);
    MonthsInYear(y', m', m');
    if y < y' {
      YearsApart(y, y');
    } else if y' < y {
      YearsApart(y', y);
    } else if m < m' {
      MonthsInYear(y, m, m');
    } else {
      MonthsInYear(y, m', m);
    }
  }

  // ---------- closed forms ----------

  lemma DaysBeforeMonths(y: nat)
    ensures DaysBeforeMonth(y, 2) == 31
    ensures DaysBeforeMonth(y, 3) == 59 + B(Leap(y))
    ensures DaysBeforeMonth(y, 4) == 90 + B(Leap(y))
    ensures DaysBeforeMonth(y, 5) == 120 + B(Leap(y))
    ensures DaysBeforeMonth(y, 6) == 151 + B(Leap(y))
    ensures DaysBeforeMonth(y, 7) == 181 + B(Leap(y))
    ensures DaysBeforeMonth(y, 8) == 212 + B(Leap(y))
    ensures DaysBeforeMonth(y, 9) == 243 + B(Leap(y))
    ensures DaysBeforeMonth(y, 10) == 273 + B(Leap(y))
    ensures DaysBeforeMonth(y, 11) == 304 + B(Leap(y))
    ensures DaysBeforeMonth(y, 12) == 334 + B(Leap(y))
  {
    assert DaysBeforeMonth(y, 2) == 31;
    assert DaysBeforeMonth(y, 4) == 90 + B(Leap(y));
    assert DaysBeforeMonth(y, 6) == 151 + B(Leap(y));
    assert DaysBeforeMonth(y, 8) == 212 + B(Leap(y));
    assert DaysBeforeMonth(y, 10) == 273 + B(Leap(y));
  }

  /** The days from March 1 of the year 0 to March 1 of the year `y`. */
  function March(y: nat): nat { 365 * y + y / 4 - y / 100 + y / 400 }

  lemma MarchStep(y: nat)
    ensures March(y + 1) == March(y) + 365 + B(Leap(y + 1))
  {
    assert (y + 1) / 4 == y / 4 + B((y + 1) % 4 == 0);
    assert (y + 1) / 100 == y / 100 + B((y + 1) % 100 == 0);
    assert (y + 1) / 400 == y / 400 + B((y + 1) % 400 == 0);
    Divides(y + 1);
  }

  /** A multiple of 400 is one of 100, which is one of 4. */
  lemma Divides(y: nat)
    ensures y % 400 == 0 ==> y % 100 == 0
    ensures y % 100 == 0 ==> y % 4 == 0
  {
    var q, r := y / 400, y / 100;
    assert y % 400 == 0 ==> y == 100 * (4 * q);
    assert y % 100 == 0 ==> y == 4 * (25 * r);
  }

  lemma {:induction false} MarchIsDayNumber(y: nat)
    requires 1970 <= y
    ensures March(y) == DaysBeforeYear(y) + DaysBeforeMonth(y, 3) + 719468
  {
    DaysBeforeMonths(y);
    if y > 1970 {
      MarchIsDayNumber(y - 1);
      DaysBeforeMonths(y - 1);
      MarchStep(y - 1);
    }
  }

  // ---------- from a day number to the date, by Gauss' formulas ----------

  /** A year counted from March has 146097 / 400 days on average, and no year starts far from where
      that average puts it. */
  lemma MarchOnAverage(y: nat)
    ensures 146097 * y - 591 <= 400 * March(y) <= 146097 * y + 288
  {
    var a, c, k := y / 400, y / 100, y % 100 / 4;
    assert c == 4 * a + c % 4;
    assert y / 4 == 25 * c + k;
    assert y == 100 * c + 4 * k + y % 4;
  }

  /** The estimated year is the right one or one too high. */
  lemma EstimatedYear(days: nat)
    ensures var y := (days + 2) * 400 / 146097; days < March(y + 1) && (y > 0 ==> March(y - 1) <= days)
  {
    var y := (days + 2) * 400 / 146097;
    assert 146097 * y <= (days + 2) * 400 < 146097 * (y + 1);
    MarchOnAverage(y + 1);
    if y > 0 { MarchOnAverage(y - 1); }
  }

  /** The month, counted from March as 1, and the day, from the day `yday` of a year that starts
      with March. */
  lemma MonthAndDay(y: nat, yday: nat)
    requires yday < 365 + B(Leap(y + 1))
    ensures var mon := (yday + 31) * 10 / 306;
      var mday := yday - (367 * mon / 12 - 30) + 1;
      var year, month := if yday >= 306 then y + 1 else y, if yday >= 306 then mon - 10 else mon + 2;
      && 1 <= month <= 12 && 1 <= mday <= MonthLength(year, month)
      && DaysBeforeMonth(year, month) + mday - 1 == if yday >= 306 then yday - 306 else 59 + B(Leap(y)) + yday
  {
    DaysBeforeMonths(y);
    DaysBeforeMonths(y + 1);
    var mon := (yday + 31) * 10 / 306;
    assert 306 * mon <= (yday + 31) * 10 < 306 * (mon + 1);
    assert 1 <= mon <= 12;
  }
}
