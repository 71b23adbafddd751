/** Conversion of time stamps to calendar fields. */
module Time {
  import opened Bytes
  import opened Calendar

  class Tm {
    var sec: int
    var min: int
    var hour: int
    var mday: int
    var mon: int
    var year: int
    var wday: int
  }

  const LAST_DAY := 2932896
  const LAST_SECOND := 253402300799

  /** The day number in the 32-bit variable. */
  function Days(s: int): Uint32 { (if s < 0 then 0 else s) / 86400 % 0x1_0000_0000 }

  /** The instant whose fields are delivered: times before 1970 count as its beginning, and those
      from the year 10000 on as the last second of 9999. */
  function Instant(s: int): nat {
    if Days(s) > LAST_DAY then LAST_SECOND else 86400 * Days(s) + (if s < 0 then 0 else s % 86400)
  }

  /** The fields are the date, time of day and weekday of the instant `t`; day 0 is a Thursday. */
  ghost predicate Shows(tm: Tm, t: nat)
    reads tm
  {
    && tm.year >= 0 && tm.mon >= 0 && tm.mday >= 0 && IsDate(tm.year, tm.mon, tm.mday)
    && DayNumber(tm.year, tm.mon, tm.mday) == t / 86400
    && 0 <= tm.hour < 24 && 0 <= tm.min < 60 && 0 <= tm.sec < 60
    && 3600 * tm.hour + 60 * tm.min + tm.sec == t % 86400
    && tm.wday == (t / 86400 + 4) % 7
  }

  method Gmtime(time: int, tm: Tm)
    modifies tm
    ensures Shows(tm, Instant(time))
  {
    var s := if time < 0 then 0 else time;
    var days: Uint32, sec: Uint32 := s / 86400 % 0x1_0000_0000, s % 86400;
    if days > 2932896 {
      days := 2932896;
      sec := 86399;
    }
    ghost var day, second := days as int, sec as int;
    var wday := (4 + days) % 7;
    var hour := sec / 3600;
    sec := sec % 3600;
    var min := sec / 60;
    sec := sec % 60;
    var year, mon, mday := DateOf(days);
    tm.sec, tm.min, tm.hour, tm.mday, tm.mon, tm.year, tm.wday := sec, min, hour, mday, mon, year, wday;
    TimeOfDay(second);
    assert Instant(time) == 86400 * day + second;
  }

  lemma TimeOfDay(sec: nat)
    ensures 3600 * (sec / 3600) + 60 * (sec % 3600 / 60) + sec % 3600 % 60 == sec
  {
  }

  /** The part of the conversion that follows Gauss' formulas. */
  method DateOf(day: Uint32) returns (year: Uint32, mon: Uint32, mday: nat)
    requires day <= LAST_DAY
    ensures IsDate(year, mon, mday) && DayNumber(year, mon, mday) == day
  {
    // The difference wraps around below 59, and the sum wraps back.
    var days: Uint32 := ((day - (31 + 28)) % 0x1_0000_0000 + 719527) % 0x1_0000_0000;
    WrapsBack(day);
    hide IsDate, DayNumber, Leap, March;
    var yday: nat;
    year, yday := YearOf(days);
    DateOfDay(year, yday, day);
    mon := (yday + 31) * 10 / 306;
    mday := yday - (367 * mon / 12 - 30) + 1;
    if yday >= 306 {
      year := year + 1;
      mon := mon - 10;
    } else {
      mon := mon + 2;
    }
  }

  lemma WrapsBack(day: Uint32)
    requires day <= LAST_DAY
    ensures ((day - (31 + 28)) % 0x1_0000_0000 + 719527) % 0x1_0000_0000 == day + 719468
  {
    assert (day - 59) % 0x1_0000_0000 == if day < 59 then day - 59 + 0x1_0000_0000 else day - 59;
  }

  /** The year that starts with March, and the day in it. */
  method YearOf(days: Uint32) returns (year: Uint32, yday: int)
    requires days <= LAST_DAY + 719468
    ensures year <= 10000 && March(year) + yday == days && 0 <= yday < 365 + B(Leap(year + 1))
  {
    assert (days + 2) * 400 < 0x1_0000_0000;
    year := (days + 2) * 400 / (365 * 400 + 100 - 4 + 1);
    yday := days - (365 * year + year / 4 - year / 100 + year / 400);
    EstimatedYear(days);
    MarchStep(year);
    if yday < 0 {
      MarchStep(year - 1);
      var leap := if year % 4 == 0 && (year % 100 != 0 || year % 400 == 0) then 1 else 0;
      yday := 365 + leap + yday;
      year := year - 1;
    }
  }

  /** The day `yday` of the year that starts with March of `march` is the day number `day`. */
  lemma DateOfDay(march: nat, yday: nat, day: nat)
    requires March(march) + yday == day + 719468 && yday < 365 + B(Leap(march + 1))
    ensures var mon := (yday + 31) * 10 / 306;
      var mday := yday - (367 * mon / 12 - 30) + 1;
      var year, month := if yday >= 306 then march + 1 else march, if yday >= 306 then mon - 10 else mon + 2;
      month >= 0 && mday >= 0 && IsDate(year, month, mday) && DayNumber(year, month, mday) == day
  {
    FirstYear(march, yday, day);
    MonthAndDay(march, yday);
    if yday >= 306 {
      MarchIsDayNumber(march + 1);
      DaysBeforeMonths(march + 1);
      MarchStep(march);
    } else {
      MarchIsDayNumber(march);
      DaysBeforeMonths(march);
    }
  }

  lemma {:induction false} MarchGrows(y: nat, y': nat)
    requires y <= y'
    ensures March(y) <= March(y')
    decreases y' - y
  {
    if y < y' {
      MarchGrows(y, y' - 1);
      MarchStep(y' - 1);
    }
  }

  /** January 1, 1970 is in the year that starts with March 1969. */
  lemma FirstYear(march: nat, yday: nat, day: nat)
    requires March(march) + yday == day + 719468 && yday < 365 + B(Leap(march + 1))
    ensures march >= 1969 && (march == 1969 ==> yday >= 306)
  {
    MarchStep(march);
    if march < 1969 { MarchGrows(march + 1, 1969); }
  }

  // ---------- what the fields say about the time stamp ----------

  /** The last day that is delivered is December 31, 9999. */
  lemma LastDay()
    ensures DayNumber(9999, 12, 31) == LAST_DAY && LAST_SECOND == 86400 * LAST_DAY + 86399
  {
    MarchIsDayNumber(9999);
    DaysBeforeMonths(9999);
  }

  /** Which time stamps are delivered as they are, or as the nearer end of the years from 1970 to 9999:
      all whose day number fits the 32-bit variable, and those whose low 32 bits are beyond the end, too. */
  lemma InstantIsExact(s: int)
    ensures Instant(s) == (if s < 0 then 0 else if s > LAST_SECOND then LAST_SECOND else s) <==>
      s / 86400 < 0x1_0000_0000 || s / 86400 % 0x1_0000_0000 > LAST_DAY
      || (s / 86400 % 0x1_0000_0000 == LAST_DAY && s % 86400 == 86399)
  {
    var d := s / 86400;
    assert s == 86400 * d + s % 86400;
    if d >= 0x1_0000_0000 {
      assert Instant(s) == if Days(s) > LAST_DAY then LAST_SECOND else 86400 * Days(s) + s % 86400;
    }
  }

  /** A time stamp that is cut off to another day of the calendar. */
  lemma InstantCutOff()
    ensures Instant(86400 * 0x1_0000_0000) == 0
  {
    assert (86400 * 0x1_0000_0000) / 86400 == 0x1_0000_0000;
  }

  /** "Seconds since the Epoch" of section 4.16 of IEEE Std 1003.1-2017; `year` counts from 1900. */
  function SecondsSinceEpoch(sec: int, min: int, hour: int, yday: int, year: int): int {
    sec + min * 60 + hour * 3600 + yday * 86400 + (year - 70) * 31536000
    + (year - 69) / 4 * 86400 - (year - 1) / 100 * 86400 + (year + 299) / 400 * 86400
  }

  lemma {:induction false} YearsInClosedForm(y: nat)
    requires 1970 <= y
    ensures DaysBeforeYear(y) == 365 * (y - 1970) + (y - 1969) / 4 - (y - 1901) / 100 + (y - 1601) / 400
  {
    if y > 1970 {
      YearsInClosedForm(y - 1);
      LeapYearsPass(y - 1);
    }
  }

  lemma LeapYearsPass(x: nat)
    requires 1970 <= x
    ensures (x - 1968) / 4 - (x - 1900) / 100 + (x - 1600) / 400
      == (x - 1969) / 4 - (x - 1901) / 100 + (x - 1601) / 400 + B(Leap(x))
  {
    assert (x - 1968) / 4 == (x - 1969) / 4 + B(x % 4 == 0);
    assert (x - 1900) / 100 == (x - 1901) / 100 + B(x % 100 == 0);
    assert (x - 1600) / 400 == (x - 1601) / 400 + B(x % 400 == 0);
    Divides(x);
  }

  /** The standard's formula takes the fields back to the instant that they show. */
  lemma FieldsGiveInstant(tm: Tm, t: nat)
    requires Shows(tm, t)
    ensures SecondsSinceEpoch(tm.sec, tm.min, tm.hour, DaysBeforeMonth(tm.year, tm.mon) + tm.mday - 1, tm.year - 1900)
      == t
  {
    YearsInClosedForm(tm.year);
    var d := t / 86400;
    assert t == 86400 * d + t % 86400;
    SplitSeconds(tm.year - 1900, DaysBeforeMonth(tm.year, tm.mon) + tm.mday - 1, tm.sec, tm.min, tm.hour);
  }

  lemma SplitSeconds(year: int, yday: int, sec: int, min: int, hour: int)
    ensures SecondsSinceEpoch(sec, min, hour, yday, year) ==
      86400 * (365 * (year - 70) + (year - 69) / 4 - (year - 1) / 100 + (year + 299) / 400 + yday)
        + 3600 * hour + 60 * min + sec
  {
  }

  /** Only one assignment of the fields shows an instant. */
  lemma FieldsAreUnique(tm: Tm, tm': Tm, t: nat)
    requires Shows(tm, t) && Shows(tm', t)
    ensures tm.year == tm'.year && tm.mon == tm'.mon && tm.mday == tm'.mday && tm.wday == tm'.wday
    ensures tm.hour == tm'.hour && tm.min == tm'.min && tm.sec == tm'.sec
  {
    DateIsUnique(tm.year, tm.mon, tm.mday, tm'.year, tm'.mon, tm'.mday);
  }

  // ---------- the weekday ----------

  /** The sum of Zeller's congruence, in which January and February are the months 13 and 14 of the
      year before. */
  function Zeller(year: nat, mon: nat, mday: nat): nat
    requires year > 0
  {
    var y, m := if mon <= 2 then year - 1 else year, if mon <= 2 then mon + 12 else mon;
    mday + 13 * (m + 1) / 5 + y % 100 + y % 100 / 4 + y / 100 / 4 + 5 * (y / 100)
  }

  /** The days up to March 1, by century and year of the century. */
  lemma MarchByCentury(y: nat)
    ensures March(y) == y % 100 + y % 100 / 4 + y / 100 / 4 + 5 * (y / 100) + 7 * (52 * y + 17 * (y / 100))
  {
    var c, k := y / 100, y % 100;
    assert y == 100 * c + k;
    assert y / 4 == 25 * c + k / 4;
    assert y / 400 == c / 4;
  }

  /** The days before a month, counted from March 1 of its year or of the year before. */
  lemma MonthsFromMarch(year: nat, mon: nat)
    requires year > 1969 && 1 <= mon <= 12
    ensures var y, m := if mon <= 2 then year - 1 else year, if mon <= 2 then mon + 12 else mon;
      DaysBeforeYear(year) + DaysBeforeMonth(year, mon) == March(y) + 13 * (m + 1) / 5 + 28 * m - 94 - 719468
  {
    DaysBeforeMonths(year);
    MarchIsDayNumber(year);
    MarchStep(year - 1);
    assert DaysBeforeMonth(year, 1) == 0;
    hide March, DaysBeforeYear, DaysBeforeMonth, Leap;
  }

  /** A day number, modulo 7. */
  lemma DayNumberIsZeller(year: nat, mon: nat, mday: nat)
    requires IsDate(year, mon, mday)
    ensures (DayNumber(year, mon, mday) + 4) % 7 == (Zeller(year, mon, mday) + 6) % 7
  {
    var y, m := if mon <= 2 then year - 1 else year, if mon <= 2 then mon + 12 else mon;
    MonthsFromMarch(year, mon);
    MarchByCentury(y);
    var q := 52 * y + 17 * (y / 100) + 4 * m - 102795;
    hide March, DaysBeforeYear, DaysBeforeMonth;
    assert DayNumber(year, mon, mday) + 4 == Zeller(year, mon, mday) + 6 + 7 * q;
    Modulo7(Zeller(year, mon, mday) + 6, q);
  }

  lemma Modulo7(n: int, q: int)
    ensures (n + 7 * q) % 7 == n % 7
  {
  }

  /** The weekday is the one of the date, by a formula that counts no days: 0 is a Sunday, where
      Zeller's 0 is a Saturday. */
  lemma WeekdayOfDate(tm: Tm, t: nat)
    requires Shows(tm, t)
    ensures tm.wday == (Zeller(tm.year, tm.mon, tm.mday) + 6) % 7
  {
    DayNumberIsZeller(tm.year, tm.mon, tm.mday);
  }
}
