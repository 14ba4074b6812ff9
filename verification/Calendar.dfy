/**
 localtime() and day_of_week(): seconds since the epoch turned into a Gregorian date with magic
 constants, in 32-bit unsigned arithmetic, and Zeller's congruence. The reference is the calendar
 counted out year by year and month by month.
 */
module Calendar {
  import opened Machine

  // ---------------------------------------------------------------------------
  // The calendar
  // ---------------------------------------------------------------------------

  predicate IsLeap(y: nat) {
    y % 4 == 0 && (y % 100 != 0 || y % 400 == 0)
  }

  function DaysInYear(y: nat): (n: nat) {
    if IsLeap(y) then 366 else 365
  }

  function DaysInMonth(y: nat, m: nat): (n: nat)
    requires 1 <= m <= 12
  {
    if m == 2 then (if IsLeap(y) then 29 else 28)
    else if m == 4 || m == 6 || m == 9 || m == 11 then 30
    else 31
  }

  /** Days from 1 January 1970 to 1 January of year `y`. */
  function DaysBeforeYear(y: nat): (n: nat)
    requires y >= 1970
  {
    if y == 1970 then 0 else DaysBeforeYear(y - 1) + DaysInYear(y - 1)
  }

  function DaysBeforeMonth(y: nat, m: nat): (n: nat)
    requires 1 <= m <= 12
  {
    if m == 1 then 0 else DaysBeforeMonth(y, m - 1) + DaysInMonth(y, m - 1)
  }

  predicate ValidDate(y: nat, m: nat, d: nat) {
    y >= 1970 && 1 <= m <= 12 && 1 <= d <= DaysInMonth(y, m)
  }

  /** Days since 1 January 1970. */
  function DayNumber(y: nat, m: nat, d: nat): (n: nat)
    requires ValidDate(y, m, d)
  {
    DaysBeforeYear(y) + DaysBeforeMonth(y, m) + d - 1
  }

  lemma {:induction false} YearsInClosedForm(y: nat)
    requires y >= 1970
    ensures DaysBeforeYear(y) == 365 * (y - 1970) + Leaps(y - 1) - 477
  {
    if y > 1970 {
      YearsInClosedForm(y - 1);
      LeapsStep(y - 1);
    }
  }

  /** The number of leap years from 1 to `y`. */
  function Leaps(y: nat): (n: int) {
    y / 4 - y / 100 + y / 400
  }

  lemma LeapsStep(y: nat)
    requires y > 0
    ensures Leaps(y) == Leaps(y - 1) + if IsLeap(y) then 1 else 0
  {
    assert y / 4 == (y - 1) / 4 + if y % 4 == 0 then 1 else 0;
    assert y / 100 == (y - 1) / 100 + if y % 100 == 0 then 1 else 0;
    assert y / 400 == (y - 1) / 400 + if y % 400 == 0 then 1 else 0;
    assert y % 400 == 0 ==> y % 100 == 0;
    assert y % 100 == 0 ==> y % 4 == 0;
  }

  lemma MonthsInClosedForm(y: nat, m: nat)
    requires 1 <= m <= 12
    ensures DaysBeforeMonth(y, m) ==
            [0, 31, 59, 90, 120, 151, 181, 212, 243, 273, 304, 334][m - 1] + (if m > 2 && IsLeap(y) then 1 else 0)
  {
  }

  lemma {:induction false} YearsIncrease(y1: nat, y2: nat)
    requires 1970 <= y1 < y2
    ensures DaysBeforeYear(y1) + DaysInYear(y1) <= DaysBeforeYear(y2)
  {
    if y2 > y1 + 1 {
      YearsIncrease(y1, y2 - 1);
    }
  }

  lemma {:induction false} MonthsIncrease(y: nat, m1: nat, m2: nat)
    requires 1 <= m1 < m2 <= 12
    ensures DaysBeforeMonth(y, m1) + DaysInMonth(y, m1) <= DaysBeforeMonth(y, m2)
  {
    if m2 > m1 + 1 {
      MonthsIncrease(y, m1, m2 - 1);
    }
  }

  predicate Earlier(y1: nat, m1: nat, d1: nat, y2: nat, m2: nat, d2: nat) {
    y1 < y2 || (y1 == y2 && (m1 < m2 || (m1 == m2 && d1 < d2)))
  }

  /** Day numbers order the dates, so no two dates share one and localtime has only one answer. */
  lemma DayNumberOrdersDates(y1: nat, m1: nat, d1: nat, y2: nat, m2: nat, d2: nat)
    requires ValidDate(y1, m1, d1) && ValidDate(y2, m2, d2)
    ensures Earlier(y1, m1, d1, y2, m2, d2) <==> DayNumber(y1, m1, d1) < DayNumber(y2, m2, d2)
  {
    if Earlier(y1, m1, d1, y2, m2, d2) {
      EarlierIsLess(y1, m1, d1, y2, m2, d2);
    } else if Earlier(y2, m2, d2, y1, m1, d1) {
      EarlierIsLess(y2, m2, d2, y1, m1, d1);
    }
  }

  lemma EarlierIsLess(y1: nat, m1: nat, d1: nat, y2: nat, m2: nat, d2: nat)
    requires ValidDate(y1, m1, d1) && ValidDate(y2, m2, d2) && Earlier(y1, m1, d1, y2, m2, d2)
    ensures DayNumber(y1, m1, d1) < DayNumber(y2, m2, d2)
  {
    if y1 < y2 {
      YearsIncrease(y1, y2);
      MonthsInClosedForm(y1, m1);
    } else if m1 < m2 {
      MonthsIncrease(y1, m1, m2);
    }
  }

  // ---------------------------------------------------------------------------
  // Years that start in March, so that the leap day comes last
  // ---------------------------------------------------------------------------

  function MarchYear(y: nat, m: nat): (r: int) {
    if m <= 2 then y - 1 else y
  }

  function MarchMonth(m: nat): (r: nat) {
    if m <= 2 then m + 12 else m
  }

  /** Days from 1 March to the first of month `mm`, counted from 3 to 14. */
  function DaysFromMarch(mm: nat): (n: nat)
    requires 3 <= mm <= 14
  {
    [0, 31, 61, 92, 122, 153, 184, 214, 245, 275, 306, 337][mm - 3]
  }

  lemma DayNumberFromMarch(y: nat, m: nat, d: nat)
    requires ValidDate(y, m, d)
    ensures DayNumber(y, m, d) ==
            365 * MarchYear(y, m) + Leaps(MarchYear(y, m)) + DaysFromMarch(MarchMonth(m)) + d - 719469
  {
    hide DaysBeforeYear, DaysBeforeMonth, Leaps, IsLeap;
    YearsInClosedForm(y);
    MonthsInClosedForm(y, m);
    LeapsStep(y);
  }

  // ---------------------------------------------------------------------------
  // day_of_week
  // ---------------------------------------------------------------------------

  /** Monday is 1 and Sunday is 7. */
  function DayOfWeek(y: nat, m: nat, d: nat): (w: nat) {
    if m <= 2 then Zeller((y - 1) % UINT32, m + 12, d) else Zeller(y, m, d)
  }

  function Zeller(y: nat, m: nat, d: nat): (w: nat) {
    var j, k := y / 100, y % 100;
    var h := d + 26 * (m + 1) / 10 + k + k / 4 + 5 * j + j / 4;
    (h + 5) % 7 + 1
  }

  /** Zeller's congruence agrees with the day count on every date: 1 January 1970 was a Thursday. */
  lemma WeekdayIsDayNumber(y: nat, m: nat, d: nat)
    requires ValidDate(y, m, d) && y < UINT32
    ensures DayOfWeek(y, m, d) == (DayNumber(y, m, d) + 3) % 7 + 1
  {
    hide DayNumber, Leaps, Zeller, DaysFromMarch;
    DayNumberFromMarch(y, m, d);
    ZellerFromMarch(MarchYear(y, m), MarchMonth(m), d, DayNumber(y, m, d));
  }

  lemma ZellerFromMarch(c: nat, mm: nat, d: nat, n: nat)
    requires 3 <= mm <= 14 && n == 365 * c + Leaps(c) + DaysFromMarch(mm) + d - 719469
    ensures Zeller(c, mm, d) == (n + 3) % 7 + 1
  {
    hide Leaps, DaysFromMarch;
    var j, k := c / 100, c % 100;
    LeapsByCentury(c);
    var shift := MonthShift(mm);
    var h := d + 26 * (mm + 1) / 10 + k + k / 4 + 5 * j + j / 4;
    SameWeekday(n + 3, h + 5, 5217 * j + 52 * k + shift);
  }

  lemma MonthShift(mm: nat) returns (weeks: int)
    requires 3 <= mm <= 14
    ensures DaysFromMarch(mm) - 26 * (mm + 1) / 10 - 719471 == 7 * weeks
  {
    weeks := (DaysFromMarch(mm) - 26 * (mm + 1) / 10 - 719471) / 7;
  }

  lemma SameWeekday(x: int, y: int, weeks: int)
    requires x - y == 7 * weeks
    ensures x % 7 == y % 7
  {
  }

  lemma LeapsByCentury(c: nat)
    ensures Leaps(c) == 24 * (c / 100) + (c % 100) / 4 + c / 100 / 4
  {
    var j, k := c / 100, c % 100;
    assert c == 100 * j + k;
    assert c / 4 == 25 * j + k / 4;
    assert c / 400 == j / 4;
  }

  // ---------------------------------------------------------------------------
  // localtime
  // ---------------------------------------------------------------------------

  datatype Tm = Tm(sec: nat, min: nat, hour: nat, mday: nat, mon: nat, year: nat, wday: nat)

  /** The first line of constants picks the century correction. */
  lemma CenturyCorrection(t: nat)
    requires t <= 49710
    ensures var a := (4 * t + 102032) / 146097 + 15;
            a - a / 4 == if t <= 47540 then 12 else 13
  {
  }

  /** The second line splits days into years of 365 days with a leap day every four. */
  lemma FourYearCycle(b: nat)
    requires b >= 1000
    ensures var c := (20 * b - 2442) / 7305;
            var d := b - 365 * c - c / 4;
            123 <= d <= if c % 4 == 3 then 488 else 487
  {
  }

  /** The third line splits the day of the year that starts in March into month and day. */
  lemma MonthAndDay(d: nat)
    requires 123 <= d <= 488
    ensures var e := d * 1000 / 30601;
            var f := d - e * 30 - e * 601 / 1000;
            && 4 <= e <= 15 && 1 <= f
            && DaysFromMarch(e - 1) + f == d - 122
            && (e < 15 ==> d - 122 <= DaysFromMarch(e))
            && (d >= 429 ==> e >= 14)
  {
    var e := d * 1000 / 30601;
    assert 30601 * e <= 1000 * d < 30601 * (e + 1);
  }

  lemma YearRange(t: nat)
    requires t <= 49710
    ensures var b := t + 2442113 + if t <= 47540 then 12 else 13;
            var c := (20 * b - 2442) / 7305;
            if t <= 47540 then 6685 <= c <= 6815 else 6816 <= c <= 6821
  {
  }

  /** The years and days found add up to the day number. */
  lemma DaysAddUp(t: nat, c: nat, d: nat)
    requires t <= 49710
    requires var b := t + 2442113 + if t <= 47540 then 12 else 13;
             c == (20 * b - 2442) / 7305 && d == b - 365 * c - c / 4
    ensures c >= 6685 && t == 365 * (c - 4716) + Leaps(c - 4716) + (d - 122) - 719469
    ensures 123 <= d <= 488 && (d == 488 ==> IsLeap(c - 4715))
    ensures c == 6685 ==> d >= 429
    ensures c <= 6821
  {
    hide Leaps, IsLeap;
    YearRange(t);
    var b := t + 2442113 + if t <= 47540 then 12 else 13;
    FourYearCycle(b);
    LeapsFrom(c, t <= 47540);
  }

  /** The leap days up to the year before, for the two centuries of 32-bit time. */
  lemma LeapsFrom(c: nat, early: bool)
    requires if early then 6685 <= c <= 6815 else 6816 <= c <= 6821
    ensures Leaps(c - 4716) == c / 4 - 1179 - if early then 15 else 16
    ensures c % 4 == 3 && c != 6815 ==> IsLeap(c - 4715)
  {
    var y := c - 4716;
    assert y / 4 == c / 4 - 1179;
    if early {
      assert y / 100 == 19 || y / 100 == 20;
    } else {
      assert y / 100 == 21;
    }
  }

  /** The year that starts in March (plus 4716) and the day in it (plus 122); nothing wraps around. */
  method YearAndDay(t: nat) returns (c: nat, d: nat)
    requires t <= 49710
    ensures 6685 <= c <= 6821 && 123 <= d <= 488
    ensures t == 365 * (c - 4716) + Leaps(c - 4716) + (d - 122) - 719469
    ensures (d == 488 ==> IsLeap(c - 4715)) && (c == 6685 ==> d >= 429)
  {
    hide *;
    CenturyCorrection(t);
    var a := U32(U32(U32(4 * t) + 102032) / 146097 + 15);
    NoWrap(4 * t);
    NoWrap(4 * t + 102032);
    NoWrap((4 * t + 102032) / 146097 + 15);
    var b := U32(t + 2442113 + a - a / 4);
    NoWrap(t + 2442113 + a - a / 4);
    YearRange(t);
    c := U32(U32(20 * b) - 2442) / 7305;
    NoWrap(20 * b);
    NoWrap(20 * b - 2442);
    d := U32(b - U32(365 * c) - c / 4);
    DaysAddUp(t, c, b - 365 * c - c / 4);
    NoWrap(365 * c);
    NoWrap(b - 365 * c - c / 4);
  }

  /** The date of a day, for the days that fit in 32 bits of seconds. */
  method DateOfDay(t: nat) returns (year: nat, mon: nat, mday: nat)
    requires t <= 49710
    ensures ValidDate(year, mon, mday) && DayNumber(year, mon, mday) == t && year <= 2106
  {
    hide *;
    var c, d := YearAndDay(t);
    MonthAndDay(d);
    var e := U32(d * 1000) / 30601;
    NoWrap(d * 1000);
    var f := U32(d - U32(e * 30) - U32(e * 601) / 1000);
    NoWrap(e * 30);
    NoWrap(e * 601);
    NoWrap(d - e * 30 - e * 601 / 1000);
    DateFromMarch(t, c - 4716, e - 1, f, d);
    if e <= 13 {
      NoWrap(c - 4716);
      NoWrap(e - 1);
      c := U32(c - 4716);
      e := U32(e - 1);
    } else {
      NoWrap(c - 4715);
      NoWrap(e - 13);
      c := U32(c - 4715);
      e := U32(e - 13);
    }
    year, mon, mday := c, e, f;
  }

  lemma NoWrap(x: int)
    requires 0 <= x < 0x1_0000_0000
    ensures U32(x) == x
  {
  }

  /** From the year that starts in March back to the calendar year. */
  lemma DateFromMarch(t: nat, marchYear: nat, marchMonth: nat, f: nat, d: nat)
    requires 3 <= marchMonth <= 14 && 1 <= f && d <= 488
    requires marchYear >= 1969 && (marchYear == 1969 ==> marchMonth >= 13)
    requires t == 365 * marchYear + Leaps(marchYear) + (d - 122) - 719469
    requires DaysFromMarch(marchMonth) + f == d - 122
    requires marchMonth < 14 ==> d - 122 <= DaysFromMarch(marchMonth + 1)
    requires d == 488 ==> IsLeap(marchYear + 1)
    ensures var y := if marchMonth <= 12 then marchYear else marchYear + 1;
            var m := if marchMonth <= 12 then marchMonth else marchMonth - 12;
            ValidDate(y, m, f) && DayNumber(y, m, f) == t
  {
    hide Leaps, DayNumber, IsLeap;
    var y := if marchMonth <= 12 then marchYear else marchYear + 1;
    var m := if marchMonth <= 12 then marchMonth else marchMonth - 12;
    DayNumberFromMarch(y, m, f);
  }

  /** A date, a time of day and the weekday of the date. */
  predicate ValidTime(t: Tm) {
    && ValidDate(t.year, t.mon, t.mday)
    && t.hour < 24 && t.min < 60 && t.sec < 60
    && t.wday == (DayNumber(t.year, t.mon, t.mday) + 3) % 7 + 1
  }

  /** Seconds since 1 January 1970. */
  function Seconds(t: Tm): (n: nat)
    requires ValidTime(t)
  {
    ((DayNumber(t.year, t.mon, t.mday) * 24 + t.hour) * 60 + t.min) * 60 + t.sec
  }

  predicate Before(a: Tm, b: Tm) {
    || Earlier(a.year, a.mon, a.mday, b.year, b.mon, b.mday)
    || (a.year == b.year && a.mon == b.mon && a.mday == b.mday &&
        (a.hour < b.hour || (a.hour == b.hour && (a.min < b.min || (a.min == b.min && a.sec < b.sec)))))
  }

  /** localtime is strictly monotone and injective: the fields, the coarsest first, order the seconds. */
  lemma {:induction false} SecondsOrderTimes(a: Tm, b: Tm)
    requires ValidTime(a) && ValidTime(b)
    ensures Before(a, b) <==> Seconds(a) < Seconds(b)
    ensures a == b <==> Seconds(a) == Seconds(b)
  {
    hide ValidDate, DayNumber;
    DayNumberOrdersDates(a.year, a.mon, a.mday, b.year, b.mon, b.mday);
    DayNumberOrdersDates(b.year, b.mon, b.mday, a.year, a.mon, a.mday);
  }

  lemma KnownTime(t: Tm, days: nat)
    requires ValidDate(t.year, t.mon, t.mday) && t.hour < 24 && t.min < 60 && t.sec < 60
    requires t.mon <= 2 && days == 365 * (t.year - 1970) + Leaps(t.year - 1) - 477 + 31 * (t.mon - 1) + t.mday - 1
    requires t.wday == (days + 3) % 7 + 1
    ensures ValidTime(t) && Seconds(t) == days * 86400 + t.hour * 3600 + t.min * 60 + t.sec
  {
    hide Leaps, IsLeap, DaysBeforeYear, DaysBeforeMonth;
    YearsInClosedForm(t.year);
    MonthsInClosedForm(t.year, t.mon);
  }

  /** The first second of all, the last of a signed and the last of an unsigned time. */
  lemma KnownTimes()
    ensures var a, b, c := Tm(0, 0, 0, 1, 1, 1970, 4), Tm(7, 14, 3, 19, 1, 2038, 2), Tm(15, 28, 6, 7, 2, 2106, 7);
            && ValidTime(a) && Seconds(a) == 0
            && ValidTime(b) && Seconds(b) == 0x7FFF_FFFF
            && ValidTime(c) && Seconds(c) == 0xFFFF_FFFF
  {
    hide ValidTime, Seconds;
    KnownTime(Tm(0, 0, 0, 1, 1, 1970, 4), 0);
    KnownTime(Tm(7, 14, 3, 19, 1, 2038, 2), 24855);
    KnownTime(Tm(15, 28, 6, 7, 2, 2106, 7), 49710);
  }

  method LocalTime(time: nat) returns (date: Tm)
    requires time < UINT32
    ensures ValidTime(date) && Seconds(date) == time
  {
    var t := time;
    if t < 1 {
      t := 0;
    }
    var sec := t % 60;
    t := t / 60;
    var min := t % 60;
    t := t / 60;
    var hour := t % 24;
    t := t / 24;
    var year, mon, mday := DateOfDay(t);
    WeekdayIsDayNumber(year, mon, mday);
    var wday := DayOfWeek(year, mon, mday);
    date := Tm(sec, min, hour, mday, mon, year, wday);
  }
}
