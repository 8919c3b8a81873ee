/** The two `cal_next_second` overloads over the Gregorian calendar in a time zone with a
    fixed offset (`off` seconds east of UTC, no daylight saving). */
module NextSecond {
  import opened Bits

  const HOUR_SEC := 3600
  const DAY_SEC := 86400

  type Int32 = x: int | -0x8000_0000 <= x < 0x8000_0000

  // The calendar

  function LeapsThrough(y: int): int { y / 4 - y / 100 + y / 400 }

  predicate IsLeap(y: int) { y % 4 == 0 && (y % 100 != 0 || y % 400 == 0) }

  // Days from 1 January 1970 to 1 January of year y
  function YearStart(y: int): int {
    365 * (y - 1970) + LeapsThrough(y - 1) - LeapsThrough(1969)
  }

  function DaysInMonth(y: int, mon: nat): (d: int)
    ensures 28 <= d <= 31
  {
    if mon == 1 then if IsLeap(y) then 29 else 28
    else if mon == 3 || mon == 5 || mon == 8 || mon == 10 then 30 else 31
  }

  // Days from 1 January to the first of month mon (0 to 11)
  function MonthStart(y: int, mon: nat): int {
    if mon == 0 then 0 else MonthStart(y, mon - 1) + DaysInMonth(y, mon - 1)
  }

  // struct tm, with the full year
  datatype Tm = Tm(year: int, mon: nat, mday: int, hour: int, min: int, sec: int, wday: int)

  // The day a struct tm denotes; mktime accepts a tm_mday beyond the end of the month.
  function DayOf(t: Tm): int {
    YearStart(t.year) + MonthStart(t.year, t.mon) + t.mday - 1
  }

  function Mktime(t: Tm, off: int): int {
    DayOf(t) * DAY_SEC + t.hour * HOUR_SEC + t.min * 60 + t.sec - off
  }

  lemma YearLength(y: int)
    ensures YearStart(y + 1) == YearStart(y) + (if IsLeap(y) then 366 else 365)
  {
    QuotientStep(y, 4);
    QuotientStep(y, 100);
    QuotientStep(y, 400);
  }

  lemma QuotientStep(y: int, d: int)
    requires d == 4 || d == 100 || d == 400
    ensures y / d - (y - 1) / d == if y % d == 0 then 1 else 0
  {
  }

  lemma YearIsItsMonths(y: int)
    ensures MonthStart(y, 12) == if IsLeap(y) then 366 else 365
  {
    assert MonthStart(y, 1) == MonthStart(y, 0) + DaysInMonth(y, 0) == 31;
    assert MonthStart(y, 2) == 31 + DaysInMonth(y, 1);
    assert MonthStart(y, 4) == MonthStart(y, 2) + 61;
    assert MonthStart(y, 6) == MonthStart(y, 4) + 61;
    assert MonthStart(y, 8) == MonthStart(y, 6) + 62;
    assert MonthStart(y, 10) == MonthStart(y, 8) + 61;
    assert MonthStart(y, 12) == MonthStart(y, 10) + 61;
  }

  // The year that contains `day`, searched from year y on
  function YearFrom(day: int, y: int): (r: int)
    requires YearStart(y) <= day
    ensures YearStart(r) <= day < YearStart(r + 1)
    decreases day - YearStart(y)
  {
    YearLength(y);
    if day < YearStart(y + 1) then y else YearFrom(day, y + 1)
  }

  function YearBefore(day: int, y: int): (r: int)
    requires day < YearStart(y)
    ensures YearStart(r) <= day < YearStart(r + 1)
    decreases YearStart(y) - day
  {
    YearLength(y - 1);
    if YearStart(y - 1) <= day then y - 1 else YearBefore(day, y - 1)
  }

  // The month that contains day `yday` of year y, searched from month mon on
  function MonthFrom(y: int, yday: int, mon: nat): (r: nat)
    requires mon < 12 && MonthStart(y, mon) <= yday < MonthStart(y, 12)
    ensures r < 12 && MonthStart(y, r) <= yday < MonthStart(y, r + 1)
    decreases 12 - mon
  {
    if mon == 11 || yday < MonthStart(y, mon + 1) then mon else MonthFrom(y, yday, mon + 1)
  }

  function Localtime(second: int, off: int): Tm {
    var day, rest := (second + off) / DAY_SEC, (second + off) % DAY_SEC;
    var year := if day >= 0 then YearFrom(day, 1970) else YearBefore(day, 1970);
    YearLength(year);
    YearIsItsMonths(year);
    var yday := day - YearStart(year);
    var mon := MonthFrom(year, yday, 0);
    Tm(year, mon, yday - MonthStart(year, mon) + 1, rest / HOUR_SEC, rest % HOUR_SEC / 60, rest % 60, (4 + day) % 7)
  }

  // Fixed points of the calendar: the epoch was a Thursday; 2000 was a leap year, 1900 and
  // 2100 are not.
  lemma KnownDates()
    ensures Localtime(0, 0) == Tm(1970, 0, 1, 0, 0, 0, 4)
    ensures YearStart(2000) == 10957 && YearStart(2001) == 11323
    ensures YearStart(2101) - YearStart(2100) == YearStart(1901) - YearStart(1900) == 365
    ensures MonthStart(2000, 2) == 60 && MonthStart(2001, 2) == 59
    ensures Mktime(Tm(2000, 1, 29, 13, 30, 15, 2), 0) == 951831015
  {
    YearLength(1970);
    assert MonthStart(1970, 1) == 31;
    assert MonthStart(2000, 1) == 31 && MonthStart(2001, 1) == 31;
  }

  /** localtime yields a real calendar date, and mktime inverts it. */
  lemma LocaltimeRoundTrip(second: int, off: int)
    ensures var t := Localtime(second, off);
            && Mktime(t, off) == second
            && t.mon < 12 && 1 <= t.mday <= DaysInMonth(t.year, t.mon)
            && 0 <= t.hour < 24 && 0 <= t.min < 60 && 0 <= t.sec < 60
            && DayOf(t) == (second + off) / DAY_SEC && t.wday == (4 + DayOf(t)) % 7
  {
    var rest := (second + off) % DAY_SEC;
    ClockFields(rest);
  }

  lemma ClockFields(rest: int)
    requires 0 <= rest < DAY_SEC
    ensures rest / HOUR_SEC * HOUR_SEC + rest % HOUR_SEC / 60 * 60 + rest % 60 == rest
    ensures 0 <= rest / HOUR_SEC < 24 && 0 <= rest % HOUR_SEC / 60 < 60
  {
  }

  // What the caller asks for

  function TimeOfDay(hour: int, min: int, sec: int): int { hour * HOUR_SEC + min * 60 + sec }

  predicate ValidTime(hour: int, min: int, sec: int) {
    0 <= hour < 24 && 0 <= min < 60 && 0 <= sec < 60
  }

  // x falls on the given time of day.
  predicate AtTime(x: int, off: int, tod: int) { (x + off) % DAY_SEC == tod }

  predicate OnWeekday(x: int, off: int, wday: int) { (4 + (x + off) / DAY_SEC) % 7 == wday }

  ghost predicate NextAtTime(second: int, off: int, tod: int, r: int) {
    && r >= second && AtTime(r, off, tod)
    && forall x :: second <= x < r ==> !AtTime(x, off, tod)
  }

  ghost predicate NextOnWeekday(second: int, off: int, wday: int, tod: int, r: int) {
    && r >= second && AtTime(r, off, tod) && OnWeekday(r, off, wday)
    && forall x :: second <= x < r ==> !(AtTime(x, off, tod) && OnWeekday(x, off, wday))
  }

  // The second at time of day tod on the given day
  function At(day: int, tod: int, off: int): int { day * DAY_SEC + tod - off }

  // A second determines its day and its time of day.
  lemma DayAndTime(x: int, off: int, day: int, tod: int)
    requires 0 <= tod < DAY_SEC && x == At(day, tod, off)
    ensures (x + off) / DAY_SEC == day && (x + off) % DAY_SEC == tod
  {
    var d := (x + off) / DAY_SEC;
    assert x + off == d * DAY_SEC + (x + off) % DAY_SEC;
    assert day * DAY_SEC <= d * DAY_SEC + (DAY_SEC - 1) && d * DAY_SEC <= day * DAY_SEC + (DAY_SEC - 1);
  }

  lemma AtItsTime(x: int, off: int, tod: int)
    requires AtTime(x, off, tod)
    ensures x == At((x + off) / DAY_SEC, tod, off) && 0 <= tod < DAY_SEC
  {
  }

  // Times of day that a clock cannot show are shifted by whole days, as mktime does.
  lemma Normalised(day: int, tod: int, off: int)
    ensures At(day, tod, off) == At(day + tod / DAY_SEC, tod % DAY_SEC, off) && 0 <= tod % DAY_SEC < DAY_SEC
  {
    assert tod == tod / DAY_SEC * DAY_SEC + tod % DAY_SEC;
  }

  // Between second and At(day, tod) lies no earlier time of day tod exactly when it is less than a day away.
  lemma NextIffWithinDay(second: int, off: int, day: int, tod: int)
    requires 0 <= tod < DAY_SEC
    ensures var r := At(day, tod, off); NextAtTime(second, off, tod, r) <==> second <= r < second + DAY_SEC
  {
    var r := At(day, tod, off);
    DayAndTime(r, off, day, tod);
    if r >= second + DAY_SEC {
      DayAndTime(r - DAY_SEC, off, day - 1, tod);
      assert AtTime(r - DAY_SEC, off, tod);
    } else if second <= r {
      forall x | second <= x < r ensures !AtTime(x, off, tod) {
        if AtTime(x, off, tod) {
          AtItsTime(x, off, tod);
          WholeDaysApart(x, (x + off) / DAY_SEC, r, day, tod, off);
        }
      }
    }
  }

  lemma WholeDaysApart(x: int, d: int, r: int, day: int, tod: int, off: int)
    requires x == At(d, tod, off) && r == At(day, tod, off) && x < r
    ensures d < day && r - x == (day - d) * DAY_SEC >= DAY_SEC
  {
  }

  // The same for a weekday and a week
  lemma NextIffWithinWeek(second: int, off: int, day: int, tod: int)
    requires 0 <= tod < DAY_SEC
    ensures var r := At(day, tod, off);
            NextOnWeekday(second, off, (4 + day) % 7, tod, r) <==> second <= r < second + 7 * DAY_SEC
  {
    var r := At(day, tod, off);
    DayAndTime(r, off, day, tod);
    if r >= second + 7 * DAY_SEC {
      DayAndTime(r - 7 * DAY_SEC, off, day - 7, tod);
      SameWeekday(day - 7, day);
      assert AtTime(r - 7 * DAY_SEC, off, tod) && OnWeekday(r - 7 * DAY_SEC, off, (4 + day) % 7);
    } else if second <= r {
      forall x | second <= x < r && AtTime(x, off, tod) ensures !OnWeekday(x, off, (4 + day) % 7) {
        var d := (x + off) / DAY_SEC;
        AtItsTime(x, off, tod);
        WholeDaysApart(x, d, r, day, tod, off);
        SameWeekday(d, day);
      }
    }
  }

  // Days share a weekday exactly when whole weeks apart.
  lemma SameWeekday(d: int, day: int)
    requires d < day <= d + 7
    ensures (4 + d) % 7 == (4 + day) % 7 <==> day == d + 7
  {
  }

  // The fields of localtime, as a day and a time of day
  lemma FieldsAre(second: int, off: int)
    ensures var t := Localtime(second, off);
            && DayOf(t) == (second + off) / DAY_SEC && t.wday == (4 + DayOf(t)) % 7
            && TimeOfDay(t.hour, t.min, t.sec) == (second + off) % DAY_SEC
  {
    LocaltimeRoundTrip(second, off);
    ClockFields((second + off) % DAY_SEC);
  }

  /** cal_next_second(second, hour, min, sec): for a valid time of day, the least time not
      before `second` that has it; for other arguments the least time with the time of day
      they amount to, exactly when they lie less than a day from that of `second`. */
  method CalNextSecond(second: int, off: int, nextHour: Int32, nextMin: Int32, nextSec: Int32) returns (r: int)
    ensures var tod := TimeOfDay(nextHour, nextMin, nextSec);
            && (ValidTime(nextHour, nextMin, nextSec) ==> NextAtTime(second, off, tod, r))
            && (NextAtTime(second, off, tod % DAY_SEC, r) <==>
                  -DAY_SEC <= tod - (second + off) % DAY_SEC < DAY_SEC)
  {
    var t := Localtime(second, off);
    ghost var day, tod := DayOf(t), TimeOfDay(nextHour, nextMin, nextSec);
    FieldsAre(second, off);
    t := t.(hour := nextHour);
    t := t.(min := nextMin);
    t := t.(sec := nextSec);
    var genT := Mktime(t, off);
    r := if genT < second then genT + DAY_SEC else genT;
    NextTimeIs(second, off, tod, day);
  }

  lemma NextTimeIs(second: int, off: int, tod: int, day: int)
    requires day == (second + off) / DAY_SEC
    ensures var g := At(day, tod, off); var r := if g < second then g + DAY_SEC else g;
            && (0 <= tod < DAY_SEC ==> NextAtTime(second, off, tod, r))
            && (NextAtTime(second, off, tod % DAY_SEC, r) <==>
                  -DAY_SEC <= tod - (second + off) % DAY_SEC < DAY_SEC)
  {
    var now := (second + off) % DAY_SEC;
    assert second == At(day, now, off);
    var g := At(day, tod, off);
    var d := if g < second then day + 1 else day;
    Normalised(d, tod, off);
    NextIffWithinDay(second, off, d + tod / DAY_SEC, tod % DAY_SEC);
    if 0 <= tod < DAY_SEC {
      DayAndTime(g, off, day, tod);
      assert tod % DAY_SEC == tod;
    }
  }

  // How many days ahead the wanted weekday is, counting today only while it is not too late
  function DaysAhead(second: int, off: int, wday: int, tod: int): int {
    var today := (4 + (second + off) / DAY_SEC) % 7;
    if today == wday then if tod < (second + off) % DAY_SEC then 7 else 0
    else if today < wday then wday - today else 7 - (today - wday)
  }

  lemma AheadIsWanted(second: int, off: int, wday: int, tod: int, day: int)
    requires day == (second + off) / DAY_SEC
    ensures (4 + day + DaysAhead(second, off, wday, tod)) % 7 == wday % 7
  {
  }

  lemma WeekdayAfter(day: int, wday: int, more: int)
    requires (4 + day) % 7 == wday % 7
    ensures (4 + day + more) % 7 == (wday + more) % 7
  {
  }

  lemma NextDayIs(second: int, off: int, wday: int, tod: int, day: int)
    requires day == (second + off) / DAY_SEC
    ensures var ahead := DaysAhead(second, off, wday, tod); var r := At(day + ahead, tod, off);
            && (0 <= wday < 7 && 0 <= tod < DAY_SEC ==> NextOnWeekday(second, off, wday, tod, r))
            && (NextOnWeekday(second, off, (wday + tod / DAY_SEC) % 7, tod % DAY_SEC, r) <==>
                  0 <= ahead * DAY_SEC + tod - (second + off) % DAY_SEC < 7 * DAY_SEC)
  {
    var ahead, now := DaysAhead(second, off, wday, tod), (second + off) % DAY_SEC;
    assert second == At(day, now, off);
    assert At(day + ahead, tod, off) == second + ahead * DAY_SEC + tod - now;
    AheadIsWanted(second, off, wday, tod, day);
    WeekdayAfter(day + ahead, wday, tod / DAY_SEC);
    Normalised(day + ahead, tod, off);
    NextIffWithinWeek(second, off, day + ahead + tod / DAY_SEC, tod % DAY_SEC);
    if 0 <= wday < 7 && 0 <= tod < DAY_SEC {
      assert tod % DAY_SEC == tod && tod / DAY_SEC == 0 && wday % 7 == wday;
      assert 0 <= ahead <= 7 && (ahead == 0 ==> tod >= now) && (ahead == 7 ==> tod < now);
    }
  }

  // The sum of hours, minutes and seconds is computed in 32 unsigned bits.

  /** What the overload returns: on the wanted weekday, while the wrapped sum is not past,
      today; otherwise the wanted day as mktime sees the fields. */
  function Chosen(second: int, off: int, wday: int, tod: int): int {
    var day, now := (second + off) / DAY_SEC, (second + off) % DAY_SEC;
    if (4 + day) % 7 != wday then At(day + DaysAhead(second, off, wday, tod), tod, off)
    else if tod % TWO32 >= now then At(day, tod % TWO32, off)
    else At(day + 7, tod, off)
  }

  // Sums that wrap on the wanted weekday
  predicate Wraps(second: int, off: int, wday: int, tod: int) {
    (4 + (second + off) / DAY_SEC) % 7 == wday && !(0 <= tod < TWO32)
  }

  // No sum of 32-bit fields wraps by whole weeks.
  lemma WrapIsNoWeek(k: int, weeks: int)
    requires k * TWO32 == weeks * (7 * DAY_SEC) && -4725 < k < 4725
    ensures k == 0
  {
    assert k * 33554432 == weeks * 4725;
    assert k == 4725 * (2993 * weeks - 21254691 * k);
  }

  lemma FieldsFit(hour: Int32, min: Int32, sec: Int32)
    ensures -4725 < TimeOfDay(hour, min, sec) / TWO32 < 4725
  {
  }

  // Times of the same weekday and time of day are whole weeks apart.
  lemma WholeWeeks(tod: int, w: int, wday: int) returns (weeks: int)
    requires tod % DAY_SEC == w % DAY_SEC && (wday + tod / DAY_SEC) % 7 == (wday + w / DAY_SEC) % 7
    ensures tod - w == weeks * (7 * DAY_SEC)
  {
    var days := tod / DAY_SEC - w / DAY_SEC;
    assert tod - w == days * DAY_SEC;
    assert days % 7 == 0;
    weeks := days / 7;
  }

  // Today at the wrapped sum is never the time asked for.
  lemma WrappedToday(second: int, off: int, wday: int, hour: Int32, min: Int32, sec: Int32)
    requires var tod := TimeOfDay(hour, min, sec);
             Wraps(second, off, wday, tod) && tod % TWO32 >= (second + off) % DAY_SEC
    ensures var tod := TimeOfDay(hour, min, sec); var day := (second + off) / DAY_SEC;
            !NextOnWeekday(second, off, (wday + tod / DAY_SEC) % 7, tod % DAY_SEC, At(day, tod % TWO32, off))
  {
    var tod, day := TimeOfDay(hour, min, sec), (second + off) / DAY_SEC;
    var w, k := tod % TWO32, tod / TWO32;
    var r := At(day, w, off);
    FieldsFit(hour, min, sec);
    assert tod == k * TWO32 + w;
    if NextOnWeekday(second, off, (wday + tod / DAY_SEC) % 7, tod % DAY_SEC, r) {
      Normalised(day, w, off);
      DayAndTime(r, off, day + w / DAY_SEC, w % DAY_SEC);
      WeekdayAfter(day, wday, w / DAY_SEC);
      var weeks := WholeWeeks(tod, w, wday);
      WrapIsNoWeek(k, weeks);
    }
  }

  // Nor is a week from today, when the wrapped sum is past.
  lemma WrappedNextWeek(second: int, off: int, wday: int, tod: int)
    requires Wraps(second, off, wday, tod) && tod % TWO32 < (second + off) % DAY_SEC
    ensures var day := (second + off) / DAY_SEC;
            !NextOnWeekday(second, off, (wday + tod / DAY_SEC) % 7, tod % DAY_SEC, At(day + 7, tod, off))
  {
    var day, now := (second + off) / DAY_SEC, (second + off) % DAY_SEC;
    var r := At(day + 7, tod, off);
    assert second == At(day, now, off) && r == second + 7 * DAY_SEC + tod - now;
    WeekdayAfter(day, wday, 7 + tod / DAY_SEC);
    Normalised(day + 7, tod, off);
    NextIffWithinWeek(second, off, day + 7 + tod / DAY_SEC, tod % DAY_SEC);
    assert (wday + (7 + tod / DAY_SEC)) % 7 == (wday + tod / DAY_SEC) % 7;
    assert tod < 0 ==> tod < -7 * DAY_SEC;
  }

  lemma ChosenIs(second: int, off: int, wday: int, hour: Int32, min: Int32, sec: Int32)
    ensures var tod := TimeOfDay(hour, min, sec); var r := Chosen(second, off, wday, tod);
            && (0 <= wday < 7 && ValidTime(hour, min, sec) ==> NextOnWeekday(second, off, wday, tod, r))
            && (NextOnWeekday(second, off, (wday + tod / DAY_SEC) % 7, tod % DAY_SEC, r) <==>
                  && !Wraps(second, off, wday, tod)
                  && 0 <= DaysAhead(second, off, wday, tod) * DAY_SEC + tod - (second + off) % DAY_SEC < 7 * DAY_SEC)
  {
    var tod, day := TimeOfDay(hour, min, sec), (second + off) / DAY_SEC;
    if !Wraps(second, off, wday, tod) {
      NextDayIs(second, off, wday, tod, day);
    } else if tod % TWO32 >= (second + off) % DAY_SEC {
      WrappedToday(second, off, wday, hour, min, sec);
    } else {
      WrappedNextWeek(second, off, wday, tod);
    }
  }

  /** Minute -1 of Thursday, asked for at the start of Thursday 1 January 1970: the sum wraps
      and the result lies 136 years ahead, not on the next Wednesday at 23:59. */
  lemma MinusOneMinute()
    ensures Chosen(0, 0, 4, TimeOfDay(0, -1, 0)) == 4294967236
    ensures var tod := TimeOfDay(0, -1, 0); var wday := (4 + tod / DAY_SEC) % 7;
            && NextOnWeekday(0, 0, wday, tod % DAY_SEC, 604740)
            && !NextOnWeekday(0, 0, wday, tod % DAY_SEC, 4294967236)
  {
    NextIffWithinWeek(0, 0, 6, 86340);
    assert AtTime(604740, 0, 86340) && OnWeekday(604740, 0, 3);
  }

  /** cal_next_second(second, wday, hour, min, sec): for a valid weekday and time of day, the
      least time not before `second` that has both; for other arguments the least time with
      those they amount to, exactly when it lies within the week from `second` and the sum of
      the fields does not wrap on the wanted weekday. */
  method CalNextSecondOnDay(second: int, off: int, wday: Int32, hour: Int32, min: Int32, sec: Int32) returns (r: int)
    ensures var tod := TimeOfDay(hour, min, sec); var ahead := DaysAhead(second, off, wday, tod);
            && r == Chosen(second, off, wday, tod)
            && (0 <= wday < 7 && ValidTime(hour, min, sec) ==> NextOnWeekday(second, off, wday, tod, r))
            && (NextOnWeekday(second, off, (wday + tod / DAY_SEC) % 7, tod % DAY_SEC, r) <==>
                  && !Wraps(second, off, wday, tod)
                  && 0 <= ahead * DAY_SEC + tod - (second + off) % DAY_SEC < 7 * DAY_SEC)
  {
    var t := Localtime(second, off);
    ghost var day, tod := DayOf(t), TimeOfDay(hour, min, sec);
    FieldsAre(second, off);
    ChosenIs(second, off, wday, hour, min, sec);
    if t.wday == wday {
      var nextS := (hour * HOUR_SEC + min * 60 + sec) % TWO32;
      var s := t.hour * HOUR_SEC + t.min * 60 + t.sec;
      assert second == At(day, s, off) && tod % TWO32 == nextS;
      if s == nextS {
        return second;
      }
      if nextS > s {
        return second + (nextS - s);
      }
      if nextS < s {
        t := t.(mday := t.mday + (7 - (t.wday - wday)));
      }
    } else if t.wday < wday {
      t := t.(mday := t.mday + (wday - t.wday));
    } else {
      t := t.(mday := t.mday + (7 - (t.wday - wday)));
    }
    t := t.(hour := hour);
    t := t.(min := min);
    t := t.(sec := sec);
    r := Mktime(t, off);
  }
}
