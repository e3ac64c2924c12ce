/** Broken-down times. */
module TimeLib {
  import opened Calendar

  const INT_MIN := -0x8000_0000
  const INT_MAX := 0x7FFF_FFFF

  datatype Tm = Tm(sec: int, min: int, hour: int, mday: int, mon: int, year: int, wday: int, yday: int, isdst: int)

  /** The day a time falls on and the second of that day, as C computes them. */
  function Day(t: int): (days: int) { CDiv(t, 86400) - if CMod(t, 86400) < 0 then 1 else 0 }

  function Second(t: int): (secs: int) { CMod(t, 86400) + if CMod(t, 86400) < 0 then 86400 else 0 }

  function BrokenDown(t: int): (tm: Tm) {
    var days, secs := Day(t), Second(t);
    var date := CivilFromDays(days);
    Tm(CMod(secs, 60), CDiv(CMod(secs, 3600), 60), CDiv(secs, 3600), date.d, date.m - 1, ToInt(ToInt(date.y) - 1900),
       CMod(CMod(days + 4, 7) + 7, 7), days - DaysFromCivil(Date(date.y, 1, 1)), 0)
  }

  function MkTime(tm: Tm): (t: int)
    requires 0 <= tm.mon < 12
  {
    DaysFromCivil(Date(ToInt(tm.year + 1900), tm.mon + 1, tm.mday)) * 86400 + tm.hour * 3600 + tm.min * 60 + tm.sec
  }

  /** The one place a broken-down time is kept. */
  class Storage {
    var tm: Tm

    constructor ()
    {
      tm := Tm(0, 0, 0, 0, 0, 0, 0, 0, 0);
    }

    method FillTm(t: int)
      modifies this
      ensures tm == BrokenDown(t)
    {
      hide CivilFromDays, DaysFromCivil, CDiv, CMod, ToInt;
      var days, secs := CDiv(t, 86400), CMod(t, 86400);
      if secs < 0 {
        secs := secs + 86400;
        days := days - 1;
      }
      var date := CivilFromDays(days);
      tm := tm.(year := ToInt(ToInt(date.y) - 1900), mon := date.m - 1, mday := date.d);
      tm := tm.(hour := CDiv(secs, 3600), min := CDiv(CMod(secs, 3600), 60), sec := CMod(secs, 60));
      tm := tm.(wday := CMod(CMod(days + 4, 7) + 7, 7), yday := days - DaysFromCivil(Date(date.y, 1, 1)), isdst := 0);
    }
  }

  // ---- the clock -------------------------------------------------------------------------------

  lemma DayAndSecond(t: int)
    ensures Day(t) == t / 86400 && Second(t) == t % 86400 && t == Day(t) * 86400 + Second(t)
  {
  }

  lemma ClockIs(secs: int)
    requires 0 <= secs < 86400
    ensures 0 <= CMod(secs, 60) < 60 && 0 <= CDiv(CMod(secs, 3600), 60) < 60 && 0 <= CDiv(secs, 3600) < 24
    ensures CDiv(secs, 3600) * 3600 + CDiv(CMod(secs, 3600), 60) * 60 + CMod(secs, 60) == secs
  {
  }

  // ---- the round trip ----------------------------------------------------------------------------

  predicate FitsInt(y: int) { INT_MIN <= y <= INT_MAX }

  lemma ToIntFits(y: int)
    ensures ToInt(y) == y <==> FitsInt(y)
  {
  }

  lemma YearBack(y: int)
    ensures ToInt(ToInt(ToInt(y) - 1900) + 1900) == ToInt(y)
  {
  }

  /** The first day of the year that begins in March of `my`. */
  function MarchDays(my: int): (z: int) { my / 400 * 146097 + YearStart(my % 400) }

  lemma DaysByMarch(date: Date)
    ensures DaysFromCivil(date) == MarchDays(MarchYear(date)) + DayOfYear(date) - 719468
  {
    DaysFromEra(date, MarchYear(date) / 400, MarchYear(date) % 400);
  }

  lemma MarchDaysNext(my: int)
    ensures MarchDays(my) + 365 <= MarchDays(my + 1)
  {
    var q, r := my / 400, my % 400;
    YearLength(q, r);
    if r < 399 {
      assert (my + 1) / 400 == q && (my + 1) % 400 == r + 1;
    } else {
      assert (my + 1) / 400 == q + 1 && (my + 1) % 400 == 0;
    }
  }

  /** Different years have different day numbers for the same month and day. */
  lemma {:induction false} MarchDaysGrow(a: int, b: int)
    requires a < b
    ensures MarchDays(a) < MarchDays(b)
    decreases b - a
  {
    MarchDaysNext(b - 1);
    if a < b - 1 { MarchDaysGrow(a, b - 1); }
  }

  /** A year begins on its first of January. */
  lemma YearBegins(z: int, y: int)
    ensures y <= CivilFromDays(z).y <==> DaysFromCivil(Date(y, 1, 1)) <= z
  {
    hide CivilFromDays, DaysFromCivil, MarchDays;
    var date := CivilFromDays(z);
    CivilValid(z);
    DaysOfCivil(z);
    DaysByMarch(date);
    DaysByMarch(Date(y, 1, 1));
    DayBoundsInYear(date);
    var my := MarchYear(date);
    MarchDaysNext(y - 1);
    MarchDaysNext(y - 2);
    if y < my { MarchDaysGrow(y, my); }
    if my < y - 2 { MarchDaysGrow(my, y - 2); }
  }

  lemma DayBoundsInYear(date: Date)
    requires Valid(date)
    ensures 0 <= DayOfYear(date) <= 365 && (date.m <= 2 <==> DayOfYear(Date(0, 1, 1)) <= DayOfYear(date))
    ensures DayOfYear(Date(0, 1, 1)) == 306 && forall y :: DayOfYear(Date(y, 1, 1)) == 306
  {
    MonthLength(date.y, date.m);
  }

  /** The first second of year INT_MIN, and of year INT_MAX + 1. */
  const TIME_MIN := -67768100567971200
  const TIME_END := 67767976233532800

  lemma FirstYears()
    ensures DaysFromCivil(Date(INT_MIN, 1, 1)) * 86400 == TIME_MIN
    ensures DaysFromCivil(Date(INT_MAX + 1, 1, 1)) * 86400 == TIME_END
  {
    hide DaysFromCivil;
    DaysFromEra(Date(INT_MIN, 1, 1), -5368710, 351);
    DaysFromEra(Date(INT_MAX + 1, 1, 1), 5368709, 47);
  }

  lemma YearFits(t: int)
    ensures FitsInt(CivilFromDays(Day(t)).y) <==> TIME_MIN <= t < TIME_END
  {
    hide CivilFromDays, DaysFromCivil, Day;
    FirstYears();
    DayAndSecond(t);
    YearBegins(Day(t), INT_MIN);
    YearBegins(Day(t), INT_MAX + 1);
  }

  /** A time comes back from its broken-down form exactly when its year fits
      the `int` that holds it. In the first 1900 of these years taking 1900 off
      leaves the range; there it comes back because both sums wrap. */
  lemma MkTimeOfBrokenDown(t: int)
    ensures MkTime(BrokenDown(t)) == t <==> TIME_MIN <= t < TIME_END
  {
    hide CivilFromDays, DaysFromCivil, CDiv, CMod, ToInt, Day, Second, FitsInt;
    var date := CivilFromDays(Day(t));
    YearFits(t);
    MkTimeGives(t);
    ToIntFits(date.y);
    DaysOfCivil(Day(t));
    DayAndSecond(t);
    if ToInt(date.y) != date.y { OtherYear(date, ToInt(date.y)); }
  }

  /** What comes back: the same day and second in the year cut to an `int`. */
  lemma MkTimeGives(t: int)
    ensures var date := CivilFromDays(Day(t));
            MkTime(BrokenDown(t)) == DaysFromCivil(date.(y := ToInt(date.y))) * 86400 + Second(t)
  {
    hide CivilFromDays, DaysFromCivil, CDiv, CMod, ToInt, Day, Second;
    CivilValid(Day(t));
    DayAndSecond(t);
    ClockIs(Second(t));
    YearBack(CivilFromDays(Day(t)).y);
  }

  /** The first second of the year after the last that fits comes back as the
      first second of all. */
  lemma FirstLostSecond()
    ensures MkTime(BrokenDown(TIME_END)) == TIME_MIN
  {
    hide CivilFromDays, DaysFromCivil, Day, Second, BrokenDown, MkTime;
    var date := Date(INT_MAX + 1, 1, 1);
    FirstYears();
    DayAndSecond(TIME_END);
    assert Day(TIME_END) == DaysFromCivil(date) && Second(TIME_END) == 0;
    CivilOfDays(date);
    MkTimeGives(TIME_END);
    assert ToInt(INT_MAX + 1) == INT_MIN;
    assert date.(y := INT_MIN) == Date(INT_MIN, 1, 1);
  }

  lemma OtherYear(date: Date, y: int)
    requires y != date.y
    ensures DaysFromCivil(date.(y := y)) != DaysFromCivil(date)
  {
    DaysByMarch(date);
    DaysByMarch(date.(y := y));
    var a, b := MarchYear(date), MarchYear(date.(y := y));
    if a < b { MarchDaysGrow(a, b); } else { MarchDaysGrow(b, a); }
  }

  // ---- the fields ------------------------------------------------------------------------------

  /** Days of the year before month `m`. */
  function Before(y: int, m: int): (n: int)
    requires 1 <= m <= 12
    decreases m
  {
    if m == 1 then 0 else Before(y, m - 1) + DaysIn(y, m - 1)
  }

  lemma {:induction false} MonthNumber(y: int, m: int)
    requires 1 <= m <= 12
    ensures DaysFromCivil(Date(y, m, 1)) == DaysFromCivil(Date(y, 1, 1)) + Before(y, m)
    decreases m
  {
    hide DaysFromCivil;
    if m > 1 {
      MonthNumber(y, m - 1);
      NextNumber(Date(y, m - 1, DaysIn(y, m - 1)));
      DayInMonth(Date(y, m - 1, DaysIn(y, m - 1)));
    }
  }

  lemma DayInMonth(date: Date)
    ensures DaysFromCivil(date) == DaysFromCivil(date.(d := 1)) + date.d - 1
  {
    DaysByMarch(date);
    DaysByMarch(date.(d := 1));
  }

  lemma BeforeBound(y: int, m: int)
    requires 1 <= m <= 12
    ensures 0 <= Before(y, m) <= 31 * (m - 1)
    ensures Before(y, m) + DaysIn(y, m) <= if Leap(y) then 366 else 365
  {
  }

  /** The fields are in range and say what they should: a valid date, the
      ordinal day, the weekday counted from a Thursday, and the time of day. */
  ghost predicate Says(tm: Tm, t: int) {
    var date, days := Date(tm.year + 1900, tm.mon + 1, tm.mday), t / 86400;
    && Valid(date) && DaysFromCivil(date) == days
    && tm.yday == Before(date.y, date.m) + tm.mday - 1
    && 0 <= tm.yday < (if Leap(date.y) then 366 else 365) && tm.wday == (days + 4) % 7
    && 0 <= tm.sec < 60 && 0 <= tm.min < 60 && 0 <= tm.hour < 24 && tm.isdst == 0
    && t == days * 86400 + tm.hour * 3600 + tm.min * 60 + tm.sec
  }

  lemma YearWraps(y: int)
    ensures ToInt(ToInt(y) - 1900) == y - 1900 <==> FitsInt(y - 1900)
  {
  }

  /** They do exactly if the year less 1900 fits. */
  lemma FieldsAre(t: int)
    ensures Says(BrokenDown(t), t) <==> FitsInt(CivilFromDays(Day(t)).y - 1900)
  {
    hide CivilFromDays, DaysFromCivil, ToInt, Day, Says;
    var date, tm := CivilFromDays(Day(t)), BrokenDown(t);
    YearWraps(date.y);
    if tm.year == date.y - 1900 { FieldsSay(t); } else { FieldsFail(t); }
  }

  lemma FieldsFail(t: int)
    requires BrokenDown(t).year + 1900 != CivilFromDays(Day(t)).y
    ensures !Says(BrokenDown(t), t)
  {
    hide CivilFromDays, DaysFromCivil, ToInt, Day, Second, CDiv, CMod, Valid;
    var date, tm := CivilFromDays(Day(t)), BrokenDown(t);
    DaysOfCivil(Day(t));
    DayAndSecond(t);
    OtherYear(date, tm.year + 1900);
    assert date.(y := tm.year + 1900) == Date(tm.year + 1900, tm.mon + 1, tm.mday);
  }

  lemma FieldsSay(t: int)
    requires BrokenDown(t).year + 1900 == CivilFromDays(Day(t)).y
    ensures Says(BrokenDown(t), t)
  {
    hide CivilFromDays, DaysFromCivil, CDiv, CMod, ToInt, Day, Second;
    var date := CivilFromDays(Day(t));
    CivilValid(Day(t));
    DaysOfCivil(Day(t));
    DayAndSecond(t);
    ClockIs(Second(t));
    MonthNumber(date.y, date.m);
    BeforeBound(date.y, date.m);
    DayInMonth(date);
    Weekday(Day(t));
  }

  lemma Weekday(days: int)
    ensures CMod(CMod(days + 4, 7) + 7, 7) == (days + 4) % 7
  {
  }
}
