/** Civil-time arithmetic: day numbers, dates, and broken-down times. */
module Calendar {

  // ---- C arithmetic --------------------------------------------------------------------------

  /** Division rounds toward zero. */
  function CDiv(a: int, b: int): (r: int)
    requires b > 0
  {
    if a >= 0 then a / b else -((-a) / b)
  }

  function CMod(a: int, b: int): (r: int)
    requires b > 0
  {
    a - CDiv(a, b) * b
  }

  /** Conversion to a 32-bit `int`. */
  function ToInt(a: int): (r: int) { (a + 0x8000_0000) % 0x1_0000_0000 - 0x8000_0000 }

  // ---- the two conversions -------------------------------------------------------------------

  datatype Date = Date(y: int, m: int, d: int)

  /** Months counted from March, so that the leap day ends the year. */
  function Shifted(m: int): (mp: int) { m + if m > 2 then -3 else 9 }

  function Unshifted(mp: int): (m: int) { mp + if mp < 10 then 3 else -9 }

  /** The day of the year on which a month begins, and the month of a day. */
  function MonthStart(mp: int): (doy: int) { (153 * mp + 2) / 5 }

  function MonthOf(doy: int): (mp: int) { (5 * doy + 2) / 153 }

  /** The day of the era on which a year begins, and the year of a day. */
  function YearStart(yoe: int): (doe: int) { 365 * yoe + yoe / 4 - yoe / 100 }

  function YearOfEra(doe: int): (yoe: int) { (doe - doe / 1460 + doe / 36524 - doe / 146096) / 365 }

  function DaysFromCivil(date: Date): (z: int) {
    var y := date.y - if date.m <= 2 then 1 else 0;
    var era := CDiv(if y >= 0 then y else y - 399, 400);
    var yoe := y - era * 400;
    var doy := MonthStart(Shifted(date.m)) + date.d - 1;
    era * 146097 + (YearStart(yoe) + doy) - 719468
  }

  /** The 400-year era of a day counted from March of the year 0, and the day
      in it. */
  function Era(z: int): (era: int) { CDiv(if z >= 0 then z else z - 146096, 146097) }

  function DayOfEra(z: int): (doe: int) { z - Era(z) * 146097 }

  function CivilFromDays(days: int): (date: Date) {
    var z := days + 719468;
    DateInEra(Era(z), DayOfEra(z))
  }

  function DateInEra(era: int, doe: int): (date: Date) {
    var yoe := YearOfEra(doe);
    var doy := doe - YearStart(yoe);
    DateOf(yoe + era * 400, doy)
  }

  /** The date of day `doy` of the year that begins in March of `y`. */
  function DateOf(y: int, doy: int): (date: Date) {
    var mp := MonthOf(doy);
    var m := Unshifted(mp);
    Date(y + (if m <= 2 then 1 else 0), m, doy - MonthStart(mp) + 1)
  }

  // ---- the Gregorian calendar ----------------------------------------------------------------

  predicate Leap(y: int) { y % 4 == 0 && (y % 100 != 0 || y % 400 == 0) }

  function DaysIn(y: int, m: int): (n: int) {
    if m == 2 then (if Leap(y) then 29 else 28) else if m == 4 || m == 6 || m == 9 || m == 11 then 30 else 31
  }

  predicate Valid(date: Date) { 1 <= date.m <= 12 && 1 <= date.d <= DaysIn(date.y, date.m) }

  function NextDate(date: Date): (r: Date) {
    if date.d < DaysIn(date.y, date.m) then date.(d := date.d + 1)
    else if date.m < 12 then Date(date.y, date.m + 1, 1)
    else Date(date.y + 1, 1, 1)
  }

  // ---- eras, years and days ------------------------------------------------------------------

  /** The era an integer falls in, in the way C computes it, is the floor. */
  lemma EraIsFloor(y: int)
    ensures CDiv(if y >= 0 then y else y - 399, 400) == y / 400
  {
  }

  lemma CycleIsFloor(z: int)
    ensures Era(z) == z / 146097 && 0 <= DayOfEra(z) < 146097
  {
  }

  /** A day of the era as century, four-year cycle, year and day of a year that
      begins in March; the last year of a cycle may have one day more. */
  datatype Place = Place(b: int, c: int, e: int, k: int)

  predicate InEra(p: Place) {
    && 0 <= p.b <= 3 && 0 <= p.c <= 24 && 0 <= p.e <= 3
    && 0 <= p.k <= if p.e == 3 && (p.c < 24 || p.b == 3) then 365 else 364
  }

  function Day(p: Place): (doe: int) { 36524 * p.b + 1461 * p.c + 365 * p.e + p.k }

  function Year(p: Place): (yoe: int) { 100 * p.b + 4 * p.c + p.e }

  function PlaceOf(doe: int): (p: Place) {
    var b := if doe / 36524 > 3 then 3 else doe / 36524;
    var r := doe - 36524 * b;
    var c := r / 1461;
    var s := r - 1461 * c;
    var e := if s / 365 > 3 then 3 else s / 365;
    Place(b, c, e, s - 365 * e)
  }

  lemma PlaceOfDay(doe: int)
    requires 0 <= doe < 146097
    ensures InEra(PlaceOf(doe)) && Day(PlaceOf(doe)) == doe
  {
  }

  lemma DayBounds(p: Place)
    requires InEra(p)
    ensures 0 <= Day(p) < 146097 && 0 <= Year(p) < 400
    ensures Year(p) / 4 == 25 * p.b + p.c && Year(p) / 100 == p.b
    ensures YearStart(Year(p)) + p.k == Day(p)
  {
  }

  /** The formula for the year of the era, with its four divisions. */
  lemma YearIs(p: Place)
    requires InEra(p)
    ensures YearOfEra(Day(p)) == Year(p)
  {
    DayBounds(p);
    CenturyIs(p);
    CycleIs(p);
    YearFromParts(p, 24 * p.b + p.c + 365 * p.e + p.k);
  }

  lemma CenturyIs(p: Place)
    requires InEra(p)
    ensures Day(p) / 36524 - Day(p) / 146096 == p.b
  {
  }

  lemma CycleIs(p: Place)
    requires InEra(p)
    ensures var rest := 24 * p.b + p.c + 365 * p.e + p.k;
            0 <= rest && Day(p) == 1460 * (25 * p.b + p.c) + rest && Day(p) / 1460 == 25 * p.b + p.c + rest / 1460
  {
  }

  lemma YearFromParts(p: Place, rest: int)
    requires InEra(p) && rest == 24 * p.b + p.c + 365 * p.e + p.k
    requires Day(p) / 36524 - Day(p) / 146096 == p.b && Day(p) / 1460 == 25 * p.b + p.c + rest / 1460
    ensures YearOfEra(Day(p)) == Year(p)
  {
  }

  // ---- months --------------------------------------------------------------------------------

  /** The month of a day, and that the day lies within it. */
  lemma MonthFits(doy: int)
    requires 0 <= doy <= 365
    ensures 0 <= MonthOf(doy) <= 11 && MonthStart(MonthOf(doy)) <= doy
    ensures MonthOf(doy) < 11 ==> doy < MonthStart(MonthOf(doy) + 1)
  {
  }

  lemma MonthIs(mp: int, d: int)
    requires 0 <= mp <= 11 && 1 <= d && MonthStart(mp) + d - 1 <= 365
             && (mp < 11 ==> MonthStart(mp) + d - 1 < MonthStart(mp + 1))
    ensures MonthOf(MonthStart(mp) + d - 1) == mp
  {
  }

  /** The lengths the formula gives are those of the calendar. */
  lemma MonthLength(y: int, m: int)
    requires 1 <= m <= 12
    ensures 0 <= Shifted(m) <= 11 && Unshifted(Shifted(m)) == m
    ensures m != 2 ==> Shifted(m) < 11 && MonthStart(Shifted(m) + 1) - MonthStart(Shifted(m)) == DaysIn(y, m)
    ensures m == 2 ==> Shifted(m) == 11 && MonthStart(11) == 337
  {
  }

  lemma ShiftBack(mp: int)
    requires 0 <= mp <= 11
    ensures 1 <= Unshifted(mp) <= 12 && Shifted(Unshifted(mp)) == mp
  {
  }

  // ---- dates by their place --------------------------------------------------------------------

  /** The day number of a place in an era. */
  function Number(era: int, p: Place): (z: int) { era * 146097 + Day(p) - 719468 }

  lemma EraIs(era: int, doe: int)
    requires 0 <= doe < 146097
    ensures Era(era * 146097 + doe) == era && DayOfEra(era * 146097 + doe) == doe
  {
    CycleIsFloor(era * 146097 + doe);
  }

  lemma DateIs(era: int, doe: int, yoe: int, k: int)
    requires YearOfEra(doe) == yoe && YearStart(yoe) + k == doe
    ensures DateInEra(era, doe) == DateOf(yoe + era * 400, k)
  {
  }

  lemma CivilIs(era: int, p: Place)
    requires InEra(p)
    ensures CivilFromDays(Number(era, p)) == DateOf(Year(p) + era * 400, p.k)
  {
    DayBounds(p);
    YearIs(p);
    DateIs(era, Day(p), Year(p), p.k);
    EraIs(era, Day(p));
    assert Number(era, p) + 719468 == era * 146097 + Day(p);
  }

  /** The year that began last March. */
  function MarchYear(date: Date): (my: int) { date.y - if date.m <= 2 then 1 else 0 }

  function DayOfYear(date: Date): (k: int) { MonthStart(Shifted(date.m)) + date.d - 1 }

  function PlaceIn(yoe: int, k: int): (p: Place) { Place(yoe / 100, yoe % 100 / 4, yoe % 4, k) }

  lemma DaysFromEra(date: Date, era: int, yoe: int)
    requires MarchYear(date) == era * 400 + yoe && 0 <= yoe < 400
    ensures DaysFromCivil(date) == era * 146097 + YearStart(yoe) + DayOfYear(date) - 719468
  {
    EraIsFloor(MarchYear(date));
    assert MarchYear(date) / 400 == era;
  }

  lemma DaysIs(date: Date, era: int, p: Place)
    requires InEra(p) && MarchYear(date) == era * 400 + Year(p) && DayOfYear(date) == p.k
    ensures DaysFromCivil(date) == Number(era, p)
  {
    DayBounds(p);
    DaysFromEra(date, era, Year(p));
  }

  lemma YearSplits(yoe: int, k: int)
    requires 0 <= yoe < 400
    ensures var p := PlaceIn(yoe, k);
            Year(p) == yoe && 0 <= p.b <= 3 && 0 <= p.c <= 24 && 0 <= p.e <= 3 && p.k == k
  {
  }

  lemma Mod4(q: int, r: int)
    ensures (4 * q + r) % 4 == r % 4
  {
  }

  lemma Mod100(q: int, r: int)
    ensures (100 * q + r) % 100 == r % 100
  {
  }

  lemma Mod400(q: int, r: int)
    ensures (400 * q + r) % 400 == r % 400
  {
  }

  lemma LeapShift(q: int, r: int)
    ensures Leap(400 * q + r) <==> Leap(r)
  {
    Mod4(100 * q, r);
    Mod100(4 * q, r);
    Mod400(q, r);
  }

  /** February's last day is the 366th exactly in leap years. */
  lemma LeapPlace(p: Place)
    requires 0 <= p.b <= 3 && 0 <= p.c <= 24 && 0 <= p.e <= 3
    ensures Leap(Year(p) + 1) <==> p.e == 3 && (p.c < 24 || p.b == 3)
  {
  }

  // ---- the conversions are inverse ---------------------------------------------------------------

  lemma DateParts(y: int, k: int)
    requires 0 <= k <= 365
    ensures MarchYear(DateOf(y, k)) == y && DayOfYear(DateOf(y, k)) == k
    ensures 1 <= DateOf(y, k).m <= 12 && 1 <= DateOf(y, k).d
  {
    MonthFits(k);
    ShiftBack(MonthOf(k));
  }

  /** Every day number comes from an era and a place in it. */
  lemma DayHasPlace(z: int)
    ensures InEra(PlaceOf(DayOfEra(z + 719468))) && Number(Era(z + 719468), PlaceOf(DayOfEra(z + 719468))) == z
  {
    CycleIsFloor(z + 719468);
    PlaceOfDay(DayOfEra(z + 719468));
  }

  /** The date of a day number has that day number. */
  lemma DaysOfCivil(z: int)
    ensures DaysFromCivil(CivilFromDays(z)) == z
  {
    var era, p := Era(z + 719468), PlaceOf(DayOfEra(z + 719468));
    DayHasPlace(z);
    CivilIs(era, p);
    DateParts(Year(p) + era * 400, p.k);
    DaysIs(CivilFromDays(z), era, p);
  }

  /** And it is a date of the Gregorian calendar. */
  lemma CivilValid(z: int)
    ensures Valid(CivilFromDays(z))
  {
    hide Era, DayOfEra, PlaceOf, CivilFromDays, DateOf, Valid, Leap;
    var era, p := Era(z + 719468), PlaceOf(DayOfEra(z + 719468));
    DayHasPlace(z);
    CivilIs(era, p);
    LeapPlace(p);
    LeapShift(era, Year(p) + 1);
    assert Year(p) + era * 400 + 1 == 400 * era + (Year(p) + 1);
    DateValid(Year(p) + era * 400, p.k);
  }

  lemma DateValid(y: int, k: int)
    requires 0 <= k <= 365 && (k == 365 ==> Leap(y + 1))
    ensures Valid(DateOf(y, k))
  {
    var mp := MonthOf(k);
    MonthFits(k);
    ShiftBack(mp);
    MonthLength(DateOf(y, k).y, Unshifted(mp));
  }

  /** The place of a valid date. */
  function PlaceOfDate(date: Date): (p: Place) { PlaceIn(MarchYear(date) % 400, DayOfYear(date)) }

  lemma YearHasPlace(q: int, r: int, k: int)
    requires 0 <= r < 400 && 0 <= k <= 365 && (k == 365 ==> Leap(400 * q + (r + 1)))
    ensures InEra(PlaceIn(r, k)) && Year(PlaceIn(r, k)) == r
  {
    hide PlaceIn, Leap;
    YearSplits(r, k);
    PlaceFits(q, PlaceIn(r, k));
  }

  lemma PlaceFits(q: int, p: Place)
    requires 0 <= p.b <= 3 && 0 <= p.c <= 24 && 0 <= p.e <= 3 && 0 <= p.k <= 365
    requires p.k == 365 ==> Leap(400 * q + (Year(p) + 1))
    ensures InEra(p)
  {
    hide Leap;
    LeapShift(q, Year(p) + 1);
    LeapPlace(p);
  }

  lemma DateHasPlace(date: Date)
    requires Valid(date)
    ensures InEra(PlaceOfDate(date)) && MarchYear(date) == MarchYear(date) / 400 * 400 + Year(PlaceOfDate(date))
  {
    var my := MarchYear(date);
    DayOfYearBounds(date);
    assert my + 1 == 400 * (my / 400) + (my % 400 + 1);
    YearHasPlace(my / 400, my % 400, DayOfYear(date));
  }

  lemma DateFromParts(date: Date)
    requires Valid(date)
    ensures DateOf(MarchYear(date), DayOfYear(date)) == date
  {
    MonthLength(date.y, date.m);
    DayOfYearBounds(date);
    MonthIs(Shifted(date.m), date.d);
  }

  lemma DayOfYearBounds(date: Date)
    requires Valid(date)
    ensures var k, mp := DayOfYear(date), Shifted(date.m);
            0 <= k <= 365 && (k == 365 ==> date.m == 2 && Leap(date.y)) && (mp < 11 ==> k < MonthStart(mp + 1))
  {
    MonthLength(date.y, date.m);
  }

  /** The day number of a valid date gives the date back. */
  lemma CivilOfDays(date: Date)
    requires Valid(date)
    ensures CivilFromDays(DaysFromCivil(date)) == date
  {
    var era, p := MarchYear(date) / 400, PlaceOfDate(date);
    DateHasPlace(date);
    DateFromParts(date);
    DaysIs(date, era, p);
    CivilIs(era, p);
    assert Year(p) + era * 400 == MarchYear(date);
  }

  /** Consecutive day numbers are consecutive dates. */
  lemma NextDay(z: int)
    ensures CivilFromDays(z + 1) == NextDate(CivilFromDays(z))
  {
    var date := CivilFromDays(z);
    CivilValid(z);
    DaysOfCivil(z);
    NextNumber(date);
    NextValid(date);
    CivilOfDays(NextDate(date));
    assert DaysFromCivil(NextDate(date)) == z + 1;
  }

  lemma NextValid(date: Date)
    requires Valid(date)
    ensures Valid(NextDate(date))
  {
  }

  lemma NextNumber(date: Date)
    requires Valid(date)
    ensures DaysFromCivil(NextDate(date)) == DaysFromCivil(date) + 1
  {
    var q, r := MarchYear(date) / 400, MarchYear(date) % 400;
    var next := NextDate(date);
    DaysFromEra(date, q, r);
    if date.m == 2 && date.d == DaysIn(date.y, 2) {
      MonthLength(date.y, 2);
      YearLength(q, r);
      assert date.y == 400 * q + (r + 1) && next == Date(date.y, 3, 1);
      if r < 399 { DaysFromEra(next, q, r + 1); } else { DaysFromEra(next, q + 1, 0); }
    } else {
      NextInYear(date);
      DaysFromEra(next, q, r);
    }
  }

  /** Within a year that begins in March the next date is one day on. */
  lemma NextInYear(date: Date)
    requires Valid(date) && !(date.m == 2 && date.d == DaysIn(date.y, 2))
    ensures MarchYear(NextDate(date)) == MarchYear(date) && DayOfYear(NextDate(date)) == DayOfYear(date) + 1
  {
    MonthLength(date.y, date.m);
  }

  /** A year that begins in March ends with the following February. */
  lemma YearLength(q: int, r: int)
    requires 0 <= r < 400
    ensures (if r < 399 then YearStart(r + 1) else 146097) - YearStart(r) ==
              if Leap(400 * q + (r + 1)) then 366 else 365
  {
    LeapShift(q, r + 1);
    YearLengthInEra(r);
  }

  lemma YearLengthInEra(r: int)
    requires 0 <= r < 400
    ensures (if r < 399 then YearStart(r + 1) else 146097) - YearStart(r) == if Leap(r + 1) then 366 else 365
  {
    hide PlaceIn, Leap, YearStart;
    var p := PlaceIn(r, 0);
    YearSplits(r, 0);
    LeapPlace(p);
    DayBounds(p);
    if r < 399 {
      var n := if p.e < 3 then p.(e := p.e + 1)
               else if p.c < 24 then Place(p.b, p.c + 1, 0, 0)
               else Place(p.b + 1, 0, 0, 0);
      assert Year(n) == r + 1;
      DayBounds(n);
    }
  }

  lemma EpochIs()
    ensures CivilFromDays(0) == Date(1970, 1, 1)
  {
  }
}
