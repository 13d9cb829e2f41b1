/** Calendar conversion of libc/src/posix.rs (Hinnant's algorithms) against the Gregorian calendar:
    leap years, month lengths and the succession of days. Integers are unbounded here; the source
    computes in 64 bits. */
module CivilDate {
  // --- the calendar ------------------------------------------------------------------------------

  datatype Date = Date(y: int, m: int, d: int)

  predicate IsLeap(y: int) { y % 4 == 0 && (y % 100 != 0 || y % 400 == 0) }

  function DaysIn(y: int, m: int): (r: int) {
    if m == 2 then (if IsLeap(y) then 29 else 28)
    else if m == 4 || m == 6 || m == 9 || m == 11 then 30
    else 31
  }

  predicate ValidDate(t: Date) { 1 <= t.m <= 12 && 1 <= t.d <= DaysIn(t.y, t.m) }

  /** The day after. */
  function Next(t: Date): (r: Date) {
    if t.d < DaysIn(t.y, t.m) then Date(t.y, t.m, t.d + 1)
    else if t.m < 12 then Date(t.y, t.m + 1, 1)
    else Date(t.y + 1, 1, 1)
  }

  // --- the code ------------------------------------------------------------------------------------

  /** Division as the source's language does it: toward zero. */
  function TDiv(a: int, b: int): (r: int)
    requires b > 0
  {
    if a >= 0 then a / b else -((-a) / b)
  }

  /** Days before month `mp` of a year that starts in March. */
  function MonthStart(mp: int): (r: int) { (153 * mp + 2) / 5 }

  /** Days before year `yoe` of a 400-year era that starts in March. */
  function YearStart(yoe: int): (r: int) { 365 * yoe + yoe / 4 - yoe / 100 }

  function YearOfEra(doe: int): (r: int) { (doe - doe / 1460 + doe / 36524 - doe / 146096) / 365 }

  /** `civil_from_days` */
  function CivilFromDays(days: int): (t: Date) {
    var z := days + 719468;
    var era := TDiv(if z >= 0 then z else z - 146096, 146097);
    InEra(era, z - era * 146097)
  }

  /** The rest of it, for day `doe` of an era. */
  function InEra(era: int, doe: int): (t: Date) {
    var yoe := YearOfEra(doe);
    var y := yoe + era * 400;
    var doy := doe - YearStart(yoe);
    var mp := (5 * doy + 2) / 153;
    var d := doy - MonthStart(mp) + 1;
    var m := if mp < 10 then mp + 3 else mp - 9;
    Date(if m <= 2 then y + 1 else y, m, d)
  }

  /** `days_from_civil` */
  function DaysFromCivil(t: Date): (days: int) {
    var y := if t.m <= 2 then t.y - 1 else t.y;
    var era := TDiv(if y >= 0 then y else y - 399, 400);
    var yoe := y - era * 400;
    var mp := if t.m > 2 then t.m - 3 else t.m + 9;
    var doy := MonthStart(mp) + t.d - 1;
    var doe := YearStart(yoe) + doy;
    era * 146097 + doe - 719468
  }

  // --- eras, years and months ---------------------------------------------------------------------

  /** The adjusted truncating divisions are floors, also for negative numbers. */
  lemma EraIsFloor(z: int)
    ensures TDiv(if z >= 0 then z else z - 146096, 146097) == z / 146097
    ensures TDiv(if z >= 0 then z else z - 399, 400) == z / 400
  {
  }

  /** Length of year `yoe` of the era, counted from March: its February is that of the next year. */
  function YearLength(yoe: int): (r: int) { if IsLeap(yoe + 1) then 366 else 365 }

  /** A year of the era split into centuries, four-year cycles and years. */
  lemma YearParts(yoe: int)
    requires 0 <= yoe < 400
    ensures var c, q, r := yoe / 100, yoe % 100 / 4, yoe % 4;
            && 0 <= c < 4 && 0 <= q < 25 && yoe == 100 * c + 4 * q + r
            && YearStart(yoe) == 36524 * c + 1461 * q + 365 * r
            && (YearLength(yoe) == 366 <==> r == 3 && (q != 24 || c == 3))
  {
  }

  /** The closed formula for the year of the era is right on every day of every year. */
  lemma YearOfEraRight(yoe: int, doy: int)
    requires 0 <= yoe < 400 && 0 <= doy < YearLength(yoe)
    ensures YearOfEra(YearStart(yoe) + doy) == yoe
    ensures 0 <= YearStart(yoe) + doy < 146097
  {
    YearParts(yoe);
    var c, q, r := yoe / 100, yoe % 100 / 4, yoe % 4;
    var doe := YearStart(yoe) + doy;
    var e := 24 * c + q + 365 * r + doy;
    var extra := if e >= 1460 then 1 else 0;
    Over1460(25 * c + q, e);
    Over36524(c, 1461 * q + 365 * r + doy);
    assert doe - doe / 1460 + doe / 36524 - doe / 146096 == 365 * yoe + doy - extra;
    Over365(yoe, doy - extra);
  }

  lemma Over365(n: int, rest: int)
    requires 0 <= rest < 365
    ensures (365 * n + rest) / 365 == n
  {
  }

  lemma Over1460(n: int, e: int)
    requires 0 <= e < 2920
    ensures (1460 * n + e) / 1460 == n + if e >= 1460 then 1 else 0
  {
  }

  /** The last day of the era would count as a fifth century; the second term takes it back. */
  lemma Over36524(c: int, rest: int)
    requires 0 <= c < 4 && 0 <= rest <= 36524 && (rest == 36524 ==> c == 3)
    ensures (36524 * c + rest) / 36524 - (36524 * c + rest) / 146096 == c
  {
  }

  /** Every day of an era is a day of exactly one of its years. */
  lemma DayOfEra(doe: int) returns (yoe: int, doy: int)
    requires 0 <= doe < 146097
    ensures 0 <= yoe < 400 && 0 <= doy < YearLength(yoe) && doe == YearStart(yoe) + doy
  {
    var c := if doe / 36524 > 3 then 3 else doe / 36524;
    var rest := doe - 36524 * c;
    var q := rest / 1461;
    var rest2 := rest - 1461 * q;
    var r := if rest2 / 365 > 3 then 3 else rest2 / 365;
    yoe, doy := 100 * c + 4 * q + r, rest2 - 365 * r;
    assert yoe / 100 == c && yoe % 100 / 4 == q && yoe % 4 == r;
    YearParts(yoe);
  }

  /** Length of month `mp` counted from March, in a year of the given length. */
  function MonthLength(mp: int, year: int): (r: int) {
    if mp == 11 then year - 337 else MonthStart(mp + 1) - MonthStart(mp)
  }

  /** The month formula is right on every day of every month. */
  lemma MonthRight(mp: int, k: int, year: int)
    requires 0 <= mp < 12 && (year == 365 || year == 366) && 0 <= k < MonthLength(mp, year)
    ensures (5 * (MonthStart(mp) + k) + 2) / 153 == mp && 0 <= MonthStart(mp) + k < year
  {
  }

  lemma MonthStarts()
    ensures MonthStart(0) == 0 && MonthStart(1) == 31 && MonthStart(2) == 61 && MonthStart(3) == 92
    ensures MonthStart(4) == 122 && MonthStart(5) == 153 && MonthStart(6) == 184 && MonthStart(7) == 214
    ensures MonthStart(8) == 245 && MonthStart(9) == 275 && MonthStart(10) == 306 && MonthStart(11) == 337
  {
  }

  /** Every day of a year is in exactly one of its months. */
  lemma DayOfYear(doy: int, year: int) returns (mp: int)
    requires (year == 365 || year == 366) && 0 <= doy < year
    ensures 0 <= mp < 12 && 0 <= doy - MonthStart(mp) < MonthLength(mp, year)
  {
    MonthStarts();
    mp := if doy < 31 then 0 else if doy < 61 then 1 else if doy < 92 then 2 else if doy < 122 then 3
          else if doy < 153 then 4 else if doy < 184 then 5 else if doy < 214 then 6 else if doy < 245 then 7
          else if doy < 275 then 8 else if doy < 306 then 9 else if doy < 337 then 10 else 11;
  }

  /** Calendar months are the March-based months. */
  lemma MonthsAgree(y: int, m: int)
    requires 1 <= m <= 12
    ensures var y', mp := if m <= 2 then y - 1 else y, if m > 2 then m - 3 else m + 9;
            DaysIn(y, m) == MonthLength(mp, YearLength(y' % 400)) && 0 <= mp < 12
  {
    MonthStarts();
    if m == 2 {
      LeapPeriod(y - 1);
    }
  }

  lemma LeapPeriod(y: int)
    ensures IsLeap(y % 400 + 1) == IsLeap(y + 1)
  {
    var e, r := y / 400, y % 400;
    assert y == 400 * e + r;
    Mod4(e, r + 1);
    Mod100(e, r + 1);
    Mod400(e, r + 1);
  }

  lemma Mod4(e: int, r: int)
    ensures (400 * e + r) % 4 == r % 4
  {
    var n := 100 * e + r / 4;
    assert 400 * e + r == 4 * n + r % 4;
  }

  lemma Mod100(e: int, r: int)
    ensures (400 * e + r) % 100 == r % 100
  {
  }

  lemma Mod400(e: int, r: int)
    ensures (400 * e + r) % 400 == r % 400
  {
  }

  // --- both directions ------------------------------------------------------------------------------

  /** A date by era, year of the era, March-based month and day of the month, each from 0. */
  function PartsDate(era: int, yoe: int, mp: int, k: int): (t: Date) {
    Date(yoe + era * 400 + (if mp < 10 then 0 else 1), if mp < 10 then mp + 3 else mp - 9, k + 1)
  }

  function PartsDays(era: int, yoe: int, mp: int, k: int): (days: int) {
    era * 146097 + (YearStart(yoe) + (MonthStart(mp) + k)) - 719468
  }

  predicate InParts(yoe: int, mp: int, k: int) {
    0 <= yoe < 400 && 0 <= mp < 12 && 0 <= k < MonthLength(mp, YearLength(yoe))
  }

  lemma DivEra(era: int, n: int, r: int)
    requires 0 <= r < n && (n == 400 || n == 146097)
    ensures (r + era * n) / n == era && (r + era * n) % n == r
  {
  }

  lemma CivilParts(era: int, yoe: int, mp: int, k: int)
    requires InParts(yoe, mp, k)
    ensures CivilFromDays(PartsDays(era, yoe, mp, k)) == PartsDate(era, yoe, mp, k)
  {
    var doe := YearStart(yoe) + (MonthStart(mp) + k);
    InEraParts(era, yoe, mp, k);
    EraIsFloor(doe + era * 146097);
    DivEra(era, 146097, doe);
  }

  lemma InEraParts(era: int, yoe: int, mp: int, k: int)
    requires InParts(yoe, mp, k)
    ensures var doe := YearStart(yoe) + (MonthStart(mp) + k);
            0 <= doe < 146097 && InEra(era, doe) == PartsDate(era, yoe, mp, k)
  {
    MonthRight(mp, k, YearLength(yoe));
    YearOfEraRight(yoe, MonthStart(mp) + k);
  }

  lemma DaysParts(era: int, yoe: int, mp: int, k: int)
    requires 0 <= yoe < 400 && 0 <= mp < 12
    ensures DaysFromCivil(PartsDate(era, yoe, mp, k)) == PartsDays(era, yoe, mp, k)
  {
    EraIsFloor(yoe + era * 400);
    DivEra(era, 400, yoe);
  }

  /** The parts in range are exactly the dates of the calendar. */
  lemma PartsValid(era: int, yoe: int, mp: int, k: int)
    requires 0 <= yoe < 400 && 0 <= mp < 12
    ensures ValidDate(PartsDate(era, yoe, mp, k)) <==> InParts(yoe, mp, k)
  {
    var t := PartsDate(era, yoe, mp, k);
    DivEra(era, 400, yoe);
    MonthsAgree(t.y, t.m);
  }

  lemma DateParts(t: Date) returns (era: int, yoe: int, mp: int, k: int)
    requires 1 <= t.m <= 12
    ensures 0 <= yoe < 400 && 0 <= mp < 12 && t == PartsDate(era, yoe, mp, k)
  {
    var y := if t.m <= 2 then t.y - 1 else t.y;
    era, yoe, mp, k := y / 400, y % 400, if t.m > 2 then t.m - 3 else t.m + 9, t.d - 1;
  }

  /** Every day number is that of some parts in range. */
  lemma DayParts(days: int) returns (era: int, yoe: int, mp: int, k: int)
    ensures InParts(yoe, mp, k) && days == PartsDays(era, yoe, mp, k)
  {
    var z := days + 719468;
    era := z / 146097;
    var doy;
    yoe, doy := DayOfEra(z % 146097);
    mp := DayOfYear(doy, YearLength(yoe));
    k := doy - MonthStart(mp);
  }

  /** `civil_from_days` undoes `days_from_civil` on every date of the calendar. */
  lemma DateRoundTrip(t: Date)
    requires ValidDate(t)
    ensures CivilFromDays(DaysFromCivil(t)) == t
  {
    var era, yoe, mp, k := DateParts(t);
    PartsValid(era, yoe, mp, k);
    DaysParts(era, yoe, mp, k);
    CivilParts(era, yoe, mp, k);
  }

  /** `days_from_civil` undoes `civil_from_days` on every integer, which gives a date of the calendar. */
  lemma DayRoundTrip(days: int)
    ensures ValidDate(CivilFromDays(days)) && DaysFromCivil(CivilFromDays(days)) == days
  {
    var era, yoe, mp, k := DayParts(days);
    CivilParts(era, yoe, mp, k);
    PartsValid(era, yoe, mp, k);
    DaysParts(era, yoe, mp, k);
  }

  // --- counting days -----------------------------------------------------------------------------------

  /** Days before March-based year `y`, without eras. */
  function YearDays(y: int): (r: int) { 365 * y + y / 4 - y / 100 + y / 400 }

  lemma EraForm(y: int)
    ensures y / 400 * 146097 + YearStart(y % 400) == YearDays(y)
  {
    var e, r := y / 400, y % 400;
    assert y == 400 * e + r;
    assert y / 4 == 100 * e + r / 4 && y / 100 == 4 * e + r / 100;
  }

  lemma DaysForm(t: Date)
    ensures var y, mp := if t.m <= 2 then t.y - 1 else t.y, if t.m > 2 then t.m - 3 else t.m + 9;
            DaysFromCivil(t) == YearDays(y) + MonthStart(mp) + t.d - 1 - 719468
  {
    var y := if t.m <= 2 then t.y - 1 else t.y;
    EraIsFloor(y);
    EraForm(y);
  }

  lemma YearDaysStep(y: int)
    ensures YearDays(y + 1) - YearDays(y) == if IsLeap(y + 1) then 366 else 365
  {
    DivStep(y, 4);
    DivStep(y, 100);
    DivStep(y, 400);
    Multiples(y + 1);
  }

  lemma DivStep(y: int, k: int)
    requires k == 4 || k == 100 || k == 400
    ensures (y + 1) / k == y / k + if (y + 1) % k == 0 then 1 else 0
  {
  }

  lemma Multiples(n: int)
    ensures n % 100 == 0 ==> n % 4 == 0
    ensures n % 400 == 0 ==> n % 100 == 0
  {
  }

  /** The conversion counts days: day 0 is 1 January 1970, and the next date has the next number. */
  lemma CountsDays(t: Date)
    requires ValidDate(t)
    ensures DaysFromCivil(Date(1970, 1, 1)) == 0
    ensures ValidDate(Next(t)) && DaysFromCivil(Next(t)) == DaysFromCivil(t) + 1
  {
    if t.d < DaysIn(t.y, t.m) {
      DaysForm(t);
      DaysForm(Next(t));
    } else {
      MonthEnd(t);
    }
  }

  lemma MonthEnd(t: Date)
    requires ValidDate(t) && t.d == DaysIn(t.y, t.m)
    ensures DaysFromCivil(Next(t)) == DaysFromCivil(t) + 1
  {
    DaysForm(t);
    DaysForm(Next(t));
    if t.m == 2 {
      MonthStarts();
      YearDaysStep(t.y - 1);
    } else {
      NextMonth(t.y, t.m);
    }
  }

  /** Within a March-based year the next month starts where this one ends. */
  lemma NextMonth(y: int, m: int)
    requires 1 <= m <= 12 && m != 2
    ensures var mp := if m > 2 then m - 3 else m + 9;
            MonthStart(mp) + DaysIn(y, m) == MonthStart(mp + 1)
  {
  }

  // --- localtime -----------------------------------------------------------------------------------------

  const TWO31 := 0x8000_0000
  const TWO32 := 0x1_0000_0000
  const TWO63 := 0x8000_0000_0000_0000

  /** `as i32`: keeps the low 32 bits. */
  function AsI32(x: int): (r: int)
    ensures -TWO31 <= r < TWO31 && (-TWO31 <= x < TWO31 <==> r == x)
  {
    (x + TWO31) % TWO32 - TWO31
  }

  datatype Tm = Tm(sec: int, min: int, hour: int, mday: int, mon: int, year: int, wday: int, yday: int)

  /** `localtime`: every field is cut to 32 bits. */
  function LocalTime(secs: int): (tm: Tm) {
    var days, rem := secs / 86400, secs % 86400;
    var t := CivilFromDays(days);
    Tm(AsI32(rem % 60), AsI32(rem / 60 % 60), AsI32(rem / 3600), AsI32(t.d), AsI32(t.m - 1), AsI32(t.y - 1900),
       AsI32((days + 4) % 7), AsI32(days - DaysFromCivil(Date(t.y, 1, 1))))
  }

  /** The fields put together again. */
  function Recomposed(tm: Tm): (secs: int) {
    DaysFromCivil(Date(tm.year + 1900, tm.mon + 1, tm.mday)) * 86400 + tm.hour * 3600 + tm.min * 60 + tm.sec
  }

  /** For 64-bit seconds nothing overflows on the way: not the day, not the era and the products with it. */
  lemma NoOverflow(secs: int)
    requires -TWO63 <= secs < TWO63
    ensures var days := secs / 86400;
            var z := days + 719468;
            var era := TDiv(if z >= 0 then z else z - 146096, 146097);
            && -TWO63 <= z - 146096 && z < TWO63 && -TWO63 <= era * 146097 < TWO63 && -TWO63 <= era * 400 - 400
            && era * 400 + 800 < TWO63
  {
    EraIsFloor(secs / 86400 + 719468);
  }

  /** All fields but the year: in range, of the date and the time of day they stand for; the day of the year
      is the distance to 1 January, 0 to 364, or 365 in a leap year. */
  lemma LocalTimeFields(secs: int)
    ensures var tm, t := LocalTime(secs), CivilFromDays(secs / 86400);
            && 0 <= tm.sec < 60 && 0 <= tm.min < 60 && 0 <= tm.hour < 24 && tm.wday == (secs / 86400 + 4) % 7
            && ValidDate(t) && tm.mon == t.m - 1 && tm.mday == t.d
            && tm.yday == DaysFromCivil(t) - DaysFromCivil(Date(t.y, 1, 1))
            && 0 <= tm.yday <= (if IsLeap(t.y) then 365 else 364)
            && secs == DaysFromCivil(t) * 86400 + tm.hour * 3600 + tm.min * 60 + tm.sec
  {
    var days, rem := secs / 86400, secs % 86400;
    DatePart(days);
    ClockParts(rem);
    assert secs == days * 86400 + rem;
  }

  lemma {:induction false} YearDaysIncrease(x: int, y: int)
    requires x < y
    ensures YearDays(x) + 365 <= YearDays(y)
    decreases y - x
  {
    if x + 1 < y {
      YearDaysIncrease(x, y - 1);
    }
    YearDaysStep(y - 1);
  }

  /** Dates in different years have different numbers. */
  lemma YearsDiffer(x: int, y: int, m: int, d: int)
    requires 1 <= m <= 12
    ensures DaysFromCivil(Date(x, m, d)) == DaysFromCivil(Date(y, m, d)) <==> x == y
  {
    DaysForm(Date(x, m, d));
    DaysForm(Date(y, m, d));
    var x', y' := if m <= 2 then x - 1 else x, if m <= 2 then y - 1 else y;
    if x' < y' {
      YearDaysIncrease(x', y');
    } else if y' < x' {
      YearDaysIncrease(y', x');
    }
  }

  /** The fields add up to the seconds they came from if and only if the year fits its 32-bit field. */
  lemma LocalTimeAddsUpIff(secs: int)
    ensures Recomposed(LocalTime(secs)) == secs <==> -TWO31 <= CivilFromDays(secs / 86400).y - 1900 < TWO31
  {
    var tm, t := LocalTime(secs), CivilFromDays(secs / 86400);
    LocalTimeFields(secs);
    AddsUpIff(secs, tm, t);
  }

  lemma AddsUpIff(secs: int, tm: Tm, t: Date)
    requires 1 <= t.m <= 12 && tm.mon == t.m - 1 && tm.mday == t.d && tm.year == AsI32(t.y - 1900)
    requires secs == DaysFromCivil(t) * 86400 + tm.hour * 3600 + tm.min * 60 + tm.sec
    ensures Recomposed(tm) == secs <==> -TWO31 <= t.y - 1900 < TWO31
  {
    YearsDiffer(tm.year + 1900, t.y, t.m, t.d);
    assert t == Date(t.y, t.m, t.d);
  }

  /** The first day of the first year that fits, and of the first one that does not. */
  function FirstDay(): (r: int) { NewYear(1900 - TWO31) }
  function EndDay(): (r: int) { NewYear(1900 + TWO31) }

  function NewYear(y: int): (r: int) { DaysFromCivil(Date(y, 1, 1)) }

  lemma NewYears(x: int, y: int)
    requires x <= y
    ensures NewYear(x) <= NewYear(y) && NewYear(x + 1) == NewYear(x) + if IsLeap(x) then 366 else 365
  {
    DaysForm(Date(x, 1, 1));
    DaysForm(Date(x + 1, 1, 1));
    DaysForm(Date(y, 1, 1));
    YearDaysStep(x - 1);
    if x < y {
      YearDaysIncrease(x - 1, y - 1);
    }
  }

  lemma InItsYear(days: int)
    ensures var y := CivilFromDays(days).y; NewYear(y) <= days < NewYear(y + 1)
  {
    DatePart(days);
    NewYears(CivilFromDays(days).y, CivilFromDays(days).y);
  }

  lemma YearOrder(days: int, x: int, y: int)
    requires NewYear(x) <= days < NewYear(x + 1)
    ensures x >= y <==> days >= NewYear(y)
  {
    if y <= x {
      NewYears(y, x);
    } else {
      NewYears(x + 1, y);
    }
  }

  /** The year of a day is at least `y` exactly from 1 January of `y` on. */
  lemma YearFrom(days: int, y: int)
    ensures CivilFromDays(days).y >= y <==> days >= NewYear(y)
  {
    InItsYear(days);
    YearOrder(days, CivilFromDays(days).y, y);
  }

  /** The same condition on the seconds. */
  lemma LocalTimeRange(secs: int)
    ensures Recomposed(LocalTime(secs)) == secs <==> FirstDay() * 86400 <= secs < EndDay() * 86400
  {
    LocalTimeAddsUpIff(secs);
    YearFrom(secs / 86400, 1900 - TWO31);
    YearFrom(secs / 86400, 1900 + TWO31);
  }

  /** The second number 2^62, a 64-bit time in the year 146138514283. */
  lemma LocalTimeExample()
    ensures Recomposed(LocalTime(TWO63 / 2)) != TWO63 / 2
  {
    assert EndDay() * 86400 <= TWO63 / 2;
    LocalTimeRange(TWO63 / 2);
  }

  lemma DatePart(days: int)
    ensures ValidDate(CivilFromDays(days)) && DaysFromCivil(CivilFromDays(days)) == days
    ensures var t := CivilFromDays(days);
            0 <= days - DaysFromCivil(Date(t.y, 1, 1)) <= if IsLeap(t.y) then 365 else 364
  {
    DayRoundTrip(days);
    DayInYear(CivilFromDays(days));
  }

  lemma ClockParts(rem: int)
    requires 0 <= rem < 86400
    ensures rem == rem / 3600 * 3600 + rem / 60 % 60 * 60 + rem % 60 && rem / 3600 < 24
  {
  }

  lemma DayInYear(t: Date)
    requires ValidDate(t)
    ensures 0 <= DaysFromCivil(t) - DaysFromCivil(Date(t.y, 1, 1)) < if IsLeap(t.y) then 366 else 365
  {
    MonthStarts();
    DaysForm(t);
    DaysForm(Date(t.y, 1, 1));
    YearDaysStep(t.y - 1);
  }
}
