/** Month arithmetic on the Gregorian day count of section 21.4.1 of ECMA-262, and the cost month at +08:00. */
module Calendar {
  const MS_PER_DAY := 86_400_000
  const OFFSET_MS := 8 * 3_600_000

  /** A month as twelve times its year plus its place in the year. */
  type Month = nat

  predicate Leap(year: int)
  {
    year % 4 == 0 && (year % 100 != 0 || year % 400 == 0)
  }

  /** The number of the first day of a year, counted from 1 January 1970. */
  function DayFromYear(year: int): int
  {
    365 * (year - 1970) + (year - 1969) / 4 - (year - 1901) / 100 + (year - 1601) / 400
  }

  function DaysBefore(month: nat, leap: bool): nat
    requires month <= 12
  {
    var extra := if leap then 1 else 0;
    match month
    case 0 => 0 case 1 => 31 case 2 => 59 + extra case 3 => 90 + extra case 4 => 120 + extra case 5 => 151 + extra
    case 6 => 181 + extra case 7 => 212 + extra case 8 => 243 + extra case 9 => 273 + extra case 10 => 304 + extra
    case 11 => 334 + extra case 12 => 365 + extra
  }

  /** The first day of a month of a year. */
  function MonthStart(year: int, place: nat): int
    requires place < 12
  {
    DayFromYear(year) + DaysBefore(place, Leap(year))
  }

  /** The day that a year and a month number, in or out of range, come to. */
  function MakeDay(year: int, month: int): int
  {
    MonthStart(year + month / 12, month % 12)
  }

  /** The year of a day, found by going up from year `y`. */
  function YearFromDay(day: int, y: int): (year: int)
    requires DayFromYear(y) <= day
    ensures DayFromYear(year) <= day < DayFromYear(year + 1) && y <= year
    decreases day - DayFromYear(y)
  {
    YearLength(y);
    if day < DayFromYear(y + 1) then y else YearFromDay(day, y + 1)
  }

  function MonthInYear(dayInYear: nat, leap: bool): (month: nat)
    requires dayInYear < DaysBefore(12, leap)
    ensures month < 12
  {
    if dayInYear < 31 then 0
    else if dayInYear < DaysBefore(2, leap) then 1
    else if dayInYear < DaysBefore(3, leap) then 2
    else if dayInYear < DaysBefore(4, leap) then 3
    else if dayInYear < DaysBefore(5, leap) then 4
    else if dayInYear < DaysBefore(6, leap) then 5
    else if dayInYear < DaysBefore(7, leap) then 6
    else if dayInYear < DaysBefore(8, leap) then 7
    else if dayInYear < DaysBefore(9, leap) then 8
    else if dayInYear < DaysBefore(10, leap) then 9
    else if dayInYear < DaysBefore(11, leap) then 10
    else 11
  }

  predicate InEra(day: int)
  {
    DayFromYear(0) <= day
  }

  function MonthFromDay(day: int): Month
    requires InEra(day)
  {
    var year := YearFromDay(day, 0);
    YearLength(year);
    12 * year + MonthInYear(day - DayFromYear(year), Leap(year))
  }

  lemma YearLength(y: int)
    ensures DayFromYear(y + 1) == DayFromYear(y) + DaysBefore(12, Leap(y))
  {
    Fourth(y - 1969);
    Hundredth(y - 1901);
    FourHundredth(y - 1601);
    Multiples(y);
  }

  lemma Fourth(x: int)
    ensures (x + 1) / 4 == x / 4 + if (x + 1) % 4 == 0 then 1 else 0
  {
  }

  lemma Hundredth(x: int)
    ensures (x + 1) / 100 == x / 100 + if (x + 1) % 100 == 0 then 1 else 0
  {
  }

  lemma FourHundredth(x: int)
    ensures (x + 1) / 400 == x / 400 + if (x + 1) % 400 == 0 then 1 else 0
  {
  }

  lemma Multiples(y: int)
    ensures (y - 1968) % 4 == 0 <==> y % 4 == 0
    ensures (y - 1900) % 100 == 0 <==> y % 100 == 0
    ensures (y - 1600) % 400 == 0 <==> y % 400 == 0
    ensures (y % 400 == 0 ==> y % 100 == 0) && (y % 100 == 0 ==> y % 4 == 0)
  {
    Off1968(y);
    Off1900(y);
    Off1600(y);
    Hundreds(y);
    FourHundreds(y);
  }

  lemma Off1968(y: int)
    ensures (y - 1968) % 4 == 0 <==> y % 4 == 0
  {
  }

  lemma Off1900(y: int)
    ensures (y - 1900) % 100 == 0 <==> y % 100 == 0
  {
  }

  lemma Off1600(y: int)
    ensures (y - 1600) % 400 == 0 <==> y % 400 == 0
  {
  }

  lemma Hundreds(y: int)
    ensures y % 100 == 0 ==> y % 4 == 0
  {
  }

  lemma FourHundreds(y: int)
    ensures y % 400 == 0 ==> y % 100 == 0
  {
  }

  function YearOf(month: Month): nat
  {
    month / 12
  }

  function PlaceOf(month: Month): (place: nat)
    ensures place < 12 && month == 12 * YearOf(month) + place
  {
    month % 12
  }

  lemma Parts(year: nat, place: nat)
    requires place < 12
    ensures YearOf(12 * year + place) == year && PlaceOf(12 * year + place) == place
  {
  }

  lemma NextParts(month: Month)
    ensures PlaceOf(month) < 11 ==> YearOf(month + 1) == YearOf(month) && PlaceOf(month + 1) == PlaceOf(month) + 1
    ensures PlaceOf(month) == 11 ==> YearOf(month + 1) == YearOf(month) + 1 && PlaceOf(month + 1) == 0
  {
  }

  /** The day a month begins, as an ISO date text for its first day is read. */
  function FirstDay(month: Month): int
  {
    MonthStart(YearOf(month), PlaceOf(month))
  }

  lemma MonthLength(month: Month)
    ensures FirstDay(month + 1) == DayFromYear(YearOf(month)) + DaysBefore(PlaceOf(month) + 1, Leap(YearOf(month)))
    ensures 28 <= FirstDay(month + 1) - FirstDay(month) <= 31
  {
    NextParts(month);
    YearLength(YearOf(month));
    hide DayFromYear, Leap, YearOf, PlaceOf;
  }

  /** The months' lengths in the Gregorian calendar; with the epoch's month they fix every month's first day. */
  lemma MonthLengths(month: Month)
    ensures FirstDay(23640) == 0 && YearOf(23640) == 1970
    ensures FirstDay(month + 1) - FirstDay(month) ==
      var place, year := month % 12, month / 12;
      if place == 3 || place == 5 || place == 8 || place == 10 then 30
      else if place != 1 then 31
      else if year % 400 == 0 || (year % 4 == 0 && year % 100 != 0) then 29 else 28
  {
    MonthLength(month);
    FourHundreds(month / 12);
    Hundreds(month / 12);
  }

  lemma {:induction false} MonthsAreOrdered(a: Month, b: Month)
    requires a <= b
    ensures FirstDay(a) <= FirstDay(b)
    decreases b - a
  {
    hide FirstDay, YearOf, PlaceOf;
    if a < b {
      MonthLength(b - 1);
      MonthsAreOrdered(a, b - 1);
    }
  }

  /** The table of month ends finds the month whose days include the day. */
  lemma MonthInYearBounds(dayInYear: nat, leap: bool)
    requires dayInYear < DaysBefore(12, leap)
    ensures var m := MonthInYear(dayInYear, leap); DaysBefore(m, leap) <= dayInYear < DaysBefore(m + 1, leap)
  {
  }

  lemma MonthFromDayIs(day: int) returns (year: nat, place: nat)
    requires InEra(day)
    ensures place < 12 && MonthFromDay(day) == 12 * year + place
    ensures MonthStart(year, place) <= day < DayFromYear(year) + DaysBefore(place + 1, Leap(year))
  {
    hide DayFromYear, Leap, DaysBefore, MonthInYear;
    year := YearFromDay(day, 0);
    YearLength(year);
    place := MonthInYear(day - DayFromYear(year), Leap(year));
    MonthInYearBounds(day - DayFromYear(year), Leap(year));
  }

  /** Reading a day's month off the calendar gives a month that contains it. */
  lemma MonthContainsDay(day: int)
    requires InEra(day)
    ensures FirstDay(MonthFromDay(day)) <= day < FirstDay(MonthFromDay(day) + 1)
  {
    hide InEra, DayFromYear, Leap, DaysBefore, MonthStart, MonthFromDay, YearOf, PlaceOf;
    var year, place := MonthFromDayIs(day);
    Parts(year, place);
    MonthLength(12 * year + place);
  }

  /** A day is in a month exactly when the calendar reads that month off it. */
  lemma DayIsInItsMonth(day: int, month: Month)
    requires InEra(day)
    ensures FirstDay(month) <= day < FirstDay(month + 1) <==> MonthFromDay(day) == month
  {
    hide InEra, MonthFromDay, FirstDay;
    MonthContainsDay(day);
    var m := MonthFromDay(day);
    if m < month {
      MonthsAreOrdered(m + 1, month);
    } else if month < m {
      MonthsAreOrdered(month + 1, m);
    }
  }

  lemma FirstDayOfEra()
    ensures FirstDay(0) == DayFromYear(0)
  {
  }

  lemma FirstDayInEra(month: Month)
    ensures InEra(FirstDay(month)) && MonthFromDay(FirstDay(month)) == month
  {
    hide MonthFromDay, FirstDay, YearOf, PlaceOf, DayFromYear;
    MonthsAreOrdered(0, month);
    FirstDayOfEra();
    MonthLength(month);
    DayIsInItsMonth(FirstDay(month), month);
  }

  // ---------- shifting ----------

  /** Years 0 to 99 are taken to mean 1900 to 1999 when a date is made from numbers. */
  function FullYear(year: nat): nat
  {
    if year <= 99 then 1900 + year else year
  }

  /** What a month is taken to be when it is shifted. */
  function Base(month: Month): Month
  {
    12 * FullYear(YearOf(month)) + PlaceOf(month)
  }

  lemma BaseOf(month: Month)
    ensures Base(month) == if month < 1200 then month + 22800 else month
  {
  }

  /** The month that the shifted date falls in. */
  function ShiftMonth(month: Month, delta: int): Month
    requires Base(month) + delta >= 0
  {
    var day := MakeDay(FullYear(YearOf(month)), PlaceOf(month) + delta);
    ShiftedDay(month, delta);
    MonthFromDay(day)
  }

  lemma ShiftedDay(month: Month, delta: int)
    requires Base(month) + delta >= 0
    ensures MakeDay(FullYear(YearOf(month)), PlaceOf(month) + delta) == FirstDay(Base(month) + delta)
    ensures InEra(FirstDay(Base(month) + delta))
  {
    hide MonthStart, FullYear, YearOf, PlaceOf, InEra, MonthFromDay;
    FirstDayInEra(Base(month) + delta);
    SplitMonth(FullYear(YearOf(month)), PlaceOf(month) + delta);
  }

  lemma SplitMonth(year: int, month: int)
    requires 12 * year + month >= 0
    ensures year + month / 12 >= 0 && YearOf(12 * year + month) == year + month / 12 && PlaceOf(12 * year + month) == month % 12
  {
  }

  /** Shifting by days of the calendar is adding months, from the year 100 on. */
  lemma ShiftAdds(month: Month, delta: int)
    requires Base(month) + delta >= 0
    ensures ShiftMonth(month, delta) == Base(month) + delta
    ensures ShiftMonth(month, delta) == if month < 1200 then month + 22_800 + delta else month + delta
  {
    hide Base, FirstDay, MonthFromDay, MakeDay, YearOf, PlaceOf, InEra, FullYear;
    ShiftedDay(month, delta);
    FirstDayInEra(Base(month) + delta);
    BaseOf(month);
  }

  /** Two shifts are one shift by the sum, exactly when the month between them is not read as a two-digit year. */
  lemma ShiftIsAdditive(month: Month, a: int, b: int)
    requires Base(month) + a >= 0 && Base(month) + a + b >= 0 && Base(ShiftMonth(month, a)) + b >= 0
    ensures ShiftMonth(ShiftMonth(month, a), b) == ShiftMonth(month, a + b) <==> Base(month) + a >= 1200
  {
    hide ShiftMonth, Base;
    ShiftAdds(month, a);
    ShiftAdds(month, a + b);
    ShiftAdds(ShiftMonth(month, a), b);
    BaseOf(ShiftMonth(month, a));
  }

  // ---------- the cost month ----------

  datatype Window = Window(start: int, end: int)

  /** Instants are in milliseconds; a month has a four-digit year and so has the one after it. */
  predicate Written(month: Month)
  {
    12_000 <= month && month + 1 < 120_000
  }

  function MonthWindow(month: Month): Window
    requires Written(month)
  {
    BaseOf(month);
    Window(FirstDay(month) * MS_PER_DAY - OFFSET_MS, FirstDay(ShiftMonth(month, 1)) * MS_PER_DAY - OFFSET_MS)
  }

  predicate Dated(instant: int)
  {
    InEra((instant + OFFSET_MS) / MS_PER_DAY)
  }

  /** The month on the wall at +08:00. */
  function CurrentCostMonth(instant: int): Month
    requires Dated(instant)
  {
    MonthFromDay((instant + OFFSET_MS) / MS_PER_DAY)
  }

  predicate Within(window: Window, instant: int)
  {
    window.start <= instant < window.end
  }

  /** Consecutive windows touch and none is empty: together they tile the time line. */
  lemma WindowsTile(month: Month)
    requires Written(month) && Written(month + 1)
    ensures MonthWindow(month).start < MonthWindow(month).end == MonthWindow(month + 1).start
  {
    hide FirstDay, ShiftMonth, Base, YearOf, PlaceOf;
    BaseOf(month);
    BaseOf(month + 1);
    ShiftAdds(month, 1);
    ShiftAdds(month + 1, 1);
    MonthLength(month);
  }

  /** An instant is in a month's window exactly when that month is the one on the wall: so in one window only. */
  lemma InstantIsInItsWindow(instant: int, month: Month)
    requires Written(month) && Dated(instant)
    ensures Within(MonthWindow(month), instant) <==> CurrentCostMonth(instant) == month
  {
    hide FirstDay, ShiftMonth, MonthFromDay, Base, YearOf, PlaceOf;
    BaseOf(month);
    ShiftAdds(month, 1);
    DayIsInItsMonth((instant + OFFSET_MS) / MS_PER_DAY, month);
    DayBounds(instant, FirstDay(month));
    DayBounds(instant, FirstDay(month + 1));
  }

  /** The bounds of a month's window, eight hours before the day begins in Greenwich. */
  lemma WindowIs(month: Month)
    requires 1000 * 12 <= month < 9999 * 12 + 11
    ensures Written(month)
    ensures MonthWindow(month) == Window(FirstDay(month) * 86_400_000 - 28_800_000, FirstDay(month + 1) * 86_400_000 - 28_800_000)
  {
    hide FirstDay, ShiftMonth, Base;
    BaseOf(month);
    ShiftAdds(month, 1);
  }

  /** The month on the wall is read from the time eight hours ahead. */
  lemma WallMonth(instant: int, month: Month)
    requires Dated(instant)
    ensures CurrentCostMonth(instant) == month <==>
              FirstDay(month) * 86_400_000 <= instant + 28_800_000 < FirstDay(month + 1) * 86_400_000
  {
    hide FirstDay, MonthFromDay, InEra;
    DayIsInItsMonth((instant + OFFSET_MS) / MS_PER_DAY, month);
    DayBounds(instant, FirstDay(month));
    DayBounds(instant, FirstDay(month + 1));
  }

  lemma DayBounds(instant: int, day: int)
    ensures day <= (instant + OFFSET_MS) / MS_PER_DAY <==> day * MS_PER_DAY - OFFSET_MS <= instant
  {
  }
}
