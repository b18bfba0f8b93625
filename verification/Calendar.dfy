/** The closed-form date of a day number, against a calendar that counts day by day. */
module Calendar {

  datatype Date = Date(year: int, month: int, day: int)

  // ----- the calendar (section 5.7 and appendix C of RFC 3339)

  predicate IsLeap(year: int) { year % 4 == 0 && (year % 100 != 0 || year % 400 == 0) }

  function MonthLength(year: int, month: int): int {
    if month == 2 then (if IsLeap(year) then 29 else 28)
    else if month == 4 || month == 6 || month == 9 || month == 11 then 30 else 31
  }

  predicate ValidDate(d: Date) { 1 <= d.month <= 12 && 1 <= d.day <= MonthLength(d.year, d.month) }

  function NextDay(d: Date): Date {
    if d.day < MonthLength(d.year, d.month) then d.(day := d.day + 1)
    else if d.month < 12 then Date(d.year, d.month + 1, 1)
    else Date(d.year + 1, 1, 1)
  }

  // ----- the closed form

  /** Division as the source language rounds it, towards zero. */
  function TruncatedDiv(a: int, b: int): int
    requires b > 0
  {
    if a >= 0 then a / b else -((-a) / b)
  }

  function CivilFromDays(days: int): Date {
    var z := days + 719468;
    var era := TruncatedDiv(if z >= 0 then z else z - 146096, 146097);
    var doe := z - era * 146097;
    var yoe := (doe - doe / 1460 + doe / 36524 - doe / 146096) / 365;
    var y := yoe + era * 400;
    var doy := doe - (365 * yoe + yoe / 4 - yoe / 100);
    var mp := (5 * doy + 2) / 153;
    var d := doy - (153 * mp + 2) / 5 + 1;
    var m := if mp < 10 then mp + 3 else mp - 9;
    Date(if m <= 2 then y + 1 else y, m, d)
  }

  // ----- years that begin in March

  /** Days from the epoch to 1 March of the year. */
  function MarchFirst(y: int): int { 365 * y + y / 4 - y / 100 + y / 400 - 719468 }

  /** 1 March to the next 1 March: the February inside belongs to the next calendar year. */
  function YearLength(y: int): int { if IsLeap(y + 1) then 366 else 365 }

  lemma MarchToMarch(y: int)
    ensures MarchFirst(y + 1) == MarchFirst(y) + YearLength(y)
  {
    assert (y + 1) / 4 == y / 4 + if (y + 1) % 4 == 0 then 1 else 0;
    assert (y + 1) / 100 == y / 100 + if (y + 1) % 100 == 0 then 1 else 0;
    assert (y + 1) / 400 == y / 400 + if (y + 1) % 400 == 0 then 1 else 0;
    assert (y + 1) % 400 == 0 ==> (y + 1) % 100 == 0;
    assert (y + 1) % 100 == 0 ==> (y + 1) % 4 == 0;
  }

  function FromMarch(y: int, doy: int): Date {
    var mp := (5 * doy + 2) / 153;
    var m := if mp < 10 then mp + 3 else mp - 9;
    Date(if m <= 2 then y + 1 else y, m, doy - (153 * mp + 2) / 5 + 1)
  }

  lemma FromMarchIsValid(y: int, doy: int)
    requires 0 <= doy < YearLength(y)
    ensures ValidDate(FromMarch(y, doy))
  {}

  /** The months from March on, each with its length but for February's. */
  lemma MonthStarts(doy: int)
    requires 0 <= doy < 366
    ensures var mp := (5 * doy + 2) / 153;
            && 0 <= mp <= 11 && (153 * mp + 2) / 5 <= doy
            && (5 * (doy + 1) + 2) / 153 == if doy + 1 == (153 * (mp + 1) + 2) / 5 then mp + 1 else mp
  {}

  lemma FromMarchNext(y: int, doy: int)
    requires 0 <= doy < YearLength(y)
    ensures NextDay(FromMarch(y, doy)) == if doy + 1 < YearLength(y) then FromMarch(y, doy + 1) else FromMarch(y + 1, 0)
  {
    hide IsLeap;
    MonthStarts(doy);
  }

  function YearWithin(doe: int): int { (doe - doe / 1460 + doe / 36524 - doe / 146096) / 365 }

  /** The closed form of the year, from the century, the four-year cycle within it and the day within that. */
  lemma YearOfCycle(c: int, g: int, s: int)
    requires 0 <= c < 4 && 0 <= g < 25 && 0 <= s < 1461 && 1461 * g + s < 36524
    ensures YearWithin(36524 * c + 1461 * g + s) == 100 * c + 4 * g + if s == 1460 then 3 else s / 365
  {
    var doe := 36524 * c + 1461 * g + s;
    var e := if 24 * c + g + s >= 1460 then 1 else 0;
    assert doe / 1460 == 25 * c + g + e;
    assert doe / 36524 == c && doe / 146096 == 0;
    assert doe - doe / 1460 + c == 365 * (100 * c + 4 * g) + (s - e);
    assert (s - e) / 365 == if s == 1460 then 3 else s / 365;
  }

  lemma YearOfEra(doe: int)
    requires 0 <= doe < 146097
    ensures var yoe := YearWithin(doe);
            0 <= yoe < 400 && 0 <= doe - (365 * yoe + yoe / 4 - yoe / 100) < YearLength(yoe)
  {
    hide YearLength;
    LastDayOfEra();
    hide YearWithin;
    if doe < 146096 {
      var c, r := doe / 36524, doe % 36524;
      var g, s := r / 1461, r % 1461;
      YearOfCycle(c, g, s);
      var u := if s == 1460 then 3 else s / 365;
      YearsBefore(c, g, u);
    }
  }

  lemma LastDayOfEra()
    ensures YearWithin(146096) == 399 && YearLength(399) == 366
  {}

  lemma YearsBefore(c: int, g: int, u: int)
    requires 0 <= c < 4 && 0 <= g < 25 && 0 <= u < 4
    ensures var y := 100 * c + 4 * g + u;
            && y / 4 == 25 * c + g && y / 100 == c
            && YearLength(y) == if u == 3 && (g != 24 || c == 3) then 366 else 365
  {}

  lemma EraIsFloor(z: int)
    ensures TruncatedDiv(if z >= 0 then z else z - 146096, 146097) == z / 146097
  {}

  /** The closed form splits a day number into its March year and the day within it. */
  lemma CivilSplits(days: int) returns (y: int, doy: int)
    ensures 0 <= doy < YearLength(y) && days == MarchFirst(y) + doy && CivilFromDays(days) == FromMarch(y, doy)
  {
    hide FromMarch, CivilFromDays, YearWithin;
    var z := days + 719468;
    DayOfEra(z);
    var era, doe := z / 146097, z % 146097;
    YearOfEra(doe);
    var yoe := YearWithin(doe);
    y, doy := yoe + era * 400, doe - (365 * yoe + yoe / 4 - yoe / 100);
    ShiftByEra(yoe, era);
    ClosedForm(days);
  }

  lemma ClosedForm(days: int)
    ensures var z := days + 719468;
            var era, doe := z / 146097, z % 146097;
            var yoe := YearWithin(doe);
            CivilFromDays(days) == FromMarch(yoe + era * 400, doe - (365 * yoe + yoe / 4 - yoe / 100))
  {
    hide TruncatedDiv;
    EraIsFloor(days + 719468);
    DayOfEra(days + 719468);
  }

  lemma DayOfEra(z: int)
    ensures z - z / 146097 * 146097 == z % 146097
  {}

  lemma ShiftByEra(yoe: int, era: int)
    requires 0 <= yoe < 400
    ensures var y := yoe + era * 400;
            && y / 4 == yoe / 4 + 100 * era && y / 100 == yoe / 100 + 4 * era && y / 400 == era
            && YearLength(y) == YearLength(yoe)
  {
    var next := yoe + 1;
    assert (next + era * 400) / 4 == next / 4 + 100 * era;
    assert (next + era * 400) / 100 == next / 100 + 4 * era;
    assert (next + era * 400) / 400 == next / 400 + era;
  }

  /** Later March years begin later. */
  lemma {:induction false} MarchFirstIncreases(y: int, later: int)
    requires y < later
    ensures MarchFirst(later) >= MarchFirst(y) + YearLength(y)
    decreases later - y
  {
    if later == y + 1 {
      MarchToMarch(y);
    } else {
      MarchFirstIncreases(y, later - 1);
      MarchToMarch(later - 1);
    }
  }

  /** Every day number has a valid date, day 0 is 1 January 1970, and the next number is the next day: the closed
      form and the calendar agree on every day there is. */
  lemma CivilFollowsCalendar(days: int)
    ensures ValidDate(CivilFromDays(days))
    ensures CivilFromDays(0) == Date(1970, 1, 1)
    ensures CivilFromDays(days + 1) == NextDay(CivilFromDays(days))
  {
    Epoch();
    hide CivilFromDays, FromMarch, NextDay, MarchFirst, YearLength;
    var y, doy := CivilSplits(days);
    var y', doy' := CivilSplits(days + 1);
    YearIsNotEmpty(y + 1);
    FromMarchIsValid(y, doy);
    FromMarchNext(y, doy);
    MarchToMarch(y);
    var n, d := if doy + 1 < YearLength(y) then y else y + 1, if doy + 1 < YearLength(y) then doy + 1 else 0;
    assert days + 1 == MarchFirst(n) + d;
    SameMarchYear(n, d, y', doy');
  }

  lemma Epoch()
    ensures CivilFromDays(0) == Date(1970, 1, 1)
  {
    hide CivilFromDays;
    ClosedForm(0);
    assert 719468 / 146097 == 4 && 719468 % 146097 == 135080;
    assert YearWithin(135080) == 369;
    assert FromMarch(1969, 306) == Date(1970, 1, 1);
  }

  lemma YearIsNotEmpty(y: int)
    ensures YearLength(y) > 0
  {}

  lemma SameMarchYear(y: int, doy: int, y': int, doy': int)
    requires 0 <= doy < YearLength(y) && 0 <= doy' < YearLength(y')
    requires MarchFirst(y) + doy == MarchFirst(y') + doy'
    ensures y == y' && doy == doy'
  {
    if y < y' {
      MarchFirstIncreases(y, y');
    } else if y' < y {
      MarchFirstIncreases(y', y);
    }
  }

  // ----- the inverse

  /** The day of a date, by the days of the months before it. */
  function DaysFromCivil(d: Date): int {
    var y := if d.month <= 2 then d.year - 1 else d.year;
    var mp := if d.month <= 2 then d.month + 9 else d.month - 3;
    MarchFirst(y) + (153 * mp + 2) / 5 + d.day - 1
  }

  lemma MarchDay(d: Date) returns (y: int, doy: int)
    requires ValidDate(d)
    ensures 0 <= doy < YearLength(y) && DaysFromCivil(d) == MarchFirst(y) + doy && FromMarch(y, doy) == d
  {
    y := if d.month <= 2 then d.year - 1 else d.year;
    doy := (153 * (if d.month <= 2 then d.month + 9 else d.month - 3) + 2) / 5 + d.day - 1;
  }

  /** The day number and the date determine each other: every valid date is reached, by exactly one day. */
  lemma CivilIsBijection(days: int, d: Date)
    requires ValidDate(d)
    ensures DaysFromCivil(CivilFromDays(days)) == days
    ensures CivilFromDays(DaysFromCivil(d)) == d
  {
    var y, doy := CivilSplits(days);
    FromMarchIsValid(y, doy);
    var y1, doy1 := MarchDay(CivilFromDays(days));
    FromMarchInjective(y, doy, y1, doy1);
    var y2, doy2 := MarchDay(d);
    var y3, doy3 := CivilSplits(DaysFromCivil(d));
    SameMarchYear(y2, doy2, y3, doy3);
  }

  lemma FromMarchInjective(y: int, doy: int, y': int, doy': int)
    requires 0 <= doy < YearLength(y) && 0 <= doy' < YearLength(y') && FromMarch(y, doy) == FromMarch(y', doy')
    ensures y == y' && doy == doy'
  {}
}
