/** The conversion from a count of days since 1970-01-01 to a Gregorian date. */
module Calendar {

  datatype Date = Date(year: int, month: int, day: int)

  // ----- the code -----

  /** Rust's integer division, which truncates toward zero. */
  function TruncDiv(a: int, b: int): int
    requires b > 0
  {
    if a >= 0 then a / b else -((-a) / b)
  }

  /** `as i32`: keep the low 32 bits. */
  function WrapI32(x: int): int { (x + 0x8000_0000) % 0x1_0000_0000 - 0x8000_0000 }

  predicate I64(x: int) { -0x8000_0000_0000_0000 <= x < 0x8000_0000_0000_0000 }

  function YearOfEra(doe: int): int {
    (doe - doe / 1460 + doe / 36524 - doe / 146096) / 365
  }

  /** The date before its year is cut to 32 bits. */
  function Civil(days: int): Date {
    var z := days + 719468;
    var era := TruncDiv(if z >= 0 then z else z - 146096, 146097);
    var doe := z - era * 146097;
    var yoe := YearOfEra(doe);
    var y := yoe + era * 400;
    var doy := doe - (365 * yoe + yoe / 4 - yoe / 100);
    var mp := (5 * doy + 2) / 153;
    var d := doy - (153 * mp + 2) / 5 + 1;
    var m := if mp < 10 then mp + 3 else mp - 9;
    Date(if m <= 2 then y + 1 else y, m, d)
  }

  function CivilFromDays(days: int): Date
    requires I64(days) && I64(days + 719468)
  {
    var date := Civil(days);
    date.(year := WrapI32(date.year))
  }

  // ----- the calendar -----

  /** The leap-year rule of Appendix C of RFC 3339. */
  predicate Leap(year: int) { year % 4 == 0 && (year % 100 != 0 || year % 400 == 0) }

  function MonthLength(year: int, month: int): int {
    if month == 2 then (if Leap(year) then 29 else 28)
    else if month == 4 || month == 6 || month == 9 || month == 11 then 30
    else 31
  }

  predicate ValidDate(date: Date) {
    1 <= date.month <= 12 && 1 <= date.day <= MonthLength(date.year, date.month)
  }

  function NextDate(date: Date): Date {
    if date.day < MonthLength(date.year, date.month) then date.(day := date.day + 1)
    else if date.month < 12 then Date(date.year, date.month + 1, 1)
    else Date(date.year + 1, 1, 1)
  }

  function YearLength(year: int): int { if Leap(year) then 366 else 365 }

  /** Days from 1970-01-01 to the first of January of a year, counted year by year. */
  ghost function DaysBeforeYear(year: int): int
    decreases if year >= 1970 then year - 1970 else 1970 - year
  {
    if year == 1970 then 0
    else if year > 1970 then DaysBeforeYear(year - 1) + YearLength(year - 1)
    else DaysBeforeYear(year + 1) - YearLength(year)
  }

  ghost function DaysBeforeMonth(year: int, month: int): int
    requires 1 <= month <= 12
  {
    if month == 1 then 0 else DaysBeforeMonth(year, month - 1) + MonthLength(year, month - 1)
  }

  /** Counting days back from a date. */
  ghost function DayNumber(date: Date): int
    requires ValidDate(date)
  {
    DaysBeforeYear(date.year) + DaysBeforeMonth(date.year, date.month) + date.day - 1
  }

  // ----- days within an era of 400 years that starts in March -----

  /** The same day as `century` hundreds of years, `cycle` fours of years, and `day` days. */
  datatype EraDay = EraDay(century: int, cycle: int, day: int)

  function Split(doe: int): EraDay {
    var century := if doe == 146096 then 3 else doe / 36524;
    var r := doe - 36524 * century;
    EraDay(century, r / 1461, r % 1461)
  }

  function YearInCycle(day: int): int { if day / 365 < 3 then day / 365 else 3 }

  function YearOfSplit(e: EraDay): int { 100 * e.century + 4 * e.cycle + YearInCycle(e.day) }

  function DayOfSplit(e: EraDay): int { e.day - 365 * YearInCycle(e.day) }

  predicate InEra(e: EraDay) {
    && 0 <= e.century <= 3 && 0 <= e.cycle <= 24 && 0 <= e.day <= 1460
    && (e.cycle == 24 && e.day == 1460 ==> e.century == 3)
  }

  predicate Follows(e: EraDay, next: EraDay) {
    || (next == e.(day := e.day + 1) && e.day < 1460)
    || (next == EraDay(e.century, e.cycle + 1, 0) && e.cycle < 24 && e.day == 1460)
    || (next == EraDay(e.century + 1, 0, 0) && e.century < 3 && e.cycle == 24 && e.day == 1459)
  }

  function Joined(e: EraDay): int { 36524 * e.century + 1461 * e.cycle + e.day }

  lemma SplitBounds(doe: int)
    requires 0 <= doe <= 146096
    ensures var e := Split(doe);
            InEra(e) && doe == Joined(e)
  {
  }

  /** The division by averages finds the year, the extra days of the last year of each cycle included. */
  lemma YearOfEraIs(doe: int)
    requires 0 <= doe <= 146096
    ensures YearOfEra(doe) == YearOfSplit(Split(doe))
  {
    SplitBounds(doe);
    var e := Split(doe);
    var slack := 24 * e.century + e.cycle + e.day;
    var extra := slack / 1460;
    assert 0 <= extra <= 1;
    assert doe / 1460 == 25 * e.century + e.cycle + extra;
    if doe == 146096 {
      assert YearOfEra(doe) == 399;
    } else {
      assert doe / 36524 == e.century && doe / 146096 == 0;
      var numerator := 36500 * e.century + 1460 * e.cycle + e.day - extra;
      assert doe - doe / 1460 + doe / 36524 - doe / 146096 == numerator;
      assert (e.day - extra) / 365 == YearInCycle(e.day);
      assert numerator == 365 * (100 * e.century + 4 * e.cycle) + (e.day - extra);
    }
  }

  function DayOfYear(doe: int): int {
    var yoe := YearOfEra(doe);
    doe - (365 * yoe + yoe / 4 - yoe / 100)
  }

  lemma QuartersAndCenturies(e: EraDay)
    requires InEra(e)
    ensures var yoe := YearOfSplit(e);
            0 <= yoe <= 399 && yoe / 4 == 25 * e.century + e.cycle && yoe / 100 == e.century
  {
    assert 0 <= YearInCycle(e.day) <= 3;
  }

  /** The day counted within its year, for any year and any count that are those of the split day. */
  lemma DayWithinYear(doe: int, e: EraDay, yoe: int)
    requires InEra(e) && doe == Joined(e) && yoe == YearOfSplit(e)
    requires yoe / 4 == 25 * e.century + e.cycle && yoe / 100 == e.century
    ensures doe - (365 * yoe + yoe / 4 - yoe / 100) == DayOfSplit(e)
  {
  }

  /** A year that ends in a leap February has one day more. */
  lemma DayOfSplitFits(e: EraDay)
    requires InEra(e)
    ensures 0 <= DayOfSplit(e) < YearLength(YearOfSplit(e) + 1)
  {
    hide Leap;
    LeapInCycle(e);
  }

  /** Days run through each year in turn. */
  lemma DayOfYearIs(doe: int)
    requires 0 <= doe <= 146096
    ensures 0 <= YearOfEra(doe) <= 399
    ensures 0 <= DayOfYear(doe) < YearLength(YearOfEra(doe) + 1)
    ensures DayOfYear(doe) == DayOfSplit(Split(doe))
  {
    hide YearOfEra, Split, InEra, YearOfSplit, DayOfSplit, YearLength, Joined;
    SplitBounds(doe);
    YearOfEraIs(doe);
    QuartersAndCenturies(Split(doe));
    DayWithinYear(doe, Split(doe), YearOfEra(doe));
    DayOfSplitFits(Split(doe));
  }


  lemma NextCycleDay(e: EraDay, next: EraDay)
    requires InEra(e) && InEra(next) && Follows(e, next)
    ensures if DayOfSplit(e) + 1 < YearLength(YearOfSplit(e) + 1)
            then YearOfSplit(next) == YearOfSplit(e) && DayOfSplit(next) == DayOfSplit(e) + 1
            else YearOfSplit(next) == YearOfSplit(e) + 1 && DayOfSplit(next) == 0
  {
    LeapInCycle(e);
  }

  lemma JoinedNext(e: EraDay, next: EraDay)
    requires InEra(e) && InEra(next) && Joined(next) == Joined(e) + 1
    ensures Follows(e, next)
  {
    if e.century == next.century {
      assert e.cycle == next.cycle || e.cycle + 1 == next.cycle;
    } else {
      assert e.century + 1 == next.century;
    }
  }

  lemma SplitNext(doe: int)
    requires 0 <= doe < 146096
    ensures Follows(Split(doe), Split(doe + 1))
  {
    hide Split, InEra;
    SplitBounds(doe);
    SplitBounds(doe + 1);
    JoinedNext(Split(doe), Split(doe + 1));
  }

  lemma EraDayFacts(doe: int)
    requires 0 <= doe <= 146096
    ensures InEra(Split(doe))
    ensures YearOfEra(doe) == YearOfSplit(Split(doe)) && DayOfYear(doe) == DayOfSplit(Split(doe))
  {
    hide YearOfEra, DayOfYear, Split, YearOfSplit, DayOfSplit, InEra;
    SplitBounds(doe);
    YearOfEraIs(doe);
    DayOfYearIs(doe);
  }

  /** One day later the day of the year is one more, or the next year begins. */
  lemma NextEraDay(doe: int)
    requires 0 <= doe < 146096
    ensures if DayOfYear(doe) + 1 < YearLength(YearOfEra(doe) + 1)
            then YearOfEra(doe + 1) == YearOfEra(doe) && DayOfYear(doe + 1) == DayOfYear(doe) + 1
            else YearOfEra(doe + 1) == YearOfEra(doe) + 1 && DayOfYear(doe + 1) == 0
  {
    hide YearOfEra, DayOfYear, Split, YearOfSplit, DayOfSplit, YearLength, InEra, Follows;
    EraDayFacts(doe);
    EraDayFacts(doe + 1);
    SplitNext(doe);
    NextCycleDay(Split(doe), Split(doe + 1));
  }

  lemma LeapInCentury(century: int, cycle: int, t: int)
    requires 0 <= century <= 3 && 0 <= cycle <= 24 && 0 <= t <= 3
    ensures Leap(100 * century + 4 * cycle + t + 1) <==> t == 3 && (cycle < 24 || century == 3)
  {
    var year := 100 * century + 4 * cycle + t + 1;
    if t < 3 {
      assert year == 4 * (25 * century + cycle) + t + 1;
      assert year % 4 == t + 1;
    } else if cycle < 24 {
      assert year == 4 * (25 * century + cycle + 1) && year == 100 * century + 4 * (cycle + 1);
      assert year % 4 == 0 && year % 100 == 4 * (cycle + 1);
    } else {
      assert year == 100 * (century + 1);
    }
  }

  /** Only the last year of a cycle ends in a leap February, unless it also ends a century that is not the fourth. */
  lemma LeapInCycle(e: EraDay)
    requires InEra(e)
    ensures var t := YearInCycle(e.day);
            Leap(100 * e.century + 4 * e.cycle + t + 1) <==> t == 3 && (e.cycle < 24 || e.century == 3)
  {
    hide Leap;
    LeapInCentury(e.century, e.cycle, YearInCycle(e.day));
  }

  // ----- months counted from March -----

  function MonthOf(doy: int): int {
    var mp := (5 * doy + 2) / 153;
    if mp < 10 then mp + 3 else mp - 9
  }

  function DayOfMonth(doy: int): int {
    var mp := (5 * doy + 2) / 153;
    doy - (153 * mp + 2) / 5 + 1
  }

  /** The date of a day of a year that starts in March of `year`. */
  function MarchDate(year: int, doy: int): Date {
    Date(if MonthOf(doy) <= 2 then year + 1 else year, MonthOf(doy), DayOfMonth(doy))
  }

  function LongestMonth(month: int): int { if month == 2 then 29 else MonthLength(1, month) }

  /** The months of a year that starts in March and has at most 366 days. */
  lemma MonthsFit(doy: int)
    requires 0 <= doy < 366
    ensures 1 <= MonthOf(doy) <= 12 && 1 <= DayOfMonth(doy) <= LongestMonth(MonthOf(doy))
    ensures if MonthOf(doy) == 2 then doy == 336 + DayOfMonth(doy) else doy < 337
    ensures (MonthOf(doy) == 12 <==> 275 <= doy < 306) && (MonthOf(doy) <= 2 <==> doy >= 306)
  {
    var mp := (5 * doy + 2) / 153;
    assert mp == 0 || mp == 1 || mp == 2 || mp == 3 || mp == 4 || mp == 5
        || mp == 6 || mp == 7 || mp == 8 || mp == 9 || mp == 10 || mp == 11;
  }

  /** The months in the order from March, each with its first day. */
  lemma MonthAt(doy: int, mp: int)
    requires 0 <= mp <= 11 && (153 * mp + 2) / 5 <= doy < (153 * (mp + 1) + 2) / 5
    ensures MonthOf(doy) == (if mp < 10 then mp + 3 else mp - 9) && DayOfMonth(doy) == doy - (153 * mp + 2) / 5 + 1
  {
    assert 153 * mp <= 5 * doy + 2 < 153 * (mp + 1);
  }

  lemma MonthsRun(doy: int)
    requires 0 <= doy < 365
    ensures if DayOfMonth(doy) < LongestMonth(MonthOf(doy))
            then MonthOf(doy + 1) == MonthOf(doy) && DayOfMonth(doy + 1) == DayOfMonth(doy) + 1
            else MonthOf(doy + 1) == MonthOf(doy) % 12 + 1 && DayOfMonth(doy + 1) == 1
  {
    hide MonthOf, DayOfMonth;
    var mp := (5 * doy + 2) / 153;
    assert (153 * mp + 2) / 5 <= doy < (153 * (mp + 1) + 2) / 5;
    MonthAt(doy, mp);
    if doy + 1 < (153 * (mp + 1) + 2) / 5 {
      MonthAt(doy + 1, mp);
    } else {
      MonthAt(doy + 1, mp + 1);
    }
    assert mp == 0 || mp == 1 || mp == 2 || mp == 3 || mp == 4 || mp == 5
        || mp == 6 || mp == 7 || mp == 8 || mp == 9 || mp == 10 || mp == 11;
  }

  /** The date of a day of a March year, for any table of months that runs like this one. */
  lemma MarchDateRuns(month: int -> int, day: int -> int, year: int, doy: int)
    requires 0 <= doy < YearLength(year + 1)
    requires 1 <= month(doy) <= 12 && 1 <= day(doy) <= LongestMonth(month(doy))
    requires if month(doy) == 2 then doy == 336 + day(doy) else doy < 337
    requires (month(doy) == 12 <==> 275 <= doy < 306) && (month(doy) <= 2 <==> doy >= 306)
    requires doy < 365 ==> if day(doy) < LongestMonth(month(doy))
                           then month(doy + 1) == month(doy) && day(doy + 1) == day(doy) + 1
                           else month(doy + 1) == month(doy) % 12 + 1 && day(doy + 1) == 1
    requires month(0) == 3 && day(0) == 1
    ensures var date := (y: int, n: int) => Date(if month(n) <= 2 then y + 1 else y, month(n), day(n));
            && ValidDate(date(year, doy))
            && NextDate(date(year, doy))
                  == if doy + 1 < YearLength(year + 1) then date(year, doy + 1) else date(year + 1, 0)
  {
  }

  /** The dates of a year that starts in March are valid and follow one another. */
  lemma MarchDateNext(year: int, doy: int)
    requires 0 <= doy < YearLength(year + 1)
    ensures ValidDate(MarchDate(year, doy))
    ensures NextDate(MarchDate(year, doy))
         == if doy + 1 < YearLength(year + 1) then MarchDate(year, doy + 1) else MarchDate(year + 1, 0)
  {
    MonthsFit(doy);
    if doy < 365 {
      MonthsRun(doy);
    }
    MarchDateRuns(MonthOf, DayOfMonth, year, doy);
  }

  // ----- the conversion -----

  function Era(days: int): int { (days + 719468) / 146097 }

  function DayOfEra(days: int): int { (days + 719468) % 146097 }

  lemma EraIsFloor(days: int)
    ensures var z := days + 719468;
            TruncDiv(if z >= 0 then z else z - 146096, 146097) == Era(days)
  {
    var z := days + 719468;
    if z < 0 {
      var q := (146096 - z) / 146097;
      assert 146097 * q <= 146096 - z < 146097 * (q + 1);
      assert z / 146097 == -q;
    }
  }

  lemma CivilIs(days: int)
    ensures 0 <= DayOfEra(days) <= 146096
    ensures Civil(days) == EraDate(Era(days), DayOfEra(days))
  {
    EraIsFloor(days);
    assert days + 719468 - Era(days) * 146097 == DayOfEra(days);
  }

  lemma YearLengthRepeats(year: int, era: int)
    ensures YearLength(year + 400 * era) == YearLength(year)
  {
    assert (year + 400 * era) / 4 == year / 4 + 100 * era;
    assert (year + 400 * era) / 100 == year / 100 + 4 * era;
    assert (year + 400 * era) / 400 == year / 400 + era;
  }

  /** The date of a day of a March year of an era. */
  function EraMarch(era: int, yoe: int, doy: int): Date { MarchDate(yoe + 400 * era, doy) }

  function EraDate(era: int, doe: int): Date { EraMarch(era, YearOfEra(doe), DayOfYear(doe)) }

  lemma EraMarchNext(era: int, yoe: int, doy: int)
    requires 0 <= doy < YearLength(yoe + 1)
    ensures ValidDate(EraMarch(era, yoe, doy))
    ensures NextDate(EraMarch(era, yoe, doy))
         == if doy + 1 < YearLength(yoe + 1) then EraMarch(era, yoe, doy + 1) else EraMarch(era, yoe + 1, 0)
  {
    YearLengthRepeats(yoe + 1, era);
    assert yoe + 1 + 400 * era == yoe + 400 * era + 1;
    MarchDateNext(yoe + 400 * era, doy);
  }

  lemma LastDayOfEra()
    ensures YearOfEra(146096) == 399 && DayOfYear(146096) == 365 && YearLength(399 + 1) == 366
    ensures YearOfEra(0) == 0 && DayOfYear(0) == 0
  {
  }

  lemma NextEra(era: int)
    ensures EraMarch(era, 399 + 1, 0) == EraMarch(era + 1, 0, 0)
  {
  }

  lemma EraDateNext(era: int, doe: int)
    requires 0 <= doe <= 146096
    ensures ValidDate(EraDate(era, doe))
    ensures NextDate(EraDate(era, doe)) == if doe < 146096 then EraDate(era, doe + 1) else EraDate(era + 1, 0)
  {
    hide YearOfEra, DayOfYear, EraMarch, YearLength, ValidDate, NextDate;
    DayOfYearIs(doe);
    EraMarchNext(era, YearOfEra(doe), DayOfYear(doe));
    if doe < 146096 {
      NextEraDay(doe);
    } else {
      LastDayOfEra();
      NextEra(era);
    }
  }

  lemma NextDayOfEra(days: int)
    ensures if DayOfEra(days) < 146096
            then Era(days + 1) == Era(days) && DayOfEra(days + 1) == DayOfEra(days) + 1
            else Era(days + 1) == Era(days) + 1 && DayOfEra(days + 1) == 0
  {
  }

  // ----- counting days back -----

  lemma DaysBeforeNextYear(year: int)
    ensures DaysBeforeYear(year + 1) == DaysBeforeYear(year) + YearLength(year)
  {
  }

  lemma DaysOfNextDate(date: Date)
    requires ValidDate(date)
    ensures ValidDate(NextDate(date)) && DayNumber(NextDate(date)) == DayNumber(date) + 1
  {
    DaysBeforeNextYear(date.year);
    if date.month == 12 {
      MonthsMakeTheYear(date.year);
    }
  }

  lemma MonthsMakeTheYear(year: int)
    ensures DaysBeforeMonth(year, 12) + 31 == YearLength(year)
  {
    assert DaysBeforeMonth(year, 2) == 31;
    assert DaysBeforeMonth(year, 3) == 31 + MonthLength(year, 2);
    assert DaysBeforeMonth(year, 4) == 62 + MonthLength(year, 2);
    assert DaysBeforeMonth(year, 5) == 92 + MonthLength(year, 2);
    assert DaysBeforeMonth(year, 6) == 123 + MonthLength(year, 2);
    assert DaysBeforeMonth(year, 7) == 153 + MonthLength(year, 2);
    assert DaysBeforeMonth(year, 8) == 184 + MonthLength(year, 2);
    assert DaysBeforeMonth(year, 9) == 215 + MonthLength(year, 2);
    assert DaysBeforeMonth(year, 10) == 245 + MonthLength(year, 2);
    assert DaysBeforeMonth(year, 11) == 276 + MonthLength(year, 2);
  }

  /** Dates that follow one another from the epoch on. */
  ghost predicate Runs(dates: int -> Date) {
    && dates(0) == Date(1970, 1, 1)
    && (forall day :: ValidDate(dates(day)))
    && forall day, next | next == day + 1 :: dates(next) == NextDate(dates(day))
  }

  lemma {:induction false} RunsCountBack(dates: int -> Date, days: int)
    requires Runs(dates)
    ensures DayNumber(dates(days)) == days
    decreases if days >= 0 then days else -days
  {
    if days > 0 {
      RunsCountBack(dates, days - 1);
      DaysOfNextDate(dates(days - 1));
    } else if days < 0 {
      RunsCountBack(dates, days + 1);
      DaysOfNextDate(dates(days));
    }
  }

  lemma EpochIsCivil()
    ensures Civil(0) == Date(1970, 1, 1)
  {
  }

  /** Every integer day gives a valid date, and the day after gives the next date of the calendar. */
  lemma CivilOfNextDay(days: int)
    ensures ValidDate(Civil(days)) && Civil(days + 1) == NextDate(Civil(days))
  {
    hide Civil, EraDate, Era, DayOfEra, ValidDate, NextDate;
    CivilIs(days);
    CivilIs(days + 1);
    EraDateNext(Era(days), DayOfEra(days));
    NextDayOfEra(days);
  }

  lemma CivilRuns()
    ensures Runs(Civil)
  {
    hide Civil, ValidDate, NextDate;
    EpochIsCivil();
    forall day
      ensures ValidDate(Civil(day))
    {
      CivilOfNextDay(day);
    }
    forall day, next | next == day + 1
      ensures Civil(next) == NextDate(Civil(day))
    {
      CivilOfNextDay(day);
    }
  }

  /** For every integer day, counting the days of its date back gives the day. */
  lemma CivilInvertsCounting(days: int)
    ensures ValidDate(Civil(days)) && DayNumber(Civil(days)) == days
  {
    hide Civil;
    CivilRuns();
    RunsCountBack(Civil, days);
  }

  // ----- order -----

  predicate DateBefore(a: Date, b: Date) {
    || a.year < b.year
    || (a.year == b.year && (a.month < b.month || (a.month == b.month && a.day < b.day)))
  }

  lemma {:induction false} LaterDaysHaveLaterDates(dates: int -> Date, a: int, b: int)
    requires Runs(dates) && a < b
    ensures DateBefore(dates(a), dates(b))
    decreases b - a
  {
    if a + 1 < b {
      LaterDaysHaveLaterDates(dates, a, b - 1);
    }
    assert dates(b) == NextDate(dates(b - 1)) && ValidDate(dates(b - 1));
  }

  // ----- the year in 32 bits -----

  /** The first day of the year -2147483648, and the first of the year 2147483648. */
  const FIRST_EXACT_DAY := -784353015833
  const FIRST_WRAPPED_DAY := 784351576777

  lemma WrappedYear(date: Date)
    ensures date.(year := WrapI32(date.year)) == date <==> -0x8000_0000 <= date.year < 0x8000_0000
  {
  }

  lemma YearFitsIff(days: int)
    requires I64(days) && I64(days + 719468)
    ensures CivilFromDays(days) == Civil(days) <==> -0x8000_0000 <= Civil(days).year < 0x8000_0000
  {
    WrappedYear(Civil(days));
  }

  /** The years of days in order start on the days of their first dates. */
  lemma YearsUpTo(dates: int -> Date, first: int, year: int, days: int)
    requires Runs(dates) && dates(first) == Date(year, 1, 1)
    ensures dates(days).year < year <==> days < first
  {
    assert ValidDate(dates(days));
    if days < first {
      LaterDaysHaveLaterDates(dates, days, first);
    } else if first < days {
      LaterDaysHaveLaterDates(dates, first, days);
    }
  }

  lemma JanuaryOfEra(era: int, doe: int, days: int, yoe: int)
    requires days + 719468 == era * 146097 + doe && 0 <= doe <= 146096
    requires YearOfEra(doe) == yoe && DayOfYear(doe) == 306
    ensures Civil(days) == Date(yoe + 1 + 400 * era, 1, 1)
  {
    hide YearOfEra, DayOfYear, Civil;
    CivilIs(days);
    assert Era(days) == era && DayOfEra(days) == doe;
    assert MonthOf(306) == 1 && DayOfMonth(306) == 1;
  }

  lemma EraDaysAtTheLimits()
    ensures YearOfEra(17472) == 47 && DayOfYear(17472) == 306
    ensures YearOfEra(128505) == 351 && DayOfYear(128505) == 306
  {
  }

  lemma DatesAtTheLimits()
    ensures Civil(FIRST_EXACT_DAY) == Date(-0x8000_0000, 1, 1) && Civil(FIRST_WRAPPED_DAY) == Date(0x8000_0000, 1, 1)
  {
    hide YearOfEra, DayOfYear, Civil;
    EraDaysAtTheLimits();
    JanuaryOfEra(5368709, 17472, FIRST_WRAPPED_DAY, 47);
    JanuaryOfEra(-5368710, 128505, FIRST_EXACT_DAY, 351);
  }

  /** The code agrees with the calendar exactly on the days of the years that fit 32 bits. */
  lemma CivilFromDaysExactIff(days: int)
    requires I64(days) && I64(days + 719468)
    ensures CivilFromDays(days) == Civil(days) <==> FIRST_EXACT_DAY <= days < FIRST_WRAPPED_DAY
  {
    hide Civil, CivilFromDays;
    YearFitsIff(days);
    CivilRuns();
    DatesAtTheLimits();
    YearsUpTo(Civil, FIRST_EXACT_DAY, -0x8000_0000, days);
    YearsUpTo(Civil, FIRST_WRAPPED_DAY, 0x8000_0000, days);
  }

  /** The first day after them is reported in the year -2147483648. */
  lemma YearWraps()
    ensures Civil(FIRST_WRAPPED_DAY) == Date(2147483648, 1, 1)
    ensures CivilFromDays(FIRST_WRAPPED_DAY) == Date(-2147483648, 1, 1)
  {
    hide Civil;
    DatesAtTheLimits();
  }

  /** The lengths of the months, and the years with a leap day. */
  lemma GregorianRule(year: int)
    ensures MonthLength(year, 1) == 31 && MonthLength(year, 3) == 31 && MonthLength(year, 4) == 30
    ensures MonthLength(year, 5) == 31 && MonthLength(year, 6) == 30 && MonthLength(year, 7) == 31
    ensures MonthLength(year, 8) == 31 && MonthLength(year, 9) == 30 && MonthLength(year, 10) == 31
    ensures MonthLength(year, 11) == 30 && MonthLength(year, 12) == 31
    ensures MonthLength(year, 2) == if year % 4 == 0 && (year % 100 != 0 || year % 400 == 0) then 29 else 28
  {
  }

  lemma LeapDayOf2000()
    ensures Civil(11016) == Date(2000, 2, 29)
  {
  }

  lemma DayBeforeEpoch()
    ensures Civil(-1) == Date(1969, 12, 31)
  {
  }

  /** Three known days: the epoch, the leap day of 2000 and the day before the epoch. */
  lemma KnownDates()
    ensures CivilFromDays(0) == Date(1970, 1, 1) && CivilFromDays(11016) == Date(2000, 2, 29)
    ensures CivilFromDays(-1) == Date(1969, 12, 31)
  {
    hide Civil;
    EpochIsCivil();
    LeapDayOf2000();
    DayBeforeEpoch();
  }
}
