/** The compact UTC time stamp. */
module Stamp {
  import opened Calendar

  // ----- decimal fields -----

  function Digit(n: int): char
    requires 0 <= n <= 9
  {
    (n + '0' as int) as char
  }

  function Pow10(width: nat): (power: nat)
    ensures power > 0
  { if width == 0 then 1 else 10 * Pow10(width - 1)
  }

  /** The last `width` decimal digits. */
  function Digits(n: nat, width: nat): (s: string)
    ensures |s| == width
  {
    if width == 0 then "" else Digits(n / 10, width - 1) + [Digit(n % 10)]
  }

  function Decimal(n: nat): (s: string)
    ensures s != ""
  {
    if n < 10 then [Digit(n)] else Decimal(n / 10) + [Digit(n % 10)]
  }

  /** Zero-padded to at least `width` characters, a sign included. */
  function Padded(n: int, width: nat): string {
    if n < 0 then "-" + (if width > 0 && -n < Pow10(width - 1) then Digits(-n, width - 1) else Decimal(-n))
    else if n < Pow10(width) then Digits(n, width)
    else Decimal(n)
  }

  function Value(s: string): int {
    if s == "" then 0 else 10 * Value(s[..|s| - 1]) + s[|s| - 1] as int - '0' as int
  }

  /** Comparison of strings, character by character. */
  ghost predicate Before(a: string, b: string) {
    exists k :: 0 <= k < |a| && k < |b| && a[..k] == b[..k] && a[k] < b[k]
  }

  lemma {:induction false} ValueOfDigits(n: nat, width: nat)
    requires n < Pow10(width)
    ensures Value(Digits(n, width)) == n
  {
    if width > 0 {
      ValueOfDigits(n / 10, width - 1);
      assert Digits(n, width)[..width - 1] == Digits(n / 10, width - 1);
    }
  }

  lemma BeforeConcat(a: string, b: string, c: string, d: string)
    requires |a| == |b|
    ensures Before(a, b) ==> Before(a + c, b + d)
    ensures a == b && Before(c, d) ==> Before(a + c, b + d)
  {
    if Before(a, b) {
      var k :| 0 <= k < |a| && k < |b| && a[..k] == b[..k] && a[k] < b[k];
      assert (a + c)[..k] == a[..k] && (b + d)[..k] == b[..k];
    }
    if a == b && Before(c, d) {
      var k :| 0 <= k < |c| && k < |d| && c[..k] == d[..k] && c[k] < d[k];
      var j := |a| + k;
      assert (a + c)[..j] == a + c[..k] && (b + d)[..j] == b + d[..k];
      assert (a + c)[j] == c[k] && (b + d)[j] == d[k];
    }
  }

  lemma {:induction false} DigitsInOrder(m: nat, n: nat, width: nat)
    requires m < n < Pow10(width)
    ensures Before(Digits(m, width), Digits(n, width))
  {
    if m / 10 < n / 10 {
      DigitsInOrder(m / 10, n / 10, width - 1);
    } else {
      var c, d := [Digit(m % 10)], [Digit(n % 10)];
      assert c[..0] == d[..0] && c[0] < d[0];
    }
    BeforeConcat(Digits(m / 10, width - 1), Digits(n / 10, width - 1), [Digit(m % 10)], [Digit(n % 10)]);
  }

  // ----- the stamp -----

  datatype Moment = Moment(date: Date, hour: int, minute: int, second: int)

  function MomentWith(dates: int -> Date, secs: nat): Moment {
    var rem := secs % 86400;
    Moment(dates(secs / 86400), rem / 3600, rem % 3600 / 60, rem % 60)
  }

  function Concat(parts: seq<string>): string {
    if parts == [] then "" else parts[0] + Concat(parts[1..])
  }

  function Render(t: Moment): string {
    Concat([Padded(t.date.year, 4), Padded(t.date.month, 2), Padded(t.date.day, 2), "T",
            Padded(t.hour, 2), Padded(t.minute, 2), Padded(t.second, 2), "Z"])
  }

  function MomentOf(secs: nat): Moment
    requires secs < 0x1_0000_0000_0000_0000
  {
    var rem := secs % 86400;
    Moment(CivilFromDays(secs / 86400), rem / 3600, rem % 3600 / 60, rem % 60)
  }

  function UtcCompact(secs: nat): string
    requires secs < 0x1_0000_0000_0000_0000
  {
    Render(MomentOf(secs))
  }

  /** The first second after the end of the year 9999. */
  const END_OF_9999 := 253402300800

  /** Every field fits its width. */
  predicate Fits(t: Moment) {
    && ValidDate(t.date) && 0 <= t.date.year <= 9999
    && 0 <= t.hour < 24 && 0 <= t.minute < 60 && 0 <= t.second < 60
  }

  function Fields(t: Moment): seq<string>
    requires Fits(t)
  {
    [Digits(t.date.year, 4), Digits(t.date.month, 2), Digits(t.date.day, 2), "T",
     Digits(t.hour, 2), Digits(t.minute, 2), Digits(t.second, 2), "Z"]
  }

  lemma RenderFields(t: Moment)
    requires Fits(t)
    ensures Render(t) == Concat(Fields(t))
  {
    assert Pow10(2) == 100 && Pow10(4) == 10000;
  }

  /** Reading a stamp of sixteen characters back: the date by counting days, then the time. */
  ghost function Decoded(stamp: string): int
    requires |stamp| == 16
  {
    var date := Date(Value(stamp[..4]), Value(stamp[4..6]), Value(stamp[6..8]));
    (if ValidDate(date) then DayNumber(date) else 0) * 86400
      + Value(stamp[9..11]) * 3600 + Value(stamp[11..13]) * 60 + Value(stamp[13..15])
  }

  // ----- the moments of the stamps -----

  predicate MomentBefore(t: Moment, u: Moment) {
    || DateBefore(t.date, u.date)
    || (t.date == u.date && (t.hour < u.hour
         || (t.hour == u.hour && (t.minute < u.minute || (t.minute == u.minute && t.second < u.second)))))
  }

  lemma TimeOfDay(rem: int)
    requires 0 <= rem < 86400
    ensures 0 <= rem / 3600 < 24 && 0 <= rem % 3600 / 60 < 60 && 0 <= rem % 60 < 60
    ensures rem / 3600 * 3600 + rem % 3600 / 60 * 60 + rem % 60 == rem
  {
    assert rem % 3600 % 60 == rem % 60;
  }

  lemma LaterTimes(r: int, s: int)
    requires 0 <= r < s < 86400
    ensures var date := Date(0, 0, 0);
            MomentBefore(Moment(date, r / 3600, r % 3600 / 60, r % 60), Moment(date, s / 3600, s % 3600 / 60, s % 60))
  {
    TimeOfDay(r);
    TimeOfDay(s);
  }

  lemma LaterMoments(dates: int -> Date, a: nat, b: nat)
    requires Runs(dates) && a < b
    ensures MomentBefore(MomentWith(dates, a), MomentWith(dates, b))
  {
    if a / 86400 < b / 86400 {
      LaterDaysHaveLaterDates(dates, a / 86400, b / 86400);
    } else {
      LaterTimes(a % 86400, b % 86400);
    }
  }

  lemma MomentFits(dates: int -> Date, secs: nat)
    requires Runs(dates) && dates(2932897) == Date(10000, 1, 1) && secs < END_OF_9999
    ensures Fits(MomentWith(dates, secs)) && 1970 <= MomentWith(dates, secs).date.year
  {
    var days := secs / 86400;
    TimeOfDay(secs % 86400);
    LaterDaysHaveLaterDates(dates, days, 2932897);
    if days > 0 {
      LaterDaysHaveLaterDates(dates, 0, days);
    }
    assert ValidDate(dates(days));
  }

  lemma LastOf9999()
    ensures Civil(2932896) == Date(9999, 12, 31)
  {
  }

  lemma LastJanuaryOfEra()
    ensures YearOfEra(146037) == 399 && DayOfYear(146037) == 306
  {
  }

  lemma FirstOf10000()
    ensures Civil(2932897) == Date(10000, 1, 1)
  {
    hide Civil, YearOfEra, DayOfYear;
    LastJanuaryOfEra();
    JanuaryOfEra(24, 146037, 2932897, 399);
  }

  /** Up to the end of 9999 the 32-bit year loses nothing. */
  lemma MomentOfCivil(secs: nat)
    requires secs < END_OF_9999
    ensures Runs(Civil) && MomentOf(secs) == MomentWith(Civil, secs) && Fits(MomentOf(secs))
  {
    hide Civil;
    CivilRuns();
    FirstOf10000();
    MomentFits(Civil, secs);
    CivilFromDaysExactIff(secs / 86400);
  }

  // ----- order -----

  /** Parts of equal widths compare like their first difference. */
  lemma {:induction false} ConcatInOrder(a: seq<string>, b: seq<string>, k: nat)
    requires |a| == |b| && k < |a|
    requires forall i | 0 <= i < |a| :: |a[i]| == |b[i]|
    requires (forall i | 0 <= i < k :: a[i] == b[i]) && Before(a[k], b[k])
    ensures Before(Concat(a), Concat(b))
  {
    BeforeConcat(a[0], b[0], Concat(a[1..]), Concat(b[1..]));
    if k > 0 {
      ConcatInOrder(a[1..], b[1..], k - 1);
    }
  }

  /** Fields of the same width, the earlier with the smaller value. */
  lemma FieldInOrder(m: int, n: int)
    requires 0 <= m < n
    ensures n < 100 ==> Before(Digits(m, 2), Digits(n, 2))
    ensures n < 10000 ==> Before(Digits(m, 4), Digits(n, 4))
  {
    assert Pow10(2) == 100 && Pow10(4) == 10000;
    if n < 100 {
      DigitsInOrder(m, n, 2);
    }
    if n < 10000 {
      DigitsInOrder(m, n, 4);
    }
  }

  lemma FieldsInOrder(t: Moment, u: Moment) returns (k: nat)
    requires Fits(t) && Fits(u) && MomentBefore(t, u)
    ensures k < 8 && Before(Fields(t)[k], Fields(u)[k])
    ensures forall i | 0 <= i < k :: Fields(t)[i] == Fields(u)[i]
  {
    hide Digits, Before;
    if t.date.year < u.date.year {
      k := 0;
      FieldInOrder(t.date.year, u.date.year);
    } else if t.date.month < u.date.month {
      k := 1;
      FieldInOrder(t.date.month, u.date.month);
    } else if t.date.day < u.date.day {
      k := 2;
      FieldInOrder(t.date.day, u.date.day);
    } else if t.hour < u.hour {
      k := 4;
      FieldInOrder(t.hour, u.hour);
    } else if t.minute < u.minute {
      k := 5;
      FieldInOrder(t.minute, u.minute);
    } else {
      k := 6;
      FieldInOrder(t.second, u.second);
    }
  }

  lemma RenderInOrder(t: Moment, u: Moment)
    requires Fits(t) && Fits(u) && MomentBefore(t, u)
    ensures Before(Render(t), Render(u))
  {
    RenderFields(t);
    RenderFields(u);
    var k := FieldsInOrder(t, u);
    ConcatInOrder(Fields(t), Fields(u), k);
  }

  /** Through the end of 9999 a later second has a later stamp. */
  lemma StampsIncrease(a: nat, b: nat)
    requires a < b < END_OF_9999
    ensures Before(UtcCompact(a), UtcCompact(b))
  {
    hide Civil, Render, Before, Fits, MomentOf, MomentWith;
    MomentOfCivil(a);
    MomentOfCivil(b);
    LaterMoments(Civil, a, b);
    RenderInOrder(MomentOf(a), MomentOf(b));
  }

  // ----- reading back -----

  lemma ConcatOfEight(p: seq<string>)
    requires |p| == 8
    ensures Concat(p) == p[0] + (p[1] + (p[2] + (p[3] + (p[4] + (p[5] + (p[6] + p[7]))))))
  {
    assert p[7..][1..] == [] && p[6..][1..] == p[7..] && p[5..][1..] == p[6..] && p[4..][1..] == p[5..];
    assert p[3..][1..] == p[4..] && p[2..][1..] == p[3..] && p[1..][1..] == p[2..];
    assert Concat(p[7..]) == p[7];
    assert Concat(p[6..]) == p[6] + Concat(p[7..]) && Concat(p[5..]) == p[5] + Concat(p[6..]);
    assert Concat(p[4..]) == p[4] + Concat(p[5..]) && Concat(p[3..]) == p[3] + Concat(p[4..]);
    assert Concat(p[2..]) == p[2] + Concat(p[3..]) && Concat(p[1..]) == p[1] + Concat(p[2..]);
  }

  lemma SliceFields(p: seq<string>, stamp: string)
    requires |p| == 8 && stamp == Concat(p)
    requires |p[0]| == 4 && |p[3]| == |p[7]| == 1
    requires |p[1]| == |p[2]| == |p[4]| == |p[5]| == |p[6]| == 2
    ensures |stamp| == 16
    ensures stamp[..4] == p[0] && stamp[4..6] == p[1] && stamp[6..8] == p[2]
    ensures stamp[9..11] == p[4] && stamp[11..13] == p[5] && stamp[13..15] == p[6]
  {
    ConcatOfEight(p);
  }

  lemma FieldValue(m: nat)
    ensures m < 100 ==> Value(Digits(m, 2)) == m
    ensures m < 10000 ==> Value(Digits(m, 4)) == m
  {
    assert Pow10(2) == 100 && Pow10(4) == 10000;
    if m < 100 {
      ValueOfDigits(m, 2);
    }
    if m < 10000 {
      ValueOfDigits(m, 4);
    }
  }

  lemma FieldValues(t: Moment)
    requires Fits(t)
    ensures Value(Fields(t)[0]) == t.date.year && Value(Fields(t)[1]) == t.date.month
    ensures Value(Fields(t)[2]) == t.date.day && Value(Fields(t)[4]) == t.hour
    ensures Value(Fields(t)[5]) == t.minute && Value(Fields(t)[6]) == t.second
  {
    hide Digits, Value;
    FieldValue(t.date.year);
    FieldValue(t.date.month);
    FieldValue(t.date.day);
    FieldValue(t.hour);
    FieldValue(t.minute);
    FieldValue(t.second);
  }

  lemma RenderDecodes(t: Moment)
    requires Fits(t)
    ensures |Render(t)| == 16
    ensures Decoded(Render(t)) == DayNumber(t.date) * 86400 + t.hour * 3600 + t.minute * 60 + t.second
  {
    RenderFields(t);
    SliceFields(Fields(t), Render(t));
    FieldValues(t);
    assert Date(t.date.year, t.date.month, t.date.day) == t.date;
  }

  /** Through the end of 9999 the stamp has sixteen characters and reads back as its second. */
  lemma StampsDecode(secs: nat)
    requires secs < END_OF_9999
    ensures |UtcCompact(secs)| == 16 && Decoded(UtcCompact(secs)) == secs
  {
    hide Civil, Render, Decoded, Fits, DayNumber;
    MomentOfCivil(secs);
    RenderDecodes(MomentOf(secs));
    RunsCountBack(Civil, secs / 86400);
    TimeOfDay(secs % 86400);
  }

  // ----- the characters -----

  /** The character at a place is this decimal digit. */
  predicate DigitAt(s: string, i: nat, digit: int) { i < |s| && s[i] as int == 48 + digit }

  lemma FieldDigits(n: nat)
    ensures DigitAt(Digits(n, 2), 0, n / 10 % 10) && DigitAt(Digits(n, 2), 1, n % 10)
    ensures DigitAt(Digits(n, 4), 0, n / 1000 % 10) && DigitAt(Digits(n, 4), 1, n / 100 % 10)
    ensures DigitAt(Digits(n, 4), 2, n / 10 % 10) && DigitAt(Digits(n, 4), 3, n % 10)
  {
    assert Digits(n, 4) == Digits(n / 10 / 10, 2) + [Digit(n / 10 % 10)] + [Digit(n % 10)];
    TwoDigits(n);
    TwoDigits(n / 10 / 10);
    assert n / 10 / 10 == n / 100 && n / 10 / 10 / 10 == n / 1000;
  }

  lemma TwoDigits(n: nat)
    ensures Digits(n, 2) == [Digit(n / 10 % 10), Digit(n % 10)]
  {
    assert Digits(n / 10, 1) == Digits(n / 10 / 10, 0) + [Digit(n / 10 % 10)];
  }

  lemma SmallField(n: nat)
    requires n < 100
    ensures DigitAt(Digits(n, 2), 0, n / 10) && DigitAt(Digits(n, 2), 1, n % 10)
  {
    hide Digits;
    FieldDigits(n);
    assert n / 10 % 10 == n / 10;
  }

  lemma DateIsSmall(date: Date)
    requires ValidDate(date)
    ensures 0 < date.month <= 12 && 0 < date.day <= 31
  {
  }

  lemma EightPlaces(p: seq<string>, stamp: string)
    requires |p| == 8 && stamp == Concat(p)
    requires |p[0]| == 4 && |p[3]| == |p[7]| == 1
    requires |p[1]| == |p[2]| == |p[4]| == |p[5]| == |p[6]| == 2
    ensures |stamp| == 16 && stamp[8] == p[3][0] && stamp[15] == p[7][0]
    ensures forall i | 0 <= i < 4 :: stamp[i] == p[0][i]
    ensures forall i | 0 <= i < 2 :: stamp[4 + i] == p[1][i] && stamp[6 + i] == p[2][i]
    ensures forall i | 0 <= i < 2 :: stamp[9 + i] == p[4][i] && stamp[11 + i] == p[5][i] && stamp[13 + i] == p[6][i]
  {
    ConcatOfEight(p);
  }

  /** Year, month and day, a `T`, hour, minute and second, a `Z`. */
  lemma RenderIs(t: Moment)
    requires Fits(t)
    ensures |Render(t)| == 16
    ensures DigitAt(Render(t), 0, t.date.year / 1000) && DigitAt(Render(t), 1, t.date.year / 100 % 10)
    ensures DigitAt(Render(t), 2, t.date.year / 10 % 10) && DigitAt(Render(t), 3, t.date.year % 10)
    ensures DigitAt(Render(t), 4, t.date.month / 10) && DigitAt(Render(t), 5, t.date.month % 10)
    ensures DigitAt(Render(t), 6, t.date.day / 10) && DigitAt(Render(t), 7, t.date.day % 10)
    ensures Render(t)[8] == 'T' && Render(t)[15] == 'Z'
    ensures DigitAt(Render(t), 9, t.hour / 10) && DigitAt(Render(t), 10, t.hour % 10)
    ensures DigitAt(Render(t), 11, t.minute / 10) && DigitAt(Render(t), 12, t.minute % 10)
    ensures DigitAt(Render(t), 13, t.second / 10) && DigitAt(Render(t), 14, t.second % 10)
  {
    hide Digits, Render, Concat, ValidDate;
    RenderFields(t);
    EightPlaces(Fields(t), Render(t));
    FieldDigits(t.date.year);
    DateIsSmall(t.date);
    SmallField(t.date.month);
    SmallField(t.date.day);
    SmallField(t.hour);
    SmallField(t.minute);
    SmallField(t.second);
  }

  /** The stamps of the first second of 1970 and of the last on the leap day of 2000. */
  lemma KnownStamps()
    ensures UtcCompact(0) == "19700101T000000Z" && UtcCompact(951868799) == "20000229T235959Z"
  {
    hide Render, Digits, Concat, CivilFromDays;
    KnownDates();
    EpochStamp(MomentOf(0));
    LeapDayStamp(MomentOf(951868799));
  }

  lemma EpochStamp(t: Moment)
    requires t == Moment(Date(1970, 1, 1), 0, 0, 0)
    ensures Render(t) == "19700101T000000Z"
  {
    hide Render;
    RenderIs(t);
  }

  lemma LeapDayStamp(t: Moment)
    requires t == Moment(Date(2000, 2, 29), 23, 59, 59)
    ensures Render(t) == "20000229T235959Z"
  {
    hide Render;
    RenderIs(t);
  }

  /** No zeros in front, and the value is the number. */
  lemma {:induction false} DecimalIs(n: nat)
    ensures Value(Decimal(n)) == n && (n > 0 ==> Decimal(n)[0] != '0')
    ensures forall i | 0 <= i < |Decimal(n)| :: '0' <= Decimal(n)[i] <= '9'
  {
    if n >= 10 {
      DecimalIs(n / 10);
      assert Decimal(n)[..|Decimal(n)| - 1] == Decimal(n / 10);
    }
  }

  lemma {:induction false} DigitsAreDigits(n: nat, width: nat)
    ensures forall i | 0 <= i < width :: '0' <= Digits(n, width)[i] <= '9'
  {
    if width > 0 {
      DigitsAreDigits(n / 10, width - 1);
    }
  }

  /** A padded number is its value in digits, with zeros in front only up to the width; a sign takes one place. */
  lemma PaddedIs(n: int, width: nat)
    requires width > 0
    ensures |Padded(n, width)| >= width
    ensures var digits := if n < 0 then Padded(n, width)[1..] else Padded(n, width);
            && (n < 0 ==> Padded(n, width)[0] == '-')
            && Value(digits) == (if n < 0 then -n else n)
            && (forall i | 0 <= i < |digits| :: '0' <= digits[i] <= '9')
            && (|Padded(n, width)| > width ==> digits[0] != '0')
  {
    hide Digits, Decimal, Value;
    var size, room := if n < 0 then -n else n, if n < 0 then width - 1 else width;
    DecimalIs(size);
    DigitsAreDigits(size, room);
    if size < Pow10(room) {
      ValueOfDigits(size, room);
    } else {
      WideDecimal(size, room);
    }
  }

  lemma {:induction false} WideDecimal(n: nat, width: nat)
    requires n >= Pow10(width)
    ensures |Decimal(n)| > width
  {
    if width > 0 {
      WideDecimal(n / 10, width - 1);
    }
  }

  // ----- the limit of the order -----

  lemma FirstStays(n: nat)
    requires n >= 10
    ensures Decimal(n)[0] == Decimal(n / 10)[0]
  {
  }

  lemma FirstDigits()
    ensures Decimal(10000)[0] == '1' && Digits(9999, 4)[0] == '9'
  {
    FirstStays(10000);
    FirstStays(1000);
    FirstStays(100);
    FirstStays(10);
    assert Digits(9999, 4)[0] == Digits(999, 3)[0] == Digits(99, 2)[0] == Digits(9, 1)[0];
  }

  lemma SmallerFirst(a: string, b: string)
    requires a != "" && b != "" && a[0] < b[0]
    ensures Before(a, b)
  {
    assert a[..0] == b[..0];
  }

  /** A year of five digits sorts before the year 9999. */
  lemma FiveDigitYears(t: Moment, u: Moment)
    requires t.date.year == 9999 && u.date.year == 10000
    ensures Before(Render(u), Render(t))
  {
    assert Pow10(4) == 10000;
    FirstDigits();
    assert Render(t)[0] == Digits(9999, 4)[0];
    assert Render(u)[0] == Decimal(u.date.year)[0];
    SmallerFirst(Render(u), Render(t));
  }

  lemma MomentYear(secs: nat, days: int, date: Date)
    requires secs < 0x1_0000_0000_0000_0000 && secs / 86400 == days && Civil(days) == date
    requires -0x8000_0000 <= date.year < 0x8000_0000
    ensures MomentOf(secs).date.year == date.year
  {
    hide Civil;
    YearFitsIff(days);
  }

  /** The first stamp of the year 10000 sorts before the last of 9999. */
  lemma StampsStopIncreasing()
    ensures Before(UtcCompact(END_OF_9999), UtcCompact(END_OF_9999 - 1))
  {
    hide Civil;
    LastOf9999();
    FirstOf10000();
    MomentYear(END_OF_9999 - 1, 2932896, Date(9999, 12, 31));
    MomentYear(END_OF_9999, 2932897, Date(10000, 1, 1));
    FiveDigitYears(MomentOf(END_OF_9999 - 1), MomentOf(END_OF_9999));
  }

  lemma BeforeIsAsymmetric(a: string, b: string)
    requires Before(a, b)
    ensures !Before(b, a)
  {
    var k :| 0 <= k < |a| && k < |b| && a[..k] == b[..k] && a[k] < b[k];
    forall j | 0 <= j < |b| && j < |a|
      ensures !(b[..j] == a[..j] && b[j] < a[j])
    {
      if k < j {
        assert b[..j][k] == b[k] && a[..j][k] == a[k];
      } else if j < k {
        assert b[..k][j] == b[j] && a[..k][j] == a[j];
      }
    }
  }

  ghost predicate InOrderBelow(n: nat)
    requires n <= 0x1_0000_0000_0000_0000
  {
    forall a: nat, b: nat | a < b < n :: Before(UtcCompact(a), UtcCompact(b))
  }

  /** The stamps of the seconds below a limit are in order exactly up to the end of 9999. */
  lemma StampsIncreaseIff(n: nat)
    requires n <= 0x1_0000_0000_0000_0000
    ensures InOrderBelow(n) <==> n <= END_OF_9999
  {
    hide UtcCompact, Before;
    if n <= END_OF_9999 {
      forall a: nat, b: nat | a < b < n
        ensures Before(UtcCompact(a), UtcCompact(b))
      {
        StampsIncrease(a, b);
      }
    } else {
      StampsStopIncreasing();
      BeforeIsAsymmetric(UtcCompact(END_OF_9999), UtcCompact(END_OF_9999 - 1));
      assert END_OF_9999 - 1 < END_OF_9999 < n;
    }
  }
}
