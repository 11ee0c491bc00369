/**
 * Request time stamps such as 20240229T235959Z: the calendar arithmetic of the platform's Date
 * and the parser that accepts a stamp only when it formats back to itself.
 */
module AmzDate {
  import opened Wrappers
  import opened CodeOrder

  datatype Civil = Civil(year: int, month: int, day: int, hour: int, minute: int, second: int)

  predicate Leap(year: int) {
    year % 4 == 0 && (year % 100 != 0 || year % 400 == 0)
  }

  /** Days of the year before the month, counted from zero. */
  function DaysBefore(leap: bool, month: nat): nat
    requires month <= 12
  {
    var extra := if leap && month >= 2 then 1 else 0;
    extra + if month == 0 then 0 else if month == 1 then 31 else if month == 2 then 59 else if month == 3 then 90
    else if month == 4 then 120 else if month == 5 then 151 else if month == 6 then 181 else if month == 7 then 212
    else if month == 8 then 243 else if month == 9 then 273 else if month == 10 then 304 else if month == 11 then 334
    else 365
  }

  function YearDays(year: int): (n: nat)
    ensures 365 <= n <= 366
  {
    if Leap(year) then 366 else 365
  }

  /** Days from 1 January 1970 to 1 January of the year, counted year by year. */
  function DayFromYear(year: int): int
    decreases if year < 1970 then 1970 - year else year - 1970
  {
    if year == 1970 then 0
    else if year > 1970 then DayFromYear(year - 1) + YearDays(year - 1)
    else DayFromYear(year + 1) - YearDays(year)
  }

  /** `Date.UTC` for a year from 100 on, in seconds: out-of-range fields carry into the larger ones. */
  function Seconds(c: Civil): int {
    var year := c.year + (c.month - 1) / 12;
    var month := (c.month - 1) % 12;
    86400 * (DayFromYear(year) + DaysBefore(Leap(year), month) + c.day - 1)
    + 3600 * c.hour + 60 * c.minute + c.second
  }

  /** Twelve months more are a year more, and the smaller fields count on however far they go. */
  lemma FieldsCarry(c: Civil, n: int)
    ensures Seconds(c.(month := c.month + 12)) == Seconds(c.(year := c.year + 1))
    ensures Seconds(c.(day := c.day + n)) == Seconds(c) + 86400 * n
    ensures Seconds(c.(hour := c.hour + n)) == Seconds(c) + 3600 * n
    ensures Seconds(c.(minute := c.minute + n)) == Seconds(c) + 60 * n
    ensures Seconds(c.(second := c.second + n)) == Seconds(c) + n
  {
    TwelveMonths(c.month - 1);
  }

  lemma TwelveMonths(m: int)
    ensures (m + 12) / 12 == m / 12 + 1 && (m + 12) % 12 == m % 12
  {}

  /** `Date.UTC`, which reads the years 0 to 99 as 1900 to 1999. */
  function DateUTC(c: Civil): int {
    Seconds(if 0 <= c.year <= 99 then c.(year := 1900 + c.year) else c)
  }

  /** A second that exists in the calendar. */
  predicate Real(c: Civil) {
    && 1 <= c.month <= 12
    && 1 <= c.day <= DaysBefore(Leap(c.year), c.month) - DaysBefore(Leap(c.year), c.month - 1)
    && 0 <= c.hour < 24 && 0 <= c.minute < 60 && 0 <= c.second < 60
  }

  lemma YearLength(year: int)
    ensures DayFromYear(year + 1) == DayFromYear(year) + YearDays(year)
    ensures YearDays(year) == DaysBefore(Leap(year), 12)
  {}

  /** `getUTCFullYear` of a day: the year it lies in, searched from a guess. */
  function YearOfDay(day: int, guess: int): (year: int)
    ensures DayFromYear(year) <= day < DayFromYear(year + 1)
    decreases if day < DayFromYear(guess) then DayFromYear(guess) - day else day - DayFromYear(guess)
  {
    YearLength(guess);
    YearLength(guess - 1);
    if day < DayFromYear(guess) then
      if DayFromYear(guess - 1) <= day then guess - 1 else YearOfDay(day, guess - 1)
    else if day >= DayFromYear(guess + 1) then YearOfDay(day, guess + 1)
    else guess
  }

  function MonthOfDay(leap: bool, dayOfYear: nat, guess: nat): (month: nat)
    requires guess < 12 && DaysBefore(leap, guess) <= dayOfYear < DaysBefore(leap, 12)
    ensures month < 12 && DaysBefore(leap, month) <= dayOfYear < DaysBefore(leap, month + 1)
    decreases 12 - guess
  {
    if dayOfYear < DaysBefore(leap, guess + 1) then guess else MonthOfDay(leap, dayOfYear, guess + 1)
  }

  /** The UTC fields of a time. */
  function FromSeconds(t: int): Civil {
    var day, rest := t / 86400, t % 86400;
    var year := YearOfDay(day, 1970);
    YearLength(year);
    var dayOfYear := day - DayFromYear(year);
    var month := MonthOfDay(Leap(year), dayOfYear, 0);
    Civil(year, month + 1, dayOfYear - DaysBefore(Leap(year), month) + 1, rest / 3600, rest % 3600 / 60, rest % 60)
  }

  // ---------- calendar arithmetic ----------

  lemma MonthArithmetic(month: int)
    requires 1 <= month <= 12
    ensures (month - 1) / 12 == 0 && (month - 1) % 12 == month - 1
  {}

  lemma ClockArithmetic(rest: int)
    requires 0 <= rest < 86400
    ensures rest == 3600 * (rest / 3600) + 60 * (rest % 3600 / 60) + rest % 60
    ensures 0 <= rest / 3600 < 24 && 0 <= rest % 3600 / 60 < 60 && 0 <= rest % 60 < 60
  {
    var r := rest % 3600;
    assert rest == 3600 * (rest / 3600) + r;
    assert r == 60 * (r / 60) + r % 60;
    assert rest % 60 == r % 60;
  }

  /** Every time has real calendar fields, which denote it. */
  lemma FieldsDenote(t: int)
    ensures Real(FromSeconds(t)) && Seconds(FromSeconds(t)) == t
  {
    var c := FromSeconds(t);
    var year := YearOfDay(t / 86400, 1970);
    YearLength(year);
    ClockArithmetic(t % 86400);
    MonthArithmetic(c.month);
    assert t == 86400 * (t / 86400) + t % 86400;
  }

  predicate Earlier(c: Civil, d: Civil) {
    || c.year < d.year
    || (c.year == d.year && c.month < d.month)
    || (c.year == d.year && c.month == d.month && c.day < d.day)
    || (c.year == d.year && c.month == d.month && c.day == d.day && EarlierInDay(c, d))
  }

  predicate EarlierInDay(c: Civil, d: Civil) {
    || c.hour < d.hour
    || (c.hour == d.hour && c.minute < d.minute)
    || (c.hour == d.hour && c.minute == d.minute && c.second < d.second)
  }

  lemma {:induction false} YearsAscend(y: int, z: int)
    requires y <= z
    ensures DayFromYear(y) <= DayFromYear(z)
    decreases z - y
  {
    if y == z {
    } else {
      YearsAscend(y, z - 1);
      YearLength(z - 1);
    }
  }

  lemma WithinYear(c: Civil)
    requires Real(c)
    ensures Seconds(c) == 86400 * (DayFromYear(c.year) + DaysBefore(Leap(c.year), c.month - 1) + c.day - 1)
                          + 3600 * c.hour + 60 * c.minute + c.second
    ensures 86400 * DayFromYear(c.year) <= Seconds(c) < 86400 * DayFromYear(c.year + 1)
  {
    MonthArithmetic(c.month);
    YearLength(c.year);
    MonthsAscend(Leap(c.year), c.month, 12);
  }

  lemma MonthsAscend(leap: bool, m: nat, n: nat)
    requires m <= n <= 12
    ensures DaysBefore(leap, m) <= DaysBefore(leap, n)
  {}

  /** On real fields the calendar order is the order of the times. */
  lemma EarlierIsBefore(c: Civil, d: Civil)
    requires Real(c) && Real(d) && Earlier(c, d)
    ensures Seconds(c) < Seconds(d)
  {
    WithinYear(c);
    WithinYear(d);
    if c.year < d.year {
      YearsAscend(c.year + 1, d.year);
    } else if c.month < d.month {
      MonthsAscend(Leap(c.year), c.month, d.month - 1);
    }
  }

  lemma ChronologicalIff(c: Civil, d: Civil)
    requires Real(c) && Real(d)
    ensures Seconds(c) < Seconds(d) <==> Earlier(c, d)
    ensures Seconds(c) == Seconds(d) <==> c == d
  {
    if Earlier(c, d) { EarlierIsBefore(c, d); }
    if Earlier(d, c) { EarlierIsBefore(d, c); }
  }

  /** Real fields survive the trip through a time. */
  lemma RealFieldsReturn(c: Civil)
    requires Real(c)
    ensures FromSeconds(Seconds(c)) == c
  {
    FieldsDenote(Seconds(c));
    ChronologicalIff(FromSeconds(Seconds(c)), c);
  }

  // ---------- the calendar itself ----------

  lemma QuotientSteps(x: int)
    ensures (x + 1) / 4 == x / 4 + if (x + 1) % 4 == 0 then 1 else 0
    ensures (x + 1) / 100 == x / 100 + if (x + 1) % 100 == 0 then 1 else 0
    ensures (x + 1) / 400 == x / 400 + if (x + 1) % 400 == 0 then 1 else 0
  {}

  /** The leap days of the Gregorian rule before a year, counted from 1970. */
  function LeapDays(year: int): int {
    (year - 1969) / 4 - (year - 1901) / 100 + (year - 1601) / 400
  }

  lemma LeapDaysStep(year: int)
    ensures LeapDays(year + 1) == LeapDays(year) + YearDays(year) - 365
  {
    ShiftedYears(year);
    QuotientSteps(year - 1969);
    QuotientSteps(year - 1901);
    QuotientSteps(year - 1601);
    LeapByCounts(year);
  }

  lemma ShiftedYears(year: int)
    ensures (year - 1968) % 4 == year % 4
    ensures (year - 1900) % 100 == year % 100
    ensures (year - 1600) % 400 == year % 400
  {
    ShiftedBy1968(year);
    ShiftedBy1900(year);
    ShiftedBy1600(year);
  }

  lemma ShiftedBy1968(year: int)
    ensures (year - 1968) % 4 == year % 4
  {}

  lemma ShiftedBy1900(year: int)
    ensures (year - 1900) % 100 == year % 100
  {}

  lemma ShiftedBy1600(year: int)
    ensures (year - 1600) % 400 == year % 400
  {}

  /** A year divisible by 400 is divisible by 100, and one divisible by 100 is divisible by 4. */
  lemma LeapByCounts(year: int)
    ensures YearDays(year) - 365 ==
            (if year % 4 == 0 then 1 else 0) - (if year % 100 == 0 then 1 else 0) + if year % 400 == 0 then 1 else 0
  {
    HundredsAreFours(year / 100);
    FourHundredsAreHundreds(year / 400);
    assert year == 100 * (year / 100) + year % 100;
    assert year == 400 * (year / 400) + year % 400;
  }

  lemma HundredsAreFours(k: int)
    ensures 100 * k % 4 == 0
  {}

  lemma FourHundredsAreHundreds(k: int)
    ensures 400 * k % 100 == 0
  {}

  /** The years counted one by one follow the closed form of the Gregorian calendar, in both directions. */
  lemma {:induction false} DayFromYearClosed(year: int)
    ensures DayFromYear(year) == 365 * (year - 1970) + (year - 1969) / 4 - (year - 1901) / 100 + (year - 1601) / 400
    decreases if year < 1970 then 1970 - year else year - 1970
  {
    if year == 1970 {
    } else if year > 1970 {
      DayFromYearClosed(year - 1);
      LeapDaysStep(year - 1);
    } else {
      DayFromYearClosed(year + 1);
      LeapDaysStep(year);
    }
  }

  function MonthLength(year: int, month: int): int {
    if month in {4, 6, 9, 11} then 30
    else if month != 2 then 31
    else if year % 4 == 0 && (year % 100 != 0 || year % 400 == 0) then 29
    else 28
  }

  lemma RealIff(c: Civil)
    ensures Real(c) <==> && 1 <= c.month <= 12 && 1 <= c.day <= MonthLength(c.year, c.month)
                         && 0 <= c.hour < 24 && 0 <= c.minute < 60 && 0 <= c.second < 60
  {}

  function NextDay(c: Civil): Civil {
    if c.day < MonthLength(c.year, c.month) then c.(day := c.day + 1)
    else if c.month < 12 then c.(month := c.month + 1, day := 1)
    else c.(year := c.year + 1, month := 1, day := 1)
  }

  function NextSecond(c: Civil): Civil {
    if c.second < 59 then c.(second := c.second + 1)
    else if c.minute < 59 then c.(minute := c.minute + 1, second := 0)
    else if c.hour < 23 then c.(hour := c.hour + 1, minute := 0, second := 0)
    else NextDay(c.(hour := 0, minute := 0, second := 0))
  }

  lemma NextDayDenotes(c: Civil)
    requires Real(c)
    ensures Real(NextDay(c)) && Seconds(NextDay(c)) == Seconds(c) + 86400
  {
    DayNumbers(c);
    RealSeconds(c);
    RealSeconds(NextDay(c));
  }

  lemma RealSeconds(c: Civil)
    requires Real(c)
    ensures Seconds(c) == 86400 * (DayFromYear(c.year) + DaysBefore(Leap(c.year), c.month - 1) + c.day - 1)
                          + 3600 * c.hour + 60 * c.minute + c.second
  {
    MonthArithmetic(c.month);
  }

  lemma DayNumbers(c: Civil)
    requires Real(c)
    ensures var next := NextDay(c);
            && Real(next) && next.hour == c.hour && next.minute == c.minute && next.second == c.second
            && DayFromYear(next.year) + DaysBefore(Leap(next.year), next.month - 1) + next.day ==
               DayFromYear(c.year) + DaysBefore(Leap(c.year), c.month - 1) + c.day + 1
  {
    RealIff(c);
    RealIff(NextDay(c));
    YearLength(c.year);
  }

  lemma NextSecondDenotes(c: Civil)
    requires Real(c)
    ensures Real(NextSecond(c)) && Seconds(NextSecond(c)) == Seconds(c) + 1
  {
    RealSeconds(c);
    if c.second == 59 && c.minute == 59 && c.hour == 23 {
      var midnight := c.(hour := 0, minute := 0, second := 0);
      RealSeconds(midnight);
      NextDayDenotes(midnight);
    } else {
      RealSeconds(NextSecond(c));
    }
  }

  /** Time zero is the start of 1970. */
  lemma Epoch()
    ensures FromSeconds(0) == Civil(1970, 1, 1, 0, 0, 0)
  {
    var c := Civil(1970, 1, 1, 0, 0, 0);
    RealIff(c);
    WithinYear(c);
    assert Seconds(c) == 0;
    RealFieldsReturn(c);
  }

  /** One second, and one day, move every time's fields as a clock and a wall calendar do. */
  lemma FieldsAdvance(t: int)
    ensures FromSeconds(t + 1) == NextSecond(FromSeconds(t))
    ensures FromSeconds(t + 86400) == NextDay(FromSeconds(t))
  {
    FieldsDenote(t);
    SecondLater(FromSeconds(t), t);
    DayLater(FromSeconds(t), t);
  }

  lemma SecondLater(c: Civil, t: int)
    requires Real(c) && Seconds(c) == t
    ensures FromSeconds(t + 1) == NextSecond(c)
  {
    NextSecondDenotes(c);
    FieldsReturn(NextSecond(c), t + 1);
  }

  lemma DayLater(c: Civil, t: int)
    requires Real(c) && Seconds(c) == t
    ensures FromSeconds(t + 86400) == NextDay(c)
  {
    NextDayDenotes(c);
    FieldsReturn(NextDay(c), t + 86400);
  }

  lemma FieldsReturn(c: Civil, t: int)
    requires Real(c) && Seconds(c) == t
    ensures FromSeconds(t) == c
  {
    RealFieldsReturn(c);
  }

  // ---------- the text ----------

  function Digit(d: nat): char
    requires d < 10
  {
    ('0' as int + d) as char
  }

  predicate IsDigit(c: char) {
    '0' <= c <= '9'
  }

  function Value(c: char): (d: nat)
    requires IsDigit(c)
    ensures d < 10
  {
    c as int - '0' as int
  }

  function Two(n: nat): (s: string)
    requires n < 100
    ensures |s| == 2 && IsDigit(s[0]) && IsDigit(s[1])
  {
    [Digit(n / 10), Digit(n % 10)]
  }

  function Decimal(n: nat): (s: string)
    ensures s != ""
  {
    if n < 10 then [Digit(n)] else Decimal(n / 10) + [Digit(n % 10)]
  }

  lemma {:induction false} DecimalLength(n: nat, width: nat, bound: nat)
    requires n >= bound && width >= 1 && (width == 1 || width == 2 || width == 3 || width == 4 || width == 5)
    requires bound == if width == 1 then 0 else if width == 2 then 10 else if width == 3 then 100
                      else if width == 4 then 1000 else 10000
    ensures |Decimal(n)| >= width
    decreases width
  {
    if width == 1 {
    } else {
      DecimalLength(n / 10, width - 1, if width == 2 then 0 else bound / 10);
    }
  }

  /** `getUTCFullYear().toString().padStart(4, "0")`. */
  function YearText(year: int): string {
    if 0 <= year < 10000 then Two(year / 100) + Two(year % 100)
    else if year < 0 then PadStart("-" + Decimal(-year), 4)
    else Decimal(year)
  }

  /** `s.padStart(width, "0")`. */
  function PadStart(s: string, width: nat): (padded: string)
    ensures forall c :: c in s ==> c in padded
    ensures |padded| == if |s| < width then width else |s|
    decreases width - |s|
  {
    if |s| < width then PadStart("0" + s, width) else s
  }

  /** `formatAmzDate`. */
  function FormatAmzDate(t: int): string {
    var c := FromSeconds(t);
    FieldsDenote(t);
    Text(c)
  }

  function Text(c: Civil): string
    requires Real(c)
  {
    YearText(c.year) + Two(c.month) + Two(c.day) + "T" + Two(c.hour) + Two(c.minute) + Two(c.second) + "Z"
  }

  /** The shape `\d{8}T\d{6}Z`. */
  predicate Stamp(s: string) {
    && |s| == 16 && s[8] == 'T' && s[15] == 'Z'
    && forall i :: 0 <= i < 15 && i != 8 ==> IsDigit(s[i])
  }

  function Number2(s: string, i: nat): (n: nat)
    requires i + 2 <= |s| && IsDigit(s[i]) && IsDigit(s[i + 1])
    ensures n < 100
  {
    10 * Value(s[i]) + Value(s[i + 1])
  }

  function Fields(s: string): Civil
    requires Stamp(s)
  {
    Civil(100 * Number2(s, 0) + Number2(s, 2), Number2(s, 4), Number2(s, 6), Number2(s, 9), Number2(s, 11),
          Number2(s, 13))
  }

  /** `parseAmzDate`, as a time in seconds. */
  function ParseAmzDate(s: string): Option<int> {
    if !Stamp(s) then None
    else if FormatAmzDate(DateUTC(Fields(s))) == s then Some(DateUTC(Fields(s)))
    else None
  }

  lemma TwoOfNumber(s: string, i: nat)
    requires i + 2 <= |s| && IsDigit(s[i]) && IsDigit(s[i + 1])
    ensures Two(Number2(s, i)) == s[i..i + 2]
  {}

  lemma NumberOfTwo(n: nat)
    requires n < 100
    ensures Number2(Two(n), 0) == n
  {}

  /** A stamp is the text of its own fields. */
  lemma StampIsText(s: string)
    requires Stamp(s) && Real(Fields(s))
    ensures Text(Fields(s)) == s
  {
    var c := Fields(s);
    TwoOfNumber(s, 0);
    TwoOfNumber(s, 2);
    TwoOfNumber(s, 4);
    TwoOfNumber(s, 6);
    TwoOfNumber(s, 9);
    TwoOfNumber(s, 11);
    TwoOfNumber(s, 13);
    assert c.year / 100 == Number2(s, 0) && c.year % 100 == Number2(s, 2);
    assert s == s[0..2] + s[2..4] + s[4..6] + s[6..8] + "T" + s[9..11] + s[11..13] + s[13..15] + "Z";
  }

  lemma YearTextOfLength4(year: int)
    requires |YearText(year)| == 4 && '-' !in YearText(year)
    ensures 0 <= year < 10000
  {
    if year >= 10000 { DecimalLength(year, 5, 10000); }
    if year < 0 { assert '-' in "-" + Decimal(-year); }
  }

  lemma TextPieces(c: Civil)
    requires Real(c) && 0 <= c.year < 10000
    ensures var s := Text(c);
            && |s| == 16 && s[8] == 'T' && s[15] == 'Z'
            && s[0..2] == Two(c.year / 100) && s[2..4] == Two(c.year % 100)
            && s[4..6] == Two(c.month) && s[6..8] == Two(c.day)
            && s[9..11] == Two(c.hour) && s[11..13] == Two(c.minute) && s[13..15] == Two(c.second)
  {
    assert YearText(c.year) == Two(c.year / 100) + Two(c.year % 100);
  }

  lemma TextLayout(c: Civil)
    requires Real(c) && 0 <= c.year < 10000
    ensures Stamp(Text(c)) && Fields(Text(c)) == c
  {
    TextPieces(c);
    var s := Text(c);
    NumberAt(s, 0, c.year / 100);
    NumberAt(s, 2, c.year % 100);
    NumberAt(s, 4, c.month);
    NumberAt(s, 6, c.day);
    NumberAt(s, 9, c.hour);
    NumberAt(s, 11, c.minute);
    NumberAt(s, 13, c.second);
  }

  lemma NumberAt(s: string, i: nat, n: nat)
    requires i + 2 <= |s| && n < 100 && s[i..i + 2] == Two(n)
    ensures IsDigit(s[i]) && IsDigit(s[i + 1]) && Number2(s, i) == n
  {
    assert s[i] == s[i..i + 2][0] && s[i + 1] == s[i..i + 2][1];
    NumberOfTwo(n);
  }

  /** A real second whose text is a stamp has the fields read from it. */
  lemma TextIsStamp(c: Civil)
    requires Real(c) && Stamp(Text(c))
    ensures Fields(Text(c)) == c
  {
    var s := Text(c);
    assert |YearText(c.year)| == 4;
    forall i | 0 <= i < 4 ensures YearText(c.year)[i] != '-' { assert s[i] == YearText(c.year)[i]; }
    YearTextOfLength4(c.year);
    TextLayout(c);
  }

  lemma SecondsAtLeast(c: Civil, year: int)
    requires c.month >= 0 && c.day >= 0 && c.hour >= 0 && c.minute >= 0 && c.second >= 0
    requires year == c.year + (c.month - 1) / 12
    ensures Seconds(c) >= 86400 * (DayFromYear(year) - 1)
    ensures year >= c.year - 1
  {}

  /** Carrying never moves a time back by more than two years. */
  lemma CarriedForward(c: Civil)
    requires c.month >= 0 && c.day >= 0 && c.hour >= 0 && c.minute >= 0 && c.second >= 0
    ensures FromSeconds(Seconds(c)).year >= c.year - 2
  {
    var year := c.year + (c.month - 1) / 12;
    SecondsAtLeast(c, year);
    var found := FromSeconds(Seconds(c));
    FieldsDenote(Seconds(c));
    WithinYear(found);
    NotMuchEarlier(found.year, year, Seconds(c));
  }

  lemma NotMuchEarlier(y: int, year: int, t: int)
    requires 86400 * (DayFromYear(year) - 1) <= t < 86400 * DayFromYear(y + 1)
    ensures y >= year - 1
  {
    YearLength(year - 1);
    if y < year - 1 { YearsAscend(y + 1, year - 1); }
  }

  lemma EarlyYears(c: Civil, moved: Civil)
    requires c.month >= 0 && c.day >= 0 && c.hour >= 0 && c.minute >= 0 && c.second >= 0
    requires 0 <= c.year < 100 && moved == c.(year := 1900 + c.year)
    ensures FromSeconds(DateUTC(c)).year >= 1898
  {
    CarriedForward(moved);
  }

  /** The years 0 to 99 are moved far away, so such a stamp never formats back. */
  lemma EarlyYearsMove(s: string)
    requires Stamp(s) && Fields(s).year < 100
    ensures FromSeconds(DateUTC(Fields(s))).year >= 1898
  {
    var c := Fields(s);
    EarlyYears(c, c.(year := 1900 + c.year));
  }

  // ---------- main results ----------

  /** A stamp is accepted exactly when it denotes a real UTC second of the year 100 or later. */
  lemma AcceptedIff(s: string)
    ensures ParseAmzDate(s).Some? <==> Stamp(s) && Real(Fields(s)) && Fields(s).year >= 100
  {
    if Stamp(s) {
      var c := Fields(s);
      var t := DateUTC(c);
      FieldsDenote(t);
      if FormatAmzDate(t) == s {
        TextIsStamp(FromSeconds(t));
        if c.year < 100 { EarlyYearsMove(s); }
      }
      if Real(c) && c.year >= 100 {
        RealFieldsReturn(c);
        StampIsText(s);
      }
    }
  }

  /** Formatting and parsing are inverse on the years 100 to 9999. */
  lemma FormatParse(t: int)
    requires 100 <= FromSeconds(t).year < 10000
    ensures ParseAmzDate(FormatAmzDate(t)) == Some(t)
  {
    FieldsDenote(t);
    TextLayout(FromSeconds(t));
    AcceptedIff(FormatAmzDate(t));
  }

  lemma EpochFields(s: string)
    requires s == "19700101T000000Z"
    ensures Stamp(s) && Fields(s) == Civil(1970, 1, 1, 0, 0, 0)
  {
    assert Number2(s, 0) == 19 && Number2(s, 2) == 70 && Number2(s, 4) == 1 && Number2(s, 6) == 1;
    assert Number2(s, 9) == 0 && Number2(s, 11) == 0 && Number2(s, 13) == 0;
  }

  lemma StampOf(t: int, s: string)
    requires Stamp(s) && FromSeconds(t) == Fields(s) && Fields(s).year >= 100
    ensures FormatAmzDate(t) == s && ParseAmzDate(s) == Some(t)
  {
    FieldsDenote(t);
    StampIsText(s);
    FormatParse(t);
  }

  /** The shape of a stamp, by its first one. */
  lemma EpochText(s: string)
    requires s == "19700101T000000Z"
    ensures FormatAmzDate(0) == s && ParseAmzDate(s) == Some(0)
  {
    EpochFields(s);
    Epoch();
    StampOf(0, s);
  }

  lemma {:induction false} AfterConcat(a: string, x: string, b: string, y: string)
    requires |a| == |b|
    ensures CodeAfter(a + x, b + y) <==> CodeAfter(a, b) || (a == b && CodeAfter(x, y))
  {
    if a == "" {
      assert a + x == x && b + y == y;
    } else {
      assert (a + x)[1..] == a[1..] + x && (b + y)[1..] == b[1..] + y;
      AfterConcat(a[1..], x, b[1..], y);
      assert a == [a[0]] + a[1..] && b == [b[0]] + b[1..];
    }
  }

  lemma TwoAfter(m: nat, n: nat)
    requires m < 100 && n < 100
    ensures CodeAfter(Two(m), Two(n)) <==> m > n
    ensures Two(m) == Two(n) <==> m == n
  {
    NumberOfTwo(m);
    NumberOfTwo(n);
    var a, b := Two(m), Two(n);
    assert a[1..] == [Digit(m % 10)] && b[1..] == [Digit(n % 10)];
    assert a[1..][1..] == "" && b[1..][1..] == "";
    assert CodeAfter(a[1..], b[1..]) <==> m % 10 > n % 10;
    assert CodeAfter(a, b) <==> m / 10 > n / 10 || (m / 10 == n / 10 && m % 10 > n % 10);
  }

  lemma TwoThen(m: nat, x: string, n: nat, y: string)
    requires m < 100 && n < 100
    ensures CodeAfter(Two(m) + x, Two(n) + y) <==> m > n || (m == n && CodeAfter(x, y))
  {
    AfterConcat(Two(m), x, Two(n), y);
    TwoAfter(m, n);
  }

  function ClockText(c: Civil): string
    requires Real(c)
  {
    Two(c.hour) + (Two(c.minute) + (Two(c.second) + "Z"))
  }

  lemma ClockAfter(c: Civil, d: Civil)
    requires Real(c) && Real(d)
    ensures CodeAfter(ClockText(c), ClockText(d)) <==>
            EarlierInDay(d, c)
  {
    TwoThen(c.hour, Two(c.minute) + (Two(c.second) + "Z"), d.hour, Two(d.minute) + (Two(d.second) + "Z"));
    TwoThen(c.minute, Two(c.second) + "Z", d.minute, Two(d.second) + "Z");
    TwoThen(c.second, "Z", d.second, "Z");
    CodeAfterTotal("Z", "Z");
  }

  lemma DateAfter(c: Civil, x: string, d: Civil, y: string)
    requires Real(c) && Real(d) && 0 <= c.year < 10000 && 0 <= d.year < 10000
    ensures var a := Two(c.year / 100) + (Two(c.year % 100) + (Two(c.month) + (Two(c.day) + ("T" + x))));
            var b := Two(d.year / 100) + (Two(d.year % 100) + (Two(d.month) + (Two(d.day) + ("T" + y))));
            CodeAfter(a, b) <==>
            c.year > d.year || (c.year == d.year && (c.month > d.month || (c.month == d.month &&
            (c.day > d.day || (c.day == d.day && CodeAfter(x, y))))))
  {
    var cd, dd := Two(c.day) + ("T" + x), Two(d.day) + ("T" + y);
    TwoThen(c.year / 100, Two(c.year % 100) + (Two(c.month) + cd), d.year / 100,
            Two(d.year % 100) + (Two(d.month) + dd));
    TwoThen(c.year % 100, Two(c.month) + cd, d.year % 100, Two(d.month) + dd);
    TwoThen(c.month, cd, d.month, dd);
    TwoThen(c.day, "T" + x, d.day, "T" + y);
    AfterConcat("T", x, "T", y);
    CodeAfterTotal("T", "T");
  }

  lemma TextParts(c: Civil)
    requires Real(c) && 0 <= c.year < 10000
    ensures Text(c) ==
            Two(c.year / 100) + (Two(c.year % 100) + (Two(c.month) + (Two(c.day) + ("T" + ClockText(c)))))
  {}

  /** On accepted stamps the order of the strings is the order in time. */
  lemma StringOrderIsChronological(s: string, u: string)
    requires ParseAmzDate(s).Some? && ParseAmzDate(u).Some?
    ensures CodeAfter(u, s) <==> ParseAmzDate(s).value < ParseAmzDate(u).value
  {
    AcceptedIff(s);
    AcceptedIff(u);
    var c, d := Fields(s), Fields(u);
    StampIsText(s);
    StampIsText(u);
    TextParts(c);
    TextParts(d);
    ChronologicalIff(c, d);
    DateAfter(d, ClockText(d), c, ClockText(c));
    ClockAfter(d, c);
  }
}
