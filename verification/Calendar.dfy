/** Timestamps of ExtensionHost.txt: the closed day-count formula against the calendar,
    and the order that parsing keeps. */
module Calendar {
  import opened Text

  // --- the closed formula -----------------------------------------------------------

  /** Division of `i64` values: toward zero. */
  function Quot(a: int, b: int): int
    requires b > 0
  {
    if a >= 0 then a / b else -(-a / b)
  }

  function DaysFromCivil(year: int, month: int, day: int): int {
    var y := if month <= 2 then year - 1 else year;
    var era := Quot(if y >= 0 then y else y - 399, 400);
    var yoe := y - era * 400;
    var doy := Quot(153 * (if month > 2 then month - 3 else month + 9) + 2, 5) + day - 1;
    var doe := yoe * 365 + Quot(yoe, 4) - Quot(yoe, 100) + doy;
    era * 146_097 + doe - 719_468
  }

  // --- the proleptic Gregorian calendar (leap years: RFC 3339, Appendix C) ------------

  datatype Date = Date(year: int, month: int, day: int)

  predicate Leap(year: int) { year % 4 == 0 && (year % 100 != 0 || year % 400 == 0) }

  function DaysInMonth(year: int, month: int): nat {
    if month == 2 then (if Leap(year) then 29 else 28)
    else if month == 4 || month == 6 || month == 9 || month == 11 then 30
    else 31
  }

  predicate ValidDate(d: Date) {
    1 <= d.month <= 12 && 1 <= d.day <= DaysInMonth(d.year, d.month)
  }

  function NextDay(d: Date): Date {
    if d.day < DaysInMonth(d.year, d.month) then d.(day := d.day + 1)
    else if d.month < 12 then Date(d.year, d.month + 1, 1)
    else Date(d.year + 1, 1, 1)
  }

  function DayOf(d: Date): int { DaysFromCivil(d.year, d.month, d.day) }

  /** The number of days from 1970-01-01 to the first of January of `year`, one year at
      a time in either direction. */
  function YearStart(year: int): int
    decreases if year < 1970 then 1970 - year else year - 1970
  {
    if year == 1970 then 0
    else if year > 1970 then YearStart(year - 1) + YearLength(year - 1)
    else YearStart(year + 1) - YearLength(year)
  }

  function YearLength(year: int): nat { if Leap(year) then 366 else 365 }

  function MonthStart(year: int, month: int): nat
    decreases month
  {
    if month <= 1 then 0 else MonthStart(year, month - 1) + DaysInMonth(year, month - 1)
  }

  /** The true day count of a date. */
  function TrueDays(d: Date): int { YearStart(d.year) + MonthStart(d.year, d.month) + d.day - 1 }

  // --- the formula is the day count ------------------------------------------------------

  /** The era arithmetic adds up to the usual linear form with rounded-down quotients. */
  function Linear(y: int): int { 365 * y + y / 4 - y / 100 + y / 400 }

  lemma EraIsLinear(y: int)
    ensures var era := Quot(if y >= 0 then y else y - 399, 400);
            var yoe := y - era * 400;
            0 <= yoe < 400 && era * 146_097 + yoe * 365 + Quot(yoe, 4) - Quot(yoe, 100) == Linear(y)
  {
    var era := Quot(if y >= 0 then y else y - 399, 400);
    assert era == y / 400;
    var yoe := y - era * 400;
    assert y / 4 == era * 100 + yoe / 4;
    assert y / 100 == era * 4 + yoe / 100;
  }

  lemma QuotientStep(y: int, n: int)
    requires n > 0
    ensures y / n - (y - 1) / n == if y % n == 0 then 1 else 0
  {
    var q, r := y / n, y % n;
    assert y == q * n + r;
    if r == 0 {
      assert y - 1 == (q - 1) * n + (n - 1);
      QuotientUnique(y - 1, n, q - 1, n - 1);
    } else {
      QuotientUnique(y - 1, n, q, r - 1);
    }
  }

  lemma QuotientUnique(a: int, n: int, q: int, r: int)
    requires n > 0 && a == q * n + r && 0 <= r < n
    ensures a / n == q
  {
    var d := a / n - q;
    assert d * n == r - a % n;
    assert d >= 1 ==> d * n >= n;
    assert d <= -1 ==> d * n <= -n;
  }

  lemma LinearStep(y: int)
    ensures Linear(y) - Linear(y - 1) == YearLength(y)
  {
    QuotientStep(y, 4);
    QuotientStep(y, 100);
    QuotientStep(y, 400);
    MultipleOfFactor(y, 100, 4);
    MultipleOfFactor(y, 4, 25);
    hide Leap;
    assert YearLength(y) == 365 + (if y % 4 == 0 then 1 else 0) - (if y % 100 == 0 then 1 else 0)
                                + (if y % 400 == 0 then 1 else 0) by { LeapAsSum(y); }
  }

  lemma LeapAsSum(y: int)
    requires (y % 400 == 0 ==> y % 100 == 0) && (y % 100 == 0 ==> y % 4 == 0)
    ensures YearLength(y) == 365 + (if y % 4 == 0 then 1 else 0) - (if y % 100 == 0 then 1 else 0)
                                 + (if y % 400 == 0 then 1 else 0)
  {
  }

  lemma MultipleOfFactor(y: int, n: int, k: int)
    requires n > 0 && k > 0
    ensures y % (n * k) == 0 ==> y % n == 0
  {
    if y % (n * k) == 0 {
      var q := y / (n * k);
      assert y == q * (n * k) == (q * k) * n;
      QuotientUnique(y, n, q * k, 0);
    }
  }

  lemma {:induction false} YearStartIsLinear(year: int)
    ensures YearStart(year) == Linear(year - 1) - Linear(1969)
    decreases if year < 1970 then 1970 - year else year - 1970
  {
    if year > 1970 {
      YearStartIsLinear(year - 1);
      LinearStep(year - 1);
    } else if year < 1970 {
      YearStartIsLinear(year + 1);
      LinearStep(year);
    }
  }

  lemma MonthStartTable(year: int, month: int)
    requires 1 <= month <= 12
    ensures var shifted := if month > 2 then month - 3 else month + 9;
            var leap := if Leap(year) then 1 else 0;
            MonthStart(year, month) == (153 * shifted + 2) / 5 + (if month > 2 then 59 + leap else -306)
  {
    if month > 1 { MonthStartTable(year, month - 1); }
  }

  lemma DaysFromCivilIsLinear(year: int, month: int, day: int)
    requires 1 <= month <= 12
    ensures var y := if month <= 2 then year - 1 else year;
            var shifted := if month > 2 then month - 3 else month + 9;
            DaysFromCivil(year, month, day) == Linear(y) + (153 * shifted + 2) / 5 + day - 1 - 719_468
  {
    var y := if month <= 2 then year - 1 else year;
    EraIsLinear(y);
  }

  /** For every year, negative ones included, and every valid date of it. */
  lemma DaysFromCivilIsTrueCount(d: Date)
    requires ValidDate(d)
    ensures DayOf(d) == TrueDays(d)
  {
    DaysFromCivilIsLinear(d.year, d.month, d.day);
    assert Linear(1969) == 719_162;
    YearStartIsLinear(d.year);
    MonthStartTable(d.year, d.month);
    LinearStep(d.year);
    hide DaysFromCivil, Linear, MonthStart, YearStart;
  }

  lemma MonthsFillYear(year: int)
    ensures MonthStart(year, 12) + DaysInMonth(year, 12) == YearLength(year)
  {
    MonthStartTable(year, 12);
  }

  lemma NextYearStart(year: int)
    ensures YearStart(year + 1) == YearStart(year) + YearLength(year)
  {
  }

  lemma NextDayCount(d: Date)
    requires ValidDate(d)
    ensures ValidDate(NextDay(d)) && TrueDays(NextDay(d)) == TrueDays(d) + 1
  {
    MonthsFillYear(d.year);
    NextYearStart(d.year);
    hide YearStart, DaysInMonth, Leap, YearLength;
    AtLeast28();
  }

  /** The epoch is day 0, and the next calendar day always adds exactly 1. */
  lemma EpochAndNextDay(d: Date)
    requires ValidDate(d)
    ensures DayOf(Date(1970, 1, 1)) == 0
    ensures ValidDate(NextDay(d)) && DayOf(NextDay(d)) == DayOf(d) + 1
  {
    assert DayOf(Date(1970, 1, 1)) == 0;
    hide DayOf, TrueDays;
    NextDayCount(d);
    DaysFromCivilIsTrueCount(d);
    DaysFromCivilIsTrueCount(NextDay(d));
  }

  lemma AtLeast28()
    ensures forall y, m :: 28 <= DaysInMonth(y, m)
  {
  }

  predicate Earlier(a: Date, b: Date) {
    a.year < b.year || (a.year == b.year && (a.month < b.month || (a.month == b.month && a.day < b.day)))
  }

  lemma {:induction false} YearStartMonotonic(y1: int, y2: int)
    requires y1 < y2
    ensures YearStart(y1) + YearLength(y1) <= YearStart(y2)
    decreases y2 - y1
  {
    if y1 + 1 < y2 {
      YearStartMonotonic(y1, y2 - 1);
    }
    YearStartIsLinear(y2 - 1);
    YearStartIsLinear(y2);
    LinearStep(y2 - 1);
  }

  lemma {:induction false} MonthStartMonotonic(year: int, m1: int, m2: int)
    requires 1 <= m1 < m2
    ensures MonthStart(year, m1) + DaysInMonth(year, m1) <= MonthStart(year, m2)
    decreases m2
  {
    if m1 + 1 < m2 { MonthStartMonotonic(year, m1, m2 - 1); }
  }

  lemma EarlierIsLess(a: Date, b: Date)
    requires ValidDate(a) && ValidDate(b) && Earlier(a, b)
    ensures DayOf(a) < DayOf(b)
  {
    hide DayOf, Leap, DaysInMonth;
    DaysFromCivilIsTrueCount(a);
    DaysFromCivilIsTrueCount(b);
    if a.year < b.year {
      YearStartMonotonic(a.year, b.year);
      MonthsFillYear(a.year);
      MonthStartMonotonic(a.year, a.month, 13);
    } else if a.month < b.month {
      MonthStartMonotonic(a.year, a.month, b.month);
    }
  }

  // --- parsing `YYYY-MM-DDTHH:MM:SS.ffffff` ---------------------------------------------

  const I64_MAX := 0x7FFF_FFFF_FFFF_FFFF

  /** `str::parse::<i64>`. */
  function ParseI64(s: string): Option<int> {
    if |s| > 0 && s[0] == '-' then
      var r := if |s| > 1 && s[1] == '+' then None else ParseNat(s[1..], I64_MAX + 1);
      if r.None? then None else Some(Negated(r.value))
    else ParseNat(s, I64_MAX)
  }

  function Negated(n: int): int { -n }

  function DigitsOf(s: string): string {
    if s == [] then "" else (if IsDigit(s[0]) then [s[0]] else "") + DigitsOf(s[1..])
  }

  function DigitAt(s: string, i: nat): nat {
    if i < |s| && IsDigit(s[i]) then DigitValue(s[i]) else 0
  }

  function Part(parts: seq<string>, i: nat): string { if i < |parts| then parts[i] else "" }

  function ParseTimestamp(s: string): Option<nat> {
    match SplitOnce(s, "T")
    case None => None
    case Some((date, time)) =>
      var d, t := Split(date, '-'), Split(time, ':');
      var seconds := Part(t, 2);
      var (whole, fraction) := match SplitOnce(seconds, ".") case None => (seconds, "0") case Some(p) => p;
      var f := DigitsOf(fraction);
      var ms := DigitAt(f, 0) * 100 + DigitAt(f, 1) * 10 + DigitAt(f, 2);
      match (ParseI64(Part(d, 0)), ParseI64(Part(d, 1)), ParseI64(Part(d, 2)),
             ParseI64(Part(t, 0)), ParseI64(Part(t, 1)), ParseI64(whole))
      case (Some(year), Some(month), Some(day), Some(hour), Some(minute), Some(sec)) =>
        var epochMs := (DaysFromCivil(year, month, day) * 86_400 + hour * 3_600 + minute * 60 + sec) * 1000 + ms;
        Some(if epochMs < 0 then 0 else epochMs)
      case _ => None
  }

  /** A minus makes a number negative, and nothing but digits may follow it. */
  lemma ParseI64Exactly(digits: string)
    requires digits != "" && AllDigits(digits)
    ensures ParseI64("-" + digits) == if Value(digits) <= I64_MAX + 1 then Some(Negated(Value(digits))) else None
    ensures ParseI64(digits) == ParseI64("+" + digits) == if Value(digits) <= I64_MAX then Some(Value(digits)) else None
    ensures ParseI64("-+" + digits).None? && ParseI64("").None? && ParseI64("-").None?
  {
    ParseNatExactly(digits, I64_MAX);
    assert Value(digits) <= I64_MAX ==> NumberText(digits, digits, I64_MAX);
    assert IsDigit(digits[0]);
    assert ("-" + digits)[1..] == digits && ("-+" + digits)[1] == '+' && ("+" + digits)[1..] == digits;
    assert "-"[1..] == "";
    hide Value;
  }

  lemma {:induction false} DigitsOfSum(a: string, b: string)
    ensures DigitsOf(a + b) == DigitsOf(a) + DigitsOf(b)
  {
    if a == "" {
      assert a + b == b;
    } else {
      var s, head := a + b, if IsDigit(a[0]) then [a[0]] else "";
      assert s[0] == a[0] && s[1..] == a[1..] + b;
      assert DigitsOf(s) == head + DigitsOf(s[1..]) && DigitsOf(a) == head + DigitsOf(a[1..]);
      hide DigitsOf, IsDigit;
      DigitsOfSum(a[1..], b);
    }
  }

  /** What is no digit does not count in a fraction. */
  lemma FractionSkips(a: string, c: char, b: string)
    ensures DigitsOf(a + [c] + b) == DigitsOf(a) + (if IsDigit(c) then [c] else "") + DigitsOf(b)
  {
    DigitsOfSum(a + [c], b);
    DigitsOfSum(a, [c]);
    assert [c][1..] == "" && DigitsOf([c][1..]) == "";
    assert DigitsOf([c]) == if IsDigit(c) then [c] else "";
  }

  /** A text without a T is no timestamp, and one with it is, exactly when year, month, day, hour,
      minute and the whole seconds are numbers. */
  lemma StampExactly(date: string, time: string)
    requires 'T' !in date
    ensures ParseTimestamp(date).None?
    ensures var d, t := Split(date, '-'), Split(time, ':');
            ParseTimestamp(date + ['T'] + time).Some? <==>
              && ParseI64(Part(d, 0)).Some? && ParseI64(Part(d, 1)).Some? && ParseI64(Part(d, 2)).Some?
              && ParseI64(Part(t, 0)).Some? && ParseI64(Part(t, 1)).Some?
              && ParseI64(WholeOf(Part(t, 2))).Some?
  {
    hide Split, ParseI64, Part, DaysFromCivil, DigitsOf, DigitAt;
    forall i ensures !OccursAt(date, "T", i) { OneCharOccurs(date, 'T', i); }
    SplitOnceAt(date, 'T', time);
  }

  /** What stands before the first point. */
  function WholeOf(seconds: string): string {
    match SplitOnce(seconds, ".") case None => seconds case Some((whole, _)) => whole
  }

  // --- writing a timestamp -----------------------------------------------------------------

  datatype Stamp = Stamp(date: Date, hour: nat, minute: nat, sec: nat, micros: nat)

  predicate ValidStamp(t: Stamp) {
    && ValidDate(t.date) && 0 <= t.date.year < 10_000
    && t.hour < 24 && t.minute < 60 && t.sec < 60 && t.micros < 1_000_000
  }

  /** `n` in exactly `width` digits. */
  function Padded(n: nat, width: nat): (s: string)
    ensures |s| == width && AllDigits(s)
  {
    if width == 0 then "" else Padded(n / 10, width - 1) + [DigitChar(n % 10)]
  }

  function Format(t: Stamp): string
    requires ValidStamp(t)
  {
    Padded(t.date.year, 4) + "-" + Padded(t.date.month, 2) + "-" + Padded(t.date.day, 2) + "T" +
    Padded(t.hour, 2) + ":" + Padded(t.minute, 2) + ":" + Padded(t.sec, 2) + "." + Padded(t.micros, 6)
  }

  function EpochMs(t: Stamp): int {
    (DayOf(t.date) * 86_400 + t.hour * 3_600 + t.minute * 60 + t.sec) * 1000 + t.micros / 1000
  }

  // --- parsing what was written ---------------------------------------------------------------

  function Pow10(n: nat): nat { if n == 0 then 1 else 10 * Pow10(n - 1) }

  lemma {:induction false} ValueOfPadded(n: nat, width: nat)
    requires n < Pow10(width)
    ensures Value(Padded(n, width)) == n
  {
    if width > 0 {
      ValueOfPadded(n / 10, width - 1);
      var s := Padded(n, width);
      assert s[..|s| - 1] == Padded(n / 10, width - 1);
    }
  }

  lemma ParseOfPadded(n: nat, width: nat)
    requires n < Pow10(width) && 0 < width && n <= I64_MAX
    ensures ParseI64(Padded(n, width)) == Some(n)
  {
    ValueOfPadded(n, width);
    assert IsDigit(Padded(n, width)[0]);
  }

  lemma NotADigit(s: string, c: char)
    requires AllDigits(s) && !IsDigit(c)
    ensures c !in s
  {
  }

  lemma {:induction false} DigitsOfDigits(s: string)
    requires AllDigits(s)
    ensures DigitsOf(s) == s
  {
    if s != [] { DigitsOfDigits(s[1..]); }
  }

  lemma LeadingMillis(micros: nat)
    requires micros < 1_000_000
    ensures var f := Padded(micros, 6);
            DigitAt(f, 0) * 100 + DigitAt(f, 1) * 10 + DigitAt(f, 2) == micros / 1000
  {
    hide Padded;
    var f, m := Padded(micros, 6), micros / 1000;
    PaddedFront(micros, 5);
    PaddedFront(micros / 10, 4);
    PaddedFront(micros / 10 / 10, 3);
    assert micros / 10 / 10 / 10 == m;
    assert f[..3] == f[..5][..4][..3] == Padded(m, 3);
    ThreeDigits(m);
    assert Padded(m, 3)[0] == f[0] && Padded(m, 3)[1] == f[1] && Padded(m, 3)[2] == f[2];
  }

  lemma PaddedFront(n: nat, width: nat)
    ensures Padded(n, width + 1)[..width] == Padded(n / 10, width)
  {
  }

  lemma ThreeDigits(m: nat)
    requires m < 1000
    ensures var f := Padded(m, 3); DigitAt(f, 0) * 100 + DigitAt(f, 1) * 10 + DigitAt(f, 2) == m
  {
    hide Padded;
    var f := Padded(m, 3);
    PaddedLast(m, 2);
    PaddedFront(m, 2);
    PaddedLast(m / 10, 1);
    PaddedFront(m / 10, 1);
    PaddedLast(m / 10 / 10, 0);
    assert f[1] == f[..2][1] && f[0] == f[..2][..1][0];
    assert m / 10 / 10 < 10;
  }

  lemma PaddedLast(n: nat, width: nat)
    ensures Padded(n, width + 1)[width] == DigitChar(n % 10)
  {
  }

  lemma SplitThree(a: string, b: string, c: string, sep: char)
    requires sep !in a && sep !in b && sep !in c
    ensures Split(a + [sep] + b + [sep] + c, sep) == [a, b, c]
  {
    SplitAtFirst(a, sep, b + [sep] + c);
    SplitAtFirst(b, sep, c);
    SplitPlain(c, sep);
    assert a + [sep] + b + [sep] + c == a + [sep] + (b + [sep] + c);
  }

  /** Parsing a written timestamp gives its milliseconds since the epoch, or 0 before it. */
  lemma ParseOfFormat(t: Stamp)
    requires ValidStamp(t)
    ensures ParseTimestamp(Format(t)) == Some(if EpochMs(t) < 0 then 0 else EpochMs(t))
  {
    hide DaysFromCivil, Padded, Split, Find, ParseI64, SplitOnce, DigitsOf, DigitAt;
    var y, mo, d := Padded(t.date.year, 4), Padded(t.date.month, 2), Padded(t.date.day, 2);
    var h, mi, s, f := Padded(t.hour, 2), Padded(t.minute, 2), Padded(t.sec, 2), Padded(t.micros, 6);
    var date, seconds := y + ['-'] + mo + ['-'] + d, s + ['.'] + f;
    var time := h + [':'] + mi + [':'] + seconds;
    assert Format(t) == date + ['T'] + time;
    SplitOnceAt(date, 'T', time);
    assert AllDigits(y + mo + d) && AllDigits(h + mi + s) && AllDigits(f);
    NotADigit(y, '-'); NotADigit(mo, '-'); NotADigit(d, '-');
    SplitThree(y, mo, d, '-');
    NotADigit(h, ':'); NotADigit(mi, ':');
    SplitThree(h, mi, seconds, ':');
    NotADigit(s, '.');
    SplitOnceAt(s, '.', f);
    assert Pow10(2) == 100 && Pow10(4) == 10_000 by { assert Pow10(1) == 10 && Pow10(3) == 1000; }
    ParseOfPadded(t.date.year, 4); ParseOfPadded(t.date.month, 2); ParseOfPadded(t.date.day, 2);
    ParseOfPadded(t.hour, 2); ParseOfPadded(t.minute, 2); ParseOfPadded(t.sec, 2);
    DigitsOfDigits(f);
    LeadingMillis(t.micros);
  }

  /** `a` is before `b` when both are cut to whole milliseconds. */
  predicate EarlierMs(a: Stamp, b: Stamp) {
    Earlier(a.date, b.date) || (a.date == b.date &&
    (a.hour < b.hour || (a.hour == b.hour &&
    (a.minute < b.minute || (a.minute == b.minute &&
    (a.sec < b.sec || (a.sec == b.sec && a.micros / 1000 < b.micros / 1000)))))))
  }

  lemma WithinDay(t: Stamp)
    requires ValidStamp(t)
    ensures DayOf(t.date) * 86_400_000 <= EpochMs(t) < (DayOf(t.date) + 1) * 86_400_000
  {
    hide DayOf;
  }

  lemma EarlierMsIsLess(a: Stamp, b: Stamp)
    requires ValidStamp(a) && ValidStamp(b) && EarlierMs(a, b)
    ensures EpochMs(a) < EpochMs(b)
  {
    hide DayOf, EpochMs, Earlier;
    if Earlier(a.date, b.date) {
      EarlierIsLess(a.date, b.date);
      WithinDay(a);
      WithinDay(b);
    } else {
      SameDayLess(a, b);
    }
  }

  lemma SameDayLess(a: Stamp, b: Stamp)
    requires ValidStamp(a) && ValidStamp(b) && a.date == b.date && !Earlier(a.date, b.date) && EarlierMs(a, b)
    ensures EpochMs(a) < EpochMs(b)
  {
    hide DayOf, Earlier;
  }

  lemma EarlierMsTotal(a: Stamp, b: Stamp)
    ensures EarlierMs(a, b) || EarlierMs(b, a) || EpochMs(a) == EpochMs(b)
  {
  }

  lemma NonNegativeFrom1970(t: Stamp)
    requires ValidStamp(t) && t.date.year >= 1970
    ensures EpochMs(t) >= 0
  {
    assert DayOf(Date(1970, 1, 1)) == 0;
    hide DayOf, EpochMs;
    if t.date != Date(1970, 1, 1) {
      EarlierIsLess(Date(1970, 1, 1), t.date);
    }
    WithinDay(t);
  }

  /** From 1970 on, parsing keeps the order of valid timestamps at millisecond resolution,
      strictly and in both directions. */
  lemma ParsingKeepsOrder(a: Stamp, b: Stamp)
    requires ValidStamp(a) && ValidStamp(b) && a.date.year >= 1970 && b.date.year >= 1970
    ensures ParseTimestamp(Format(a)).Some? && ParseTimestamp(Format(b)).Some?
    ensures ParseTimestamp(Format(a)).value < ParseTimestamp(Format(b)).value <==> EarlierMs(a, b)
  {
    hide ParseTimestamp, Format, EpochMs, EarlierMs;
    ParseOfFormat(a);
    ParseOfFormat(b);
    NonNegativeFrom1970(a);
    NonNegativeFrom1970(b);
    EarlierMsTotal(a, b);
    if EarlierMs(a, b) { EarlierMsIsLess(a, b); }
    if EarlierMs(b, a) { EarlierMsIsLess(b, a); }
  }

  lemma NegativeBefore1970(t: Stamp)
    requires ValidStamp(t) && t.date.year < 1970
    ensures EpochMs(t) < 0
  {
    assert DayOf(Date(1970, 1, 1)) == 0;
    hide DayOf, EpochMs;
    EarlierIsLess(t.date, Date(1970, 1, 1));
    WithinDay(t);
  }

  /** The bound on the year is needed: before 1970 distinct timestamps all parse to 0. */
  lemma Before1970Collapses(t: Stamp)
    requires ValidStamp(t) && t.date.year < 1970
    ensures ParseTimestamp(Format(t)) == Some(0)
  {
    hide ParseTimestamp, Format, EpochMs;
    ParseOfFormat(t);
    NegativeBefore1970(t);
  }

  /** A timestamp without a fraction is on the second, and a shorter fraction counts as if it
      went on with zeros. */
  lemma ParseShortFraction(t: Stamp, fraction: string)
    requires ValidStamp(t) && t.micros == 0 && |fraction| <= 3 && AllDigits(fraction)
    ensures ParseTimestamp(Whole(t)) == Some(if EpochMs(t) < 0 then 0 else EpochMs(t))
    ensures var ms := EpochMs(t) + FractionMs(fraction);
            ParseTimestamp(Whole(t) + "." + fraction) == Some(if ms < 0 then 0 else ms)
  {
    hide DaysFromCivil, Padded, Split, Find, ParseI64, SplitOnce, DigitsOf, DigitAt, FractionMs;
    var y, mo, d := Padded(t.date.year, 4), Padded(t.date.month, 2), Padded(t.date.day, 2);
    var h, mi, s := Padded(t.hour, 2), Padded(t.minute, 2), Padded(t.sec, 2);
    var date, seconds := y + ['-'] + mo + ['-'] + d, s + ['.'] + fraction;
    assert Whole(t) == date + ['T'] + (h + [':'] + mi + [':'] + s);
    assert Whole(t) + "." + fraction == date + ['T'] + (h + [':'] + mi + [':'] + seconds);
    SplitOnceAt(date, 'T', h + [':'] + mi + [':'] + s);
    SplitOnceAt(date, 'T', h + [':'] + mi + [':'] + seconds);
    assert AllDigits(y + mo + d) && AllDigits(h + mi + s);
    NotADigit(y, '-'); NotADigit(mo, '-'); NotADigit(d, '-');
    SplitThree(y, mo, d, '-');
    NotADigit(h, ':'); NotADigit(mi, ':'); NotADigit(s, ':'); NotADigit(fraction, ':');
    SplitThree(h, mi, s, ':');
    SplitThree(h, mi, seconds, ':');
    NotADigit(s, '.');
    SplitOnceAt(s, '.', fraction);
    NoPoint(s);
    assert Pow10(2) == 100 && Pow10(4) == 10_000 by { assert Pow10(1) == 10 && Pow10(3) == 1000; }
    ParseOfPadded(t.date.year, 4); ParseOfPadded(t.date.month, 2); ParseOfPadded(t.date.day, 2);
    ParseOfPadded(t.hour, 2); ParseOfPadded(t.minute, 2); ParseOfPadded(t.sec, 2);
    FractionDigits(fraction);
    FractionDigits("0");
    assert FractionMs("0") == 0 by { ZeroFraction(); }
  }

  function Whole(t: Stamp): string
    requires ValidStamp(t)
  {
    Padded(t.date.year, 4) + "-" + Padded(t.date.month, 2) + "-" + Padded(t.date.day, 2) + "T" +
    Padded(t.hour, 2) + ":" + Padded(t.minute, 2) + ":" + Padded(t.sec, 2)
  }

  /** Tenths, hundredths and thousandths. */
  function FractionMs(fraction: string): nat
    requires |fraction| <= 3 && AllDigits(fraction)
  {
    (if |fraction| > 0 then 100 * DigitValue(fraction[0]) else 0)
    + (if |fraction| > 1 then 10 * DigitValue(fraction[1]) else 0)
    + (if |fraction| > 2 then DigitValue(fraction[2]) else 0)
  }

  lemma FractionDigits(fraction: string)
    requires |fraction| <= 3 && AllDigits(fraction)
    ensures var f := DigitsOf(fraction);
            DigitAt(f, 0) * 100 + DigitAt(f, 1) * 10 + DigitAt(f, 2) == FractionMs(fraction)
  {
    DigitsOfDigits(fraction);
  }

  lemma ZeroFraction()
    ensures FractionMs("0") == 0
  {
  }

  lemma NoPoint(s: string)
    requires AllDigits(s)
    ensures SplitOnce(s, ".").None?
  {
    forall i ensures !OccursAt(s, ".", i) { OneCharOccurs(s, '.', i); }
  }
}
