/** Timestamps and snapshot names that are safe as file names. */
module PortableNaming {
  import opened Sequences

  /** The UTC fields of a JavaScript date, months counted from 1. */
  datatype Date = Date(year: int, month: nat, day: nat, hours: nat, minutes: nat, seconds: nat, millis: nat)

  predicate ValidDate(d: Date) {
    && 1 <= d.month <= 12 && 1 <= d.day <= DaysIn(d.year, d.month)
    && d.hours < 24 && d.minutes < 60 && d.seconds < 60 && d.millis < 1000
  }

  function DaysIn(year: int, month: nat): nat {
    if month == 2 then if year % 4 == 0 && (year % 100 != 0 || year % 400 == 0) then 29 else 28
    else if month == 4 || month == 6 || month == 9 || month == 11 then 30
    else 31
  }

  predicate FourDigitYear(d: Date) {
    1000 <= d.year <= 9999
  }

  /** `a` is before `b`. */
  predicate Earlier(a: Date, b: Date) {
    a.year < b.year || (a.year == b.year && (
    a.month < b.month || (a.month == b.month && (
    a.day < b.day || (a.day == b.day && (
    a.hours < b.hours || (a.hours == b.hours && (
    a.minutes < b.minutes || (a.minutes == b.minutes && (
    a.seconds < b.seconds || (a.seconds == b.seconds && a.millis < b.millis)))))))))))
  }

  // ----- decimal numbers -----

  const DIGITS: string := "0123456789"

  predicate IsDigit(c: char) {
    '0' <= c <= '9'
  }

  predicate AllDigits(s: string) {
    forall i :: 0 <= i < |s| ==> IsDigit(s[i])
  }

  /** `String(n)` */
  function Decimal(n: nat): (s: string)
    ensures s != "" && AllDigits(s)
  {
    if n < 10 then [DIGITS[n]] else Decimal(n / 10) + [DIGITS[n % 10]]
  }

  function DecimalInt(n: int): string {
    if n < 0 then "-" + Decimal(-n) else Decimal(n)
  }

  function PadStart(s: string, width: nat): string
    decreases width - |s|
  {
    if |s| < width then PadStart("0" + s, width) else s
  }

  function Value(s: string): nat
    requires AllDigits(s)
  {
    if s == "" then 0 else 10 * Value(s[..|s| - 1]) + (s[|s| - 1] as int - '0' as int)
  }

  /** The last `width` decimal digits of `n`. */
  function Digits(n: nat, width: nat): (s: string)
    ensures |s| == width && AllDigits(s)
  {
    if width == 0 then "" else Digits(n / 10, width - 1) + [DIGITS[n % 10]]
  }

  function Power(width: nat): nat {
    if width == 0 then 1 else 10 * Power(width - 1)
  }

  lemma PowerStep(n: nat, width: nat)
    requires n < Power(width)
    ensures if width == 0 then n == 0 else n / 10 < Power(width - 1)
  {
  }

  lemma {:induction false} ValueOfDigits(n: nat, width: nat)
    requires n < Power(width)
    ensures Value(Digits(n, width)) == n
  {
    hide Power;
    PowerStep(n, width);
    if width > 0 {
      ValueOfDigits(n / 10, width - 1);
      var s := Digits(n, width);
      assert s[..|s| - 1] == Digits(n / 10, width - 1);
    }
  }

  lemma {:induction false} PadFront(s: string, width: nat, k: nat)
    requires |s| + k == width
    ensures PadStart(s, width) == seq(k, i => '0') + s
    decreases k
  {
    if k > 0 {
      PadFront("0" + s, width, k - 1);
      assert seq(k - 1, i => '0') + ("0" + s) == seq(k, i => '0') + s;
    } else {
      assert seq(0, i => '0') + s == s;
    }
  }

  lemma {:induction false} ZeroDigits(k: nat)
    ensures Digits(0, k) == seq(k, i => '0')
  {
    if k > 0 {
      ZeroDigits(k - 1);
      assert seq(k, i => '0') == seq(k - 1, i => '0') + ['0'];
    }
  }

  /** One more digit behind one more place. */
  lemma PadOneMore(s: string, width: nat, c: char)
    requires |s| <= width
    ensures PadStart(s + [c], width + 1) == PadStart(s, width) + [c]
  {
    hide PadStart;
    var k := width - |s|;
    PadFront(s + [c], width + 1, k);
    PadFront(s, width, k);
    assert seq(k, i => '0') + (s + [c]) == seq(k, i => '0') + s + [c];
  }

  lemma PowerAtLeastTen(n: nat, width: nat)
    requires 10 <= n < Power(width)
    ensures 1 < width && n / 10 < Power(width - 1)
  {
    assert Power(0) == 1 && Power(1) == 10;
  }

  lemma PaddedDigit(n: nat, width: nat)
    requires n < 10 && 0 < width
    ensures |Decimal(n)| <= width && PadStart(Decimal(n), width) == Digits(n, width)
  {
    hide PadStart;
    ZeroDigits(width - 1);
    PadFront(Decimal(n), width, width - 1);
  }

  /** Padding the decimal form to a width that suffices gives the digits. */
  lemma {:induction false} PaddedDecimal(n: nat, width: nat)
    requires 0 < width && n < Power(width)
    ensures |Decimal(n)| <= width && PadStart(Decimal(n), width) == Digits(n, width)
  {
    hide PadStart, Power;
    if n < 10 {
      PaddedDigit(n, width);
    } else {
      PowerAtLeastTen(n, width);
      PaddedDecimal(n / 10, width - 1);
      PadOneMore(Decimal(n / 10), width - 1, DIGITS[n % 10]);
    }
  }

  lemma {:induction false} DecimalWidth(n: nat, width: nat)
    requires 0 < width && (Power(width - 1) <= n || width == 1) && n < Power(width)
    ensures |Decimal(n)| == width
  {
    if n >= 10 {
      DecimalWidth(n / 10, width - 1);
    }
  }

  /** A year prints as four digits exactly when it has four. */
  lemma YearWidth(year: int)
    ensures 1000 <= year <= 9999 <==> |DecimalInt(year)| == 4 && AllDigits(DecimalInt(year))
    ensures 1000 <= year <= 9999 ==> DecimalInt(year) == Digits(year, 4)
  {
    assert Power(4) == 10000 && Power(3) == 1000 && Power(2) == 100 && Power(1) == 10;
    if year < 0 {
      assert !IsDigit(DecimalInt(year)[0]);
    } else if year < 10 {
    } else if year < 100 {
      DecimalWidth(year, 2);
    } else if year < 1000 {
      DecimalWidth(year, 3);
    } else if year < 10000 {
      DecimalWidth(year, 4);
      PaddedDecimal(year, 4);
    } else {
      LongDecimal(year);
    }
  }

  lemma {:induction false} LongDecimal(n: nat)
    requires n >= 10000
    ensures |Decimal(n)| >= 5
  {
    if n >= 100000 {
      LongDecimal(n / 10);
    } else {
      assert Power(4) == 10000 && Power(5) == 100000;
      DecimalWidth(n, 5);
    }
  }

  // ----- timestamps -----

  function Pad(n: nat, width: nat): string {
    PadStart(Decimal(n), width)
  }

  /** `YYYYMMDDTHHmmssZ`, or `YYYYMMDDTHHmmss-NNNms` with milliseconds. */
  function ToPortableTimestamp(d: Date, includeMillis: bool): string {
    var day := DecimalInt(d.year) + Pad(d.month, 2) + Pad(d.day, 2);
    var time := Pad(d.hours, 2) + Pad(d.minutes, 2) + Pad(d.seconds, 2);
    if includeMillis then day + "T" + time + "-" + Pad(d.millis, 3) + "ms"
    else day + "T" + time + "Z"
  }

  datatype Parsed = Throws | InvalidDate | Parsed(date: Date)

  /** `/^(\d{8})T(\d{6})-(\d{3})ms$/` */
  predicate MatchesMillis(s: string) {
    && |s| == 21 && AllDigits(s[..8]) && s[8] == 'T' && AllDigits(s[9..15]) && s[15] == '-'
    && AllDigits(s[16..19]) && s[19..] == "ms"
  }

  /** `/^(\d{8})T(\d{6})Z$/` */
  predicate MatchesBasic(s: string) {
    |s| == 16 && AllDigits(s[..8]) && s[8] == 'T' && AllDigits(s[9..15]) && s[15] == 'Z'
  }

  function DateFrom(day: string, time: string, millis: nat): Parsed
    requires |day| == 8 && AllDigits(day) && |time| == 6 && AllDigits(time)
  {
    var d := Date(Value(day[..4]), Value(day[4..6]), Value(day[6..8]),
                  Value(time[..2]), Value(time[2..4]), Value(time[4..6]), millis);
    if ValidDate(d) then Parsed(d) else InvalidDate
  }

  function FromPortableTimestamp(s: string): Parsed {
    if MatchesMillis(s) then DateFrom(s[..8], s[9..15], Value(s[16..19]))
    else if MatchesBasic(s) then DateFrom(s[..8], s[9..15], 0)
    else Throws
  }

  // ----- fixed-width form -----

  function DayDigits(d: Date): (s: string)
    requires FourDigitYear(d)
    ensures |s| == 8 && AllDigits(s)
  {
    Digits(d.year, 4) + Digits(d.month, 2) + Digits(d.day, 2)
  }

  function TimeDigits(d: Date): (s: string)
    ensures |s| == 6 && AllDigits(s)
  {
    Digits(d.hours, 2) + Digits(d.minutes, 2) + Digits(d.seconds, 2)
  }

  lemma Powers()
    ensures Power(2) == 100 && Power(3) == 1000 && Power(4) == 10000
  {
    assert Power(1) == 10;
  }

  lemma FieldsPad(d: Date)
    requires ValidDate(d)
    ensures Pad(d.month, 2) == Digits(d.month, 2) && Pad(d.day, 2) == Digits(d.day, 2)
    ensures Pad(d.hours, 2) == Digits(d.hours, 2) && Pad(d.minutes, 2) == Digits(d.minutes, 2)
    ensures Pad(d.seconds, 2) == Digits(d.seconds, 2) && Pad(d.millis, 3) == Digits(d.millis, 3)
  {
    Powers();
    PaddedDecimal(d.month, 2);
    PaddedDecimal(d.day, 2);
    PaddedDecimal(d.hours, 2);
    PaddedDecimal(d.minutes, 2);
    PaddedDecimal(d.seconds, 2);
    PaddedDecimal(d.millis, 3);
  }

  /** With a four-digit year the forms have fixed columns. */
  lemma FixedColumns(d: Date)
    requires ValidDate(d) && FourDigitYear(d)
    ensures ToPortableTimestamp(d, true) == DayDigits(d) + "T" + TimeDigits(d) + "-" + Digits(d.millis, 3) + "ms"
    ensures ToPortableTimestamp(d, false) == DayDigits(d) + "T" + TimeDigits(d) + "Z"
  {
    FieldsPad(d);
    YearWidth(d.year);
  }

  /** The columns read back as the fields. */
  lemma ColumnsParse(d: Date)
    requires ValidDate(d) && FourDigitYear(d)
    ensures DateFrom(DayDigits(d), TimeDigits(d), d.millis) == Parsed(d)
    ensures Value(Digits(d.millis, 3)) == d.millis
  {
    Powers();
    var day, time := DayDigits(d), TimeDigits(d);
    assert day[..4] == Digits(d.year, 4) && day[4..6] == Digits(d.month, 2) && day[6..8] == Digits(d.day, 2);
    assert time[..2] == Digits(d.hours, 2) && time[2..4] == Digits(d.minutes, 2) && time[4..6] == Digits(d.seconds, 2);
    ValueOfDigits(d.year, 4);
    ValueOfDigits(d.month, 2);
    ValueOfDigits(d.day, 2);
    ValueOfDigits(d.hours, 2);
    ValueOfDigits(d.minutes, 2);
    ValueOfDigits(d.seconds, 2);
    ValueOfDigits(d.millis, 3);
  }

  /** A text that begins with four characters, not all of them digits, is no timestamp. */
  lemma NotAllDigits(s: string, y: string)
    requires |y| == 4 && y <= s && !AllDigits(y)
    ensures !MatchesMillis(s) && !MatchesBasic(s)
  {
    var i :| 0 <= i < |y| && !IsDigit(y[i]);
    assert |s| >= 8 ==> s[..8][i] == y[i];
  }

  lemma OtherYear(d: Date)
    requires !FourDigitYear(d)
    ensures |DecimalInt(d.year)| == 4 ==> !AllDigits(DecimalInt(d.year))
  {
    YearWidth(d.year);
  }

  /** Without a four-digit year neither form is recognized. */
  lemma OtherYearsDoNotMatch(d: Date, includeMillis: bool)
    requires ValidDate(d) && !FourDigitYear(d)
    ensures FromPortableTimestamp(ToPortableTimestamp(d, includeMillis)) == Throws
  {
    hide DecimalInt, AllDigits, Digits, Pad, DateFrom, Value;
    FieldsPad(d);
    OtherYear(d);
    var s, y := ToPortableTimestamp(d, includeMillis), DecimalInt(d.year);
    assert |s| == |y| + if includeMillis then 17 else 12;
    if |y| == 4 {
      NotAllDigits(s, y);
    } else if !includeMillis && |s| == 21 {
      assert s[20] == 'Z';
    }
  }

  lemma MillisFormParses(d: Date)
    requires ValidDate(d) && FourDigitYear(d)
    ensures FromPortableTimestamp(ToPortableTimestamp(d, true)) == Parsed(d)
  {
    hide ToPortableTimestamp, DayDigits, TimeDigits, Digits, DateFrom, Value;
    FixedColumns(d);
    ColumnsParse(d);
    var s := ToPortableTimestamp(d, true);
    assert s[..8] == DayDigits(d) && s[9..15] == TimeDigits(d) && s[16..19] == Digits(d.millis, 3) && s[19..] == "ms";
  }

  lemma BasicFormParses(d: Date)
    requires ValidDate(d) && FourDigitYear(d)
    ensures FromPortableTimestamp(ToPortableTimestamp(d, false)) == Parsed(d.(millis := 0))
  {
    hide ToPortableTimestamp, Digits, DateFrom, Value;
    FixedColumns(d);
    ColumnsParse(d.(millis := 0));
    var t := ToPortableTimestamp(d, false);
    assert t[..8] == DayDigits(d) && t[9..15] == TimeDigits(d);
  }

  /** A timestamp reads back as the date it was printed from if and only if the year has four digits. */
  lemma TimestampRoundTripIff(d: Date)
    requires ValidDate(d)
    ensures FromPortableTimestamp(ToPortableTimestamp(d, true)) == Parsed(d) <==> FourDigitYear(d)
    ensures FromPortableTimestamp(ToPortableTimestamp(d, false)) == Parsed(d.(millis := 0)) <==> FourDigitYear(d)
  {
    hide ToPortableTimestamp, FromPortableTimestamp;
    if FourDigitYear(d) {
      MillisFormParses(d);
      BasicFormParses(d);
    } else {
      OtherYearsDoNotMatch(d, true);
      OtherYearsDoNotMatch(d, false);
    }
  }

  /** The year 10000, concretely: its names do not read back. */
  lemma LateYearDoesNotParse(d: Date, includeMillis: bool)
    requires d == Date(10000, 1, 1, 0, 0, 0, 0)
    ensures ValidDate(d) && FromPortableTimestamp(ToPortableTimestamp(d, includeMillis)) == Throws
  {
    OtherYearsDoNotMatch(d, includeMillis);
  }

  lemma OneDigit(n: nat)
    requires n < 10
    ensures Pad(n, 2) == "0" + [DIGITS[n]]
  {
    assert PadStart("0" + [DIGITS[n]], 2) == "0" + [DIGITS[n]];
  }

  lemma TwoDigits(n: nat)
    requires 10 <= n < 100
    ensures Pad(n, 2) == Decimal(n) == [DIGITS[n / 10], DIGITS[n % 10]]
  {
  }

  lemma ThreeDigits(n: nat)
    requires 100 <= n < 1000
    ensures Pad(n, 3) == Decimal(n) == [DIGITS[n / 100], DIGITS[n / 10 % 10], DIGITS[n % 10]]
  {
    TwoDigits(n / 10);
  }

  lemma FourDigits(n: nat)
    requires 1000 <= n < 10000
    ensures DecimalInt(n) == [DIGITS[n / 1000], DIGITS[n / 100 % 10], DIGITS[n / 10 % 10], DIGITS[n % 10]]
  {
    ThreeDigits(n / 10);
  }

  lemma SpringDay(d: Date)
    requires d == Date(2026, 4, 25, 2, 24, 26, 179)
    ensures DecimalInt(d.year) + Pad(d.month, 2) + Pad(d.day, 2) == "20260425"
  {
    hide Pad, DecimalInt, Decimal, PadStart;
    FourDigits(2026);
    OneDigit(4);
    TwoDigits(25);
  }

  lemma EarlyTime(d: Date)
    requires d == Date(2026, 4, 25, 2, 24, 26, 179)
    ensures Pad(d.hours, 2) + Pad(d.minutes, 2) + Pad(d.seconds, 2) == "022426"
    ensures Pad(d.millis, 3) == "179"
  {
    hide Pad, DecimalInt, Decimal, PadStart;
    OneDigit(2);
    TwoDigits(24);
    TwoDigits(26);
    ThreeDigits(179);
  }

  /** The two forms, concretely. */
  lemma TimestampForms(d: Date)
    requires d == Date(2026, 4, 25, 2, 24, 26, 179)
    ensures ToPortableTimestamp(d, true) == "20260425" + "T" + "022426" + "-" + "179" + "ms"
    ensures ToPortableTimestamp(d, false) == "20260425" + "T" + "022426" + "Z"
    ensures BuildSnapshotName("design", d) == "design" + "-" + ToPortableTimestamp(d, true) + ".json"
  {
    hide Pad, DecimalInt;
    SpringDay(d);
    EarlyTime(d);
  }

  // ----- order -----

  /** Lexicographic order by character code. */
  predicate StringLess(a: string, b: string) {
    if b == "" then false
    else if a == "" then true
    else a[0] < b[0] || (a[0] == b[0] && StringLess(a[1..], b[1..]))
  }

  lemma {:induction false} LessConcat(a: string, b: string, x: string, y: string)
    requires |a| == |b|
    ensures StringLess(a + x, b + y) <==> StringLess(a, b) || (a == b && StringLess(x, y))
  {
    if a == "" {
      assert a + x == x && b + y == y;
    } else {
      assert (a + x)[1..] == a[1..] + x && (b + y)[1..] == b[1..] + y;
      LessConcat(a[1..], b[1..], x, y);
      assert a == b <==> a[0] == b[0] && a[1..] == b[1..];
    }
  }

  lemma LessByLastDigit(n: nat, m: nat)
    ensures n < m <==> n / 10 < m / 10 || (n / 10 == m / 10 && n % 10 < m % 10)
    ensures n == m <==> n / 10 == m / 10 && n % 10 == m % 10
  {
  }

  lemma DigitsOrder(a: nat, b: nat)
    requires a < 10 && b < 10
    ensures DIGITS[a] < DIGITS[b] <==> a < b
    ensures DIGITS[a] == DIGITS[b] <==> a == b
    ensures StringLess([DIGITS[a]], [DIGITS[b]]) <==> a < b
  {
  }

  lemma {:induction false} LessDigits(n: nat, m: nat, width: nat)
    requires n < Power(width) && m < Power(width)
    ensures StringLess(Digits(n, width), Digits(m, width)) <==> n < m
    ensures Digits(n, width) == Digits(m, width) <==> n == m
  {
    hide StringLess, Power;
    PowerStep(n, width);
    PowerStep(m, width);
    if width > 0 {
      LessDigits(n / 10, m / 10, width - 1);
      LessConcat(Digits(n / 10, width - 1), Digits(m / 10, width - 1), [DIGITS[n % 10]], [DIGITS[m % 10]]);
      SameParts(Digits(n / 10, width - 1), Digits(m / 10, width - 1), [DIGITS[n % 10]], [DIGITS[m % 10]]);
      LessByLastDigit(n, m);
      DigitsOrder(n % 10, m % 10);
    } else {
      NotLess("");
    }
  }

  lemma LessDay(a: Date, b: Date)
    requires ValidDate(a) && ValidDate(b) && FourDigitYear(a) && FourDigitYear(b)
    ensures StringLess(DayDigits(a), DayDigits(b)) <==>
            a.year < b.year || (a.year == b.year && (a.month < b.month || (a.month == b.month && a.day < b.day)))
    ensures DayDigits(a) == DayDigits(b) <==> a.year == b.year && a.month == b.month && a.day == b.day
  {
    Powers();
    LessDigits(a.year, b.year, 4);
    LessDigits(a.month, b.month, 2);
    LessDigits(a.day, b.day, 2);
    LessConcat(Digits(a.year, 4) + Digits(a.month, 2), Digits(b.year, 4) + Digits(b.month, 2), Digits(a.day, 2), Digits(b.day, 2));
    LessConcat(Digits(a.year, 4), Digits(b.year, 4), Digits(a.month, 2), Digits(b.month, 2));
    SameParts(Digits(a.year, 4) + Digits(a.month, 2), Digits(b.year, 4) + Digits(b.month, 2), Digits(a.day, 2), Digits(b.day, 2));
    SameParts(Digits(a.year, 4), Digits(b.year, 4), Digits(a.month, 2), Digits(b.month, 2));
  }

  lemma LessTime(a: Date, b: Date)
    requires ValidDate(a) && ValidDate(b)
    ensures StringLess(TimeDigits(a), TimeDigits(b)) <==>
            a.hours < b.hours || (a.hours == b.hours && (
            a.minutes < b.minutes || (a.minutes == b.minutes && a.seconds < b.seconds)))
    ensures TimeDigits(a) == TimeDigits(b) <==> a.hours == b.hours && a.minutes == b.minutes && a.seconds == b.seconds
  {
    Powers();
    LessDigits(a.hours, b.hours, 2);
    LessDigits(a.minutes, b.minutes, 2);
    LessDigits(a.seconds, b.seconds, 2);
    LessConcat(Digits(a.hours, 2) + Digits(a.minutes, 2), Digits(b.hours, 2) + Digits(b.minutes, 2), Digits(a.seconds, 2), Digits(b.seconds, 2));
    LessConcat(Digits(a.hours, 2), Digits(b.hours, 2), Digits(a.minutes, 2), Digits(b.minutes, 2));
    SameParts(Digits(a.hours, 2) + Digits(a.minutes, 2), Digits(b.hours, 2) + Digits(b.minutes, 2), Digits(a.seconds, 2), Digits(b.seconds, 2));
    SameParts(Digits(a.hours, 2), Digits(b.hours, 2), Digits(a.minutes, 2), Digits(b.minutes, 2));
  }

  lemma SameParts(a: string, b: string, x: string, y: string)
    requires |a| == |b|
    ensures a + x == b + y <==> a == b && x == y
  {
    assert (a + x)[..|a|] == a && (b + y)[..|b|] == b;
    assert (a + x)[|a|..] == x && (b + y)[|b|..] == y;
  }

  /** Between four-digit years the names of two moments sort as the moments do. */
  lemma NamesSortByTime(a: Date, b: Date)
    requires ValidDate(a) && ValidDate(b) && FourDigitYear(a) && FourDigitYear(b)
    ensures StringLess(ToPortableTimestamp(a, true), ToPortableTimestamp(b, true)) <==> Earlier(a, b)
  {
    FixedColumns(a);
    FixedColumns(b);
    Powers();
    var da, db := DayDigits(a), DayDigits(b);
    var ta, tb := TimeDigits(a), TimeDigits(b);
    var ma, mb := Digits(a.millis, 3), Digits(b.millis, 3);
    LessConcat(da + "T" + ta + "-" + ma, db + "T" + tb + "-" + mb, "ms", "ms");
    LessConcat(da + "T" + ta + "-", db + "T" + tb + "-", ma, mb);
    LessConcat(da + "T" + ta, db + "T" + tb, "-", "-");
    LessConcat(da + "T", db + "T", ta, tb);
    LessConcat(da, db, "T", "T");
    SameParts(da + "T" + ta, db + "T" + tb, "-", "-");
    SameParts(da + "T", db + "T", ta, tb);
    SameParts(da, db, "T", "T");
    LessDay(a, b);
    LessTime(a, b);
    LessDigits(a.millis, b.millis, 3);
    NotLess("ms");
    NotLess("-");
    NotLess("T");
  }

  lemma {:induction false} NotLess(s: string)
    ensures !StringLess(s, s)
  {
    if s != "" {
      NotLess(s[1..]);
    }
  }

  // ----- snapshot names -----

  const EXTENSION: string := ".json"

  /** `segment` is the portable form of the stage id. */
  function BuildSnapshotName(segment: string, timestamp: Date): string {
    segment + "-" + ToPortableTimestamp(timestamp, true) + EXTENSION
  }

  /** `/^(.+)-(\d{8}T\d{6}-\d{3}ms)\.json$/` */
  predicate MatchesSnapshotName(name: string) {
    && |name| >= 28 && name[|name| - 5..] == EXTENSION
    && MatchesMillis(name[|name| - 26..|name| - 5]) && name[|name| - 27] == '-'
  }

  function StageOf(name: string): string
    requires MatchesSnapshotName(name)
  {
    name[..|name| - 27]
  }

  function TimestampOf(name: string): string
    requires MatchesSnapshotName(name)
  {
    name[|name| - 26..|name| - 5]
  }

  /** The parts of a snapshot name read back, and put together give the name again. */
  lemma SnapshotNameParses(segment: string, d: Date)
    requires segment != "" && ValidDate(d) && FourDigitYear(d)
    ensures
      var name := BuildSnapshotName(segment, d);
      && MatchesSnapshotName(name)
      && StageOf(name) == segment && TimestampOf(name) == ToPortableTimestamp(d, true)
  {
    FixedColumns(d);
    var name, t := BuildSnapshotName(segment, d), ToPortableTimestamp(d, true);
    assert t[..8] == DayDigits(d) && t[9..15] == TimeDigits(d) && t[16..19] == Digits(d.millis, 3) && t[19..] == "ms";
    assert name[|name| - 26..|name| - 5] == t;
    assert name[..|name| - 27] == segment;
  }

  lemma SnapshotNameReassembles(name: string)
    requires MatchesSnapshotName(name)
    ensures StageOf(name) + "-" + TimestampOf(name) + EXTENSION == name
  {
  }
}
