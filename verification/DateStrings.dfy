/** Dates as strings. The server writes `YYYY-MM-DD` with a four digit year; the browser's
    `formatLocalDate` writes the year without padding. The browser compares them as strings. */
module DateStrings {
  import opened Gregorian
  import opened Options

  function Digit(d: int): char
    requires 0 <= d < 10
  {
    "0123456789"[d]
  }

  /** The last `width` decimal digits of `n`. */
  function Padded(n: nat, width: nat): (s: string)
    ensures |s| == width
    decreases width
  {
    if width == 0 then "" else Padded(n / 10, width - 1) + [Digit(n % 10)]
  }

  function Decimal(n: nat): (s: string)
    ensures |s| > 0 && s[0] != '-'
  {
    if n < 10 then [Digit(n)] else Decimal(n / 10) + [Digit(n % 10)]
  }

  function IntString(n: int): string { if n < 0 then "-" + Decimal(-n) else Decimal(n) }

  function MonthAndDate(month: nat, date: nat): (s: string)
    ensures |s| == 6
  {
    "-" + Padded(month + 1, 2) + ("-" + Padded(date, 2))
  }

  function Tail(day: int): string { MonthAndDate(GetMonth(day), GetDate(day)) }

  /** How the server formats a date. */
  function Iso(day: int): string
    requires 0 <= GetFullYear(day) <= 9999
  {
    Padded(GetFullYear(day), 4) + Tail(day)
  }

  function FormatLocalDate(day: int): string { IntString(GetFullYear(day)) + Tail(day) }

  /** `a <= b` on strings: by the first character that differs, a prefix first. */
  predicate LexLeq(a: string, b: string) {
    a == [] || (b != [] && (a[0] < b[0] || (a[0] == b[0] && LexLeq(a[1..], b[1..]))))
  }

  lemma {:induction false} LexLeqReflexive(a: string)
    ensures LexLeq(a, a)
    decreases |a|
  {
    if a != [] { LexLeqReflexive(a[1..]); }
  }

  lemma SameHead(c: char, s: string, t: string)
    ensures LexLeq([c] + s, [c] + t) <==> LexLeq(s, t)
  {
    assert ([c] + s)[1..] == s && ([c] + t)[1..] == t;
  }

  predicate Fits(n: nat, width: nat)
    decreases width
  {
    if width == 0 then n == 0 else Fits(n / 10, width - 1)
  }

  /** Fixed-width decimals compare first by value, then by what follows. */
  lemma {:induction false} PaddedOrder(m: nat, n: nat, width: nat, s: string, t: string)
    requires Fits(m, width) && Fits(n, width)
    ensures LexLeq(Padded(m, width) + s, Padded(n, width) + t) <==> m < n || (m == n && LexLeq(s, t))
    decreases width
  {
    if width == 0 {
      assert Padded(m, width) + s == s && Padded(n, width) + t == t;
    } else {
      var s', t' := [Digit(m % 10)] + s, [Digit(n % 10)] + t;
      assert Padded(m, width) + s == Padded(m / 10, width - 1) + s';
      assert Padded(n, width) + t == Padded(n / 10, width - 1) + t';
      PaddedOrder(m / 10, n / 10, width - 1, s', t');
      assert s'[1..] == s && t'[1..] == t;
    }
  }

  lemma TwoDigitsFit(n: nat)
    requires n < 100
    ensures Fits(n, 2)
  {
    assert Fits(n / 10 / 10, 0);
    assert Fits(n / 10, 1);
  }

  lemma FourDigitsFit(n: nat)
    requires n < 10000
    ensures Fits(n, 4)
  {
    TwoDigitsFit(n / 10 / 10);
    assert Fits(n / 10, 3);
  }

  /** A field is a dash and some digits; fields compare first by value, then by what follows. */
  lemma FieldOrder(m: nat, n: nat, width: nat, s: string, t: string)
    requires Fits(m, width) && Fits(n, width)
    ensures LexLeq("-" + Padded(m, width) + s, "-" + Padded(n, width) + t) <==> m < n || (m == n && LexLeq(s, t))
  {
    PaddedOrder(m, n, width, s, t);
    assert "-" + Padded(m, width) + s == ['-'] + (Padded(m, width) + s);
    assert "-" + Padded(n, width) + t == ['-'] + (Padded(n, width) + t);
    SameHead('-', Padded(m, width) + s, Padded(n, width) + t);
  }

  lemma TwoFieldsOrder(m: nat, d: nat, m': nat, d': nat, width: nat)
    requires Fits(m, width) && Fits(d, width) && Fits(m', width) && Fits(d', width)
    ensures LexLeq("-" + Padded(m, width) + ("-" + Padded(d, width)),
                   "-" + Padded(m', width) + ("-" + Padded(d', width)))
        <==> m < m' || (m == m' && d <= d')
  {
    var date, date' := "-" + Padded(d, width), "-" + Padded(d', width);
    FieldOrder(d, d', width, "", "");
    assert date + "" == date && date' + "" == date';
    FieldOrder(m, m', width, date, date');
  }

  lemma MonthAndDateOrder(m: nat, d: nat, m': nat, d': nat)
    requires m < 12 && m' < 12 && d <= 31 && d' <= 31
    ensures LexLeq(MonthAndDate(m, d), MonthAndDate(m', d')) <==> m < m' || (m == m' && d <= d')
  {
    TwoDigitsFit(m + 1);
    TwoDigitsFit(m' + 1);
    TwoDigitsFit(d);
    TwoDigitsFit(d');
    TwoFieldsOrder(m + 1, d, m' + 1, d', 2);
  }

  lemma TailOrder(a: int, b: int)
    ensures LexLeq(Tail(a), Tail(b))
        <==> GetMonth(a) < GetMonth(b) || (GetMonth(a) == GetMonth(b) && GetDate(a) <= GetDate(b))
  {
    MonthAndDateOrder(GetMonth(a), GetDate(a), GetMonth(b), GetDate(b));
  }

  /** Comparing two server dates as strings is comparing the days. */
  lemma IsoOrder(a: int, b: int)
    requires 0 <= GetFullYear(a) <= 9999 && 0 <= GetFullYear(b) <= 9999
    ensures LexLeq(Iso(a), Iso(b)) <==> a <= b
  {
    FourDigitsFit(GetFullYear(a));
    FourDigitsFit(GetFullYear(b));
    PaddedOrder(GetFullYear(a), GetFullYear(b), 4, Tail(a), Tail(b));
    TailOrder(a, b);
    DayOrder(b, a);
  }

  lemma {:induction false} DecimalIsInjective(m: nat, n: nat)
    requires Decimal(m) == Decimal(n)
    ensures m == n
    decreases m
  {
    var s := Decimal(m);
    if m >= 10 && n >= 10 {
      assert s[..|s|-1] == Decimal(m / 10) && s[..|s|-1] == Decimal(n / 10);
      DecimalIsInjective(m / 10, n / 10);
      assert s[|s|-1] == Digit(m % 10) == Digit(n % 10);
    } else {
      assert s[|s|-1] == Digit(m % 10) == Digit(n % 10);
    }
  }

  /** The browser writes different days differently. */
  lemma FormatIsInjective(a: int, b: int)
    requires FormatLocalDate(a) == FormatLocalDate(b)
    ensures a == b
  {
    var s := FormatLocalDate(a);
    assert s[..|s|-6] == IntString(GetFullYear(a)) == IntString(GetFullYear(b));
    assert s[|s|-6..] == Tail(a) == Tail(b);
    LexLeqReflexive(Tail(a));
    TailOrder(a, b);
    TailOrder(b, a);
    SameYear(GetFullYear(a), GetFullYear(b));
    FieldsDetermineDay(a, b);
  }

  lemma SameYear(y: int, z: int)
    requires IntString(y) == IntString(z)
    ensures y == z
  {
    if y < 0 && z < 0 {
      assert IntString(y)[1..] == Decimal(-y) && IntString(z)[1..] == Decimal(-z);
      DecimalIsInjective(-y, -z);
    } else if y >= 0 && z >= 0 {
      DecimalIsInjective(y, z);
    }
  }

  // ----- Reading dates back -----

  predicate IsDigit(c: char) { '0' <= c <= '9' }

  predicate IsDigits(s: string) { s != "" && forall i :: 0 <= i < |s| ==> IsDigit(s[i]) }

  /** The value of a decimal numeral. */
  function ReadNat(s: string): int {
    if s == "" then 0 else 10 * ReadNat(s[..|s|-1]) + (s[|s|-1] as int - '0' as int)
  }

  /** A year: digits, or a dash and digits. */
  function ReadYear(s: string): Option<int> {
    if IsDigits(s) then Some(ReadNat(s))
    else if s != "" && s[0] == '-' && IsDigits(s[1..]) then Some(-ReadNat(s[1..]))
    else None
  }

  /** Two digits after a dash. */
  function ReadField(s: string): Option<int> {
    if |s| == 3 && s[0] == '-' && IsDigits(s[1..]) then Some(ReadNat(s[1..])) else None
  }

  datatype Date = Date(year: int, month: int, date: int)

  /** A date is a year, a month from 01 on and a date; the last six characters are the last two. */
  function ReadDate(s: string): Option<Date> {
    if |s| < 7 then None
    else
      var n := |s|;
      var y, m, d := ReadYear(s[..n-6]), ReadField(s[n-6..n-3]), ReadField(s[n-3..]);
      if y.Some? && m.Some? && d.Some? then Some(Date(y.value, m.value, d.value)) else None
  }

  /** The date of a day; months count from 1. */
  function DateOf(day: int): Date { Date(GetFullYear(day), GetMonth(day) + 1, GetDate(day)) }

  lemma DigitReads(d: int)
    requires 0 <= d < 10
    ensures IsDigit(Digit(d)) && Digit(d) as int - '0' as int == d
  {
  }

  lemma {:induction false} PaddedReads(n: nat, width: nat)
    requires Fits(n, width)
    ensures ReadNat(Padded(n, width)) == n && (width > 0 ==> IsDigits(Padded(n, width)))
    decreases width
  {
    if width > 0 {
      PaddedReads(n / 10, width - 1);
      DigitReads(n % 10);
      assert Padded(n, width)[..width-1] == Padded(n / 10, width - 1);
    }
  }

  lemma {:induction false} DecimalReads(n: nat)
    ensures ReadNat(Decimal(n)) == n && IsDigits(Decimal(n)) && (n > 0 ==> Decimal(n)[0] != '0')
    decreases n
  {
    DigitReads(n % 10);
    if n >= 10 {
      DecimalReads(n / 10);
      assert Decimal(n)[..|Decimal(n)|-1] == Decimal(n / 10);
    }
  }

  lemma NumeralIsYear(digits: string, n: int)
    requires IsDigits(digits) && ReadNat(digits) == n
    ensures ReadYear(digits) == Some(n) && ReadYear(['-'] + digits) == Some(-n)
  {
    var s := ['-'] + digits;
    assert !IsDigit(s[0]) && s[1..] == digits;
  }

  lemma YearReads(y: int)
    ensures ReadYear(IntString(y)) == Some(y)
  {
    var n := if y < 0 then -y else y;
    DecimalReads(n);
    NumeralIsYear(Decimal(n), n);
  }

  lemma FieldReads(n: nat, s: string)
    requires n < 100 && s == "-" + Padded(n, 2)
    ensures |s| == 3 && ReadField(s) == Some(n)
  {
    TwoDigitsFit(n);
    PaddedReads(n, 2);
    assert s[1..] == Padded(n, 2);
  }

  /** Whatever the year, the rest of a date is read back. */
  lemma TailReads(year: string, day: int)
    requires year != ""
    ensures var s := year + Tail(day);
            && |s| == |year| + 6 && s[..|s|-6] == year
            && ReadField(s[|s|-6..|s|-3]) == Some(GetMonth(day) + 1) && ReadField(s[|s|-3..]) == Some(GetDate(day))
  {
    var s, month, date := year + Tail(day), "-" + Padded(GetMonth(day) + 1, 2), "-" + Padded(GetDate(day), 2);
    FieldReads(GetMonth(day) + 1, month);
    FieldReads(GetDate(day), date);
    assert Tail(day) == month + date;
    assert s[|s|-6..|s|-3] == month && s[|s|-3..] == date;
  }

  /** What the server prints is read back as the day's date, with a year of four digits. */
  lemma IsoReadsBack(day: int)
    requires 0 <= GetFullYear(day) <= 9999
    ensures |Iso(day)| == 10 && IsDigits(Iso(day)[..4]) && ReadDate(Iso(day)) == Some(DateOf(day))
  {
    var year := Padded(GetFullYear(day), 4);
    FourDigitsFit(GetFullYear(day));
    PaddedReads(GetFullYear(day), 4);
    TailReads(year, day);
  }

  /** What the browser prints is read back as the day's date, with a year without leading zeros. */
  lemma FormatReadsBack(day: int)
    ensures ReadDate(FormatLocalDate(day)) == Some(DateOf(day))
    ensures FormatLocalDate(day)[0] == '0' ==> GetFullYear(day) == 0 && |FormatLocalDate(day)| == 7
  {
    YearReads(GetFullYear(day));
    TailReads(IntString(GetFullYear(day)), day);
    if GetFullYear(day) >= 0 { DecimalReads(GetFullYear(day)); }
  }

  lemma NumeralsOfEpoch(y: nat, n: nat)
    requires y == 1970 && n == 1
    ensures Decimal(y) == "1970" && Padded(y, 4) == "1970" && Padded(n, 2) == "01"
  {
    assert Decimal(y / 10 / 10) == Decimal(y / 10 / 10 / 10) + [Digit(y / 10 / 10 % 10)];
    assert Decimal(y / 10) == Decimal(y / 10 / 10) + [Digit(y / 10 % 10)];
    assert Padded(y / 10 / 10 / 10, 1) == Padded(0, 0) + ['1'];
    assert Padded(y / 10 / 10, 2) == Padded(y / 10 / 10 / 10, 1) + ['9'];
    assert Padded(y / 10, 3) == Padded(y / 10 / 10, 2) + ['7'];
    assert Padded(n / 10, 1) == Padded(0, 0) + ['0'];
  }

  /** January 1, 1970, in both forms. */
  lemma EpochIsPrinted(epoch: int)
    requires epoch == 719528
    ensures GetFullYear(epoch) == 1970
    ensures Iso(epoch) == "1970-01-01" && FormatLocalDate(epoch) == "1970-01-01"
  {
    EpochWasAThursday(epoch, 1970);
    NumeralsOfEpoch(GetFullYear(epoch), GetDate(epoch));
    assert Tail(epoch) == "-01-01";
  }
}
