/** Field coercion of the CSV-to-database loader
    (budget-csv-transform/src/lambda/csv_to_rds/handler.py): `parse_field`,
    `to_date`, `to_decimal` and the 13-slot row mapper `parse_row`. Every
    coercer turns text into a typed value or `None` and never raises. */
module Coercion {
  import opened Text
  import opened Options

  // ---------------------------------------------------------------------
  // Decimal digits

  predicate IsDigit(c: char) { '0' <= c <= '9' }

  predicate AllDigits(s: string) {
    forall i :: 0 <= i < |s| ==> IsDigit(s[i])
  }

  function DigitChar(n: nat): (c: char)
    requires n < 10
    ensures IsDigit(c) && c as int - '0' as int == n
  {
    ('0' as int + n) as char
  }

  function Pow10(k: nat): (r: nat)
    ensures r >= 1
  {
    if k == 0 then 1 else 10 * Pow10(k - 1)
  }

  function DigitValue(c: char): (r: nat)
    ensures r < 10
  {
    if IsDigit(c) then c as int - '0' as int else 0
  }

  /** The value of a run of decimal digits, most significant first (only
      ever applied to text that `AllDigits` accepts). */
  function Num(s: string): nat
  {
    if s == [] then 0 else Num(s[..|s| - 1]) * 10 + DigitValue(s[|s| - 1])
  }

  lemma {:induction false} NumAppend(a: string, b: string)
    requires AllDigits(a) && AllDigits(b)
    ensures AllDigits(a + b)
    ensures Num(a + b) == Num(a) * Pow10(|b|) + Num(b)
  {
    if b != [] {
      var b' := b[..|b| - 1];
      var ab := a + b;
      assert ab[..|ab| - 1] == a + b';
      assert ab[|ab| - 1] == b[|b| - 1];
      NumAppend(a, b');
      ShiftDigit(Num(a), Pow10(|b'|), Num(b'), DigitValue(b[|b| - 1]));
    } else {
      assert a + b == a;
    }
  }

  /** Appending a digit multiplies the place value of the leading part by ten. */
  lemma ShiftDigit(x: int, p: int, n: int, d: int)
    ensures (x * p + n) * 10 + d == x * (10 * p) + (n * 10 + d)
  {
  }

  /** The shortest decimal spelling of `n` ("0" for zero). */
  function DigitsOf(n: nat): (r: string)
    ensures r != [] && AllDigits(r) && Num(r) == n
  {
    if n < 10 then [DigitChar(n)]
    else
      var s := DigitsOf(n / 10);
      var c := DigitChar(n % 10);
      assert (s + [c])[..|s|] == s;
      assert DigitValue(c) == n % 10;
      assert Num(s + [c]) == Num(s) * 10 + DigitValue(c);
      s + [c]
  }

  lemma {:induction false} DigitsOfLength(n: nat, k: nat)
    requires 1 <= k && n < Pow10(k)
    ensures |DigitsOf(n)| <= k
  {
    if n >= 10 {
      DigitsOfLength(n / 10, k - 1);
    }
  }

  function Zeros(k: nat): (r: string)
    ensures |r| == k && AllDigits(r) && Num(r) == 0
  {
    if k == 0 then [] else
      var z := Zeros(k - 1);
      assert (z + ['0'])[..k - 1] == z;
      z + ['0']
  }

  /** `n` left-padded with zeros to at least `width` digits. */
  function Padded(n: nat, width: nat): (r: string)
    ensures AllDigits(r) && Num(r) == n && |r| >= width
  {
    var s := DigitsOf(n);
    var z := Zeros(if |s| < width then width - |s| else 0);
    NumAppend(z, s);
    z + s
  }

  /** A number below `10^width` pads to exactly `width` digits. */
  lemma PaddedLength(n: nat, width: nat)
    requires 1 <= width && n < Pow10(width)
    ensures |Padded(n, width)| == width
  {
    DigitsOfLength(n, width);
  }

  // ---------------------------------------------------------------------
  // parse_field

  /** `parse_field`: the stripped value, or `None` when nothing but
      whitespace is left (handler.py:12-13). */
  function ParseField(value: string): (r: Option<string>)
    ensures r.None? <==> IsBlank(value)
    ensures r.Some? ==>
      (r.value == Strip(value) && r.value != [] && !IsSpace(r.value[0]) && !IsSpace(r.value[|r.value| - 1]))
  {
    StripSpec(value);
    if Strip(value) != "" then Some(Strip(value)) else None
  }

  // ---------------------------------------------------------------------
  // Calendar dates

  datatype Date = Date(year: int, month: int, day: int)

  /** Gregorian leap years: divisible by 4, and centuries only when divisible by 400. */
  predicate IsLeap(y: int) {
    y % 4 == 0 && (y % 100 != 0 || y % 400 == 0)
  }

  function DaysInMonth(y: int, m: int): (r: int)
    requires 1 <= m <= 12
    ensures 28 <= r <= 31
    ensures m == 2 ==> (r == 29 <==> IsLeap(y))
  {
    if m == 2 then (if IsLeap(y) then 29 else 28)
    else if m == 4 || m == 6 || m == 9 || m == 11 then 30
    else 31
  }

  /** A day that exists, in the range of years Python's `date` admits. */
  predicate ValidDate(d: Date) {
    1 <= d.year <= 9999 && 1 <= d.month <= 12 && 1 <= d.day <= DaysInMonth(d.year, d.month)
  }

  /** The value of the digit at position `i` of `v`. */
  function DigitAt(v: string, i: nat): int
    requires i < |v|
  {
    v[i] as int - '0' as int
  }

  /** The ten characters have the shape `DDDD-DD-DD`. */
  predicate IsoShape(v: string) {
    |v| == 10 && v[4] == '-' && v[7] == '-'
    && IsDigit(v[0]) && IsDigit(v[1]) && IsDigit(v[2]) && IsDigit(v[3])
    && IsDigit(v[5]) && IsDigit(v[6]) && IsDigit(v[8]) && IsDigit(v[9])
  }

  /** The year, month and day that the digits of `DDDD-DD-DD` text spell. */
  function IsoFields(v: string): Date
    requires IsoShape(v)
  {
    Date(
      DigitAt(v, 0) * 1000 + DigitAt(v, 1) * 100 + DigitAt(v, 2) * 10 + DigitAt(v, 3),
      DigitAt(v, 5) * 10 + DigitAt(v, 6),
      DigitAt(v, 8) * 10 + DigitAt(v, 9))
  }

  /** `strptime(v, "%Y-%m-%d")` on the zero-padded form `YYYY-MM-DD`;
      `None` stands for the `ValueError` that `to_date` catches. */
  function ParseIsoDate(v: string): (r: Option<Date>)
    ensures r.Some? ==> ValidDate(r.value)
  {
    if IsoShape(v) then
      var d := IsoFields(v);
      if ValidDate(d) then Some(d) else None
    else None
  }

  /** `to_date` (handler.py:15-23): strip, blank gives `None`, otherwise the
      parsed date, and a parse failure also gives `None`. */
  function ToDate(val: string): (r: Option<Date>)
    ensures IsBlank(val) ==> r.None?
    ensures r.Some? ==> IsoShape(Strip(val)) && r.value == IsoFields(Strip(val)) && ValidDate(r.value)
  {
    StripSpec(val);
    var v := Strip(val);
    if v == "" then None else ParseIsoDate(v)
  }

  /** What `to_date` accepts, for every input: whitespace around the text
      is ignored, and a date comes back exactly when the stripped text has
      the shape `DDDD-DD-DD` and its digits spell a day that exists; any
      other text is the caught parse failure, `None`. */
  lemma ToDateSpec(val: string)
    ensures ToDate(val) == ToDate(Strip(val))
    ensures ToDate(val).Some? <==> IsoShape(Strip(val)) && ValidDate(IsoFields(Strip(val)))
  {
    StripIdempotent(val);
  }

  /** Surrounding whitespace is ignored. */
  lemma ToDatePaddedExample()
    ensures ToDate(" 2024-01-05 ") == Some(Date(2024, 1, 5))
  {
    var v := "2024-01-05";
    assert " 2024-01-05 " == " " + v + " ";
    StripPadded(" ", v, " ");
    ReadIso(v, Date(2024, 1, 5));
    ToDateSpec(" 2024-01-05 ");
  }

  /** Text of another shape fails, even when it names a real day. */
  lemma ToDateShapeExample()
    ensures ToDate("2024/01/05").None? && ToDate("abc").None?
  {
    StripUnchanged("2024/01/05");
    StripUnchanged("abc");
  }

  /** The canonical `YYYY-MM-DD` text of a date (what `date.isoformat` gives). */
  function FormatDate(d: Date): (r: string)
    requires ValidDate(d)
    ensures IsoShape(r)
  {
    var y, m, dd := d.year, d.month, d.day;
    [DigitChar(y / 1000), DigitChar(y / 100 % 10), DigitChar(y / 10 % 10), DigitChar(y % 10), '-',
     DigitChar(m / 10), DigitChar(m % 10), '-', DigitChar(dd / 10), DigitChar(dd % 10)]
  }

  /** Every real calendar day survives a trip through its text. */
  lemma DateRoundTrip(d: Date)
    requires ValidDate(d)
    ensures ToDate(FormatDate(d)) == Some(d)
  {
    var v := FormatDate(d);
    YearDigits(v, d.year);
    assert DigitAt(v, 5) * 10 + DigitAt(v, 6) == d.month;
    assert DigitAt(v, 8) * 10 + DigitAt(v, 9) == d.day;
    ReadIso(v, d);
  }

  /** `to_date` on `YYYY-MM-DD` text whose digits spell the fields of `d`. */
  lemma ReadIso(v: string, d: Date)
    requires IsoShape(v)
    requires DigitAt(v, 0) * 1000 + DigitAt(v, 1) * 100 + DigitAt(v, 2) * 10 + DigitAt(v, 3) == d.year
    requires DigitAt(v, 5) * 10 + DigitAt(v, 6) == d.month && DigitAt(v, 8) * 10 + DigitAt(v, 9) == d.day
    ensures ToDate(v) == if ValidDate(d) then Some(d) else None
  {
    StripUnchanged(v);
  }

  /** Four characters written by `FormatDate` for a year read back as it. */
  lemma YearDigits(v: string, y: int)
    requires 0 <= y < 10000 && |v| >= 4
    requires v[0] == DigitChar(y / 1000) && v[1] == DigitChar(y / 100 % 10)
    requires v[2] == DigitChar(y / 10 % 10) && v[3] == DigitChar(y % 10)
    ensures DigitAt(v, 0) * 1000 + DigitAt(v, 1) * 100 + DigitAt(v, 2) * 10 + DigitAt(v, 3) == y
  {
    FourDigits(y);
  }

  lemma FourDigits(y: int)
    requires 0 <= y < 10000
    ensures (y / 1000) * 1000 + (y / 100 % 10) * 100 + (y / 10 % 10) * 10 + y % 10 == y
  {
    var a, b, c := y / 10, y / 100, y / 1000;
    assert y == a * 10 + y % 10;
    assert a / 10 == b;
    assert a == b * 10 + a % 10;
    assert b / 10 == c;
    assert b == c * 10 + b % 10;
    assert c < 10;
  }

  /** The text `Y-MM-DD` for a year and two given digit pairs. */
  function DateText(y: int, mm: string, dd: string): string
    requires 1 <= y <= 9999
  {
    FormatDate(Date(y, 1, 1))[..5] + mm + "-" + dd
  }

  /** `to_date` reads back the year of `DateText` and the two digit pairs
      given for month and day. */
  lemma DateTextReads(y: int, mm: string, dd: string)
    requires 1 <= y <= 9999
    requires |mm| == 2 && |dd| == 2 && AllDigits(mm) && AllDigits(dd)
    ensures var d := Date(y, DigitAt(mm, 0) * 10 + DigitAt(mm, 1), DigitAt(dd, 0) * 10 + DigitAt(dd, 1));
      ToDate(DateText(y, mm, dd)) == if ValidDate(d) then Some(d) else None
  {
    var f := FormatDate(Date(y, 1, 1));
    var v := DateText(y, mm, dd);
    assert v[..5] == f[..5];
    assert v[0] == f[0] && v[1] == f[1] && v[2] == f[2] && v[3] == f[3] && v[4] == '-';
    assert v[5] == mm[0] && v[6] == mm[1] && v[7] == '-' && v[8] == dd[0] && v[9] == dd[1];
    YearDigits(v, y);
    ReadIso(v, Date(y, DigitAt(mm, 0) * 10 + DigitAt(mm, 1), DigitAt(dd, 0) * 10 + DigitAt(dd, 1)));
  }

  /** The Gregorian rule at work: February 29 exists exactly in leap years,
      and month 13 never does. */
  lemma LeapDayRule(y: int)
    requires 1 <= y <= 9999
    ensures ToDate(DateText(y, "02", "29")).Some? <==> IsLeap(y)
    ensures ToDate(DateText(y, "13", "01")).None?
  {
    DateTextReads(y, "02", "29");
    DateTextReads(y, "13", "01");
  }

  // ---------------------------------------------------------------------
  // Exact decimals

  /** An exact decimal `mantissa * 10^-scale`, keeping the scale the text had
      (`Decimal("12.30")` has scale 2). */
  datatype Decimal = Decimal(mantissa: int, scale: nat)

  /** Position of the first '.' in `s`. */
  function FindDot(s: string): (r: Option<nat>)
    ensures r.Some? ==>
      (r.value < |s| && s[r.value] == '.' && forall i :: 0 <= i < r.value ==> s[i] != '.')
    ensures r.None? ==> forall i :: 0 <= i < |s| ==> s[i] != '.'
  {
    if s == [] then None
    else if s[0] == '.' then Some(0)
    else match FindDot(s[1..])
      case None => None
      case Some(i) => Some(i + 1)
  }

  /** Digits with an optional fraction, at least one digit in all. */
  function ParseUnsigned(s: string): (r: Option<Decimal>)
    ensures r.Some? ==> r.value.mantissa >= 0
  {
    match FindDot(s)
    case None =>
      if s != [] && AllDigits(s) then Some(Decimal(Num(s), 0)) else None
    case Some(i) =>
      var whole, frac := s[..i], s[i + 1..];
      if AllDigits(whole) && AllDigits(frac) && |whole| + |frac| >= 1 then
        NumAppend(whole, frac);
        Some(Decimal(Num(whole + frac), |frac|))
      else None
  }

  /** `Decimal(s)` on the plain grammar `[+-]? digits ('.' digits)?` (either
      side of the point may be empty, not both); `None` stands for the
      `InvalidOperation` that `to_decimal` catches. */
  function ParseDecimal(s: string): (r: Option<Decimal>)
    ensures s == [] ==> r.None?
  {
    if s != [] && s[0] == '-' then
      match ParseUnsigned(s[1..])
      case None => None
      case Some(d) => Some(Decimal(-d.mantissa, d.scale))
    else if s != [] && s[0] == '+' then ParseUnsigned(s[1..])
    else ParseUnsigned(s)
  }

  /** The text `to_decimal` hands to `Decimal`: stripped, every space
      removed, every comma turned into a period. */
  function CleanDecimalText(val: string): (r: string)
    ensures forall i :: 0 <= i < |r| ==> r[i] != ' ' && r[i] != ','
  {
    ReplaceChar(RemoveChar(Strip(val), ' '), ',', '.')
  }

  /** `to_decimal` (handler.py:25-33). */
  function ToDecimal(val: string): (r: Option<Decimal>)
    ensures IsBlank(val) ==> r.None?
  {
    StripSpec(val);
    var v := CleanDecimalText(val);
    if v == "" then None else ParseDecimal(v)
  }

  /** The canonical text of a decimal: a minus sign when negative, the
      mantissa's digits padded to more than `scale` places, and a period
      before the last `scale` of them (`Decimal(5, 2)` is "0.05"). */
  function FormatDecimal(d: Decimal): (r: string)
    ensures r != []
    ensures forall i :: 0 <= i < |r| ==> IsDigit(r[i]) || r[i] == '.' || r[i] == '-'
  {
    if d.mantissa < 0 then
      var t := UnsignedText(-d.mantissa, d.scale);
      assert forall i :: 1 <= i < |t| + 1 ==> (['-'] + t)[i] == t[i - 1];
      ['-'] + t
    else UnsignedText(d.mantissa, d.scale)
  }

  function UnsignedText(m: nat, scale: nat): (r: string)
    ensures r != [] && IsDigit(r[0])
    ensures forall i :: 0 <= i < |r| ==> IsDigit(r[i]) || r[i] == '.'
  {
    var digits := Padded(m, scale + 1);
    if scale == 0 then digits
    else digits[..|digits| - scale] + "." + digits[|digits| - scale..]
  }

  lemma UnsignedRoundTrip(m: nat, scale: nat)
    ensures ParseUnsigned(UnsignedText(m, scale)) == Some(Decimal(m, scale))
  {
    var digits := Padded(m, scale + 1);
    var t := UnsignedText(m, scale);
    if scale == 0 {
      assert t == digits;
      PlainDigits(digits);
    } else {
      assert t == digits[..|digits| - scale] + "." + digits[|digits| - scale..];
      DottedDigits(digits, scale);
    }
  }

  /** Digits with a period put before the last `scale` of them parse to
      their value with that scale. */
  lemma DottedDigits(digits: string, scale: nat)
    requires AllDigits(digits) && 1 <= scale < |digits|
    ensures ParseUnsigned(digits[..|digits| - scale] + "." + digits[|digits| - scale..]) == Some(Decimal(Num(digits), scale))
  {
    var whole, frac := digits[..|digits| - scale], digits[|digits| - scale..];
    assert whole + frac == digits;
    DotSplit(whole, frac);
  }

  /** Text of digits alone parses to its value with no scale. */
  lemma PlainDigits(digits: string)
    requires digits != [] && AllDigits(digits)
    ensures ParseUnsigned(digits) == Some(Decimal(Num(digits), 0))
  {
    assert forall i :: 0 <= i < |digits| ==> digits[i] != '.';
  }

  /** Text of the form `whole.frac`, with digits on both sides, splits at
      its one period. */
  lemma DotSplit(whole: string, frac: string)
    requires AllDigits(whole) && AllDigits(frac) && |whole| + |frac| >= 1
    ensures ParseUnsigned(whole + "." + frac) == Some(Decimal(Num(whole + frac), |frac|))
  {
    var body := whole + "." + frac;
    assert FindDot(body) == Some(|whole|) by {
      assert body[|whole|] == '.';
      forall i | 0 <= i < |whole| ensures body[i] != '.' { assert body[i] == whole[i]; }
    }
    assert body[..|whole|] == whole;
    assert body[|whole| + 1..] == frac;
  }

  /** Decimal parsing is the inverse of the canonical form. */
  lemma DecimalRoundTrip(d: Decimal)
    ensures ParseDecimal(FormatDecimal(d)) == Some(d)
  {
    var m: nat := if d.mantissa < 0 then -d.mantissa else d.mantissa;
    var body := UnsignedText(m, d.scale);
    UnsignedRoundTrip(m, d.scale);
    if d.mantissa < 0 {
      assert FormatDecimal(d) == ['-'] + body;
      NegatedParse(body);
    } else {
      assert FormatDecimal(d) == body;
      UnsignedParse(body);
    }
  }

  /** A leading minus sign negates what the rest parses to. */
  lemma NegatedParse(body: string)
    ensures ParseDecimal(['-'] + body) ==
      match ParseUnsigned(body)
      case None => None
      case Some(u) => Some(Decimal(-u.mantissa, u.scale))
  {
    assert (['-'] + body)[1..] == body;
  }

  /** Text starting with a digit parses without a sign. */
  lemma UnsignedParse(body: string)
    requires body != [] && IsDigit(body[0])
    ensures ParseDecimal(body) == ParseUnsigned(body)
  {
  }

  /** `to_decimal` reads the canonical form, and reads the same form with a
      decimal comma in place of the period. */
  lemma ToDecimalRoundTrip(d: Decimal)
    ensures ToDecimal(FormatDecimal(d)) == Some(d)
  {
    var s := FormatDecimal(d);
    NoSpaceText(s);
    NoCommaUnchanged(s);
    assert ToDecimal(s) == ParseDecimal(s);
    DecimalRoundTrip(d);
  }

  /** The decimal comma is read as the period: the canonical form with its
      period written as a comma parses to the same value. */
  lemma ToDecimalCommaRoundTrip(d: Decimal)
    ensures ToDecimal(ReplaceChar(FormatDecimal(d), '.', ',')) == Some(d)
  {
    var s := FormatDecimal(d);
    CommaText(s);
    DecimalRoundTrip(d);
  }

  /** Writing the periods of canonical text as commas is undone by the cleanup. */
  lemma CommaText(s: string)
    requires s != []
    requires forall i :: 0 <= i < |s| ==> IsDigit(s[i]) || s[i] == '.' || s[i] == '-'
    ensures CleanDecimalText(ReplaceChar(s, '.', ',')) == s
  {
    var c := ReplaceChar(s, '.', ',');
    assert forall i :: 0 <= i < |c| ==> c[i] == '-' || c[i] == ',' || IsDigit(c[i]);
    NoSpaceText(c);
    var back := ReplaceChar(c, ',', '.');
    forall i | 0 <= i < |s| ensures back[i] == s[i] {
      if s[i] == '.' { assert c[i] == ','; } else { assert c[i] == s[i] && c[i] != ','; }
    }
    assert back == s;
  }

  lemma NoCommaUnchanged(s: string)
    requires forall i :: 0 <= i < |s| ==> s[i] != ','
    ensures ReplaceChar(s, ',', '.') == s
  {
  }

  /** Text made of signs, digits, periods and commas passes the cleanup with
      only its commas changed. */
  lemma NoSpaceText(s: string)
    requires s != []
    requires forall i :: 0 <= i < |s| ==> s[i] == '-' || s[i] == '.' || s[i] == ',' || IsDigit(s[i])
    ensures CleanDecimalText(s) == ReplaceChar(s, ',', '.')
  {
    StripUnchanged(s);
    RemoveAbsent(s, ' ');
  }

  lemma NumExamples()
    ensures Num("12") == 12 && Num("34") == 34 && Num("56") == 56 && Num("1234") == 1234
    ensures Num("123456") == 123456
  {
    assert "12"[..1] == "1" && "34"[..1] == "3" && "56"[..1] == "5";
    assert "1"[..0] == "3"[..0] == "5"[..0] == [];
    NumAppend("12", "34");
    assert "12" + "34" == "1234";
    NumAppend("1234", "56");
    assert "1234" + "56" == "123456";
  }

  // ---------------------------------------------------------------------
  // What the cleanup of `to_decimal` means for every input

  /** `to_decimal` ignores every space, wherever it stands: the value of
      the text is the value of the text with its spaces removed. */
  lemma ToDecimalIgnoresSpaces(s: string)
    ensures ToDecimal(RemoveChar(s, ' ')) == ToDecimal(s)
  {
    var r := RemoveChar(s, ' ');
    RemoveStrip(s, ' ');
    RemoveAbsent(Strip(r), ' ');
    assert CleanDecimalText(r) == CleanDecimalText(s);
  }

  lemma RemoveSpace(x: string, y: string)
    ensures RemoveChar(x + " " + y, ' ') == RemoveChar(x + y, ' ')
  {
    assert RemoveChar(" ", ' ') == [] by {
      assert " "[1..] == [];
    }
    RemoveCharSpec(x, " ", ' ');
    var rx := RemoveChar(x, ' ');
    assert RemoveChar(x + " ", ' ') == rx;
    RemoveCharSpec(x + " ", y, ' ');
    RemoveCharSpec(x, y, ' ');
  }

  /** One space more or less anywhere in the text makes no difference. */
  lemma ToDecimalSpaceAnywhere(x: string, y: string)
    ensures ToDecimal(x + " " + y) == ToDecimal(x + y)
  {
    RemoveSpace(x, y);
    ToDecimalIgnoresSpaces(x + " " + y);
    ToDecimalIgnoresSpaces(x + y);
  }

  /** `to_decimal` reads every comma as a period: the value of the text is
      the value of the text with its commas written as periods. */
  lemma ToDecimalCommaAsPoint(s: string)
    ensures ToDecimal(ReplaceChar(s, ',', '.')) == ToDecimal(s)
  {
    var c := ReplaceChar(s, ',', '.');
    ReplaceStrip(s, ',', '.');
    RemoveReplace(Strip(s), ' ', ',', '.');
    var v := RemoveChar(Strip(s), ' ');
    assert ReplaceChar(ReplaceChar(v, ',', '.'), ',', '.') == ReplaceChar(v, ',', '.');
    assert CleanDecimalText(c) == CleanDecimalText(s);
  }

  /** A single comma written as a period leaves the value unchanged. */
  lemma ToDecimalCommaAt(s: string, i: nat)
    requires i < |s| && s[i] == ','
    ensures ToDecimal(s[i := '.']) == ToDecimal(s)
  {
    assert ReplaceChar(s[i := '.'], ',', '.') == ReplaceChar(s, ',', '.');
    ToDecimalCommaAsPoint(s);
    ToDecimalCommaAsPoint(s[i := '.']);
  }

  /** The text `whole.frac` with digits on both sides and at least one
      digit in all: the dotted form of the plain grammar. */
  predicate DottedAt(u: string, i: int) {
    0 <= i < |u| && u[i] == '.' && AllDigits(u[..i]) && AllDigits(u[i + 1..]) && |u| >= 2
  }

  /** `digits ('.' digits)?` with at least one digit. */
  predicate UnsignedSyntax(u: string) {
    (u != [] && AllDigits(u)) || exists i :: 0 <= i < |u| && DottedAt(u, i)
  }

  /** `[+-]? digits ('.' digits)?` with at least one digit. */
  predicate DecimalSyntax(v: string) {
    UnsignedSyntax(v) || (v != [] && (v[0] == '-' || v[0] == '+') && UnsignedSyntax(v[1..]))
  }

  /** Unsigned text parses exactly when it is in the unsigned grammar. */
  lemma UnsignedParses(u: string)
    ensures ParseUnsigned(u).Some? <==> UnsignedSyntax(u)
  {
    match FindDot(u)
    case None =>
      forall i | 0 <= i < |u| ensures !DottedAt(u, i) { }
    case Some(i) =>
      assert !IsDigit(u[i]);
      assert !AllDigits(u);
      forall j | 0 <= j < |u| && DottedAt(u, j) ensures j == i { }
      assert ParseUnsigned(u).Some? <==> DottedAt(u, i);
  }

  /** `Decimal` accepts exactly the texts of the plain grammar. */
  lemma ParseDecimalSyntax(v: string)
    ensures ParseDecimal(v).Some? <==> DecimalSyntax(v)
  {
    if v != [] && (v[0] == '-' || v[0] == '+') {
      UnsignedParses(v[1..]);
      assert !IsDigit(v[0]);
      forall i | 0 <= i < |v| && DottedAt(v, i) ensures false { }
    } else {
      UnsignedParses(v);
    }
  }

  /** `to_decimal` gives a value exactly when its cleaned text is in the
      plain grammar; everything else is the caught `InvalidOperation`. */
  lemma ToDecimalSyntax(val: string)
    ensures ToDecimal(val).Some? <==> DecimalSyntax(CleanDecimalText(val))
  {
    ParseDecimalSyntax(CleanDecimalText(val));
  }

  /** Unsigned `whole.frac` text parses to the digits of both sides with
      the fraction's length as the scale. */
  lemma DottedDecimal(whole: string, frac: string)
    requires whole != [] && AllDigits(whole) && AllDigits(frac)
    ensures ParseDecimal(whole + "." + frac) == Some(Decimal(Num(whole + frac), |frac|))
  {
    var t := whole + "." + frac;
    DotSplit(whole, frac);
    assert t[0] == whole[0];
    UnsignedParse(t);
  }

  /** A plain amount with a decimal point: `"12.34"` is 12.34. */
  lemma ToDecimalPlainExample(s: string)
    requires s == "12.34"
    ensures ToDecimal(s) == Some(Decimal(1234, 2))
  {
    NoSpaceText(s);
    NoCommaUnchanged(s);
    assert "12" + "." + "34" == s;
    DottedDecimal("12", "34");
    assert "12" + "34" == "1234";
    NumExamples();
  }

  /** The cleanup of a grouped amount with a decimal comma. */
  lemma GroupedCleanup(s: string)
    requires s == "1 234,56"
    ensures CleanDecimalText(s) == "1234.56"
  {
    StripUnchanged(s);
    var tail := "234,56";
    assert s[1..][1..] == tail;
    RemoveAbsent(tail, ' ');
    assert RemoveChar(s[1..], ' ') == tail;
    assert RemoveChar(s, ' ') == "1" + tail;
    CommaExample();
  }

  lemma CommaExample()
    ensures ReplaceChar("1" + "234,56", ',', '.') == "1234.56"
  {
    var r := ReplaceChar("1234,56", ',', '.');
    assert r[4] == '.';
  }

  /** A grouped amount with a decimal comma: `"1 234,56"` is 1234.56. */
  lemma ToDecimalGroupedExample(s: string)
    requires s == "1 234,56"
    ensures ToDecimal(s) == Some(Decimal(123456, 2))
  {
    GroupedCleanup(s);
    assert "1234" + "." + "56" == "1234.56";
    DottedDecimal("1234", "56");
    assert "1234" + "56" == "123456";
    NumExamples();
  }

  // ---------------------------------------------------------------------
  // parse_row

  /** `row[i] or None`: the empty string becomes `None`; everything else,
      whitespace included, is kept as it is. */
  function OrNone(s: string): (r: Option<string>)
    ensures r.None? <==> s == ""
    ensures r.Some? ==> r.value == s
  {
    if s == "" then None else Some(s)
  }

  /** A text slot holds the raw field unchanged, and is `None` exactly when
      the field is the empty string. */
  predicate RawSlot(slot: Option<string>, field: string) {
    (slot.None? <==> field == "") && (slot.Some? ==> slot.value == field)
  }

  /** One normalised transaction, the 13 values `parse_row` produces, in the
      column order of the insert statement (handler.py:63-68). */
  datatype Record = Record(
    transactionDate: Option<Date>,
    bookingDate: Option<Date>,
    rejectDate: Option<Date>,
    amount: Option<Decimal>,
    currency: Option<string>,
    senderReceiver: Option<string>,
    description: Option<string>,
    product: Option<string>,
    transactionType: Option<string>,
    orderAmount: Option<Decimal>,
    orderCurrency: Option<string>,
    status: Option<string>,
    balanceAfter: Option<Decimal>)

  /** What indexing a short row does: `row[i]` raises `IndexError`. */
  datatype RowParse = Parsed(record: Record) | IndexError

  /** `parse_row` (handler.py:35-51). Fields past the thirteenth are ignored. */
  function ParseRow(row: seq<string>): (r: RowParse)
    ensures r.Parsed? <==> |row| >= 13
  {
    if |row| < 13 then IndexError
    else Parsed(Record(
      ToDate(row[0]), ToDate(row[1]), ToDate(row[2]),
      ToDecimal(row[3]),
      OrNone(row[4]), OrNone(row[5]), OrNone(row[6]), OrNone(row[7]), OrNone(row[8]),
      ToDecimal(row[9]),
      OrNone(row[10]), OrNone(row[11]),
      ToDecimal(row[12])))
  }

  /** Where each of the 13 values comes from: the three dates from
      `to_date`, the three amounts from `to_decimal`, and the seven text
      slots from the raw field. */
  lemma ParseRowSlots(row: seq<string>)
    requires |row| >= 13
    ensures var rec := ParseRow(row).record;
      && rec.transactionDate == ToDate(row[0])
      && rec.bookingDate == ToDate(row[1])
      && rec.rejectDate == ToDate(row[2])
      && rec.amount == ToDecimal(row[3])
      && rec.orderAmount == ToDecimal(row[9])
      && rec.balanceAfter == ToDecimal(row[12])
    ensures var rec := ParseRow(row).record;
      && RawSlot(rec.currency, row[4])
      && RawSlot(rec.senderReceiver, row[5])
      && RawSlot(rec.description, row[6])
      && RawSlot(rec.product, row[7])
      && RawSlot(rec.transactionType, row[8])
      && RawSlot(rec.orderCurrency, row[10])
      && RawSlot(rec.status, row[11])
  {
  }

  /** Unlike `parse_field`, the text slots of `parse_row` are not stripped:
      a whitespace-only description reaches the database as it is. */
  lemma TextSlotsNotStripped(row: seq<string>)
    requires |row| >= 13 && row[6] != "" && IsBlank(row[6])
    ensures ParseRow(row).record.description == Some(row[6])
    ensures ParseField(row[6]).None?
  {
  }
}
