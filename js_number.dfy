/**
 * JavaScript's `parseInt(s)` (no radix argument) and `parseFloat(s)`, which
 * the status parser applies to numeric fields.  Both skip leading white
 * space, read the longest numeric prefix and ignore the rest; both give NaN
 * when there is no numeric prefix at all.  Numbers here are exact: the
 * rounding to IEEE-754 doubles is not modelled.
 */
module JsNumber {
  import opened JsText

  /** A number produced by `parseInt`: an integer, or NaN. */
  datatype JsInt = IntNaN | Int(value: int)

  /** A number produced by `parseFloat`: a (decimal) real, an infinity, or NaN. */
  datatype JsFloat = FloatNaN | Infinity(negative: bool) | Float(value: real)

  /** Value of `c` as a digit in bases up to 36; 36 when it is no digit at all. */
  function DigitOf(c: char): (d: nat)
    ensures d <= 36
  {
    if '0' <= c <= '9' then (c as int) - ('0' as int)
    else if 'a' <= c <= 'z' then (c as int) - ('a' as int) + 10
    else if 'A' <= c <= 'Z' then (c as int) - ('A' as int) + 10
    else 36
  }

  predicate IsDigit(c: char, radix: nat) {
    DigitOf(c) < radix
  }

  /** Length of the longest prefix of `s` made of digits of base `radix`. */
  function DigitPrefix(s: string, radix: nat): (n: nat)
    ensures n <= |s|
    ensures forall k :: 0 <= k < n ==> IsDigit(s[k], radix)
    ensures n == |s| || !IsDigit(s[n], radix)
  {
    if s != [] && IsDigit(s[0], radix) then 1 + DigitPrefix(s[1..], radix) else 0
  }

  /** The number a string of digits denotes in base `radix`, most significant first. */
  function DigitsValue(s: string, radix: nat): nat {
    if s == [] then 0
    else DigitsValue(s[..|s| - 1], radix) * radix + DigitOf(s[|s| - 1])
  }

  /** `s` without its leading sign, if any. */
  function Unsigned(s: string): string {
    if s != [] && (s[0] == '-' || s[0] == '+') then s[1..] else s
  }

  predicate IsNegative(s: string) {
    s != [] && s[0] == '-'
  }

  /**
   * `parseInt(s)`: leading white space and one sign are skipped, then the
   * digits are read as by `ParseUnsignedInt`; the sign is applied last.
   */
  function ParseInt(s: string): JsInt {
    var t := TrimStart(s);
    match ParseUnsignedInt(Unsigned(t))
    case IntNaN => IntNaN
    case Int(m) => Int(if IsNegative(t) then -m else m)
  }

  /**
   * The unsigned part of `parseInt`: a `0x` or `0X` prefix selects base 16,
   * otherwise base 10; the longest run of digits of that base is read, and
   * NaN results when the run is empty.
   */
  function ParseUnsignedInt(u: string): (r: JsInt)
    ensures r.Int? ==> r.value >= 0
  {
    var hex := |u| >= 2 && u[0] == '0' && (u[1] == 'x' || u[1] == 'X');
    var radix := if hex then 16 else 10;
    var body := if hex then u[2..] else u;
    var n := DigitPrefix(body, radix);
    if n == 0 then IntNaN else Int(DigitsValue(body[..n], radix))
  }

  function Pow10(n: nat): (p: nat)
    ensures p >= 1
  {
    if n == 0 then 1 else 10 * Pow10(n - 1)
  }

  /** Length of an exponent part `e`/`E`, optional sign, at least one digit, at the start of `s`; 0 if none. */
  function ExponentLength(s: string): nat {
    if |s| < 2 || (s[0] != 'e' && s[0] != 'E') then 0
    else
      var signed := s[1] == '-' || s[1] == '+';
      var digits := DigitPrefix(if signed then s[2..] else s[1..], 10);
      if digits == 0 then 0 else 1 + (if signed then 1 else 0) + digits
  }

  /** The power of ten an exponent part at the start of `s` denotes (0 when there is none). */
  function ExponentValue(s: string): int {
    if ExponentLength(s) == 0 then 0
    else
      var signed := s[1] == '-' || s[1] == '+';
      var body := if signed then s[2..] else s[1..];
      var m := DigitsValue(body[..DigitPrefix(body, 10)], 10) as int;
      if s[1] == '-' then -m else m
  }

  /** `m * 10^e` for a possibly negative `e`. */
  function Scale(m: real, e: int): real {
    if e >= 0 then m * (Pow10(e) as real) else m / (Pow10(-e) as real)
  }

  /**
   * `parseFloat(s)`: leading white space and one sign are skipped, the
   * unsigned literal is read by `ParseUnsignedFloat`, and the sign is
   * applied last.
   */
  function ParseFloat(s: string): JsFloat {
    var t := TrimStart(s);
    var r := ParseUnsignedFloat(Unsigned(t));
    if IsNegative(t) then Negate(r) else r
  }

  function Negate(x: JsFloat): JsFloat {
    match x
    case FloatNaN => FloatNaN
    case Infinity(neg) => Infinity(!neg)
    case Float(v) => Float(-v)
  }

  /** The longest prefix of `u` that is `Infinity` or a decimal literal. */
  function ParseUnsignedFloat(u: string): JsFloat {
    if |u| >= 8 && u[..8] == "Infinity" then Infinity(false) else ParseDecimal(u)
  }

  /**
   * Digits with an optional `.` and fraction digits, then an optional
   * exponent; NaN when neither the integer part nor the fraction has a digit.
   */
  function ParseDecimal(u: string): JsFloat {
    var ni := DigitPrefix(u, 10);
    var rest := u[ni..];
    var fraction := FractionDigits(rest);
    if ni == 0 && fraction == [] then FloatNaN
    else Float(Scale(Mantissa(u[..ni], fraction), ExponentValue(AfterFraction(rest))))
  }

  /** The fraction digits after a `.` at the start of `rest`; none without a `.`. */
  function FractionDigits(rest: string): string {
    if rest != [] && rest[0] == '.' then rest[1..][..DigitPrefix(rest[1..], 10)] else []
  }

  /** What follows the `.` and its fraction digits (the `.` is consumed even with no digit after it). */
  function AfterFraction(rest: string): string {
    if rest != [] && rest[0] == '.' then rest[1 + DigitPrefix(rest[1..], 10)..] else rest
  }

  /** The value of `whole.fraction`. */
  function Mantissa(whole: string, fraction: string): real {
    (DigitsValue(whole, 10) * Pow10(|fraction|) + DigitsValue(fraction, 10)) as real / (Pow10(|fraction|) as real)
  }

  /** Without fraction digits the mantissa is the integer part. */
  lemma MantissaOfWhole(whole: string)
    ensures Mantissa(whole, []) == DigitsValue(whole, 10) as real
  {
    assert Pow10(0) == 1;
  }

  /** No exponent leaves the mantissa as it is. */
  lemma ScaleByZero(m: real)
    ensures Scale(m, 0) == m
  {
    assert Pow10(0) == 1;
  }

  /** The decimal digit for `d`. */
  function DigitChar(d: nat): (c: char)
    requires d < 10
    ensures DigitOf(c) == d
  {
    ['0', '1', '2', '3', '4', '5', '6', '7', '8', '9'][d]
  }

  /** The decimal text of a natural number, as a status-file writer prints it. */
  function NatToString(n: nat): (s: string)
    ensures s != [] && forall k :: 0 <= k < |s| ==> IsDigit(s[k], 10)
  {
    if n < 10 then [DigitChar(n)] else NatToString(n / 10) + [DigitChar(n % 10)]
  }

  /** The decimal text of an integer, with a leading `-` when it is negative. */
  function IntToString(n: int): string {
    if n < 0 then "-" + NatToString(-n) else NatToString(n)
  }

  /** Reading back the decimal text of `n` gives `n`. */
  lemma {:induction false} DigitsValueOfNatToString(n: nat)
    ensures DigitsValue(NatToString(n), 10) == n
  {
    if n >= 10 {
      DigitsValueOfNatToString(n / 10);
      var s := NatToString(n);
      assert s[..|s| - 1] == NatToString(n / 10);
    }
  }

  /** The longest decimal-digit prefix of `d + rest` is `d` when `d` is all digits and `rest` does not start with one. */
  lemma {:induction false} DigitPrefixOfDigits(d: string, rest: string)
    requires forall k :: 0 <= k < |d| ==> IsDigit(d[k], 10)
    requires rest == [] || !IsDigit(rest[0], 10)
    ensures DigitPrefix(d + rest, 10) == |d|
    ensures (d + rest)[..|d|] == d
  {
    if d != [] {
      DigitPrefixOfDigits(d[1..], rest);
      assert (d + rest)[1..] == d[1..] + rest;
    }
  }

  /** A decimal digit or a minus sign is not white space. */
  lemma DigitIsNotSpace(c: char)
    requires IsDigit(c, 10) || c == '-'
    ensures !IsSpace(c)
  {
    assert '0' <= c <= '9' || c == '-';
  }

  /** The unsigned reading of a decimal natural followed by anything that cannot continue it. */
  lemma ParseUnsignedOfDecimal(m: nat, rest: string)
    requires rest == [] || (!IsDigit(rest[0], 10) && rest[0] != 'x' && rest[0] != 'X')
    ensures ParseUnsignedInt(NatToString(m) + rest) == Int(m)
  {
    var d := NatToString(m);
    var u := d + rest;
    DigitsValueOfNatToString(m);
    DigitPrefixOfDigits(d, rest);
    if |u| >= 2 {
      assert u[1] == (if |d| >= 2 then d[1] else rest[0]);
      assert u[1] != 'x' && u[1] != 'X';
    }
  }

  /** The text of an integer is its own `trimStart`, and `Unsigned` leaves the digits. */
  lemma DecimalShape(n: int, rest: string)
    ensures TrimStart(IntToString(n) + rest) == IntToString(n) + rest
    ensures Unsigned(IntToString(n) + rest) == NatToString(if n < 0 then -n else n) + rest
    ensures IsNegative(IntToString(n) + rest) <==> n < 0
  {
    var m: nat := if n < 0 then -n else n;
    var d := NatToString(m);
    var s := IntToString(n) + rest;
    if n < 0 {
      assert s == ['-'] + (d + rest);
      DigitIsNotSpace('-');
    } else {
      assert s == d + rest;
      assert s[0] == d[0];
      DigitIsNotSpace(d[0]);
      assert d[0] != '-' && d[0] != '+';
    }
  }

  /** `parseInt` of the decimal text of an integer followed by anything that cannot continue it gives the integer back. */
  lemma ParseIntOfDecimal(n: int, rest: string)
    requires rest == [] || (!IsDigit(rest[0], 10) && rest[0] != 'x' && rest[0] != 'X')
    ensures ParseInt(IntToString(n) + rest) == Int(n)
  {
    ParseUnsignedOfDecimal(if n < 0 then -n else n, rest);
    DecimalShape(n, rest);
  }

  /** `parseInt` reads back the decimal text of any integer. */
  lemma ParseIntRoundTrip(n: int)
    ensures ParseInt(IntToString(n)) == Int(n)
  {
    ParseIntOfDecimal(n, []);
    assert IntToString(n) + [] == IntToString(n);
  }

  /** The unsigned float reading of the decimal text of a natural number is that number. */
  lemma ParseUnsignedFloatOfDecimal(m: nat)
    ensures ParseUnsignedFloat(NatToString(m)) == Float(m as real)
  {
    var d := NatToString(m);
    DigitFirstIsDecimal(d);
    ParseDecimalOfDigits(d);
    DigitsValueOfNatToString(m);
  }

  /** A run of decimal digits with nothing after it reads as its value. */
  lemma ParseDecimalOfDigits(d: string)
    requires d != [] && forall k :: 0 <= k < |d| ==> IsDigit(d[k], 10)
    ensures ParseDecimal(d) == Float(DigitsValue(d, 10) as real)
  {
    DigitPrefixOfDigits(d, []);
    assert d + [] == d;
    assert d[|d|..] == [] && d[..|d|] == d;
    assert ExponentLength([]) == 0;
    MantissaOfWhole(d);
    ScaleByZero(DigitsValue(d, 10) as real);
  }

  /** `parseFloat` of the decimal text of an integer gives the integer back. */
  lemma ParseFloatOfDecimal(n: int)
    ensures ParseFloat(IntToString(n)) == Float(n as real)
  {
    var s := IntToString(n);
    assert s + [] == s;
    DecimalShape(n, []);
    ParseUnsignedFloatOfDecimal(if n < 0 then -n else n);
  }

  /** After the blanks and one sign, a text that does not go on with a decimal digit is NaN. */
  lemma ParseIntNoDigits(s: string)
    requires var u := Unsigned(TrimStart(s)); u == [] || !IsDigit(u[0], 10)
    ensures ParseInt(s) == IntNaN
  {
    UnsignedNoDigits(Unsigned(TrimStart(s)));
  }

  lemma UnsignedNoDigits(u: string)
    requires u == [] || !IsDigit(u[0], 10)
    ensures ParseUnsignedInt(u) == IntNaN
  {
  }

  /** A `0x` prefix makes `parseInt` read hexadecimal digits. */
  lemma ParseIntHexExample()
    ensures ParseInt("0x1A") == Int(26)
  {
    TrimStartOfNonSpace("0x1A");
    assert Unsigned("0x1A") == "0x1A";
    var body := "0x1A"[2..];
    assert body == "1A";
    assert DigitPrefix(body, 16) == 2;
    assert body[..2] == "1A";
    assert DigitsValue("1A", 16) == 26 by {
      assert "1A"[..1] == "1";
      assert ("1A"[..1])[..0] == [];
    }
  }

  /** A latency as the status file writes it. */
  lemma ParseFloatLatencyExample()
    ensures ParseFloat("15.3") == Float(15.3)
  {
    var u := "15.3";
    TrimStartOfNonSpace(u);
    assert Unsigned(u) == u;
    assert IsDigit(u[0], 10);
    DigitFirstIsDecimal(u);
    LatencyDecimal();
  }

  /** Text starting with a digit is no `Infinity`: it is read as a decimal literal. */
  lemma DigitFirstIsDecimal(u: string)
    requires u != [] && IsDigit(u[0], 10)
    ensures ParseUnsignedFloat(u) == ParseDecimal(u)
  {
    assert !(|u| >= 8 && u[..8] == "Infinity") by {
      if |u| >= 8 {
        assert u[..8][0] == u[0] != 'I';
      }
    }
  }

  /** `15.3`: integer digits, a point, one fraction digit, no exponent. */
  lemma LatencyDecimal()
    ensures ParseDecimal("15.3") == Float(15.3)
  {
    var u := "15.3";
    assert DigitPrefix(u, 10) == 2;
    assert u[..2] == "15" && u[2..] == ".3";
    var rest := u[2..];
    assert rest[1..] == "3";
    assert DigitPrefix("3", 10) == 1;
    assert "3"[..1] == "3" && "3"[1..] == [];
    assert FractionDigits(rest) == "3" && AfterFraction(rest) == [];
    assert ExponentLength([]) == 0;
    LatencyMantissa();
    ScaleByZero(15.3);
  }

  /** `15` and `3` after the point make 15.3. */
  lemma LatencyMantissa()
    ensures Mantissa("15", "3") == 15.3
  {
    assert DigitsValue("15", 10) == 15 by {
      assert "15"[..1] == "1";
      assert ("15"[..1])[..0] == [];
    }
    assert DigitsValue("3", 10) == 3 by {
      assert "3"[..0] == [];
    }
    assert Pow10(1) == 10;
  }

  /** A lone point has no digit and reads as NaN. */
  lemma ParseFloatPointExample()
    ensures ParseFloat(".") == FloatNaN
  {
    TrimStartOfNonSpace(".");
    assert Unsigned(".") == ".";
    assert ParseDecimal(".") == FloatNaN by {
      assert DigitPrefix(".", 10) == 0;
      assert "."[0..] == ".";
      assert "."[1..] == [];
      assert DigitPrefix([], 10) == 0;
    }
    assert ParseUnsignedFloat(".") == FloatNaN;
  }
}
