/**
 * The canvas-size form of src/screens/Create.js: the two text fields go through the
 * global `parseInt` (section 19.2.5 of ECMA-262, with no radix argument) and then
 * through three checks, in order, before the editor opens.
 */
module CreateScreen {

  /** The result of `parseInt`: NaN, or an integer (`-0` is the integer 0 here). */
  datatype ParsedInt = NaN | Num(value: int)

  /** What pressing "Create Canvas" does: an alert, or navigation to the editor. */
  datatype Outcome = Alert(title: string, message: string) | Navigate(width: int, height: int)

  /**
   * The characters `parseInt` skips at the start: StrWhiteSpaceChar, that is the
   * WhiteSpace code points of section 12.2 (tab, vertical tab, form feed, the byte-order
   * mark and the space separators of category Zs) and the LineTerminators of 12.3.
   */
  predicate IsSpace(c: char)
  {
    c == '\t' || c == '\U{000B}' || c == '\U{000C}' || c == '\U{FEFF}' ||
    c == ' ' || c == '\U{00A0}' || c == '\U{1680}' || '\U{2000}' <= c <= '\U{200A}' ||
    c == '\U{202F}' || c == '\U{205F}' || c == '\U{3000}' ||
    c == '\n' || c == '\r' || c == '\U{2028}' || c == '\U{2029}'
  }

  /** The value of `c` as a digit of radix up to 36, or 36 when it is no such digit. */
  function DigitOf(c: char): (d: nat)
    ensures d <= 36
    ensures '0' <= c <= '9' <==> d < 10
  {
    if '0' <= c <= '9' then c as int - '0' as int
    else if 'a' <= c <= 'z' then c as int - 'a' as int + 10
    else if 'A' <= c <= 'Z' then c as int - 'A' as int + 10
    else 36
  }

  /** The input with its leading white space removed. */
  function TrimStart(s: string): (r: string)
    ensures |r| <= |s| && r == s[|s| - |r|..]
    ensures forall k :: 0 <= k < |s| - |r| ==> IsSpace(s[k])
    ensures r == [] || !IsSpace(r[0])
  {
    if s != [] && IsSpace(s[0]) then
      var r := TrimStart(s[1..]);
      assert s[1..][|s| - 1 - |r|..] == s[|s| - |r|..];
      r
    else s
  }

  /** The longest prefix of `s` made of digits of the given radix. */
  function DigitPrefix(s: string, radix: nat): (r: string)
    ensures |r| <= |s| && r == s[..|r|]
    ensures forall k :: 0 <= k < |r| ==> DigitOf(r[k]) < radix
    ensures |r| == |s| || DigitOf(s[|r|]) >= radix
  {
    if s != [] && DigitOf(s[0]) < radix then [s[0]] + DigitPrefix(s[1..], radix) else []
  }

  /** The number the digits denote, read most significant first. */
  function Value(digits: string, radix: nat): nat
  {
    if digits == [] then 0
    else Value(digits[..|digits| - 1], radix) * radix + DigitOf(digits[|digits| - 1])
  }

  /** The input starts with the hexadecimal prefix `0x` or `0X`. */
  predicate HexPrefixed(u: string)
  {
    |u| >= 2 && u[0] == '0' && (u[1] == 'x' || u[1] == 'X')
  }

  /**
   * The digits after the sign: radix 16 after a `0x` prefix, 10 otherwise, and the
   * longest run of digits of that radix; no digit at all is NaN.
   */
  function ParseUnsigned(u: string): (r: ParsedInt)
    ensures r.Num? ==> r.value >= 0
  {
    var radix := if HexPrefixed(u) then 16 else 10;
    var v := if HexPrefixed(u) then u[2..] else u;
    var d := DigitPrefix(v, radix);
    if d == [] then NaN else Num(Value(d, radix))
  }

  /** An optional sign, then the digits; a minus sign negates. */
  function ParseSigned(t: string): ParsedInt
  {
    if t != [] && t[0] == '-' then
      match ParseUnsigned(t[1..])
      case NaN => NaN
      case Num(v) => Num(-v)
    else if t != [] && t[0] == '+' then ParseUnsigned(t[1..])
    else ParseUnsigned(t)
  }

  /**
   * `parseInt(s)`: skip the leading white space, then read a signed integer. A number
   * is read only from text with a decimal digit, and a negative one only from text with
   * a minus sign.
   */
  function ParseInt(s: string): (r: ParsedInt)
    ensures r.Num? ==> exists k :: 0 <= k < |s| && '0' <= s[k] <= '9'
    ensures r.Num? && r.value < 0 ==> '-' in s
  {
    SignedNeedsDigit(TrimStart(s));
    ParseSigned(TrimStart(s))
  }

  /** A number needs a decimal digit at the sign or just after it, a negative one a `-`. */
  lemma SignedNeedsDigit(t: string)
    ensures ParseSigned(t).Num? ==>
      (t != [] && '0' <= t[0] <= '9') || (|t| > 1 && '0' <= t[1] <= '9')
    ensures ParseSigned(t).Num? && ParseSigned(t).value < 0 ==> t != [] && t[0] == '-'
  {
    if t != [] && (t[0] == '-' || t[0] == '+') {
      UnsignedNeedsDigit(t[1..]);
    } else {
      UnsignedNeedsDigit(t);
    }
  }

  /** Digits of either radix start with a decimal digit: hexadecimal ones follow `0x`. */
  lemma UnsignedNeedsDigit(u: string)
    ensures ParseUnsigned(u).Num? ==> u != [] && '0' <= u[0] <= '9'
  {
  }

  // The three alerts, in the order the checks run.
  const InvalidInput := Alert("Invalid Input", "Width and height must be numbers")
  const InvalidDimensions := Alert("Invalid Dimensions", "Width and height must be greater than 0")
  const TooLarge := Alert("Dimensions Too Large", "Maximum dimension is 100x100 pixels")

  /** A dimension the form accepts. */
  predicate Acceptable(p: ParsedInt)
  {
    p.Num? && 1 <= p.value <= 100
  }

  /**
   * The three checks of `handleCreateCanvas` (lines 26-45) on the parsed values: one of
   * the three alerts, or navigation with dimensions from 1 to 100.
   */
  function Validate(pixelWidth: ParsedInt, pixelHeight: ParsedInt): (r: Outcome)
    ensures r == InvalidInput || r == InvalidDimensions || r == TooLarge || r.Navigate?
    ensures r.Navigate? ==> pixelWidth == Num(r.width) && pixelHeight == Num(r.height)
    ensures r.Navigate? ==> 1 <= r.width <= 100 && 1 <= r.height <= 100
  {
    if pixelWidth.NaN? || pixelHeight.NaN? then InvalidInput
    else if pixelWidth.value <= 0 || pixelHeight.value <= 0 then InvalidDimensions
    else if pixelWidth.value > 100 || pixelHeight.value > 100 then TooLarge
    else
      Navigate(pixelWidth.value, pixelHeight.value)
  }

  /**
   * `handleCreateCanvas` (lines 21-46) applied to the two fields' texts. The editor
   * opens only with the values `parseInt` read from the fields, width first.
   */
  function HandleCreateCanvas(width: string, height: string): (r: Outcome)
    ensures r.Navigate? ==> ParseInt(width) == Num(r.width) && ParseInt(height) == Num(r.height)
    ensures r.Navigate? ==> 1 <= r.width <= 100 && 1 <= r.height <= 100
  {
    Validate(ParseInt(width), ParseInt(height))
  }

  /**
   * The editor opens exactly when both values are integers from 1 to 100, and it opens
   * with those integers, width first.
   */
  lemma NavigatesIffAcceptable(pixelWidth: ParsedInt, pixelHeight: ParsedInt)
    ensures Validate(pixelWidth, pixelHeight).Navigate? <==>
      Acceptable(pixelWidth) && Acceptable(pixelHeight)
    ensures Validate(pixelWidth, pixelHeight).Navigate? ==>
      Validate(pixelWidth, pixelHeight) == Navigate(pixelWidth.value, pixelHeight.value)
  {
    assert InvalidInput.Alert? && InvalidDimensions.Alert? && TooLarge.Alert?;
  }

  /**
   * The checks run in order: a NaN value is reported even when the other is too large
   * or not positive, and a non-positive value is reported even when the other is too
   * large.
   */
  lemma RejectionOrder(pixelWidth: ParsedInt, pixelHeight: ParsedInt)
    ensures pixelWidth.NaN? || pixelHeight.NaN? ==>
      Validate(pixelWidth, pixelHeight) == InvalidInput
    ensures pixelWidth.Num? && pixelHeight.Num? &&
            (pixelWidth.value <= 0 || pixelHeight.value <= 0) ==>
      Validate(pixelWidth, pixelHeight) == InvalidDimensions
    ensures pixelWidth.Num? && pixelHeight.Num? &&
            pixelWidth.value > 0 && pixelHeight.value > 0 &&
            (pixelWidth.value > 100 || pixelHeight.value > 100) ==>
      Validate(pixelWidth, pixelHeight) == TooLarge
  {
  }

  /** The decimal numeral of `n`, without leading zeros. */
  function Decimal(n: nat): (s: string)
    ensures |s| > 0
    ensures forall k :: 0 <= k < |s| ==> '0' <= s[k] <= '9'
  {
    if n < 10 then [('0' as int + n) as char]
    else Decimal(n / 10) + [('0' as int + n % 10) as char]
  }

  lemma {:induction false} DecimalValue(n: nat)
    ensures Value(Decimal(n), 10) == n
    decreases n
  {
    if n >= 10 {
      var d := Decimal(n);
      assert d[..|d| - 1] == Decimal(n / 10);
      DecimalValue(n / 10);
    }
  }

  lemma {:induction false} DecimalLeading(n: nat)
    requires n > 0
    ensures Decimal(n)[0] != '0'
    decreases n
  {
    if n >= 10 {
      DecimalLeading(n / 10);
    }
  }

  /** A run of digits followed by a non-digit is read up to the non-digit. */
  lemma {:induction false} DigitPrefixOfRun(d: string, rest: string, radix: nat)
    requires forall k :: 0 <= k < |d| ==> DigitOf(d[k]) < radix
    requires rest == [] || DigitOf(rest[0]) >= radix
    ensures DigitPrefix(d + rest, radix) == d
    decreases |d|
  {
    if d != [] {
      assert (d + rest)[1..] == d[1..] + rest;
      DigitPrefixOfRun(d[1..], rest, radix);
    } else {
      assert d + rest == rest;
    }
  }

  /** Text that starts with a digit is read unsigned. */
  lemma PlainStart(u: string)
    requires u != [] && '0' <= u[0] <= '9'
    ensures ParseInt(u) == ParseUnsigned(u)
  {
    assert !IsSpace(u[0]);
  }

  /** A sign in front of unsigned digits negates them or leaves them as they are. */
  lemma SignedStart(sign: char, u: string, n: nat)
    requires sign == '-' || sign == '+'
    requires u != [] && '0' <= u[0] <= '9'
    requires ParseUnsigned(u) == Num(n)
    ensures ParseInt([sign] + u) == if sign == '-' then Num(-(n as int)) else Num(n)
  {
    assert !IsSpace(sign);
    assert ([sign] + u)[1..] == u;
  }

  /** Digits that read as `n` read as `n`, `-n` and `n` with no sign, `-` and `+`. */
  lemma Signs(u: string, n: nat)
    requires u != [] && '0' <= u[0] <= '9'
    requires ParseUnsigned(u) == Num(n)
    ensures ParseInt(u) == Num(n)
    ensures ParseInt("-" + u) == Num(-(n as int))
    ensures ParseInt("+" + u) == Num(n)
  {
    PlainStart(u);
    SignedStart('-', u, n);
    SignedStart('+', u, n);
  }

  /**
   * A run of decimal digits followed by text that is no digit reads as the run's value,
   * unless the run is the `0` of a `0x` prefix.
   */
  lemma DigitRun(d: string, rest: string)
    requires d != [] && forall k :: 0 <= k < |d| ==> '0' <= d[k] <= '9'
    requires rest == [] || !('0' <= rest[0] <= '9')
    requires !HexPrefixed(d + rest)
    ensures ParseUnsigned(d + rest) == Num(Value(d, 10))
  {
    DigitPrefixOfRun(d, rest, 10);
  }

  /**
   * `parseInt` inverts the decimal rendering of a number, with or without a sign and
   * whatever non-digit text follows it, such as a unit ("12px").
   */
  lemma DecimalRoundTrip(n: nat, rest: string)
    requires rest == [] || !('0' <= rest[0] <= '9')
    requires n > 0 || rest == [] || (rest[0] != 'x' && rest[0] != 'X')
    ensures ParseInt(Decimal(n) + rest) == Num(n)
    ensures ParseInt("-" + (Decimal(n) + rest)) == Num(-(n as int))
    ensures ParseInt("+" + (Decimal(n) + rest)) == Num(n)
  {
    if n > 0 {
      DecimalLeading(n);
    }
    var u := Decimal(n) + rest;
    assert u[0] == Decimal(n)[0];
    DigitRun(Decimal(n), rest);
    DecimalValue(n);
    Signs(u, n);
  }

  /** Leading white space does not change what `parseInt` reads. */
  lemma LeadingSpaceIgnored(space: string, s: string)
    requires forall k :: 0 <= k < |space| ==> IsSpace(space[k])
    ensures ParseInt(space + s) == ParseInt(s)
  {
    TrimAfterSpace(space, s);
  }

  lemma {:induction false} TrimAfterSpace(space: string, s: string)
    requires forall k :: 0 <= k < |space| ==> IsSpace(space[k])
    ensures TrimStart(space + s) == TrimStart(s)
    decreases |space|
  {
    if space == [] {
      assert space + s == s;
    } else {
      assert (space + s)[1..] == space[1..] + s;
      TrimAfterSpace(space[1..], s);
    }
  }

  /** A literal run of digits, then a non-digit, reads as the given value. */
  lemma Reads(d: string, rest: string, n: nat)
    requires d != [] && forall k :: 0 <= k < |d| ==> '0' <= d[k] <= '9'
    requires rest == [] || !('0' <= rest[0] <= '9')
    requires !HexPrefixed(d + rest) && Value(d, 10) == n
    ensures ParseInt(d + rest) == Num(n)
  {
    DigitRun(d, rest);
    assert (d + rest)[0] == d[0];
    PlainStart(d + rest);
  }

  /** A literal run of digits alone reads as the given value. */
  lemma Numeral(d: string, n: nat)
    requires d != [] && forall k :: 0 <= k < |d| ==> '0' <= d[k] <= '9'
    requires !HexPrefixed(d) && Value(d, 10) == n
    ensures ParseInt(d) == Num(n)
  {
    assert d + [] == d;
    Reads(d, [], n);
  }

  /** Text whose first character is no space, sign or decimal digit reads as NaN. */
  lemma NoDigits(s: string)
    requires s != [] && !IsSpace(s[0]) && s[0] != '-' && s[0] != '+'
    requires !('0' <= s[0] <= '9')
    ensures ParseInt(s) == NaN
  {
  }

  // What `parseInt` reads from some typical entries, one entry per lemma.

  lemma ParseUnit()
    ensures ParseInt("12px") == Num(12)
  {
    Reads("12", "px", 12);
    assert "12" + "px" == "12px";
  }

  lemma ParseSeven()
    ensures ParseInt("7") == Num(7)
  {
    Numeral("7", 7);
  }

  lemma ParseLeadingSpace()
    ensures ParseInt(" 7") == Num(7)
  {
    ParseSeven();
    LeadingSpaceIgnored(" ", "7");
    assert " " + "7" == " 7";
  }

  lemma ParseExponent()
    ensures ParseInt("1e3") == Num(1)
  {
    Reads("1", "e3", 1);
    assert "1" + "e3" == "1e3";
  }

  lemma ParseThree()
    ensures ParseInt("3") == Num(3)
  {
    Numeral("3", 3);
  }

  lemma ParseMinus()
    ensures ParseInt("-3") == Num(-3)
  {
    UnsignedThree();
    SignedStart('-', "3", 3);
    assert ['-'] + "3" == "-3";
  }

  lemma UnsignedThree()
    ensures ParseUnsigned("3") == Num(3)
  {
    ParseThree();
    PlainStart("3");
  }

  lemma ParseHex()
    ensures ParseInt("0x10") == Num(16)
  {
    assert HexPrefixed("0x10") && "0x10"[2..] == "10";
    assert DigitPrefix("10", 16) == "10";
    assert Value("10", 16) == 16;
    assert TrimStart("0x10") == "0x10";
  }

  lemma ParseAboveLimit()
    ensures ParseInt("101") == Num(101)
  {
    assert Value("10", 10) == 10;
    Numeral("101", 101);
  }

  lemma ParseLetters()
    ensures ParseInt("abc") == NaN
  {
    NoDigits("abc");
  }

  lemma ParseEmpty()
    ensures ParseInt("") == NaN
  {
  }

  lemma ParseLoneSign()
    ensures ParseInt("-") == NaN
  {
    assert |"-"| == 1 && "-"[0] == '-';
  }

  lemma Parse16()
    ensures ParseInt("16") == Num(16)
  {
    Numeral("16", 16);
  }

  lemma Parse24()
    ensures ParseInt("24") == Num(24)
  {
    Numeral("24", 24);
  }

  lemma Parse32()
    ensures ParseInt("32") == Num(32)
  {
    Numeral("32", 32);
  }

  lemma Parse48()
    ensures ParseInt("48") == Num(48)
  {
    Numeral("48", 48);
  }

  lemma Parse64()
    ensures ParseInt("64") == Num(64)
  {
    Numeral("64", 64);
  }

  // The outcome of some typical pairs of entries, one for each branch.

  /** Text after the digits is ignored, and so is leading white space. */
  lemma UnitAndSpaceAccepted()
    ensures HandleCreateCanvas("12px", " 7") == Navigate(12, 7)
  {
    ParseUnit();
    ParseLeadingSpace();
    assert HandleCreateCanvas("12px", " 7") == Validate(Num(12), Num(7));
  }

  /** A `0x` prefix reads hexadecimal; an exponent is not read. */
  lemma HexAndExponentAccepted()
    ensures HandleCreateCanvas("0x10", "1e3") == Navigate(16, 1)
  {
    ParseHex();
    ParseExponent();
    assert HandleCreateCanvas("0x10", "1e3") == Validate(Num(16), Num(1));
  }

  /** A field with no digits is reported first, even beside a negative one. */
  lemma NoDigitsReportedFirst()
    ensures HandleCreateCanvas("-3", "abc") == InvalidInput
    ensures HandleCreateCanvas("", "12px") == InvalidInput
  {
    ParseMinus();
    ParseLetters();
    assert HandleCreateCanvas("-3", "abc") == Validate(Num(-3), NaN);
    ParseEmpty();
    ParseUnit();
    assert HandleCreateCanvas("", "12px") == Validate(NaN, Num(12));
  }

  /** A non-positive field is reported before a field that is too large. */
  lemma NonPositiveReportedBeforeTooLarge()
    ensures HandleCreateCanvas("-3", "101") == InvalidDimensions
  {
    ParseMinus();
    ParseAboveLimit();
    assert HandleCreateCanvas("-3", "101") == Validate(Num(-3), Num(101));
  }

  lemma TooLargeRejected()
    ensures HandleCreateCanvas("101", "7") == TooLarge
  {
    ParseAboveLimit();
    ParseSeven();
    assert HandleCreateCanvas("101", "7") == Validate(Num(101), Num(7));
  }

  // The four recommended sizes (lines 91-122) all open the editor at that size.

  lemma Preset16Accepted()
    ensures HandleCreateCanvas("16", "16") == Navigate(16, 16)
  {
    Parse16();
    assert HandleCreateCanvas("16", "16") == Validate(Num(16), Num(16));
  }

  lemma Preset32Accepted()
    ensures HandleCreateCanvas("32", "32") == Navigate(32, 32)
  {
    Parse32();
    assert HandleCreateCanvas("32", "32") == Validate(Num(32), Num(32));
  }

  lemma Preset64Accepted()
    ensures HandleCreateCanvas("64", "64") == Navigate(64, 64)
  {
    Parse64();
    assert HandleCreateCanvas("64", "64") == Validate(Num(64), Num(64));
  }

  lemma Preset48x24Accepted()
    ensures HandleCreateCanvas("48", "24") == Navigate(48, 24)
  {
    Parse48();
    Parse24();
    assert HandleCreateCanvas("48", "24") == Validate(Num(48), Num(24));
  }
}
