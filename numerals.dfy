/**
 * The integer/text conversions that the encoding module takes from the
 * Python runtime: `int(text, base)` for bases 10 and 16, `hex(n)` and
 * `str(n)`.  Text is read as the ASCII bytes it is made of; text is written
 * as a Dafny string.
 */
module Numerals {
  import opened Wrappers

  /** One byte of a Python `bytes` value, or of the encoded form of a `str`. */
  type byte = x: int | 0 <= x < 256

  const MINUS: byte := '-' as int
  const PLUS: byte := '+' as int
  const ZERO: byte := '0' as int
  const LOWER_X: byte := 'x' as int
  const UPPER_X: byte := 'X' as int

  /** The two bases the encoding module parses and prints. */
  predicate IsBase(base: nat) {
    base == 10 || base == 16
  }

  predicate IsAscii(s: string) {
    forall i :: 0 <= i < |s| ==> s[i] as int < 128
  }

  /** The bytes of an ASCII string (the same under every ASCII-compatible codec). */
  function AsciiBytes(s: string): (b: seq<byte>)
    requires IsAscii(s)
  {
    seq(|s|, i requires 0 <= i < |s| => s[i] as int)
  }

  lemma AsciiBytesAppend(s: string, t: string)
    requires IsAscii(s) && IsAscii(t)
    ensures IsAscii(s + t)
    ensures AsciiBytes(s + t) == AsciiBytes(s) + AsciiBytes(t)
  {
    assert forall i :: 0 <= i < |s + t| ==> (s + t)[i] == if i < |s| then s[i] else t[i - |s|];
  }

  /** A lower-case digit character of the base, as `hex` and `str` print digits. */
  predicate IsDigitChar(c: char, base: nat) {
    ('0' <= c <= '9' && c as int - '0' as int < base) || (base == 16 && 'a' <= c <= 'f')
  }

  /** The value of a digit code in the base, either letter case, as `int` reads it. */
  function DigitValue(code: int, base: nat): (r: Option<nat>)
    requires IsBase(base)
    ensures r.Some? ==> r.value < base
    ensures r.Some? <==>
      (ZERO <= code <= '9' as int && code - ZERO < base)
      || (base == 16 && ('a' as int <= code <= 'f' as int || 'A' as int <= code <= 'F' as int))
  {
    var d :=
      if ZERO <= code <= '9' as int then code - ZERO
      else if 'a' as int <= code <= 'f' as int then code - 'a' as int + 10
      else if 'A' as int <= code <= 'F' as int then code - 'A' as int + 10
      else 16;
    if d < base then Some(d) else None
  }

  /** The lower-case character of digit `d`. */
  function DigitChar(d: nat): (c: char)
    requires d < 16
    ensures c as int < 128
    ensures DigitValue(c as int, 16) == Some(d)
    ensures c == '0' <==> d == 0
  {
    if d < 10 then ('0' as int + d) as char else ('a' as int + (d - 10)) as char
  }

  lemma DigitCharIn(d: nat, base: nat)
    requires IsBase(base) && d < base
    ensures IsDigitChar(DigitChar(d), base)
    ensures DigitValue(DigitChar(d) as int, base) == Some(d)
  {
  }

  /** Splitting off the last digit, stated for each base so that the arithmetic stays linear. */
  lemma DivModBase(n: nat, base: nat)
    requires IsBase(base)
    ensures n % base < base && n == n / base * base + n % base
    ensures n >= base ==> 0 < n / base < n
  {
    if base == 10 {
      assert n % 10 < 10 && n == n / 10 * 10 + n % 10;
    } else {
      assert n % 16 < 16 && n == n / 16 * 16 + n % 16;
    }
  }

  lemma DivModOfDigits(high: nat, low: nat, base: nat)
    requires IsBase(base) && low < base
    ensures (high * base + low) / base == high && (high * base + low) % base == low
    ensures high > 0 ==> high * base + low >= base
  {
    if base == 10 {
      assert (high * 10 + low) / 10 == high && (high * 10 + low) % 10 == low;
    } else {
      assert (high * 16 + low) / 16 == high && (high * 16 + low) % 16 == low;
    }
  }

  lemma DigitCharOf(c: char, base: nat)
    requires IsBase(base) && IsDigitChar(c, base)
    ensures DigitValue(c as int, base).Some?
    ensures DigitChar(DigitValue(c as int, base).value) == c
  {
  }

  /**
   * The digits of `n` in the base, most significant first, lower case and
   * without leading zeros; zero is the single digit "0".
   */
  function Digits(n: nat, base: nat): (s: string)
    requires IsBase(base)
    ensures |s| > 0 && IsAscii(s)
    ensures forall i :: 0 <= i < |s| ==> IsDigitChar(s[i], base)
    ensures s[0] == '0' <==> n == 0
    ensures n == 0 ==> s == "0"
    decreases n
  {
    if n < base then
      DigitCharIn(n, base);
      [DigitChar(n)]
    else
      DivModBase(n, base);
      var high := Digits(n / base, base);
      var low := DigitChar(n % base);
      DigitCharIn(n % base, base);
      var s := high + [low];
      assert forall i :: 0 <= i < |high| ==> s[i] == high[i];
      assert s[|high|] == low;
      s
  }

  /** The value of a digit string in the base; None when a byte is not a digit. */
  function DigitsValue(s: seq<byte>, base: nat): Option<nat>
    requires IsBase(base)
  {
    if s == [] then Some(0)
    else
      var high := DigitsValue(s[..|s| - 1], base);
      var low := DigitValue(s[|s| - 1], base);
      if high.Some? && low.Some? then Some(high.value * base + low.value) else None
  }

  lemma {:induction false} DigitsValueDefined(s: seq<byte>, base: nat)
    requires IsBase(base)
    ensures DigitsValue(s, base).Some? <==> forall i :: 0 <= i < |s| ==> DigitValue(s[i], base).Some?
  {
    if s != [] {
      DigitsValueDefined(s[..|s| - 1], base);
      assert forall i :: 0 <= i < |s| - 1 ==> s[..|s| - 1][i] == s[i];
    }
  }

  /** Strings that are exactly what `Digits` prints: nonempty, lower case, no leading zero. */
  predicate IsCanonicalDigits(d: string, base: nat) {
    && |d| > 0
    && (forall i :: 0 <= i < |d| ==> IsDigitChar(d[i], base))
    && (d[0] == '0' ==> d == "0")
  }

  lemma {:induction false} DigitsRoundTrip(n: nat, base: nat)
    requires IsBase(base)
    ensures DigitsValue(AsciiBytes(Digits(n, base)), base) == Some(n)
    decreases n
  {
    var b := AsciiBytes(Digits(n, base));
    DigitCharIn(n % base, base);
    if n < base {
      assert b[..|b| - 1] == [];
    } else {
      var t := Digits(n / base, base);
      DigitsRoundTrip(n / base, base);
      AsciiBytesAppend(t, [DigitChar(n % base)]);
      assert b[..|b| - 1] == AsciiBytes(t);
    }
  }

  lemma {:induction false} CanonicalDigitsRoundTrip(d: string, base: nat)
    requires IsBase(base) && IsCanonicalDigits(d, base)
    ensures IsAscii(d)
    ensures DigitsValue(AsciiBytes(d), base).Some?
    ensures Digits(DigitsValue(AsciiBytes(d), base).value, base) == d
    decreases |d|
  {
    var b := AsciiBytes(d);
    var last := d[|d| - 1];
    DigitCharOf(last, base);
    var low := DigitValue(last as int, base).value;
    if |d| == 1 {
      assert b[..0] == [];
    } else {
      var init := d[..|d| - 1];
      assert IsCanonicalDigits(init, base);
      CanonicalDigitsRoundTrip(init, base);
      assert b[..|b| - 1] == AsciiBytes(init);
      var high := DigitsValue(AsciiBytes(init), base).value;
      assert high != 0;
      var n := high * base + low;
      DivModOfDigits(high, low, base);
      assert d == init + [last];
    }
  }

  /**
   * Python's `int(text, base)` for base 10 or 16 under a strict grammar: an
   * optional sign, then (base 16 only) an optional `0x`/`0X`, then at least
   * one digit of the base.  None stands for the ValueError it raises.
   */
  function ParseInt(s: seq<byte>, base: nat): (r: Option<int>)
    requires IsBase(base)
    ensures r.Some? ==> |s| > 0
    ensures r.Some? && r.value < 0 ==> s[0] == MINUS
    ensures r.Some? && base == 10 ==> forall i :: 0 <= i < |s| ==> s[i] != LOWER_X && s[i] != UPPER_X
  {
    var negative := |s| > 0 && s[0] == MINUS;
    var unsigned := if |s| > 0 && (s[0] == MINUS || s[0] == PLUS) then s[1..] else s;
    var digits :=
      if base == 16 && |unsigned| >= 2 && unsigned[0] == ZERO && (unsigned[1] == LOWER_X || unsigned[1] == UPPER_X)
      then unsigned[2..]
      else unsigned;
    if digits == [] then None
    else
      match DigitsValue(digits, base)
      case None => None
      case Some(m) =>
        assert base == 10 ==> forall i :: 0 <= i < |s| ==> s[i] != LOWER_X && s[i] != UPPER_X by {
          DigitsValueDefined(digits, base);
          if base == 10 {
            forall i | 0 <= i < |s|
              ensures s[i] != LOWER_X && s[i] != UPPER_X
            {
              if unsigned != s && i > 0 {
                assert s[i] == digits[i - 1];
              }
            }
          }
        }
        var value: int := if negative then -(m as int) else m;
        Some(value)
  }

  /** Python's `hex(n)`: `0x` and the digits, or `-0x` and the digits of `-n`. */
  function Hex(n: int): (s: string)
    ensures IsAscii(s)
    ensures IsCanonicalHex(s)
    ensures s[0] == '-' <==> n < 0
  {
    var d := Digits(if n < 0 then -n else n, 16);
    var s := (if n < 0 then "-0x" else "0x") + d;
    assert n < 0 ==> s[..3] == "-0x" && s[3..] == d;
    assert n >= 0 ==> s[..2] == "0x" && s[2..] == d;
    s
  }

  /**
   * Python's `str(n)` for an integer: decimal digits, with a leading `-` exactly
   * for negatives, and no leading zero except in "0" itself.
   */
  function DecimalText(n: int): (s: string)
    ensures IsAscii(s) && |s| > 0
    ensures s[0] == '-' <==> n < 0
    ensures s[0] == '0' <==> n == 0
    ensures n == 0 ==> s == "0"
    ensures n < 0 ==> |s| > 1 && s[1] != '0'
    ensures forall i :: 0 <= i < |s| ==> IsDigitChar(s[i], 10) || (i == 0 && s[i] == '-')
  {
    var d := Digits(if n < 0 then -n else n, 10);
    if n < 0 then
      assert forall i :: 1 <= i < |d| + 1 == |"-" + d| ==> ("-" + d)[i] == d[i - 1];
      "-" + d
    else d
  }

  /** The texts that `hex` can print: a prefix and canonical lower-case digits, never "-0x0". */
  predicate IsCanonicalHex(s: string) {
    || (|s| > 2 && s[..2] == "0x" && IsCanonicalDigits(s[2..], 16))
    || (|s| > 3 && s[..3] == "-0x" && IsCanonicalDigits(s[3..], 16) && s[3..] != "0")
  }

  /** `hex` output ends in a digit, so it never carries a letter suffix such as `L`. */
  lemma HexEndsInDigit(n: int)
    ensures IsDigitChar(Hex(n)[|Hex(n)| - 1], 16)
  {
    var s := Hex(n);
    if n < 0 {
      assert s[|s| - 1] == s[3..][|s| - 4];
    } else {
      assert s[|s| - 1] == s[2..][|s| - 3];
    }
  }

  /** How `int(text, 16)` reads the two prefixes that `hex` prints. */
  lemma ParseHexPrefixed(d: seq<byte>)
    requires d != [] && DigitsValue(d, 16).Some?
    ensures ParseInt([ZERO, LOWER_X] + d, 16) == Some(DigitsValue(d, 16).value as int)
    ensures ParseInt([MINUS, ZERO, LOWER_X] + d, 16) == Some(-(DigitsValue(d, 16).value as int))
  {
    assert ([ZERO, LOWER_X] + d)[2..] == d;
    assert ([MINUS, ZERO, LOWER_X] + d)[1..] == [ZERO, LOWER_X] + d;
  }

  /** The bytes `hex` prints before its digits. */
  lemma HexBytesSplit(n: int)
    ensures var d := Digits(if n < 0 then -n else n, 16);
      AsciiBytes(Hex(n)) == (if n < 0 then [MINUS, ZERO, LOWER_X] else [ZERO, LOWER_X]) + AsciiBytes(d)
  {
    var d := Digits(if n < 0 then -n else n, 16);
    if n < 0 {
      AsciiBytesAppend("-0x", d);
      assert AsciiBytes("-0x") == [MINUS, ZERO, LOWER_X];
    } else {
      AsciiBytesAppend("0x", d);
      assert AsciiBytes("0x") == [ZERO, LOWER_X];
    }
  }

  lemma HexRoundTrip(n: int)
    ensures ParseInt(AsciiBytes(Hex(n)), 16) == Some(n)
  {
    var m := if n < 0 then -n else n;
    DigitsRoundTrip(m, 16);
    ParseHexPrefixed(AsciiBytes(Digits(m, 16)));
    HexBytesSplit(n);
  }

  lemma HexOfCanonicalDigits(d: string, negative: bool)
    requires IsCanonicalDigits(d, 16) && (negative ==> d != "0")
    ensures IsAscii(d)
    ensures var s := (if negative then "-0x" else "0x") + d;
      IsAscii(s) && ParseInt(AsciiBytes(s), 16).Some? && Hex(ParseInt(AsciiBytes(s), 16).value) == s
  {
    CanonicalDigitsRoundTrip(d, 16);
    var m := DigitsValue(AsciiBytes(d), 16).value;
    ParseHexPrefixed(AsciiBytes(d));
    if negative {
      AsciiBytesAppend("-0x", d);
      assert AsciiBytes("-0x") == [MINUS, ZERO, LOWER_X];
      assert m != 0;
      assert Hex(-(m as int)) == "-0x" + d;
    } else {
      AsciiBytesAppend("0x", d);
      assert AsciiBytes("0x") == [ZERO, LOWER_X];
    }
  }

  lemma HexCanonicalInverse(s: string)
    requires IsCanonicalHex(s)
    ensures IsAscii(s)
    ensures ParseInt(AsciiBytes(s), 16).Some?
    ensures Hex(ParseInt(AsciiBytes(s), 16).value) == s
  {
    if |s| > 3 && s[..3] == "-0x" && IsCanonicalDigits(s[3..], 16) && s[3..] != "0" {
      assert s == "-0x" + s[3..];
      HexOfCanonicalDigits(s[3..], true);
    } else {
      assert s == "0x" + s[2..];
      HexOfCanonicalDigits(s[2..], false);
    }
  }

  lemma DecimalRoundTrip(n: int)
    ensures ParseInt(AsciiBytes(DecimalText(n)), 10) == Some(n)
  {
    var m := if n < 0 then -n else n;
    var d := Digits(m, 10);
    DigitsRoundTrip(m, 10);
    assert IsDigitChar(d[0], 10);
    var b := AsciiBytes(DecimalText(n));
    if n < 0 {
      AsciiBytesAppend("-", d);
      assert b == [MINUS] + AsciiBytes(d);
      assert b[1..] == AsciiBytes(d);
      assert ParseInt(b, 10) == Some(-(m as int));
    } else {
      assert b == AsciiBytes(d);
      assert b[0] != MINUS && b[0] != PLUS;
      assert ParseInt(b, 10) == Some(m);
    }
  }
}
