/**
 * The conversions of web3's encoding utilities: `to_hex`, `to_decimal`,
 * `from_decimal` and `decode_big_endian_int`, with the prefix test
 * `_is_prefixed` they share.
 *
 * Python's dynamic typing is a tagged union here.  A `str` and a `bytes`
 * value are both held as bytes: a `str` as the bytes the text/bytes
 * coercion gives for it, so coercing one kind to the other keeps the
 * bytes.  Every number written or read is ASCII, on which all the codecs
 * the coercion might use agree.
 */
module Encoding {
  import opened Wrappers
  import opened Numerals
  import HexBytes
  import BigEndian
  import JsonMap

  /** The kinds of Python value the conversions tell apart. */
  datatype PyValue =
    | Bool(flag: bool)
    | Dict(entries: seq<JsonMap.Entry>)
    | Text(encoded: seq<byte>)
    | Bytes(raw: seq<byte>)
    | Int(n: int)
    | Other(typeName: string)
  {
    /** `is_string`: text or bytes. */
    predicate IsString() {
      Text? || Bytes?
    }

    /** The bytes a string holds: its encoded form for text, itself for bytes. */
    function Encoded(): seq<byte>
      requires IsString()
    {
      if Text? then encoded else raw
    }

    /** The name of the value's type, as the error messages give it. */
    function TypeName(): string {
      match this
      case Bool(_) => "bool"
      case Dict(_) => "dict"
      case Text(_) => "str"
      case Bytes(_) => "bytes"
      case Int(_) => "int"
      case Other(t) => t
    }
  }

  datatype Error =
    /** A value of a kind the conversion does not accept. */
    | TypeError(typeName: string)
    /** `int(literal, base)` refused the text. */
    | ValueError(literal: seq<byte>, base: nat)
    /** The bytes coercion left something without `lstrip`. */
    | AttributeError(typeName: string)
    /**
     * The big-endian codec refused a non-minimal encoding.  Never returned:
     * `DecodeBigEndianInt` strips leading zeros first, and its contract
     * proves that every string decodes.
     */
    | NotMinimal

  const HEX_PREFIX: seq<byte> := [ZERO, LOWER_X]
  const NEG_HEX_PREFIX: seq<byte> := [MINUS, ZERO, LOWER_X]

  /** `_is_prefixed` (a literal `startswith`), and `is_0x_prefixed` read as the test for `0x`. */
  predicate IsPrefixed(s: seq<byte>, prefix: seq<byte>)
    ensures IsPrefixed(s, prefix) <==> |prefix| <= |s| && forall i :: 0 <= i < |prefix| ==> s[i] == prefix[i]
  {
    |prefix| <= |s| && s[..|prefix|] == prefix
  }

  /** The test that picks base 16: the text starts with `0x` or with `-0x`. */
  predicate IsHexLiteral(s: seq<byte>) {
    IsPrefixed(s, HEX_PREFIX) || IsPrefixed(s, NEG_HEX_PREFIX)
  }

  /** `int(value, 16)` for a hex literal, `int(value)` otherwise. */
  function ReadInteger(s: seq<byte>): (r: Result<int, Error>)
    ensures r.Err? ==> r == Err(ValueError(s, if IsHexLiteral(s) then 16 else 10))
    ensures r.Ok? && IsPrefixed(s, HEX_PREFIX) ==> r.value >= 0
    ensures r.Ok? && r.value < 0 ==> |s| > 0 && s[0] == MINUS
    ensures r.Ok? && !IsHexLiteral(s) ==> forall i :: 0 <= i < |s| ==> s[i] != LOWER_X
  {
    var base := if IsHexLiteral(s) then 16 else 10;
    match ParseInt(s, base)
    case Some(n) => Ok(n)
    case None => Err(ValueError(s, base))
  }

  /** `to_decimal`: a string is read by its prefix, anything else goes through `int`. */
  function ToDecimal(v: PyValue): (r: Result<int, Error>)
    ensures v.Int? ==> r == Ok(v.n)
    ensures v.Bool? ==> r == Ok(if v.flag then 1 else 0)
    ensures v.Dict? || v.Other? ==> r == Err(TypeError(v.TypeName()))
    ensures r.Err? && v.IsString() ==> r.error.ValueError?
  {
    match v
    case Text(s) => ReadInteger(s)
    case Bytes(s) => ReadInteger(s)
    case Int(n) => Ok(n)
    case Bool(b) => Ok(if b then 1 else 0)
    case _ => Err(TypeError(v.TypeName()))
  }

  /** `from_decimal`: a string is read as `to_decimal` reads it, then printed by `hex`. */
  function FromDecimal(v: PyValue): (r: Result<string, Error>)
    ensures v.Int? ==> r == Ok(Hex(v.n))
    ensures v.Bool? ==> r == Ok(if v.flag then "0x1" else "0x0")
    ensures v.Dict? || v.Other? ==> r == Err(TypeError(v.TypeName()))
    ensures r.Ok? ==> IsCanonicalHex(r.value)
  {
    var n :=
      match v
      case Text(s) => ReadInteger(s)
      case Bytes(s) => ReadInteger(s)
      case Int(n) => Ok(n)
      case Bool(b) => Ok(if b then 1 else 0)
      case _ => Err(TypeError(v.TypeName()));
    if n.Err? then Err(n.error)
    else
      assert Hex(1) == "0x1" && Hex(0) == "0x0";
      Ok(Hex(n.value))
  }

  /** `to_hex`: dispatch on the kind of value; text and bytes are coerced to text first. */
  function ToHex(v: PyValue): (r: Result<string, Error>)
    ensures v.Bool? ==> r == Ok(if v.flag then "0x1" else "0x0")
    ensures v.Int? ==> r == FromDecimal(v)
    ensures v.Dict? ==> r == Ok(HexBytes.EncodeHex(JsonMap.Dumps(v.entries)))
    ensures v.IsString() ==> r == Ok(HexBytes.EncodeHex(v.Encoded()))
    ensures v.IsString() ==>
              && r.Ok? && |r.value| == 2 + 2 * |v.Encoded()| && r.value[..2] == "0x"
              && (forall k :: 2 <= k < |r.value| ==> IsDigitChar(r.value[k], 16))
              && HexBytes.BytesOfHex(r.value[2..]) == Some(v.Encoded())
    ensures r.Err? <==> v.Other?
    ensures r.Err? ==> r.error == TypeError(v.typeName)
  {
    match v
    case Bool(b) => Ok(if b then "0x1" else "0x0")
    case Dict(entries) => Ok(HexBytes.EncodeHex(JsonMap.Dumps(entries)))
    case Text(s) => Ok(HexBytes.EncodeHex(s))
    case Bytes(s) => Ok(HexBytes.EncodeHex(s))
    case Int(_) => FromDecimal(v)
    case Other(t) => Err(TypeError(t))
  }

  /** `decode_big_endian_int`: bytes (text coerced), leading zeros stripped, then read by the codec. */
  function DecodeBigEndianInt(v: PyValue): (r: Result<nat, Error>)
    ensures r.Ok? <==> v.IsString()
    ensures r.Ok? ==> r.value == BigEndian.Value(v.Encoded())
    ensures r.Ok? ==> r.value < BigEndian.Pow256(|v.Encoded()|)
    ensures r.Err? ==> r.error == AttributeError(v.TypeName())
  {
    if !v.IsString() then Err(AttributeError(v.TypeName()))
    else
      var b := v.Encoded();
      var stripped := BigEndian.StripLeadingZeros(b);
      BigEndian.ValueLeadingZeros(|b| - |stripped|, stripped);
      match BigEndian.Deserialize(stripped)
      case Ok(n) => Ok(n)
      case Err(_) => Err(NotMinimal)
  }

  // ---------------------------------------------------------------------
  // to_hex

  /** A mapping's hex depends on its entries only, not on their insertion order. */
  lemma ToHexDictOrderIndependent(a: seq<JsonMap.Entry>, b: seq<JsonMap.Entry>)
    requires JsonMap.DistinctKeys(a) && JsonMap.DistinctKeys(b)
    requires multiset(a) == multiset(b)
    ensures ToHex(Dict(a)) == ToHex(Dict(b))
  {
    JsonMap.SortByKeyOrderIndependent(a, b);
  }

  /**
   * A byte string and the text it decodes to convert alike.  For `to_hex` and
   * `decode_big_endian_int` this is their coercion decorator; `to_decimal` and
   * `from_decimal` take bytes as they are, and agree because `int` reads ASCII
   * bytes as text and `is_0x_prefixed` is taken to test bytes for `b'0x'`.
   */
  lemma TextAndBytesAgree(s: seq<byte>)
    ensures ToHex(Text(s)) == ToHex(Bytes(s))
    ensures ToDecimal(Text(s)) == ToDecimal(Bytes(s))
    ensures FromDecimal(Text(s)) == FromDecimal(Bytes(s))
    ensures DecodeBigEndianInt(Text(s)) == DecodeBigEndianInt(Bytes(s))
  {
  }

  // ---------------------------------------------------------------------
  // to_decimal

  /** Text behind a `0x` prefix is read in base 16, either digit case. */
  lemma ToDecimalHexPrefixed(s: seq<byte>)
    requires IsPrefixed(s, HEX_PREFIX)
    ensures var d := s[2..];
      ToDecimal(Text(s)) ==
        if d != [] && DigitsValue(d, 16).Some? then Ok(DigitsValue(d, 16).value as int)
        else Err(ValueError(s, 16))
  {
    assert s[0] == ZERO && s[1] == LOWER_X;
    assert IsHexLiteral(s);
    assert ToDecimal(Text(s)) == ReadInteger(s);
    var m := DigitsValue(s[2..], 16);
    assert ParseInt(s, 16) == if s[2..] != [] && m.Some? then Some(m.value as int) else None;
  }

  /** Text behind a `-0x` prefix is read in base 16 and negated. */
  lemma ToDecimalNegativeHexPrefixed(s: seq<byte>)
    requires IsPrefixed(s, NEG_HEX_PREFIX)
    ensures var d := s[3..];
      ToDecimal(Text(s)) ==
        if d != [] && DigitsValue(d, 16).Some? then Ok(-(DigitsValue(d, 16).value as int))
        else Err(ValueError(s, 16))
  {
    assert s[0] == MINUS && s[1..][0] == ZERO && s[1..][1] == LOWER_X;
    assert s[1..][2..] == s[3..];
    assert IsHexLiteral(s);
    assert ToDecimal(Text(s)) == ReadInteger(s);
    var m := DigitsValue(s[3..], 16);
    assert ParseInt(s, 16) == if s[3..] != [] && m.Some? then Some(-(m.value as int)) else None;
  }

  /** An optional sign and then one or more decimal digits. */
  predicate IsDecimalLiteral(s: seq<byte>) {
    if |s| > 0 && (s[0] == MINUS || s[0] == PLUS) then AreDecimalDigits(s[1..]) else AreDecimalDigits(s)
  }

  predicate AreDecimalDigits(d: seq<byte>) {
    |d| > 0 && forall i :: 0 <= i < |d| ==> ZERO <= d[i] <= '9' as int
  }

  /** Text without a hex prefix is read in base 10: it converts exactly when it is a decimal literal. */
  lemma ToDecimalUnprefixed(s: seq<byte>)
    requires !IsHexLiteral(s)
    ensures ToDecimal(Text(s)).Ok? <==> IsDecimalLiteral(s)
    ensures ToDecimal(Text(s)).Err? ==> ToDecimal(Text(s)) == Err(ValueError(s, 10))
    ensures IsDecimalLiteral(s) ==>
      var signed := s[0] == MINUS || s[0] == PLUS;
      var d := if signed then s[1..] else s;
      && DigitsValue(d, 10).Some?
      && ToDecimal(Text(s)) == Ok(if s[0] == MINUS then -(DigitsValue(d, 10).value as int) else DigitsValue(d, 10).value)
  {
    var d := if |s| > 0 && (s[0] == MINUS || s[0] == PLUS) then s[1..] else s;
    DigitsValueDefined(d, 10);
    assert (forall i :: 0 <= i < |d| ==> DigitValue(d[i], 10).Some?)
      <==> (forall i :: 0 <= i < |d| ==> ZERO <= d[i] <= '9' as int);
    assert ToDecimal(Text(s)) == ReadInteger(s);
    assert ReadInteger(s) == if ParseInt(s, 10).Some? then Ok(ParseInt(s, 10).value) else Err(ValueError(s, 10));
    assert ParseInt(s, 10).Some? <==> d != [] && DigitsValue(d, 10).Some?;
  }

  /** So a hex digit letter, in either case, in unprefixed text is an error, never a base-16 reading. */
  lemma UnprefixedHexLetterRejected(s: seq<byte>, i: nat)
    requires !IsHexLiteral(s)
    requires i < |s| && ('a' as int <= s[i] <= 'f' as int || 'A' as int <= s[i] <= 'F' as int)
    ensures ToDecimal(Text(s)) == Err(ValueError(s, 10))
  {
    ToDecimalUnprefixed(s);
    if |s| > 0 && (s[0] == MINUS || s[0] == PLUS) {
      assert s[1..][i - 1] == s[i];
    }
  }

  // ---------------------------------------------------------------------
  // from_decimal

  /** For text, `from_decimal` is `hex` of what `to_decimal` reads, and fails as it fails. */
  lemma FromDecimalReadsLikeToDecimal(v: PyValue)
    requires v.IsString()
    ensures ToDecimal(v).Ok? ==> FromDecimal(v) == FromDecimal(Int(ToDecimal(v).value))
    ensures ToDecimal(v).Err? ==> FromDecimal(v) == Err(ToDecimal(v).error)
  {
  }

  /** `hex` output always carries a hex prefix. */
  lemma HexIsHexLiteral(n: int)
    ensures IsHexLiteral(AsciiBytes(Hex(n)))
  {
    HexBytesSplit(n);
    var d := AsciiBytes(Digits(if n < 0 then -n else n, 16));
    if n < 0 {
      assert AsciiBytes(Hex(n))[..3] == NEG_HEX_PREFIX;
    } else {
      assert AsciiBytes(Hex(n))[..2] == HEX_PREFIX;
    }
  }

  /** Round trip: `to_decimal(from_decimal(n)) == n` for every integer, negatives included. */
  lemma FromDecimalRoundTrip(n: int)
    ensures FromDecimal(Int(n)).Ok?
    ensures IsAscii(FromDecimal(Int(n)).value)
    ensures ToDecimal(Text(AsciiBytes(FromDecimal(Int(n)).value))) == Ok(n)
  {
    HexIsHexLiteral(n);
    HexRoundTrip(n);
  }

  /** `from_decimal(str(n)) == from_decimal(n)`: the decimal text of a number reads back as it. */
  lemma FromDecimalOfDecimalText(n: int)
    ensures FromDecimal(Text(AsciiBytes(DecimalText(n)))) == FromDecimal(Int(n))
  {
    var s := DecimalText(n);
    var b := AsciiBytes(s);
    var d := Digits(if n < 0 then -n else n, 10);
    assert forall i :: 0 <= i < |d| ==> IsDigitChar(d[i], 10);
    assert forall i :: 0 <= i < |s| ==> s[i] == '-' || IsDigitChar(s[i], 10);
    assert |b| >= 2 ==> b[1] != LOWER_X;
    assert |b| >= 3 ==> b[2] != LOWER_X;
    assert !IsHexLiteral(b);
    DecimalRoundTrip(n);
  }

  /** Re-rendering a hex literal that `hex` could have printed gives it back unchanged. */
  lemma FromDecimalOfCanonicalHex(s: string)
    requires IsCanonicalHex(s)
    ensures IsAscii(s)
    ensures FromDecimal(Text(AsciiBytes(s))) == Ok(s)
  {
    HexCanonicalInverse(s);
    var n := ParseInt(AsciiBytes(s), 16).value;
    HexIsHexLiteral(n);
  }

  // ---------------------------------------------------------------------
  // decode_big_endian_int

  /** Prepending zero bytes does not change the decoded number. */
  lemma DecodeIgnoresLeadingZeros(k: nat, v: PyValue)
    requires v.IsString()
    ensures DecodeBigEndianInt(Bytes(BigEndian.Zeros(k) + v.Encoded())) == DecodeBigEndianInt(v)
  {
    BigEndian.ValueLeadingZeros(k, v.Encoded());
  }

  /** Empty and all-zero input decode to 0, and nothing else does. */
  lemma DecodeZero(v: PyValue)
    requires v.IsString()
    ensures DecodeBigEndianInt(v) == Ok(0) <==> forall i :: 0 <= i < |v.Encoded()| ==> v.Encoded()[i] == 0
  {
    BigEndian.ValueZero(v.Encoded());
  }

  /**
   * The decoder inverts the minimal big-endian encoding, and re-encoding a
   * decoded number gives the input without its leading zeros.
   */
  lemma DecodeInvertsMinimalBytes(n: nat, b: seq<byte>)
    ensures DecodeBigEndianInt(Bytes(BigEndian.MinimalBytes(n))) == Ok(n)
    ensures BigEndian.MinimalBytes(DecodeBigEndianInt(Bytes(b)).value) == BigEndian.StripLeadingZeros(b)
  {
    BigEndian.MinimalBytesValue(n);
    BigEndian.StripIsMinimal(b);
  }

  // ---------------------------------------------------------------------
  // Worked values

  lemma ToHexExamples()
    ensures ToHex(Bool(true)) == Ok("0x1") && ToHex(Bool(false)) == Ok("0x0")
    ensures ToHex(Text(AsciiBytes("dog"))) == Ok("0x646f67")
    ensures ToHex(Other("float")) == Err(TypeError("float"))
  {
    assert AsciiBytes("dog") == [100, 111, 103];
    assert DigitChar(6) == '6' && DigitChar(4) == '4' && DigitChar(15) == 'f' && DigitChar(7) == '7';
    assert HexBytes.HexOfBytes([103]) == "67" by {
      assert [103][1..] == [];
    }
    assert HexBytes.HexOfBytes([111, 103]) == "6f67" by {
      assert [111, 103][1..] == [103];
    }
    assert HexBytes.HexOfBytes([100, 111, 103]) == "646f67" by {
      assert [100, 111, 103][1..] == [111, 103];
    }
    assert HexBytes.EncodeHex([100, 111, 103]) == "0x646f67";
  }

  lemma ToDecimalHexExample()
    ensures ToDecimal(Text(AsciiBytes("0x10"))) == Ok(16)
  {
    assert AsciiBytes("0x10") == [ZERO, LOWER_X, 49, ZERO];
    ToDecimalHexPrefixed([ZERO, LOWER_X, 49, ZERO]);
    assert DigitsValue([49], 16) == Some(1) by {
      assert [49][..0] == [];
    }
    assert DigitsValue([49, ZERO], 16) == Some(16) by {
      assert [49, ZERO][..1] == [49];
    }
  }

  lemma ToDecimalNegativeHexExample()
    ensures ToDecimal(Text(AsciiBytes("-0x10"))) == Ok(-16)
  {
    assert AsciiBytes("-0x10") == [MINUS, ZERO, LOWER_X, 49, ZERO];
    ToDecimalNegativeHexPrefixed([MINUS, ZERO, LOWER_X, 49, ZERO]);
    assert DigitsValue([49], 16) == Some(1) by {
      assert [49][..0] == [];
    }
    assert DigitsValue([49, ZERO], 16) == Some(16) by {
      assert [49, ZERO][..1] == [49];
    }
  }

  lemma ToDecimalDecimalExample()
    ensures ToDecimal(Text(AsciiBytes("16"))) == Ok(16)
  {
    assert AsciiBytes("16") == [49, 54];
    assert DigitsValue([49], 10) == Some(1) by {
      assert [49][..0] == [];
    }
    assert DigitsValue([49, 54], 10) == Some(16) by {
      assert [49, 54][..1] == [49];
    }
  }

  lemma FromDecimalExample()
    ensures FromDecimal(Int(255)) == Ok("0xff")
  {
    assert DigitChar(15) == 'f';
    assert Digits(15, 16) == "f";
    assert Digits(255, 16) == "ff";
    assert Hex(255) == "0xff";
  }

  lemma DecodeLeadingZerosExample()
    ensures DecodeBigEndianInt(Bytes([0, 0, 1])) == Ok(1)
  {
    assert BigEndian.Value([0]) == 0 by {
      assert [0][..0] == [];
    }
    assert BigEndian.Value([0, 0]) == 0 by {
      assert [0, 0][..1] == [0];
    }
    assert BigEndian.Value([0, 0, 1]) == 1 by {
      assert [0, 0, 1][..2] == [0, 0];
    }
  }

  lemma DecodeAllZerosExample()
    ensures DecodeBigEndianInt(Bytes([0, 0, 0])) == Ok(0)
    ensures DecodeBigEndianInt(Bytes([])) == Ok(0)
  {
    assert BigEndian.Value([0]) == 0 by {
      assert [0][..0] == [];
    }
    assert BigEndian.Value([0, 0]) == 0 by {
      assert [0, 0][..1] == [0];
    }
    assert BigEndian.Value([0, 0, 0]) == 0 by {
      assert [0, 0, 0][..2] == [0, 0];
    }
  }
}
