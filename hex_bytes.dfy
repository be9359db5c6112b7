/**
 * Hexadecimal text of a byte string, the `encode_hex` helper the encoding
 * module calls: two lower-case digits per byte, most significant nibble
 * first, behind a `0x` prefix.
 */
module HexBytes {
  import opened Wrappers
  import opened Numerals

  /** The two digits of every byte, in order. */
  function HexOfBytes(b: seq<byte>): (s: string)
    ensures |s| == 2 * |b|
  {
    if b == [] then [] else [DigitChar(b[0] / 16), DigitChar(b[0] % 16)] + HexOfBytes(b[1..])
  }

  /** Byte `i` is printed at positions `2i` and `2i + 1`, high nibble first. */
  lemma {:induction false} HexOfBytesAt(b: seq<byte>, i: nat)
    requires i < |b|
    ensures HexOfBytes(b)[2 * i] == DigitChar(b[i] / 16)
    ensures HexOfBytes(b)[2 * i + 1] == DigitChar(b[i] % 16)
  {
    if i > 0 {
      HexOfBytesAt(b[1..], i - 1);
      assert HexOfBytes(b)[2..] == HexOfBytes(b[1..]);
    }
  }

  /** Every character of the hex text is a lower-case hex digit. */
  lemma {:induction false} HexOfBytesLowerCase(b: seq<byte>)
    ensures forall k :: 0 <= k < |HexOfBytes(b)| ==> IsDigitChar(HexOfBytes(b)[k], 16)
  {
    if b != [] {
      HexOfBytesLowerCase(b[1..]);
      var s := HexOfBytes(b);
      DigitCharIn(b[0] / 16, 16);
      DigitCharIn(b[0] % 16, 16);
      assert forall k :: 2 <= k < |s| ==> s[k] == HexOfBytes(b[1..])[k - 2];
    }
  }

  /**
   * Reads hexadecimal text (either letter case) back into bytes: it succeeds
   * exactly for an even number of hex digits, one byte per pair.
   */
  function BytesOfHex(s: string): (r: Option<seq<byte>>)
    ensures r.Some? ==> 2 * |r.value| == |s|
    ensures r.Some? <==> |s| % 2 == 0 && forall k :: 0 <= k < |s| ==> DigitValue(s[k] as int, 16).Some?
  {
    if s == [] then Some([])
    else if |s| == 1 then None
    else
      var high := DigitValue(s[0] as int, 16);
      var low := DigitValue(s[1] as int, 16);
      var rest := BytesOfHex(s[2..]);
      assert forall k :: 2 <= k < |s| ==> s[k] == s[2..][k - 2];
      if high.Some? && low.Some? && rest.Some? then Some([high.value * 16 + low.value] + rest.value) else None
  }

  lemma {:induction false} HexOfBytesInverse(b: seq<byte>)
    ensures BytesOfHex(HexOfBytes(b)) == Some(b)
  {
    if b != [] {
      var s := HexOfBytes(b);
      HexOfBytesInverse(b[1..]);
      assert s[2..] == HexOfBytes(b[1..]);
      assert b == [b[0] / 16 * 16 + b[0] % 16] + b[1..];
    }
  }

  /**
   * `encode_hex`: the `0x` prefix and two lower-case digits per byte that
   * read back as the bytes.  Lower case makes the text the only one that
   * does so.
   */
  function EncodeHex(b: seq<byte>): (s: string)
    ensures |s| == 2 + 2 * |b| && s[..2] == "0x"
    ensures forall k :: 2 <= k < |s| ==> IsDigitChar(s[k], 16)
    ensures BytesOfHex(s[2..]) == Some(b)
  {
    var s := "0x" + HexOfBytes(b);
    HexOfBytesInverse(b);
    HexOfBytesLowerCase(b);
    assert s[2..] == HexOfBytes(b);
    assert forall k :: 2 <= k < |s| ==> s[k] == HexOfBytes(b)[k - 2];
    s
  }

  /** Lower-case hex text is the hex text of the bytes it reads as: `encode_hex` prints exactly one text per byte string. */
  lemma {:induction false} LowerCaseHexUnique(s: string)
    requires forall k :: 0 <= k < |s| ==> IsDigitChar(s[k], 16)
    requires BytesOfHex(s).Some?
    ensures HexOfBytes(BytesOfHex(s).value) == s
  {
    if s != [] {
      var b := BytesOfHex(s).value;
      assert forall k :: 0 <= k < |s[2..]| ==> s[2..][k] == s[k + 2];
      LowerCaseHexUnique(s[2..]);
      DigitCharOf(s[0], 16);
      DigitCharOf(s[1], 16);
      var high := DigitValue(s[0] as int, 16).value;
      var low := DigitValue(s[1] as int, 16).value;
      assert b[0] == high * 16 + low;
      assert b[0] / 16 == high && b[0] % 16 == low;
      assert b[1..] == BytesOfHex(s[2..]).value;
      assert s == [s[0], s[1]] + s[2..];
    }
  }
}
