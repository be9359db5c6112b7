/**
 * Unsigned big-endian integers over bytes: the `big_endian_int` codec of
 * the `rlp` package that `decode_big_endian_int` calls, and the leading
 * zero stripping done before it.  The codec follows the scalar rule of
 * Appendix B of the Ethereum Yellow Paper: a scalar is written in the
 * fewest bytes, so a leading zero byte is refused.
 */
module BigEndian {
  import opened Wrappers
  import opened Numerals

  function Pow256(k: nat): (p: nat)
    ensures p > 0
  {
    if k == 0 then 1 else 256 * Pow256(k - 1)
  }

  /** The number the bytes stand for, most significant byte first; `k` bytes hold less than `256^k`. */
  function Value(b: seq<byte>): (n: nat)
    ensures n < Pow256(|b|)
  {
    if b == [] then 0
    else
      var high := Value(b[..|b| - 1]);
      assert (high + 1) * 256 <= Pow256(|b| - 1) * 256;
      high * 256 + b[|b| - 1]
  }

  function Zeros(k: nat): (z: seq<byte>)
    ensures |z| == k && forall i :: 0 <= i < k ==> z[i] == 0
  {
    seq(k, _ => 0)
  }

  /** `lstrip(b'\x00')`: drops every leading zero byte and nothing else. */
  function StripLeadingZeros(b: seq<byte>): (r: seq<byte>)
    ensures |r| <= |b| && b == Zeros(|b| - |r|) + r
    ensures r == [] || r[0] != 0
  {
    if b != [] && b[0] == 0 then
      var r := StripLeadingZeros(b[1..]);
      assert b == [0] + b[1..];
      r
    else
      assert b == Zeros(0) + b;
      b
  }

  datatype DeserializationError = NotMinimal

  /**
   * `big_endian_int.deserialize`: refuses an encoding that starts with a
   * zero byte, reads the empty string as zero.  What it accepts is minimal:
   * a nonempty encoding of `k` bytes stands for a number that needs all
   * `k` of them.
   */
  function Deserialize(serial: seq<byte>): (r: Result<nat, DeserializationError>)
    ensures r.Ok? <==> serial == [] || serial[0] != 0
    ensures r.Ok? ==> r.value == Value(serial)
    ensures r.Ok? && serial != [] ==> Pow256(|serial| - 1) <= r.value < Pow256(|serial|)
  {
    if |serial| > 0 && serial[0] == 0 then Err(NotMinimal)
    else
      assert serial != [] ==> Value(serial) >= serial[0] * Pow256(|serial| - 1) by {
        if serial != [] {
          ValueMostSignificantFirst(serial);
        }
      }
      Ok(Value(serial))
  }

  /** The minimal encoding of a scalar: no leading zero byte, zero as the empty string. */
  function MinimalBytes(n: nat): (b: seq<byte>)
    ensures b == [] || b[0] != 0
    ensures b == [] <==> n == 0
  {
    if n == 0 then [] else MinimalBytes(n / 256) + [n % 256]
  }

  /** Appending a byte scales every earlier byte's weight by the radix. */
  lemma ShiftByte(first: nat, p: nat, v: nat)
    ensures (first * p + v) * 256 == first * (p * 256) + v * 256
  {
  }

  /**
   * The same value read from the front: the first byte weighs `256^(k-1)`.
   * This is the positional definition `Value` is checked against.
   */
  lemma {:induction false} ValueMostSignificantFirst(b: seq<byte>)
    requires b != []
    ensures Value(b) == b[0] * Pow256(|b| - 1) + Value(b[1..])
  {
    if |b| == 1 {
      assert b[..0] == [] && b[1..] == [];
    } else {
      var init := b[..|b| - 1];
      ValueMostSignificantFirst(init);
      assert init[0] == b[0];
      assert init[1..] == b[1..][..|b| - 2];
      var last := b[|b| - 1];
      assert b[1..][|b| - 2] == last;
      var p := Pow256(|b| - 2);
      var v := Value(init[1..]);
      assert Value(b[1..]) == v * 256 + last;
      ShiftByte(b[0], p, v);
      calc {
        Value(b);
        Value(init) * 256 + last;
        (b[0] * p + v) * 256 + last;
        b[0] * (p * 256) + (v * 256 + last);
        b[0] * Pow256(|b| - 1) + Value(b[1..]);
      }
    }
  }

  lemma {:induction false} ValueLeadingZero(b: seq<byte>)
    ensures Value([0] + b) == Value(b)
  {
    if b != [] {
      ValueLeadingZero(b[..|b| - 1]);
      assert ([0] + b)[..|b|] == [0] + b[..|b| - 1];
    }
  }

  lemma {:induction false} ValueLeadingZeros(k: nat, b: seq<byte>)
    ensures Value(Zeros(k) + b) == Value(b)
  {
    if k == 0 {
      assert Zeros(k) + b == b;
    } else {
      ValueLeadingZeros(k - 1, b);
      ValueLeadingZero(Zeros(k - 1) + b);
      assert Zeros(k) + b == [0] + (Zeros(k - 1) + b);
    }
  }

  lemma {:induction false} ValueZero(b: seq<byte>)
    ensures Value(b) == 0 <==> forall i :: 0 <= i < |b| ==> b[i] == 0
  {
    if b != [] {
      var init := b[..|b| - 1];
      ValueZero(init);
      assert forall i :: 0 <= i < |init| ==> init[i] == b[i];
    }
  }

  lemma {:induction false} MinimalBytesValue(n: nat)
    ensures Value(MinimalBytes(n)) == n
  {
    if n > 0 {
      MinimalBytesValue(n / 256);
      var b := MinimalBytes(n);
      assert b[..|b| - 1] == MinimalBytes(n / 256);
    }
  }

  /** The codec reads back every minimal encoding. */
  lemma DeserializeMinimal(n: nat)
    ensures Deserialize(MinimalBytes(n)) == Ok(n)
  {
    MinimalBytesValue(n);
  }

  /** Dividing by the radix recovers the high part and the low byte. */
  lemma SplitLowByte(high: nat, low: byte)
    ensures (high * 256 + low) / 256 == high && (high * 256 + low) % 256 == low
  {
  }

  lemma {:induction false} MinimalOfValue(b: seq<byte>)
    requires b == [] || b[0] != 0
    ensures MinimalBytes(Value(b)) == b
  {
    if b != [] {
      var init := b[..|b| - 1];
      var last := b[|b| - 1];
      assert Value(b) == Value(init) * 256 + last;
      SplitLowByte(Value(init), last);
      assert b == init + [last];
      if init != [] {
        MinimalOfValue(init);
        ValueZero(init);
      }
    }
  }

  /** Re-encoding a decoded value gives the input without its leading zeros. */
  lemma StripIsMinimal(b: seq<byte>)
    ensures MinimalBytes(Value(b)) == StripLeadingZeros(b)
  {
    var r := StripLeadingZeros(b);
    ValueLeadingZeros(|b| - |r|, r);
    MinimalOfValue(r);
  }
}
