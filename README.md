# web3 encoding utilities in Dafny

This project models `web3/utils/encoding.py` from web3.py. That module converts values to and from two encodings: `0x`-prefixed hexadecimal text and big-endian unsigned integer bytes. It has four conversions and one prefix test:

- `to_hex` dispatches on the kind of value. A boolean becomes `0x1` or `0x0`. A mapping becomes the hex of its sorted-key JSON text. A string or byte string becomes the hex of its bytes. An integer goes to `from_decimal`. Any other value raises `TypeError`.
- `to_decimal` reads text in base 16 when it starts with `0x` or `-0x`, and in base 10 otherwise. Any other value goes through `int`.
- `from_decimal` reads text with the same rule and prints the number with `hex`.
- `decode_big_endian_int` strips leading zero bytes and hands the rest to the `big_endian_int` codec of `rlp`. That codec follows the scalar rule of Appendix B of the Ethereum Yellow Paper, so it refuses a leading zero byte.
- `_is_prefixed` is a literal `startswith` on the text or byte form of the prefix.

Everything is pure, so the model is pure too. It is built from datatypes, recursive functions and lemmas, with no classes and no loops.

The files:

- `encoding.dfy` (module `Encoding`) holds the four conversions over a tagged union `PyValue = Bool | Dict | Text | Bytes | Int | Other`, plus their properties.
- `numerals.dfy` (module `Numerals`) models the Python built-ins the module relies on: `int(text, base)` for bases 10 and 16, `hex(n)` and `str(n)`.
- `hex_bytes.dfy` (module `HexBytes`) models `encode_hex` and its inverse.
- `big_endian.dfy` (module `BigEndian`) models `lstrip(b'\x00')`, the `big_endian_int` deserialiser and the minimal encoding it accepts.
- `json_map.dfy` (module `JsonMap`) models `json.dumps(..., sort_keys=True)`: an insertion sort by key, then a simple object renderer.
- `wrappers.dfy` (module `Wrappers`) holds `Option` and `Result`.

A Python `str` and `bytes` value are both held as bytes. For a `str`, these are the bytes the text/bytes coercion gives for it, so coercing one kind to the other keeps the bytes. `to_hex` and `decode_big_endian_int` coerce their argument, so there text and bytes agree by construction. `to_decimal` and `from_decimal` have no coercion decorator: a byte string goes straight to `is_0x_prefixed`, `_is_prefixed` and `int`. Python's `int` reads ASCII bytes as it reads text, and `_is_prefixed` picks a byte prefix for bytes. The model also lets `is_0x_prefixed` test bytes like text (see "Left out"). Every number that is read or written is ASCII, and every codec the coercion might use agrees on ASCII. `AsciiBytes` turns the Dafny strings the conversions print back into input values.

In a few places the module's own code decides behaviour that a plain reading of its purpose would not suggest. The model follows the code:

- `to_decimal(True)` is `1` and `from_decimal(True)` is `"0x1"`, because the non-string branches call `int` and `hex`, and a Python bool is an int.
- A malformed numeric string raises the `ValueError` of `int`, written `ValueError(literal, base)`.
- The round trip `to_decimal(from_decimal(n)) == n` holds for negative `n` as well, because `-0x` is recognised.

## Model

| member | source | states |
|---|---|---|
| Encoding.ToHex | web3/utils/encoding.py:27-47 | A boolean gives exactly `0x1` or `0x0`. An integer gives `from_decimal` of it. A mapping gives `encode_hex` of its sorted JSON text. A string or byte string gives `encode_hex` of its bytes: `0x` plus two lowercase hex digits per byte, which decode back to the same bytes, so the text is never read as a number. The result is an error exactly for an unsupported kind, and that error is a TypeError naming the type. |
| Encoding.ToHexDictOrderIndependent | web3/utils/encoding.py:35-36 | Two mappings with the same entries in different insertion orders get the same hex. |
| Encoding.TextAndBytesAgree | web3/utils/encoding.py:27-83 | A byte string and the text it decodes to give the same result in all four conversions. For `to_hex` and `decode_big_endian_int` this is the coercion decorator. For `to_decimal` and `from_decimal` it rests on the assumption about `is_0x_prefixed` listed under "Left out". |
| Encoding.ToHexExamples | web3/utils/encoding.py:32-47 | `to_hex(True) == "0x1"`, `to_hex(False) == "0x0"`, `to_hex("dog") == "0x646f67"`, and an unsupported type raises TypeError. |
| Encoding.IsPrefixed | web3/utils/encoding.py:21-24 | The text starts with the prefix: it is at least as long, and agrees with the prefix at every position of the prefix. |
| Encoding.ReadInteger | web3/utils/encoding.py:55-58 | The literal is read in base 16 when it has a `0x` or `-0x` prefix, in base 10 otherwise. A failure is the ValueError of `int` carrying that literal and base. A `0x` literal never reads as negative. A negative result comes from text starting with `-`. A base-10 reading never accepts an `x`. |
| Encoding.ToDecimal | web3/utils/encoding.py:50-62 | An integer comes back unchanged. A boolean gives 0 or 1. A mapping or other kind raises TypeError. A string fails only with a ValueError. |
| Encoding.ToDecimalHexPrefixed | web3/utils/encoding.py:54-56 | Text starting with `0x` converts exactly when what follows is a nonempty run of hex digits in either case. The result is their base-16 value; otherwise it is a base-16 ValueError. |
| Encoding.ToDecimalNegativeHexPrefixed | web3/utils/encoding.py:55-56 | Text starting with `-0x` (the literal `startswith` test) is read in base 16 and negated. It converts exactly when what follows is a nonempty run of hex digits. |
| Encoding.ToDecimalUnprefixed | web3/utils/encoding.py:57-58 | Text without a hex prefix converts if and only if it is an optional sign followed by decimal digits. The result is the base-10 value of those digits, negated after a `-`. Otherwise it is a base-10 ValueError. |
| Encoding.UnprefixedHexLetterRejected | web3/utils/encoding.py:57-58 | Unprefixed text containing a hex letter, `a`-`f` or `A`-`F`, is a base-10 ValueError, never a base-16 reading. |
| Encoding.ToDecimalHexExample | web3/utils/encoding.py:55-56 | `"0x10"` gives 16. |
| Encoding.ToDecimalNegativeHexExample | web3/utils/encoding.py:55-56 | `"-0x10"` gives -16. |
| Encoding.ToDecimalDecimalExample | web3/utils/encoding.py:57-58 | `"16"` gives 16. |
| Encoding.FromDecimal | web3/utils/encoding.py:65-78 | An integer gives `hex(n)`. A boolean gives `0x1` or `0x0`. A mapping or other kind raises TypeError. Every result is canonical hex: a `0x` or `-0x` prefix, lowercase digits, no leading zero, never `-0x0`, and no trailing `L`. |
| Encoding.FromDecimalReadsLikeToDecimal | web3/utils/encoding.py:69-73 | For text, `from_decimal(s)` equals `from_decimal(to_decimal(s))`, and it fails with the same error when `to_decimal` fails. |
| Encoding.FromDecimalRoundTrip | web3/utils/encoding.py:69-77 | `to_decimal(from_decimal(n)) == n` for every integer, negatives included. |
| Encoding.FromDecimalOfDecimalText | web3/utils/encoding.py:69-77 | `from_decimal(str(n)) == from_decimal(n)` for every integer. |
| Encoding.FromDecimalOfCanonicalHex | web3/utils/encoding.py:69-77 | Reading and re-printing any text that `hex` can print gives that text back unchanged. |
| Encoding.FromDecimalExample | web3/utils/encoding.py:77 | `from_decimal(255) == "0xff"`. |
| Encoding.DecodeBigEndianInt | web3/utils/encoding.py:81-83 | Text and bytes always decode, to the big-endian unsigned value of all their bytes, and that value is below `256^len`. Any other kind fails. |
| Encoding.DecodeIgnoresLeadingZeros | web3/utils/encoding.py:83 | Prepending any number of zero bytes does not change the result. |
| Encoding.DecodeZero | web3/utils/encoding.py:83 | The result is 0 if and only if the input is empty or all zero bytes. |
| Encoding.DecodeInvertsMinimalBytes | web3/utils/encoding.py:83 | Decoding the minimal encoding of `n` gives `n`. Re-encoding a decoded number gives the input with its leading zeros stripped. |
| Encoding.DecodeLeadingZerosExample | web3/utils/encoding.py:81-83 | `\x00\x00\x01` gives 1. |
| Encoding.DecodeAllZerosExample | web3/utils/encoding.py:81-83 | `\x00\x00\x00` and the empty input give 0. |
| Numerals.Digits | web3/utils/encoding.py:77 | `hex` and `str` digits are nonempty base digits in lower case. The first digit is `0` only for the number 0, which prints as `0`. |
| Numerals.DigitsRoundTrip | web3/utils/encoding.py:56-58 | `int` reads the printed digits of `n` back as `n`, in both bases. |
| Numerals.CanonicalDigitsRoundTrip | web3/utils/encoding.py:77 | Every canonical digit string is the printed form of the number it reads as. |
| Numerals.DigitsValueDefined | web3/utils/encoding.py:56-58 | A digit string reads as a number if and only if every byte is a digit of the base. |
| Numerals.ParseInt | web3/utils/encoding.py:56-58 | `int(text, base)` fails on empty text. A negative result comes from text starting with `-`. In base 10 it never accepts an `x` or `X`. |
| Numerals.Hex | web3/utils/encoding.py:77 | `hex(n)` is ASCII canonical hex: a `0x` or `-0x` prefix, lowercase digits, no leading zero, never `-0x0`. It starts with `-` exactly when `n < 0`. |
| Numerals.HexEndsInDigit | web3/utils/encoding.py:77 | `hex(n)` ends in a hex digit, so `rstrip('L')` removes nothing. |
| Numerals.DecimalText | web3/utils/encoding.py:58 | The module never calls `str`. This is the reference printer for decimal text, used to state `from_decimal(str(n)) == from_decimal(n)` and the base-10 round trip of `int`. `str(n)` is nonempty ASCII decimal digits with a leading `-` exactly when `n < 0`. It has no leading zero: it starts with `0` only for 0, which prints as `0`. |
| Numerals.HexRoundTrip | web3/utils/encoding.py:71-77 | `int(hex(n), 16) == n`. |
| Numerals.HexCanonicalInverse | web3/utils/encoding.py:71-77 | For canonical hex text `s`, `hex(int(s, 16)) == s`. |
| Numerals.DecimalRoundTrip | web3/utils/encoding.py:58 | `int(str(n)) == n`. |
| HexBytes.HexOfBytes | web3/utils/encoding.py:36-39 | The hex text of bytes has exactly two characters per byte. |
| HexBytes.HexOfBytesLowerCase | web3/utils/encoding.py:36-39 | Every character of the hex text of bytes is a lowercase hex digit. |
| HexBytes.HexOfBytesAt | web3/utils/encoding.py:36-39 | Byte `i` is printed at positions `2i` and `2i+1`, high nibble first, in lower case. |
| HexBytes.BytesOfHex | web3/utils/encoding.py:36-39 | Hex text decodes exactly when it has an even length and every character is a hex digit, in either case. The result has one byte per two characters. |
| HexBytes.LowerCaseHexUnique | web3/utils/encoding.py:36-39 | Lowercase hex text that decodes is the hex text of what it decodes to, so lowercase output is unique. |
| HexBytes.HexOfBytesInverse | web3/utils/encoding.py:36-39 | Reading the hex text of bytes gives those bytes back. |
| HexBytes.EncodeHex | web3/utils/encoding.py:36-39 | `encode_hex` output is `0x` plus `2 * len` lowercase hex digits that decode back to the input. |
| BigEndian.StripLeadingZeros | web3/utils/encoding.py:83 | `lstrip(b'\x00')` removes only zero bytes, all of them from the front, and leaves no leading zero. |
| BigEndian.Value | web3/utils/encoding.py:83 | The big-endian value of `k` bytes is below `256^k`. |
| BigEndian.ValueMostSignificantFirst | web3/utils/encoding.py:83 | Read from the front, the first of `k` bytes weighs `256^(k-1)`. This positional reading agrees with `Value`. |
| BigEndian.Deserialize | web3/utils/encoding.py:83 | The codec accepts exactly the empty input and input without a leading zero byte. It returns the big-endian value, which for `k` nonempty bytes lies in `[256^(k-1), 256^k)`. |
| BigEndian.ValueLeadingZeros | web3/utils/encoding.py:83 | Leading zero bytes do not change the big-endian value. |
| BigEndian.ValueZero | web3/utils/encoding.py:83 | The big-endian value is 0 if and only if every byte is 0. |
| BigEndian.MinimalBytes | web3/utils/encoding.py:83 | The minimal encoding has no leading zero byte and is empty exactly for 0. |
| BigEndian.DeserializeMinimal | web3/utils/encoding.py:83 | The codec accepts every minimal encoding and reads it back as its number. |
| BigEndian.MinimalOfValue | web3/utils/encoding.py:83 | Bytes without a leading zero are the minimal encoding of their value. |
| BigEndian.StripIsMinimal | web3/utils/encoding.py:83 | Stripping leading zeros gives the minimal encoding of the input's value. |
| JsonMap.Insert | web3/utils/encoding.py:36 | Inserting an entry adds exactly that entry to the multiset of entries. |
| JsonMap.SortByKey | web3/utils/encoding.py:36 | Sorting by key is a permutation of the entries. |
| JsonMap.InsertSorted | web3/utils/encoding.py:36 | Inserting an entry whose key is new into a key-ordered list keeps it strictly key-ordered. |
| JsonMap.SortByKeySorted | web3/utils/encoding.py:36 | For a mapping, whose keys are distinct, the sorted entries are in strictly increasing key order. |
| JsonMap.SortedUnique | web3/utils/encoding.py:36 | Two strictly key-ordered lists with the same entries are equal. |
| JsonMap.SortByKeyOrderIndependent | web3/utils/encoding.py:36 | Reordering a mapping's entries does not change the sorted list. |
| JsonMap.Dumps | web3/utils/encoding.py:36 | The serialised mapping is delimited by `{` and `}`. |

## Left out

- The exact `json.dumps` text. String escaping, `ensure_ascii`, non-string keys and the serialisation of nested values are not modelled. Each entry carries its value's JSON text as given, and keys are written between quotes without escaping. Only the sorted order of keys and its independence from insertion order are proved.
- The text/bytes codec of the `eth_utils` helpers `coerce_args_to_text`, `coerce_args_to_bytes`, `force_text` and `force_bytes`. Text is held as the bytes that codec gives, so errors from text the codec cannot encode or bytes it cannot decode are not modelled.
- How `is_0x_prefixed` treats a byte string. Its code is not part of this model. `to_decimal` and `from_decimal` pass bytes to it uncoerced, and the model assumes it tests bytes for `b'0x'` as it tests text for `'0x'`. `TextAndBytesAgree` depends on this for those two conversions.
- The letter case accepted by `is_0x_prefixed`. Its code is not part of this model, so only a lowercase `0x` counts as a hex prefix. Text starting with `0X` goes to the base-10 reading and fails.
- The leniencies of Python's `int`. Surrounding whitespace, `_` digit separators and non-ASCII digits are all read as errors. A leading `+` is accepted.
- Encoding.ToDecimal: `int` of a float or of an object with `__int__` is not modelled. Every value that is not a string, integer or boolean raises TypeError in the model.
- Encoding.FromDecimal: objects with `__index__`, which `hex` accepts, are not modelled. Every value that is not a string, integer or boolean raises TypeError in the model.
- Encoding.DecodeBigEndianInt: a value that is neither text nor bytes fails with AttributeError (it has no `lstrip`). The exact exception depends on the bytes coercion helper, which is not part of this model.
- Error messages. An error carries only the type name, or the literal and base that `int` refused.
- The `rstrip('L')` in `from_decimal` is a no-op for Python 3 output. `FromDecimal` instead proves that its output is canonical hex and so never ends in a letter suffix.
- The other checks of `rlp`'s `big_endian_int` deserialiser: the input type check and the fixed-length option. Only its refusal of a leading zero byte, which the stripping makes unreachable, is modelled.
