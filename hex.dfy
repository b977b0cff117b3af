/**
 * Hexadecimal text: the `hex` crate's `encode`/`decode` and the standard
 * library's `u8::from_str_radix(_, 16)`, which the message codec builds on.
 */
module Hex {
  import opened Wrappers
  import opened Text

  const Plus: Byte := 0x2B
  const Minus: Byte := 0x2D

  /** Value of a hexadecimal digit; both `hex::decode` and `char::to_digit(16)` accept either case. */
  function DigitValue(c: Byte): (r: Option<nat>)
    ensures r.Some? ==> r.value < 16
  {
    if 0x30 <= c <= 0x39 then Some(c - 0x30)
    else if 0x61 <= c <= 0x66 then Some(c - 0x61 + 10)
    else if 0x41 <= c <= 0x46 then Some(c - 0x41 + 10)
    else None
  }

  predicate IsLowerHexDigit(c: Byte) {
    0x30 <= c <= 0x39 || 0x61 <= c <= 0x66
  }

  predicate IsLowerHex(s: seq<Byte>) {
    forall k | 0 <= k < |s| :: IsLowerHexDigit(s[k])
  }

  predicate IsHex(s: seq<Byte>) {
    forall k | 0 <= k < |s| :: DigitValue(s[k]).Some?
  }

  /** The lower-case digit for `d`; `DigitValue` inverts it. */
  function LowerDigit(d: nat): (c: Byte)
    requires d < 16
    ensures IsLowerHexDigit(c) && DigitValue(c) == Some(d)
  {
    if d < 10 then 0x30 + d else 0x61 + d - 10
  }

  lemma LowerDigitOfValue(c: Byte)
    requires IsLowerHexDigit(c)
    ensures DigitValue(c).Some? && LowerDigit(DigitValue(c).value) == c
  {
  }

  /** Two lower-case digits, high nibble first; also what `format!("{:02x}", b)` writes. */
  function EncodeByte(b: Byte): seq<Byte> {
    [LowerDigit(b / 16), LowerDigit(b % 16)]
  }

  /** `hex::encode`. */
  function Encode(bytes: seq<Byte>): (r: seq<Byte>)
    ensures |r| == 2 * |bytes|
    ensures IsLowerHex(r) && IsAscii(r)
  {
    if bytes == [] then [] else EncodeByte(bytes[0]) + Encode(bytes[1..])
  }

  /** Encoding works byte by byte, so it distributes over concatenation. */
  lemma {:induction false} EncodeAppend(a: seq<Byte>, b: seq<Byte>)
    ensures Encode(a + b) == Encode(a) + Encode(b)
    decreases |a|
  {
    if a != [] {
      assert (a + b)[1..] == a[1..] + b;
      EncodeAppend(a[1..], b);
    } else {
      assert a + b == b;
    }
  }

  datatype FromHexError = OddLength | InvalidHexCharacter(c: Byte, index: nat)

  /** `hex::decode`: an odd length is refused first, then the first byte that is no digit. */
  function Decode(text: seq<Byte>): (r: Result<seq<Byte>, FromHexError>)
    ensures r.Ok? ==> 2 * |r.value| == |text|
  {
    if |text| % 2 != 0 then Err(OddLength) else DecodePairs(text, 0)
  }

  /** Decodes digit pairs; `offset` is the position of `text` in the input, for the error. */
  function DecodePairs(text: seq<Byte>, offset: nat): (r: Result<seq<Byte>, FromHexError>)
    requires |text| % 2 == 0
    ensures r.Ok? ==> 2 * |r.value| == |text|
    decreases |text|
  {
    if text == [] then Ok([])
    else
      match DigitValue(text[0])
      case None => Err(InvalidHexCharacter(text[0], offset))
      case Some(hi) =>
        match DigitValue(text[1])
        case None => Err(InvalidHexCharacter(text[1], offset + 1))
        case Some(lo) =>
          var rest :- DecodePairs(text[2..], offset + 2);
          Ok([hi * 16 + lo] + rest)
  }

  /** `hex::decode` inverts `hex::encode`. */
  lemma {:induction false} DecodeEncode(bytes: seq<Byte>)
    ensures Decode(Encode(bytes)) == Ok(bytes)
  {
    DecodePairsEncode(bytes, 0);
  }

  lemma {:induction false} DecodePairsEncode(bytes: seq<Byte>, offset: nat)
    ensures DecodePairs(Encode(bytes), offset) == Ok(bytes)
    decreases |bytes|
  {
    if bytes != [] {
      var text := Encode(bytes);
      assert text[..2] == EncodeByte(bytes[0]);
      assert text[2..] == Encode(bytes[1..]);
      DecodePairsEncode(bytes[1..], offset + 2);
      assert [bytes[0]] + bytes[1..] == bytes;
    }
  }

  /** `hex::decode` succeeds exactly on even-length text made of digits of either case. */
  lemma {:induction false} DecodeSucceedsIff(text: seq<Byte>)
    ensures Decode(text).Ok? <==> |text| % 2 == 0 && IsHex(text)
  {
    if |text| % 2 == 0 {
      DecodePairsSucceedsIff(text, 0);
    }
  }

  lemma {:induction false} DecodePairsSucceedsIff(text: seq<Byte>, offset: nat)
    requires |text| % 2 == 0
    ensures DecodePairs(text, offset).Ok? <==> IsHex(text)
    decreases |text|
  {
    if text != [] {
      DecodePairsSucceedsIff(text[2..], offset + 2);
      assert IsHex(text) <==> DigitValue(text[0]).Some? && DigitValue(text[1]).Some? && IsHex(text[2..]) by {
        assert forall k | 0 <= k < |text[2..]| :: text[2..][k] == text[k + 2];
      }
    }
  }

  /** On lower-case text `hex::encode` inverts `hex::decode`: lower-case hex is the canonical form. */
  lemma {:induction false} EncodeDecode(text: seq<Byte>, bytes: seq<Byte>)
    requires IsLowerHex(text) && Decode(text) == Ok(bytes)
    ensures Encode(bytes) == text
  {
    EncodeDecodePairs(text, 0, bytes);
  }

  lemma {:induction false} EncodeDecodePairs(text: seq<Byte>, offset: nat, bytes: seq<Byte>)
    requires |text| % 2 == 0 && IsLowerHex(text) && DecodePairs(text, offset) == Ok(bytes)
    ensures Encode(bytes) == text
    decreases |text|
  {
    if text != [] {
      var hi, lo := DigitValue(text[0]).value, DigitValue(text[1]).value;
      LowerDigitOfValue(text[0]);
      LowerDigitOfValue(text[1]);
      var tail := DecodePairs(text[2..], offset + 2);
      assert tail.Ok? && bytes == [hi * 16 + lo] + tail.value;
      assert IsLowerHex(text[2..]) by {
        assert forall k | 0 <= k < |text[2..]| :: text[2..][k] == text[k + 2];
      }
      EncodeDecodePairs(text[2..], offset + 2, tail.value);
      PairValue(hi, lo);
      assert EncodeByte(bytes[0]) == text[..2];
      assert bytes[1..] == tail.value;
      assert text == text[..2] + text[2..];
    }
  }

  lemma PairValue(hi: nat, lo: nat)
    requires hi < 16 && lo < 16
    ensures (hi * 16 + lo) / 16 == hi && (hi * 16 + lo) % 16 == lo
  {
  }

  // ---------------------------------------------------------------------------
  // u8::from_str_radix(src, 16)

  datatype IntErrorKind = Empty | InvalidDigit | PosOverflow

  /**
   * `u8::from_str_radix(src, 16)`: an optional leading `+` (a sign alone is an
   * invalid digit), then digits of either case, accumulated with a check for
   * overflow past 255. A `-` is no sign for an unsigned type, so it is an
   * invalid digit. On two bytes, the tag's case, the value is that of the two
   * digits, or of the one digit after a `+`.
   */
  function FromStrRadix16(src: seq<Byte>): (r: Result<Byte, IntErrorKind>)
    ensures src == [] <==> r == Err(Empty)
    ensures src != [] && src[0] == Minus ==> r == Err(InvalidDigit)
    ensures r.Ok? ==> (src[0] == Plus || DigitValue(src[0]).Some?) && IsHex(src[1..])
    ensures |src| == 2 && DigitValue(src[0]).Some? && DigitValue(src[1]).Some?
      ==> r.Ok? && r.value == DigitValue(src[0]).value * 16 + DigitValue(src[1]).value
    ensures |src| == 2 && src[0] == Plus && DigitValue(src[1]).Some?
      ==> r.Ok? && r.value == DigitValue(src[1]).value
  {
    if src == [] then Err(Empty)
    else if (src[0] == Plus || src[0] == Minus) && |src| == 1 then Err(InvalidDigit)
    else if src[0] == Plus then AccumulateDigits(src[1..], 0)
    else
      var r := AccumulateDigits(src, 0);
      assert r.Ok? ==> IsHex(src[1..]) by {
        assert forall k | 0 <= k < |src[1..]| :: src[1..][k] == src[k + 1];
      }
      r
  }

  /**
   * Folds the digits into `acc`, high digit first; fails on the first byte
   * that is no digit or on a value past 255.
   */
  function AccumulateDigits(digits: seq<Byte>, acc: Byte): (r: Result<Byte, IntErrorKind>)
    ensures r.Ok? ==> IsHex(digits) && acc <= r.value
    ensures r != Err(Empty)
    ensures |digits| == 1 && DigitValue(digits[0]).Some? && acc < 16
      ==> r.Ok? && r.value == acc * 16 + DigitValue(digits[0]).value
    decreases |digits|
  {
    if digits == [] then Ok(acc)
    else
      match DigitValue(digits[0])
      case None => Err(InvalidDigit)
      case Some(d) =>
        if acc * 16 + d > 255 then Err(PosOverflow)
        else
          var r := AccumulateDigits(digits[1..], acc * 16 + d);
          assert r.Ok? ==> IsHex(digits) by {
            if r.Ok? {
              forall k | 0 <= k < |digits|
                ensures DigitValue(digits[k]).Some?
              {
                if k > 0 { assert digits[k] == digits[1..][k - 1]; }
              }
            }
          }
          r
  }

  /** Reading back a byte written with `{:02x}` yields that byte. */
  lemma ParseEncodedByte(b: Byte)
    ensures FromStrRadix16(EncodeByte(b)) == Ok(b)
  {
    var text := EncodeByte(b);
    assert text[1..] == [LowerDigit(b % 16)];
    assert AccumulateDigits(text, 0) == AccumulateDigits(text[1..], b / 16);
  }

  /** Two lower-case digits are the `{:02x}` form of the byte they parse to. */
  lemma ParsedPairIsCanonical(text: seq<Byte>, b: Byte)
    requires |text| == 2 && IsLowerHex(text) && FromStrRadix16(text) == Ok(b)
    ensures EncodeByte(b) == text
  {
    LowerDigitOfValue(text[0]);
    LowerDigitOfValue(text[1]);
    var hi, lo := DigitValue(text[0]).value, DigitValue(text[1]).value;
    assert text[1..][0] == text[1] && text[1..][1..] == [];
    assert AccumulateDigits(text, 0) == AccumulateDigits(text[1..], hi);
    assert b == hi * 16 + lo;
    PairValue(hi, lo);
  }
}
