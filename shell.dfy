/**
 * The message protocol carried by the document's comments: a message is a
 * kind tag, a 12-byte correlation id and a UTF-8 payload, written as
 * `tag (2 hex digits) ++ id (24 hex digits) ++ payload (2 hex digits per byte)`.
 */
module Shell {
  import opened Wrappers
  import opened Text
  import Hex

  datatype MessageType = Command | Output | Exit

  /** `message_type as u8`: one of 0x01..0x03 (`TagRoundTrip` shows each kind gets its own). */
  function TypeTag(t: MessageType): (b: Byte)
    ensures 0x01 <= b <= 0x03
  {
    match t
    case Command => 0x01
    case Output => 0x02
    case Exit => 0x03
  }

  /** `MessageType::try_from(u8)`; its error `()` is None. */
  function TryFromTag(b: Byte): (r: Option<MessageType>)
    ensures r.Some? <==> 0x01 <= b <= 0x03
    ensures r.Some? ==> TypeTag(r.value) == b
  {
    match b
    case 0x01 => Some(Command)
    case 0x02 => Some(Output)
    case 0x03 => Some(Exit)
    case _ => None
  }

  /** `try_from` inverts `as u8`. */
  lemma TagRoundTrip(t: MessageType)
    ensures TryFromTag(TypeTag(t)) == Some(t)
  {
  }

  type MessageId = s: seq<Byte> | |s| == 12 witness [0, 0, 0, 0, 0, 0, 0, 0, 0, 0, 0, 0]

  datatype Message = Message(kind: MessageType, id: MessageId, payload: Utf8)

  /**
   * Why a comment is not a message. `TooShort` is a slice that is out of
   * range or off a character boundary; `BadTag` and `BadHex` carry the
   * errors of `from_str_radix` and `hex::decode`.
   */
  datatype DecodeError =
    | TooShort
    | BadTag(Hex.IntErrorKind)
    | BadHex(Hex.FromHexError)
    | InvalidMessageType
    | InvalidLength
    | NotUtf8

  /** `Message::to_string`. */
  function Encode(m: Message): (r: Utf8)
    ensures |r| == 26 + 2 * |m.payload|
    ensures Hex.IsLowerHex(r)
  {
    var text := Hex.EncodeByte(TypeTag(m.kind)) + Hex.Encode(m.id) + Hex.Encode(m.payload);
    assert IsAscii(text);
    AsciiIsUtf8(text);
    text
  }

  /**
   * `Message::from_str`, with its checks in the source's order: the tag text,
   * the id text, the payload text, then the tag value, the id length and the
   * payload's UTF-8.
   */
  function Decode(s: Utf8): (r: Result<Message, DecodeError>)
    ensures r.Ok? ==> |s| == 26 + 2 * |r.value.payload|
    ensures r != Err(InvalidLength)
  {
    var tagText :- Get(s, 0, 2).OkOr(TooShort);
    var tag :- Hex.FromStrRadix16(tagText).MapErr(e => BadTag(e));
    var idText :- Get(s, 2, 26).OkOr(TooShort);
    var id :- Hex.Decode(idText).MapErr(e => BadHex(e));
    var payloadText :- Get(s, 26, |s|).OkOr(TooShort);
    var payload :- Hex.Decode(payloadText).MapErr(e => BadHex(e));
    var kind :- TryFromTag(tag).OkOr(InvalidMessageType);
    if |id| != 12 then Err(InvalidLength)
    else if !ValidUtf8(payload) then Err(NotUtf8)
    else Ok(Message(kind, id, payload))
  }

  /** A digit is ASCII, so it starts a character and is never a continuation byte. */
  lemma HexIsBoundary(s: seq<Byte>, i: nat)
    requires i < |s| && Hex.DigitValue(s[i]).Some?
    ensures IsCharBoundary(s, i)
  {
  }

  /** When the id and payload texts are hex, all three slices of `from_str` succeed. */
  lemma SlicesSucceed(s: seq<Byte>)
    requires |s| >= 26 && Hex.Decode(s[2..26]).Ok? && Hex.Decode(s[26..]).Ok?
    ensures Get(s, 0, 2) == Some(s[..2])
    ensures Get(s, 2, 26) == Some(s[2..26])
    ensures Get(s, 26, |s|) == Some(s[26..])
  {
    Hex.DecodeSucceedsIff(s[2..26]);
    assert s[2..26][0] == s[2];
    HexIsBoundary(s, 2);
    if |s| > 26 {
      Hex.DecodeSucceedsIff(s[26..]);
      assert s[26..][0] == s[26];
      HexIsBoundary(s, 26);
    }
    assert s[26..|s|] == s[26..];
  }

  /**
   * What decoding accepts, segment by segment: `s` decodes to `m` exactly when
   * it has at least 26 bytes, its first two parse as `m`'s tag and the rest
   * hex-decode to `m`'s id and payload.
   */
  lemma DecodeIff(s: Utf8, m: Message)
    ensures Decode(s) == Ok(m) <==>
      && |s| >= 26
      && Hex.FromStrRadix16(s[..2]) == Ok(TypeTag(m.kind))
      && Hex.Decode(s[2..26]) == Ok(m.id)
      && Hex.Decode(s[26..]) == Ok(m.payload)
  {
    if Decode(s) == Ok(m) {
      DecodeSound(s, m);
    }
    if |s| >= 26 && Hex.FromStrRadix16(s[..2]) == Ok(TypeTag(m.kind)) && Hex.Decode(s[2..26]) == Ok(m.id)
       && Hex.Decode(s[26..]) == Ok(m.payload)
    {
      DecodeComplete(s, m);
    }
  }

  lemma DecodeSound(s: Utf8, m: Message)
    requires Decode(s) == Ok(m)
    ensures |s| >= 26
    ensures Hex.FromStrRadix16(s[..2]) == Ok(TypeTag(m.kind))
    ensures Hex.Decode(s[2..26]) == Ok(m.id)
    ensures Hex.Decode(s[26..]) == Ok(m.payload)
  {
    assert Get(s, 0, 2) == Some(s[..2]);
    var tag := Hex.FromStrRadix16(s[..2]);
    assert tag.Ok?;
    assert Get(s, 2, 26) == Some(s[2..26]);
    assert Hex.Decode(s[2..26]).Ok?;
    assert s[26..|s|] == s[26..];
    assert Get(s, 26, |s|) == Some(s[26..]);
    assert Hex.Decode(s[26..]).Ok?;
    assert TryFromTag(tag.value) == Some(m.kind);
  }

  lemma DecodeComplete(s: Utf8, m: Message)
    requires |s| >= 26
    requires Hex.FromStrRadix16(s[..2]) == Ok(TypeTag(m.kind))
    requires Hex.Decode(s[2..26]) == Ok(m.id)
    requires Hex.Decode(s[26..]) == Ok(m.payload)
    ensures Decode(s) == Ok(m)
  {
    SlicesSucceed(s);
    TagRoundTrip(m.kind);
  }

  /** Decoding inverts encoding. */
  lemma RoundTrip(m: Message)
    ensures Decode(Encode(m)) == Ok(m)
  {
    var s := Encode(m);
    var tag := Hex.EncodeByte(TypeTag(m.kind));
    assert s[..2] == tag;
    assert s[2..26] == Hex.Encode(m.id);
    assert s[26..] == Hex.Encode(m.payload);
    Hex.ParseEncodedByte(TypeTag(m.kind));
    Hex.DecodeEncode(m.id);
    Hex.DecodeEncode(m.payload);
    DecodeIff(s, m);
  }

  /** Distinct messages have distinct encodings. */
  lemma EncodeInjective(m1: Message, m2: Message)
    requires Encode(m1) == Encode(m2)
    ensures m1 == m2
  {
    RoundTrip(m1);
    RoundTrip(m2);
  }

  /** Lower-case text is the canonical form: re-encoding what it decodes to gives it back. */
  lemma Canonical(s: Utf8, m: Message)
    requires Decode(s) == Ok(m) && Hex.IsLowerHex(s)
    ensures Encode(m) == s
  {
    DecodeSound(s, m);
    LowerHexFields(s);
    EncodeFields(m, s[..2], s[2..26], s[26..]);
    assert s == s[..2] + s[2..26] + s[26..];
  }

  /** Lower-case fields that parse to a message's parts are that message's encoding, field by field. */
  lemma EncodeFields(m: Message, tag: seq<Byte>, id: seq<Byte>, payload: seq<Byte>)
    requires |tag| == 2 && Hex.IsLowerHex(tag) && Hex.FromStrRadix16(tag) == Ok(TypeTag(m.kind))
    requires Hex.IsLowerHex(id) && Hex.Decode(id) == Ok(m.id)
    requires Hex.IsLowerHex(payload) && Hex.Decode(payload) == Ok(m.payload)
    ensures Encode(m) == tag + id + payload
  {
    Hex.ParsedPairIsCanonical(tag, TypeTag(m.kind));
    Hex.EncodeDecode(id, m.id);
    Hex.EncodeDecode(payload, m.payload);
  }

  /** The three fields of lower-case hex text are lower-case hex. */
  lemma LowerHexFields(s: seq<Byte>)
    requires |s| >= 26 && Hex.IsLowerHex(s)
    ensures Hex.IsLowerHex(s[..2]) && Hex.IsLowerHex(s[2..26]) && Hex.IsLowerHex(s[26..])
  {
    assert forall k | 0 <= k < 2 :: s[..2][k] == s[k];
    assert forall k | 0 <= k < 24 :: s[2..26][k] == s[k + 2];
    assert forall k | 0 <= k < |s| - 26 :: s[26..][k] == s[k + 26];
  }

  /** A message with an empty payload is exactly the 26-byte header, and a decoded 26-byte comment has no payload. */
  lemma HeaderOnly(t: MessageType, id: MessageId, s: Utf8)
    ensures |Encode(Message(t, id, []))| == 26 && Decode(Encode(Message(t, id, []))) == Ok(Message(t, id, []))
    ensures |s| == 26 && Decode(s).Ok? ==> Decode(s).value.payload == []
  {
    RoundTrip(Message(t, id, []));
  }

  /**
   * A comment that decodes starts with 26 ASCII bytes: a `+` or a digit, then
   * digits. So a non-ASCII byte among the first 26 always makes decoding fail,
   * whether the slicing or the hex parsing refuses it.
   */
  lemma DecodedHeaderIsAscii(s: Utf8)
    requires Decode(s).Ok?
    ensures |s| >= 26 && IsAscii(s[..26])
    ensures s[0] == Hex.Plus || Hex.DigitValue(s[0]).Some?
    ensures forall k | 1 <= k < 26 :: Hex.DigitValue(s[k]).Some?
  {
    DecodeSound(s, Decode(s).value);
    Hex.DecodeSucceedsIff(s[2..26]);
    assert s[..2][1..][0] == s[1];
    forall k | 2 <= k < 26
      ensures Hex.DigitValue(s[k]).Some?
    {
      assert s[2..26][k - 2] == s[k];
    }
  }

  /** Comments that are not messages: each condition alone makes decoding fail. */
  lemma Rejected(s: Utf8)
    ensures |s| < 26 ==> Decode(s).Err?
    ensures |s| >= 2 && Hex.FromStrRadix16(s[..2]).Ok? && TryFromTag(Hex.FromStrRadix16(s[..2]).value).None?
      ==> Decode(s).Err?
    ensures |s| >= 26 && !Hex.IsHex(s[2..26]) ==> Decode(s).Err?
    ensures |s| >= 26 && |s| % 2 == 1 ==> Decode(s).Err?
    ensures |s| >= 26 && !Hex.IsHex(s[26..]) ==> Decode(s).Err?
    ensures |s| >= 26 && Hex.Decode(s[26..]).Ok? && !ValidUtf8(Hex.Decode(s[26..]).value) ==> Decode(s).Err?
  {
    if Decode(s).Ok? {
      var m := Decode(s).value;
      DecodeIff(s, m);
      TagRoundTrip(m.kind);
      Hex.DecodeSucceedsIff(s[2..26]);
      Hex.DecodeSucceedsIff(s[26..]);
    }
  }

  /** Which error a comment gets when only one late check fails. */
  lemma LateErrors(s: Utf8)
    ensures |s| < 2 ==> Decode(s) == Err(TooShort)
    ensures && |s| >= 26
            && Hex.FromStrRadix16(s[..2]).Ok? && TryFromTag(Hex.FromStrRadix16(s[..2]).value).None?
            && Hex.Decode(s[2..26]).Ok? && Hex.Decode(s[26..]).Ok?
      ==> Decode(s) == Err(InvalidMessageType)
    ensures && |s| >= 26
            && Hex.FromStrRadix16(s[..2]).Ok? && TryFromTag(Hex.FromStrRadix16(s[..2]).value).Some?
            && Hex.Decode(s[2..26]).Ok? && Hex.Decode(s[26..]).Ok? && !ValidUtf8(Hex.Decode(s[26..]).value)
      ==> Decode(s) == Err(NotUtf8)
  {
    if |s| >= 26 && Hex.Decode(s[2..26]).Ok? && Hex.Decode(s[26..]).Ok? {
      SlicesSucceed(s);
    }
  }

  /**
   * The bytes of the unit test's text
   * "01" ++ "020202020202020202020202" ++ "48656c6c6f2c20776f726c6421".
   */
  function ExampleText(): seq<Byte> {
    [0x30, 0x31]
    + ([0x30, 0x32, 0x30, 0x32, 0x30, 0x32, 0x30, 0x32, 0x30, 0x32, 0x30, 0x32]
       + [0x30, 0x32, 0x30, 0x32, 0x30, 0x32, 0x30, 0x32, 0x30, 0x32, 0x30, 0x32])
    + ([0x34, 0x38, 0x36, 0x35, 0x36, 0x63, 0x36, 0x63]
       + [0x36, 0x66, 0x32, 0x63, 0x32, 0x30]
       + [0x37, 0x37, 0x36, 0x66, 0x37, 0x32]
       + [0x36, 0x63, 0x36, 0x34, 0x32, 0x31])
  }

  /** The hex text of the test vector's id, twelve 0x02 bytes. */
  lemma EncodeVectorId()
    ensures Hex.Encode([2, 2, 2, 2, 2, 2, 2, 2, 2, 2, 2, 2])
         == [0x30, 0x32, 0x30, 0x32, 0x30, 0x32, 0x30, 0x32, 0x30, 0x32, 0x30, 0x32]
            + [0x30, 0x32, 0x30, 0x32, 0x30, 0x32, 0x30, 0x32, 0x30, 0x32, 0x30, 0x32]
  {
    var half := [2, 2, 2, 2, 2, 2];
    assert [2, 2, 2, 2, 2, 2, 2, 2, 2, 2, 2, 2] == half + half;
    assert Hex.Encode(half) == [0x30, 0x32, 0x30, 0x32, 0x30, 0x32, 0x30, 0x32, 0x30, 0x32, 0x30, 0x32];
    Hex.EncodeAppend(half, half);
  }

  /** Three bytes encode digit pair by digit pair. */
  lemma EncodeThree(a: Byte, b: Byte, c: Byte)
    ensures Hex.Encode([a, b, c]) == Hex.EncodeByte(a) + Hex.EncodeByte(b) + Hex.EncodeByte(c)
  {
    assert [a, b, c][1..] == [b, c] && [b, c][1..] == [c] && [c][1..] == [];
    assert Hex.Encode([c]) == Hex.EncodeByte(c) + [];
    assert Hex.Encode([b, c]) == Hex.EncodeByte(b) + Hex.Encode([c]);
  }

  /** The hex text of "Hello, ". */
  lemma EncodeHello()
    ensures Hex.Encode([0x48, 0x65, 0x6c, 0x6c]) == [0x34, 0x38, 0x36, 0x35, 0x36, 0x63, 0x36, 0x63]
    ensures Hex.Encode([0x6f, 0x2c, 0x20]) == [0x36, 0x66, 0x32, 0x63, 0x32, 0x30]
  {
    assert Hex.EncodeByte(0x48) == [0x34, 0x38] && Hex.EncodeByte(0x65) == [0x36, 0x35];
    assert Hex.EncodeByte(0x6c) == [0x36, 0x63] && Hex.EncodeByte(0x6f) == [0x36, 0x66];
    assert Hex.EncodeByte(0x2c) == [0x32, 0x63] && Hex.EncodeByte(0x20) == [0x32, 0x30];
    assert [0x48, 0x65, 0x6c, 0x6c][1..] == [0x65, 0x6c, 0x6c];
    EncodeThree(0x65, 0x6c, 0x6c);
    assert Hex.Encode([0x48, 0x65, 0x6c, 0x6c]) == Hex.EncodeByte(0x48) + Hex.Encode([0x65, 0x6c, 0x6c]);
    EncodeThree(0x6f, 0x2c, 0x20);
  }

  /** The hex text of "world!". */
  lemma EncodeWorld()
    ensures Hex.Encode([0x77, 0x6f, 0x72]) == [0x37, 0x37, 0x36, 0x66, 0x37, 0x32]
    ensures Hex.Encode([0x6c, 0x64, 0x21]) == [0x36, 0x63, 0x36, 0x34, 0x32, 0x31]
  {
    assert Hex.EncodeByte(0x77) == [0x37, 0x37] && Hex.EncodeByte(0x6f) == [0x36, 0x66];
    assert Hex.EncodeByte(0x72) == [0x37, 0x32] && Hex.EncodeByte(0x6c) == [0x36, 0x63];
    assert Hex.EncodeByte(0x64) == [0x36, 0x34] && Hex.EncodeByte(0x21) == [0x32, 0x31];
    EncodeThree(0x77, 0x6f, 0x72);
    EncodeThree(0x6c, 0x64, 0x21);
  }

  /** The hex text of "Hello, world!". */
  lemma EncodeVectorPayload()
    ensures Hex.Encode([0x48, 0x65, 0x6c, 0x6c, 0x6f, 0x2c, 0x20, 0x77, 0x6f, 0x72, 0x6c, 0x64, 0x21])
         == [0x34, 0x38, 0x36, 0x35, 0x36, 0x63, 0x36, 0x63]
            + [0x36, 0x66, 0x32, 0x63, 0x32, 0x30]
            + [0x37, 0x37, 0x36, 0x66, 0x37, 0x32]
            + [0x36, 0x63, 0x36, 0x34, 0x32, 0x31]
  {
    var p1, p2, p3, p4 := [0x48, 0x65, 0x6c, 0x6c], [0x6f, 0x2c, 0x20], [0x77, 0x6f, 0x72], [0x6c, 0x64, 0x21];
    assert [0x48, 0x65, 0x6c, 0x6c, 0x6f, 0x2c, 0x20, 0x77, 0x6f, 0x72, 0x6c, 0x64, 0x21] == p1 + p2 + p3 + p4;
    EncodeHello();
    EncodeWorld();
    Hex.EncodeAppend(p1, p2);
    Hex.EncodeAppend(p1 + p2, p3);
    Hex.EncodeAppend(p1 + p2 + p3, p4);
  }

  /**
   * The unit test's vector, in both directions: the command with id 0x02 x 12
   * and payload "Hello, world!".
   */
  lemma TestVector(m: Message)
    requires m.kind == Command && m.id == [2, 2, 2, 2, 2, 2, 2, 2, 2, 2, 2, 2]
    requires m.payload == [0x48, 0x65, 0x6c, 0x6c, 0x6f, 0x2c, 0x20, 0x77, 0x6f, 0x72, 0x6c, 0x64, 0x21]
    ensures Encode(m) == ExampleText()
    ensures ValidUtf8(ExampleText()) && Decode(ExampleText()) == Ok(m)
  {
    EncodeVectorId();
    EncodeVectorPayload();
    assert Hex.EncodeByte(TypeTag(m.kind)) == [0x30, 0x31];
    assert Encode(m) == ExampleText();
    RoundTrip(m);
  }

  /** Twenty-four zero digits decode to twelve zero bytes. */
  lemma DecodeZeroId()
    ensures Hex.Decode([0x30, 0x30, 0x30, 0x30, 0x30, 0x30, 0x30, 0x30, 0x30, 0x30, 0x30, 0x30]
                       + [0x30, 0x30, 0x30, 0x30, 0x30, 0x30, 0x30, 0x30, 0x30, 0x30, 0x30, 0x30])
         == Ok([0, 0, 0, 0, 0, 0, 0, 0, 0, 0, 0, 0])
  {
    var half := [0, 0, 0, 0, 0, 0];
    assert [0, 0, 0, 0, 0, 0, 0, 0, 0, 0, 0, 0] == half + half;
    assert Hex.Encode(half) == [0x30, 0x30, 0x30, 0x30, 0x30, 0x30, 0x30, 0x30, 0x30, 0x30, 0x30, 0x30];
    Hex.EncodeAppend(half, half);
    Hex.DecodeEncode(half + half);
  }

  /** Upper-case "4A" decodes to the byte 0x4A. */
  lemma DecodeUpper(tail: seq<Byte>)
    requires tail == [0x34, 0x41]
    ensures Hex.Decode(tail) == Ok([0x4A])
  {
    assert tail[0] == 0x34 && tail[1] == 0x41 && tail[2..] == [];
    assert Hex.DigitValue(tail[0]) == Some(4) && Hex.DigitValue(tail[1]) == Some(10);
    var rest := Hex.DecodePairs(tail[2..], 2);
    assert rest == Ok([]) && !rest.IsFailure() && rest.Extract() == [];
    assert [4 * 16 + 10] + [] == [0x4A];
  }

  /**
   * Decoding is more lenient than encoding: it accepts a `+` before a
   * one-digit tag and upper-case digits, so "+1" ++ 24 zeros ++ "4A" decodes
   * to the command "J", which encodes as "01" ++ 24 zeros ++ "4a".
   */
  lemma AcceptsNonCanonical(s: Utf8)
    requires s == [0x2b, 0x31]
                  + [0x30, 0x30, 0x30, 0x30, 0x30, 0x30, 0x30, 0x30, 0x30, 0x30, 0x30, 0x30]
                  + [0x30, 0x30, 0x30, 0x30, 0x30, 0x30, 0x30, 0x30, 0x30, 0x30, 0x30, 0x30]
                  + [0x34, 0x41]
    ensures Decode(s) == Ok(Message(Command, [0, 0, 0, 0, 0, 0, 0, 0, 0, 0, 0, 0], [0x4A]))
    ensures Encode(Decode(s).value) != s
  {
    var m := Message(Command, [0, 0, 0, 0, 0, 0, 0, 0, 0, 0, 0, 0], [0x4A]);
    assert Hex.FromStrRadix16([0x2b, 0x31]) == Ok(1);
    DecodeZeroId();
    DecodeUpper(s[26..]);
    assert s[..2] == [0x2b, 0x31];
    assert s[2..26] == [0x30, 0x30, 0x30, 0x30, 0x30, 0x30, 0x30, 0x30, 0x30, 0x30, 0x30, 0x30]
                       + [0x30, 0x30, 0x30, 0x30, 0x30, 0x30, 0x30, 0x30, 0x30, 0x30, 0x30, 0x30];
    DecodeComplete(s, m);
    assert Encode(m)[0] != s[0];
  }

  // ---------------------------------------------------------------------------
  // Reading the board

  /** A failure of the document transport; its cause is opaque here. */
  datatype TransportError = TransportFailure

  /** What one `read_all_comments` call returns: every comment visible at that moment. */
  type ReadResult = Result<seq<Utf8>, TransportError>

  /** The comments that decode, as messages, in the order of the snapshot. */
  function Parsed(comments: seq<Utf8>): (msgs: seq<Message>)
    ensures |msgs| <= |comments|
    decreases |comments|
  {
    if comments == [] then []
    else
      var init := Parsed(comments[..|comments| - 1]);
      match Decode(comments[|comments| - 1])
      case Ok(m) => init + [m]
      case Err(_) => init
  }

  lemma {:induction false} ParsedAppend(a: seq<Utf8>, b: seq<Utf8>)
    ensures Parsed(a + b) == Parsed(a) + Parsed(b)
    decreases |b|
  {
    if b == [] {
      assert a + b == a;
    } else {
      assert (a + b)[..|a + b| - 1] == a + b[..|b| - 1];
      assert (a + b)[|a + b| - 1] == b[|b| - 1];
      ParsedAppend(a, b[..|b| - 1]);
    }
  }

  /**
   * Each comment contributes its message, in place, if it decodes and nothing
   * if it does not; an undecodable comment never disturbs its neighbours.
   */
  lemma KeepsExactlyDecodable(before: seq<Utf8>, c: Utf8, after: seq<Utf8>)
    ensures Parsed(before + [c] + after)
         == Parsed(before) + (if Decode(c).Ok? then [Decode(c).value] else []) + Parsed(after)
  {
    ParsedAppend(before + [c], after);
    ParsedAppend(before, [c]);
    assert [c][..0] == [];
  }

  /** A message is read exactly when some comment of the snapshot decodes to it. */
  lemma {:induction false} ParsedMembership(comments: seq<Utf8>, m: Message)
    ensures m in Parsed(comments) <==> exists c | c in comments :: Decode(c) == Ok(m)
    decreases |comments|
  {
    if comments != [] {
      var init, last := comments[..|comments| - 1], comments[|comments| - 1];
      ParsedMembership(init, m);
      assert comments == init + [last];
      ParsedLast(init, last);
      DecodesToInSnoc(init, last, m);
      var added := if Decode(last).Ok? then [Decode(last).value] else [];
      assert m in added <==> Decode(last) == Ok(m);
      assert m in Parsed(comments) <==> m in Parsed(init) || m in added;
    }
  }

  /** The last comment contributes its message, if it decodes, after those of the others. */
  lemma ParsedLast(init: seq<Utf8>, last: Utf8)
    ensures Parsed(init + [last]) == Parsed(init) + (if Decode(last).Ok? then [Decode(last).value] else [])
  {
    assert (init + [last])[..|init + [last]| - 1] == init;
  }

  /** Some comment of `init + [last]` decodes to `m` exactly when one of `init` does or `last` does. */
  lemma DecodesToInSnoc(init: seq<Utf8>, last: Utf8, m: Message)
    ensures (exists c | c in init + [last] :: Decode(c) == Ok(m))
        <==> (exists c | c in init :: Decode(c) == Ok(m)) || Decode(last) == Ok(m)
  {
    if exists c | c in init + [last] :: Decode(c) == Ok(m) {
      var c :| c in init + [last] && Decode(c) == Ok(m);
      assert c in init || c == last;
    }
    if Decode(last) == Ok(m) {
      assert last in init + [last];
    }
  }

  /** `read_all_messages`: a failed read is passed on; otherwise every comment that decodes, in order. */
  method ReadAllMessages(read: ReadResult) returns (r: Result<seq<Message>, TransportError>)
    ensures read.Err? ==> r == Err(read.error)
    ensures read.Ok? ==> r == Ok(Parsed(read.value))
  {
    var comments :- read;
    var messages := [];
    for i := 0 to |comments|
      invariant messages == Parsed(comments[..i])
    {
      assert comments[..i + 1][..i] == comments[..i];
      var parsed := Decode(comments[i]);
      if parsed.Ok? {
        messages := messages + [parsed.value];
      }
    }
    assert comments[..|comments|] == comments;
    return Ok(messages);
  }
}
