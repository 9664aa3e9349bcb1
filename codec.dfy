/**
 * The frame codec of the local IPC presence client (`encode_message`,
 * `decode_message` and `OpCodes` in src-tauri/src/discord_rpc.rs).
 *
 * A frame is a 4-byte little-endian opcode, a 4-byte little-endian payload
 * length and the payload's UTF-8 bytes. The decoder skips both header words
 * and reads every remaining byte as text; it never looks at the declared
 * length.
 */
module Codec {
  import opened Base
  import Utf8

  /** The two opcodes the client sends, with Rust's implicit discriminants 0 and 1. */
  datatype OpCode = Handshake | Frame

  function OpCodeValue(op: OpCode): (v: u32)
    ensures v < 2
    ensures v == 0 <==> op == Handshake
  {
    match op
    case Handshake => 0
    case Frame => 1
  }

  /** Why encoding or decoding a frame failed. */
  datatype CodecError =
    | PayloadTooLong   // the payload's byte length does not fit the u32 length word
    | UnexpectedEof    // fewer than four bytes were left for a header word
    | InvalidUtf8      // the bytes after the header are not well-formed UTF-8

  /** `write_u32_le`: the four bytes of `n`, least significant first. */
  function U32Le(n: u32): (b: seq<byte>)
    ensures |b| == 4
  {
    [n % 0x100, (n / 0x100) % 0x100, (n / 0x1_0000) % 0x100, n / 0x100_0000]
  }

  /** `read_u32_le`: the number whose little-endian bytes are `b`. */
  function ReadU32Le(b: seq<byte>): u32
    requires |b| == 4
  {
    b[0] as int + 0x100 * b[1] as int + 0x1_0000 * b[2] as int + 0x100_0000 * b[3] as int
  }

  /** Reading back a written word gives the number written. */
  lemma ReadWrittenU32(n: u32)
    ensures ReadU32Le(U32Le(n)) == n
  {
  }

  /** Splitting off the low byte of `lo + 0x100 * q`. */
  lemma LowByte(x: int, lo: byte, q: nat)
    requires x == lo + 0x100 * q
    ensures x % 0x100 == lo && x / 0x100 == q
  {
  }

  /** Dividing `lo + 0x1_0000 * q` by 0x1_0000, for `lo` below 0x1_0000. */
  lemma HighHalf(x: int, lo: int, q: nat)
    requires 0 <= lo < 0x1_0000 && x == lo + 0x1_0000 * q
    ensures x / 0x1_0000 == q
  {
  }

  /** Dividing `lo + 0x100_0000 * q` by 0x100_0000, for `lo` below 0x100_0000. */
  lemma TopByte(x: int, lo: int, q: nat)
    requires 0 <= lo < 0x100_0000 && x == lo + 0x100_0000 * q
    ensures x / 0x100_0000 == q
  {
  }

  /** Writing a read word gives the bytes read: distinct words have distinct numbers. */
  lemma WriteReadU32(b: seq<byte>)
    requires |b| == 4
    ensures U32Le(ReadU32Le(b)) == b
  {
    var n: int := ReadU32Le(b);
    var b0, b1, b2, b3 := b[0] as int, b[1] as int, b[2] as int, b[3] as int;
    var mid := b2 + 0x100 * b3;
    var hi := b1 + 0x100 * mid;
    LowByte(n, b[0], hi);
    LowByte(mid, b[2], b[3]);
    HighHalf(n, b0 + 0x100 * b1, mid);
    TopByte(n, b0 + 0x100 * b1 + 0x1_0000 * b2, b3);
    assert U32Le(n) == [b0, hi % 0x100, mid % 0x100, b3];
    LowByte(hi, b[1], mid);
  }

  /** A payload can be framed when its byte length fits the u32 length word (`u32::try_from`). */
  predicate Encodable(payload: string) {
    |Utf8.Encode(payload)| <= U32Max
  }

  /**
   * The frame `encode_message` builds for `payload`, or PayloadTooLong.
   * The result is Ok exactly when the payload is encodable; an Ok frame is
   * 8 bytes longer than the payload's bytes, its header words read back as
   * the opcode and the byte length, and the payload bytes follow unchanged.
   */
  function EncodedFrame(op: OpCode, payload: string): (r: Result<seq<byte>, CodecError>)
    ensures r.Ok? <==> Encodable(payload)
    ensures r.Err? ==> r.error == PayloadTooLong
    ensures r.Ok? ==> |r.value| == 8 + |Utf8.Encode(payload)|
    ensures r.Ok? ==> ReadU32Le(r.value[..4]) == OpCodeValue(op)
    ensures r.Ok? ==> ReadU32Le(r.value[4..8]) == |Utf8.Encode(payload)|
    ensures r.Ok? ==> r.value[8..] == Utf8.Encode(payload)
  {
    var bytes := Utf8.Encode(payload);
    if |bytes| > U32Max then
      Err(PayloadTooLong)
    else
      var frame := U32Le(OpCodeValue(op)) + U32Le(|bytes|) + bytes;
      ReadWrittenU32(OpCodeValue(op));
      ReadWrittenU32(|bytes|);
      assert frame[..4] == U32Le(OpCodeValue(op)) && frame[4..8] == U32Le(|bytes|);
      Ok(frame)
  }

  /**
   * What `decode_message` makes of `bytes`: UnexpectedEof below 8 bytes,
   * otherwise the text of everything after the header, or InvalidUtf8.
   */
  function DecodedPayload(bytes: seq<byte>): (r: Result<string, CodecError>)
    ensures r.Ok? <==> |bytes| >= 8 && Utf8.Decode(bytes[8..]).Some?
    ensures |bytes| < 8 ==> r == Err(UnexpectedEof)
    ensures r.Ok? ==> Utf8.Encode(r.value) == bytes[8..]
  {
    if |bytes| < 4 then
      Err(UnexpectedEof)
    else if |bytes| - 4 < 4 then
      Err(UnexpectedEof)
    else
      match Utf8.Decode(bytes[8..])
      case None => Err(InvalidUtf8)
      case Some(text) =>
        Utf8.EncodeDecode(bytes[8..]);
        Ok(text)
  }

  /** Round trip: decoding an encoded frame gives its payload back, whatever the opcode. */
  lemma DecodeEncodedFrame(op: OpCode, payload: string)
    requires Encodable(payload)
    ensures DecodedPayload(EncodedFrame(op, payload).value) == Ok(payload)
  {
    Utf8.DecodeEncode(payload);
  }

  /**
   * The decoder ignores both header words: a payload after any opcode word
   * and any declared length, true or not, decodes to itself.
   */
  lemma HeaderWordsIgnored(opWord: u32, declaredLength: u32, payload: string)
    ensures DecodedPayload(U32Le(opWord) + U32Le(declaredLength) + Utf8.Encode(payload)) == Ok(payload)
  {
    var bytes := U32Le(opWord) + U32Le(declaredLength) + Utf8.Encode(payload);
    assert bytes[8..] == Utf8.Encode(payload);
    Utf8.DecodeEncode(payload);
  }

  /** Frames of the two opcodes differ in their first byte and nowhere else. */
  lemma OpCodesDistinguishFrames(payload: string)
    requires Encodable(payload)
    ensures EncodedFrame(Handshake, payload).value[0] == 0
    ensures EncodedFrame(Frame, payload).value[0] == 1
    ensures EncodedFrame(Handshake, payload).value[1..] == EncodedFrame(Frame, payload).value[1..]
  {
  }

  /** `encode_message`: appends the opcode word, the length word and the payload bytes to a buffer. */
  method EncodeMessage(op: OpCode, payload: string) returns (r: Result<seq<byte>, CodecError>)
    ensures r == EncodedFrame(op, payload)
  {
    var encoded: seq<byte> := [];
    encoded := encoded + U32Le(OpCodeValue(op));
    var bytes := Utf8.Encode(payload);
    if |bytes| > U32Max {
      return Err(PayloadTooLong);
    }
    encoded := encoded + U32Le(|bytes|);
    encoded := encoded + bytes;
    assert encoded == U32Le(OpCodeValue(op)) + U32Le(|bytes|) + bytes;
    r := Ok(encoded);
  }

  /**
   * `decode_message`: advances a cursor over the opcode word and the length
   * word, then reads the rest of the bytes as a string.
   */
  method DecodeMessage(bytes: seq<byte>) returns (r: Result<string, CodecError>)
    ensures r == DecodedPayload(bytes)
  {
    var position := 0;
    // opcode
    if |bytes| - position < 4 {
      return Err(UnexpectedEof);
    }
    var _ := ReadU32Le(bytes[position..position + 4]);
    position := position + 4;
    // payload length
    if |bytes| - position < 4 {
      return Err(UnexpectedEof);
    }
    var _ := ReadU32Le(bytes[position..position + 4]);
    position := position + 4;
    var text := Utf8.Decode(bytes[position..]);
    if text.None? {
      return Err(InvalidUtf8);
    }
    r := Ok(text.value);
  }
}
