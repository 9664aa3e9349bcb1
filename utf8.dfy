/**
 * UTF-8, the byte encoding of Rust's `String` (RFC 3629, section 3).
 *
 * A Rust `String` is a sequence of Unicode scalar values stored as its
 * UTF-8 bytes; `String::len` and `as_bytes` see those bytes, and reading a
 * byte buffer into a `String` fails unless the bytes are well-formed UTF-8.
 * Dafny's `char` is a Unicode scalar value, so a `string` here stands for a
 * Rust `String`, `Encode` for `as_bytes` and `Decode` for the validating
 * conversion from bytes.
 */
module Utf8 {
  import opened Base

  /** A continuation byte: 10xxxxxx. */
  predicate IsContinuation(b: byte) {
    0x80 <= b < 0xC0
  }

  /** The bytes of one scalar value: 1 to 4 of them, by the value's range. */
  function EncodeScalar(c: char): (b: seq<byte>)
    ensures 1 <= |b| <= 4
  {
    var cp := c as int;
    if cp < 0x80 then
      [cp]
    else if cp < 0x800 then
      [0xC0 + cp / 0x40, 0x80 + cp % 0x40]
    else if cp < 0x1_0000 then
      [0xE0 + cp / 0x1000, 0x80 + (cp / 0x40) % 0x40, 0x80 + cp % 0x40]
    else
      [0xF0 + cp / 0x4_0000, 0x80 + (cp / 0x1000) % 0x40, 0x80 + (cp / 0x40) % 0x40, 0x80 + cp % 0x40]
  }

  /**
   * Decodes the scalar value that `b` starts with, and how many bytes it
   * takes; None when `b` does not start with a well-formed sequence (a stray
   * continuation byte, a truncated sequence, an overlong form, a surrogate,
   * or a value above U+10FFFF).
   */
  function DecodeScalar(b: seq<byte>): Option<(char, nat)>
  {
    if |b| == 0 then None
    else if b[0] < 0x80 then
      Some((b[0] as char, 1))
    else if 0xC0 <= b[0] < 0xE0 then
      if |b| < 2 || !IsContinuation(b[1]) then None
      else
        var cp := (b[0] as int - 0xC0) * 0x40 + (b[1] as int - 0x80);
        if cp < 0x80 then None else Some((cp as char, 2))
    else if 0xE0 <= b[0] < 0xF0 then
      if |b| < 3 || !IsContinuation(b[1]) || !IsContinuation(b[2]) then None
      else
        var cp := (b[0] as int - 0xE0) * 0x1000 + (b[1] as int - 0x80) * 0x40 + (b[2] as int - 0x80);
        if cp < 0x800 || (0xD800 <= cp < 0xE000) then None else Some((cp as char, 3))
    else if 0xF0 <= b[0] < 0xF8 then
      if |b| < 4 || !IsContinuation(b[1]) || !IsContinuation(b[2]) || !IsContinuation(b[3]) then None
      else
        var cp := (b[0] as int - 0xF0) * 0x4_0000 + (b[1] as int - 0x80) * 0x1000
                  + (b[2] as int - 0x80) * 0x40 + (b[3] as int - 0x80);
        if cp < 0x1_0000 || cp > 0x10_FFFF then None else Some((cp as char, 4))
    else
      None
  }

  /** The UTF-8 bytes of a string (Rust's `String::as_bytes`). */
  function Encode(s: string): (b: seq<byte>)
    ensures b == [] <==> s == []
  {
    if s == [] then [] else EncodeScalar(s[0]) + Encode(s[1..])
  }

  /** The string whose UTF-8 bytes are `b`, or None when `b` is not well-formed UTF-8. */
  function Decode(b: seq<byte>): Option<string>
    decreases |b|
  {
    if b == [] then Some([])
    else
      match DecodeScalar(b)
      case None => None
      case Some((c, n)) =>
        if n == 0 || n > |b| then None
        else
          match Decode(b[n..])
          case None => None
          case Some(rest) => Some([c] + rest)
  }

  /** Splitting a code point into 6-bit groups and joining them again is the identity. */
  lemma SixBitGroups(cp: int)
    requires 0 <= cp
    ensures cp == (cp / 0x40) * 0x40 + cp % 0x40
    ensures cp / 0x40 == (cp / 0x1000) * 0x40 + (cp / 0x40) % 0x40
    ensures cp / 0x1000 == (cp / 0x4_0000) * 0x40 + (cp / 0x1000) % 0x40
  {
  }

  /** Decoding the bytes of one scalar value, whatever follows them, gives that value back. */
  lemma DecodeScalarOfEncoded(c: char, rest: seq<byte>)
    ensures DecodeScalar(EncodeScalar(c) + rest) == Some((c, |EncodeScalar(c)|))
  {
    var cp := c as int;
    var e := EncodeScalar(c);
    var b := e + rest;
    SixBitGroups(cp);
    assert b[..|e|] == e;
    if cp < 0x80 {
    } else if cp < 0x800 {
      var b0, b1 := b[0] as int, b[1] as int;
      assert b0 == 0xC0 + cp / 0x40 && b1 == 0x80 + cp % 0x40;
      assert (b0 - 0xC0) * 0x40 + (b1 - 0x80) == cp;
    } else if cp < 0x1_0000 {
      var b0, b1, b2 := b[0] as int, b[1] as int, b[2] as int;
      assert b0 == 0xE0 + cp / 0x1000 && b1 == 0x80 + (cp / 0x40) % 0x40 && b2 == 0x80 + cp % 0x40;
      assert (b0 - 0xE0) * 0x1000 + (b1 - 0x80) * 0x40 + (b2 - 0x80) == cp;
    } else {
      var b0, b1, b2, b3 := b[0] as int, b[1] as int, b[2] as int, b[3] as int;
      assert b0 == 0xF0 + cp / 0x4_0000 && b1 == 0x80 + (cp / 0x1000) % 0x40;
      assert b2 == 0x80 + (cp / 0x40) % 0x40 && b3 == 0x80 + cp % 0x40;
      assert (b0 - 0xF0) * 0x4_0000 + (b1 - 0x80) * 0x1000 + (b2 - 0x80) * 0x40 + (b3 - 0x80) == cp;
    }
  }

  /** A decoded scalar value was exactly the bytes it consumed. */
  lemma EncodedOfDecodeScalar(b: seq<byte>)
    requires DecodeScalar(b).Some?
    ensures 1 <= DecodeScalar(b).value.1 <= |b|
    ensures b[..DecodeScalar(b).value.1] == EncodeScalar(DecodeScalar(b).value.0)
  {
    var c := DecodeScalar(b).value.0;
    var cp := c as int;
    SixBitGroups(cp);
    if b[0] < 0x80 {
    } else if b[0] < 0xE0 {
      var b0, b1 := b[0] as int, b[1] as int;
      assert cp == (b0 - 0xC0) * 0x40 + (b1 - 0x80);
      assert cp / 0x40 == b0 - 0xC0 && cp % 0x40 == b1 - 0x80;
    } else if b[0] < 0xF0 {
      var b0, b1, b2 := b[0] as int, b[1] as int, b[2] as int;
      assert cp == (b0 - 0xE0) * 0x1000 + (b1 - 0x80) * 0x40 + (b2 - 0x80);
      assert cp / 0x40 == (b0 - 0xE0) * 0x40 + (b1 - 0x80) && cp % 0x40 == b2 - 0x80;
      assert cp / 0x1000 == b0 - 0xE0;
    } else {
      var b0, b1, b2, b3 := b[0] as int, b[1] as int, b[2] as int, b[3] as int;
      assert cp == (b0 - 0xF0) * 0x4_0000 + (b1 - 0x80) * 0x1000 + (b2 - 0x80) * 0x40 + (b3 - 0x80);
      assert cp / 0x40 == (b0 - 0xF0) * 0x1000 + (b1 - 0x80) * 0x40 + (b2 - 0x80) && cp % 0x40 == b3 - 0x80;
      assert cp / 0x1000 == (b0 - 0xF0) * 0x40 + (b1 - 0x80);
      assert cp / 0x4_0000 == b0 - 0xF0;
    }
  }

  /** Round trip: the bytes of any string decode to that string. */
  lemma {:induction false} DecodeEncode(s: string)
    ensures Decode(Encode(s)) == Some(s)
  {
    if s != [] {
      var e := EncodeScalar(s[0]);
      DecodeScalarOfEncoded(s[0], Encode(s[1..]));
      assert (e + Encode(s[1..]))[|e|..] == Encode(s[1..]);
      DecodeEncode(s[1..]);
      assert [s[0]] + s[1..] == s;
    }
  }

  /** Decoding succeeds only on the bytes of the string it returns. */
  lemma {:induction false} EncodeDecode(b: seq<byte>)
    requires Decode(b).Some?
    ensures Encode(Decode(b).value) == b
    decreases |b|
  {
    if b != [] {
      var (c, n) := DecodeScalar(b).value;
      EncodedOfDecodeScalar(b);
      EncodeDecode(b[n..]);
      var s := Decode(b).value;
      assert s[0] == c && s[1..] == Decode(b[n..]).value;
      assert b == b[..n] + b[n..];
    }
  }

  /** `Decode` and `Encode` are inverse: `b` decodes to `s` exactly when `b` is the bytes of `s`. */
  lemma DecodeIffEncode(b: seq<byte>, s: string)
    ensures Decode(b) == Some(s) <==> Encode(s) == b
  {
    if Decode(b) == Some(s) {
      EncodeDecode(b);
    }
    if Encode(s) == b {
      DecodeEncode(s);
    }
  }

  /** A string takes at least one and at most four bytes per scalar value. */
  lemma {:induction false} EncodedLength(s: string)
    ensures |s| <= |Encode(s)| <= 4 * |s|
  {
    if s != [] {
      EncodedLength(s[1..]);
    }
  }
}
