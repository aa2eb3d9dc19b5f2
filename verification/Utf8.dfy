/**
 `UTF8<>` of encodings.h: encoding a code point, decoding or validating one code point from a
 byte stream, and well-formed byte sequences in the sense of section 4 of RFC 3629.

 Code points and bytes are integers; a shift by six bits is a multiplication by 64, a mask by
 0x3F is a remainder modulo 64. The classes of continuation bytes in `GetRange` are single bits.
 */
module Utf8 {
  import opened Bytes

  /** The class of a byte; 0x10, 0x40 and 0x20 are the three kinds of continuation byte. */
  function GetRange(c: byte): nat {
    if c < 0x80 then 0
    else if c < 0x90 then 0x10
    else if c < 0xA0 then 0x40
    else if c < 0xC0 then 0x20
    else if c < 0xC2 then 8
    else if c < 0xE0 then 2
    else if c == 0xE0 then 10
    else if c < 0xED then 3
    else if c == 0xED then 4
    else if c < 0xF0 then 3
    else if c == 0xF0 then 11
    else if c < 0xF4 then 6
    else if c == 0xF4 then 5
    else 8
  }

  /** `GetRange(c) & mask`, for the masks 0x10 to 0x70: no class below 0x10 shares a bit with them. */
  predicate InRange(c: byte, mask: nat) {
    match GetRange(c)
    case 0x10 => mask / 0x10 % 2 == 1
    case 0x20 => mask / 0x20 % 2 == 1
    case 0x40 => mask / 0x40 % 2 == 1
    case _ => false
  }

  /** What one call leaves behind: verdict, cursor, and the code point so far. */
  datatype Step = Step(ok: bool, pos: nat, codepoint: nat)

  /** RAPIDJSON_COPY and RAPIDJSON_TRANS. Take at the end of the stream yields NUL and stays. */
  function Copy(s: Text, r: Step, mask: nat): Step {
    var c := Peek(s, r.pos);
    Step(r.ok && InRange(c, mask), if r.pos < |s| then r.pos + 1 else r.pos, r.codepoint * 64 + c % 64)
  }

  /** `Decode`: one code point from the stream. `Validate` copies the bytes Decode reads, with the same verdict. */
  function Decode(s: Text, p: nat): (r: Step)
    requires p <= |s|
    ensures p <= r.pos <= |s| && r.pos <= p + 4
    ensures p < |s| ==> p < r.pos
  {
    var c := Peek(s, p);
    var q := if p < |s| then p + 1 else p;
    if c < 0x80 then Step(true, q, c)
    else
      match GetRange(c)
      case 2 => Copy(s, Step(true, q, c % 64), 0x70)
      case 3 => Copy(s, Copy(s, Step(true, q, c % 32), 0x70), 0x70)
      case 4 => Copy(s, Copy(s, Step(true, q, c % 16), 0x50), 0x70)
      case 5 => Copy(s, Copy(s, Copy(s, Step(true, q, c % 8), 0x10), 0x70), 0x70)
      case 6 => Copy(s, Copy(s, Copy(s, Step(true, q, c % 4), 0x70), 0x70), 0x70)
      case 10 => Copy(s, Copy(s, Step(true, q, 0), 0x20), 0x70)
      case 11 => Copy(s, Copy(s, Copy(s, Step(true, q, 0), 0x60), 0x70), 0x70)
      case _ => Step(false, q, 0)
  }

  /** A Unicode scalar value: a code point that is not a surrogate. */
  predicate Scalar(cp: nat) {
    cp < 0xD800 || 0xE000 <= cp < 0x11_0000
  }

  type ScalarValue = cp: nat | cp < 0xD800 || 0xE000 <= cp < 0x11_0000

  /** `Encode`. */
  function Encode(cp: nat): (w: Text)
    requires cp < 0x11_0000
    ensures 1 <= |w| <= 4
  {
    if cp <= 0x7F then [cp]
    else if cp <= 0x7FF then [0xC0 + cp / 64, 0x80 + cp % 64]
    else if cp <= 0xFFFF then [0xE0 + cp / 4096, 0x80 + cp / 64 % 64, 0x80 + cp % 64]
    else [0xF0 + cp / 262144, 0x80 + cp / 4096 % 64, 0x80 + cp / 64 % 64, 0x80 + cp % 64]
  }
}
