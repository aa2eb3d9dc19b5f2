/**
 Bytes, the characters JSON gives a meaning to, and reading a byte sequence through a cursor.
 */
module Bytes {

  type byte = b: int | 0 <= b < 256

  /** An in-memory text: `MemoryStream` over a buffer. */
  type Text = seq<byte>

  const NUL: byte := 0x00
  const BACKSPACE: byte := 0x08
  const TAB: byte := 0x09
  const LINE_FEED: byte := 0x0A
  const FORM_FEED: byte := 0x0C
  const CARRIAGE_RETURN: byte := 0x0D
  const SPACE: byte := 0x20
  const QUOTE: byte := 0x22          // "
  const HASH: byte := 0x23           // #
  const PERCENT: byte := 0x25        // %
  const STAR: byte := 0x2A           // *
  const PLUS: byte := 0x2B           // +
  const COMMA: byte := 0x2C          // ,
  const MINUS: byte := 0x2D          // -
  const DOT: byte := 0x2E            // .
  const SLASH: byte := 0x2F          // /
  const ZERO: byte := 0x30           // 0
  const ONE: byte := 0x31            // 1
  const NINE: byte := 0x39           // 9
  const COLON: byte := 0x3A          // :
  const UPPER_A: byte := 0x41        // A
  const UPPER_E: byte := 0x45        // E
  const UPPER_F: byte := 0x46        // F
  const UPPER_I: byte := 0x49        // I
  const UPPER_N: byte := 0x4E        // N
  const LEFT_BRACKET: byte := 0x5B   // [
  const BACKSLASH: byte := 0x5C      // \
  const RIGHT_BRACKET: byte := 0x5D  // ]
  const LOWER_A: byte := 0x61        // a
  const LOWER_B: byte := 0x62        // b
  const LOWER_E: byte := 0x65        // e
  const LOWER_F: byte := 0x66        // f
  const LOWER_I: byte := 0x69        // i
  const LOWER_L: byte := 0x6C        // l
  const LOWER_N: byte := 0x6E        // n
  const LOWER_R: byte := 0x72        // r
  const LOWER_S: byte := 0x73        // s
  const LOWER_T: byte := 0x74        // t
  const LOWER_U: byte := 0x75        // u
  const LOWER_Y: byte := 0x79        // y
  const LEFT_BRACE: byte := 0x7B     // {
  const RIGHT_BRACE: byte := 0x7D    // }
  const TILDE: byte := 0x7E          // ~

  /** The byte under the cursor; reading past the end yields NUL, as `MemoryStream::Peek` does. */
  function Peek(s: Text, p: nat): byte {
    if p < |s| then s[p] else NUL
  }

  /** Does `w` stand in `s` at position `p`? */
  predicate At(s: Text, p: nat, w: Text) {
    p + |w| <= |s| && s[p..p + |w|] == w
  }

  /** A text that stands at `p` can be read off byte by byte. */
  lemma AtPeek(s: Text, p: nat, w: Text, k: nat)
    requires At(s, p, w) && k < |w|
    ensures p + k < |s| && Peek(s, p + k) == s[p + k] == w[k]
  {
    assert s[p..p + |w|][k] == w[k];
  }

  /** A concatenation stands at `p` exactly when its halves stand one after the other. */
  lemma AtConcat(s: Text, p: nat, u: Text, w: Text)
    ensures At(s, p, u + w) <==> At(s, p, u) && At(s, p + |u|, w)
  {
    if p + |u| + |w| <= |s| {
      assert s[p..p + |u + w|] == s[p..p + |u|] + s[p + |u|..p + |u| + |w|];
      if s[p..p + |u + w|] == u + w {
        assert s[p..p + |u|] == s[p..p + |u + w|][..|u|] == u;
        assert s[p + |u|..p + |u| + |w|] == s[p..p + |u + w|][|u|..] == w;
      }
    }
  }
}
