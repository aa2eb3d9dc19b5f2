/**
 The characters behind the names and tables of the other modules: which letters are hexadecimal digits, escapes and
 words, where the digits of a number stand, and how the bits of a code point are spread over bytes.
 */
module Characters {
  import opened Bytes
  import opened Decimal
  import opened JsonLexical
  import opened JsonNumber
  import opened Utf8
  import Grammar = JsonGrammar
  import Writer = JsonWriter
  import Pointer = JsonPointer
  import Optional

  /** The bytes of a text in ASCII. */
  function Ascii(s: string): (w: Text)
    requires forall i | 0 <= i < |s| :: s[i] < 128 as char
    ensures |w| == |s|
  {
    seq(|s|, i requires 0 <= i < |s| => s[i] as int)
  }

  /** Structural characters and words, sections 2 and 3 of RFC 8259. */
  lemma WordsAreAscii()
    ensures [LEFT_BRACKET, LEFT_BRACE, RIGHT_BRACKET, RIGHT_BRACE, COLON, COMMA] == Ascii("[{]}:,")
    ensures [QUOTE, BACKSLASH, SLASH, STAR, MINUS, PLUS, DOT] == Ascii("\"\\/*-+.")
    ensures Grammar.NULL_WORD == Writer.NULL_TEXT == Ascii("null")
    ensures Grammar.TRUE_WORD == Writer.TRUE_TEXT == Ascii("true")
    ensures Grammar.FALSE_WORD == Writer.FALSE_TEXT == Ascii("false")
    ensures forall c: byte :: IsDigit(c) <==> 0x30 <= c <= 0x39
    ensures NAN_WORD == Ascii("NaN") && INF_WORD == Ascii("Inf") && INITY_WORD == Ascii("inity")
  {
  }

  const LOWER_HEX := "0123456789abcdef"
  const UPPER_HEX := "0123456789ABCDEF"

  /** Hexadecimal digits are read in both cases, and written in upper case. */
  lemma HexDigitsAreAscii(c: byte, n: nat)
    requires n < 16
    ensures IsHexDigit(c) && HexValue(c) == n <==> c == LOWER_HEX[n] as int || c == UPPER_HEX[n] as int
    ensures Writer.HexDigit(n) == UPPER_HEX[n] as int
  {
  }

  /** The characters an escape of one letter stands for, section 7 of RFC 8259. */
  const LETTERS := "\"\\/bfnrt"
  const ESCAPED: Text := [0x22, 0x5C, 0x2F, 0x08, 0x0C, 0x0A, 0x0D, 0x09]

  /** A letter behind a backslash stands for its character, and no other letter for any. */
  lemma EscapesAreAscii(c: byte)
    ensures forall k | 0 <= k < 8 :: Unescaped(LETTERS[k] as int) == ESCAPED[k]
    ensures Unescaped(c) != NUL ==> exists k | 0 <= k < 8 :: c == LETTERS[k] as int
  {
    if Unescaped(c) != NUL {
      var k := if c == 0x22 then 0 else if c == 0x5C then 1 else if c == 0x2F then 2 else if c == 0x62 then 3
               else if c == 0x66 then 4 else if c == 0x6E then 5 else if c == 0x72 then 6 else 7;
      assert c == LETTERS[k] as int;
    }
  }

  /** What the writer puts for a byte: its letter if it has one, but for the slash; four digits; or the byte itself. */
  lemma WrittenEscapes(c: byte)
    requires c < 0x80
    ensures forall k | 0 <= k < 8 && k != 2 :: c == ESCAPED[k] ==> Writer.EscapeByte(c) == [0x5C, LETTERS[k] as int]
    ensures (forall k | 0 <= k < 8 && k != 2 :: c != ESCAPED[k]) ==>
              Writer.EscapeByte(c)
              == if c < 0x20 then Ascii("\\u00") + [UPPER_HEX[c / 16] as int, UPPER_HEX[c % 16] as int] else [c]
  {
    if forall k | 0 <= k < 8 && k != 2 :: c != ESCAPED[k] {
      assert c != ESCAPED[0] && c != ESCAPED[1] && c != ESCAPED[3] && c != ESCAPED[4] && c != ESCAPED[5]
             && c != ESCAPED[6] && c != ESCAPED[7];
    }
  }

  // Decimal digits

  lemma {:induction false} PositivePower(k: nat)
    ensures Pow10(k) > 0
  {
    if k > 0 { PositivePower(k - 1); }
  }

  /** The digit that counts 10^k stands at the `k`th place from the right. */
  lemma {:induction false} DigitOfValue(w: Text, k: nat)
    requires AllDigits(w) && k < |w|
    ensures Pow10(k) > 0 && w[|w| - 1 - k] as int == 0x30 + Value(w) / Pow10(k) % 10
    decreases k
  {
    PositivePower(k);
    var u := w[..|w| - 1];
    if k > 0 {
      DigitOfValue(u, k - 1);
      DropDigit(Value(u), w[|w| - 1] - ZERO, Pow10(k - 1));
    }
  }

  lemma DropDigit(v: nat, d: nat, p: nat)
    requires d < 10 && p > 0
    ensures (10 * v + d) / (10 * p) == v / p
  {
    var q, r := v / p, v % p;
    var pq := p * q;
    assert v == pq + r;
    assert 10 * pq == (10 * p) * q;
    IsQuotient(10 * v + d, 10 * p, q, 10 * r + d);
  }

  lemma IsQuotient(n: nat, m: nat, q: nat, r: nat)
    requires m > 0 && n == m * q + r && r < m
    ensures n / m == q
  {
    var q', r' := n / m, n % m;
    assert n == m * q' + r';
    assert m * (q - q') == r' - r;
    Times(m, q - q');
  }

  lemma Times(m: nat, k: int)
    ensures (k >= 1 ==> m * k >= m) && (k <= -1 ==> m * k <= -(m as int))
  {
  }

  // UTF-8

  /** The first byte marks the length: by its value, and by the range of the code points of that length. */
  lemma FirstBytes(cp: ScalarValue)
    ensures var w := Encode(cp);
            && (|w| == 1 <==> w[0] < 0x80) && (|w| == 2 <==> 0xC0 <= w[0] < 0xE0)
            && (|w| == 3 <==> 0xE0 <= w[0] < 0xF0) && (|w| == 4 <==> 0xF0 <= w[0] < 0xF8)
            && (|w| == 1 <==> cp <= 0x7F) && (|w| == 2 <==> 0x80 <= cp <= 0x7FF)
            && (|w| == 3 <==> 0x800 <= cp <= 0xFFFF) && (|w| == 4 <==> 0x1_0000 <= cp)
            && forall i | 1 <= i < |w| :: 0x80 <= w[i] < 0xC0
  {
  }

  /** The low bits of a byte. */
  function Low(b: byte, m: nat): (n: nat)
    requires m > 0
    ensures n < m
  {
    (b as int) % m
  }

  /** The bits of a code point, section 3 of RFC 3629: those the mark leaves free, then six in every byte behind it. */
  function Payload(w: Text): nat
    requires 1 <= |w| <= 4
  {
    match |w|
    case 1 => Low(w[0], 128)
    case 2 => Low(w[0], 32) * 64 + Low(w[1], 64)
    case 3 => Low(w[0], 16) * 4096 + Low(w[1], 64) * 64 + Low(w[2], 64)
    case _ => Low(w[0], 8) * 262144 + Low(w[1], 64) * 4096 + Low(w[2], 64) * 64 + Low(w[3], 64)
  }

  lemma EncodedBits(cp: ScalarValue)
    ensures Payload(Encode(cp)) == cp
  {
    if cp > 0xFFFF {
      FourBytes(cp);
    } else if cp > 0x7FF {
      ThreeBytes(cp);
    } else if cp > 0x7F {
      Marked(0xC0, cp / 64, 32);
      Marked(0x80, cp % 64, 64);
    }
  }

  /** A mark does not touch the low bits. */
  lemma Marked(mark: nat, bits: nat, m: nat)
    requires bits < m && m in {8, 16, 32, 64} && mark % m == 0 && mark + bits < 256
    ensures Low(mark + bits, m) == bits
  {
    Offset(mark + bits, m, mark);
  }

  lemma ThreeBytes(cp: ScalarValue)
    requires 0x7FF < cp <= 0xFFFF
    ensures Payload(Encode(cp)) == cp
  {
    var a, b := cp / 64, cp / 4096;
    assert cp == 64 * a + cp % 64 && a == 64 * b + a % 64;
    Marked(0xE0, b, 16);
    Marked(0x80, a % 64, 64);
    Marked(0x80, cp % 64, 64);
    hide Low;
  }

  lemma FourBytes(cp: ScalarValue)
    requires cp > 0xFFFF
    ensures Payload(Encode(cp)) == cp
  {
    var a, b, c := cp / 64, cp / 4096, cp / 262144;
    assert cp == 64 * a + cp % 64 && a == 64 * b + a % 64 && b == 64 * c + b % 64;
    Marked(0xF0, c, 8);
    Marked(0x80, b % 64, 64);
    Marked(0x80, a % 64, 64);
    Marked(0x80, cp % 64, 64);
    hide Low;
  }

  /** Bytes behind the first grow with their low bits, and so do first bytes of the same length. */
  lemma LowBits(u: byte, w: byte, m: nat, mark: nat)
    requires m > 0 && mark % m == 0 && mark <= u < mark + m && mark <= w < mark + m
    ensures Low(u, m) < Low(w, m) <==> u < w
    ensures Low(u, m) == Low(w, m) <==> u == w
  {
    Offset(u, m, mark);
    Offset(w, m, mark);
  }

  lemma Offset(u: byte, m: nat, mark: nat)
    requires m > 0 && mark % m == 0 && mark <= u < mark + m
    ensures Low(u, m) == u as int - mark
  {
    var k := mark / m;
    IsQuotient(u as int, m, k, u as int - mark);
  }

  /** Dictionary order of bytes. */
  predicate Precedes(a: Text, b: Text) {
    exists i: nat | i < |a| && i < |b| :: a[..i] == b[..i] && a[i] < b[i]
  }

  /** Encoding keeps the order of code points, section 1 of RFC 3629. */
  lemma EncodingKeepsOrder(a: ScalarValue, b: ScalarValue)
    requires a < b
    ensures Precedes(Encode(a), Encode(b))
  {
    var u, w := Encode(a), Encode(b);
    FirstBytes(a);
    FirstBytes(b);
    EncodedBits(a);
    EncodedBits(b);
    hide Encode, Low;
    if |u| == |w| {
      SameLength(u, w);
    } else {
      assert u[..0] == w[..0];
    }
  }

  /** Of two encodings of the same length, the first byte that differs decides. */
  lemma SameLength(u: Text, w: Text)
    requires 1 <= |u| == |w| <= 4 && Payload(u) < Payload(w)
    requires forall i | 1 <= i < |u| :: 0x80 <= u[i] < 0xC0 && 0x80 <= w[i] < 0xC0
    requires match |u|
             case 1 => u[0] < 0x80 && w[0] < 0x80
             case 2 => 0xC0 <= u[0] < 0xE0 && 0xC0 <= w[0] < 0xE0
             case 3 => 0xE0 <= u[0] < 0xF0 && 0xE0 <= w[0] < 0xF0
             case _ => 0xF0 <= u[0] < 0xF8 && 0xF0 <= w[0] < 0xF8
    ensures Precedes(u, w)
  {
    var n := |u|;
    if n == 1 {
      LowBits(u[0], w[0], 128, 0);
    } else if n == 2 {
      LowBits(u[0], w[0], 32, 0xC0);
    } else if n == 3 {
      LowBits(u[0], w[0], 16, 0xE0);
    } else {
      LowBits(u[0], w[0], 8, 0xF0);
    }
    forall i | 1 <= i < n
      ensures (Low(u[i], 64) < Low(w[i], 64) <==> u[i] < w[i]) && (Low(u[i], 64) == Low(w[i], 64) <==> u[i] == w[i])
    {
      LowBits(u[i], w[i], 64, 0x80);
    }
    hide Low;
    if u[0] < w[0] {
      assert u[..0] == w[..0];
    } else if u[1] < w[1] {
      assert u[..1] == w[..1];
    } else if u[2] < w[2] {
      assert u[..2] == w[..2];
    } else {
      assert u[..3] == w[..3] && u[3] < w[3];
    }
  }

  // JSON Pointer

  /** In a fragment, all characters but the unreserved ones, section 2.3 of RFC 3986, are percent-encoded. */
  lemma UnreservedStay(c: byte)
    ensures !Pointer.NeedPercentEncode(c) <==>
              && c < 128
              && var l := c as char; 'A' <= l <= 'Z' || 'a' <= l <= 'z' || '0' <= l <= '9' || l in "-._~"
  {
  }

  /** A byte is percent-encoded by a percent sign and its two hexadecimal digits, section 2.1 of RFC 3986. */
  lemma {:induction false} PercentTriplets(w: Text, k: nat)
    requires k < |w|
    ensures var e := Pointer.PercentEncode(w);
            && |e| == 3 * |w|
            && e[3 * k] == 0x25
            && e[3 * k + 1] == UPPER_HEX[w[k] / 16] as int && e[3 * k + 2] == UPPER_HEX[w[k] % 16] as int
  {
    HexDigitsAreAscii(0, w[0] / 16);
    HexDigitsAreAscii(0, w[0] % 16);
    if k > 0 {
      PercentTriplets(w[1..], k - 1);
    } else if |w| > 1 {
      PercentTriplets(w[1..], 0);
    }
  }

  /** Section 3 of RFC 6901: a tilde is written ~0, a slash ~1, every other character as itself. */
  function PointerEscapes(name: Text): Text {
    if name == [] then []
    else
      var first := if name[0] == 0x7E then Ascii("~0") else if name[0] == 0x2F then Ascii("~1") else [name[0]];
      first + PointerEscapes(name[1..])
  }

  lemma {:induction false} NamesAreEscaped(name: Text, j: nat)
    requires j <= |name|
    ensures Pointer.StringifyName(name, j, false) == Optional.Some(PointerEscapes(name[j..]))
    decreases |name| - j
  {
    if j < |name| {
      assert name[j..][1..] == name[j + 1..];
      assert [TILDE, ZERO] == Ascii("~0") && [TILDE, ONE] == Ascii("~1");
      NamesAreEscaped(name, j + 1);
    }
  }
}
