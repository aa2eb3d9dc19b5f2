/**
 Decoding is the exact inverse of encoding: what `Decode` accepts at a position is the encoding
 of one scalar value and nothing else. Section 4 of RFC 3629.
 */
module Utf8Properties {
  import opened Bytes
  import opened Utf8

  /** Which bytes each mask lets through. */
  lemma Ranges(c: byte)
    ensures InRange(c, 0x70) <==> 0x80 <= c < 0xC0
    ensures InRange(c, 0x60) <==> 0x90 <= c < 0xC0
    ensures InRange(c, 0x50) <==> 0x80 <= c < 0xA0
    ensures InRange(c, 0x20) <==> 0xA0 <= c < 0xC0
    ensures InRange(c, 0x10) <==> 0x80 <= c < 0x90
  {
  }

  /** Decoding undoes encoding, wherever the encoding stands in a stream. */
  lemma DecodeOfEncode(s: Text, p: nat, cp: ScalarValue)
    requires At(s, p, Encode(cp))
    ensures Decode(s, p) == Step(true, p + |Encode(cp)|, cp)
  {
    var w := Encode(cp);
    AtPeek(s, p, w, 0);
    if |w| > 1 { AtPeek(s, p, w, 1); }
    if |w| > 2 { AtPeek(s, p, w, 2); }
    if |w| > 3 { AtPeek(s, p, w, 3); }
    if |w| == 2 {
      DecodeTwo(s, p, cp);
    } else if |w| == 3 {
      DecodeThree(s, p, cp);
    } else if |w| == 4 {
      DecodeFour(s, p, cp);
    }
  }

  lemma DecodeTwo(s: Text, p: nat, cp: ScalarValue)
    requires 0x80 <= cp < 0x800 && p + 1 < |s|
    requires s[p] == 0xC0 + cp / 64 && s[p + 1] == 0x80 + cp % 64
    ensures Decode(s, p) == Step(true, p + 2, cp)
  {
    Ranges(s[p + 1]);
    assert s[p] % 64 == cp / 64;
    assert GetRange(s[p]) == 2;
  }

  lemma DecodeThree(s: Text, p: nat, cp: ScalarValue)
    requires 0x800 <= cp < 0x1_0000 && p + 2 < |s|
    requires s[p] == 0xE0 + cp / 4096 && s[p + 1] == 0x80 + cp / 64 % 64 && s[p + 2] == 0x80 + cp % 64
    ensures Decode(s, p) == Step(true, p + 3, cp)
  {
    var a, b, c := cp / 4096, cp / 64 % 64, cp % 64;
    ThreeDigits(cp, a, b, c);
    var mask := if a == 0 then 0x20 else if a == 13 then 0x50 else 0x70;
    CopyOfContinuation(s, Step(true, p + 1, a), mask, b);
    CopyOfContinuation(s, Step(true, p + 2, a * 64 + b), 0x70, c);
  }

  lemma DecodeFour(s: Text, p: nat, cp: ScalarValue)
    requires 0x1_0000 <= cp && p + 3 < |s|
    requires s[p] == 0xF0 + cp / 262144 && s[p + 1] == 0x80 + cp / 4096 % 64
    requires s[p + 2] == 0x80 + cp / 64 % 64 && s[p + 3] == 0x80 + cp % 64
    ensures Decode(s, p) == Step(true, p + 4, cp)
  {
    var a, b, c, d := cp / 262144, cp / 4096 % 64, cp / 64 % 64, cp % 64;
    FourDigits(cp, a, b, c, d);
    var mask := if a == 0 then 0x60 else if a == 4 then 0x10 else 0x70;
    CopyOfContinuation(s, Step(true, p + 1, a), mask, b);
    CopyOfContinuation(s, Step(true, p + 2, a * 64 + b), 0x70, c);
    CopyOfContinuation(s, Step(true, p + 3, (a * 64 + b) * 64 + c), 0x70, d);
  }

  lemma ThreeDigits(cp: ScalarValue, a: nat, b: nat, c: nat)
    requires 0x800 <= cp < 0x1_0000 && a == cp / 4096 && b == cp / 64 % 64 && c == cp % 64
    ensures cp == (a * 64 + b) * 64 + c
    ensures a < 16 && (a == 0 ==> 32 <= b) && (a == 13 ==> b < 32)
  {
  }

  lemma FourDigits(cp: ScalarValue, a: nat, b: nat, c: nat, d: nat)
    requires 0x1_0000 <= cp && a == cp / 262144 && b == cp / 4096 % 64 && c == cp / 64 % 64 && d == cp % 64
    ensures cp == ((a * 64 + b) * 64 + c) * 64 + d
    ensures a < 5 && (a == 0 ==> 16 <= b) && (a == 4 ==> b < 16)
  {
    assert cp / 64 == (cp / 4096) * 64 + c;
    assert cp / 4096 == a * 64 + b;
  }

  /** What one copied continuation byte contributes. */
  lemma CopyOfContinuation(s: Text, r: Step, mask: nat, bits: nat)
    requires r.ok && r.pos < |s| && bits < 64 && s[r.pos] == 0x80 + bits
    requires mask == 0x70 || (mask == 0x60 && 16 <= bits) || (mask == 0x10 && bits < 16)
             || (mask == 0x50 && bits < 32) || (mask == 0x20 && 32 <= bits)
    ensures Copy(s, r, mask) == Step(true, r.pos + 1, r.codepoint * 64 + bits)
  {
    Ranges(s[r.pos]);
    assert s[r.pos] % 64 == bits;
  }

  /** A continuation byte that was let through: it was really there, and it adds six bits. */
  lemma CopyOk(s: Text, r: Step, mask: nat)
    requires r.pos <= |s| && mask in {0x10, 0x20, 0x50, 0x60, 0x70} && Copy(s, r, mask).ok
    ensures r.ok && r.pos < |s| && InRange(s[r.pos], mask)
    ensures Copy(s, r, mask) == Step(true, r.pos + 1, r.codepoint * 64 + (s[r.pos] - 0x80))
  {
    Ranges(Peek(s, r.pos));
  }

  /** An accepted sequence is the encoding of the scalar value it decodes to. */
  lemma EncodeOfDecode(s: Text, p: nat)
    requires p < |s| && Decode(s, p).ok
    ensures var d := Decode(s, p); Scalar(d.codepoint) && s[p..d.pos] == Encode(d.codepoint)
  {
    var c := s[p];
    if c < 0x80 {
    } else if c < 0xE0 {
      assert GetRange(c) == 2 && c % 64 == c - 0xC0;
      EncodeOfTwo(s, p, c - 0xC0);
    } else if c < 0xF0 {
      LeadOfThree(s, p);
    } else {
      LeadOfFour(s, p);
    }
  }

  lemma LeadOfThree(s: Text, p: nat)
    requires p < |s| && 0xE0 <= s[p] < 0xF0 && Decode(s, p).ok
    ensures var d := Decode(s, p); Scalar(d.codepoint) && s[p..d.pos] == Encode(d.codepoint)
  {
    var a: nat := s[p] - 0xE0;
    if a == 0 {
      assert GetRange(s[p]) == 10;
      EncodeOfThree(s, p, a, 0x20);
    } else if a == 13 {
      assert GetRange(s[p]) == 4 && s[p] % 16 == a;
      EncodeOfThree(s, p, a, 0x50);
    } else {
      assert GetRange(s[p]) == 3 && s[p] % 32 == a;
      EncodeOfThree(s, p, a, 0x70);
    }
  }

  lemma LeadOfFour(s: Text, p: nat)
    requires p < |s| && 0xF0 <= s[p] && Decode(s, p).ok
    ensures var d := Decode(s, p); Scalar(d.codepoint) && s[p..d.pos] == Encode(d.codepoint)
  {
    var a: nat := s[p] - 0xF0;
    if a == 0 {
      assert GetRange(s[p]) == 11;
      EncodeOfFour(s, p, a, 0x60);
    } else if a == 4 {
      assert GetRange(s[p]) == 5 && s[p] % 8 == a;
      EncodeOfFour(s, p, a, 0x10);
    } else {
      assert GetRange(s[p]) == 6 && s[p] % 4 == a;
      EncodeOfFour(s, p, a, 0x70);
    }
  }

  lemma EncodeOfTwo(s: Text, p: nat, a: nat)
    requires p < |s| && s[p] == 0xC0 + a && 2 <= a < 32
    requires Copy(s, Step(true, p + 1, a), 0x70).ok
    ensures var d := Copy(s, Step(true, p + 1, a), 0x70); Scalar(d.codepoint) && s[p..d.pos] == Encode(d.codepoint)
  {
    CopyOk(s, Step(true, p + 1, a), 0x70);
    Ranges(s[p + 1]);
  }

  lemma EncodeOfThree(s: Text, p: nat, a: nat, mask: nat)
    requires p < |s| && s[p] == 0xE0 + a && a < 16
    requires mask == (if a == 0 then 0x20 else if a == 13 then 0x50 else 0x70)
    requires Copy(s, Copy(s, Step(true, p + 1, a), mask), 0x70).ok
    ensures var d := Copy(s, Copy(s, Step(true, p + 1, a), mask), 0x70);
            Scalar(d.codepoint) && s[p..d.pos] == Encode(d.codepoint)
  {
    var r := Step(true, p + 1, a);
    var r1 := Copy(s, r, mask);
    CopyOk(s, r1, 0x70);
    CopyOk(s, r, mask);
    Ranges(s[p + 1]);
    Ranges(s[p + 2]);
    var b: nat, c: nat := s[p + 1] - 0x80, s[p + 2] - 0x80;
    EncodeThree(a, b, c);
    assert Copy(s, r1, 0x70) == Step(true, p + 3, (a * 64 + b) * 64 + c);
    assert s[p..p + 3] == [s[p], s[p + 1], s[p + 2]];
  }

  lemma EncodeOfFour(s: Text, p: nat, a: nat, mask: nat)
    requires p < |s| && s[p] == 0xF0 + a && a < 5
    requires mask == (if a == 0 then 0x60 else if a == 4 then 0x10 else 0x70)
    requires Copy(s, Copy(s, Copy(s, Step(true, p + 1, a), mask), 0x70), 0x70).ok
    ensures var d := Copy(s, Copy(s, Copy(s, Step(true, p + 1, a), mask), 0x70), 0x70);
            Scalar(d.codepoint) && s[p..d.pos] == Encode(d.codepoint)
  {
    var r := Step(true, p + 1, a);
    var r1 := Copy(s, r, mask);
    var r2 := Copy(s, r1, 0x70);
    CopyOk(s, r2, 0x70);
    CopyOk(s, r1, 0x70);
    CopyOk(s, r, mask);
    Ranges(s[p + 1]);
    Ranges(s[p + 2]);
    Ranges(s[p + 3]);
    var b: nat, c: nat, e: nat := s[p + 1] - 0x80, s[p + 2] - 0x80, s[p + 3] - 0x80;
    EncodeFour(a, b, c, e);
    assert Copy(s, r2, 0x70) == Step(true, p + 4, ((a * 64 + b) * 64 + c) * 64 + e);
    assert s[p..p + 4] == [s[p], s[p + 1], s[p + 2], s[p + 3]];
  }

  lemma EncodeThree(a: nat, b: nat, c: nat)
    requires a < 16 && b < 64 && c < 64 && (a == 0 ==> 32 <= b) && (a == 13 ==> b < 32)
    ensures var cp := (a * 64 + b) * 64 + c;
            0x800 <= cp < 0x1_0000 && Scalar(cp) && Encode(cp) == [0xE0 + a, 0x80 + b, 0x80 + c]
  {
    var cp := (a * 64 + b) * 64 + c;
    assert cp / 64 == a * 64 + b && cp % 64 == c;
    assert cp / 4096 == a;
  }

  lemma EncodeFour(a: nat, b: nat, c: nat, e: nat)
    requires a < 5 && b < 64 && c < 64 && e < 64 && (a == 0 ==> 16 <= b) && (a == 4 ==> b < 16)
    ensures var cp := ((a * 64 + b) * 64 + c) * 64 + e;
            0x1_0000 <= cp < 0x11_0000 && Encode(cp) == [0xF0 + a, 0x80 + b, 0x80 + c, 0x80 + e]
  {
    var cp := ((a * 64 + b) * 64 + c) * 64 + e;
    assert cp / 64 == (a * 64 + b) * 64 + c && cp % 64 == e;
    assert cp / 4096 == a * 64 + b;
    assert cp / 262144 == a;
  }

  /** The concatenated encodings of a sequence of code points. */
  function EncodeAll(cps: seq<ScalarValue>): (w: Text)
  {
    if cps == [] then [] else Encode(cps[0]) + EncodeAll(cps[1..])
  }

  /** Well-formed UTF-8: the encodings of some sequence of scalar values. */
  ghost predicate WellFormed(w: Text) {
    exists cps: seq<ScalarValue> :: EncodeAll(cps) == w
  }

  /** Decoding the whole stream from `p` on, code point by code point. */
  predicate DecodesToEnd(s: Text, p: nat)
    requires p <= |s|
    decreases |s| - p
  {
    p == |s| || var d := Decode(s, p); d.ok && DecodesToEnd(s, d.pos)
  }

  /** The code points a decodable stream carries from `p` on. */
  function CodePoints(s: Text, p: nat): (cps: seq<ScalarValue>)
    requires p <= |s| && DecodesToEnd(s, p)
    decreases |s| - p
  {
    if p == |s| then []
    else
      var d := Decode(s, p);
      EncodeOfDecode(s, p);
      [d.codepoint] + CodePoints(s, d.pos)
  }

  /** The encodings of `cps` fill the stream from `p` to its end. */
  predicate Spells(s: Text, p: nat, cps: seq<ScalarValue>) {
    At(s, p, EncodeAll(cps)) && p + |EncodeAll(cps)| == |s|
  }

  /** One step of decoding a whole stream. */
  lemma DecodeFirst(s: Text, p: nat, cps: seq<ScalarValue>)
    requires cps != [] && Spells(s, p, cps)
    ensures var q := p + |Encode(cps[0])|;
            p < q <= |s| && Decode(s, p) == Step(true, q, cps[0]) && Spells(s, q, cps[1..])
  {
    AtConcat(s, p, Encode(cps[0]), EncodeAll(cps[1..]));
    DecodeOfEncode(s, p, cps[0]);
  }

  /** Decoding the encodings of any scalar values returns exactly those values. */
  lemma {:induction false} DecodeAllOfEncodeAll(s: Text, p: nat, cps: seq<ScalarValue>)
    requires Spells(s, p, cps)
    ensures DecodesToEnd(s, p) && CodePoints(s, p) == cps
    decreases |cps|
  {
    if cps != [] {
      DecodeFirst(s, p, cps);
      var d := Decode(s, p);
      DecodeAllOfEncodeAll(s, d.pos, cps[1..]);
      assert CodePoints(s, p) == [d.codepoint] + CodePoints(s, d.pos);
    }
  }

  /** A decodable stream is spelled by the code points it decodes to. */
  lemma {:induction false} EncodeAllOfDecodeAll(s: Text, p: nat)
    requires p <= |s| && DecodesToEnd(s, p)
    ensures Spells(s, p, CodePoints(s, p))
    decreases |s| - p
  {
    if p < |s| {
      EncodeOfDecode(s, p);
      var d := Decode(s, p);
      EncodeAllOfDecodeAll(s, d.pos);
      var cps := CodePoints(s, p);
      assert cps[0] == d.codepoint && cps[1..] == CodePoints(s, d.pos);
      AtConcat(s, p, Encode(cps[0]), EncodeAll(cps[1..]));
    }
  }

  /** A stream decodes to its end exactly when it is well-formed UTF-8. */
  lemma {:induction false} DecodableIffWellFormed(s: Text)
    ensures DecodesToEnd(s, 0) <==> WellFormed(s)
  {
    if DecodesToEnd(s, 0) {
      EncodeAllOfDecodeAll(s, 0);
      assert s[0..|s|] == s;
    }
    if WellFormed(s) {
      var cps: seq<ScalarValue> :| EncodeAll(cps) == s;
      assert s[0..|s|] == s;
      DecodeAllOfEncodeAll(s, 0, cps);
    }
  }
}
