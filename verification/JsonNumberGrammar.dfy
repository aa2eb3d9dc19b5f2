/**
 Number literals as section 6 of RFC 8259 describes them, by the parts they consist of: the reader reads exactly
 these, to their end, and what it makes of them depends on the parts.
 */
module JsonNumberGrammar {
  import opened Bytes
  import opened Decimal
  import opened JsonTypes
  import opened JsonLexical
  import opened JsonNumber

  /** Digits, without a leading zero. */
  predicate IsInteger(s: Text, a: nat, b: nat) {
    a < b <= |s| && AllDigits(s[a..b]) && (s[a] == 0x30 ==> b == a + 1)
  }

  /** Nothing, or a decimal point and digits. */
  predicate IsFraction(s: Text, b: nat, c: nat) {
    b <= c <= |s| && (b < c ==> b + 1 < c && s[b] == 0x2E && AllDigits(s[b + 1..c]))
  }

  /** Where the digits of an exponent begin: behind its mark and its sign, if there is one. */
  function ExponentDigits(s: Text, c: nat): nat {
    if Peek(s, c + 1) in {0x2B, 0x2D} then c + 2 else c + 1
  }

  /** Nothing, or a mark, a sign or none, and digits. */
  predicate IsExponent(s: Text, c: nat, d: nat) {
    c <= d <= |s|
    && (c < d ==> s[c] in {0x65, 0x45} && ExponentDigits(s, c) < d && AllDigits(s[ExponentDigits(s, c)..d]))
  }

  /** Where the literal begins behind its sign. */
  function Unsigned(s: Text, p: nat): nat {
    if Peek(s, p) == 0x2D then p + 1 else p
  }

  /** A literal whose integer part ends at `b`, whose fraction ends at `c` and whose exponent ends at `d`. */
  predicate IsLiteral(s: Text, p: nat, b: nat, c: nat, d: nat) {
    IsInteger(s, Unsigned(s, p), b) && IsFraction(s, b, c) && IsExponent(s, c, d)
  }

  /** NaN, Inf and Infinity, with a sign or without. */
  predicate IsSpecial(s: Text, p: nat, d: nat) {
    var a := Unsigned(s, p);
    a <= d <= |s| && s[a..d] in {[0x4E, 0x61, 0x4E], [0x49, 0x6E, 0x66],
                                 [0x49, 0x6E, 0x66, 0x69, 0x6E, 0x69, 0x74, 0x79]}
  }

  /** Whatever is read as a number is a literal, or a special one if those are allowed. */
  lemma ReadIsLiteral(o: Options, s: Text, p: nat, out: seq<Event>)
    requires p <= |s| && ParseNumber(o, s, p, out).Ok?
    ensures var d := ParseNumber(o, s, p, out).pos;
            || (exists b: nat, c: nat :: IsLiteral(s, p, b, c, d))
            || (o.nanAndInf && exists b: nat, c: nat, e: nat ::
                  IsSpecial(s, p, b) && IsFraction(s, b, c) && IsExponent(s, c, e) && e == d)
  {
    hide Value, FractionExponent, Deliver;
    var minus := Peek(s, p) == MINUS;
    var a := if minus then p + 1 else p;
    assert a == Unsigned(s, p);
    var integer := ScanInteger(o, s, a);
    var b := integer.end;
    var v := if integer.Decimal? then Value(s[a..b]) else 0;
    var isBig := !Fits64(minus, v);
    var sig := SignificantDigits(isBig, integer, a);
    DeliverEnds(o, s, p, minus, v, isBig, integer.Special?, out, b, sig);
    var c := SuffixParts(s, p, b, isBig, v, sig);
    if integer.Decimal? {
      assert IsInteger(s, a, b);
      assert IsLiteral(s, p, b, c, ParseNumber(o, s, p, out).pos);
    } else {
      SpecialParts(s, a);
      assert IsSpecial(s, p, b);
    }
  }

  lemma DeliverEnds(o: Options, s: Text, p: nat, minus: bool, v: nat, isBig: bool, isSpecial: bool, out: seq<Event>,
                    b: nat, sig: nat)
    requires p <= b <= |s| && isBig == !Fits64(minus, v)
    ensures match ScanSuffix(s, p, b, isBig, v, sig)
            case Malformed(_) => true
            case Suffix(end, isDouble) =>
              var r := Deliver(o, s[p..end], minus, v, isDouble, isSpecial, out, end, p);
              r.Ok? ==> r.pos == end
  {
    hide ScanSuffix;
  }

  lemma SuffixParts(s: Text, start: nat, b: nat, isDouble: bool, v: nat, sig: nat) returns (c: nat)
    requires b <= |s| && ScanSuffix(s, start, b, isDouble, v, sig).Suffix?
    ensures IsFraction(s, b, c) && IsExponent(s, c, ScanSuffix(s, start, b, isDouble, v, sig).end)
  {
    hide Value, FractionExponent;
    c := if Peek(s, b) == DOT then DigitsEnd(s, b + 1) else b;
    if Peek(s, b) == DOT { assert s[b + 1] == Peek(s, b + 1); }
  }

  lemma SpecialParts(s: Text, a: nat)
    requires a < |s| && ScanNanOrInf(s, a).Special?
    ensures s[a..ScanNanOrInf(s, a).end]
            in {[0x4E, 0x61, 0x4E], [0x49, 0x6E, 0x66], [0x49, 0x6E, 0x66, 0x69, 0x6E, 0x69, 0x74, 0x79]}
  {
    var e := ScanNanOrInf(s, a).end;
    if s[a] == UPPER_N {
      assert s[a..a + 3] == NAN_WORD;
    } else if e == a + 3 {
      assert s[a..a + 3] == INF_WORD;
    } else {
      assert s[a..a + 8] == s[a..a + 3] + s[a + 3..a + 8] == INF_WORD + INITY_WORD;
      assert INF_WORD + INITY_WORD == [0x49, 0x6E, 0x66, 0x69, 0x6E, 0x69, 0x74, 0x79];
    }
  }

  /** A character that no part of a literal goes on with. */
  predicate EndsNumber(c: byte) {
    !(0x30 <= c <= 0x39) && c !in {0x2E, 0x65, 0x45}
  }

  /** The exponent is larger than the fraction digits counted, 308 more, can make up for. */
  predicate ExponentTooBig(s: Text, c: nat, d: nat, counted: nat)
    requires IsExponent(s, c, d)
  {
    c < d && Peek(s, c + 1) != 0x2D && Value(s[ExponentDigits(s, c)..d]) > 308 + counted
  }

  /** How many fraction digits are counted: see `CountedExactly`. */
  function Counted(s: Text, p: nat, b: nat, c: nat): nat
    requires IsInteger(s, Unsigned(s, p), b) && IsFraction(s, b, c)
  {
    var v := Value(s[Unsigned(s, p)..b]);
    var isBig := !Fits64(Peek(s, p) == 0x2D, v);
    if b == c then 0 else -FractionExponent(s, b + 1, isBig, v, if isBig then 17 else b - Unsigned(s, p) - 1)
  }

  /**
   Every literal is read to its end: it is too big only by its exponent or, as a double, by its value; it is an
   integer exactly if it has neither fraction nor exponent and fits 64 bits.
   */
  lemma LiteralIsRead(o: Options, s: Text, p: nat, b: nat, c: nat, d: nat, out: seq<Event>)
    requires p <= |s| && IsLiteral(s, p, b, c, d) && EndsNumber(Peek(s, d))
    ensures p < d <= |s|
    ensures var minus, v, lexeme := Peek(s, p) == 0x2D, Value(s[Unsigned(s, p)..b]), s[p..d];
            ParseNumber(o, s, p, out)
            == if ExponentTooBig(s, c, d, Counted(s, p, b, c)) then Fail(NumberTooBig, p, out)
               else if o.numbersAsStrings then Emit(o, RawNumber(lexeme), out, d, p)
               else if b == d && Fits64(minus, v) then Emit(o, IntegerEvent(minus, v), out, d, p)
               else if o.doubleOverflows(lexeme) then Fail(NumberTooBig, p, out)
               else Emit(o, Double(lexeme), out, d, p)
  {
    var a := Unsigned(s, p);
    IntegerEnds(o, s, a, b, Peek(s, b));
    FractionEnds(s, b, c, d);
    var minus, v := Peek(s, p) == MINUS, Value(s[a..b]);
    var isBig := !Fits64(minus, v);
    SuffixIsRead(s, p, b, c, d, isBig, v, if isBig then 17 else b - a - 1);
    CountedIs(s, p, b, c);
    hide Value, ScanInteger, ScanSuffix, FractionExponent, Emit, IntegerEvent, IsFraction, IsExponent, Counted;
  }

  lemma CountedIs(s: Text, p: nat, b: nat, c: nat)
    requires IsInteger(s, Unsigned(s, p), b) && IsFraction(s, b, c)
    ensures var v := Value(s[Unsigned(s, p)..b]);
            var isBig := !Fits64(Peek(s, p) == 0x2D, v);
            Counted(s, p, b, c)
            == if b == c then 0 else -FractionExponent(s, b + 1, isBig, v, if isBig then 17 else b - Unsigned(s, p) - 1)
  {
    hide Value, FractionExponent;
  }

  /** Fraction and exponent are read to their end. */
  lemma SuffixIsRead(s: Text, start: nat, b: nat, c: nat, d: nat, isDouble: bool, v: nat, sig: nat)
    requires IsFraction(s, b, c) && IsExponent(s, c, d) && EndsNumber(Peek(s, d))
    ensures var counted := if b == c then 0 else -FractionExponent(s, b + 1, isDouble, v, sig);
            ScanSuffix(s, start, b, isDouble, v, sig)
            == if ExponentTooBig(s, c, d, counted) then Malformed(Error(NumberTooBig, start))
               else Suffix(d, isDouble || b < d)
  {
    hide Value, FractionExponent, DigitsEnd;
    FractionEnds(s, b, c, d);
    ExponentEnds(s, c, d);
  }

  /** The integer part is read to its end. */
  lemma IntegerEnds(o: Options, s: Text, a: nat, b: nat, next: byte)
    requires IsInteger(s, a, b) && next == Peek(s, b) && !(0x30 <= next <= 0x39)
    ensures ScanInteger(o, s, a) == IntegerPart.Decimal(b)
  {
    assert s[a] == s[a..b][0];
    DigitsEndUnique(s, a, b);
  }

  lemma FractionEnds(s: Text, b: nat, c: nat, d: nat)
    requires IsFraction(s, b, c) && IsExponent(s, c, d) && EndsNumber(Peek(s, d))
    ensures !(0x30 <= Peek(s, b) <= 0x39)
    ensures b == c ==> Peek(s, b) != DOT
    ensures b < c ==> Peek(s, b) == DOT && IsDigit(Peek(s, b + 1)) && DigitsEnd(s, b + 1) == c
  {
    if b < c {
      assert s[b + 1] == s[b + 1..c][0];
      DigitsEndUnique(s, b + 1, c);
    }
  }

  lemma {:induction false} ExponentEnds(s: Text, c: nat, d: nat)
    requires IsExponent(s, c, d) && EndsNumber(Peek(s, d))
    ensures c == d ==> !IsExponentMark(Peek(s, c))
    ensures c < d ==>
              var g := ExponentDigits(s, c);
              IsExponentMark(Peek(s, c)) && IsDigit(Peek(s, g)) && g <= |s| && DigitsEnd(s, g) == d
  {
    if c < d {
      var g := ExponentDigits(s, c);
      assert s[g] == s[g..d][0];
      DigitsEndUnique(s, g, d);
    }
  }

  /**
   The exponent that goes to the conversion: none is 0; a positive one is the value of its digits; so is a negative one,
   negated, as far as it is within the limit, and beyond that it is beyond the limit too.
   */
  lemma ExponentIsValue(s: Text, c: nat, d: nat, expFrac: int)
    requires IsExponent(s, c, d) && EndsNumber(Peek(s, d)) && -2147483549 <= expFrac <= 0
    ensures c == d ==> ExponentOf(s, c, expFrac) == 0
    ensures c < d ==>
              var v: int := Value(s[ExponentDigits(s, c)..d]);
              var exp, limit := ExponentOf(s, c, expFrac), NegativeLimit(expFrac);
              if Peek(s, c + 1) == 0x2D then (if v <= limit then exp == -v else exp < -limit) else exp == v
  {
    hide Value, Accumulate;
    ExponentEnds(s, c, d);
    if c < d {
      var w := s[ExponentDigits(s, c)..d];
      AccumulateDecides(w, NegativeLimit(expFrac));
    }
  }

  /**
   Which event an integer makes: the ranges of int, unsigned, int64_t and uint64_t, tried in the order of its sign.
   */
  lemma KindsAreRanges(minus: bool, v: nat)
    requires Fits64(minus, v)
    ensures var e := IntegerEvent(minus, v);
            var n: int := if minus then -(v as int) else v;
            if minus then
              if -2147483648 <= n then e == Int(n) else e == Int64(n) && -9223372036854775808 <= n
            else
              if n <= 4294967295 then e == Uint(n) else e == Uint64(n) && n <= 18446744073709551615
  {
  }

  // The fraction digits that count

  /** The number of zeros from `p` on. */
  function Zeros(s: Text, p: nat): nat
    requires p <= |s|
    decreases |s| - p
  {
    if Peek(s, p) == 0x30 then 1 + Zeros(s, p + 1) else 0
  }

  function Least(a: nat, b: nat): nat {
    if a <= b then a else b
  }

  /** What counts of `f` fraction digits from `p` on: all leading zeros of a zero, and up to 17 significant digits. */
  function Room(s: Text, p: nat, f: nat, isZero: bool, sig: nat): nat
    requires p <= |s|
  {
    Least(f, (if isZero then Zeros(s, p) else 0) + if sig < 17 then 17 - sig else 0)
  }

  lemma {:induction false} DoubleCounts(s: Text, p: nat, positive: bool, sig: nat, expFrac: int)
    requires p <= |s| && (!positive ==> sig == 0)
    ensures ExtendDouble(s, p, positive, sig, expFrac) == expFrac - Room(s, p, DigitsEnd(s, p) - p, !positive, sig)
    decreases |s| - p
  {
    if IsDigit(Peek(s, p)) {
      if sig < 17 {
        var positive' := positive || s[p] != ZERO;
        DoubleCounts(s, p + 1, positive', if positive' then sig + 1 else sig, expFrac - 1);
      } else {
        DoubleCounts(s, p + 1, positive, sig, expFrac);
      }
    }
  }

  lemma {:induction false} BigPower(n: nat)
    requires n >= 16
    ensures Pow10(n) > TWO_53
  {
    if n == 16 {
      assert Pow10(16) == 10000 * Pow10(12) && Pow10(12) == 10000 * Pow10(8);
      assert Pow10(8) == 10000 * Pow10(4) && Pow10(4) == 10000;
    } else {
      BigPower(n - 1);
    }
  }

  /** A value with this many digits behind its first, as long as it is no zero. */
  predicate HasDigits(v: nat, sig: nat) {
    if v == 0 then sig == 0 else sig > 0 ==> v >= Pow10(sig - 1)
  }

  lemma DigitStep(v: nat, sig: nat, d: nat)
    requires HasDigits(v, sig) && v < TWO_53
    ensures sig < 17
    ensures HasDigits(v * 10 + d, if v * 10 + d != 0 then sig + 1 else sig)
  {
    if sig >= 17 { BigPower(sig - 1); }
  }

  /** One more digit takes one place of the room, a leading zero none. */
  lemma RoomStep(s: Text, p: nat, isZero: bool, sig: nat)
    requires p < |s| && IsDigit(s[p]) && sig < 17
    ensures var zero := isZero && s[p] == ZERO;
            Room(s, p, DigitsEnd(s, p) - p, isZero, sig)
            == 1 + Room(s, p + 1, DigitsEnd(s, p + 1) - (p + 1), zero, if zero then sig else sig + 1)
  {
  }

  lemma NoDigits(v: nat, sig: nat)
    requires HasDigits(v, sig)
    ensures v == 0 ==> sig == 0
  {
  }

  lemma {:induction false} IntegerCounts(s: Text, p: nat, i64: nat, sig: nat, expFrac: int)
    requires p <= |s| && HasDigits(i64, sig)
    ensures var r := ExtendInteger(s, p, i64, sig, expFrac);
            ExtendDouble(s, r.0, r.1 > 0, r.2, r.3) == expFrac - Room(s, p, DigitsEnd(s, p) - p, i64 == 0, sig)
    decreases |s| - p
  {
    hide Room, DigitsEnd, ExtendDouble, HasDigits, Fits64, AllDigits;
    if IsDigit(Peek(s, p)) && i64 < TWO_53 {
      var i64' := i64 * 10 + (s[p] - ZERO);
      DigitStep(i64, sig, s[p] - ZERO);
      RoomStep(s, p, i64 == 0, sig);
      assert i64' == 0 <==> i64 == 0 && s[p] == ZERO;
      IntegerCounts(s, p + 1, i64', if i64' != 0 then sig + 1 else sig, expFrac - 1);
    } else {
      NoDigits(i64, sig);
      DoubleCounts(s, p, i64 > 0, sig, expFrac);
    }
  }

  lemma {:induction false} DigitsMakeValue(w: Text)
    requires AllDigits(w) && |w| > 0 && (w[0] == ZERO ==> |w| == 1)
    ensures HasDigits(Value(w), |w| - 1)
  {
    var u := w[..|w| - 1];
    if |w| > 1 {
      DigitsMakeValue(u);
      if |u| == 1 { assert Value(u) == u[0] - ZERO by { assert u[..0] == []; } }
    } else {
      assert u == [];
    }
  }

  lemma {:induction false} FractionCounts(s: Text, p: nat, v: nat, sig: nat)
    requires p <= |s| && HasDigits(v, sig)
    ensures FractionExponent(s, p, false, v, sig) + Room(s, p, DigitsEnd(s, p) - p, v == 0, sig) == 0
  {
    hide ExtendDouble, ExtendInteger, Room, DigitsEnd, HasDigits;
    IntegerCounts(s, p, v, sig, 0);
    var r := ExtendInteger(s, p, v, sig, 0);
    DigitsEndSplit(s, p, r.0);
  }

  lemma NothingCounts(s: Text, p: nat, v: nat)
    requires p <= |s|
    ensures FractionExponent(s, p, true, v, 17) == 0
  {
    DoubleCounts(s, p, true, 17, 0);
  }

  /**
   How many digits of a fraction count into the significand, and so against the exponent: none behind an integer part
   that exceeds 64 bits; else all leading zeros behind a zero, and digits up to 17 behind the first.
   */
  lemma CountedExactly(s: Text, p: nat, b: nat, c: nat)
    requires IsInteger(s, Unsigned(s, p), b) && IsFraction(s, b, c) && !IsDigit(Peek(s, c))
    ensures var a := Unsigned(s, p);
            var v := Value(s[a..b]);
            Counted(s, p, b, c)
            == if b == c || !Fits64(Peek(s, p) == 0x2D, v) then 0
               else Room(s, b + 1, c - b - 1, v == 0, b - a - 1)
  {
    hide Value, FractionExponent, Room, HasDigits, Fits64;
    if b < c {
      var a := Unsigned(s, p);
      var w := s[a..b];
      assert w[0] == s[a];
      DigitsMakeValue(w);
      hide DigitsEnd;
      DigitsEndUnique(s, b + 1, c);
      FractionCounts(s, b + 1, Value(w), b - a - 1);
      NothingCounts(s, b + 1, Value(w));
    }
  }
}
