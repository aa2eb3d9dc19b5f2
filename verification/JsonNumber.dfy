/**
 `ParseNumber`: what a number literal is, which event it raises, and the integer arithmetic around
 its exponent. Floating-point values are not modelled; a double is represented by its literal.
 */
module JsonNumber {
  import opened Bytes
  import opened Decimal
  import opened JsonTypes
  import opened JsonLexical

  const NAN_WORD: Text := [UPPER_N, LOWER_A, UPPER_N]
  const INF_WORD: Text := [UPPER_I, LOWER_N, LOWER_F]
  const INITY_WORD: Text := [LOWER_I, LOWER_N, LOWER_I, LOWER_T, LOWER_Y]

  const TWO_31 := 0x8000_0000
  const TWO_32 := 0x1_0000_0000
  const TWO_53 := 0x20_0000_0000_0000
  const TWO_63 := 0x8000_0000_0000_0000
  const TWO_64 := 0x1_0000_0000_0000_0000
  const INT_MAX := 2147483647
  const INT_MIN := -2147483648

  /** The integer part behind the sign. */
  datatype IntegerPart = Decimal(end: nat) | Special(end: nat) | Invalid(offset: nat)

  function ScanNanOrInf(s: Text, p: nat): (r: IntegerPart)
    requires p < |s|
    ensures r.Special? ==> p < r.end <= |s|
    ensures !r.Decimal?
  {
    var nan := MatchLength(s, p, NAN_WORD);
    var inf := MatchLength(s, p, INF_WORD);
    if s[p] == UPPER_N then
      if nan == 3 then Special(p + 3) else Invalid(p + nan)
    else if inf < 3 then Invalid(p + inf)
    else if Peek(s, p + 3) != LOWER_I then Special(p + 3)
    else
      var inity := MatchLength(s, p + 3, INITY_WORD);
      if inity == 5 then Special(p + 8) else Invalid(p + 3 + inity)
  }

  /** Zero, digits without a leading zero, or NaN and infinity when the flag allows them. */
  function ScanInteger(o: Options, s: Text, p: nat): (r: IntegerPart)
    requires p <= |s|
    ensures !r.Invalid? ==> p < r.end <= |s|
    ensures r.Decimal? ==> AllDigits(s[p..r.end])
  {
    var c := Peek(s, p);
    if c == ZERO then Decimal(p + 1)
    else if IsDigit(c) then
      assert DigitsEnd(s, p) == DigitsEnd(s, p + 1);
      Decimal(DigitsEnd(s, p))
    else if o.nanAndInf && (c == UPPER_I || c == UPPER_N) then ScanNanOrInf(s, p)
    else Invalid(p)
  }

  /** Does the integer literal have an integer event of its own? */
  predicate Fits64(minus: bool, v: nat) {
    if minus then v <= TWO_63 else v < TWO_64
  }

  /** The event of an integer literal: the 32-bit kind exactly when it fits. */
  function IntegerEvent(minus: bool, v: nat): Event
    requires Fits64(minus, v)
  {
    if minus then
      if v <= TWO_31 then Int(-(v as int)) else Int64(-(v as int))
    else
      if v < TWO_32 then Uint(v) else Uint64(v)
  }

  // How many fraction digits the significand takes: `expFrac`, and the cursor behind all of them.

  /** The loop that extends the 64-bit significand, up to 53 bits. */
  function ExtendInteger(s: Text, p: nat, i64: nat, sig: nat, expFrac: int): (r: (nat, nat, nat, int))
    requires p <= |s|
    ensures p <= r.0 <= |s|
    ensures expFrac - r.3 == r.0 - p
    ensures AllDigits(s[p..r.0])
    ensures IsDigit(Peek(s, r.0)) ==> r.1 >= TWO_53
    decreases |s| - p
  {
    if IsDigit(Peek(s, p)) && i64 < TWO_53 then
      var i64' := i64 * 10 + (s[p] - ZERO);
      var r := ExtendInteger(s, p + 1, i64', if i64' != 0 then sig + 1 else sig, expFrac - 1);
      assert s[p..r.0] == [s[p]] + s[p + 1..r.0];
      r
    else (p, i64, sig, expFrac)
  }

  /** The loop that extends the double, up to 17 significant digits; later digits are consumed only. */
  function ExtendDouble(s: Text, p: nat, positive: bool, sig: nat, expFrac: int): (r: int)
    requires p <= |s|
    ensures expFrac - (DigitsEnd(s, p) - p) <= r <= expFrac
    decreases |s| - p
  {
    if !IsDigit(Peek(s, p)) then expFrac
    else if sig < 17 then
      var positive' := positive || s[p] != ZERO;
      ExtendDouble(s, p + 1, positive', if positive' then sig + 1 else sig, expFrac - 1)
    else ExtendDouble(s, p + 1, positive, sig, expFrac)
  }

  /**
   `expFrac` of a fraction that starts at `p`, after an integer part with value `v` and `sig` digits behind its
   first.
   */
  function FractionExponent(s: Text, p: nat, isDouble: bool, v: nat, sig: nat): (r: int)
    requires p <= |s|
    ensures -(DigitsEnd(s, p) - p) <= r <= 0
  {
    if isDouble then ExtendDouble(s, p, true, sig, 0)
    else
      var (q, i64, sig', expFrac) := ExtendInteger(s, p, v, sig, 0);
      DigitsEndSplit(s, p, q);
      ExtendDouble(s, q, i64 > 0, sig', expFrac)
  }

  /** The run of digits from `p` passes through every position reached by digits only. */
  lemma {:induction false} DigitsEndSplit(s: Text, p: nat, q: nat)
    requires p <= q <= |s| && AllDigits(s[p..q])
    ensures DigitsEnd(s, p) == DigitsEnd(s, q)
    decreases q - p
  {
    if p < q {
      assert s[p] == s[p..q][0];
      assert s[p + 1..q] == s[p..q][1..];
      DigitsEndSplit(s, p + 1, q);
    }
  }

  /** The number of significant digits that count behind the first digit of the integer part. */
  function SignificantDigits(isDouble: bool, integer: IntegerPart, p: nat): nat
    requires !integer.Invalid? && p < integer.end
  {
    if isDouble then 17 else if integer.Decimal? then integer.end - p - 1 else 0
  }

  /** What stands behind the integer part: where the literal ends and whether it makes the number a double. */
  datatype Suffix = Suffix(end: nat, isDouble: bool) | Malformed(error: Error)

  /** Fraction and exponent behind an integer part that ends at `p`; `start` is where the literal begins. */
  function ScanSuffix(s: Text, start: nat, p: nat, isDouble: bool, v: nat, sig: nat): (r: Suffix)
    requires p <= |s|
    ensures r.Suffix? ==> p <= r.end <= |s| && (isDouble ==> r.isDouble)
  {
    if Peek(s, p) != DOT then ScanExponent(s, start, p, 0, isDouble)
    else if !IsDigit(Peek(s, p + 1)) then Malformed(Error(NumberMissFraction, p + 1))
    else ScanExponent(s, start, DigitsEnd(s, p + 1), FractionExponent(s, p + 1, isDouble, v, sig), true)
  }

  predicate IsExponentMark(c: byte) {
    c == LOWER_E || c == UPPER_E
  }

  function ScanExponent(s: Text, start: nat, p: nat, expFrac: int, isDouble: bool): (r: Suffix)
    requires p <= |s| && expFrac <= 0
    ensures r.Suffix? ==> p <= r.end <= |s| && (isDouble ==> r.isDouble)
  {
    if !IsExponentMark(Peek(s, p)) then Suffix(p, isDouble)
    else
      var sign := Peek(s, p + 1);
      var q := if sign == PLUS || sign == MINUS then p + 2 else p + 1;
      if !IsDigit(Peek(s, q)) then Malformed(Error(NumberMissExponent, q))
      else
        var end := DigitsEnd(s, q);
        if sign != MINUS && Value(s[q..end]) > 308 - expFrac then Malformed(Error(NumberTooBig, start))
        else Suffix(end, true)
  }

  /** Send the number that the literal denotes. */
  function Deliver(o: Options, lexeme: Text, minus: bool, v: nat, isDouble: bool, isSpecial: bool,
                   out: seq<Event>, end: nat, start: nat): (r: Outcome)
    requires isDouble || Fits64(minus, v)
    ensures r.Ok? ==> r.pos == end
  {
    if o.numbersAsStrings then Emit(o, RawNumber(lexeme), out, end, start)
    else if isDouble then
      if o.doubleOverflows(lexeme) then Fail(NumberTooBig, start, out) else Emit(o, Double(lexeme), out, end, start)
    else if isSpecial then Emit(o, Double(lexeme), out, end, start)
    else Emit(o, IntegerEvent(minus, v), out, end, start)
  }

  /** `ParseNumber`. A handler that declines is reported at the start of the literal. */
  function ParseNumber(o: Options, s: Text, p: nat, out: seq<Event>): (r: Outcome)
    requires p <= |s|
    ensures r.Ok? ==> p < r.pos <= |s|
  {
    var minus := Peek(s, p) == MINUS;
    var q := if minus then p + 1 else p;
    var integer := ScanInteger(o, s, q);
    if integer.Invalid? then Fail(ValueInvalid, integer.offset, out)
    else
      var v := if integer.Decimal? then Value(s[q..integer.end]) else 0;
      var isBig := !Fits64(minus, v);
      match ScanSuffix(s, p, integer.end, isBig, v, SignificantDigits(isBig, integer, q))
      case Malformed(error) => Err(error, out)
      case Suffix(end, isDouble) => Deliver(o, s[p..end], minus, v, isDouble, integer.Special?, out, end, p)
  }

  // The arithmetic of the exponent

  /** `exp` after the digits `w` of an exponent: each digit behind the first is followed by a test against `limit`. */
  function Accumulate(w: Text, limit: int): (exp: nat)
    requires AllDigits(w) && |w| > 0
  {
    if |w| == 1 then w[0] - ZERO
    else
      var exp := Accumulate(w[..|w| - 1], limit);
      if |w| > 2 && exp > limit then exp else exp * 10 + (w[|w| - 1] - ZERO)
  }

  /** More fraction digits than this make a positive exponent overflow: see `PositiveExponentExact`. */
  const MOST_FRACTION_DIGITS := 214748055

  /** Integer division as C++ does it. */
  function TruncDiv(a: int, b: int): int
    requires b > 0
  {
    if a >= 0 then a / b else -(-a / b)
  }

  function PositiveLimit(expFrac: int): int {
    308 - expFrac
  }

  function NegativeLimit(expFrac: int): int {
    TruncDiv(expFrac + 2147483639, 10)
  }

  /** The exponent behind the significand that ends at `p`; 0 when there is none. */
  function ExponentOf(s: Text, p: nat, expFrac: int): int
    requires p <= |s|
  {
    var sign := Peek(s, p + 1);
    var q := if sign == PLUS || sign == MINUS then p + 2 else p + 1;
    if !IsExponentMark(Peek(s, p)) || !IsDigit(Peek(s, q)) then 0
    else
      var w := s[q..DigitsEnd(s, q)];
      var exp: int := if sign == MINUS then Accumulate(w, NegativeLimit(expFrac)) else Value(w);
      if sign == MINUS then -exp else exp
  }

  /** The test compares the accumulator, but decides about the value of all digits. */
  lemma {:induction false} AccumulateDecides(w: Text, limit: int)
    requires AllDigits(w) && |w| > 0 && limit >= 9
    ensures Accumulate(w, limit) > limit <==> Value(w) > limit
    ensures Accumulate(w, limit) <= limit ==> Accumulate(w, limit) == Value(w)
  {
    var u := w[..|w| - 1];
    if |w| == 1 {
      assert u == [] && Value(u) == 0;
    } else {
      AccumulateDecides(u, limit);
    }
  }

  /** Whatever the digits, the accumulator stays below ten times the limit and a digit. */
  lemma {:induction false} AccumulateBound(w: Text, limit: int)
    requires AllDigits(w) && |w| > 0 && limit >= 9
    ensures Accumulate(w, limit) <= 10 * limit + 9
  {
    if |w| > 1 {
      var u := w[..|w| - 1];
      AccumulateBound(u, limit);
      if |u| == 1 { assert Accumulate(u, limit) <= 9; }
    }
  }

  /** The limit can be exhausted: some digits take the accumulator to ten times the limit and nine. */
  lemma AccumulateReaches(limit: nat) returns (w: Text)
    requires limit >= 9
    ensures AllDigits(w) && |w| > 1 && Accumulate(w, limit) == 10 * limit + 9
  {
    var u := Digits(limit);
    AccumulateDecides(u, limit);
    w := u + [NINE];
    assert w[..|w| - 1] == u;
  }

  /** No intermediate value of a positive exponent overflows, whatever its digits. */
  ghost predicate PositiveExponentsFit(expFrac: int) {
    forall w: Text | AllDigits(w) && |w| > 0 :: Accumulate(w, PositiveLimit(expFrac)) <= INT_MAX
  }

  /** Nor does one of a negative exponent, nor its sum with `expFrac`. */
  ghost predicate NegativeExponentsFit(expFrac: int) {
    forall w: Text | AllDigits(w) && |w| > 0 ::
      Accumulate(w, NegativeLimit(expFrac)) <= INT_MAX && expFrac - Accumulate(w, NegativeLimit(expFrac)) >= INT_MIN
  }

  /** A positive exponent stays inside int exactly when at most 214748055 fraction digits were counted. */
  lemma PositiveExponentExact(expFrac: int)
    requires expFrac <= 0
    ensures PositiveExponentsFit(expFrac) <==> expFrac >= -MOST_FRACTION_DIGITS
  {
    var limit := PositiveLimit(expFrac);
    if expFrac >= -MOST_FRACTION_DIGITS {
      forall w: Text | AllDigits(w) && |w| > 0 ensures Accumulate(w, limit) <= INT_MAX {
        AccumulateBound(w, limit);
      }
    } else {
      var w := AccumulateReaches(limit);
      assert Accumulate(w, limit) > INT_MAX;
    }
  }

  /**
   A negative exponent, and its sum with `expFrac`, stay inside int exactly when at most 2147483549 fraction digits
   were counted.
   */
  lemma NegativeExponentExact(expFrac: int)
    requires expFrac <= 0
    ensures NegativeExponentsFit(expFrac) <==> expFrac >= -2147483549
  {
    var limit := NegativeLimit(expFrac);
    if expFrac >= -2147483549 {
      forall w: Text | AllDigits(w) && |w| > 0
        ensures Accumulate(w, limit) <= INT_MAX && expFrac - Accumulate(w, limit) >= INT_MIN
      {
        AccumulateBound(w, limit);
      }
    } else {
      var w: Text := [NINE, NINE];
      assert w[..1] == [NINE];
      assert Accumulate(w, limit) == 99;
    }
  }

  /** Where the digits in front of the exponent end, behind an integer part that ends at `p`. */
  function MantissaEnd(s: Text, p: nat): (q: nat)
    requires p <= |s|
    ensures p <= q <= |s|
  {
    if Peek(s, p) == DOT then DigitsEnd(s, p + 1) else p
  }

  /** `expFrac` in front of the exponent. */
  function CountedExponent(s: Text, p: nat, isDouble: bool, v: nat, sig: nat): (r: int)
    requires p <= |s|
    ensures -(MantissaEnd(s, p) - p) <= r <= 0
  {
    if Peek(s, p) == DOT then FractionExponent(s, p + 1, isDouble, v, sig) else 0
  }

  predicate IsInt(n: int) {
    INT_MIN <= n <= INT_MAX
  }

  /** A literal that is read: its exponent, and the sum that goes to the conversion, are inside int. */
  lemma ExponentFits(s: Text, start: nat, p: nat, expFrac: int, isDouble: bool)
    requires p <= |s| && -100_000_000 <= expFrac <= 0 && ScanExponent(s, start, p, expFrac, isDouble).Suffix?
    ensures PositiveExponentsFit(expFrac) && NegativeExponentsFit(expFrac)
    ensures IsInt(ExponentOf(s, p, expFrac)) && IsInt(ExponentOf(s, p, expFrac) + expFrac)
  {
    PositiveExponentExact(expFrac);
    NegativeExponentExact(expFrac);
    var sign := Peek(s, p + 1);
    var q := if sign == PLUS || sign == MINUS then p + 2 else p + 1;
    if IsExponentMark(Peek(s, p)) {
      var w := s[q..DigitsEnd(s, q)];
      assert AllDigits(w) && |w| > 0;
      assert Accumulate(w, NegativeLimit(expFrac)) <= INT_MAX
             && expFrac - Accumulate(w, NegativeLimit(expFrac)) >= INT_MIN;
    }
  }

  /** The integer part of the literal at `p`, behind its sign. */
  function IntegerAt(o: Options, s: Text, p: nat): IntegerPart
    requires p <= |s|
  {
    ScanInteger(o, s, if Peek(s, p) == MINUS then p + 1 else p)
  }

  /**
   What the comment in the code promises, on a text of any length: while the digits of a literal in front of its
   exponent take less than 10^8 characters, no intermediate value of its exponent leaves int, whatever the exponent's
   digits; and if the literal is read, neither does the sum that goes to the conversion.
   */
  lemma ShortLiteralsFit(o: Options, s: Text, p: nat)
    requires p <= |s| && !IntegerAt(o, s, p).Invalid? && MantissaEnd(s, IntegerAt(o, s, p).end) - p < 100_000_000
    ensures var minus, end := Peek(s, p) == MINUS, IntegerAt(o, s, p).end;
            var q := if minus then p + 1 else p;
            var v := if IntegerAt(o, s, p).Decimal? then Value(s[q..end]) else 0;
            var isBig := !Fits64(minus, v);
            var sig := SignificantDigits(isBig, IntegerAt(o, s, p), q);
            var expFrac := CountedExponent(s, end, isBig, v, sig);
            var exp := ExponentOf(s, MantissaEnd(s, end), expFrac);
            && PositiveExponentsFit(expFrac) && NegativeExponentsFit(expFrac)
            && (ScanSuffix(s, p, end, isBig, v, sig).Suffix? ==> IsInt(exp) && IsInt(exp + expFrac))
  {
    hide Value, FractionExponent, ScanInteger, DigitsEnd, ScanExponent, ExponentOf, PositiveExponentsFit,
         NegativeExponentsFit;
    var minus, end := Peek(s, p) == MINUS, IntegerAt(o, s, p).end;
    var q := if minus then p + 1 else p;
    var v := if IntegerAt(o, s, p).Decimal? then Value(s[q..end]) else 0;
    var isBig := !Fits64(minus, v);
    var sig := SignificantDigits(isBig, IntegerAt(o, s, p), q);
    var expFrac := CountedExponent(s, end, isBig, v, sig);
    PositiveExponentExact(expFrac);
    NegativeExponentExact(expFrac);
    if ScanSuffix(s, p, end, isBig, v, sig).Suffix? {
      ExponentFits(s, p, MantissaEnd(s, end), expFrac, if Peek(s, end) == DOT then true else isBig);
    }
  }
}
