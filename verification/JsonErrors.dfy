/**
 Errors tell the truth: whatever code a parser reports, the character at the offset, or what stands around it, is
 what the code says.
 */
module JsonErrors {
  import opened Bytes
  import opened Decimal
  import opened JsonTypes
  import opened JsonLexical
  import opened JsonNumber
  import opened JsonGrammar
  import opened JsonSpelling
  import Gaps = JsonGaps
  import Utf8
  import JsonAutomaton
  import JsonEquivalence

  const WORDS: set<Text> := {NULL_WORD, TRUE_WORD, FALSE_WORD, NAN_WORD, INF_WORD, INITY_WORD}

  /** The word stands in front of `at` up to its character `k`, which does not follow. */
  predicate Breaks(s: Text, at: nat, word: Text, k: nat) {
    word in WORDS && k < |word| && k <= at && At(s, at - k, word[..k]) && Peek(s, at) != word[k]
  }

  /** No digit and no word goes on here. */
  ghost predicate NoValueHere(s: Text, at: nat) {
    !(0x30 <= Peek(s, at) <= 0x39) || exists word: Text, k: nat :: Breaks(s, at, word, k)
  }

  /** A backslash and a u; the units, where there are four hexadecimal digits. */
  predicate IsUnit(s: Text, p: nat) {
    Peek(s, p) == 0x5C && Peek(s, p + 1) == 0x75
  }

  predicate IsHighUnit(s: Text, p: nat) {
    IsUnit(s, p) && IsHex4(s, p + 2) && 0xD800 <= Hex4(s, p + 2) <= 0xDBFF
  }

  predicate IsLowUnit(s: Text, p: nat) {
    IsUnit(s, p) && IsHex4(s, p + 2) && 0xDC00 <= Hex4(s, p + 2) <= 0xDFFF
  }

  ghost predicate Tells(o: Options, s: Text, e: Error) {
    var at := e.offset;
    var c := Peek(s, at);
    match e.code
    case DocumentEmpty => c == NUL
    case DocumentRootNotSingular => c != NUL && !IsBlank(c)
    case ValueInvalid => NoValueHere(s, at)
    case ObjectMissName => c != 0x22
    case ObjectMissColon => c != 0x3A && !IsBlank(c)
    case ObjectMissCommaOrCurlyBracket => c !in {0x2C, 0x7D} && !IsBlank(c)
    case ArrayMissCommaOrSquareBracket => c !in {0x2C, 0x5D} && !IsBlank(c)
    case StringUnicodeEscapeInvalidHex =>
      IsUnit(s, at) && (!IsHex4(s, at + 2) || (IsHighUnit(s, at) && IsUnit(s, at + 6) && !IsHex4(s, at + 8)))
    case StringUnicodeSurrogateInvalid => IsHighUnit(s, at) && !IsLowUnit(s, at + 6)
    case StringEscapeInvalid => c == 0x5C && Peek(s, at + 1) != 0x75 && Unescaped(Peek(s, at + 1)) == NUL
    case StringMissQuotationMark => c == NUL
    case StringInvalidEncoding => c < 0x20 || (o.validateEncoding && at < |s| && !Utf8.Decode(s, at).ok)
    case NumberTooBig => c == 0x2D || 0x30 <= c <= 0x39 || o.nanAndInf
    case NumberMissFraction => at > 0 && Peek(s, at - 1) == 0x2E && !(0x30 <= c <= 0x39)
    case NumberMissExponent => at > 0 && Peek(s, at - 1) in {0x65, 0x45, 0x2B, 0x2D} && !(0x30 <= c <= 0x39)
    case Termination => true
    case UnspecificSyntaxError => o.comments && exists m: nat :: Gaps.IsBroken(s, m, e)
  }

  ghost predicate TellsIfErr(o: Options, s: Text, r: Outcome) {
    r.Err? ==> Tells(o, s, r.error)
  }

  lemma {:induction false} SkipTells(o: Options, s: Text, p: nat, out: seq<Event>)
    requires p <= |s|
    ensures TellsIfErr(o, s, Skip(o, s, p, out))
    ensures var r := Skip(o, s, p, out); r.Ok? ==> !IsBlank(Peek(s, r.pos))
  {
    hide Skip, Gaps.IsGap, Gaps.Inside, Blank;
    if o.comments {
      Gaps.SkipsComments(o, s, p, out);
      var r := Skip(o, s, p, out);
      if r.Err? {
        var m: nat :| p <= m && Gaps.IsGap(s, p, m) && Gaps.IsBroken(s, m, r.error);
      }
    } else {
      Gaps.SkipsWhiteSpace(o, s, p, out);
    }
  }

  lemma {:induction false} CharTells(o: Options, s: Text, p: nat)
    requires p < |s|
    ensures var r := ScanChar(o, s, p); r.Failed? ==> Tells(o, s, r.error)
  {
    hide Utf8.Decode, Utf8.Encode, AllHex, Hex4, NoValueHere;
  }

  lemma {:induction false} StringTells(o: Options, s: Text, p: nat, str: Text)
    requires p <= |s|
    ensures var r := ScanString(o, s, p, str); r.Failed? ==> Tells(o, s, r.error)
    decreases |s| - p
  {
    hide ScanChar;
    if Peek(s, p) != QUOTE && Peek(s, p) != NUL {
      CharTells(o, s, p);
      var r := ScanChar(o, s, p);
      if r.Scanned? { StringTells(o, s, r.pos, str + r.str); }
    }
  }

  lemma {:induction false} LiteralTells(o: Options, s: Text, p: nat, word: Text, e: Event, out: seq<Event>)
    requires p <= |s| && |word| > 0 && NUL !in word && Peek(s, p) == word[0] && word in WORDS
    ensures TellsIfErr(o, s, ParseLiteral(o, s, p, word, e, out))
  {
    var k := MatchLength(s, p, word);
    if k < |word| {
      assert Breaks(s, p + k, word, k);
    }
  }

  lemma {:induction false} SpecialTells(s: Text, p: nat)
    requires p < |s| && ScanNanOrInf(s, p).Invalid?
    ensures NoValueHere(s, ScanNanOrInf(s, p).offset)
  {
    var nan, inf := MatchLength(s, p, NAN_WORD), MatchLength(s, p, INF_WORD);
    if s[p] == UPPER_N {
      assert Breaks(s, p + nan, NAN_WORD, nan);
    } else if inf < 3 {
      assert Breaks(s, p + inf, INF_WORD, inf);
    } else {
      var inity := MatchLength(s, p + 3, INITY_WORD);
      assert Breaks(s, p + 3 + inity, INITY_WORD, inity);
    }
  }

  lemma {:induction false} NumberTells(o: Options, s: Text, p: nat, out: seq<Event>)
    requires p <= |s|
    ensures TellsIfErr(o, s, ParseNumber(o, s, p, out))
  {
    var minus := Peek(s, p) == MINUS;
    var q := if minus then p + 1 else p;
    var integer := ScanInteger(o, s, q);
    IntegerTells(o, s, q);
    NumberStarts(o, s, p);
    DeclinedTells(o, s, p);
    hide ScanInteger, FractionExponent, Value, ScanSuffix, Tells, SignificantDigits, Deliver, Fits64;
    if !integer.Invalid? {
      var v := if integer.Decimal? then Value(s[q..integer.end]) else 0;
      var isBig := !Fits64(minus, v);
      var sig := SignificantDigits(isBig, integer, q);
      SuffixTells(o, s, p, integer.end, isBig, v, sig);
      var suffix := ScanSuffix(s, p, integer.end, isBig, v, sig);
      if suffix.Suffix? {
        DeliverTells(o, s[p..suffix.end], minus, v, suffix.isDouble, integer.Special?, out, suffix.end, p);
      }
    }
  }

  lemma DeliverTells(o: Options, lexeme: Text, minus: bool, v: nat, isDouble: bool, isSpecial: bool, out: seq<Event>,
                     end: nat, start: nat)
    requires isDouble || Fits64(minus, v)
    ensures var r := Deliver(o, lexeme, minus, v, isDouble, isSpecial, out, end, start);
            r.Err? ==> r.error.code.Termination? || r.error == Error(NumberTooBig, start)
  {
  }

  lemma {:induction false} IntegerTells(o: Options, s: Text, q: nat)
    requires q <= |s|
    ensures var r := ScanInteger(o, s, q); r.Invalid? ==> Tells(o, s, Error(ValueInvalid, r.offset))
    ensures !ScanInteger(o, s, q).Invalid? ==> IsDigit(Peek(s, q)) || o.nanAndInf
  {
    hide NoValueHere, ScanNanOrInf;
    if q < |s| && ScanNanOrInf(s, q).Invalid? { SpecialTells(s, q); }
    NoDigit(s, q);
  }

  /** Where a number starts that may be too big. */
  lemma NumberStarts(o: Options, s: Text, p: nat)
    ensures Peek(s, p) == MINUS || IsDigit(Peek(s, p)) || o.nanAndInf ==> Tells(o, s, Error(NumberTooBig, p))
  {
  }

  lemma {:induction false} SuffixTells(o: Options, s: Text, start: nat, p: nat, isDouble: bool, v: nat, sig: nat)
    requires p <= |s| && Tells(o, s, Error(NumberTooBig, start))
    ensures var r := ScanSuffix(s, start, p, isDouble, v, sig); r.Malformed? ==> Tells(o, s, r.error)
  {
    hide FractionExponent, Value, DigitsEnd, NoValueHere, IsHex4, Utf8.Decode, Gaps.IsBroken;
  }

  lemma NoDigit(s: Text, q: nat)
    ensures !IsDigit(Peek(s, q)) ==> NoValueHere(s, q)
  {
  }

  lemma {:induction false} ScalarTells(o: Options, s: Text, p: nat, out: seq<Event>)
    requires p <= |s|
    ensures TellsIfErr(o, s, ParseScalar(o, s, p, out))
  {
    hide ParseNumber, ParseLiteral, ScanString, Tells;
    var c := Peek(s, p);
    if c == QUOTE {
      StringTells(o, s, p + 1, []);
      DeclinedTells(o, s, p);
    } else if c == LOWER_N {
      LiteralTells(o, s, p, NULL_WORD, Null, out);
    } else if c == LOWER_T {
      LiteralTells(o, s, p, TRUE_WORD, Bool(true), out);
    } else if c == LOWER_F {
      LiteralTells(o, s, p, FALSE_WORD, Bool(false), out);
    } else {
      NumberTells(o, s, p, out);
    }
  }

  lemma DeclinedTells(o: Options, s: Text, p: nat)
    ensures forall at: nat :: Tells(o, s, Error(Termination, at))
  {
  }

  lemma {:induction false} ValueTells(o: Options, s: Text, p: nat, out: seq<Event>)
    requires p <= |s|
    ensures TellsIfErr(o, s, ParseValue(o, s, p, out))
    decreases |s| - p, 2
  {
    hide ParseScalar, Skip, ParseMembers, ParseElements, Tells;
    DeclinedTells(o, s, p);
    var c := Peek(s, p);
    if c == LEFT_BRACE || c == LEFT_BRACKET {
      var out1 := out + [if c == LEFT_BRACE then StartObject else StartArray];
      var r2 := Skip(o, s, p + 1, out1);
      SkipTells(o, s, p + 1, out1);
      if r2.Ok? && c == LEFT_BRACE && Peek(s, r2.pos) != RIGHT_BRACE {
        MembersTell(o, s, r2.pos, out1, 0);
      } else if r2.Ok? && c == LEFT_BRACKET && Peek(s, r2.pos) != RIGHT_BRACKET {
        ElementsTell(o, s, r2.pos, out1, 0);
      }
    } else {
      ScalarTells(o, s, p, out);
    }
  }

  lemma {:induction false} MembersTell(o: Options, s: Text, p: nat, out: seq<Event>, count: nat)
    requires p <= |s|
    ensures TellsIfErr(o, s, ParseMembers(o, s, p, out, count))
    decreases |s| - p, 0
  {
    hide Skip, ScanString, ParseMemberValue, Tells;
    DeclinedTells(o, s, p);
    MissingTells(o, s, p);
    if Peek(s, p) == QUOTE {
      StringTells(o, s, p + 1, []);
      var r1 := ParseString(o, s, p, true, out);
      if r1.Ok? {
        SkipTells(o, s, r1.pos, r1.out);
        var r2 := Skip(o, s, r1.pos, r1.out);
        if r2.Ok? {
          MissingTells(o, s, r2.pos);
          if Peek(s, r2.pos) == COLON {
            SkipTells(o, s, r2.pos + 1, r1.out);
            var r3 := Skip(o, s, r2.pos + 1, r1.out);
            if r3.Ok? { MemberValueTells(o, s, r3.pos, r1.out, count); }
          }
        }
      }
    }
  }

  /** What is missing at a place. */
  lemma MissingTells(o: Options, s: Text, p: nat)
    ensures Peek(s, p) != QUOTE ==> Tells(o, s, Error(ObjectMissName, p))
    ensures !IsBlank(Peek(s, p)) ==>
              && (Peek(s, p) != COLON ==> Tells(o, s, Error(ObjectMissColon, p)))
              && (Peek(s, p) !in {COMMA, RIGHT_BRACE} ==> Tells(o, s, Error(ObjectMissCommaOrCurlyBracket, p)))
              && (Peek(s, p) !in {COMMA, RIGHT_BRACKET} ==> Tells(o, s, Error(ArrayMissCommaOrSquareBracket, p)))
              && (Peek(s, p) != NUL ==> Tells(o, s, Error(DocumentRootNotSingular, p)))
    ensures Peek(s, p) == NUL ==> Tells(o, s, Error(DocumentEmpty, p))
  {
  }

  lemma {:induction false} MemberValueTells(o: Options, s: Text, p: nat, out: seq<Event>, count: nat)
    requires p <= |s|
    ensures TellsIfErr(o, s, ParseMemberValue(o, s, p, out, count))
    decreases |s| - p, 3
  {
    hide ParseValue, Skip, ParseMembers, Tells;
    DeclinedTells(o, s, p);
    ValueTells(o, s, p, out);
    var r1 := ParseValue(o, s, p, out);
    if r1.Ok? {
      SkipTells(o, s, r1.pos, r1.out);
      var r2 := Skip(o, s, r1.pos, r1.out);
      if r2.Ok? {
        MissingTells(o, s, r2.pos);
        if Peek(s, r2.pos) == COMMA {
          SkipTells(o, s, r2.pos + 1, r1.out);
          var r3 := Skip(o, s, r2.pos + 1, r1.out);
          if r3.Ok? { MembersTell(o, s, r3.pos, r1.out, Increment(count)); }
        }
      }
    }
  }

  lemma {:induction false} ElementsTell(o: Options, s: Text, p: nat, out: seq<Event>, count: nat)
    requires p <= |s|
    ensures TellsIfErr(o, s, ParseElements(o, s, p, out, count))
    decreases |s| - p, 3
  {
    hide ParseValue, Skip, Tells;
    DeclinedTells(o, s, p);
    ValueTells(o, s, p, out);
    var r1 := ParseValue(o, s, p, out);
    if r1.Ok? {
      SkipTells(o, s, r1.pos, r1.out);
      var r2 := Skip(o, s, r1.pos, r1.out);
      if r2.Ok? {
        MissingTells(o, s, r2.pos);
        if Peek(s, r2.pos) == COMMA {
          SkipTells(o, s, r2.pos + 1, r1.out);
          var r3 := Skip(o, s, r2.pos + 1, r1.out);
          if r3.Ok? { ElementsTell(o, s, r3.pos, r1.out, Increment(count)); }
        }
      }
    }
  }

  /**
   The theorem, for every text, all flags and every handler: what a parser reports is so. The automaton also calls a
   document empty that begins with a closing bracket, a closing brace, a comma or a colon.
   */
  lemma {:induction false} ErrorsTellTheTruth(o: Options, s: Text)
    ensures TellsIfErr(o, s, JsonGrammar.Parse(o, s))
    ensures var r := JsonAutomaton.Parse(o, s);
            r.Err? ==>
              || Tells(o, s, r.error)
              || (r.error.code.DocumentEmpty? && Peek(s, r.error.offset) in {0x5D, 0x7D, 0x2C, 0x3A})
  {
    hide ParseValue, Skip, Tells, JsonAutomaton.Parse;
    JsonEquivalence.ParsersAgree(o, s);
    SkipTells(o, s, 0, []);
    var r0 := Skip(o, s, 0, []);
    if r0.Ok? {
      MissingTells(o, s, r0.pos);
      if Peek(s, r0.pos) != NUL {
        ValueTells(o, s, r0.pos, []);
        var r1 := ParseValue(o, s, r0.pos, []);
        if r1.Ok? {
          SkipTells(o, s, r1.pos, r1.out);
          if Skip(o, s, r1.pos, r1.out).Ok? { MissingTells(o, s, Skip(o, s, r1.pos, r1.out).pos); }
        }
      }
    }
    SameOrDeclined(o, s);
  }

  lemma SameOrDeclined(o: Options, s: Text)
    requires TellsIfErr(o, s, JsonGrammar.Parse(o, s))
    ensures var r := JsonAutomaton.Parse(o, s);
            r.Err? ==>
              || Tells(o, s, r.error)
              || (r.error.code.DocumentEmpty? && Peek(s, r.error.offset) in {0x5D, 0x7D, 0x2C, 0x3A})
  {
    hide JsonGrammar.Parse, JsonAutomaton.Parse, Tells;
    JsonEquivalence.ParsersAgree(o, s);
    DeclinedTells(o, s, 0);
    if JsonEquivalence.IsPunctuation(JsonEquivalence.FirstChar(o, s)) && JsonAutomaton.Parse(o, s).Err? {
      FirstIsPunctuation(o, s);
    }
  }

  lemma FirstIsPunctuation(o: Options, s: Text)
    requires JsonEquivalence.IsPunctuation(JsonEquivalence.FirstChar(o, s)) && JsonAutomaton.Parse(o, s).Err?
    ensures Peek(s, JsonAutomaton.Parse(o, s).error.offset) == JsonEquivalence.FirstChar(o, s)
  {
  }
}
