/**
 JSON texts as sections 2 to 7 of RFC 8259 describe them, with what the flags add: both parsers accept exactly
 these, as far as no number is too big and the handler does not decline.
 */
module JsonTexts {
  import opened Bytes
  import opened JsonTypes
  import opened JsonLexical
  import opened Decimal
  import opened JsonNumber
  import opened JsonGrammar
  import opened JsonGaps
  import Numbers = JsonNumberGrammar
  import Strings = JsonStringGrammar
  import JsonAutomaton
  import JsonEquivalence

  /** One of the three words. */
  predicate IsWord(s: Text, p: nat, q: nat) {
    p <= q <= |s|
    && s[p..q] in {[0x6E, 0x75, 0x6C, 0x6C], [0x74, 0x72, 0x75, 0x65], [0x66, 0x61, 0x6C, 0x73, 0x65]}
  }

  ghost predicate IsNumber(o: Options, s: Text, p: nat, q: nat) {
    || (exists b: nat, c: nat :: Numbers.IsLiteral(s, p, b, c, q))
    || (o.nanAndInf && exists b: nat, c: nat ::
          Numbers.IsSpecial(s, p, b) && Numbers.IsFraction(s, b, c) && Numbers.IsExponent(s, c, q))
  }

  /** Items between quotation marks. */
  ghost predicate IsString(o: Options, s: Text, p: nat, q: nat) {
    p < |s| && s[p] == 0x22 && IsSpelled(o.validateEncoding, s, p + 1, q)
  }

  ghost predicate IsSpelled(checked: bool, s: Text, a: nat, q: nat) {
    exists items: seq<Strings.Item> :: Strings.SpelledBy(checked, s, a, q, items)
  }

  /** What the scanner takes for one. */
  lemma {:induction false} StringIffScanned(o: Options, s: Text, p: nat, q: nat)
    ensures IsString(o, s, p, q) <==>
              && p < |s| && s[p] == 0x22
              && ScanString(o, s, p + 1, []).Scanned? && q == ScanString(o, s, p + 1, []).pos
  {
    hide ScanString, Strings.SpelledBy;
    if p < |s| && s[p] == 0x22 {
      var a := p + 1;
      var r := ScanString(o, s, a, []);
      if r.Scanned? { Strings.AcceptedIffSpelled(o, s, a, r.pos, r.str); }
      if items: seq<Strings.Item> :| Strings.SpelledBy(o.validateEncoding, s, a, q, items) {
        ItemsMean(o, s, a, q, items);
        Strings.AcceptedIffSpelled(o, s, a, q, Strings.MeanAll(items));
      }
    }
  }

  lemma ItemsMean(o: Options, s: Text, p: nat, q: nat, items: seq<Strings.Item>)
    requires Strings.SpelledBy(o.validateEncoding, s, p, q, items)
    ensures Strings.AreItems(true, items) || Strings.AreItems(false, items)
  {
    hide Strings.AreItems;
  }

  predicate Mark(s: Text, p: nat, c: byte) {
    p < |s| && s[p] == c
  }

  ghost predicate IsValue(o: Options, s: Text, p: nat, q: nat)
    decreases q - p, 1
  {
    || IsWord(s, p, q) || IsNumber(o, s, p, q) || IsString(o, s, p, q)
    || (Mark(s, p, 0x5B) && exists a: nat | p < a < q ::
          Gap(o, s, p + 1, a) && ((Mark(s, a, 0x5D) && q == a + 1) || IsElements(o, s, a, q)))
    || (Mark(s, p, 0x7B) && exists a: nat | p < a < q ::
          Gap(o, s, p + 1, a) && ((Mark(s, a, 0x7D) && q == a + 1) || IsMembers(o, s, a, q)))
  }

  /** Elements up to the closing bracket. */
  ghost predicate IsElements(o: Options, s: Text, p: nat, q: nat)
    decreases q - p, 2
  {
    exists b: nat, c: nat | p < b <= c < q :: IsValue(o, s, p, b) && Gap(o, s, b, c) && ElementsGoOn(o, s, c, q)
  }

  /** The bracket, or a comma and more elements; with the flag, the last element may be followed by a comma. */
  ghost predicate ElementsGoOn(o: Options, s: Text, c: nat, q: nat)
    decreases q - c, 3
  {
    || (Mark(s, c, 0x5D) && q == c + 1)
    || (Mark(s, c, 0x2C) && exists d: nat | c < d < q ::
          Gap(o, s, c + 1, d) && ((o.trailingCommas && Mark(s, d, 0x5D) && q == d + 1) || IsElements(o, s, d, q)))
  }

  /** Members up to the closing brace: name, colon and value. */
  ghost predicate IsMembers(o: Options, s: Text, p: nat, q: nat)
    decreases q - p, 2
  {
    exists m: nat, v: nat, b: nat, c: nat | p < m < v < b <= c < q ::
      IsName(o, s, p, m, v) && IsValue(o, s, v, b) && Gap(o, s, b, c) && MembersGoOn(o, s, c, q)
  }

  ghost predicate MembersGoOn(o: Options, s: Text, c: nat, q: nat)
    decreases q - c, 3
  {
    || (Mark(s, c, 0x7D) && q == c + 1)
    || (Mark(s, c, 0x2C) && exists d: nat | c < d < q ::
          Gap(o, s, c + 1, d) && ((o.trailingCommas && Mark(s, d, 0x7D) && q == d + 1) || IsMembers(o, s, d, q)))
  }

  /** A name that ends at `m`, the colon, and the gaps around it, up to `v`. */
  ghost predicate IsName(o: Options, s: Text, p: nat, m: nat, v: nat) {
    IsString(o, s, p, m) && exists x: nat | m <= x < v :: Gap(o, s, m, x) && Mark(s, x, 0x3A) && Gap(o, s, x + 1, v)
  }

  /** A value, gaps around it, and the end of the text, which a NUL is too. */
  ghost predicate IsText(o: Options, s: Text) {
    exists p: nat, q: nat, e: nat ::
      Gap(o, s, 0, p) && IsValue(o, s, p, q) && Gap(o, s, q, e) && Peek(s, e) == NUL
  }

  // What is accepted is a text

  lemma WordIsRead(o: Options, s: Text, p: nat, word: Text, e: Event, out: seq<Event>)
    requires p <= |s| && |word| > 0 && NUL !in word && Peek(s, p) == word[0]
    requires word in {NULL_WORD, TRUE_WORD, FALSE_WORD} && ParseLiteral(o, s, p, word, e, out).Ok?
    ensures IsWord(s, p, ParseLiteral(o, s, p, word, e, out).pos)
  {
    var k := MatchLength(s, p, word);
    assert s[p..p + k] == word;
  }

  lemma {:induction false} ScalarIsSound(o: Options, s: Text, p: nat, out: seq<Event>)
    requires p <= |s| && ParseScalar(o, s, p, out).Ok?
    ensures IsValue(o, s, p, ParseScalar(o, s, p, out).pos)
  {
    hide ParseLiteral, ParseNumber, ScanString, IsWord, IsNumber;
    var c := Peek(s, p);
    if c == LOWER_N {
      WordIsRead(o, s, p, NULL_WORD, Null, out);
    } else if c == LOWER_T {
      WordIsRead(o, s, p, TRUE_WORD, Bool(true), out);
    } else if c == LOWER_F {
      WordIsRead(o, s, p, FALSE_WORD, Bool(false), out);
    } else if c == QUOTE {
      StringIffScanned(o, s, p, ParseString(o, s, p, false, out).pos);
    } else {
      NumberIsSound(o, s, p, out);
    }
  }

  lemma {:induction false} NumberIsSound(o: Options, s: Text, p: nat, out: seq<Event>)
    requires p <= |s| && ParseNumber(o, s, p, out).Ok?
    ensures IsNumber(o, s, p, ParseNumber(o, s, p, out).pos)
  {
    hide ParseNumber;
    Numbers.ReadIsLiteral(o, s, p, out);
  }

  lemma {:induction false} ValueIsSound(o: Options, s: Text, p: nat, out: seq<Event>)
    requires p <= |s| && ParseValue(o, s, p, out).Ok?
    ensures IsValue(o, s, p, ParseValue(o, s, p, out).pos)
    decreases |s| - p, 2
  {
    hide ParseScalar, Skip, ParseElements, ParseMembers, IsElements, IsMembers, IsWord, IsNumber, IsString, Gap;
    var c := Peek(s, p);
    if c == LEFT_BRACE {
      ContainerOpens(o, s, p, StartObject, out);
      var a := Skip(o, s, p + 1, out + [StartObject]).pos;
      if Peek(s, a) != RIGHT_BRACE { MembersAreSound(o, s, a, out + [StartObject], 0); }
      var q := ParseValue(o, s, p, out).pos;
      assert Gap(o, s, p + 1, a) && ((Mark(s, a, 0x7D) && q == a + 1) || IsMembers(o, s, a, q));
    } else if c == LEFT_BRACKET {
      ContainerOpens(o, s, p, StartArray, out);
      var a := Skip(o, s, p + 1, out + [StartArray]).pos;
      if Peek(s, a) != RIGHT_BRACKET { ElementsAreSound(o, s, a, out + [StartArray], 0); }
      var q := ParseValue(o, s, p, out).pos;
      assert Gap(o, s, p + 1, a) && ((Mark(s, a, 0x5D) && q == a + 1) || IsElements(o, s, a, q));
    } else {
      ScalarIsSound(o, s, p, out);
    }
  }

  /** The gap behind an opening bracket. */
  lemma ContainerOpens(o: Options, s: Text, p: nat, e: Event, out: seq<Event>)
    requires p < |s|
    ensures var r := Skip(o, s, p + 1, out + [e]);
            r.Ok? ==> Gap(o, s, p + 1, r.pos)
  {
    hide Skip, Gap;
    if Skip(o, s, p + 1, out + [e]).Ok? { SkippedIsGap(o, s, p + 1, out + [e]); }
  }

  lemma {:induction false} ElementsAreSound(o: Options, s: Text, p: nat, out: seq<Event>, count: nat)
    requires p <= |s| && ParseElements(o, s, p, out, count).Ok?
    ensures IsElements(o, s, p, ParseElements(o, s, p, out, count).pos)
    decreases |s| - p, 3
  {
    hide ParseValue, Skip, IsValue, Gap;
    ValueIsSound(o, s, p, out);
    var r1 := ParseValue(o, s, p, out);
    SkippedIsGap(o, s, r1.pos, r1.out);
    var b, c, q := r1.pos, Skip(o, s, r1.pos, r1.out).pos, ParseElements(o, s, p, out, count).pos;
    if Peek(s, c) == COMMA {
      SkippedIsGap(o, s, c + 1, r1.out);
      var d := Skip(o, s, c + 1, r1.out).pos;
      assert Gap(o, s, c + 1, d);
      if !(o.trailingCommas && Peek(s, d) == RIGHT_BRACKET) {
        ElementsAreSound(o, s, d, r1.out, Increment(count));
      }
      assert (o.trailingCommas && Mark(s, d, 0x5D) && q == d + 1) || IsElements(o, s, d, q);
      assert ElementsGoOn(o, s, c, q);
    }
    assert IsValue(o, s, p, b) && Gap(o, s, b, c) && ElementsGoOn(o, s, c, q);
  }

  /** Name and colon, when a member is read. */
  lemma {:induction false} NameIsSound(o: Options, s: Text, p: nat, out: seq<Event>, count: nat)
    returns (m: nat, v: nat, out1: seq<Event>)
    requires p <= |s| && ParseMembers(o, s, p, out, count).Ok?
    ensures p < m < v <= |s| && IsName(o, s, p, m, v)
    ensures ParseMembers(o, s, p, out, count) == ParseMemberValue(o, s, v, out1, count)
  {
    hide ParseMemberValue, Skip, Gap, ScanString;
    var r := ParseString(o, s, p, true, out);
    m, out1 := r.pos, r.out;
    StringIffScanned(o, s, p, m);
    SkippedIsGap(o, s, m, out1);
    var x := Skip(o, s, m, out1).pos;
    SkippedIsGap(o, s, x + 1, out1);
    v := Skip(o, s, x + 1, out1).pos;
  }

  lemma {:induction false} MembersAreSound(o: Options, s: Text, p: nat, out: seq<Event>, count: nat)
    requires p <= |s| && ParseMembers(o, s, p, out, count).Ok?
    ensures IsMembers(o, s, p, ParseMembers(o, s, p, out, count).pos)
    decreases |s| - p, 3
  {
    hide ParseMembers, ParseValue, Skip, IsValue, Gap, IsName;
    var m, v, out1 := NameIsSound(o, s, p, out, count);
    ValueIsSound(o, s, v, out1);
    var r1 := ParseValue(o, s, v, out1);
    SkippedIsGap(o, s, r1.pos, r1.out);
    var b, c, q := r1.pos, Skip(o, s, r1.pos, r1.out).pos, ParseMemberValue(o, s, v, out1, count).pos;
    if Peek(s, c) == COMMA {
      SkippedIsGap(o, s, c + 1, r1.out);
      var d := Skip(o, s, c + 1, r1.out).pos;
      assert Gap(o, s, c + 1, d);
      if !(o.trailingCommas && Peek(s, d) == RIGHT_BRACE) {
        MembersAreSound(o, s, d, r1.out, Increment(count));
      }
      assert (o.trailingCommas && Mark(s, d, 0x7D) && q == d + 1) || IsMembers(o, s, d, q);
      assert MembersGoOn(o, s, c, q);
    }
    assert IsName(o, s, p, m, v) && IsValue(o, s, v, b) && Gap(o, s, b, c) && MembersGoOn(o, s, c, q);
  }

  // A text is accepted

  ghost predicate Accepting(o: Options) {
    forall out: seq<Event> :: o.accepts(out)
  }

  /** Read to `q`, unless a number is too big. */
  predicate ReadsTo(r: Outcome, q: nat) {
    if r.Ok? then r.pos == q else r.error.code.NumberTooBig?
  }

  /** What can stand behind a value. */
  predicate Follows(c: byte) {
    !GapEnds(c) || c in {0x2C, 0x5D, 0x7D, NUL}
  }

  lemma Emitted(o: Options, e: Event, out: seq<Event>, next: nat, at: nat)
    requires Accepting(o)
    ensures Emit(o, e, out, next, at) == Ok(next, out + [e])
  {
    assert o.accepts(out + [e]);
  }

  lemma {:induction false} WordIsComplete(o: Options, s: Text, p: nat, q: nat, out: seq<Event>)
    requires Accepting(o) && IsWord(s, p, q)
    ensures ReadsTo(ParseValue(o, s, p, out), q)
  {
    hide MatchLength, ParseLiteral;
    var c := s[p..q][0];
    assert s[p] == c;
    if c == 0x6E {
      WordIsMatched(o, s, p, NULL_WORD, Null, out);
    } else if c == 0x74 {
      WordIsMatched(o, s, p, TRUE_WORD, Bool(true), out);
    } else {
      WordIsMatched(o, s, p, FALSE_WORD, Bool(false), out);
    }
  }

  lemma {:induction false} WordIsMatched(o: Options, s: Text, p: nat, word: Text, e: Event, out: seq<Event>)
    requires Accepting(o) && |word| > 0 && NUL !in word && At(s, p, word)
    ensures Peek(s, p) == word[0] && ReadsTo(ParseLiteral(o, s, p, word, e, out), p + |word|)
  {
    Matched(s, p, word);
    Emitted(o, e, out, p + |word|, p + |word|);
  }

  lemma {:induction false} NumberIsComplete(o: Options, s: Text, p: nat, q: nat, out: seq<Event>)
    requires Accepting(o) && p <= |s| && IsNumber(o, s, p, q) && Follows(Peek(s, q))
    ensures ReadsTo(ParseValue(o, s, p, out), q)
  {
    hide ParseNumber, Numbers.IsFraction, Numbers.IsExponent;
    if b: nat, c: nat :| Numbers.IsLiteral(s, p, b, c, q) {
      Numbers.LiteralIsRead(o, s, p, b, c, q, out);
      LiteralBegins(s, p, b);
      Emitted(o, RawNumber(s[p..q]), out, q, p);
      Emitted(o, Double(s[p..q]), out, q, p);
      if e: Event :| Emit(o, e, out, q, p) == ParseNumber(o, s, p, out) {
        Emitted(o, e, out, q, p);
      }
    } else {
      var b: nat, c: nat :| Numbers.IsSpecial(s, p, b) && Numbers.IsFraction(s, b, c) && Numbers.IsExponent(s, c, q);
      SpecialIsRead(o, s, p, b, c, q, out);
    }
  }

  lemma LiteralBegins(s: Text, p: nat, b: nat)
    requires p <= |s| && Numbers.IsInteger(s, Numbers.Unsigned(s, p), b)
    ensures p < |s| && (s[p] == 0x2D || 0x30 <= s[p] <= 0x39)
  {
    var a := Numbers.Unsigned(s, p);
    assert s[a] == s[a..b][0];
  }

  lemma {:induction false} SpecialIsRead(o: Options, s: Text, p: nat, b: nat, c: nat, q: nat, out: seq<Event>)
    requires Accepting(o) && o.nanAndInf && p <= |s| && Follows(Peek(s, q))
    requires Numbers.IsSpecial(s, p, b) && Numbers.IsFraction(s, b, c) && Numbers.IsExponent(s, c, q)
    ensures ReadsTo(ParseValue(o, s, p, out), q)
  {
    var a := Numbers.Unsigned(s, p);
    SpecialEnds(s, b, c, q);
    SpecialIsScanned(s, a, b);
    SuffixIsRead(s, p, b, c, q);
    SpecialUnfolds(o, s, p, a, b, out);
    hide ParseNumber, ScanSuffix, ScanNanOrInf, Numbers.IsExponent, Numbers.IsFraction, Numbers.IsSpecial, Deliver;
    Delivered(o, s, p, Peek(s, p) == MINUS, out, q, true);
    Delivered(o, s, p, Peek(s, p) == MINUS, out, q, false);
  }

  /** Behind a special word only fraction and exponent are left to read. */
  lemma SpecialUnfolds(o: Options, s: Text, p: nat, a: nat, b: nat, out: seq<Event>)
    requires o.nanAndInf && p <= |s| && a == Numbers.Unsigned(s, p) && a < |s| && s[a] in {UPPER_N, UPPER_I}
    requires ScanNanOrInf(s, a) == Special(b)
    ensures p < |s| && s[p] in {MINUS, UPPER_N, UPPER_I}
    ensures ParseNumber(o, s, p, out)
            == match ScanSuffix(s, p, b, false, 0, 0)
               case Malformed(error) => Err(error, out)
               case Suffix(end, isDouble) =>
                 Deliver(o, s[p..end], Peek(s, p) == MINUS, 0, isDouble, true, out, end, p)
  {
    hide ScanSuffix, ScanNanOrInf, Deliver;
  }

  lemma Delivered(o: Options, s: Text, p: nat, minus: bool, out: seq<Event>, q: nat, isDouble: bool)
    requires Accepting(o) && p <= q <= |s|
    ensures ReadsTo(Deliver(o, s[p..q], minus, 0, isDouble, true, out, q, p), q)
  {
    Emitted(o, RawNumber(s[p..q]), out, q, p);
    Emitted(o, Double(s[p..q]), out, q, p);
  }

  lemma SpecialEnds(s: Text, b: nat, c: nat, q: nat)
    requires Numbers.IsFraction(s, b, c) && Numbers.IsExponent(s, c, q) && Follows(Peek(s, q))
    ensures Peek(s, b) != LOWER_I && Numbers.EndsNumber(Peek(s, q))
  {
  }

  /** Fraction and exponent are read to their end, unless the exponent is too big. */
  lemma SuffixIsRead(s: Text, start: nat, b: nat, c: nat, q: nat)
    requires Numbers.IsFraction(s, b, c) && Numbers.IsExponent(s, c, q) && Numbers.EndsNumber(Peek(s, q))
    ensures match ScanSuffix(s, start, b, false, 0, 0)
            case Malformed(e) => e.code.NumberTooBig?
            case Suffix(end, _) => end == q
  {
    Numbers.FractionEnds(s, b, c, q);
    Numbers.ExponentEnds(s, c, q);
    hide Value, FractionExponent, DigitsEnd, Numbers.IsFraction;
  }

  lemma SpecialIsScanned(s: Text, a: nat, b: nat)
    requires a <= b <= |s| && Peek(s, b) != LOWER_I
    requires s[a..b] in {[0x4E, 0x61, 0x4E], [0x49, 0x6E, 0x66], [0x49, 0x6E, 0x66, 0x69, 0x6E, 0x69, 0x74, 0x79]}
    ensures a < |s| && s[a] in {UPPER_N, UPPER_I} && ScanNanOrInf(s, a) == Special(b)
  {
    var w := s[a..b];
    if w[0] == 0x4E {
      Matched(s, a, NAN_WORD);
    } else {
      assert w[..3] == INF_WORD && s[a..a + 3] == w[..3];
      Matched(s, a, INF_WORD);
      if |w| == 8 {
        assert w[3..] == INITY_WORD && s[a + 3..a + 8] == w[3..];
        Matched(s, a + 3, INITY_WORD);
      }
    }
  }

  lemma {:induction false} Matched(s: Text, p: nat, word: Text)
    requires At(s, p, word) && |word| > 0 && NUL !in word
    ensures p < |s| && s[p] == word[0] && MatchLength(s, p, word) == |word|
  {
    forall i: nat | i < |word| ensures Peek(s, p + i) == word[i] { AtPeek(s, p, word, i); }
    AtPeek(s, p, word, 0);
    var k := MatchLength(s, p, word);
  }

  /** The first character of a value is none of those that stand between values. */
  lemma {:induction false} ValueBegins(o: Options, s: Text, p: nat, q: nat)
    requires p <= |s| && IsValue(o, s, p, q)
    ensures p < |s| && GapEnds(s[p]) && s[p] !in {NUL, 0x5D, 0x7D, 0x2C, 0x3A}
  {
    hide IsElements, IsMembers, Gap, ScanString;
    if IsWord(s, p, q) {
      assert s[p] == s[p..q][0];
    } else if b: nat, c: nat :| Numbers.IsLiteral(s, p, b, c, q) {
      LiteralBegins(s, p, b);
    } else if b: nat, c: nat :|
      Numbers.IsSpecial(s, p, b) && Numbers.IsFraction(s, b, c) && Numbers.IsExponent(s, c, q)
    {
      var a := Numbers.Unsigned(s, p);
      assert s[a] == s[a..b][0];
    }
  }

  lemma {:induction false} ValueIsComplete(o: Options, s: Text, p: nat, q: nat, out: seq<Event>)
    requires Accepting(o) && p <= |s| && IsValue(o, s, p, q) && Follows(Peek(s, q))
    ensures ReadsTo(ParseValue(o, s, p, out), q)
    decreases q - p, 1
  {
    hide ParseScalar, ParseElements, ParseMembers, IsWord, IsNumber, ScanString, Gap, Skip;
    if IsWord(s, p, q) {
      WordIsComplete(o, s, p, q, out);
    } else if IsNumber(o, s, p, q) {
      NumberIsComplete(o, s, p, q, out);
    } else if IsString(o, s, p, q) {
      StringIsComplete(o, s, p, q, false, out);
    } else if Mark(s, p, 0x5B) {
      var a: nat :| p < a < q && Gap(o, s, p + 1, a) && ((Mark(s, a, 0x5D) && q == a + 1) || IsElements(o, s, a, q));
      ArrayIsComplete(o, s, p, a, q, out);
    } else {
      var a: nat :| p < a < q && Gap(o, s, p + 1, a) && ((Mark(s, a, 0x7D) && q == a + 1) || IsMembers(o, s, a, q));
      ObjectIsComplete(o, s, p, a, q, out);
    }
  }

  lemma {:induction false} StringIsComplete(o: Options, s: Text, p: nat, q: nat, isKey: bool, out: seq<Event>)
    requires Accepting(o) && IsString(o, s, p, q)
    ensures p < |s| && Peek(s, p) == QUOTE && ParseString(o, s, p, isKey, out).Ok?
    ensures ParseString(o, s, p, isKey, out).pos == q
    ensures !isKey ==> ParseValue(o, s, p, out) == ParseString(o, s, p, false, out)
  {
    hide ScanString, IsString;
    StringIffScanned(o, s, p, q);
    var str := ScanString(o, s, p + 1, []).str;
    Emitted(o, if isKey then Key(str) else String(str), out, q, q);
  }

  lemma {:induction false} ArrayIsComplete(o: Options, s: Text, p: nat, a: nat, q: nat, out: seq<Event>)
    requires Accepting(o) && Mark(s, p, 0x5B) && p < a < q && Gap(o, s, p + 1, a)
    requires (Mark(s, a, 0x5D) && q == a + 1) || IsElements(o, s, a, q)
    ensures ReadsTo(ParseValue(o, s, p, out), q)
    decreases q - p, 0
  {
    hide ParseElements, IsElements, Gap, Skip;
    GapInside(o, s, p + 1, a);
    var out1 := out + [StartArray];
    Emitted(o, StartArray, out, p + 1, p + 1);
    if Mark(s, a, 0x5D) {
      GapIsSkipped(o, s, p + 1, a, out1);
      Emitted(o, EndArray(0), out1, a + 1, a + 1);
      if IsElements(o, s, a, q) { ElementsBegin(o, s, a, q); }
    } else {
      ElementsBegin(o, s, a, q);
      GapIsSkipped(o, s, p + 1, a, out1);
      ElementsAreComplete(o, s, a, q, out1, 0);
    }
  }

  lemma {:induction false} ElementsBegin(o: Options, s: Text, p: nat, q: nat)
    requires IsElements(o, s, p, q) && p <= |s|
    ensures p < |s| && GapEnds(s[p]) && s[p] != 0x5D
  {
    hide IsValue, Gap, ElementsGoOn;
    var b: nat, c: nat :| p < b <= c < q && IsValue(o, s, p, b) && Gap(o, s, b, c) && ElementsGoOn(o, s, c, q);
    ValueBegins(o, s, p, b);
  }

  /** A gap and a mark behind a value. */
  lemma MarkFollows(o: Options, s: Text, b: nat, c: nat, out: seq<Event>)
    requires Gap(o, s, b, c) && c < |s| && s[c] in {0x2C, 0x5D, 0x7D, 0x3A}
    ensures Skip(o, s, b, out) == Ok(c, out)
    ensures s[c] != 0x3A ==> Follows(Peek(s, b))
  {
    hide Skip;
    GapIsSkipped(o, s, b, c, out);
    if b < c { GapBegins(o, s, b, c); }
  }

  lemma GapBegins(o: Options, s: Text, b: nat, c: nat)
    requires Gap(o, s, b, c) && b < c
    ensures !GapEnds(Peek(s, b))
  {
    if !o.comments { assert s[b] == s[b..c][0]; }
  }

  lemma {:induction false} ElementsAreComplete(o: Options, s: Text, p: nat, q: nat, out: seq<Event>, count: nat)
    requires Accepting(o) && p <= |s| && IsElements(o, s, p, q)
    ensures ReadsTo(ParseElements(o, s, p, out, count), q)
    decreases q - p, 2
  {
    hide ParseElements, ParseValue, IsValue, Gap, Skip, ElementsGoOn;
    var b: nat, c: nat :| p < b <= c < q && IsValue(o, s, p, b) && Gap(o, s, b, c) && ElementsGoOn(o, s, c, q);
    GoOnMarks(o, s, c, q);
    GapInside(o, s, b, c);
    MarkFollows(o, s, b, c, out);
    ValueIsComplete(o, s, p, b, out);
    var r1 := ParseValue(o, s, p, out);
    if r1.Ok? {
      MarkFollows(o, s, b, c, r1.out);
      ElementGoesOn(o, s, p, b, c, q, out, count);
    } else {
      ElementFails(o, s, p, out, count);
    }
  }

  lemma {:induction false} GoOnMarks(o: Options, s: Text, c: nat, q: nat)
    ensures ElementsGoOn(o, s, c, q) ==> c < |s| && s[c] in {0x5D, 0x2C}
    ensures MembersGoOn(o, s, c, q) ==> c < |s| && s[c] in {0x7D, 0x2C}
  {
    hide IsElements, IsMembers, Gap;
  }

  lemma {:induction false} ElementFails(o: Options, s: Text, p: nat, out: seq<Event>, count: nat)
    requires p <= |s| && ParseValue(o, s, p, out).Err?
    ensures ParseElements(o, s, p, out, count) == ParseMemberValue(o, s, p, out, count) == ParseValue(o, s, p, out)
  {
    hide ParseValue, Skip;
  }

  /** What stands behind an element. */
  lemma {:induction false} ElementGoesOn(o: Options, s: Text, p: nat, b: nat, c: nat, q: nat, out: seq<Event>,
                                         count: nat)
    requires Accepting(o) && p < b <= c < q && c < |s| && ElementsGoOn(o, s, c, q)
    requires ParseValue(o, s, p, out).Ok? && ParseValue(o, s, p, out).pos == b
    requires Skip(o, s, b, ParseValue(o, s, p, out).out) == Ok(c, ParseValue(o, s, p, out).out)
    ensures ReadsTo(ParseElements(o, s, p, out, count), q)
    decreases q - p, 1
  {
    hide ParseValue, Gap, Skip, IsElements;
    var r1 := ParseValue(o, s, p, out);
    var e := EndArray(Increment(count));
    if Mark(s, c, 0x5D) {
      Emitted(o, e, r1.out, c + 1, c + 1);
    } else {
      var d: nat :| c < d < q && Gap(o, s, c + 1, d)
        && ((o.trailingCommas && Mark(s, d, 0x5D) && q == d + 1) || IsElements(o, s, d, q));
      GapInside(o, s, c + 1, d);
      if IsElements(o, s, d, q) { ElementsBegin(o, s, d, q); }
      GapIsSkipped(o, s, c + 1, d, r1.out);
      if Mark(s, d, 0x5D) {
        Emitted(o, e, r1.out, d + 1, d);
      } else {
        ElementsAreComplete(o, s, d, q, r1.out, Increment(count));
      }
    }
  }

  lemma {:induction false} ObjectIsComplete(o: Options, s: Text, p: nat, a: nat, q: nat, out: seq<Event>)
    requires Accepting(o) && Mark(s, p, 0x7B) && p < a < q && Gap(o, s, p + 1, a)
    requires (Mark(s, a, 0x7D) && q == a + 1) || IsMembers(o, s, a, q)
    ensures ReadsTo(ParseValue(o, s, p, out), q)
    decreases q - p, 0
  {
    hide ParseMembers, IsMembers, Gap, Skip;
    GapInside(o, s, p + 1, a);
    var out1 := out + [StartObject];
    Emitted(o, StartObject, out, p + 1, p + 1);
    if Mark(s, a, 0x7D) {
      GapIsSkipped(o, s, p + 1, a, out1);
      Emitted(o, EndObject(0), out1, a + 1, a + 1);
      if IsMembers(o, s, a, q) { MembersBegin(o, s, a, q); }
    } else {
      MembersBegin(o, s, a, q);
      GapIsSkipped(o, s, p + 1, a, out1);
      MembersAreComplete(o, s, a, q, out1, 0);
    }
  }

  lemma {:induction false} MembersBegin(o: Options, s: Text, p: nat, q: nat)
    requires IsMembers(o, s, p, q) && p <= |s|
    ensures p < |s| && s[p] == 0x22
  {
    hide IsValue, Gap, MembersGoOn;
    var m: nat, v: nat, b: nat, c: nat :| p < m < v < b <= c < q
      && IsName(o, s, p, m, v) && IsValue(o, s, v, b) && Gap(o, s, b, c) && MembersGoOn(o, s, c, q);
  }

  /** Name and colon are read. */
  lemma {:induction false} NameIsComplete(o: Options, s: Text, p: nat, m: nat, v: nat, b: nat, out: seq<Event>,
                                          count: nat)
    returns (out1: seq<Event>)
    requires Accepting(o) && p < m < v <= |s| && IsName(o, s, p, m, v) && IsValue(o, s, v, b)
    ensures ParseMembers(o, s, p, out, count) == ParseMemberValue(o, s, v, out1, count)
  {
    hide ParseMemberValue, Skip, Gap, ScanString, IsValue;
    var x: nat :| m <= x < v && Gap(o, s, m, x) && Mark(s, x, 0x3A) && Gap(o, s, x + 1, v);
    StringIsComplete(o, s, p, m, true, out);
    out1 := ParseString(o, s, p, true, out).out;
    MarkFollows(o, s, m, x, out1);
    ValueBegins(o, s, v, b);
    GapIsSkipped(o, s, x + 1, v, out1);
  }

  lemma {:induction false} MembersAreComplete(o: Options, s: Text, p: nat, q: nat, out: seq<Event>, count: nat)
    requires Accepting(o) && p <= |s| && IsMembers(o, s, p, q)
    ensures ReadsTo(ParseMembers(o, s, p, out, count), q)
    decreases q - p, 2
  {
    hide ParseMembers, ParseMemberValue, ParseValue, IsValue, Gap, Skip, IsName, MembersGoOn;
    var m: nat, v: nat, b: nat, c: nat :| p < m < v < b <= c < q
      && IsName(o, s, p, m, v) && IsValue(o, s, v, b) && Gap(o, s, b, c) && MembersGoOn(o, s, c, q);
    GoOnMarks(o, s, c, q);
    GapInside(o, s, b, c);
    var out1 := NameIsComplete(o, s, p, m, v, b, out, count);
    MarkFollows(o, s, b, c, out1);
    ValueIsComplete(o, s, v, b, out1);
    var r1 := ParseValue(o, s, v, out1);
    if r1.Ok? {
      MarkFollows(o, s, b, c, r1.out);
      MemberGoesOn(o, s, v, b, c, q, out1, count);
    } else {
      ElementFails(o, s, v, out1, count);
    }
  }

  lemma GapInside(o: Options, s: Text, b: nat, c: nat)
    requires Gap(o, s, b, c)
    ensures b <= c <= |s|
  {
  }

  /** What stands behind a member's value. */
  lemma {:induction false} MemberGoesOn(o: Options, s: Text, v: nat, b: nat, c: nat, q: nat, out: seq<Event>,
                                        count: nat)
    requires Accepting(o) && v < b <= c < q && c < |s| && MembersGoOn(o, s, c, q)
    requires ParseValue(o, s, v, out).Ok? && ParseValue(o, s, v, out).pos == b
    requires Skip(o, s, b, ParseValue(o, s, v, out).out) == Ok(c, ParseValue(o, s, v, out).out)
    ensures ReadsTo(ParseMemberValue(o, s, v, out, count), q)
    decreases q - v, 1
  {
    hide ParseMembers, ParseValue, Gap, Skip, IsMembers;
    var r1 := ParseValue(o, s, v, out);
    var e := EndObject(Increment(count));
    if Mark(s, c, 0x7D) {
      Emitted(o, e, r1.out, c + 1, c + 1);
    } else {
      var d: nat :| c < d < q && Gap(o, s, c + 1, d)
        && ((o.trailingCommas && Mark(s, d, 0x7D) && q == d + 1) || IsMembers(o, s, d, q));
      GapInside(o, s, c + 1, d);
      if IsMembers(o, s, d, q) { MembersBegin(o, s, d, q); }
      GapIsSkipped(o, s, c + 1, d, r1.out);
      if Mark(s, d, 0x7D) {
        Emitted(o, e, r1.out, d + 1, d);
      } else {
        MembersAreComplete(o, s, d, q, r1.out, Increment(count));
      }
    }
  }

  /**
   The theorem. For a handler that never declines: what either parser accepts is a JSON text, and every JSON text is
   accepted by both, unless a number in it is too big.
   */
  lemma {:induction false} AcceptsJson(o: Options, s: Text)
    requires Accepting(o) && !o.stopWhenDone
    ensures JsonGrammar.Parse(o, s).Ok? <==> JsonAutomaton.Parse(o, s).Ok?
    ensures JsonGrammar.Parse(o, s).Ok? ==> IsText(o, s)
    ensures IsText(o, s) ==> JsonGrammar.Parse(o, s).Ok? || JsonGrammar.Parse(o, s).error.code.NumberTooBig?
  {
    hide JsonGrammar.Parse, JsonAutomaton.Parse, IsText;
    JsonEquivalence.ParsersAgree(o, s);
    if JsonGrammar.Parse(o, s).Ok? { AcceptedIsText(o, s); }
    if IsText(o, s) { TextIsAccepted(o, s); }
  }

  lemma {:induction false} AcceptedIsText(o: Options, s: Text)
    requires !o.stopWhenDone && JsonGrammar.Parse(o, s).Ok?
    ensures IsText(o, s)
  {
    hide ParseValue, Skip, IsValue, Gap;
    SkippedIsGap(o, s, 0, []);
    var p := Skip(o, s, 0, []).pos;
    ValueIsSound(o, s, p, []);
    var r := ParseValue(o, s, p, []);
    SkippedIsGap(o, s, r.pos, r.out);
    var e := Skip(o, s, r.pos, r.out).pos;
    assert Gap(o, s, 0, p) && IsValue(o, s, p, r.pos) && Gap(o, s, r.pos, e);
  }

  lemma {:induction false} TextIsAccepted(o: Options, s: Text)
    requires Accepting(o) && !o.stopWhenDone && IsText(o, s)
    ensures JsonGrammar.Parse(o, s).Ok? || JsonGrammar.Parse(o, s).error.code.NumberTooBig?
  {
    hide ParseValue, Skip, IsValue, Gap;
    var p: nat, q: nat, e: nat :|
      Gap(o, s, 0, p) && IsValue(o, s, p, q) && Gap(o, s, q, e) && Peek(s, e) == NUL;
    GapInside(o, s, 0, p);
    GapInside(o, s, q, e);
    ValueBegins(o, s, p, q);
    GapIsSkipped(o, s, 0, p, []);
    if q < e { GapBegins(o, s, q, e); }
    ValueIsComplete(o, s, p, q, []);
    var r := ParseValue(o, s, p, []);
    if r.Ok? { GapIsSkipped(o, s, q, e, r.out); }
  }
}
