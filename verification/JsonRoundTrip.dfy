/**
 Parsing undoes printing: for every tree of nulls, booleans, integers, strings, arrays and objects, both parsers
 accept the tree's text, whatever white space stands between its tokens, and the document they build is the tree.
 */
module JsonRoundTrip {
  import opened Bytes
  import opened Optional
  import opened Sequences
  import opened Decimal
  import opened JsonTypes
  import opened JsonLexical
  import opened JsonNumber
  import opened JsonGrammar
  import opened JsonValue
  import opened JsonPrint
  import opened JsonSpelling
  import Writer = JsonWriter
  import Strings = JsonStrings
  import Document = JsonDocument
  import JsonGaps
  import JsonAutomaton
  import JsonEquivalence
  import Utf8Properties

  // Integer literals

  /** A character that ends an integer literal. */
  predicate EndsLiteral(c: byte) {
    !IsDigit(c) && c != DOT && !IsExponentMark(c)
  }

  function Sign(minus: bool): Text {
    if minus then [MINUS] else []
  }

  /**
   For every integer literal of any length: its exact value is reported, as a 32-bit kind exactly when it
   fits, if it lies in [-2^63, 2^64), and the literal is handed over as a double if it does not.
   */
  lemma {:induction false} IntegerLiteral(o: Options, s: Text, p: nat, minus: bool, w: Text, out: seq<Event>)
    requires AllDigits(w) && |w| > 0 && (|w| > 1 ==> w[0] != ZERO)
    requires At(s, p, Sign(minus) + w) && EndsLiteral(Peek(s, p + |Sign(minus) + w|)) && !o.numbersAsStrings
    ensures p <= |s| && var end, v, lexeme := p + |Sign(minus) + w|, Decimal.Value(w), Sign(minus) + w;
            ParseNumber(o, s, p, out) ==
            if Fits64(minus, v) then Emit(o, IntegerEvent(minus, v), out, end, p)
            else if o.doubleOverflows(lexeme) then Fail(NumberTooBig, p, out)
            else Emit(o, Double(lexeme), out, end, p)
  {
    hide Decimal.Value, ScanInteger, FractionExponent, Emit;
    AtConcat(s, p, Sign(minus), w);
    var q := p + |Sign(minus)|;
    if minus { AtPeek(s, p, [MINUS], 0); }
    AtPeek(s, q, w, 0);
    IntegerPartOf(o, s, q, w);
  }

  /** The integer part of such a literal is all of it. */
  lemma IntegerPartOf(o: Options, s: Text, q: nat, w: Text)
    requires AllDigits(w) && |w| > 0 && (|w| > 1 ==> w[0] != ZERO)
    requires At(s, q, w) && EndsLiteral(Peek(s, q + |w|))
    ensures q <= |s| && ScanInteger(o, s, q) == IntegerPart.Decimal(q + |w|) && s[q..q + |w|] == w
  {
    hide DigitsEnd;
    AtPeek(s, q, w, 0);
    DigitsEndUnique(s, q, q + |w|);
    if w[0] == ZERO {
      assert |w| == 1;
    }
  }

  lemma IntegerReadsBack(o: Options, s: Text, p: nat, n: int, out: seq<Event>)
    requires InRange(n) && At(s, p, Writer.IntegerText(n)) && EndsLiteral(Peek(s, p + |Writer.IntegerText(n)|))
    requires !o.numbersAsStrings
    ensures p <= |s|
    ensures var end := p + |Writer.IntegerText(n)|;
            ParseNumber(o, s, p, out) == Emit(o, NumberEvent(n, Parsed), out, end, p)
  {
    hide ParseNumber, Decimal.Value, AllDigits;
    var m: nat := if n < 0 then -n else n;
    var w := Digits(m);
    NoLeadingZero(m);
    assert Writer.IntegerText(n) == Sign(n < 0) + w;
    IntegerLiteral(o, s, p, n < 0, w, out);
  }

  lemma {:induction false} NoLeadingZero(n: nat)
    ensures |Digits(n)| > 1 ==> Digits(n)[0] != ZERO
  {
    if n == 0 {
      assert Digits(n) == [ZERO];
    }
  }

  // Trees

  /** Trees whose text carries everything: no doubles, and strings the reader does not refuse. */
  predicate Textual(o: Options, v: Value) {
    match v
    case DoubleValue(_) => false
    case StringValue(str) => Strings.Readable(o, str, 0)
    case ArrayValue(elements) => forall e <- elements :: Textual(o, e)
    case ObjectValue(members) => forall m <- members :: Strings.Readable(o, m.name, 0) && Textual(o, m.value)
    case _ => true
  }

  /** All that is asked of a tree. */
  predicate Good(w: Writer.Style, o: Options, v: Value) {
    Sized(v) && Printable(w, v) && Textual(o, v)
  }

  predicate GoodMember(w: Writer.Style, o: Options, m: Member) {
    Writer.StringText(w, m.name).Some? && Strings.Readable(o, m.name, 0) && Good(w, o, m.value)
  }

  predicate AllGood(w: Writer.Style, o: Options, es: seq<Value>) {
    && (forall e <- es :: Sized(e))
    && (forall e <- es :: Printable(w, e))
    && (forall e <- es :: Textual(o, e))
  }

  predicate AllGoodMembers(w: Writer.Style, o: Options, ms: seq<Member>) {
    && (forall m <- ms :: Sized(m.value))
    && (forall m <- ms :: Writer.StringText(w, m.name).Some? && Printable(w, m.value))
    && (forall m <- ms :: Strings.Readable(o, m.name, 0) && Textual(o, m.value))
  }

  /** All that is asked of the reader: the handler never declines, and numbers are not handed over as strings. */
  ghost predicate Plain(o: Options) {
    !o.numbersAsStrings && forall out: seq<Event> :: o.accepts(out)
  }

  lemma Emits(o: Options, e: Event, out: seq<Event>, next: nat, at: nat)
    requires Plain(o)
    ensures Emit(o, e, out, next, at) == Ok(next, out + [e])
  {
    assert o.accepts(out + [e]);
  }

  /** What stands behind a value: white space, a comma, a closing bracket, or the end of the text. */
  predicate EndsValue(c: byte) {
    IsBlank(c) || c == COMMA || c == RIGHT_BRACKET || c == RIGHT_BRACE || c == NUL
  }

  /** A character nothing is skipped in front of. */
  predicate Solid(c: byte) {
    !IsBlank(c) && c != SLASH
  }

  /** White space is skipped, up to something solid. */
  lemma {:induction false} SkipsBlank(o: Options, s: Text, p: nat, q: nat, out: seq<Event>)
    requires Blank(s, p, q) && Solid(Peek(s, q))
    ensures Skip(o, s, p, out) == Ok(q, out)
    decreases q - p
  {
    JsonGaps.BlankIsRead(s, p, q);
  }

  /** No value begins with white space, a slash or punctuation. */
  lemma {:induction false} FirstCharacter(w: Writer.Style, o: Options, v: Value)
    requires Good(w, o, v)
    ensures var t := TextOf(w, v);
            t != [] && Solid(t[0]) && t[0] != NUL && !JsonEquivalence.IsPunctuation(t[0])
  {
    hide Writer.WriteChars, ElementsText, MembersText, Sized;
    if v.IntegerValue? {
      var d := Digits(if v.n < 0 then -v.n else v.n);
      assert IsDigit(d[0]);
    }
  }

  lemma LiteralReadsBack(o: Options, s: Text, p: nat, word: Text, e: Event, out: seq<Event>)
    requires Plain(o) && |word| > 0 && NUL !in word && At(s, p, word)
    ensures p <= |s| && Peek(s, p) == word[0]
    ensures ParseLiteral(o, s, p, word, e, out) == Ok(p + |word|, out + [e])
  {
    AtPeek(s, p, word, 0);
    var k := MatchLength(s, p, word);
    forall i: nat | i < |word| ensures Peek(s, p + i) == word[i] { AtPeek(s, p, word, i); }
    Emits(o, e, out, p + k, p + k);
  }

  lemma {:induction false} ScalarReadsBack(w: Writer.Style, o: Options, s: Text, p: nat, v: Value, out: seq<Event>)
    requires Plain(o) && Good(w, o, v) && !v.ArrayValue? && !v.ObjectValue?
    requires At(s, p, TextOf(w, v)) && EndsValue(Peek(s, p + |TextOf(w, v)|))
    ensures p <= |s| && ParseScalar(o, s, p, out) == Ok(p + |TextOf(w, v)|, out + Events(v, Parsed))
    ensures Peek(s, p) != LEFT_BRACE && Peek(s, p) != LEFT_BRACKET
  {
    hide ParseLiteral, ParseNumber, ParseString, Plain, Writer.StringText, Writer.IntegerText, NumberEvent;
    match v
    case NullValue => LiteralReadsBack(o, s, p, NULL_WORD, Null, out);
    case BoolValue(b) => LiteralReadsBack(o, s, p, if b then TRUE_WORD else FALSE_WORD, Bool(b), out);
    case IntegerValue(n) => NumberReadsBack(o, s, p, n, out);
    case StringValue(str) => TextReadsBack(w, o, s, p, str, false, out);
  }

  lemma NumberReadsBack(o: Options, s: Text, p: nat, n: int, out: seq<Event>)
    requires Plain(o) && InRange(n) && At(s, p, Writer.IntegerText(n))
             && EndsValue(Peek(s, p + |Writer.IntegerText(n)|))
    ensures p <= |s| && (Peek(s, p) == MINUS || IsDigit(Peek(s, p)))
    ensures ParseNumber(o, s, p, out) == Ok(p + |Writer.IntegerText(n)|, out + [NumberEvent(n, Parsed)])
  {
    hide ParseNumber, Emit, NumberEvent, Writer.IntegerText;
    IntegerReadsBack(o, s, p, n, out);
    IntegerBegins(n);
    AtPeek(s, p, Writer.IntegerText(n), 0);
    Emits(o, NumberEvent(n, Parsed), out, p + |Writer.IntegerText(n)|, p);
  }

  lemma TextReadsBack(w: Writer.Style, o: Options, s: Text, p: nat, str: Text, isKey: bool, out: seq<Event>)
    requires Plain(o) && Strings.Readable(o, str, 0) && Writer.StringText(w, str).Some?
    requires At(s, p, Writer.StringText(w, str).value)
    ensures p < |s| && Peek(s, p) == QUOTE
    ensures ParseString(o, s, p, isKey, out)
         == Ok(p + |Writer.StringText(w, str).value|, out + [if isKey then Key(str) else String(str)])
  {
    hide Writer.StringText, ScanString, Emit;
    Utf8Properties.DecodableIffWellFormed(str);
    Strings.StringReadsBack(w, o, s, p, str);
    var end := p + |Writer.StringText(w, str).value|;
    Emits(o, if isKey then Key(str) else String(str), out, end, end);
  }

  lemma IntegerBegins(n: int)
    ensures var t := Writer.IntegerText(n); |t| > 0 && (t[0] == MINUS || IsDigit(t[0]))
  {
    var d := Digits(if n < 0 then -n else n);
    assert IsDigit(d[0]);
  }

  /** A spelled value begins with its first character. */
  lemma {:induction false} Begins(w: Writer.Style, o: Options, v: Value, s: Text, p: nat, q: nat)
    requires Good(w, o, v) && Spells(w, v, s, p, q)
    ensures p < |s| && Solid(Peek(s, p)) && Peek(s, p) != NUL && !JsonEquivalence.IsPunctuation(Peek(s, p))
  {
    hide TextOf, SpellsElements, SpellsMembers;
    if v.ArrayValue? {
      AtPeek(s, p, [LEFT_BRACKET], 0);
    } else if v.ObjectValue? {
      AtPeek(s, p, [LEFT_BRACE], 0);
    } else {
      FirstCharacter(w, o, v);
      AtPeek(s, p, TextOf(w, v), 0);
    }
  }

  /** Main induction: a text that spells a value is parsed to the value's events. */
  lemma {:induction false} ValueReadsBack(w: Writer.Style, o: Options, s: Text, p: nat, q: nat, v: Value,
                                          out: seq<Event>)
    requires Plain(o) && Good(w, o, v) && Spells(w, v, s, p, q) && EndsValue(Peek(s, q))
    ensures p <= |s| && ParseValue(o, s, p, out) == Ok(q, out + Events(v, Parsed))
    decreases v, 1
  {
    hide ParseScalar, Skip, Plain, SpellsElements, SpellsMembers, ElementEvents, MemberEvents, ParseElements,
         ParseMembers;
    if v.ArrayValue? {
      ArrayReadsBack(w, o, s, p, q, v, out);
    } else if v.ObjectValue? {
      ObjectReadsBack(w, o, s, p, q, v, out);
    } else {
      ScalarReadsBack(w, o, s, p, v, out);
    }
  }

  lemma {:induction false} ArrayReadsBack(w: Writer.Style, o: Options, s: Text, p: nat, q: nat, v: Value,
                                          out: seq<Event>)
    requires Plain(o) && Good(w, o, v) && v.ArrayValue? && Spells(w, v, s, p, q)
    ensures p <= |s| && Peek(s, p) == LEFT_BRACKET
    ensures ParseArray(o, s, p, out) == Ok(q, out + Events(v, Parsed))
    decreases v, 0
  {
    hide Skip, Plain, SpellsElements, ElementEvents, ParseElements, Events;
    var es := v.elements;
    ArrayUnfolds(w, o, v);
    AtPeek(s, p, [LEFT_BRACKET], 0);
    var out1 := out + [StartArray];
    Emits(o, StartArray, out, p + 1, p + 1);
    if es == [] {
      EmptyCloses(w, o, s, p + 1, q, true, out1);
      Emits(o, EndArray(0), out1, q, q);
    } else {
      ElementsReadBack(w, o, s, p + 1, q, es, 0, out1);
    }
    Regroup4(out, [StartArray], ElementEvents(es, 0, Parsed), [EndArray(|es|)]);
  }

  /** White space and a closing bracket. */
  lemma {:induction false} EmptyCloses(w: Writer.Style, o: Options, s: Text, p: nat, q: nat, isArray: bool,
                                       out: seq<Event>)
    requires if isArray then SpellsElements(w, [], 0, s, p, q) else SpellsMembers(w, [], 0, s, p, q)
    ensures p < q <= |s| && Peek(s, q - 1) == (if isArray then RIGHT_BRACKET else RIGHT_BRACE)
    ensures Skip(o, s, p, out) == Ok(q - 1, out)
  {
    hide Skip;
    var right := if isArray then RIGHT_BRACKET else RIGHT_BRACE;
    var c: nat :| Blank(s, p, c) && Token(s, c, q, [right]);
    AtPeek(s, c, [right], 0);
    SkipsBlank(o, s, p, c, out);
  }

  /** What the events of an array are made of. */
  lemma {:induction false} ArrayUnfolds(w: Writer.Style, o: Options, v: Value)
    requires Good(w, o, v) && v.ArrayValue?
    ensures |v.elements| < SIZE_TYPE && AllGood(w, o, v.elements)
    ensures Events(v, Parsed) == [StartArray] + ElementEvents(v.elements, 0, Parsed) + [EndArray(|v.elements|)]
    ensures v.elements == [] ==> ElementEvents(v.elements, 0, Parsed) == []
  {
  }

  /** From the gap in front of an element on: white space is skipped, and the loop reads to behind the bracket. */
  lemma {:induction false} ElementsReadBack(w: Writer.Style, o: Options, s: Text, p: nat, q: nat, es: seq<Value>,
                                            k: nat,
                                            out: seq<Event>)
    requires Plain(o) && k < |es| < SIZE_TYPE && AllGood(w, o, es) && SpellsElements(w, es, k, s, p, q)
    ensures p <= |s|
    ensures var r := Skip(o, s, p, out);
            && r.Ok? && Peek(s, r.pos) != RIGHT_BRACKET
            && ParseElements(o, s, r.pos, out, k) == Ok(q, out + ElementEvents(es, k, Parsed) + [EndArray(|es|)])
    decreases es, |es| - k
  {
    hide Skip, Plain, ElementEvents, ParseValue, Spells, Events, At, Peek, Emit, Blank;
    var a: nat, b: nat, c: nat :|
      && Blank(s, p, a) && Spells(w, es[k], s, a, b) && Blank(s, b, c)
      && if k + 1 == |es| then Token(s, c, q, [RIGHT_BRACKET])
         else Token(s, c, c + 1, [COMMA]) && SpellsElements(w, es, k + 1, s, c + 1, q);
    var out1 := out + Events(es[k], Parsed);
    Begins(w, o, es[k], s, a, b);
    SkipsBlank(o, s, p, a, out);
    Separates(o, s, b, c, if k + 1 == |es| then RIGHT_BRACKET else COMMA, out1);
    ValueReadsBack(w, o, s, a, b, es[k], out);
    ElementEventsUnfold(es, k);
    if k + 1 == |es| {
      Emits(o, EndArray(|es|), out1, q, q);
      assert out + ElementEvents(es, k, Parsed) == out1;
    } else {
      ElementsReadBack(w, o, s, c + 1, q, es, k + 1, out1);
      Regroup4(out, Events(es[k], Parsed), ElementEvents(es, k + 1, Parsed), []);
    }
  }

  /** White space behind a value, and what separates it from the next or closes the container. */
  lemma Separates(o: Options, s: Text, b: nat, c: nat, mark: byte, out: seq<Event>)
    requires Blank(s, b, c) && Token(s, c, c + 1, [mark]) && mark in {COMMA, COLON, RIGHT_BRACKET, RIGHT_BRACE}
    ensures c < |s| && Peek(s, c) == mark && Skip(o, s, b, out) == Ok(c, out)
    ensures mark != COLON ==> EndsValue(Peek(s, b))
  {
    hide Skip;
    AtPeek(s, c, [mark], 0);
    SkipsBlank(o, s, b, c, out);
    if b < c { assert s[b] == s[b..c][0]; }
  }

  lemma ElementEventsUnfold(es: seq<Value>, k: nat)
    requires k < |es| && forall e <- es :: Sized(e)
    ensures ElementEvents(es, k, Parsed) == Events(es[k], Parsed) + ElementEvents(es, k + 1, Parsed)
    ensures k + 1 == |es| ==> ElementEvents(es, k, Parsed) == Events(es[k], Parsed)
  {
  }

  lemma {:induction false} ObjectReadsBack(w: Writer.Style, o: Options, s: Text, p: nat, q: nat, v: Value,
                                           out: seq<Event>)
    requires Plain(o) && Good(w, o, v) && v.ObjectValue? && Spells(w, v, s, p, q)
    ensures p <= |s| && Peek(s, p) == LEFT_BRACE
    ensures ParseObject(o, s, p, out) == Ok(q, out + Events(v, Parsed))
    decreases v, 0
  {
    hide Skip, Plain, SpellsMembers, MemberEvents, ParseMembers, Events;
    var ms := v.members;
    ObjectUnfolds(w, o, v);
    AtPeek(s, p, [LEFT_BRACE], 0);
    var out1 := out + [StartObject];
    Emits(o, StartObject, out, p + 1, p + 1);
    if ms == [] {
      EmptyCloses(w, o, s, p + 1, q, false, out1);
      Emits(o, EndObject(0), out1, q, q);
    } else {
      MembersReadBack(w, o, s, p + 1, q, ms, 0, out1);
    }
    Regroup4(out, [StartObject], MemberEvents(ms, 0, Parsed), [EndObject(|ms|)]);
  }

  lemma {:induction false} ObjectUnfolds(w: Writer.Style, o: Options, v: Value)
    requires Good(w, o, v) && v.ObjectValue?
    ensures |v.members| < SIZE_TYPE && AllGoodMembers(w, o, v.members)
    ensures Events(v, Parsed) == [StartObject] + MemberEvents(v.members, 0, Parsed) + [EndObject(|v.members|)]
    ensures v.members == [] ==> MemberEvents(v.members, 0, Parsed) == []
  {
  }

  /** From the gap in front of a member on. */
  lemma {:induction false} MembersReadBack(w: Writer.Style, o: Options, s: Text, p: nat, q: nat, ms: seq<Member>,
                                           k: nat,
                                           out: seq<Event>)
    requires Plain(o) && k < |ms| < SIZE_TYPE && AllGoodMembers(w, o, ms) && SpellsMembers(w, ms, k, s, p, q)
    ensures p <= |s|
    ensures var r := Skip(o, s, p, out);
            && r.Ok? && Peek(s, r.pos) == QUOTE
            && ParseMembers(o, s, r.pos, out, k) == Ok(q, out + MemberEvents(ms, k, Parsed) + [EndObject(|ms|)])
    decreases ms, |ms| - k
  {
    hide Skip, Plain, MemberEvents, ParseValue, SpellsMember, Events, At, Peek, ParseString, Emit, Blank, EndsValue,
         Writer.StringText;
    var m := ms[k];
    var a: nat, b: nat, c: nat :|
      && Blank(s, p, a) && SpellsMember(w, m, s, a, b) && Blank(s, b, c)
      && if k + 1 == |ms| then Token(s, c, q, [RIGHT_BRACE])
         else Token(s, c, c + 1, [COMMA]) && SpellsMembers(w, ms, k + 1, s, c + 1, q);
    var out1 := out + [Key(m.name)] + Events(m.value, Parsed);
    Separates(o, s, b, c, if k + 1 == |ms| then RIGHT_BRACE else COMMA, out1);
    MemberReadsBack(w, o, s, a, b, m, k, out);
    SkipsBlank(o, s, p, a, out);
    MemberEventsUnfold(ms, k, out);
    if k + 1 == |ms| {
      Emits(o, EndObject(|ms|), out1, q, q);
    } else {
      MembersReadBack(w, o, s, c + 1, q, ms, k + 1, out1);
    }
  }

  lemma MemberEventsUnfold(ms: seq<Member>, k: nat, out: seq<Event>)
    requires k < |ms| && forall m <- ms :: Sized(m.value)
    ensures var out1 := out + [Key(ms[k].name)] + Events(ms[k].value, Parsed);
            && out + MemberEvents(ms, k, Parsed) == out1 + MemberEvents(ms, k + 1, Parsed)
            && (k + 1 == |ms| ==> out + MemberEvents(ms, k, Parsed) == out1)
  {
    hide Events;
    MemberEventsStep(ms, k, Parsed);
    Regroup4(out, [Key(ms[k].name)], Events(ms[k].value, Parsed), MemberEvents(ms, k + 1, Parsed));
  }

  /** One turn of the member loop, up to the value's end. */
  lemma {:induction false} MemberReadsBack(w: Writer.Style, o: Options, s: Text, p: nat, q: nat, m: Member, k: nat,
                                           out: seq<Event>)
    requires Plain(o) && GoodMember(w, o, m) && SpellsMember(w, m, s, p, q) && EndsValue(Peek(s, q))
    ensures p <= |s| && Peek(s, p) == QUOTE
    ensures exists p2: nat :: p2 <= |s|
              && ParseMembers(o, s, p, out, k) == ParseMemberValue(o, s, p2, out + [Key(m.name)], k)
              && ParseValue(o, s, p2, out + [Key(m.name)]) == Ok(q, out + [Key(m.name)] + Events(m.value, Parsed))
    decreases m, 1
  {
    hide Skip, Plain, ParseValue, Spells, Events, ParseMemberValue, ParseString, At, Writer.StringText, Blank;
    var name := Writer.StringText(w, m.name).value;
    var a: nat, b: nat, c: nat :|
      && Token(s, p, a, name) && Blank(s, a, b) && Token(s, b, b + 1, [COLON]) && Blank(s, b + 1, c)
      && Spells(w, m.value, s, c, q);
    var out1 := out + [Key(m.name)];
    TextReadsBack(w, o, s, p, m.name, true, out);
    Separates(o, s, a, b, COLON, out1);
    Begins(w, o, m.value, s, c, q);
    SkipsBlank(o, s, b + 1, c, out1);
    ValueReadsBack(w, o, s, c, q, m.value, out1);
    assert ParseMembers(o, s, p, out, k) == ParseMemberValue(o, s, c, out1, k);
  }

  /**
   The theorem. Every text that spells a tree, with white space of any kind and length between its tokens and around
   it, is accepted by both parsers to its last byte, and the events they send leave the document with exactly that
   tree as its one root.
   */
  lemma {:induction false} SpelledReadsBack(w: Writer.Style, o: Options, v: Value, s: Text, p: nat, q: nat)
    requires Plain(o) && Good(w, o, v) && Blank(s, 0, p) && Spells(w, v, s, p, q) && Blank(s, q, |s|)
    ensures JsonGrammar.Parse(o, s) == JsonAutomaton.Parse(o, s)
    ensures JsonAutomaton.Parse(o, s) == Ok(if o.stopWhenDone then q else |s|, Events(v, Parsed))
    ensures Document.Build(JsonGrammar.Parse(o, s).out) == Some([v])
  {
    hide Spells, ParseValue, Skip, Events, Plain, Document.Build, Blank;
    Begins(w, o, v, s, p, q);
    SkipsBlank(o, s, 0, p, []);
    EndsInBlank(s, q);
    ValueReadsBack(w, o, s, p, q, v, []);
    assert [] + Events(v, Parsed) == Events(v, Parsed);
    SkipsBlank(o, s, q, |s|, Events(v, Parsed));
    Agree(o, s);
    EventsBuildTree(v);
  }

  lemma EndsInBlank(s: Text, q: nat)
    requires Blank(s, q, |s|)
    ensures EndsValue(Peek(s, q)) && Peek(s, |s|) == NUL
  {
    if q < |s| { assert s[q] == s[q..][0]; }
  }

  /** Whatever texts of white space a printer puts between the tokens, in front of the tree and behind it. */
  lemma {:induction false} SpacedReadsBack(w: Writer.Style, o: Options, g: Gaps, front: Text, back: Text, v: Value)
    requires Plain(o) && Good(w, o, v) && AllGapsBlank(g) && AllBlank(front) && AllBlank(back)
    ensures var s := front + SpacedText(w, g, [], v) + back;
            && JsonGrammar.Parse(o, s) == JsonAutomaton.Parse(o, s)
            && JsonAutomaton.Parse(o, s)
               == Ok(if o.stopWhenDone then |s| - |back| else |s|, Events(v, Parsed))
            && Document.Build(JsonGrammar.Parse(o, s).out) == Some([v])
  {
    hide Spells, SpacedText, JsonGrammar.Parse, JsonAutomaton.Parse, Events, Plain, Document.Build;
    var text := SpacedText(w, g, [], v);
    var s, p, q := front + text + back, |front|, |front| + |text|;
    assert s[0..p] == front && s[p..q] == text && s[q..|s|] == back;
    PrintedSpells(w, g, [], v, s, p);
    SpelledReadsBack(w, o, v, s, p, q);
  }

  /**
   The theorem. For every tree, either target encoding, and every setting of the flags that leaves numbers
   numbers: the writer, driven by `Accept`, prints a text that both parsers accept to its last byte,
   and the events they send leave the document with exactly that tree as its one root.
   */
  lemma {:induction false} ParsingUndoesPrinting(w: Writer.Style, o: Options, v: Value)
    requires Plain(o) && Good(w, o, v)
    ensures var text := TextOf(w, v);
            && Writer.Run(w, Events(v, Accepted)) == Some(Writer.State(text, [], true))
            && JsonGrammar.Parse(o, text) == JsonAutomaton.Parse(o, text) == Ok(|text|, Events(v, Parsed))
            && Document.Build(JsonGrammar.Parse(o, text).out) == Some([v])
  {
    hide TextOf, Spells, SpacedText, Events, Plain, Writer.Run, Document.Build, JsonGrammar.Parse, JsonAutomaton.Parse;
    var text := TextOf(w, v);
    AcceptPrints(w, v);
    CompactText(w, [], v);
    assert At(text, 0, text) && Blank(text, 0, 0) && Blank(text, |text|, |text|);
    PrintedSpells(w, NO_GAPS, [], v, text, 0);
    SpelledReadsBack(w, o, v, text, 0, |text|);
  }

  lemma Agree(o: Options, text: Text)
    requires Plain(o) && !JsonEquivalence.IsPunctuation(JsonEquivalence.FirstChar(o, text))
    ensures JsonGrammar.Parse(o, text) == JsonAutomaton.Parse(o, text)
  {
    hide JsonGrammar.Parse, JsonAutomaton.Parse, JsonEquivalence.FirstChar;
    JsonEquivalence.SameForAcceptingHandler(o, text);
  }

  lemma {:induction false} EventsBuildTree(v: Value)
    requires Sized(v)
    ensures Document.Build(Events(v, Parsed)) == Some([v])
  {
    hide Events;
    Document.EventsBuild(v, Parsed, [], []);
    assert [] + Events(v, Parsed) == Events(v, Parsed);
    assert [] + [v] == [v];
  }
}
