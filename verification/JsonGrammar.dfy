/**
 The recursive descent parser as a function: `ParseValue`, `ParseObject`, `ParseArray` and `Parse`.
 */
module JsonGrammar {
  import opened Bytes
  import opened JsonTypes
  import opened JsonLexical
  import opened JsonNumber

  const NULL_WORD: Text := [LOWER_N, LOWER_U, LOWER_L, LOWER_L]
  const TRUE_WORD: Text := [LOWER_T, LOWER_R, LOWER_U, LOWER_E]
  const FALSE_WORD: Text := [LOWER_F, LOWER_A, LOWER_L, LOWER_S, LOWER_E]

  /** `ParseValue` for everything but objects and arrays. */
  function ParseScalar(o: Options, s: Text, p: nat, out: seq<Event>): (r: Outcome)
    requires p <= |s|
    ensures r.Ok? ==> p < r.pos <= |s|
  {
    var c := Peek(s, p);
    if c == LOWER_N then ParseLiteral(o, s, p, NULL_WORD, Null, out)
    else if c == LOWER_T then ParseLiteral(o, s, p, TRUE_WORD, Bool(true), out)
    else if c == LOWER_F then ParseLiteral(o, s, p, FALSE_WORD, Bool(false), out)
    else if c == QUOTE then ParseString(o, s, p, false, out)
    else ParseNumber(o, s, p, out)
  }

  /** `ParseValue`. */
  function ParseValue(o: Options, s: Text, p: nat, out: seq<Event>): (r: Outcome)
    requires p <= |s|
    ensures r.Ok? ==> p < r.pos <= |s|
    decreases |s| - p, 2
  {
    var c := Peek(s, p);
    if c == LEFT_BRACE then ParseObject(o, s, p, out)
    else if c == LEFT_BRACKET then ParseArray(o, s, p, out)
    else ParseScalar(o, s, p, out)
  }

  /** `ParseObject`, up to the first member or the closing brace. */
  function ParseObject(o: Options, s: Text, p: nat, out: seq<Event>): (r: Outcome)
    requires p <= |s| && Peek(s, p) == LEFT_BRACE
    ensures r.Ok? ==> p < r.pos <= |s|
    decreases |s| - p, 1
  {
    var r1 := Emit(o, StartObject, out, p + 1, p + 1);
    if r1.Err? then r1 else
    var r2 := Skip(o, s, r1.pos, r1.out);
    if r2.Err? then r2
    else if Peek(s, r2.pos) == RIGHT_BRACE then Emit(o, EndObject(0), r1.out, r2.pos + 1, r2.pos + 1)
    else ParseMembers(o, s, r2.pos, r1.out, 0)
  }

  /** One turn of the member loop, with `count` members read before, and the turns after it. */
  function ParseMembers(o: Options, s: Text, p: nat, out: seq<Event>, count: nat): (r: Outcome)
    requires p <= |s|
    ensures r.Ok? ==> p < r.pos <= |s|
    decreases |s| - p, 0
  {
    if Peek(s, p) != QUOTE then Fail(ObjectMissName, p, out) else
    var r1 := ParseString(o, s, p, true, out);
    if r1.Err? then r1 else
    var r2 := Skip(o, s, r1.pos, r1.out);
    if r2.Err? then r2 else
    if Peek(s, r2.pos) != COLON then Fail(ObjectMissColon, r2.pos, r1.out) else
    var r3 := Skip(o, s, r2.pos + 1, r1.out);
    if r3.Err? then r3 else ParseMemberValue(o, s, r3.pos, r1.out, count)
  }

  /** The rest of the turn: the member's value, and the comma or brace behind it. */
  function ParseMemberValue(o: Options, s: Text, p: nat, out: seq<Event>, count: nat): (r: Outcome)
    requires p <= |s|
    ensures r.Ok? ==> p < r.pos <= |s|
    decreases |s| - p, 3
  {
    var r1 := ParseValue(o, s, p, out);
    if r1.Err? then r1 else
    var r2 := Skip(o, s, r1.pos, r1.out);
    if r2.Err? then r2 else
    var e := EndObject(Increment(count));
    if Peek(s, r2.pos) == RIGHT_BRACE then Emit(o, e, r1.out, r2.pos + 1, r2.pos + 1) else
    if Peek(s, r2.pos) != COMMA then Fail(ObjectMissCommaOrCurlyBracket, r2.pos, r1.out) else
    var r3 := Skip(o, s, r2.pos + 1, r1.out);
    if r3.Err? then r3
    else if o.trailingCommas && Peek(s, r3.pos) == RIGHT_BRACE then Emit(o, e, r1.out, r3.pos + 1, r3.pos)
    else ParseMembers(o, s, r3.pos, r1.out, Increment(count))
  }

  /** `ParseArray`, up to the first element or the closing bracket. */
  function ParseArray(o: Options, s: Text, p: nat, out: seq<Event>): (r: Outcome)
    requires p <= |s| && Peek(s, p) == LEFT_BRACKET
    ensures r.Ok? ==> p < r.pos <= |s|
    decreases |s| - p, 1
  {
    var r1 := Emit(o, StartArray, out, p + 1, p + 1);
    if r1.Err? then r1 else
    var r2 := Skip(o, s, r1.pos, r1.out);
    if r2.Err? then r2
    else if Peek(s, r2.pos) == RIGHT_BRACKET then Emit(o, EndArray(0), r1.out, r2.pos + 1, r2.pos + 1)
    else ParseElements(o, s, r2.pos, r1.out, 0)
  }

  /** One turn of the element loop, with `count` elements read before, and the turns after it. */
  function ParseElements(o: Options, s: Text, p: nat, out: seq<Event>, count: nat): (r: Outcome)
    requires p <= |s|
    ensures r.Ok? ==> p < r.pos <= |s|
    decreases |s| - p, 3
  {
    var r1 := ParseValue(o, s, p, out);
    if r1.Err? then r1 else
    var r2 := Skip(o, s, r1.pos, r1.out);
    if r2.Err? then r2 else
    var e := EndArray(Increment(count));
    if Peek(s, r2.pos) == RIGHT_BRACKET then Emit(o, e, r1.out, r2.pos + 1, r2.pos + 1) else
    if Peek(s, r2.pos) != COMMA then Fail(ArrayMissCommaOrSquareBracket, r2.pos, r1.out) else
    var r3 := Skip(o, s, r2.pos + 1, r1.out);
    if r3.Err? then r3
    else if o.trailingCommas && Peek(s, r3.pos) == RIGHT_BRACKET then Emit(o, e, r1.out, r3.pos + 1, r3.pos)
    else ParseElements(o, s, r3.pos, r1.out, Increment(count))
  }

  /** What follows the root value: nothing but white space and comments, unless the parser stops when done. */
  function Finish(o: Options, s: Text, p: nat, out: seq<Event>): (r: Outcome)
    requires p <= |s|
    ensures r.Ok? ==> p <= r.pos <= |s|
  {
    if o.stopWhenDone then Ok(p, out) else
    var r1 := Skip(o, s, p, out);
    if r1.Err? then r1
    else if Peek(s, r1.pos) != NUL then Fail(DocumentRootNotSingular, r1.pos, out)
    else r1
  }

  /** `Parse`, without kParseIterativeFlag. */
  function Parse(o: Options, s: Text): (r: Outcome)
    ensures r.Ok? ==> r.pos <= |s|
  {
    var r1 := Skip(o, s, 0, []);
    if r1.Err? then r1 else
    if Peek(s, r1.pos) == NUL then Fail(DocumentEmpty, r1.pos, []) else
    var r2 := ParseValue(o, s, r1.pos, []);
    if r2.Err? then r2 else Finish(o, s, r2.pos, r2.out)
  }
}
