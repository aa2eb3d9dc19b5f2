/**
 Whatever the text, the document's stack never underflows and never finds a name that is no string,
 and if the reader accepts the text, exactly one root is left: the assertions of `ParseStream`,
 `EndObject` and `EndArray` hold. The condition is that no container has 2^32 entries, since counts wrap there.
 */
module JsonDocumentSafety {
  import opened Bytes
  import opened JsonTypes
  import opened JsonLexical
  import opened JsonNumber
  import opened JsonGrammar
  import opened JsonValue
  import opened JsonDocument
  import opened JsonCounts
  import opened Optional
  import JsonAutomaton
  import JsonEquivalence

  /** The events so far have pushed one more value on `stack`. */
  ghost predicate OnTop(out: seq<Event>, stack: seq<Value>) {
    exists v: Value :: Build(out) == Some(stack + [v])
  }

  /** No assertion has failed, and an accepted piece of text has pushed its value. */
  ghost predicate Pushes(r: Outcome, stack: seq<Value>) {
    && Build(r.out).Some?
    && (r.Ok? ==> OnTop(r.out, stack))
  }

  /** The same, as long as the entries of all containers can be counted. */
  ghost predicate PushesIfFits(r: Outcome, stack: seq<Value>) {
    Fits(r.out) ==> Pushes(r, stack)
  }

  lemma {:induction false} ScalarPushes(o: Options, s: Text, p: nat, out: seq<Event>, stack: seq<Value>)
    requires p <= |s| && Build(out) == Some(stack)
    ensures Pushes(ParseScalar(o, s, p, out), stack)
  {
    hide ParseScalar, Build, Handle;
    ScalarSendsOne(o, s, p, out);
    var r := ParseScalar(o, s, p, out);
    if r.out != out {
      var e := r.out[|out|];
      assert r.out == out + [e];
      BuildStep(out, e);
      PushesOne(stack, e);
    }
  }

  lemma PushesOne(stack: seq<Value>, e: Event)
    requires !e.EndObject? && !e.EndArray?
    ensures exists v: Value :: Handle(stack, e) == Some(stack + [v])
  {
    match e
    case Null => assert Handle(stack, e) == Some(stack + [NullValue]);
    case Bool(b) => assert Handle(stack, e) == Some(stack + [BoolValue(b)]);
    case Int(i) => assert Handle(stack, e) == Some(stack + [IntegerValue(i)]);
    case Uint(u) => assert Handle(stack, e) == Some(stack + [IntegerValue(u)]);
    case Int64(i64) => assert Handle(stack, e) == Some(stack + [IntegerValue(i64)]);
    case Uint64(u64) => assert Handle(stack, e) == Some(stack + [IntegerValue(u64)]);
    case Double(lexeme) => assert Handle(stack, e) == Some(stack + [DoubleValue(lexeme)]);
    case RawNumber(lexeme) => assert Handle(stack, e) == Some(stack + [StringValue(lexeme)]);
    case String(str) => assert Handle(stack, e) == Some(stack + [StringValue(str)]);
    case Key(str) => assert Handle(stack, e) == Some(stack + [StringValue(str)]);
    case StartObject => assert Handle(stack, e) == Some(stack + [ObjectValue([])]);
    case StartArray => assert Handle(stack, e) == Some(stack + [ArrayValue([])]);
  }

  lemma {:induction false} ValuePushes(o: Options, s: Text, p: nat, out: seq<Event>, stack: seq<Value>)
    requires p <= |s| && Build(out) == Some(stack)
    ensures PushesIfFits(ParseValue(o, s, p, out), stack)
    decreases |s| - p, 2
  {
    hide ParseScalar, Skip, Build, Handle;
    var c := Peek(s, p);
    if c == LEFT_BRACE {
      ObjectPushes(o, s, p, out, stack);
    } else if c == LEFT_BRACKET {
      ArrayPushes(o, s, p, out, stack);
    } else {
      ScalarPushes(o, s, p, out, stack);
    }
  }

  /** The closing brace of an object whose members lie on the stack. */
  lemma {:induction false} ObjectOnTop(out: seq<Event>, stack: seq<Value>, members: seq<Member>)
    requires Build(out) == Some(stack + [ObjectValue([])] + Flat(members, |members|))
    ensures Build(out + [EndObject(|members|)]).Some? && OnTop(out + [EndObject(|members|)], stack)
  {
    hide Build, Handle, Flat;
    BuildStep(out, EndObject(|members|));
    CloseObject(stack, members);
  }

  lemma {:induction false} ArrayOnTop(out: seq<Event>, stack: seq<Value>, elements: seq<Value>)
    requires Build(out) == Some(stack + [ArrayValue([])] + elements)
    ensures Build(out + [EndArray(|elements|)]).Some? && OnTop(out + [EndArray(|elements|)], stack)
  {
    hide Build, Handle;
    BuildStep(out, EndArray(|elements|));
    CloseArray(stack, elements);
  }

  lemma {:induction false} ObjectPushes(o: Options, s: Text, p: nat, out: seq<Event>, stack: seq<Value>)
    requires p <= |s| && Peek(s, p) == LEFT_BRACE && Build(out) == Some(stack)
    ensures PushesIfFits(ParseObject(o, s, p, out), stack)
    decreases |s| - p, 1
  {
    hide ParseScalar, Skip, Build, Handle, Flat, OnTop, Fits, Entries;
    BuildStep(out, StartObject);
    JsonDocument.Opens(stack);
    JsonCounts.Opens(out, StartObject);
    var out1 := out + [StartObject];
    NoMembers(stack);
    var r2 := Skip(o, s, p + 1, out1);
    if r2.Ok? {
      ObjectOnTop(out1, stack, []);
      if Peek(s, r2.pos) != RIGHT_BRACE {
        MembersPush(o, s, r2.pos, out1, stack, [], Entries(out));
      }
    }
  }

  lemma NoMembers(stack: seq<Value>)
    ensures stack + [ObjectValue([])] + Flat([], 0) == stack + [ObjectValue([])]
    ensures stack + [ArrayValue([])] + [] == stack + [ArrayValue([])]
  {
  }

  /** The name and the value of one more member. */
  lemma {:induction false} AnotherMember(out: seq<Event>, name: Text, stack: seq<Value>, members: seq<Member>,
                                         next: seq<Event>)
    requires Build(out) == Some(stack + [ObjectValue([])] + Flat(members, |members|))
    requires OnTop(next, stack + [ObjectValue([])] + Flat(members, |members|) + [StringValue(name)])
    ensures exists v: Value ::
              var members1 := members + [Member(name, v)];
              Build(next) == Some(stack + [ObjectValue([])] + Flat(members1, |members1|))
  {
    hide Build, Flat;
    var base := stack + [ObjectValue([])];
    var v: Value :| Build(next) == Some(base + Flat(members, |members|) + [StringValue(name)] + [v]);
    var members1 := members + [Member(name, v)];
    FlatPrefix(members, members1, |members|);
    FlatStep(members1, |members|, base);
  }

  lemma {:induction false} FlatPrefix(a: seq<Member>, b: seq<Member>, k: nat)
    requires k <= |a| <= |b| && a == b[..|a|]
    ensures Flat(a, k) == Flat(b, k)
  {
    if k > 0 {
      FlatPrefix(a, b, k - 1);
      assert a[k - 1] == b[k - 1];
    }
  }

  lemma {:induction false} MembersPush(o: Options, s: Text, p: nat, out: seq<Event>, stack: seq<Value>,
                                       members: seq<Member>, open: seq<nat>)
    requires |members| <= p <= |s| && open != [] && Entries(out) == open + [|members|]
    requires Build(out) == Some(stack + [ObjectValue([])] + Flat(members, |members|))
    ensures PushesIfFits(ParseMembers(o, s, p, out, |members| % SIZE_TYPE), stack)
    decreases |s| - p, 0
  {
    hide ParseScalar, Skip, Build, Handle, Flat, OnTop, ScanString, Fits, Entries;
    if Peek(s, p) == QUOTE && ScanString(o, s, p + 1, []).Scanned? {
      var r1 := ParseString(o, s, p, true, out);
      var name := ScanString(o, s, p + 1, []).str;
      assert r1.out == out + [Key(name)];
      BuildStep(out, Key(name));
      OneMore(out, Key(name));
      Names(stack + [ObjectValue([])] + Flat(members, |members|), name);
      if r1.Ok? {
        var r2 := Skip(o, s, r1.pos, r1.out);
        if r2.Ok? && Peek(s, r2.pos) == COLON {
          var r3 := Skip(o, s, r2.pos + 1, r1.out);
          if r3.Ok? {
            MemberValuePushes(o, s, r3.pos, out, name, stack, members, open);
          }
        }
      }
    }
  }

  lemma Names(base: seq<Value>, name: Text)
    ensures Handle(base, Key(name)) == Some(base + [StringValue(name)])
  {
  }

  /** Whatever comes behind a member's value is sent behind its events. */
  lemma {:induction false} BehindMemberValue(o: Options, s: Text, p: nat, out: seq<Event>, open: seq<nat>, k: nat)
    requires k < p <= |s| && open != [] && Entries(out) == open + [k]
    ensures ParseValue(o, s, p, out).out <= ParseMemberValue(o, s, p, out, k % SIZE_TYPE).out
    ensures ParseValue(o, s, p, out).Err? ==> ParseMemberValue(o, s, p, out, k % SIZE_TYPE) == ParseValue(o, s, p, out)
    ensures ParseValue(o, s, p, out).Ok? ==> Entries(ParseValue(o, s, p, out).out) == open + [k + 1]
  {
    hide ParseValue, Skip, Entries, Fits, Depth;
    ValueCounts(o, s, p, out);
    NextEntry(open, k);
    var r1 := ParseValue(o, s, p, out);
    if r1.Ok? {
      var r2 := Skip(o, s, r1.pos, r1.out);
      if r2.Ok? && Peek(s, r2.pos) == COMMA {
        var r3 := Skip(o, s, r2.pos + 1, r1.out);
        if r3.Ok? {
          MembersCount(o, s, r3.pos, r1.out, open, k + 1);
        }
      }
    }
  }

  lemma {:induction false} MemberValuePushes(o: Options, s: Text, p: nat, out: seq<Event>, name: Text,
                                             stack: seq<Value>, members: seq<Member>, open: seq<nat>)
    requires |members| < p <= |s| && open != [] && Entries(out + [Key(name)]) == open + [|members|]
    requires Build(out) == Some(stack + [ObjectValue([])] + Flat(members, |members|))
    requires Build(out + [Key(name)])
             == Some(stack + [ObjectValue([])] + Flat(members, |members|) + [StringValue(name)])
    ensures PushesIfFits(ParseMemberValue(o, s, p, out + [Key(name)], |members| % SIZE_TYPE), stack)
    decreases |s| - p, 3
  {
    hide ParseMemberValue, ParseValue, Skip, Build, Handle, Flat, OnTop, Fits, Entries;
    var out0 := out + [Key(name)];
    ValuePushes(o, s, p, out0, stack + [ObjectValue([])] + Flat(members, |members|) + [StringValue(name)]);
    BehindMemberValue(o, s, p, out0, open, |members|);
    var r, r1 := ParseMemberValue(o, s, p, out0, |members| % SIZE_TYPE), ParseValue(o, s, p, out0);
    if Fits(r.out) {
      PrefixFits(r1.out, r.out);
      if r1.Ok? {
        AnotherMember(out, name, stack, members, r1.out);
        var v: Value :| var members1 := members + [Member(name, v)];
                  Build(r1.out) == Some(stack + [ObjectValue([])] + Flat(members1, |members1|));
        var members1 := members + [Member(name, v)];
        MemberEnds(o, s, p, out0, stack, members1, open);
      }
    }
  }

  /** The comma or brace behind a member. */
  lemma {:induction false} MemberEnds(o: Options, s: Text, p: nat, out: seq<Event>, stack: seq<Value>,
                                      members: seq<Member>, open: seq<nat>)
    requires 0 < |members| <= p <= |s| && open != []
    requires var r1 := ParseValue(o, s, p, out);
             r1.Ok? && Build(r1.out) == Some(stack + [ObjectValue([])] + Flat(members, |members|))
             && Entries(r1.out) == open + [|members|]
    ensures PushesIfFits(ParseMemberValue(o, s, p, out, (|members| - 1) % SIZE_TYPE), stack)
    decreases |s| - p, 2
  {
    hide ParseValue, Skip, Build, Handle, Flat, OnTop, Fits, Entries;
    var r1 := ParseValue(o, s, p, out);
    NextEntry(open, |members| - 1);
    Closes(s, r1.out, open, |members|, EndObject(|members| % SIZE_TYPE));
    ObjectOnTop(r1.out, stack, members);
    var r2 := Skip(o, s, r1.pos, r1.out);
    if r2.Ok? && Peek(s, r2.pos) == COMMA {
      var r3 := Skip(o, s, r2.pos + 1, r1.out);
      if r3.Ok? && !(o.trailingCommas && Peek(s, r3.pos) == RIGHT_BRACE) {
        MembersPush(o, s, r3.pos, r1.out, stack, members, open);
      }
    }
  }

  /** An opening bracket, on which the elements, none of them so far, or the closing bracket follow. */
  lemma {:induction false} ArrayStarts(out: seq<Event>, stack: seq<Value>, elements: seq<Value>)
    requires Build(out) == Some(stack) && elements == []
    ensures Build(out + [StartArray]) == Some(stack + [ArrayValue([])] + elements)
    ensures Entries(out + [StartArray]) == Entries(out) + [0]
    ensures Build(out + [StartArray] + [EndArray(0)]).Some? && OnTop(out + [StartArray] + [EndArray(0)], stack)
  {
    hide Build, Handle, OnTop, Entries, Fits;
    BuildStep(out, StartArray);
    JsonDocument.Opens(stack);
    JsonCounts.Opens(out, StartArray);
    NoMembers(stack);
    ArrayOnTop(out + [StartArray], stack, elements);
  }

  lemma {:induction false} ArrayPushes(o: Options, s: Text, p: nat, out: seq<Event>, stack: seq<Value>)
    requires p <= |s| && Peek(s, p) == LEFT_BRACKET && Build(out) == Some(stack)
    ensures PushesIfFits(ParseArray(o, s, p, out), stack)
    decreases |s| - p, 1
  {
    hide ParseElements, Skip, Build, Handle, OnTop, Fits, Entries;
    var none: seq<Value> := [];
    ArrayStarts(out, stack, none);
    var out1 := out + [StartArray];
    var r2 := Skip(o, s, p + 1, out1);
    if r2.Ok? && Peek(s, r2.pos) != RIGHT_BRACKET {
      ElementsPush(o, s, r2.pos, out1, stack, none, Entries(out));
    }
  }

  lemma {:induction false} AnotherElement(next: seq<Event>, stack: seq<Value>, elements: seq<Value>)
    requires OnTop(next, stack + [ArrayValue([])] + elements)
    ensures exists v: Value :: Build(next) == Some(stack + [ArrayValue([])] + (elements + [v]))
  {
    hide Build;
    var base := stack + [ArrayValue([])];
    var v: Value :| Build(next) == Some(base + elements + [v]);
    assert base + elements + [v] == base + (elements + [v]);
  }

  lemma {:induction false} BehindElement(o: Options, s: Text, p: nat, out: seq<Event>, open: seq<nat>, k: nat)
    requires k <= p <= |s| && open != [] && Entries(out) == open + [k]
    ensures ParseValue(o, s, p, out).out <= ParseElements(o, s, p, out, k % SIZE_TYPE).out
    ensures ParseValue(o, s, p, out).Err? ==> ParseElements(o, s, p, out, k % SIZE_TYPE) == ParseValue(o, s, p, out)
    ensures ParseValue(o, s, p, out).Ok? ==> Entries(ParseValue(o, s, p, out).out) == open + [k + 1]
  {
    hide ParseValue, Skip, Entries, Fits, Depth;
    ValueCounts(o, s, p, out);
    NextEntry(open, k);
    var r1 := ParseValue(o, s, p, out);
    if r1.Ok? {
      var r2 := Skip(o, s, r1.pos, r1.out);
      if r2.Ok? && Peek(s, r2.pos) == COMMA {
        var r3 := Skip(o, s, r2.pos + 1, r1.out);
        if r3.Ok? {
          ElementsCount(o, s, r3.pos, r1.out, open, k + 1);
        }
      }
    }
  }

  lemma {:induction false} ElementsPush(o: Options, s: Text, p: nat, out: seq<Event>, stack: seq<Value>,
                                        elements: seq<Value>, open: seq<nat>)
    requires |elements| <= p <= |s| && open != [] && Entries(out) == open + [|elements|]
    requires Build(out) == Some(stack + [ArrayValue([])] + elements)
    ensures PushesIfFits(ParseElements(o, s, p, out, |elements| % SIZE_TYPE), stack)
    decreases |s| - p, 3
  {
    hide ParseElements, ParseValue, Skip, Build, Handle, OnTop, Fits, Entries;
    ValuePushes(o, s, p, out, stack + [ArrayValue([])] + elements);
    BehindElement(o, s, p, out, open, |elements|);
    var r, r1 := ParseElements(o, s, p, out, |elements| % SIZE_TYPE), ParseValue(o, s, p, out);
    if Fits(r.out) {
      PrefixFits(r1.out, r.out);
      if r1.Ok? {
        AnotherElement(r1.out, stack, elements);
        var v: Value :| Build(r1.out) == Some(stack + [ArrayValue([])] + (elements + [v]));
        ElementEnds(o, s, p, out, stack, elements + [v], open);
      }
    }
  }

  /** The comma or bracket behind an element. */
  lemma {:induction false} ElementEnds(o: Options, s: Text, p: nat, out: seq<Event>, stack: seq<Value>,
                                       elements: seq<Value>, open: seq<nat>)
    requires p <= |s| && 0 < |elements| <= p + 1 && open != []
    requires var r1 := ParseValue(o, s, p, out);
             r1.Ok? && Build(r1.out) == Some(stack + [ArrayValue([])] + elements)
             && Entries(r1.out) == open + [|elements|]
    ensures PushesIfFits(ParseElements(o, s, p, out, (|elements| - 1) % SIZE_TYPE), stack)
    decreases |s| - p, 2
  {
    hide ParseValue, Skip, Build, Handle, OnTop, Fits, Entries;
    var r1 := ParseValue(o, s, p, out);
    NextEntry(open, |elements| - 1);
    Closes(s, r1.out, open, |elements|, EndArray(|elements| % SIZE_TYPE));
    ArrayOnTop(r1.out, stack, elements);
    var r2 := Skip(o, s, r1.pos, r1.out);
    if r2.Ok? && Peek(s, r2.pos) == COMMA {
      var r3 := Skip(o, s, r2.pos + 1, r1.out);
      if r3.Ok? && !(o.trailingCommas && Peek(s, r3.pos) == RIGHT_BRACKET) {
        ElementsPush(o, s, r3.pos, r1.out, stack, elements, open);
      }
    }
  }

  /** The stack is as high as the events say. */
  lemma {:induction false} HeightIsDepth(out: seq<Event>)
    requires Build(out).Some?
    ensures |Build(out).value| == Depth(out)
  {
    if out != [] {
      HeightIsDepth(out[..|out| - 1]);
      HandleGrows(Build(out[..|out| - 1]).value, out[|out| - 1]);
    }
  }

  lemma HandleGrows(stack: seq<Value>, e: Event)
    requires Handle(stack, e).Some?
    ensures |Handle(stack, e).value| == |stack| + Growth(e)
  {
  }

  /**
   The theorem, for every text, every handler and the recursive parser: while no container has 2^32 entries every
   assertion holds; an accepted text leaves exactly one root if and only if none has.
   */
  lemma {:induction false} RootIffFits(o: Options, s: Text)
    ensures PushesIfFits(JsonGrammar.Parse(o, s), [])
    ensures |s| < SIZE_TYPE ==> Fits(JsonGrammar.Parse(o, s).out)
    ensures var r := JsonGrammar.Parse(o, s); r.Ok? ==> (OnTop(r.out, []) <==> Fits(r.out))
  {
    hide ParseValue, Skip, Build, Entries, Fits, Depth;
    Nothing();
    var r0 := Skip(o, s, 0, []);
    if r0.Ok? && Peek(s, r0.pos) != NUL {
      ValuePushes(o, s, r0.pos, [], []);
      ValueCounts(o, s, r0.pos, []);
      var r1 := ParseValue(o, s, r0.pos, []);
      if OnTop(r1.out, []) {
        HeightIsDepth(r1.out);
      }
    }
  }

  lemma Nothing()
    ensures Build([]) == Some([]) && Entries([]) == [0] && Fits([]) && Depth([]) == 0
  {
  }

  /** The same for both parsers. */
  lemma {:induction false} ExactlyOneRoot(o: Options, s: Text)
    ensures forall r | r == JsonGrammar.Parse(o, s) || r == JsonAutomaton.Parse(o, s) ::
              && (Fits(r.out) ==> Pushes(r, []))
              && (r.Ok? ==> (OnTop(r.out, []) <==> Fits(r.out)))
              && (|s| < SIZE_TYPE ==> Fits(r.out))
  {
    hide Parse, OnTop, Fits, Build;
    JsonEquivalence.ParsersAgree(o, s);
    RootIffFits(o, s);
  }

  // A text that is accepted without leaving one root

  /** An array of `n` empty arrays. */
  function Nested(n: nat): (s: Text)
    requires n > 0
    ensures |s| == 3 * n + 1
  {
    seq(3 * n + 1, i =>
      if i == 0 || (i % 3 == 1 && i < 3 * n) then LEFT_BRACKET
      else if i % 3 == 2 || i == 3 * n then RIGHT_BRACKET
      else COMMA)
  }

  lemma {:induction false} NothingToSkip(o: Options, s: Text, p: nat, out: seq<Event>)
    requires p < |s| && (s[p] == LEFT_BRACKET || s[p] == RIGHT_BRACKET || s[p] == COMMA)
    ensures Skip(o, s, p, out) == Ok(p, out)
  {
  }

  lemma {:induction false} EmptyArrayReads(o: Options, s: Text, p: nat, out: seq<Event>, k: nat)
    requires p + 1 < |s| && s[p] == LEFT_BRACKET && s[p + 1] == RIGHT_BRACKET
    requires (forall all: seq<Event> :: o.accepts(all)) && Entries(out) == [0, k]
    ensures var out1 := out + [StartArray] + [EndArray(0)];
            && ParseValue(o, s, p, out) == Ok(p + 2, out1)
            && Entries(out1) == [0, k + 1] && (Fits(out1) <==> Fits(out))
  {
    hide Entries, Fits, Depth, Skip;
    NothingToSkip(o, s, p + 1, out + [StartArray]);
    JsonCounts.Opens(out, StartArray);
    assert [0, k] + [0] == Entries(out) + [0];
    Closes(s, out + [StartArray], [0, k], 0, EndArray(0));
  }

  /** Element `k`, and what follows it. */
  lemma NestedAt(n: nat, k: nat)
    requires k < n
    ensures var s, p := Nested(n), 3 * k + 1;
            && p + 3 <= |s| && s[p] == LEFT_BRACKET && s[p + 1] == RIGHT_BRACKET
            && s[p + 2] == (if k + 1 == n then RIGHT_BRACKET else COMMA)
            && (k + 1 < n ==> p + 3 < |s| && s[p + 3] == LEFT_BRACKET)
  {
  }

  lemma {:induction false} NestedReads(o: Options, n: nat, k: nat, out: seq<Event>)
    requires k < n && Entries(out) == [0, k] && forall all: seq<Event> :: o.accepts(all)
    ensures var r := ParseElements(o, Nested(n), 3 * k + 1, out, k % SIZE_TYPE);
            r.Ok? && r.pos == 3 * n + 1 && (Fits(r.out) <==> Fits(out) && n < SIZE_TYPE)
    decreases n - k
  {
    hide Entries, Fits, Depth, Skip, ParseValue, Nested, Bump, Increment;
    var s, p := Nested(n), 3 * k + 1;
    NestedAt(n, k);
    EmptyArrayReads(o, s, p, out, k);
    NextEntry([0], k);
    var out1 := out + [StartArray] + [EndArray(0)];
    NothingToSkip(o, s, p + 2, out1);
    if k + 1 == n {
      assert [0, n] == [0] + [n];
      Closes(s, out1, [0], n, EndArray(n % SIZE_TYPE));
    } else {
      NothingToSkip(o, s, p + 3, out1);
      NestedReads(o, n, k + 1, out1);
    }
  }

  /** An array of 2^32 entries is accepted, but its end pops none of them. */
  lemma {:induction false} TooManyRoots(o: Options)
    requires forall all: seq<Event> :: o.accepts(all)
    ensures var r := JsonGrammar.Parse(o, Nested(SIZE_TYPE));
            r.Ok? && r.pos == |Nested(SIZE_TYPE)| && !Fits(r.out) && !OnTop(r.out, [])
  {
    hide Entries, Fits, Depth, Skip, OnTop, ParseElements;
    var s := Nested(SIZE_TYPE);
    NothingToSkip(o, s, 0, []);
    NothingToSkip(o, s, 1, [StartArray]);
    Nothing();
    JsonCounts.Opens([], StartArray);
    assert [] + [StartArray] == [StartArray];
    NestedReads(o, SIZE_TYPE, 0, [StartArray]);
    var r := ParseElements(o, s, 1, [StartArray], 0);
    assert r.Ok? && r.pos == |s| && !Fits(r.out);
    assert Peek(s, 0) == LEFT_BRACKET && Peek(s, 1) == LEFT_BRACKET;
    assert ParseArray(o, s, 0, []) == r;
    assert ParseValue(o, s, 0, []) == r;
    TextEnds(o, s, r.out);
    assert Finish(o, s, |s|, r.out) == r;
    RootIffFits(o, s);
  }

  lemma TextEnds(o: Options, s: Text, out: seq<Event>)
    ensures Skip(o, s, |s|, out) == Ok(|s|, out) && Peek(s, |s|) == NUL
  {
  }
}
