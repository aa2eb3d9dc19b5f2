/**
 The two parsers of reader.h are the same parser: on every text, with every setting of the flags
 and every handler, they send the same events, accept the same texts and stop at the same place.
 Errors are the same too, with two exceptions that the lemmas below spell out.
 */
module JsonEquivalence {
  import opened Bytes
  import opened JsonTypes
  import opened JsonLexical
  import opened JsonNumber
  import opened JsonGrammar
  import opened JsonAutomaton

  predicate IsBracketEvent(e: Event) {
    e.StartObject? || e.EndObject? || e.StartArray? || e.EndArray?
  }

  /** A container that closes behind a trailing comma: the recursive parser, too, takes the bracket after the call. */
  predicate ClosesLate(e: Event, state: State) {
    (e.EndObject? || e.EndArray?) && (state.MemberDelimiterState? || state.ElementDelimiterState?)
  }

  /**
   The same error. Only where the handler declines a bracket do the offsets differ, by one: the automaton takes the
   bracket after the call, the recursive parser before it, unless it closes a container behind a trailing comma.
   `state` is where the automaton stopped.
   */
  predicate SameError(recursive: Error, iterative: Error, out: seq<Event>, state: State) {
    && recursive.code == iterative.code
    && recursive.offset == iterative.offset +
       if recursive.code.Termination? && |out| > 0 && IsBracketEvent(out[|out| - 1])
         && !ClosesLate(out[|out| - 1], state) then 1
       else 0
  }

  /** No bracket is declined. */
  predicate Leafy(r: Outcome) {
    r.Err? && r.error.code.Termination? ==> |r.out| > 0 && !IsBracketEvent(r.out[|r.out| - 1])
  }

  /** A character that can stand between values but never begins one. */
  predicate IsPunctuation(c: byte) {
    c == RIGHT_BRACKET || c == RIGHT_BRACE || c == COMMA || c == COLON
  }

  predicate AwaitsValue(state: State) {
    state.StartState? || state.ArrayInitialState? || state.ElementDelimiterState? || state.KeyValueDelimiterState?
  }

  /** The state behind a complete value, when the machine waited for it in `src`. */
  function Landing(src: State): State {
    if src.StartState? then FinishState else AfterValue(src)
  }

  /**
   What it means that `i`, the outcome of the automaton, continues what the recursive parser did with `r`:
   after an accepted piece the automaton stands behind that piece in state `next` with the stack `stack`.
   */
  predicate Continues(o: Options, s: Text, i: Halt, r: Outcome, next: State, stack: seq<Frame>) {
    match r
    case Ok(q, out) =>
      var m := Machine(next, q, stack, out);
      Running(m, s) && i == HaltingOn(o, s, m)
    case Err(error, out) =>
      i.outcome.Err? && i.outcome.out == out && SameError(error, i.outcome.error, out, i.state)
  }

  /**
   What it means that `i`, the outcome of the automaton, proceeds behind the skipping in `r`:
   it is the outcome of the machine that waits for a token in `state` where `r` ended.
   */
  predicate Proceeds(o: Options, s: Text, i: Halt, r: Outcome, state: State, stack: seq<Frame>) {
    match r
    case Ok(p, out) =>
      var m := Machine(state, p, stack, out);
      Running(m, s) && i == Halting(o, s, m)
    case Err(error, out) => i.outcome == r && Leafy(r)
  }

  /** One transition of the loop. */
  lemma {:induction false} Step(o: Options, s: Text, m: Machine)
    requires Running(m, s) && Peek(s, m.pos) != NUL
    ensures var r := Transit(o, s, m);
            && (r.To? ==> Halting(o, s, m) == HaltingOn(o, s, r.m))
            && (r.Stop? ==> Halting(o, s, m) == Halt(Err(r.error, r.out), m.state))
  {
  }

  /** Between two tokens the automaton skips as the recursive parser does. */
  lemma {:induction false} Skips(o: Options, s: Text, m: Machine)
    requires Running(m, s) && !m.state.FinishState?
    ensures Proceeds(o, s, HaltingOn(o, s, m), Skip(o, s, m.pos, m.out), m.state, m.stack)
  {
    hide Skip, Halting;
    SkipNeverTerminates(o, s, m.pos, m.out);
  }

  lemma {:induction false} ScalarMove(o: Options, s: Text, m: Machine)
    requires Running(m, s) && AwaitsValue(m.state)
    requires var c := Peek(s, m.pos); c != LEFT_BRACE && c != LEFT_BRACKET && c != NUL && !IsPunctuation(c)
    ensures ParseValue(o, s, m.pos, m.out) == ParseScalar(o, s, m.pos, m.out)
    ensures Transit(o, s, m) == Moved(ParseValue(o, s, m.pos, m.out), Landing(m.state), m.stack)
  {
    hide ParseScalar;
    assert IsScalarToken(Tokenize(Peek(s, m.pos)));
  }

  lemma {:induction false} ScalarRefused(o: Options, s: Text, m: Machine)
    requires Running(m, s) && AwaitsValue(m.state) && !m.state.StartState?
    requires Peek(s, m.pos) == NUL || IsPunctuation(Peek(s, m.pos))
    requires Peek(s, m.pos) == RIGHT_BRACKET ==>
               !m.state.ArrayInitialState? && (o.trailingCommas ==> !m.state.ElementDelimiterState?)
    ensures ParseValue(o, s, m.pos, m.out) == Fail(ValueInvalid, m.pos, m.out)
    ensures Halting(o, s, m).outcome == Fail(ValueInvalid, m.pos, m.out)
  {
    hide Skip, ParseString, ScanSuffix;
  }

  /** A scalar is parsed by the very same code. */
  lemma {:induction false} ScalarFollows(o: Options, s: Text, m: Machine)
    requires Running(m, s) && AwaitsValue(m.state)
    requires var c := Peek(s, m.pos); c != LEFT_BRACE && c != LEFT_BRACKET
    requires m.state.StartState? ==> Peek(s, m.pos) != NUL && !IsPunctuation(Peek(s, m.pos))
    requires Peek(s, m.pos) == RIGHT_BRACKET ==>
               !m.state.ArrayInitialState? && (o.trailingCommas ==> !m.state.ElementDelimiterState?)
    ensures Continues(o, s, Halting(o, s, m), ParseValue(o, s, m.pos, m.out), Landing(m.state), m.stack)
  {
    hide ParseValue, ParseScalar, Transit, Halting, HaltingOn, Skip;
    var c := Peek(s, m.pos);
    if c == NUL || IsPunctuation(c) {
      ScalarRefused(o, s, m);
    } else {
      ScalarMove(o, s, m);
      Step(o, s, m);
      ScalarTermination(o, s, m.pos, m.out);
    }
  }

  /** Main induction, values: the automaton digests a value as the recursive parser does. */
  lemma {:induction false} ValueFollows(o: Options, s: Text, m: Machine)
    requires Running(m, s) && AwaitsValue(m.state)
    requires m.state.StartState? ==> Peek(s, m.pos) != NUL && !IsPunctuation(Peek(s, m.pos))
    requires Peek(s, m.pos) == RIGHT_BRACKET ==>
               !m.state.ArrayInitialState? && (o.trailingCommas ==> !m.state.ElementDelimiterState?)
    ensures Continues(o, s, Halting(o, s, m), ParseValue(o, s, m.pos, m.out), Landing(m.state), m.stack)
    decreases |s| - m.pos, 2
  {
    var c := Peek(s, m.pos);
    if c == LEFT_BRACE {
      ObjectFollows(o, s, m);
    } else if c == LEFT_BRACKET {
      ArrayFollows(o, s, m);
    } else {
      ScalarFollows(o, s, m);
    }
  }

  /** The machine inside a container: a frame with its return state and count on top of the stack. */
  function Inside(state: State, p: nat, stack: seq<Frame>, ret: State, count: nat, out: seq<Event>): Machine {
    Machine(state, p, stack + [Frame(ret, count)], out)
  }

  function NameAndSkip(o: Options, s: Text, p: nat, out: seq<Event>): Outcome
    requires p < |s| && Peek(s, p) == QUOTE
  {
    var r := ParseString(o, s, p, true, out);
    if r.Err? then r else Skip(o, s, r.pos, r.out)
  }

  /** An opening bracket: the pair is pushed, then the machine stands at the first token inside. */
  lemma {:induction false} Opens(o: Options, s: Text, m: Machine, dst: State, e: Event)
    requires Running(m, s) && AwaitsValue(m.state)
    requires (Peek(s, m.pos) == LEFT_BRACE && dst.ObjectInitialState? && e.StartObject?)
             || (Peek(s, m.pos) == LEFT_BRACKET && dst.ArrayInitialState? && e.StartArray?)
    ensures Return(AfterValue(m.state)) == Landing(m.state)
    ensures var r := Emit(o, e, m.out, m.pos + 1, m.pos);
            if r.Err? then Halting(o, s, m) == Halt(r, m.state)
            else Proceeds(o, s, Halting(o, s, m), Skip(o, s, r.pos, r.out), dst,
                          m.stack + [Frame(AfterValue(m.state), 0)])
  {
    hide Skip, ParseValue, ParseString;
    var ret := AfterValue(m.state);
    var r1 := Emit(o, e, m.out, m.pos + 1, m.pos);
    assert Transit(o, s, m) == Moved(r1, dst, m.stack + [Frame(ret, 0)]);
    Step(o, s, m);
    if r1.Ok? {
      Skips(o, s, Inside(dst, m.pos + 1, m.stack, ret, 0, r1.out));
    }
  }

  lemma {:induction false} ObjectFollows(o: Options, s: Text, m: Machine)
    requires Running(m, s) && AwaitsValue(m.state) && Peek(s, m.pos) == LEFT_BRACE
    ensures Continues(o, s, Halting(o, s, m), ParseObject(o, s, m.pos, m.out), Landing(m.state), m.stack)
    decreases |s| - m.pos, 1
  {
    hide ParseScalar, Skip, Transit;
    var ret := AfterValue(m.state);
    Opens(o, s, m, ObjectInitialState, StartObject);
    var r1 := Emit(o, StartObject, m.out, m.pos + 1, m.pos + 1);
    if r1.Ok? {
      var r2 := Skip(o, s, m.pos + 1, r1.out);
      if r2.Ok? {
        var m2 := Inside(ObjectInitialState, r2.pos, m.stack, ret, 0, r1.out);
        if Peek(s, m2.pos) == RIGHT_BRACE {
          CloseObject(o, s, m.stack, ret, 0, m2, false, m2.pos + 1);
        } else {
          MembersFollow(o, s, m.stack, ret, 0, m2);
        }
      }
    }
  }

  /** A closing brace: pop the pair, count the last member, return. The handler's refusal may be reported at `at`. */
  lemma {:induction false} CloseObject(o: Options, s: Text, stack: seq<Frame>, ret: State, count: nat, m: Machine,
                                       last: bool, at: nat)
    requires m == Inside(m.state, m.pos, stack, ret, count, m.out)
    requires Running(m, s) && Peek(s, m.pos) == RIGHT_BRACE
    requires at == if m.state.MemberDelimiterState? then m.pos else m.pos + 1
    requires if last then m.state.MemberValueState?
             else m.state.ObjectInitialState? || (m.state.MemberDelimiterState? && o.trailingCommas)
    ensures var e := EndObject(if last then Increment(count) else count);
            Continues(o, s, Halting(o, s, m), Emit(o, e, m.out, m.pos + 1, at), Return(ret), stack)
  {
    hide ParseValue, ParseString, Skip, HaltingOn;
    assert m.stack[..|m.stack| - 1] == stack;
    var e := EndObject(if last then Increment(count) else count);
    assert Transit(o, s, m) == Moved(Emit(o, e, m.out, m.pos + 1, m.pos), Return(ret), stack);
    Step(o, s, m);
  }

  /** A closing bracket. */
  lemma {:induction false} CloseArray(o: Options, s: Text, stack: seq<Frame>, ret: State, count: nat, m: Machine,
                                      last: bool, at: nat)
    requires m == Inside(m.state, m.pos, stack, ret, count, m.out)
    requires Running(m, s) && Peek(s, m.pos) == RIGHT_BRACKET
    requires at == if m.state.ElementDelimiterState? then m.pos else m.pos + 1
    requires if last then m.state.ElementState?
             else m.state.ArrayInitialState? || (m.state.ElementDelimiterState? && o.trailingCommas)
    ensures var e := EndArray(if last then Increment(count) else count);
            Continues(o, s, Halting(o, s, m), Emit(o, e, m.out, m.pos + 1, at), Return(ret), stack)
  {
    hide ParseValue, ParseString, Skip, HaltingOn;
    assert m.stack[..|m.stack| - 1] == stack;
    var e := EndArray(if last then Increment(count) else count);
    assert Transit(o, s, m) == Moved(Emit(o, e, m.out, m.pos + 1, m.pos), Return(ret), stack);
    Step(o, s, m);
  }

  /** A comma: the entry before it is counted, then the machine stands at the next token. */
  lemma {:induction false} Commas(o: Options, s: Text, stack: seq<Frame>, ret: State, count: nat, m: Machine,
                                  dst: State)
    requires m == Inside(m.state, m.pos, stack, ret, count, m.out)
    requires Running(m, s) && Peek(s, m.pos) == COMMA
    requires (m.state.MemberValueState? && dst.MemberDelimiterState?)
             || (m.state.ElementState? && dst.ElementDelimiterState?)
    ensures Proceeds(o, s, Halting(o, s, m), Skip(o, s, m.pos + 1, m.out), dst, stack + [Frame(ret, Increment(count))])
  {
    hide Skip, ParseValue, ParseString;
    var m1 := Inside(dst, m.pos + 1, stack, ret, Increment(count), m.out);
    assert CountOne(m.stack) == m1.stack;
    assert Transit(o, s, m) == To(m1);
    Step(o, s, m);
    Skips(o, s, m1);
  }

  /** A member's name, and what is skipped behind it. */
  lemma {:induction false} Names(o: Options, s: Text, m: Machine)
    requires Running(m, s) && (m.state.ObjectInitialState? || m.state.MemberDelimiterState?)
    requires Peek(s, m.pos) == QUOTE
    ensures Proceeds(o, s, Halting(o, s, m), NameAndSkip(o, s, m.pos, m.out), MemberKeyState, m.stack)
  {
    hide ParseString, ParseValue, Skip, Halting;
    var r1 := ParseString(o, s, m.pos, true, m.out);
    StringTermination(o, s, m.pos, true, m.out);
    assert Transit(o, s, m) == Moved(r1, MemberKeyState, m.stack);
    Step(o, s, m);
    if r1.Ok? {
      Skips(o, s, Machine(MemberKeyState, r1.pos, m.stack, r1.out));
    }
  }

  /** The colon behind a member's name, and what is skipped behind it. */
  lemma {:induction false} Colons(o: Options, s: Text, m: Machine)
    requires Running(m, s) && m.state.MemberKeyState?
    ensures Peek(s, m.pos) != COLON ==> Halting(o, s, m).outcome == Fail(ObjectMissColon, m.pos, m.out)
    ensures Peek(s, m.pos) == COLON ==>
              Proceeds(o, s, Halting(o, s, m), Skip(o, s, m.pos + 1, m.out), KeyValueDelimiterState, m.stack)
  {
    if Peek(s, m.pos) != NUL {
      Step(o, s, m);
    }
    if Peek(s, m.pos) == COLON {
      Skips(o, s, Machine(KeyValueDelimiterState, m.pos + 1, m.stack, m.out));
    }
  }

  /** Main induction, members: from a name to its value. */
  lemma {:induction false} MembersFollow(o: Options, s: Text, stack: seq<Frame>, ret: State, count: nat, m: Machine)
    requires m == Inside(m.state, m.pos, stack, ret, count, m.out)
    requires Running(m, s)
    requires m.state.ObjectInitialState? || m.state.MemberDelimiterState?
    requires Peek(s, m.pos) == RIGHT_BRACE ==> m.state.MemberDelimiterState? && !o.trailingCommas
    ensures Continues(o, s, Halting(o, s, m), ParseMembers(o, s, m.pos, m.out, count), Return(ret), stack)
    decreases |s| - m.pos, 0
  {
    hide ParseString, Skip, Transit, ParseMemberValue;
    if Peek(s, m.pos) != QUOTE {
      NoName(o, s, m);
    } else {
      Names(o, s, m);
      var r1 := ParseString(o, s, m.pos, true, m.out);
      if r1.Ok? {
        var r2 := Skip(o, s, r1.pos, r1.out);
        if r2.Ok? {
          var m2 := Machine(MemberKeyState, r2.pos, m.stack, r1.out);
          Colons(o, s, m2);
          if Peek(s, r2.pos) == COLON {
            var r3 := Skip(o, s, r2.pos + 1, r1.out);
            if r3.Ok? {
              var m3 := Machine(KeyValueDelimiterState, r3.pos, m.stack, r1.out);
              MemberValueFollows(o, s, stack, ret, count, m3);
            }
          }
        }
      }
    }
  }

  lemma {:induction false} NoName(o: Options, s: Text, m: Machine)
    requires Running(m, s) && (m.state.ObjectInitialState? || m.state.MemberDelimiterState?)
    requires Peek(s, m.pos) != QUOTE
    requires Peek(s, m.pos) == RIGHT_BRACE ==> m.state.MemberDelimiterState? && !o.trailingCommas
    ensures Halting(o, s, m).outcome == Fail(ObjectMissName, m.pos, m.out)
  {
    if Peek(s, m.pos) != NUL {
      Step(o, s, m);
    }
  }

  /** Main induction, members: from a value to the next name or the end. */
  lemma {:induction false} MemberValueFollows(o: Options, s: Text, stack: seq<Frame>, ret: State, count: nat,
                                              m: Machine)
    requires m == Inside(KeyValueDelimiterState, m.pos, stack, ret, count, m.out)
    requires Running(m, s)
    ensures Continues(o, s, Halting(o, s, m), ParseMemberValue(o, s, m.pos, m.out, count), Return(ret), stack)
    decreases |s| - m.pos, 3
  {
    hide ParseScalar, Skip, Transit;
    ValueFollows(o, s, m);
    var r1 := ParseValue(o, s, m.pos, m.out);
    if r1.Ok? {
      Skips(o, s, Machine(MemberValueState, r1.pos, m.stack, r1.out));
      var r2 := Skip(o, s, r1.pos, r1.out);
      if r2.Ok? {
        var m2 := Inside(MemberValueState, r2.pos, stack, ret, count, r1.out);
        if Peek(s, r2.pos) == RIGHT_BRACE {
          CloseObject(o, s, stack, ret, count, m2, true, m2.pos + 1);
        } else if Peek(s, r2.pos) == COMMA {
          Commas(o, s, stack, ret, count, m2, MemberDelimiterState);
          var r3 := Skip(o, s, r2.pos + 1, r1.out);
          if r3.Ok? {
            var m3 := Inside(MemberDelimiterState, r3.pos, stack, ret, Increment(count), r1.out);
            if o.trailingCommas && Peek(s, r3.pos) == RIGHT_BRACE {
              CloseObject(o, s, stack, ret, Increment(count), m3, false, m3.pos);
            } else {
              MembersFollow(o, s, stack, ret, Increment(count), m3);
            }
          }
        } else {
          NoSeparator(o, s, m2);
        }
      }
    }
  }

  /** Behind a member's value or an element, anything but a comma or the closing bracket is an error. */
  lemma {:induction false} NoSeparator(o: Options, s: Text, m: Machine)
    requires Running(m, s) && Peek(s, m.pos) != COMMA
    requires (m.state.MemberValueState? && Peek(s, m.pos) != RIGHT_BRACE)
             || (m.state.ElementState? && Peek(s, m.pos) != RIGHT_BRACKET)
    ensures Halting(o, s, m).outcome == Fail(StateError(m.state), m.pos, m.out)
  {
    if Peek(s, m.pos) != NUL {
      Step(o, s, m);
    }
  }

  /** A character no value begins with. */
  predicate NoValue(c: byte) {
    c == NUL || IsPunctuation(c)
  }

  /**
   The code `HandleError` sets for a state in which a token is not expected is the one the recursive parser reports
   for the same text at the same place: for a name, for the colon behind it, for a value, and for what separates
   members and elements.
   */
  lemma {:induction false} ErrorsAlike(o: Options, s: Text, p: nat, out: seq<Event>, count: nat)
    requires p <= |s|
    ensures Peek(s, p) != QUOTE ==>
              && ParseMembers(o, s, p, out, count) == Fail(StateError(ObjectInitialState), p, out)
              && ParseMembers(o, s, p, out, count) == Fail(StateError(MemberDelimiterState), p, out)
    ensures Peek(s, p) == QUOTE ==>
              var r := NameAndSkip(o, s, p, out);
              r.Ok? && Peek(s, r.pos) != COLON ==>
                ParseMembers(o, s, p, out, count) == Fail(StateError(MemberKeyState), r.pos, r.out)
    ensures NoValue(Peek(s, p)) ==>
              forall state: State | AwaitsValue(state) && !state.StartState? ::
                ParseValue(o, s, p, out) == Fail(StateError(state), p, out)
    ensures var r := ValueAndSkip(o, s, p, out);
            r.Ok? && Peek(s, r.pos) != COMMA ==>
              && (Peek(s, r.pos) != RIGHT_BRACE ==>
                    ParseMemberValue(o, s, p, out, count) == Fail(StateError(MemberValueState), r.pos, r.out))
              && (Peek(s, r.pos) != RIGHT_BRACKET ==>
                    ParseElements(o, s, p, out, count) == Fail(StateError(ElementState), r.pos, r.out))
  {
    hide ParseScalar, Skip, ParseString;
    if NoValue(Peek(s, p)) { NoScalar(o, s, p, out); }
  }

  lemma {:induction false} NoScalar(o: Options, s: Text, p: nat, out: seq<Event>)
    requires p <= |s| && NoValue(Peek(s, p))
    ensures ParseScalar(o, s, p, out) == Fail(ValueInvalid, p, out)
  {
    hide ParseString, ScanSuffix;
  }

  function ValueAndSkip(o: Options, s: Text, p: nat, out: seq<Event>): Outcome
    requires p <= |s|
  {
    var r := ParseValue(o, s, p, out);
    if r.Err? then r else Skip(o, s, r.pos, r.out)
  }

  lemma {:induction false} ArrayFollows(o: Options, s: Text, m: Machine)
    requires Running(m, s) && AwaitsValue(m.state) && Peek(s, m.pos) == LEFT_BRACKET
    ensures Continues(o, s, Halting(o, s, m), ParseArray(o, s, m.pos, m.out), Landing(m.state), m.stack)
    decreases |s| - m.pos, 1
  {
    hide ParseScalar, Skip, Transit;
    var ret := AfterValue(m.state);
    Opens(o, s, m, ArrayInitialState, StartArray);
    var r1 := Emit(o, StartArray, m.out, m.pos + 1, m.pos + 1);
    if r1.Ok? {
      var r2 := Skip(o, s, m.pos + 1, r1.out);
      if r2.Ok? {
        var m2 := Inside(ArrayInitialState, r2.pos, m.stack, ret, 0, r1.out);
        if Peek(s, m2.pos) == RIGHT_BRACKET {
          CloseArray(o, s, m.stack, ret, 0, m2, false, m2.pos + 1);
        } else {
          ElementsFollow(o, s, m.stack, ret, 0, m2);
        }
      }
    }
  }

  /** Main induction, elements. */
  lemma {:induction false} ElementsFollow(o: Options, s: Text, stack: seq<Frame>, ret: State, count: nat, m: Machine)
    requires m == Inside(m.state, m.pos, stack, ret, count, m.out)
    requires Running(m, s)
    requires m.state.ArrayInitialState? || m.state.ElementDelimiterState?
    requires Peek(s, m.pos) == RIGHT_BRACKET ==> m.state.ElementDelimiterState? && !o.trailingCommas
    ensures Continues(o, s, Halting(o, s, m), ParseElements(o, s, m.pos, m.out, count), Return(ret), stack)
    decreases |s| - m.pos, 3
  {
    hide ParseScalar, Skip, Transit;
    ValueFollows(o, s, m);
    var r1 := ParseValue(o, s, m.pos, m.out);
    if r1.Ok? {
      Skips(o, s, Machine(ElementState, r1.pos, m.stack, r1.out));
      var r2 := Skip(o, s, r1.pos, r1.out);
      if r2.Ok? {
        var m2 := Inside(ElementState, r2.pos, stack, ret, count, r1.out);
        if Peek(s, r2.pos) == RIGHT_BRACKET {
          CloseArray(o, s, stack, ret, count, m2, true, m2.pos + 1);
        } else if Peek(s, r2.pos) == COMMA {
          Commas(o, s, stack, ret, count, m2, ElementDelimiterState);
          var r3 := Skip(o, s, r2.pos + 1, r1.out);
          if r3.Ok? {
            var m3 := Inside(ElementDelimiterState, r3.pos, stack, ret, Increment(count), r1.out);
            if o.trailingCommas && Peek(s, r3.pos) == RIGHT_BRACKET {
              CloseArray(o, s, stack, ret, Increment(count), m3, false, m3.pos);
            } else {
              ElementsFollow(o, s, stack, ret, Increment(count), m3);
            }
          }
        } else {
          NoSeparator(o, s, m2);
        }
      }
    }
  }

  /** Behind the root value, the automaton accepts exactly what the recursive parser accepts. */
  lemma {:induction false} FinishFollows(o: Options, s: Text, p: nat, out: seq<Event>)
    requires p <= |s|
    ensures HaltingOn(o, s, Machine(FinishState, p, [], out)).outcome == Finish(o, s, p, out)
    ensures Finish(o, s, p, out).Err? ==> !Finish(o, s, p, out).error.code.Termination?
  {
    SkipNeverTerminates(o, s, p, out);
    var r := Skip(o, s, p, out);
    if !o.stopWhenDone && r.Ok? {
      var m := Machine(FinishState, r.pos, [], out);
      assert HaltingOn(o, s, Machine(FinishState, p, [], out)) == Halting(o, s, m);
      if Peek(s, r.pos) != NUL {
        assert Transit(o, s, m) == Stop(Error(DocumentRootNotSingular, r.pos), out);
      }
    }
  }

  /** Where a document begins with none of a value's first characters. */
  lemma {:induction false} StartRefused(o: Options, s: Text, p: nat)
    requires p <= |s| && (Peek(s, p) == NUL || IsPunctuation(Peek(s, p)))
    ensures Iterate(o, s, Machine(StartState, p, [], [])) == Fail(DocumentEmpty, p, [])
    ensures IsPunctuation(Peek(s, p)) ==> ParseValue(o, s, p, []) == Fail(ValueInvalid, p, [])
  {
    hide Skip, ParseString, ScanSuffix;
  }

  /** The first character of the document that is neither white space nor comment. */
  function FirstChar(o: Options, s: Text): byte {
    match Skip(o, s, 0, [])
    case Ok(p, _) => Peek(s, p)
    case Err(_, _) => NUL
  }

  /**
   The theorem: for every text, every setting of the flags and every handler, both parsers send the
   same events and agree on acceptance and on where they stop. They report the same error, except
   that a document that begins with a closing bracket, a closing brace, a comma or a colon is
   "empty" to the automaton and an "invalid value" to the recursive parser.
   */
  lemma ParsersAgree(o: Options, s: Text)
    ensures var r, i := JsonGrammar.Parse(o, s), JsonAutomaton.Parse(o, s);
            && r.out == i.out
            && (r.Ok? <==> i.Ok?)
            && (r.Ok? ==> r == i)
            && (r.Err? ==>
                  if IsPunctuation(FirstChar(o, s))
                  then r.error.code.ValueInvalid? && i.error.code.DocumentEmpty? && r.error.offset == i.error.offset
                  else SameError(r.error, i.error, r.out, JsonAutomaton.LastState(o, s)))
  {
    hide ParseValue, Skip, Halting, HaltingOn, Iterate, Finish;
    var r0 := Skip(o, s, 0, []);
    SkipNeverTerminates(o, s, 0, []);
    if r0.Ok? {
      var p := r0.pos;
      var m := Machine(StartState, p, [], []);
      HaltingIsIterate(o, s, m);
      if IsPunctuation(Peek(s, p)) || Peek(s, p) == NUL {
        StartRefused(o, s, p);
      } else {
        ValueFollows(o, s, m);
        var r1 := ParseValue(o, s, p, []);
        if r1.Ok? {
          FinishFollows(o, s, r1.pos, r1.out);
        }
      }
    }
  }

  /** The reader reports Termination only when the handler declined the newest event. */
  predicate TerminationIsDeclined(o: Options, r: Outcome) {
    r.Err? && r.error.code.Termination? ==> !o.accepts(r.out)
  }

  lemma {:induction false} ValueTermination(o: Options, s: Text, p: nat, out: seq<Event>)
    requires p <= |s|
    ensures TerminationIsDeclined(o, ParseValue(o, s, p, out))
    decreases |s| - p, 2
  {
    var c := Peek(s, p);
    if c == LEFT_BRACE || c == LEFT_BRACKET {
      var r1 := Emit(o, if c == LEFT_BRACE then StartObject else StartArray, out, p + 1, p + 1);
      if r1.Ok? {
        var r2 := Skip(o, s, p + 1, r1.out);
        SkipNeverTerminates(o, s, p + 1, r1.out);
        if r2.Ok? {
          if c == LEFT_BRACE {
            if Peek(s, r2.pos) != RIGHT_BRACE { MembersTermination(o, s, r2.pos, r1.out, 0); }
          } else {
            if Peek(s, r2.pos) != RIGHT_BRACKET { ElementsTermination(o, s, r2.pos, r1.out, 0); }
          }
        }
      }
    } else {
      ScalarTermination(o, s, p, out);
    }
  }

  lemma {:induction false} BlockCommentNeverTerminates(s: Text, p: nat, out: seq<Event>)
    requires p <= |s|
    ensures var r := BlockCommentEnd(s, p, out); r.Err? ==> r.error.code.UnspecificSyntaxError?
    decreases |s| - p
  {
    if p < |s| { BlockCommentNeverTerminates(s, p + 1, out); }
  }

  lemma {:induction false} CommentsNeverTerminate(s: Text, p: nat, out: seq<Event>)
    requires p <= |s|
    ensures var r := SkipComments(s, p, out); r.Err? ==> r.error.code.UnspecificSyntaxError?
    decreases |s| - p
  {
    if Peek(s, p) == SLASH && Peek(s, p + 1) == STAR {
      BlockCommentNeverTerminates(s, p + 2, out);
      var r := BlockCommentEnd(s, p + 2, out);
      if r.Ok? { CommentsNeverTerminate(s, SkipSpaces(s, r.pos), out); }
    } else if Peek(s, p) == SLASH && Peek(s, p + 1) == SLASH {
      CommentsNeverTerminate(s, SkipSpaces(s, LineCommentEnd(s, p + 2)), out);
    }
  }

  lemma SkipNeverTerminates(o: Options, s: Text, p: nat, out: seq<Event>)
    requires p <= |s|
    ensures var r := Skip(o, s, p, out); r.Err? ==> r.error.code.UnspecificSyntaxError?
  {
    CommentsNeverTerminate(s, SkipSpaces(s, p), out);
  }

  lemma {:induction false} StringNeverTerminates(o: Options, s: Text, p: nat, str: Text)
    requires p <= |s|
    ensures var r := ScanString(o, s, p, str); r.Failed? ==> !r.error.code.Termination?
    decreases |s| - p
  {
    if Peek(s, p) != QUOTE && Peek(s, p) != NUL {
      var r := ScanChar(o, s, p);
      if r.Scanned? { StringNeverTerminates(o, s, r.pos, str + r.str); }
    }
  }

  lemma NumberTermination(o: Options, s: Text, p: nat, out: seq<Event>)
    requires p <= |s|
    ensures TerminationIsDeclined(o, ParseNumber(o, s, p, out)) && Leafy(ParseNumber(o, s, p, out))
  {
    hide ScanInteger, ScanSuffix, SignificantDigits, Deliver, Decimal.Value;
    var minus := Peek(s, p) == MINUS;
    var q := if minus then p + 1 else p;
    var integer := ScanInteger(o, s, q);
    if !integer.Invalid? {
      var v := if integer.Decimal? then Decimal.Value(s[q..integer.end]) else 0;
      var isBig := !Fits64(minus, v);
      SuffixTermination(s, p, integer.end, isBig, v, SignificantDigits(isBig, integer, q));
      var suffix := ScanSuffix(s, p, integer.end, isBig, v, SignificantDigits(isBig, integer, q));
      if suffix.Suffix? {
        DeliveryTermination(o, s[p..suffix.end], minus, v, suffix.isDouble, integer.Special?, out, suffix.end, p);
      }
    }
  }

  lemma SuffixTermination(s: Text, start: nat, p: nat, isDouble: bool, v: nat, sig: nat)
    requires p <= |s|
    ensures var r := ScanSuffix(s, start, p, isDouble, v, sig); r.Malformed? ==> !r.error.code.Termination?
  {
    hide FractionExponent;
  }

  lemma DeliveryTermination(o: Options, lexeme: Text, minus: bool, v: nat, isDouble: bool, isSpecial: bool,
                            out: seq<Event>, end: nat, start: nat)
    requires isDouble || Fits64(minus, v)
    ensures TerminationIsDeclined(o, Deliver(o, lexeme, minus, v, isDouble, isSpecial, out, end, start))
    ensures Leafy(Deliver(o, lexeme, minus, v, isDouble, isSpecial, out, end, start))
  {
  }

  lemma ScalarTermination(o: Options, s: Text, p: nat, out: seq<Event>)
    requires p <= |s|
    ensures TerminationIsDeclined(o, ParseScalar(o, s, p, out)) && Leafy(ParseScalar(o, s, p, out))
  {
    hide ParseNumber, ParseString, ParseLiteral;
    var c := Peek(s, p);
    if c == QUOTE {
      StringTermination(o, s, p, false, out);
    } else if c == LOWER_N {
      LiteralTermination(o, s, p, NULL_WORD, Null, out);
    } else if c == LOWER_T {
      LiteralTermination(o, s, p, TRUE_WORD, Bool(true), out);
    } else if c == LOWER_F {
      LiteralTermination(o, s, p, FALSE_WORD, Bool(false), out);
    } else {
      NumberTermination(o, s, p, out);
    }
  }

  lemma {:induction false} StringTermination(o: Options, s: Text, p: nat, isKey: bool, out: seq<Event>)
    requires p < |s| && Peek(s, p) == QUOTE
    ensures TerminationIsDeclined(o, ParseString(o, s, p, isKey, out)) && Leafy(ParseString(o, s, p, isKey, out))
  {
    hide ScanString;
    StringNeverTerminates(o, s, p + 1, []);
  }

  lemma {:induction false} LiteralTermination(o: Options, s: Text, p: nat, word: Text, e: Event, out: seq<Event>)
    requires p <= |s| && |word| > 0 && NUL !in word && Peek(s, p) == word[0] && !IsBracketEvent(e)
    ensures TerminationIsDeclined(o, ParseLiteral(o, s, p, word, e, out)) && Leafy(ParseLiteral(o, s, p, word, e, out))
  {
    hide MatchLength;
  }

  lemma {:induction false} MembersTermination(o: Options, s: Text, p: nat, out: seq<Event>, count: nat)
    requires p <= |s|
    ensures TerminationIsDeclined(o, ParseMembers(o, s, p, out, count))
    decreases |s| - p, 0
  {
    if Peek(s, p) == QUOTE {
      StringNeverTerminates(o, s, p + 1, []);
      var r1 := ParseString(o, s, p, true, out);
      if r1.Ok? {
        SkipNeverTerminates(o, s, r1.pos, r1.out);
        var r2 := Skip(o, s, r1.pos, r1.out);
        if r2.Ok? && Peek(s, r2.pos) == COLON {
          SkipNeverTerminates(o, s, r2.pos + 1, r1.out);
          var r3 := Skip(o, s, r2.pos + 1, r1.out);
          if r3.Ok? { MemberValueTermination(o, s, r3.pos, r1.out, count); }
        }
      }
    }
  }

  lemma {:induction false} MemberValueTermination(o: Options, s: Text, p: nat, out: seq<Event>, count: nat)
    requires p <= |s|
    ensures TerminationIsDeclined(o, ParseMemberValue(o, s, p, out, count))
    decreases |s| - p, 3
  {
    hide ParseScalar, Skip, Transit;
    ValueTermination(o, s, p, out);
    var r1 := ParseValue(o, s, p, out);
    if r1.Ok? {
      SkipNeverTerminates(o, s, r1.pos, r1.out);
      var r2 := Skip(o, s, r1.pos, r1.out);
      if r2.Ok? && Peek(s, r2.pos) == COMMA {
        SkipNeverTerminates(o, s, r2.pos + 1, r1.out);
        var r3 := Skip(o, s, r2.pos + 1, r1.out);
        if r3.Ok? { MembersTermination(o, s, r3.pos, r1.out, Increment(count)); }
      }
    }
  }

  lemma {:induction false} ElementsTermination(o: Options, s: Text, p: nat, out: seq<Event>, count: nat)
    requires p <= |s|
    ensures TerminationIsDeclined(o, ParseElements(o, s, p, out, count))
    decreases |s| - p, 3
  {
    hide ParseScalar, Skip, Transit;
    ValueTermination(o, s, p, out);
    var r1 := ParseValue(o, s, p, out);
    if r1.Ok? {
      SkipNeverTerminates(o, s, r1.pos, r1.out);
      var r2 := Skip(o, s, r1.pos, r1.out);
      if r2.Ok? && Peek(s, r2.pos) == COMMA {
        SkipNeverTerminates(o, s, r2.pos + 1, r1.out);
        var r3 := Skip(o, s, r2.pos + 1, r1.out);
        if r3.Ok? { ElementsTermination(o, s, r3.pos, r1.out, Increment(count)); }
      }
    }
  }

  /**
   A handler that never declines cannot tell the two parsers apart, not even by the errors,
   exactly when the document does not begin with a closing bracket, a closing brace, a comma or a colon.
   */
  lemma SameForAcceptingHandler(o: Options, s: Text)
    requires forall out: seq<Event> :: o.accepts(out)
    ensures JsonGrammar.Parse(o, s) == JsonAutomaton.Parse(o, s) <==> !IsPunctuation(FirstChar(o, s))
  {
    ParsersAgree(o, s);
    SkipNeverTerminates(o, s, 0, []);
    var r0 := Skip(o, s, 0, []);
    if r0.Ok? && Peek(s, r0.pos) != NUL {
      ValueTermination(o, s, r0.pos, []);
      var r1 := ParseValue(o, s, r0.pos, []);
      if r1.Ok? {
        SkipNeverTerminates(o, s, r1.pos, r1.out);
      }
      if IsPunctuation(Peek(s, r0.pos)) {
        assert r1 == Fail(ValueInvalid, r0.pos, []);
      }
    }
  }
}
