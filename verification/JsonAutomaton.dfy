/**
 The table-driven parser: tokens, the transition table `Predict`, `Transit` with its explicit
 stack, and the loop of `IterativeParse` as a recursive function.
 */
module JsonAutomaton {
  import opened Bytes
  import opened JsonTypes
  import opened JsonLexical
  import opened JsonGrammar

  datatype State =
    | FinishState
    | ErrorState
    | StartState
    | ObjectInitialState
    | MemberKeyState
    | MemberValueState
    | ObjectFinishState
    | ArrayInitialState
    | ElementState
    | ArrayFinishState
    | ValueState
    | ElementDelimiterState
    | MemberDelimiterState
    | KeyValueDelimiterState

  datatype Token =
    | LeftBracketToken
    | RightBracketToken
    | LeftCurlyBracketToken
    | RightCurlyBracketToken
    | CommaToken
    | ColonToken
    | StringToken
    | FalseToken
    | TrueToken
    | NullToken
    | NumberToken

  function Tokenize(c: byte): Token {
    if c == LEFT_BRACKET then LeftBracketToken
    else if c == RIGHT_BRACKET then RightBracketToken
    else if c == LEFT_BRACE then LeftCurlyBracketToken
    else if c == RIGHT_BRACE then RightCurlyBracketToken
    else if c == COMMA then CommaToken
    else if c == COLON then ColonToken
    else if c == QUOTE then StringToken
    else if c == LOWER_F then FalseToken
    else if c == LOWER_T then TrueToken
    else if c == LOWER_N then NullToken
    else NumberToken
  }

  /** The token starts a value that is neither an object nor an array. */
  predicate IsScalarToken(t: Token) {
    t.StringToken? || t.FalseToken? || t.TrueToken? || t.NullToken? || t.NumberToken?
  }

  /** The table G: current state and lookahead token give the candidate state. */
  function Predict(state: State, t: Token): State {
    match state
    case StartState =>
      if t.LeftBracketToken? then ArrayInitialState
      else if t.LeftCurlyBracketToken? then ObjectInitialState
      else if IsScalarToken(t) then ValueState
      else ErrorState
    case ObjectInitialState =>
      if t.RightCurlyBracketToken? then ObjectFinishState
      else if t.StringToken? then MemberKeyState
      else ErrorState
    case MemberKeyState =>
      if t.ColonToken? then KeyValueDelimiterState else ErrorState
    case MemberValueState =>
      if t.RightCurlyBracketToken? then ObjectFinishState
      else if t.CommaToken? then MemberDelimiterState
      else ErrorState
    case ArrayInitialState =>
      if t.RightBracketToken? then ArrayFinishState
      else if t.LeftBracketToken? then ArrayInitialState
      else if t.LeftCurlyBracketToken? then ObjectInitialState
      else if IsScalarToken(t) then ElementState
      else ErrorState
    case ElementState =>
      if t.RightBracketToken? then ArrayFinishState
      else if t.CommaToken? then ElementDelimiterState
      else ErrorState
    case ElementDelimiterState =>
      if t.RightBracketToken? then ArrayFinishState
      else if t.LeftBracketToken? then ArrayInitialState
      else if t.LeftCurlyBracketToken? then ObjectInitialState
      else if IsScalarToken(t) then ElementState
      else ErrorState
    case MemberDelimiterState =>
      if t.RightCurlyBracketToken? then ObjectFinishState
      else if t.StringToken? then MemberKeyState
      else ErrorState
    case KeyValueDelimiterState =>
      if t.LeftBracketToken? then ArrayInitialState
      else if t.LeftCurlyBracketToken? then ObjectInitialState
      else if IsScalarToken(t) then MemberValueState
      else ErrorState
    case FinishState => ErrorState
    case ErrorState => ErrorState
    case ObjectFinishState => ErrorState
    case ArrayFinishState => ErrorState
    case ValueState => ErrorState
  }

  /** One open container on the stack: the state to return to, and the number of entries counted so far. */
  datatype Frame = Frame(ret: State, count: nat)

  predicate IsReturnState(state: State) {
    state.StartState? || state.MemberValueState? || state.ElementState?
  }

  /** The state a value that starts in `src` leads to; also what is pushed for it. */
  function AfterValue(src: State): State {
    match src
    case ArrayInitialState => ElementState
    case ElementDelimiterState => ElementState
    case KeyValueDelimiterState => MemberValueState
    case _ => src
  }

  /** The innermost container is last; the outermost, and no other, returns to the start. */
  predicate WellFormed(stack: seq<Frame>) {
    forall k | 0 <= k < |stack| :: IsReturnState(stack[k].ret) && (stack[k].ret.StartState? <==> k == 0)
  }

  /** A machine that waits for its next token. */
  datatype Machine = Machine(state: State, pos: nat, stack: seq<Frame>, out: seq<Event>)

  /** What one transition leads to. */
  datatype Move = To(m: Machine) | Stop(error: Error, out: seq<Event>)

  /** `HandleError`, when no error has been set. */
  function StateError(src: State): ErrorCode {
    match src
    case StartState => DocumentEmpty
    case FinishState => DocumentRootNotSingular
    case ObjectInitialState => ObjectMissName
    case MemberDelimiterState => ObjectMissName
    case MemberKeyState => ObjectMissColon
    case MemberValueState => ObjectMissCommaOrCurlyBracket
    case KeyValueDelimiterState => ValueInvalid
    case ArrayInitialState => ValueInvalid
    case ElementDelimiterState => ValueInvalid
    case _ => ArrayMissCommaOrSquareBracket
  }

  /** Turn the outcome of a parsing step into a move to `state`. */
  function Moved(r: Outcome, state: State, stack: seq<Frame>): Move {
    match r
    case Ok(pos, out) => To(Machine(state, pos, stack, out))
    case Err(error, out) => Stop(error, out)
  }

  /** A container opens: push the return state and a zero count. */
  function Open(o: Options, m: Machine, dst: State, e: Event): Move {
    Moved(Emit(o, e, m.out, m.pos + 1, m.pos), dst, m.stack + [Frame(AfterValue(m.state), 0)])
  }

  /** The state behind a container that was opened in a state with this return state. */
  function Return(ret: State): State {
    if ret.StartState? then FinishState else ret
  }

  /** The count a container closes with; `last` says whether an uncounted entry precedes. */
  function FinalCount(m: Machine, last: bool): nat
    requires |m.stack| > 0
  {
    var count := m.stack[|m.stack| - 1].count;
    if last then Increment(count) else count
  }

  /** A container closes: pop the frame and go back to its return state. */
  function Close(o: Options, m: Machine, e: Event): Move
    requires |m.stack| > 0
  {
    var n := |m.stack| - 1;
    Moved(Emit(o, e, m.out, m.pos + 1, m.pos), Return(m.stack[n].ret), m.stack[..n])
  }

  /**
   The states a running machine can be in, and what they say about the stack: see the safety lemma of the
   equivalence.
   */
  predicate Running(m: Machine, s: Text) {
    && m.pos <= |s|
    && WellFormed(m.stack)
    && !m.state.ErrorState? && !m.state.ObjectFinishState? && !m.state.ArrayFinishState? && !m.state.ValueState?
    && (m.state.StartState? || m.state.FinishState? <==> m.stack == [])
  }

  /** `Transit`, for the candidate state that `Predict` gives, and `HandleError` behind it. */
  function Transit(o: Options, s: Text, m: Machine): (r: Move)
    requires Running(m, s) && Peek(s, m.pos) != NUL
    ensures r.To? ==> Running(r.m, s) && m.pos < r.m.pos
  {
    var dst := Predict(m.state, Tokenize(Peek(s, m.pos)));
    match dst
    case ObjectInitialState => Open(o, m, dst, StartObject)
    case ArrayInitialState => Open(o, m, dst, StartArray)
    case MemberKeyState => Moved(ParseString(o, s, m.pos, true, m.out), dst, m.stack)
    case KeyValueDelimiterState => To(Machine(dst, m.pos + 1, m.stack, m.out))
    case MemberValueState => Moved(ParseValue(o, s, m.pos, m.out), dst, m.stack)
    case ElementState => Moved(ParseValue(o, s, m.pos, m.out), dst, m.stack)
    case MemberDelimiterState => To(Machine(dst, m.pos + 1, CountOne(m.stack), m.out))
    case ElementDelimiterState => To(Machine(dst, m.pos + 1, CountOne(m.stack), m.out))
    case ObjectFinishState =>
      if !o.trailingCommas && m.state.MemberDelimiterState? then Stop(Error(ObjectMissName, m.pos), m.out)
      else Close(o, m, EndObject(FinalCount(m, m.state.MemberValueState?)))
    case ArrayFinishState =>
      if !o.trailingCommas && m.state.ElementDelimiterState? then Stop(Error(ValueInvalid, m.pos), m.out)
      else Close(o, m, EndArray(FinalCount(m, m.state.ElementState?)))
    case ValueState => Moved(ParseValue(o, s, m.pos, m.out), FinishState, m.stack)
    case ErrorState => Stop(Error(StateError(m.state), m.pos), m.out)
    case _ => Stop(Error(StateError(m.state), m.pos), m.out)
  }

  /** Update the count on the top of the stack. */
  function CountOne(stack: seq<Frame>): (r: seq<Frame>)
    requires |stack| > 0
  {
    var top := stack[|stack| - 1];
    stack[..|stack| - 1] + [Frame(top.ret, Increment(top.count))]
  }

  /** The loop of `IterativeParse`, at its head. */
  function Iterate(o: Options, s: Text, m: Machine): (r: Outcome)
    requires Running(m, s)
    decreases |s| - m.pos, 0
  {
    if Peek(s, m.pos) == NUL then
      if m.state.FinishState? then Ok(m.pos, m.out) else Fail(StateError(m.state), m.pos, m.out)
    else
      match Transit(o, s, m)
      case Stop(error, out) => Err(error, out)
      case To(m1) => Resume(o, s, m1)
  }

  /** The second half of the loop body: stop when done, or skip to the next token. */
  function Resume(o: Options, s: Text, m: Machine): (r: Outcome)
    requires Running(m, s)
    decreases |s| - m.pos, 1
  {
    if o.stopWhenDone && m.state.FinishState? then Ok(m.pos, m.out)
    else
      var r := Skip(o, s, m.pos, m.out);
      if r.Err? then r else Iterate(o, s, m.(pos := r.pos))
  }

  // The same loop, remembering the state it stops in

  datatype Halt = Halt(outcome: Outcome, state: State)

  function Halting(o: Options, s: Text, m: Machine): (h: Halt)
    requires Running(m, s)
    decreases |s| - m.pos, 0
  {
    if Peek(s, m.pos) == NUL then
      Halt(if m.state.FinishState? then Ok(m.pos, m.out) else Fail(StateError(m.state), m.pos, m.out), m.state)
    else
      match Transit(o, s, m)
      case Stop(error, out) => Halt(Err(error, out), m.state)
      case To(m1) => HaltingOn(o, s, m1)
  }

  function HaltingOn(o: Options, s: Text, m: Machine): (h: Halt)
    requires Running(m, s)
    decreases |s| - m.pos, 1
  {
    if o.stopWhenDone && m.state.FinishState? then Halt(Ok(m.pos, m.out), m.state)
    else
      var r := Skip(o, s, m.pos, m.out);
      if r.Err? then Halt(r, m.state) else Halting(o, s, m.(pos := r.pos))
  }

  lemma {:induction false} HaltingIsIterate(o: Options, s: Text, m: Machine)
    requires Running(m, s)
    ensures Halting(o, s, m).outcome == Iterate(o, s, m)
    decreases |s| - m.pos, 0
  {
    hide Transit, Skip;
    if Peek(s, m.pos) != NUL {
      var r := Transit(o, s, m);
      if r.To? { HaltingOnIsResume(o, s, r.m); }
    }
  }

  lemma {:induction false} HaltingOnIsResume(o: Options, s: Text, m: Machine)
    requires Running(m, s)
    ensures HaltingOn(o, s, m).outcome == Resume(o, s, m)
    decreases |s| - m.pos, 1
  {
    hide Transit, Skip;
    var r := Skip(o, s, m.pos, m.out);
    if r.Ok? { HaltingIsIterate(o, s, m.(pos := r.pos)); }
  }

  /** The state in which `IterativeParse` stops. */
  function LastState(o: Options, s: Text): State {
    var r := Skip(o, s, 0, []);
    if r.Err? then StartState else Halting(o, s, Machine(StartState, r.pos, [], [])).state
  }

  /** `IterativeParse`. */
  function Parse(o: Options, s: Text): Outcome {
    var r := Skip(o, s, 0, []);
    if r.Err? then r else Iterate(o, s, Machine(StartState, r.pos, [], []))
  }
}
