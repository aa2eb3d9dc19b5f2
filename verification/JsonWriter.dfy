/**
 `Writer`: a handler that puts JSON text to a stream. Commas and colons come from the parity of a
 counter per level. Printing doubles is a parameter; everything else is as in writer.h.
 */
module JsonWriter {
  import opened Bytes
  import opened Optional
  import opened Sequences
  import opened Decimal
  import opened JsonTypes
  import Utf8
  import opened Utf8Properties

  /** Target encoding and write flags; `printDouble` stands for `dtoa` and the treatment of NaN and infinity. */
  datatype Style = Style(ascii: bool, validate: bool, printDouble: Text -> Option<Text>)

  // Strings

  /** The table `escape` of `WriteString`; NUL where the character needs no escape. */
  function Escape(c: byte): byte {
    if c == BACKSPACE then LOWER_B
    else if c == TAB then LOWER_T
    else if c == LINE_FEED then LOWER_N
    else if c == FORM_FEED then LOWER_F
    else if c == CARRIAGE_RETURN then LOWER_R
    else if c < SPACE then LOWER_U
    else if c == QUOTE || c == BACKSLASH then c
    else NUL
  }

  function HexDigit(n: nat): byte
    requires n < 16
  {
    if n < 10 then ZERO + n else UPPER_A + (n - 10)
  }

  /** `\uXXXX`. */
  function UnicodeEscape(unit: nat): (w: Text)
    requires unit < 0x1_0000
    ensures |w| == 6
  {
    [BACKSLASH, LOWER_U, HexDigit(unit / 4096), HexDigit(unit / 256 % 16), HexDigit(unit / 16 % 16),
     HexDigit(unit % 16)]
  }

  /** A code point outside ASCII, as one escape or as a surrogate pair. */
  function EscapeCodePoint(cp: nat): Text
    requires cp < 0x11_0000
  {
    if cp <= 0xFFFF then UnicodeEscape(cp)
    else UnicodeEscape((cp - 0x1_0000) / 1024 + 0xD800) + UnicodeEscape((cp - 0x1_0000) % 1024 + 0xDC00)
  }

  /** A byte below 0x80. */
  function EscapeByte(c: byte): Text {
    if Escape(c) == NUL then [c]
    else if Escape(c) == LOWER_U then [BACKSLASH, LOWER_U, ZERO, ZERO, HexDigit(c / 16), HexDigit(c % 16)]
    else [BACKSLASH, Escape(c)]
  }

  /** What one turn of the loop puts for the character at `i`, and where the next one begins; None when it fails. */
  datatype Turn = Put(next: nat, text: Text) | Refuse

  function WriteChar(w: Style, str: Text, i: nat): (r: Turn)
    requires i < |str|
    ensures r.Put? ==> i < r.next <= |str|
  {
    var c := str[i];
    if (w.ascii && c >= 0x80) || (w.validate && Escape(c) == NUL) then
      var d := Utf8.Decode(str, i);
      if !d.ok then Refuse
      else
        EncodeOfDecode(str, i);
        Put(d.pos, if w.ascii && c >= 0x80 then EscapeCodePoint(d.codepoint) else str[i..d.pos])
    else Put(i + 1, EscapeByte(c))
  }

  /** The characters from `i` on, without quotation marks. */
  function WriteChars(w: Style, str: Text, i: nat): (r: Option<Text>)
    requires i <= |str|
    decreases |str| - i
  {
    if i == |str| then Some([])
    else
      var t := WriteChar(w, str, i);
      if t.Refuse? then None else
      var rest := WriteChars(w, str, t.next);
      if rest.None? then None else Some(t.text + rest.value)
  }

  /** The characters from `i` on, up to the first that is refused. */
  function Written(w: Style, str: Text, i: nat): Text
    requires i <= |str|
    decreases |str| - i
  {
    if i == |str| then []
    else
      var t := WriteChar(w, str, i);
      if t.Refuse? then [] else t.text + Written(w, str, t.next)
  }

  /** `WriteString`. */
  function StringText(w: Style, str: Text): Option<Text> {
    var body := WriteChars(w, str, 0);
    if body.None? then None else Some([QUOTE] + body.value + [QUOTE])
  }

  // Numbers

  function IntegerText(n: int): Text {
    if n < 0 then [MINUS] + Digits(-n) else Digits(n)
  }

  // Events

  datatype Level = Level(valueCount: nat, inArray: bool)

  datatype State = State(os: Text, levels: seq<Level>, hasRoot: bool)

  const NULL_TEXT: Text := [LOWER_N, LOWER_U, LOWER_L, LOWER_L]
  const TRUE_TEXT: Text := [LOWER_T, LOWER_R, LOWER_U, LOWER_E]
  const FALSE_TEXT: Text := [LOWER_F, LOWER_A, LOWER_L, LOWER_S, LOWER_E]

  /** May a value begin? The assertions of `Prefix`. */
  predicate ExpectsValue(st: State, isString: bool) {
    if st.levels == [] then !st.hasRoot
    else var top := st.levels[|st.levels| - 1]; top.inArray || top.valueCount % 2 == 1 || isString
  }

  /** The assertions of the handler method for `e`. */
  predicate Expects(st: State, e: Event) {
    match e
    case EndObject(_) =>
      st.levels != [] && var top := st.levels[|st.levels| - 1]; !top.inArray && top.valueCount % 2 == 0
    case EndArray(_) => st.levels != [] && st.levels[|st.levels| - 1].inArray
    case _ => ExpectsValue(st, e.String? || e.Key?)
  }

  /** What `Prefix` puts in front of a value. */
  function Separator(levels: seq<Level>): Text {
    if levels == [] then []
    else
      var top := levels[|levels| - 1];
      if top.valueCount == 0 then []
      else if top.inArray || top.valueCount % 2 == 0 then [COMMA]
      else [COLON]
  }

  /** `Prefix`. */
  function Prefix(st: State): State {
    if st.levels == [] then st.(hasRoot := true)
    else
      var n := |st.levels| - 1;
      var top := st.levels[n];
      State(st.os + Separator(st.levels), st.levels[..n] + [Level(top.valueCount + 1, top.inArray)], st.hasRoot)
  }

  function Append(st: State, text: Text): State {
    st.(os := st.os + text)
  }

  function Push(st: State, inArray: bool): State {
    st.(levels := st.levels + [Level(0, inArray)])
  }

  function Pop(st: State): State
    requires st.levels != []
  {
    st.(levels := st.levels[..|st.levels| - 1])
  }

  /** The text of a value that is no container; None when its write fails. */
  function ScalarText(w: Style, e: Event): Option<Text> {
    match e
    case Null => Some(NULL_TEXT)
    case Bool(b) => Some(if b then TRUE_TEXT else FALSE_TEXT)
    case Int(i) => Some(IntegerText(i))
    case Uint(u) => Some(IntegerText(u))
    case Int64(i64) => Some(IntegerText(i64))
    case Uint64(u64) => Some(IntegerText(u64))
    case Double(lexeme) => w.printDouble(lexeme)
    case RawNumber(lexeme) => StringText(w, lexeme)
    case String(str) => StringText(w, str)
    case Key(str) => StringText(w, str)
    case _ => None
  }

  /** One event; None when the method returns false. */
  function Write(w: Style, st: State, e: Event): Option<State>
    requires Expects(st, e)
  {
    match e
    case StartObject => Some(Append(Push(Prefix(st), false), [LEFT_BRACE]))
    case StartArray => Some(Append(Push(Prefix(st), true), [LEFT_BRACKET]))
    case EndObject(_) => Some(Append(Pop(st), [RIGHT_BRACE]))
    case EndArray(_) => Some(Append(Pop(st), [RIGHT_BRACKET]))
    case _ =>
      var text := ScalarText(w, e);
      if text.None? then None else Some(Append(Prefix(st), text.value))
  }

  /** A fresh writer after all events; None when a method returned false or an assertion failed. */
  function Run(w: Style, events: seq<Event>): Option<State> {
    if events == [] then Some(State([], [], false))
    else
      var n := |events| - 1;
      var before := Run(w, events[..n]);
      if before.None? || !Expects(before.value, events[n]) then None
      else Write(w, before.value, events[n])
  }

  lemma {:induction false} RunStep(w: Style, out: seq<Event>, e: Event)
    requires Run(w, out).Some? && Expects(Run(w, out).value, e)
    ensures Run(w, out + [e]) == Write(w, Run(w, out).value, e)
  {
    assert (out + [e])[..|out|] == out;
  }

  /** What the loop of `WriteString` is to write in all is what it has written and what it will write. */
  ghost predicate Continues(all: Option<Text>, body: Text, rest: Option<Text>) {
    if rest.None? then all.None? else all == Some(body + rest.value)
  }

  lemma {:induction false} WriteCharsStep(w: Style, str: Text, i: nat, body: Text)
    requires i < |str| && WriteChar(w, str, i).Put?
    ensures var t := WriteChar(w, str, i); body + Written(w, str, i) == body + t.text + Written(w, str, t.next)
    ensures forall all :: Continues(all, body, WriteChars(w, str, i)) ==>
              var t := WriteChar(w, str, i); Continues(all, body + t.text, WriteChars(w, str, t.next))
  {
    var t := WriteChar(w, str, i);
    Regroup(body, t.text, Written(w, str, t.next));
    var rest := WriteChars(w, str, t.next);
    if rest.Some? {
      Regroup(body, t.text, rest.value);
    }
  }

  lemma {:induction false} NothingWritten(w: Style, str: Text, i: nat)
    requires i < |str| && WriteChar(w, str, i).Refuse?
    ensures Written(w, str, i) == []
  {
  }

  /** The writer as an object. */
  class Writer {
    const w: Style
    var os: Text
    var levelStack: seq<Level>
    var hasRoot: bool

    constructor (w: Style)
      ensures this.w == w && Current() == State([], [], false)
    {
      this.w := w;
      os, levelStack, hasRoot := [], [], false;
    }

    function Current(): State
      reads this
    {
      State(os, levelStack, hasRoot)
    }

    method PrefixValue(isString: bool)
      requires ExpectsValue(Current(), isString)
      modifies this
      ensures Current() == Prefix(old(Current()))
    {
      if |levelStack| != 0 {
        var n := |levelStack| - 1;
        var level := levelStack[n];
        if level.valueCount > 0 {
          if level.inArray {
            os := os + [COMMA];
          } else {
            os := os + [if level.valueCount % 2 == 0 then COMMA else COLON];
          }
        }
        levelStack := levelStack[..n] + [level.(valueCount := level.valueCount + 1)];
      } else {
        hasRoot := true;
      }
    }

    /** One turn of the loop of `WriteString`. What a refused character has put is not specified. */
    method WriteCharacter(str: Text, i: nat) returns (ok: bool, next: nat)
      requires i < |str|
      modifies this`os
      ensures match WriteChar(w, str, i)
              case Put(n, text) => ok && next == n && os == old(os) + text
              case Refuse => !ok && old(os) <= os
    {
      ok, next := true, i + 1;
      var c := str[i];
      if w.ascii && c >= 0x80 {
        var d := Utf8.Decode(str, i);
        if d.ok {
          EncodeOfDecode(str, i);
          os := os + EscapeCodePoint(d.codepoint);
        }
        ok, next := d.ok, d.pos;
      } else if Escape(c) != NUL {
        os := os + [BACKSLASH, Escape(c)];
        if Escape(c) == LOWER_U {
          os := os + [ZERO, ZERO, HexDigit(c / 16), HexDigit(c % 16)];
        }
      } else if w.validate {
        var d := Utf8.Decode(str, i);
        if d.ok {
          os := os + str[i..d.pos];
        }
        ok, next := d.ok, d.pos;
      } else {
        os := os + [c];
      }
    }

    /** `WriteString`. A refused string leaves the quotation mark and all characters in front of the refused one. */
    method WriteString(str: Text) returns (ok: bool)
      modifies this`os
      ensures ok == StringText(w, str).Some?
      ensures !ok ==> old(os) + [QUOTE] + Written(w, str, 0) <= os
      ensures ok ==> os == old(os) + StringText(w, str).value
    {
      hide WriteChar;
      os := os + [QUOTE];
      var i := 0;
      ghost var body: Text := [];
      assert WriteChars(w, str, 0).Some? ==> body + WriteChars(w, str, 0).value == WriteChars(w, str, 0).value;
      while i < |str|
        invariant i <= |str| && os == old(os) + [QUOTE] + body
        invariant Continues(WriteChars(w, str, 0), body, WriteChars(w, str, i))
        invariant Written(w, str, 0) == body + Written(w, str, i)
        decreases |str| - i
      {
        var t := WriteChar(w, str, i);
        var written, next := WriteCharacter(str, i);
        if !written {
          NothingWritten(w, str, i);
          Regroup(old(os), [QUOTE], body);
          return false;
        }
        Regroup(old(os) + [QUOTE], body, t.text);
        WriteCharsStep(w, str, i, body);
        body := body + t.text;
        i := next;
      }
      os := os + [QUOTE];
      Regroup(old(os), [QUOTE], body);
      Regroup(old(os), [QUOTE] + body, [QUOTE]);
      ok := true;
    }

    /** `String`, `Key` and `RawNumber`. */
    method String(e: Event) returns (ok: bool)
      requires (e.String? || e.Key? || e.RawNumber?) && Expects(Current(), e)
      modifies this
      ensures ok == Write(w, old(Current()), e).Some?
      ensures ok ==> Current() == Write(w, old(Current()), e).value
      ensures !ok ==>
                var st := Prefix(old(Current()));
                && levelStack == st.levels && hasRoot == st.hasRoot
                && st.os + [QUOTE] + Written(w, if e.RawNumber? then e.lexeme else e.str, 0) <= os
    {
      PrefixValue(e.String? || e.Key?);
      ok := WriteString(if e.RawNumber? then e.lexeme else e.str);
    }

    /** A double is put as `printDouble` says, or refused. */
    method Double(lexeme: Text) returns (ok: bool)
      requires Expects(Current(), Event.Double(lexeme))
      modifies this
      ensures ok == Write(w, old(Current()), Event.Double(lexeme)).Some?
      ensures Current() == if ok then Write(w, old(Current()), Event.Double(lexeme)).value else Prefix(old(Current()))
    {
      PrefixValue(false);
      var text := w.printDouble(lexeme);
      ok := text.Some?;
      if ok {
        os := os + text.value;
      }
    }

    /** Null, booleans and integers: their text never fails. */
    method Scalar(e: Event)
      requires (e.Null? || e.Bool? || e.Int? || e.Uint? || e.Int64? || e.Uint64?) && Expects(Current(), e)
      modifies this
      ensures Write(w, old(Current()), e) == Some(Current())
    {
      PrefixValue(false);
      os := os + ScalarText(w, e).value;
    }

    method StartObject()
      requires Expects(Current(), Event.StartObject)
      modifies this
      ensures Write(w, old(Current()), Event.StartObject) == Some(Current())
    {
      PrefixValue(false);
      levelStack := levelStack + [Level(0, false)];
      os := os + [LEFT_BRACE];
    }

    method EndObject(memberCount: nat)
      requires Expects(Current(), Event.EndObject(memberCount))
      modifies this
      ensures Write(w, old(Current()), Event.EndObject(memberCount)) == Some(Current())
    {
      levelStack := levelStack[..|levelStack| - 1];
      os := os + [RIGHT_BRACE];
    }

    method StartArray()
      requires Expects(Current(), Event.StartArray)
      modifies this
      ensures Write(w, old(Current()), Event.StartArray) == Some(Current())
    {
      PrefixValue(false);
      levelStack := levelStack + [Level(0, true)];
      os := os + [LEFT_BRACKET];
    }

    method EndArray(elementCount: nat)
      requires Expects(Current(), Event.EndArray(elementCount))
      modifies this
      ensures Write(w, old(Current()), Event.EndArray(elementCount)) == Some(Current())
    {
      levelStack := levelStack[..|levelStack| - 1];
      os := os + [RIGHT_BRACKET];
    }
  }
}
