/**
 The text of a tree, defined by recursion on the tree, and the proof that the writer, driven by
 the tree's events, puts exactly that text.
 */
module JsonPrint {
  import opened Bytes
  import opened Optional
  import opened Sequences
  import opened Decimal
  import opened JsonTypes
  import opened JsonValue
  import opened JsonWriter

  /** Trees the writer can print: its strings and doubles are. */
  predicate Printable(w: Style, v: Value) {
    match v
    case DoubleValue(lexeme) => w.printDouble(lexeme).Some?
    case StringValue(str) => StringText(w, str).Some?
    case ArrayValue(elements) => forall e <- elements :: Printable(w, e)
    case ObjectValue(members) => forall m <- members :: StringText(w, m.name).Some? && Printable(w, m.value)
    case _ => true
  }

  function TextOf(w: Style, v: Value): (t: Text)
    requires Printable(w, v)
    decreases v
  {
    match v
    case NullValue => NULL_TEXT
    case BoolValue(b) => if b then TRUE_TEXT else FALSE_TEXT
    case IntegerValue(n) => IntegerText(n)
    case DoubleValue(lexeme) => w.printDouble(lexeme).value
    case StringValue(str) => StringText(w, str).value
    case ArrayValue(elements) => [LEFT_BRACKET] + ElementsText(w, elements, 0) + [RIGHT_BRACKET]
    case ObjectValue(members) => [LEFT_BRACE] + MembersText(w, members, 0) + [RIGHT_BRACE]
  }

  /** The elements from `k` on, each but the first behind a comma. */
  function ElementsText(w: Style, elements: seq<Value>, k: nat): Text
    requires k <= |elements| && forall e <- elements :: Printable(w, e)
    decreases elements, |elements| - k
  {
    if k == |elements| then []
    else Comma(k) + TextOf(w, elements[k]) + ElementsText(w, elements, k + 1)
  }

  function Comma(k: nat): Text {
    if k == 0 then [] else [COMMA]
  }

  /** The members from `k` on. */
  function MembersText(w: Style, members: seq<Member>, k: nat): Text
    requires k <= |members| && forall m <- members :: StringText(w, m.name).Some? && Printable(w, m.value)
    decreases members, |members| - k
  {
    if k == |members| then []
    else MemberText(w, members[k], k) + MembersText(w, members, k + 1)
  }

  function MemberText(w: Style, m: Member, k: nat): Text
    requires StringText(w, m.name).Some? && Printable(w, m.value)
    decreases m, 1
  {
    Comma(k) + StringText(w, m.name).value + [COLON] + TextOf(w, m.value)
  }

  /** The writer's state behind a value with text `text`. */
  function Behind(st: State, text: Text): State {
    Append(Prefix(st), text)
  }

  /** Driven by the events of a tree, the writer puts the separator its level asks for, and the tree's text. */
  lemma {:induction false} EventsPrint(w: Style, v: Value, source: Source, out: seq<Event>, st: State)
    requires Sized(v) && Printable(w, v)
    requires Run(w, out) == Some(st) && ExpectsValue(st, false)
    ensures Run(w, out + Events(v, source)) == Some(Behind(st, TextOf(w, v)))
    decreases v
  {
    hide Run, Write, Expects, ExpectsValue, Prefix, Behind, TextOf;
    Scalars(w, v, source, st);
    if v.ArrayValue? {
      Opens(w, st);
      RunStep(w, out, StartArray);
      ElementEventsPrint(w, v.elements, 0, source, out + [StartArray], st, []);
      ArrayCloses(w, v, source, out, st);
    } else if v.ObjectValue? {
      Opens(w, st);
      RunStep(w, out, StartObject);
      MemberEventsPrint(w, v.members, 0, source, out + [StartObject], st, []);
      ObjectCloses(w, v, source, out, st);
    } else {
      RunStep(w, out, Events(v, source)[0]);
    }
  }

  lemma {:induction false} ArrayCloses(w: Style, v: Value, source: Source, out: seq<Event>, st: State)
    requires Sized(v) && Printable(w, v) && v.ArrayValue?
    requires var es, body := ElementEvents(v.elements, 0, source), ElementsText(w, v.elements, 0);
             Run(w, out + [StartArray] + es) == Some(Inner(st, true, [] + body, |v.elements|))
    ensures Run(w, out + Events(v, source)) == Some(Behind(st, TextOf(w, v)))
  {
    hide Run, Write, Expects, Inner, Behind;
    var es, body := ElementEvents(v.elements, 0, source), ElementsText(w, v.elements, 0);
    assert [] + body == body;
    Closes(w, st, body, |v.elements|);
    RunStep(w, out + [StartArray] + es, EndArray(|v.elements|));
    Regroup4(out, [StartArray], es, [EndArray(|v.elements|)]);
  }

  lemma {:induction false} ObjectCloses(w: Style, v: Value, source: Source, out: seq<Event>, st: State)
    requires Sized(v) && Printable(w, v) && v.ObjectValue?
    requires var es, body := MemberEvents(v.members, 0, source), MembersText(w, v.members, 0);
             Run(w, out + [StartObject] + es) == Some(Inner(st, false, [] + body, 2 * |v.members|))
    ensures Run(w, out + Events(v, source)) == Some(Behind(st, TextOf(w, v)))
  {
    hide Run, Write, Expects, Inner, Behind;
    var es, body := MemberEvents(v.members, 0, source), MembersText(w, v.members, 0);
    assert [] + body == body;
    Closes(w, st, body, |v.members|);
    RunStep(w, out + [StartObject] + es, EndObject(|v.members|));
    Regroup4(out, [StartObject], es, [EndObject(|v.members|)]);
  }

  /** The state inside a container that was opened in `st`, with `body` written and `count` values counted. */
  function Inner(st: State, inArray: bool, body: Text, count: nat): State {
    var s1 := Prefix(st);
    State(s1.os + [if inArray then LEFT_BRACKET else LEFT_BRACE] + body, s1.levels + [Level(count, inArray)],
          s1.hasRoot)
  }

  lemma {:induction false} Scalars(w: Style, v: Value, source: Source, st: State)
    requires Sized(v) && Printable(w, v) && ExpectsValue(st, false)
    ensures Expects(st, StartArray) && Expects(st, StartObject)
    ensures !v.ArrayValue? && !v.ObjectValue? ==>
              && |Events(v, source)| == 1 && Expects(st, Events(v, source)[0])
              && Write(w, st, Events(v, source)[0]) == Some(Behind(st, TextOf(w, v)))
  {
    hide StringText, IntegerText;
  }

  lemma StartExpected(st: State)
    requires ExpectsValue(st, false)
    ensures Expects(st, StartArray) && Expects(st, StartObject)
  {
  }

  lemma Opens(w: Style, st: State)
    requires Expects(st, StartArray) && Expects(st, StartObject)
    ensures Write(w, st, StartArray) == Some(Inner(st, true, [], 0))
    ensures Write(w, st, StartObject) == Some(Inner(st, false, [], 0))
  {
    var os := Prefix(st).os;
    assert os + [LEFT_BRACKET] + [] == os + [LEFT_BRACKET];
    assert os + [LEFT_BRACE] + [] == os + [LEFT_BRACE];
  }

  lemma Closes(w: Style, st: State, body: Text, count: nat)
    ensures var inner := Inner(st, true, body, count);
            Expects(inner, EndArray(count))
            && Write(w, inner, EndArray(count)) == Some(Behind(st, [LEFT_BRACKET] + body + [RIGHT_BRACKET]))
    ensures var inner := Inner(st, false, body, 2 * count);
            Expects(inner, EndObject(count))
            && Write(w, inner, EndObject(count)) == Some(Behind(st, [LEFT_BRACE] + body + [RIGHT_BRACE]))
  {
    var s1 := Prefix(st);
    Regroup4(s1.os, [LEFT_BRACKET], body, [RIGHT_BRACKET]);
    Regroup4(s1.os, [LEFT_BRACE], body, [RIGHT_BRACE]);
    assert (s1.levels + [Level(count, true)])[..|s1.levels|] == s1.levels;
    assert (s1.levels + [Level(2 * count, false)])[..|s1.levels|] == s1.levels;
  }

  /** One more value inside a container: its separator, its text, and the count. */
  lemma InnerBehind(st: State, inArray: bool, body: Text, count: nat, text: Text)
    ensures var separator := if count == 0 then [] else if inArray || count % 2 == 0 then [COMMA] else [COLON];
            Behind(Inner(st, inArray, body, count), text) == Inner(st, inArray, body + separator + text, count + 1)
  {
    var s1 := Prefix(st);
    var inner := Inner(st, inArray, body, count);
    assert inner.levels[..|inner.levels| - 1] == s1.levels;
    var separator: Text := if count == 0 then [] else if inArray || count % 2 == 0 then [COMMA] else [COLON];
    Regroup4(s1.os + [if inArray then LEFT_BRACKET else LEFT_BRACE], body, separator, text);
    assert Separator(inner.levels) == separator;
  }

  lemma {:induction false} ElementEventsPrint(w: Style, elements: seq<Value>, k: nat, source: Source,
                                              out: seq<Event>, st: State, body: Text)
    requires k <= |elements| && forall e <- elements :: Sized(e) && Printable(w, e)
    requires Run(w, out) == Some(Inner(st, true, body, k))
    ensures Run(w, out + ElementEvents(elements, k, source))
         == Some(Inner(st, true, body + ElementsText(w, elements, k), |elements|))
    decreases elements, |elements| - k
  {
    if k == |elements| {
      assert out + [] == out && body + [] == body;
    } else {
      hide Run, Events, TextOf, Inner, Behind;
      var es, text := Events(elements[k], source), TextOf(w, elements[k]);
      var rest, tail := ElementEvents(elements, k + 1, source), ElementsText(w, elements, k + 1);
      assert ExpectsValue(Inner(st, true, body, k), false) by { ArrayExpects(st, body, k); }
      EventsPrint(w, elements[k], source, out, Inner(st, true, body, k));
      InnerBehind(st, true, body, k, text);
      ElementEventsPrint(w, elements, k + 1, source, out + es, st, body + Comma(k) + text);
      Regroup(out, es, rest);
      Regroup4(body, Comma(k), text, tail);
    }
  }

  lemma ArrayExpects(st: State, body: Text, k: nat)
    ensures ExpectsValue(Inner(st, true, body, k), false)
  {
  }

  lemma ObjectExpects(st: State, body: Text, k: nat, name: Text)
    ensures Expects(Inner(st, false, body, 2 * k), Key(name))
    ensures ExpectsValue(Inner(st, false, body, 2 * k + 1), false)
  {
  }

  lemma {:induction false} MemberEventsPrint(w: Style, members: seq<Member>, k: nat, source: Source, out: seq<Event>,
                                             st: State, body: Text)
    requires k <= |members|
    requires forall m <- members :: Sized(m.value) && StringText(w, m.name).Some? && Printable(w, m.value)
    requires Run(w, out) == Some(Inner(st, false, body, 2 * k))
    ensures Run(w, out + MemberEvents(members, k, source))
         == Some(Inner(st, false, body + MembersText(w, members, k), 2 * |members|))
    decreases members, |members| - k
  {
    if k == |members| {
      assert out + [] == out && body + [] == body;
    } else {
      hide Run, Events, MemberEvents, MembersText, MemberText, Inner, StringText;
      var m := members[k];
      var es, rest := [Key(m.name)] + Events(m.value, source), MemberEvents(members, k + 1, source);
      var text, tail := MemberText(w, m, k), MembersText(w, members, k + 1);
      MemberPrints(w, m, k, source, out, st, body);
      MemberEventsPrint(w, members, k + 1, source, out + es, st, body + text);
      MemberEventsStep(members, k, source);
      MembersTextStep(w, members, k);
      Regroup(out, es, rest);
      Regroup(body, text, tail);
    }
  }

  /** One member: its name, the colon, its value. */
  lemma {:induction false} MemberPrints(w: Style, m: Member, k: nat, source: Source, out: seq<Event>, st: State,
                                        body: Text)
    requires Sized(m.value) && StringText(w, m.name).Some? && Printable(w, m.value)
    requires Run(w, out) == Some(Inner(st, false, body, 2 * k))
    ensures Run(w, out + ([Key(m.name)] + Events(m.value, source)))
         == Some(Inner(st, false, body + MemberText(w, m, k), 2 * (k + 1)))
    decreases m, 1
  {
    hide Run, Events, TextOf, Inner, StringText;
    var es, name, text := Events(m.value, source), StringText(w, m.name).value, TextOf(w, m.value);
    NamePrints(w, m.name, out, st, body, k);
    EventsPrint(w, m.value, source, out + [Key(m.name)], Inner(st, false, body + Comma(k) + name, 2 * k + 1));
    InnerBehind(st, false, body + Comma(k) + name, 2 * k + 1, text);
    Regroup(out, [Key(m.name)], es);
    Regroup5(body, Comma(k), name, [COLON], text);
  }

  /** The name of the next member. */
  lemma {:induction false} NamePrints(w: Style, name: Text, out: seq<Event>, st: State, body: Text, k: nat)
    requires StringText(w, name).Some? && Run(w, out) == Some(Inner(st, false, body, 2 * k))
    ensures var inner := Inner(st, false, body + Comma(k) + StringText(w, name).value, 2 * k + 1);
            Run(w, out + [Key(name)]) == Some(inner) && ExpectsValue(inner, false)
  {
    hide Run, StringText, Inner;
    ObjectExpects(st, body, k, name);
    RunStep(w, out, Key(name));
    KeyPrints(w, st, body, k, name);
    ObjectExpects(st, body + Comma(k) + StringText(w, name).value, k, name);
  }

  lemma MembersTextStep(w: Style, members: seq<Member>, k: nat)
    requires k < |members| && forall m <- members :: StringText(w, m.name).Some? && Printable(w, m.value)
    ensures MembersText(w, members, k) == MemberText(w, members[k], k) + MembersText(w, members, k + 1)
  {
  }

  lemma KeyPrints(w: Style, st: State, body: Text, k: nat, name: Text)
    requires StringText(w, name).Some? && Expects(Inner(st, false, body, 2 * k), Key(name))
    ensures Write(w, Inner(st, false, body, 2 * k), Key(name))
         == Some(Inner(st, false, body + Comma(k) + StringText(w, name).value, 2 * k + 1))
  {
    hide StringText, Inner, Separator;
    InnerBehind(st, false, body, 2 * k, StringText(w, name).value);
  }

  /** The theorem: a fresh writer driven by `Accept` puts the tree's text, and is complete. */
  lemma {:induction false} AcceptPrints(w: Style, v: Value)
    requires Sized(v) && Printable(w, v)
    ensures Run(w, Events(v, Accepted)) == Some(State(TextOf(w, v), [], true))
  {
    hide TextOf;
    EventsPrint(w, v, Accepted, [], State([], [], false));
    assert [] + Events(v, Accepted) == Events(v, Accepted);
    assert [] + TextOf(w, v) == TextOf(w, v);
  }
}
