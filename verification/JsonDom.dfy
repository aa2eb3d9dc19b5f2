/**
 `GenericDocument` and `GenericValue::Accept` as they run: the document pushes and pops its stack
 while the reader's events arrive, and `Accept` walks a tree and drives a writer.
 */
module JsonDom {
  import opened Bytes
  import opened Optional
  import opened Sequences
  import opened JsonTypes
  import opened JsonValue
  import opened JsonPrint
  import opened JsonDocument
  import Writer = JsonWriter
  import Reader = JsonReader
  import Grammar = JsonGrammar
  import Safety = JsonDocumentSafety
  import Counts = JsonCounts

  class GenericDocument {
    var stack: seq<Value>
    var root: Value

    constructor ()
      ensures stack == [] && root == NullValue
    {
      stack, root := [], NullValue;
    }

    /** One call of the Handler concept. */
    method Receive(e: Event)
      requires Handle(stack, e).Some?
      modifies this`stack
      ensures Some(stack) == Handle(old(stack), e)
    {
      match e
      case Null => stack := stack + [NullValue];
      case Bool(b) => stack := stack + [BoolValue(b)];
      case Int(i) => stack := stack + [IntegerValue(i)];
      case Uint(u) => stack := stack + [IntegerValue(u)];
      case Int64(i64) => stack := stack + [IntegerValue(i64)];
      case Uint64(u64) => stack := stack + [IntegerValue(u64)];
      case Double(lexeme) => stack := stack + [DoubleValue(lexeme)];
      case RawNumber(lexeme) => stack := stack + [StringValue(lexeme)];
      case String(str) => stack := stack + [StringValue(str)];
      case Key(str) => stack := stack + [StringValue(str)];
      case StartObject => stack := stack + [ObjectValue([])];
      case StartArray => stack := stack + [ArrayValue([])];
      case EndObject(memberCount) =>
        var top := |stack| - 2 * memberCount;
        var members := Pairs(stack[top..], memberCount);
        stack := stack[..top];
        assert stack[..top - 1] == old(stack)[..top - 1];
        stack := stack[..top - 1] + [ObjectValue(members)];
      case EndArray(elementCount) =>
        var top := |stack| - elementCount;
        var elements := stack[top..];
        stack := stack[..top];
        assert stack[..top - 1] == old(stack)[..top - 1];
        stack := stack[..top - 1] + [ArrayValue(elements)];
    }

    /**
     `ParseStream`. The handler never declines, so it is the same to receive the events while the reader
     sends them and to receive them behind it. No container of the text may have 2^32 entries, as none of a text
     under 2^32 bytes has: exactly then the assertion about the one root holds.
     */
    method ParseStream(reader: Reader.Reader, iterative: bool) returns (ok: bool)
      requires stack == [] && Counts.Fits(Grammar.Parse(reader.opt, reader.text).out)
      requires reader.pos == 0 && reader.out == [] && reader.Stacked([])
      modifies this, reader
      ensures stack == []
      ensures ok == Grammar.Parse(reader.opt, reader.text).Ok?
      ensures ok ==> Build(Grammar.Parse(reader.opt, reader.text).out) == Some([root])
      ensures !ok ==> root == old(root)
    {
      hide Build, Handle, Grammar.Parse, Counts.Fits;
      reader.Parse(iterative);
      Safety.ExactlyOneRoot(reader.opt, reader.text);
      var out := reader.out;
      var k := 0;
      assert out[..0] == [];
      assert Build([]) == Some([]) by { NothingBuilt(); }
      while k < |out|
        invariant k <= |out| && Build(out[..k]) == Some(stack)
        invariant root == old(root)
        modifies this`stack
      {
        Prefix(out, k);
        Receive(out[k]);
        k := k + 1;
      }
      assert out[..k] == out;
      ok := reader.error.None?;
      if ok {
        OneRoot(out, stack);
        root := stack[|stack| - 1];
      }
      stack := [];
    }

    lemma NothingBuilt()
      ensures Build([]) == Some([])
    {
    }

    lemma {:induction false} OneRoot(out: seq<Event>, stack: seq<Value>)
      requires Build(out) == Some(stack) && Safety.OnTop(out, [])
      ensures |stack| == 1 && stack == [stack[0]]
    {
      var v: Value :| Build(out) == Some([] + [v]);
    }

    /** What builds a document builds one with every prefix. */
    lemma {:induction false} Prefix(out: seq<Event>, k: nat)
      requires k < |out| && Build(out).Some? && Build(out[..k]).Some?
      ensures Handle(Build(out[..k]).value, out[k]).Some?
      ensures Build(out[..k + 1]) == Handle(Build(out[..k]).value, out[k])
    {
      hide Handle;
      assert out[..k + 1] == out[..k] + [out[k]];
      BuildStep(out[..k], out[k]);
      PrefixBuilds(out, k + 1);
    }

    lemma {:induction false} PrefixBuilds(out: seq<Event>, k: nat)
      requires k <= |out| && Build(out).Some?
      ensures Build(out[..k]).Some?
      decreases |out| - k
    {
      hide Handle;
      if k == |out| {
        assert out[..k] == out;
      } else {
        PrefixBuilds(out, k + 1);
        assert out[..k + 1][..k] == out[..k];
      }
    }
  }

  /** `Accept`, for a writer. It fails exactly when some string or double cannot be printed. */
  method Accept(v: Value, handler: Writer.Writer) returns (ok: bool)
    requires Sized(v) && Writer.ExpectsValue(handler.Current(), false)
    modifies handler
    ensures ok == Printable(handler.w, v)
    ensures ok ==> handler.Current() == Behind(old(handler.Current()), TextOf(handler.w, v))
    decreases v, 2
  {
    ok := true;
    match v
    case NullValue => handler.Scalar(Null);
    case BoolValue(b) => handler.Scalar(Event.Bool(b));
    case IntegerValue(n) => handler.Scalar(NumberEvent(n, Accepted));
    case DoubleValue(lexeme) => ok := handler.Double(lexeme);
    case StringValue(str) => ok := handler.String(Event.String(str));
    case ArrayValue(elements) => ok := AcceptArray(elements, handler);
    case ObjectValue(members) => ok := AcceptObject(members, handler);
  }


  /** All elements can be printed. */
  predicate AllPrintable(w: Writer.Style, elements: seq<Value>) {
    forall e <- elements :: Printable(w, e)
  }

  predicate AllMembersPrintable(w: Writer.Style, members: seq<Member>) {
    forall m <- members :: Writer.StringText(w, m.name).Some? && Printable(w, m.value)
  }

  /** The body written so far and the text of the entries from `k` on make up the whole body. */
  predicate Halves(w: Writer.Style, elements: seq<Value>, k: nat, body: Text)
    requires k <= |elements|
  {
    AllPrintable(w, elements) ==> body + ElementsText(w, elements, k) == ElementsText(w, elements, 0)
  }

  predicate MemberHalves(w: Writer.Style, members: seq<Member>, k: nat, body: Text)
    requires k <= |members|
  {
    AllMembersPrintable(w, members) ==> body + MembersText(w, members, k) == MembersText(w, members, 0)
  }

  lemma {:induction false} HalvesStep(w: Writer.Style, elements: seq<Value>, k: nat, body: Text)
    requires k < |elements| && Halves(w, elements, k, body) && Printable(w, elements[k])
    ensures Halves(w, elements, k + 1, body + Comma(k) + TextOf(w, elements[k]))
  {
    hide TextOf;
    if AllPrintable(w, elements) {
      Regroup4(body, Comma(k), TextOf(w, elements[k]), ElementsText(w, elements, k + 1));
    }
  }

  lemma {:induction false} MemberHalvesStep(w: Writer.Style, members: seq<Member>, k: nat, body: Text)
    requires k < |members| && MemberHalves(w, members, k, body)
    requires Writer.StringText(w, members[k].name).Some? && Printable(w, members[k].value)
    ensures MemberHalves(w, members, k + 1, body + MemberText(w, members[k], k))
  {
    hide MemberText;
    if AllMembersPrintable(w, members) {
      Regroup(body, MemberText(w, members[k], k), MembersText(w, members, k + 1));
    }
  }

  /** The whole body has been written. */
  lemma {:induction false} HalvesEnd(w: Writer.Style, elements: seq<Value>, body: Text)
    requires Halves(w, elements, |elements|, body)
    ensures AllPrintable(w, elements) ==> body == ElementsText(w, elements, 0)
  {
    assert body + [] == body;
  }

  lemma {:induction false} MemberHalvesEnd(w: Writer.Style, members: seq<Member>, body: Text)
    requires MemberHalves(w, members, |members|, body)
    ensures AllMembersPrintable(w, members) ==> body == MembersText(w, members, 0)
  {
    assert body + [] == body;
  }

  method AcceptArray(elements: seq<Value>, handler: Writer.Writer) returns (ok: bool)
    requires (forall e <- elements :: Sized(e)) && Writer.ExpectsValue(handler.Current(), false)
    modifies handler
    ensures ok == AllPrintable(handler.w, elements)
    ensures ok ==> handler.Current() == Behind(old(handler.Current()),
                     [LEFT_BRACKET] + ElementsText(handler.w, elements, 0) + [RIGHT_BRACKET])
    decreases elements, |elements| + 1
  {
    hide ElementsText, Printable, TextOf, Writer.Write, Writer.Expects, Writer.ExpectsValue, Behind, Inner, Halves;
    ghost var st, w := handler.Current(), handler.w;
    StartExpected(st);
    JsonPrint.Opens(w, st);
    handler.StartArray();
    var k := 0;
    ghost var body: Text := [];
    assert Halves(w, elements, 0, []) by { Starts(w, elements, []); }
    while k < |elements|
      invariant k <= |elements| && handler.Current() == Inner(st, true, body, k)
      invariant forall i | 0 <= i < k :: Printable(w, elements[i])
      invariant Halves(w, elements, k, body)
    {
      ArrayExpects(st, body, k);
      ok := Accept(elements[k], handler);
      if !ok {
        return;
      }
      InnerBehind(st, true, body, k, TextOf(w, elements[k]));
      HalvesStep(w, elements, k, body);
      body := body + Comma(k) + TextOf(w, elements[k]);
      k := k + 1;
    }
    HalvesEnd(w, elements, body);
    Closes(w, st, body, |elements|);
    handler.EndArray(|elements|);
    ok := true;
  }

  lemma Starts(w: Writer.Style, elements: seq<Value>, members: seq<Member>)
    ensures Halves(w, elements, 0, []) && MemberHalves(w, members, 0, [])
  {
    if AllPrintable(w, elements) { assert [] + ElementsText(w, elements, 0) == ElementsText(w, elements, 0); }
    if AllMembersPrintable(w, members) { assert [] + MembersText(w, members, 0) == MembersText(w, members, 0); }
  }

  method AcceptObject(members: seq<Member>, handler: Writer.Writer) returns (ok: bool)
    requires (forall m <- members :: Sized(m.value)) && Writer.ExpectsValue(handler.Current(), false)
    modifies handler
    ensures ok == AllMembersPrintable(handler.w, members)
    ensures ok ==> handler.Current() == Behind(old(handler.Current()),
                     [LEFT_BRACE] + MembersText(handler.w, members, 0) + [RIGHT_BRACE])
    decreases members, |members| + 1
  {
    hide MembersText, MemberText, Printable, TextOf, Writer.Write, Writer.Expects, Writer.ExpectsValue, Behind,
         Inner, MemberHalves;
    ghost var st, w := handler.Current(), handler.w;
    StartExpected(st);
    JsonPrint.Opens(w, st);
    handler.StartObject();
    var k := 0;
    ghost var body: Text := [];
    assert MemberHalves(w, members, 0, []) by { Starts(w, [], members); }
    while k < |members|
      invariant k <= |members| && handler.Current() == Inner(st, false, body, 2 * k)
      invariant forall i | 0 <= i < k :: Writer.StringText(w, members[i].name).Some? && Printable(w, members[i].value)
      invariant MemberHalves(w, members, k, body)
    {
      ok := AcceptMember(members[k], handler, k, st, body);
      if !ok {
        return;
      }
      MemberHalvesStep(w, members, k, body);
      body := body + MemberText(w, members[k], k);
      k := k + 1;
    }
    MemberHalvesEnd(w, members, body);
    Closes(w, st, body, |members|);
    handler.EndObject(|members|);
    ok := true;
  }

  /** One turn of the member loop. */
  method AcceptMember(m: Member, handler: Writer.Writer, ghost k: nat, ghost st: Writer.State, ghost body: Text)
    returns (ok: bool)
    requires Sized(m.value) && handler.Current() == Inner(st, false, body, 2 * k)
    modifies handler
    ensures ok == (Writer.StringText(handler.w, m.name).Some? && Printable(handler.w, m.value))
    ensures ok ==> handler.Current() == Inner(st, false, body + MemberText(handler.w, m, k), 2 * (k + 1))
    decreases m, 3
  {
    hide Printable, TextOf, Writer.StringText, Writer.ExpectsValue, Writer.Expects, Writer.Write, Behind, Inner;
    ghost var w := handler.w;
    ObjectExpects(st, body, k, m.name);
    ok := handler.String(Key(m.name));
    WriteKey(w, Inner(st, false, body, 2 * k), m.name);
    if !ok {
      return;
    }
    ghost var name := Writer.StringText(w, m.name).value;
    KeyPrints(w, st, body, k, m.name);
    ghost var body1 := body + Comma(k) + name;
    ObjectExpects(st, body1, k, m.name);
    ok := Accept(m.value, handler);
    if ok {
      InnerBehind(st, false, body1, 2 * k + 1, TextOf(w, m.value));
      Regroup5(body, Comma(k), name, [COLON], TextOf(w, m.value));
    }
  }

  lemma WriteKey(w: Writer.Style, st: Writer.State, name: Text)
    requires Writer.Expects(st, Key(name))
    ensures Writer.Write(w, st, Key(name)).Some? == Writer.StringText(w, name).Some?
  {
  }
}
