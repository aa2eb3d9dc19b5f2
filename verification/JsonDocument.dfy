/**
 `GenericDocument` as a handler: a stack of values, on which the end of a container pops its entries
 and turns the value below them into the container.
 */
module JsonDocument {
  import opened Bytes
  import opened Optional
  import opened Sequences
  import opened JsonTypes
  import opened JsonValue

  /** The values, taken two by two, are `n` members; each name must be a string. */
  predicate ArePairs(values: seq<Value>, n: nat) {
    |values| == 2 * n && forall k | 0 <= k < n :: values[2 * k].StringValue?
  }

  function Pairs(values: seq<Value>, n: nat): (members: seq<Member>)
    requires ArePairs(values, n)
    ensures |members| == n
  {
    seq(n, k requires 0 <= k < n => Member(values[2 * k].str, values[2 * k + 1]))
  }

  /** One event on a stack of values; None where an assertion of the code fails. */
  function Handle(stack: seq<Value>, e: Event): Option<seq<Value>> {
    match e
    case Null => Some(stack + [NullValue])
    case Bool(b) => Some(stack + [BoolValue(b)])
    case Int(i) => Some(stack + [IntegerValue(i)])
    case Uint(u) => Some(stack + [IntegerValue(u)])
    case Int64(i64) => Some(stack + [IntegerValue(i64)])
    case Uint64(u64) => Some(stack + [IntegerValue(u64)])
    case Double(lexeme) => Some(stack + [DoubleValue(lexeme)])
    case RawNumber(lexeme) => Some(stack + [StringValue(lexeme)])
    case String(str) => Some(stack + [StringValue(str)])
    case Key(str) => Some(stack + [StringValue(str)])
    case StartObject => Some(stack + [ObjectValue([])])
    case StartArray => Some(stack + [ArrayValue([])])
    case EndObject(memberCount) =>
      var top := |stack| - 2 * memberCount;
      if top < 1 || !ArePairs(stack[top..], memberCount) then None
      else Some(stack[..top - 1] + [ObjectValue(Pairs(stack[top..], memberCount))])
    case EndArray(elementCount) =>
      var top := |stack| - elementCount;
      if top < 1 then None else Some(stack[..top - 1] + [ArrayValue(stack[top..])])
  }

  /** The stack after all events. */
  function Build(events: seq<Event>): Option<seq<Value>> {
    if events == [] then Some([])
    else
      var n := |events| - 1;
      var before := Build(events[..n]);
      if before.None? then None else Handle(before.value, events[n])
  }

  /** Appending one event. */
  lemma {:induction false} BuildStep(out: seq<Event>, e: Event)
    requires Build(out).Some?
    ensures Build(out + [e]) == Handle(Build(out).value, e)
  {
    assert (out + [e])[..|out|] == out;
  }

  // The events of a tree build the tree

  /** Members as they lie on the stack: name, value, name, value. */
  function Flat(members: seq<Member>, k: nat): (values: seq<Value>)
    requires k <= |members|
    ensures |values| == 2 * k
  {
    if k == 0 then []
    else Flat(members, k - 1) + [StringValue(members[k - 1].name), members[k - 1].value]
  }

  lemma {:induction false} FlatAt(members: seq<Member>, k: nat, i: nat)
    requires i < k <= |members|
    ensures Flat(members, k)[2 * i] == StringValue(members[i].name) && Flat(members, k)[2 * i + 1] == members[i].value
  {
    if i < k - 1 {
      FlatAt(members, k - 1, i);
    }
  }

  /** Pairing undoes flattening. */
  lemma {:induction false} PairsOfFlat(members: seq<Member>)
    ensures var n := |members|; ArePairs(Flat(members, n), n) && Pairs(Flat(members, n), n) == members
  {
    hide Flat;
    forall i | 0 <= i < |members|
      ensures Flat(members, |members|)[2 * i] == StringValue(members[i].name)
      ensures Flat(members, |members|)[2 * i + 1] == members[i].value
    {
      FlatAt(members, |members|, i);
    }
  }

  /** From either source, the events of a tree push exactly that tree. */
  lemma {:induction false} EventsBuild(v: Value, source: Source, out: seq<Event>, stack: seq<Value>)
    requires Sized(v) && Build(out) == Some(stack)
    ensures Build(out + Events(v, source)) == Some(stack + [v])
    decreases v
  {
    hide Build, Handle, Flat, NumberEvent, ElementEvents, MemberEvents;
    match v
    case ArrayValue(elements) =>
      var out1 := out + [StartArray];
      BuildStep(out, StartArray);
      Opens(stack);
      var base := stack + [ArrayValue([])];
      assert base + elements[..0] == base;
      ElementEventsBuild(elements, 0, source, out1, base);
      var out2 := out1 + ElementEvents(elements, 0, source);
      BuildStep(out2, EndArray(|elements|));
      CloseArray(stack, elements);
      Regroup4(out, [StartArray], ElementEvents(elements, 0, source), [EndArray(|elements|)]);
    case ObjectValue(members) =>
      var out1 := out + [StartObject];
      BuildStep(out, StartObject);
      Opens(stack);
      var base := stack + [ObjectValue([])];
      FlatNone(members, base);
      MemberEventsBuild(members, 0, source, out1, base);
      var out2 := out1 + MemberEvents(members, 0, source);
      BuildStep(out2, EndObject(|members|));
      CloseObject(stack, members);
      Regroup4(out, [StartObject], MemberEvents(members, 0, source), [EndObject(|members|)]);
    case _ =>
      BuildStep(out, Events(v, source)[0]);
      ScalarBuilds(v, source, stack);
  }

  /** The one event of a value that is no container pushes the value. */
  lemma {:induction false} ScalarBuilds(v: Value, source: Source, stack: seq<Value>)
    requires Sized(v) && !v.ArrayValue? && !v.ObjectValue?
    ensures |Events(v, source)| == 1 && Handle(stack, Events(v, source)[0]) == Some(stack + [v])
  {
  }

  lemma Opens(stack: seq<Value>)
    ensures Handle(stack, StartArray) == Some(stack + [ArrayValue([])])
    ensures Handle(stack, StartObject) == Some(stack + [ObjectValue([])])
  {
  }

  /** The end of an array, on the stack its elements left behind. */
  lemma CloseArray(stack: seq<Value>, elements: seq<Value>)
    ensures Handle(stack + [ArrayValue([])] + elements, EndArray(|elements|)) == Some(stack + [ArrayValue(elements)])
  {
    Slices(stack, ArrayValue([]), elements);
  }

  /** The end of an object, on the stack its members left behind. */
  lemma {:induction false} CloseObject(stack: seq<Value>, members: seq<Member>)
    ensures Handle(stack + [ObjectValue([])] + Flat(members, |members|), EndObject(|members|))
         == Some(stack + [ObjectValue(members)])
  {
    var flat := Flat(members, |members|);
    PairsOfFlat(members);
    Slices(stack, ObjectValue([]), flat);
  }

  lemma Slices<T>(left: seq<T>, middle: T, right: seq<T>)
    ensures var s, top := left + [middle] + right, |left| + 1; s[top..] == right && s[..top - 1] == left
  {
  }

  lemma {:induction false} ElementEventsBuild(elements: seq<Value>, k: nat, source: Source, out: seq<Event>,
                                              base: seq<Value>)
    requires k <= |elements| && forall e <- elements :: Sized(e)
    requires Build(out) == Some(base + elements[..k])
    ensures Build(out + ElementEvents(elements, k, source)) == Some(base + elements)
    decreases elements, |elements| - k
  {
    if k == |elements| {
      assert elements[..k] == elements;
      assert out + [] == out;
    } else {
      hide Build, Events, ElementEvents;
      var es, rest := Events(elements[k], source), ElementEvents(elements, k + 1, source);
      ElementEventsStep(elements, k, source);
      EventsBuild(elements[k], source, out, base + elements[..k]);
      Extend(base, elements, k);
      ElementEventsBuild(elements, k + 1, source, out + es, base);
      Regroup(out, es, rest);
    }
  }

  lemma Extend<T>(base: seq<T>, s: seq<T>, k: nat)
    requires k < |s|
    ensures base + s[..k] + [s[k]] == base + s[..k + 1]
  {
  }

  lemma {:induction false} MemberEventsBuild(members: seq<Member>, k: nat, source: Source, out: seq<Event>,
                                             base: seq<Value>)
    requires k <= |members| && forall m <- members :: Sized(m.value)
    requires Build(out) == Some(base + Flat(members, k))
    ensures Build(out + MemberEvents(members, k, source)) == Some(base + Flat(members, |members|))
    decreases members, |members| - k
  {
    if k == |members| {
      assert out + [] == out;
    } else {
      hide Build, Events, MemberEvents;
      var m := members[k];
      var out1, es, rest := out + [Key(m.name)], Events(m.value, source), MemberEvents(members, k + 1, source);
      BuildStep(out, Key(m.name));
      var stack1 := base + Flat(members, k) + [StringValue(m.name)];
      assert Build(out1) == Some(stack1);
      EventsBuild(m.value, source, out1, stack1);
      FlatStep(members, k, base);
      MemberEventsBuild(members, k + 1, source, out1 + es, base);
      Regroup4(out, [Key(m.name)], es, rest);
      MemberEventsStep(members, k, source);
    }
  }

  lemma {:induction false} FlatNone(members: seq<Member>, base: seq<Value>)
    ensures base + Flat(members, 0) == base
  {
  }

  lemma FlatStep(members: seq<Member>, k: nat, base: seq<Value>)
    requires k < |members|
    ensures base + Flat(members, k) + [StringValue(members[k].name)] + [members[k].value] == base + Flat(members, k + 1)
  {
    Regroup4(base, Flat(members, k), [StringValue(members[k].name)], [members[k].value]);
  }
}
