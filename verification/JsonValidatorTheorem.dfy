/**
 The main induction: the streaming validator's verdict on a value's events is the value's validity.
 */
module JsonValidatorTheorem {
  import opened Bytes
  import opened Optional
  import opened Sequences
  import opened JsonTypes
  import opened JsonValue
  import opened JsonSchema
  import opened JsonValidator
  import opened JsonValidatorProof

  /**
   What it means that a value with events `es`, begun with schema `c` on the stack `below` (whose parallel
   validators have received the first event), is judged `ok`: a positive verdict leaves the stack as it was,
   fed with the events, and pops the value's token; a negative one is final.
   */
  ghost predicate Judged(root: Schema, below: seq<Context>, path: Text, c: Schema, es: seq<Event>, ok: bool) {
    && es != [] && BeginsValue(es[0])
    && var w := FeedAll(Opened(root, below, path, c, es[0]), es[1..]);
       w.valid == ok && (ok ==> w == Validator(root, FeedAllEach(below, es[1..]), PopToken(path), true))
  }

  /** The context of an array behind its first `k` elements, when `done` are the events so far. */
  ghost function ArrayContext(c: Schema, path: Text, done: seq<Event>, k: nat): Context {
    Context(c, if k == 0 then None else ItemSchema(c, k - 1), ParallelAll(c, path, done), k, None, true)
  }

  /** The properties found among the first `k` members. */
  ghost function Found(c: Schema, members: seq<Member>, k: nat): Option<seq<bool>>
    requires k <= |members|
  {
    if HasRequired(c)
    then Some(seq(|c.properties|, i requires 0 <= i < |c.properties| => Present(c, members, k, i)))
    else None
  }

  /** The context of an object behind the name of its `k`th member, or behind its value. */
  ghost function ObjectContext(c: Schema, path: Text, done: seq<Event>, members: seq<Member>, k: nat): Context
    requires k <= |members|
  {
    Context(c, if k == 0 then None else PropertySchema(c, members[k - 1].name), ParallelAll(c, path, done), 0,
            Found(c, members, k), false)
  }

  predicate ItemsOk(c: Schema, elements: seq<Value>, k: nat) {
    forall j | k <= j < |elements| :: ItemSchema(c, j).Some? && Valid(ItemSchema(c, j).value, elements[j])
  }

  predicate MembersOk(c: Schema, members: seq<Member>, k: nat) {
    forall j | k <= j < |members| ::
      PropertySchema(c, members[j].name).Some? && Valid(PropertySchema(c, members[j].name).value, members[j].value)
  }

  // Leaves

  lemma {:induction false} LeafVerdict(root: Schema, below: seq<Context>, path: Text, c: Schema, v: Value, e: Event)
    requires LeafOf(e).Some? && (Shape(c, v) <==> Admits(c, e))
    requires Rightly(ParallelAll(c, path, [e]), SubSchemas(c), v)
    ensures Judged(root, below, path, c, [e], Valid(c, v))
  {
    hide Shape, Combination, Combined, ParallelAll, Parallel, Admits, FeedEach;
    ParallelIsFed(c, path, e);
    CombinedIsCombination(c, v, ParallelAll(c, path, [e]));
    assert [e][1..] == [];
    assert FeedAllEach(below, []) == below;
  }

  lemma {:induction false} LeafEvents(v: Value, source: Source, c: Schema)
    requires Sized(v) && !v.ArrayValue? && !v.ObjectValue?
    ensures |Events(v, source)| == 1 && LeafOf(Events(v, source)[0]).Some?
    ensures Shape(c, v) <==> Admits(c, Events(v, source)[0])
  {
  }

  // Arrays

  /** An array begins. */
  lemma {:induction false} ArrayBegins(root: Schema, below: seq<Context>, path: Text, c: Schema)
    requires ArrayType in c.types
    ensures Opened(root, below, path, c, StartArray)
         == Validator(root, below + [ArrayContext(c, path, [StartArray], 0)], path, true)
  {
    hide ParallelAll, Parallel;
    ParallelIsFed(c, path, StartArray);
  }

  /** One element, given the verdict on it. */
  lemma {:induction false} ElementStep(root: Schema, below: seq<Context>, path: Text, c: Schema, k: nat,
                                       done: seq<Event>, ev: seq<Event>, ok: bool)
    requires ev != [] && BeginsValue(ev[0]) && k + 1 < SIZE_TYPE && ItemSchema(c, k).Some?
    requires Judged(root, FeedEach(below, ev[0]) + [ArrayContext(c, path, done + [ev[0]], k + 1)], path + IndexToken(k),
                    ItemSchema(c, k).value, ev, ok)
    ensures var w := FeedAll(Validator(root, below + [ArrayContext(c, path, done, k)], path, true), ev);
            w.valid == ok
            && (ok ==>
                  w == Validator(root, FeedAllEach(below, ev) + [ArrayContext(c, path, done + ev, k + 1)], path, true))
  {
    hide FeedEach, ParallelAll, PopToken, Opened;
    var ctx := ArrayContext(c, path, done, k);
    var w := Validator(root, below + [ctx], path, true);
    FeedEachSplit(below, ctx, ev[0]);
    ParallelOneMore(ctx, c, path, done, ev[0]);
    var below1, ctx1 := FeedEach(below, ev[0]), ArrayContext(c, path, done + [ev[0]], k);
    var top := ArrayContext(c, path, done + [ev[0]], k + 1);
    assert FeedEach(w.stack, ev[0]) == below1 + [ctx1];
    assert BeginElement(ctx1) == Some(top);
    assert (below1 + [ctx1])[..|below1|] == below1;
    assert Feed(w, ev[0]) == Opened(root, below1 + [top], path + IndexToken(k), ItemSchema(c, k).value, ev[0]);
    IndexPopsBack(path, k);
    FeedAllEachSplit(below1, top, ev[1..]);
    ParallelMore(top, c, path, done + [ev[0]], ev[1..]);
    assert done + [ev[0]] + ev[1..] == done + ev;
  }

  /** An element that is not allowed. */
  lemma {:induction false} ElementNotAllowed(root: Schema, below: seq<Context>, path: Text, c: Schema, k: nat,
                                             done: seq<Event>, ev: seq<Event>)
    requires ev != [] && BeginsValue(ev[0]) && ItemSchema(c, k).None?
    ensures !FeedAll(Validator(root, below + [ArrayContext(c, path, done, k)], path, true), ev).valid
  {
    hide FeedEach, ParallelAll, Opened;
    var ctx := ArrayContext(c, path, done, k);
    var w := Validator(root, below + [ctx], path, true);
    FeedEachSplit(below, ctx, ev[0]);
    ParallelOneMore(ctx, c, path, done, ev[0]);
    assert !Feed(w, ev[0]).valid;
    InvalidStays(Feed(w, ev[0]), ev[1..]);
  }

  /** An array ends: the counts and the combination decide. */
  lemma {:induction false} ArrayEnds(root: Schema, below: seq<Context>, path: Text, c: Schema, v: Value, n: nat,
                                     done: seq<Event>)
    requires Rightly(ParallelAll(c, path, done + [EndArray(n)]), SubSchemas(c), v)
    ensures var w := Feed(Validator(root, below + [ArrayContext(c, path, done, n)], path, true), EndArray(n));
            var ok := c.minItems <= n <= c.maxItems && Combination(c, v);
            w.valid == ok && (ok ==> w == Validator(root, FeedEach(below, EndArray(n)), PopToken(path), true))
  {
    hide FeedEach, ParallelAll, PopToken, Combined, Combination;
    var ctx := ArrayContext(c, path, done, n);
    var e := EndArray(n);
    FeedEachSplit(below, ctx, e);
    ParallelOneMore(ctx, c, path, done, e);
    CombinedIsCombination(c, v, ParallelAll(c, path, done + [e]));
    var below1 := FeedEach(below, e);
    var ctx1 := ArrayContext(c, path, done + [e], n);
    assert (below1 + [ctx1])[..|below1|] == below1;
  }

  lemma {:induction false} BeginsWithValue(v: Value, source: Source)
    requires Sized(v)
    ensures Events(v, source) != [] && BeginsValue(Events(v, source)[0])
  {
  }

  // Objects

  lemma {:induction false} ObjectBegins(root: Schema, below: seq<Context>, path: Text, c: Schema, members: seq<Member>)
    requires ObjectType in c.types
    ensures Opened(root, below, path, c, StartObject)
         == Validator(root, below + [ObjectContext(c, path, [StartObject], members, 0)], path, true)
  {
    hide ParallelAll, Parallel;
    ParallelIsFed(c, path, StartObject);
    if HasRequired(c) {
      var exist: seq<bool> := seq(|c.properties|, _ => false);
      assert exist == Found(c, members, 0).value;
    }
  }

  /** The name of the member at `k`. */
  lemma {:induction false} KeyStep(root: Schema, below: seq<Context>, path: Text, c: Schema, members: seq<Member>,
                                   k: nat, done: seq<Event>)
    requires k < |members|
    ensures var w := Feed(Validator(root, below + [ObjectContext(c, path, done, members, k)], path, true),
                          Key(members[k].name));
            if PropertySchema(c, members[k].name).None? then !w.valid
            else w == Validator(root, FeedEach(below, Key(members[k].name))
                                      + [ObjectContext(c, path, done + [Key(members[k].name)], members, k + 1)],
                                path + KeyToken(members[k].name), true)
  {
    hide FeedEach, ParallelAll, PropertySchema, FindProperty;
    var name := members[k].name;
    var e := Key(name);
    var ctx := ObjectContext(c, path, done, members, k);
    FeedEachSplit(below, ctx, e);
    ParallelOneMore(ctx, c, path, done, e);
    var below1, ctx1 := FeedEach(below, e), ctx.(validators := ParallelAll(c, path, done + [e]));
    assert (below1 + [ctx1])[..|below1|] == below1;
    if PropertySchema(c, name).Some? {
      FoundStep(c, members, k);
      assert KeyContext(ctx1, name) == Some(ObjectContext(c, path, done + [e], members, k + 1));
    }
  }

  /** One more name found. */
  lemma FoundStep(c: Schema, members: seq<Member>, k: nat)
    requires k < |members|
    ensures var index := FindProperty(c.properties, members[k].name, 0);
            Found(c, members, k + 1) ==
            if HasRequired(c) && index.Some? then Some(Found(c, members, k).value[index.value := true])
            else Found(c, members, k)
  {
    hide FindProperty;
    if HasRequired(c) {
      var index := FindProperty(c.properties, members[k].name, 0);
      var a, b := Found(c, members, k + 1).value, Found(c, members, k).value;
      forall i | 0 <= i < |c.properties| ensures a[i] == (b[i] || index == Some(i)) {
        if Present(c, members, k + 1, i) {
          var j :| 0 <= j < k + 1 && FindProperty(c.properties, members[j].name, 0) == Some(i);
          assert j < k || index == Some(i);
        }
        if index == Some(i) { assert FindProperty(c.properties, members[k].name, 0) == Some(i); }
      }
      if index.Some? {
        assert a == b[index.value := true];
      } else {
        assert a == b;
      }
    }
  }

  /** The value of the member at `k`, given the verdict on it. */
  lemma MemberStep(root: Schema, below: seq<Context>, path: Text, c: Schema, members: seq<Member>, k: nat,
                   done: seq<Event>, ev: seq<Event>, ok: bool)
    requires k < |members| && ev != [] && BeginsValue(ev[0]) && PropertySchema(c, members[k].name).Some?
    requires Judged(root, FeedEach(below, ev[0]) + [ObjectContext(c, path, done + [ev[0]], members, k + 1)],
                    path + KeyToken(members[k].name), PropertySchema(c, members[k].name).value, ev, ok)
    ensures var w := FeedAll(Validator(root, below + [ObjectContext(c, path, done, members, k + 1)],
                                       path + KeyToken(members[k].name), true), ev);
            w.valid == ok
            && (ok ==> w == Validator(root, FeedAllEach(below, ev)
              + [ObjectContext(c, path, done + ev, members, k + 1)],
                                      path, true))
  {
    hide FeedEach, ParallelAll, PopToken, Opened, PropertySchema, Found;
    var ctx := ObjectContext(c, path, done, members, k + 1);
    var path1 := path + KeyToken(members[k].name);
    var w := Validator(root, below + [ctx], path1, true);
    FeedEachSplit(below, ctx, ev[0]);
    ParallelOneMore(ctx, c, path, done, ev[0]);
    var below1, top := FeedEach(below, ev[0]), ObjectContext(c, path, done + [ev[0]], members, k + 1);
    assert FeedEach(w.stack, ev[0]) == below1 + [top];
    assert (below1 + [top])[..|below1|] == below1;
    assert Feed(w, ev[0]) == Opened(root, below1 + [top], path1, PropertySchema(c, members[k].name).value, ev[0]);
    KeyPopsBack(path, members[k].name);
    FeedAllEachSplit(below1, top, ev[1..]);
    ParallelMore(top, c, path, done + [ev[0]], ev[1..]);
    assert done + [ev[0]] + ev[1..] == done + ev;
  }

  lemma FoundAll(c: Schema, members: seq<Member>)
    ensures (HasRequired(c) ==> NothingMissing(c, Found(c, members, |members|))) <==> RequiredPresent(c, members)
  {
    hide FindProperty, Present;
    if HasRequired(c) {
      var exist := Found(c, members, |members|).value;
      assert forall i | 0 <= i < |c.properties| :: exist[i] == Present(c, members, |members|, i);
    }
  }

  /** An object ends: the counts, the required properties and the combination decide. */
  lemma {:induction false} ObjectEnds(root: Schema, below: seq<Context>, path: Text, c: Schema, v: Value,
                                      members: seq<Member>, done: seq<Event>)
    requires Rightly(ParallelAll(c, path, done + [EndObject(|members|)]), SubSchemas(c), v)
    ensures var w := Feed(Validator(root, below + [ObjectContext(c, path, done, members, |members|)], path, true),
                          EndObject(|members|));
            var ok := RequiredPresent(c, members) && c.minProperties <= |members| <= c.maxProperties
              && Combination(c, v);
            w.valid == ok && (ok ==> w == Validator(root, FeedEach(below, EndObject(|members|)), PopToken(path), true))
  {
    hide FeedEach, ParallelAll, PopToken, Combined, Combination, Found, RequiredPresent, NothingMissing;
    var ctx := ObjectContext(c, path, done, members, |members|);
    var e := EndObject(|members|);
    FeedEachSplit(below, ctx, e);
    ParallelOneMore(ctx, c, path, done, e);
    CombinedIsCombination(c, v, ParallelAll(c, path, done + [e]));
    FoundAll(c, members);
    var below1, ctx1 := FeedEach(below, e), ObjectContext(c, path, done + [e], members, |members|);
    assert (below1 + [ctx1])[..|below1|] == below1;
  }

  // The induction

  lemma {:induction false} ElementsVerdict(root: Schema, below: seq<Context>, path: Text, c: Schema,
                                           elements: seq<Value>, k: nat, done: seq<Event>, source: Source)
    requires k <= |elements| < SIZE_TYPE && forall e <- elements :: Sized(e)
    ensures var ev := ElementEvents(elements, k, source);
            var w := FeedAll(Validator(root, below + [ArrayContext(c, path, done, k)], path, true), ev);
            w.valid == ItemsOk(c, elements, k)
            && (w.valid ==> w == Validator(root, FeedAllEach(below, ev)
              + [ArrayContext(c, path, done + ev, |elements|)],
                                           path, true))
    decreases elements, |elements| - k
  {
    hide FeedAll, FeedAllEach, ParallelAll, Valid, ItemSchema, Opened, Events, ElementEvents, ArrayContext, Feed,
         FeedEach, ItemsOk;
    if k == |elements| {
      NoElementsLeft(root, below, path, c, elements, done, source);
    } else {
      var ev, rest := Events(elements[k], source), ElementEvents(elements, k + 1, source);
      var w := Validator(root, below + [ArrayContext(c, path, done, k)], path, true);
      ElementEventsStep(elements, k, source);
      FeedAllAppend(w, ev, rest);
      ItemsOkStep(c, elements, k);
      ElementVerdict(root, below, path, c, elements, k, done, source);
      if FeedAll(w, ev).valid {
        ElementsVerdict(root, FeedAllEach(below, ev), path, c, elements, k + 1, done + ev, source);
        FeedAllEachAppend(below, ev, rest);
        Regroup(done, ev, rest);
      } else {
        InvalidStays(FeedAll(w, ev), rest);
      }
    }
  }

  lemma {:induction false} NoElementsLeft(root: Schema, below: seq<Context>, path: Text, c: Schema,
                                          elements: seq<Value>, done: seq<Event>, source: Source)
    requires forall e <- elements :: Sized(e)
    ensures ElementEvents(elements, |elements|, source) == [] && ItemsOk(c, elements, |elements|)
    ensures var w := Validator(root, below + [ArrayContext(c, path, done, |elements|)], path, true);
            FeedAll(w, []) == w
    ensures done + [] == done && FeedAllEach(below, []) == below
  {
  }

  /** One element. */
  lemma {:induction false} ElementVerdict(root: Schema, below: seq<Context>, path: Text, c: Schema,
                                          elements: seq<Value>, k: nat, done: seq<Event>, source: Source)
    requires k < |elements| < SIZE_TYPE && Sized(elements[k])
    ensures var ev := Events(elements[k], source);
            var w := FeedAll(Validator(root, below + [ArrayContext(c, path, done, k)], path, true), ev);
            w.valid == (ItemSchema(c, k).Some? && Valid(ItemSchema(c, k).value, elements[k]))
            && (w.valid ==>
                  w == Validator(root, FeedAllEach(below, ev) + [ArrayContext(c, path, done + ev, k + 1)], path, true))
    decreases elements, |elements| - k, 0
  {
    hide FeedAll, FeedAllEach, ParallelAll, Valid, ItemSchema, Opened, Events, ArrayContext, Feed, FeedEach;
    var ev := Events(elements[k], source);
    BeginsWithValue(elements[k], source);
    if ItemSchema(c, k).Some? {
      var next := ItemSchema(c, k).value;
      ValueVerdict(root, FeedEach(below, ev[0]) + [ArrayContext(c, path, done + [ev[0]], k + 1)], path + IndexToken(k),
                   next, elements[k], source);
      ElementStep(root, below, path, c, k, done, ev, Valid(next, elements[k]));
    } else {
      ElementNotAllowed(root, below, path, c, k, done, ev);
    }
  }

  lemma ItemsOkStep(c: Schema, elements: seq<Value>, k: nat)
    requires k < |elements|
    ensures ItemsOk(c, elements, k) <==>
              ItemSchema(c, k).Some? && Valid(ItemSchema(c, k).value, elements[k]) && ItemsOk(c, elements, k + 1)
  {
    hide Valid, ItemSchema;
  }

  lemma {:induction false} ValueVerdict(root: Schema, below: seq<Context>, path: Text, c: Schema, v: Value,
                                        source: Source)
    requires Sized(v)
    ensures Judged(root, below, path, c, Events(v, source), Valid(c, v))
    decreases v, c, 3
  {
    hide FeedAll, FeedAllEach, ParallelAll, Valid, Opened, Events, Shape, Combination, Judged;
    ParallelVerdict(path, c, v, source, |SubSchemas(c)|);
    if v.ArrayValue? {
      ArrayVerdict(root, below, path, c, v, source);
    } else if v.ObjectValue? {
      ObjectVerdict(root, below, path, c, v, source);
    } else {
      LeafEvents(v, source, c);
      var e := Events(v, source)[0];
      assert Events(v, source) == [e];
      LeafVerdict(root, below, path, c, v, e);
    }
  }

  lemma {:induction false} ArrayVerdict(root: Schema, below: seq<Context>, path: Text, c: Schema, v: Value,
                                        source: Source)
    requires Sized(v) && v.ArrayValue? && Rightly(ParallelAll(c, path, Events(v, source)), SubSchemas(c), v)
    ensures Judged(root, below, path, c, Events(v, source), Valid(c, v))
    decreases v, c, 1
  {
    hide FeedAll, FeedAllEach, ParallelAll, Opened, Combination, ElementEvents, ArrayContext, ItemsOk, Rightly,
         FeedEach, Feed, ItemSchema;
    var n, ev, end := |v.elements|, ElementEvents(v.elements, 0, source), EndArray(|v.elements|);
    var es := Events(v, source);
    assert es == [StartArray] + ev + [end];
    assert es[1..] == ev + [end];
    ArrayShape(c, v);
    if ArrayType in c.types {
      var w0 := Validator(root, below + [ArrayContext(c, path, [StartArray], 0)], path, true);
      ArrayBegins(root, below, path, c);
      ElementsVerdict(root, below, path, c, v.elements, 0, [StartArray], source);
      FeedAllAppend(w0, ev, [end]);
      var w1 := FeedAll(w0, ev);
      OneEvent(w1, end);
      if w1.valid {
        ArrayEnds(root, FeedAllEach(below, ev), path, c, v, n, [StartArray] + ev);
        FeedAllEachAppend(below, ev, [end]);
        FeedAllEachOne(FeedAllEach(below, ev), end);
      } else {
        InvalidStays(w1, [end]);
      }
    } else {
      NotAdmitted(root, below, path, c, StartArray, es[1..]);
    }
  }

  lemma {:induction false} ArrayShape(c: Schema, v: Value)
    requires v.ArrayValue?
    ensures Valid(c, v) <==>
              ArrayType in c.types && ItemsOk(c, v.elements, 0) && c.minItems <= |v.elements| <= c.maxItems
                && Combination(c, v)
  {
    hide Combination, ItemSchema;
  }

  lemma {:induction false} ObjectShape(c: Schema, v: Value)
    requires v.ObjectValue?
    ensures Valid(c, v) <==>
              && ObjectType in c.types && MembersOk(c, v.members, 0) && RequiredPresent(c, v.members)
              && c.minProperties <= |v.members| <= c.maxProperties && Combination(c, v)
  {
    hide Combination, PropertySchema, RequiredPresent;
  }

  lemma {:induction false} NotAdmitted(root: Schema, below: seq<Context>, path: Text, c: Schema, e: Event,
                                       es: seq<Event>)
    requires BeginsValue(e) && !Admits(c, e)
    ensures !FeedAll(Opened(root, below, path, c, e), es).valid
  {
    hide FeedAll;
    InvalidStays(Opened(root, below, path, c, e), es);
  }

  lemma {:induction false} ObjectVerdict(root: Schema, below: seq<Context>, path: Text, c: Schema, v: Value,
                                         source: Source)
    requires Sized(v) && v.ObjectValue? && Rightly(ParallelAll(c, path, Events(v, source)), SubSchemas(c), v)
    ensures Judged(root, below, path, c, Events(v, source), Valid(c, v))
    decreases v, c, 1
  {
    hide FeedAll, FeedAllEach, ParallelAll, Opened, Combination, MemberEvents, ObjectContext, MembersOk, Rightly,
         FeedEach, Feed, PropertySchema, RequiredPresent;
    var n, ev, end := |v.members|, MemberEvents(v.members, 0, source), EndObject(|v.members|);
    var es := Events(v, source);
    assert es == [StartObject] + ev + [end];
    assert es[1..] == ev + [end];
    ObjectShape(c, v);
    if ObjectType in c.types {
      var w0 := Validator(root, below + [ObjectContext(c, path, [StartObject], v.members, 0)], path, true);
      ObjectBegins(root, below, path, c, v.members);
      MembersVerdict(root, below, path, c, v.members, 0, [StartObject], source);
      FeedAllAppend(w0, ev, [end]);
      var w1 := FeedAll(w0, ev);
      OneEvent(w1, end);
      if w1.valid {
        ObjectEnds(root, FeedAllEach(below, ev), path, c, v, v.members, [StartObject] + ev);
        FeedAllEachAppend(below, ev, [end]);
        FeedAllEachOne(FeedAllEach(below, ev), end);
      } else {
        InvalidStays(w1, [end]);
      }
    } else {
      NotAdmitted(root, below, path, c, StartObject, es[1..]);
    }
  }

  lemma MembersOkStep(c: Schema, members: seq<Member>, k: nat)
    requires k < |members|
    ensures MembersOk(c, members, k) <==>
              && PropertySchema(c, members[k].name).Some?
              && Valid(PropertySchema(c, members[k].name).value, members[k].value)
              && MembersOk(c, members, k + 1)
  {
    hide Valid, PropertySchema;
  }

  lemma {:induction false} MembersVerdict(root: Schema, below: seq<Context>, path: Text, c: Schema,
                                          members: seq<Member>, k: nat, done: seq<Event>, source: Source)
    requires k <= |members| < SIZE_TYPE && forall m <- members :: Sized(m.value)
    ensures var ev := MemberEvents(members, k, source);
            var w := FeedAll(Validator(root, below + [ObjectContext(c, path, done, members, k)], path, true), ev);
            w.valid == MembersOk(c, members, k)
            && (w.valid ==>
                  w == Validator(root, FeedAllEach(below, ev) + [ObjectContext(c, path, done + ev, members, |members|)],
                                 path, true))
    decreases members, |members| - k
  {
    hide FeedAll, FeedAllEach, ParallelAll, Valid, PropertySchema, Opened, Events, MemberEvents, ObjectContext, Feed,
         FeedEach, MembersOk;
    if k == |members| {
      NoMembersLeft(root, below, path, c, members, done, source);
    } else {
      var ev, rest := [Key(members[k].name)] + Events(members[k].value, source), MemberEvents(members, k + 1, source);
      var w := Validator(root, below + [ObjectContext(c, path, done, members, k)], path, true);
      MemberEventsStep(members, k, source);
      FeedAllAppend(w, ev, rest);
      MembersOkStep(c, members, k);
      MemberVerdict(root, below, path, c, members, k, done, source);
      if FeedAll(w, ev).valid {
        MembersVerdict(root, FeedAllEach(below, ev), path, c, members, k + 1, done + ev, source);
        FeedAllEachAppend(below, ev, rest);
        Regroup(done, ev, rest);
      } else {
        InvalidStays(FeedAll(w, ev), rest);
      }
    }
  }

  lemma {:induction false} NoMembersLeft(root: Schema, below: seq<Context>, path: Text, c: Schema,
                                         members: seq<Member>, done: seq<Event>, source: Source)
    requires forall m <- members :: Sized(m.value)
    ensures MemberEvents(members, |members|, source) == [] && MembersOk(c, members, |members|)
    ensures var w := Validator(root, below + [ObjectContext(c, path, done, members, |members|)], path, true);
            FeedAll(w, []) == w
    ensures done + [] == done && FeedAllEach(below, []) == below
  {
  }

  /** One member: its name and its value. */
  lemma {:induction false} MemberVerdict(root: Schema, below: seq<Context>, path: Text, c: Schema,
                                         members: seq<Member>, k: nat, done: seq<Event>, source: Source)
    requires k < |members| && Sized(members[k].value)
    ensures var ev := [Key(members[k].name)] + Events(members[k].value, source);
            var w := FeedAll(Validator(root, below + [ObjectContext(c, path, done, members, k)], path, true), ev);
            w.valid == (PropertySchema(c, members[k].name).Some?
              && Valid(PropertySchema(c, members[k].name).value, members[k].value))
            && (w.valid ==>
                  w == Validator(root, FeedAllEach(below, ev) + [ObjectContext(c, path, done + ev, members, k + 1)],
                                 path, true))
    decreases members, |members| - k, 0
  {
    hide FeedAll, FeedAllEach, ParallelAll, Valid, PropertySchema, Opened, Events, ObjectContext, Feed, FeedEach;
    var key, ev := Key(members[k].name), Events(members[k].value, source);
    var w := Validator(root, below + [ObjectContext(c, path, done, members, k)], path, true);
    KeyStep(root, below, path, c, members, k, done);
    FeedAllAppend(w, [key], ev);
    OneEvent(w, key);
    BeginsWithValue(members[k].value, source);
    if PropertySchema(c, members[k].name).Some? {
      var below1, done1 := FeedEach(below, key), done + [key];
      var next := PropertySchema(c, members[k].name).value;
      ValueVerdict(root, FeedEach(below1, ev[0]) + [ObjectContext(c, path, done1 + [ev[0]], members, k + 1)],
                   path + KeyToken(members[k].name), next, members[k].value, source);
      MemberStep(root, below1, path, c, members, k, done1, ev, Valid(next, members[k].value));
      FeedAllEachAppend(below, [key], ev);
      FeedAllEachOne(below, key);
      assert done1 + ev == done + ([key] + ev);
    } else {
      InvalidStays(Feed(w, key), ev);
    }
  }

  /** The parallel validators judge rightly: each is judged by the theorem for a smaller schema. */
  lemma {:induction false} ParallelVerdict(path: Text, c: Schema, v: Value, source: Source, n: nat)
    requires Sized(v) && n == |SubSchemas(c)|
    ensures Rightly(ParallelAll(c, path, Events(v, source)), SubSchemas(c), v)
    decreases v, c, 2
  {
    hide Valid, Events, FeedAll, Opened;
    var es, subs := Events(v, source), SubSchemas(c);
    var validators := ParallelAll(c, path, es);
    forall i | 0 <= i < |subs| ensures validators[i].valid == Valid(subs[i], v) {
      SubSchemaSmaller(c, i);
      ValueVerdict(subs[i], [], path, subs[i], v, source);
      FreshIsOpened(subs[i], path, es, Valid(subs[i], v));
    }
  }

  lemma SubSchemaSmaller(c: Schema, i: nat)
    requires i < |SubSchemas(c)|
    ensures SubSchemas(c)[i] < c
  {
  }

  /** A fresh validator opens its root with the first event. */
  lemma {:induction false} FreshIsOpened(root: Schema, path: Text, es: seq<Event>, ok: bool)
    requires Judged(root, [], path, root, es, ok)
    ensures FeedAll(Fresh(root, path), es).valid == ok
    ensures ok ==> FeedAll(Fresh(root, path), es) == Validator(root, [], PopToken(path), true)
  {
    hide Opened, PopToken, FeedAllEach;
    assert FeedEach([], es[0]) == [];
    assert Feed(Fresh(root, path), es[0]) == Opened(root, [], path, root, es[0]);
    NothingBelow(es[1..]);
  }

  lemma {:induction false} NothingBelow(es: seq<Event>)
    ensures FeedAllEach([], es) == []
    decreases |es|
  {
    if es != [] {
      assert FeedEach([], es[0]) == [];
      NothingBelow(es[1..]);
    }
  }

  /**
   The theorem: fed with all events of a value, from `Accept` or from a parser, the streaming validator is
   valid exactly when the value is, by the recursive definition. A valid validator has emptied its stack,
   and has popped the last token of its base path.
   */
  lemma {:induction false} StreamingIsRecursive(c: Schema, basePath: Text, v: Value, source: Source)
    requires Sized(v)
    ensures var w := FeedAll(Fresh(c, basePath), Events(v, source));
            w.valid == Valid(c, v) && (w.valid ==> w == Validator(c, [], PopToken(basePath), true))
  {
    hide FeedAll, Valid, Opened, Events, Judged, PopToken;
    ValueVerdict(c, [], basePath, c, v, source);
    FreshIsOpened(c, basePath, Events(v, source), Valid(c, v));
  }
}
