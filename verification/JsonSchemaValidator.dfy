/**
 `GenericSchemaValidator` as it runs: a stack of contexts, a stack of path characters and a verdict that
 change with every event. The parallel validators inside the contexts are values.
 */
module JsonSchemaValidator {
  import opened Bytes
  import opened Optional
  import opened Sequences
  import opened Decimal
  import opened JsonTypes
  import opened JsonSchema
  import opened JsonValidator
  import Proof = JsonValidatorProof
  import Theorem = JsonValidatorTheorem
  import Keywords = JsonSchemaKeywords
  import Path = JsonValidatorPath
  import Locate = JsonValidatorLocate
  import Tree = JsonValue

  /** The validators that `CreateParallelValidator` creates, before their first event. */
  function Created(c: Schema, path: Text): (r: seq<Validator>)
    ensures |r| == ValidatorCount(c)
  {
    var subs := Proof.SubSchemas(c);
    seq(|subs|, i requires 0 <= i < |subs| => Fresh(subs[i], path))
  }

  function NewContext(c: Schema): Context {
    Context(c, None, [], 0, None, false)
  }

  /** `BeginValue`: where a value begins, with a new context on top; None when it is not allowed. */
  function Entered(w: Validator): (r: Option<Validator>)
    ensures r.Some? ==> r.value.stack != [] && r.value.root == w.root && r.value.valid == w.valid
    ensures r.Some? ==> var top := r.value.stack[|r.value.stack| - 1]; top == NewContext(top.schema)
  {
    if w.stack == [] then Some(w.(stack := [NewContext(w.root)]))
    else
      var n := |w.stack| - 1;
      var top := w.stack[n];
      var next := BeginElement(top);
      if next.None? || next.value.valueSchema.None? then None
      else
        var path := if top.inArray then w.path + IndexToken(top.arrayElementIndex) else w.path;
        Some(w.(stack := w.stack[..n] + [next.value, NewContext(next.value.valueSchema.value)], path := path))
  }

  class GenericSchemaValidator {
    const root: Schema
    var schemaStack: seq<Context>
    var documentStack: Text
    var valid: bool

    constructor (root: Schema)
      ensures this.root == root && Current() == Fresh(root, [])
    {
      this.root := root;
      schemaStack, documentStack, valid := [], [], true;
    }

    ghost function Current(): Validator
      reads this
    {
      Validator(root, schemaStack, documentStack, valid)
    }

    /** The state `w` has been reached: the verdict is `w`'s, and while it is positive so is everything else. */
    ghost predicate Reached(w: Validator)
      reads this
    {
      valid == w.valid && (valid ==> Current() == w)
    }

    // The path

    method AppendToken(name: Text)
      modifies this`documentStack
      ensures documentStack == old(documentStack) + KeyToken(name)
    {
      documentStack := documentStack + [SLASH];
      var i := 0;
      assert name[0..] == name;
      while i < |name|
        invariant i <= |name|
        invariant documentStack + EscapeToken(name[i..]) == old(documentStack) + KeyToken(name)
      {
        ghost var rest := EscapeToken(name[i + 1..]);
        assert name[i..][1..] == name[i + 1..];
        if name[i] == TILDE {
          Regroup(documentStack, [TILDE, ZERO], rest);
          documentStack := documentStack + [TILDE, ZERO];
        } else if name[i] == SLASH {
          Regroup(documentStack, [TILDE, ONE], rest);
          documentStack := documentStack + [TILDE, ONE];
        } else {
          Regroup(documentStack, [name[i]], rest);
          documentStack := documentStack + [name[i]];
        }
        i := i + 1;
      }
      assert documentStack + [] == documentStack;
    }

    method AppendIndexToken(index: nat)
      modifies this`documentStack
      ensures documentStack == old(documentStack) + IndexToken(index)
    {
      documentStack := documentStack + [SLASH];
      documentStack := documentStack + Digits(index);
    }

    /** The loop at the end of `EndValue`. */
    method PopLastToken()
      modifies this`documentStack
      ensures documentStack == PopToken(old(documentStack))
    {
      var slash := false;
      while documentStack != [] && !slash
        invariant PopToken(old(documentStack)) == if slash then documentStack else PopToken(documentStack)
        decreases !slash, |documentStack|
      {
        slash := documentStack[|documentStack| - 1] == SLASH;
        documentStack := documentStack[..|documentStack| - 1];
      }
    }

    // Values

    /** `BeginValue`: the token of an element, the schema of the value, and a context for it. */
    method BeginValue() returns (ok: bool)
      modifies this`schemaStack, this`documentStack
      ensures ok == Entered(old(Current())).Some?
      ensures ok ==> Current() == Entered(old(Current())).value
    {
      if schemaStack == [] {
        PushSchema(root);
        return true;
      }
      var n := |schemaStack| - 1;
      if schemaStack[n].inArray {
        AppendIndexToken(schemaStack[n].arrayElementIndex);
      }
      var next := BeginElement(schemaStack[n]);
      if next.None? || next.value.valueSchema.None? {
        return false;
      }
      schemaStack := schemaStack[..n] + [next.value];
      PushSchema(next.value.valueSchema.value);
      assert old(schemaStack)[..n] + [next.value] + [NewContext(next.value.valueSchema.value)]
          == old(schemaStack)[..n] + [next.value, NewContext(next.value.valueSchema.value)];
      ok := true;
    }

    method PushSchema(c: Schema)
      modifies this`schemaStack
      ensures schemaStack == old(schemaStack) + [NewContext(c)]
    {
      schemaStack := schemaStack + [NewContext(c)];
    }

    /**
     The schema's method for the event: check type and limits, prepare the context, and create the parallel
     validators.
     */
    method Check(e: Event) returns (ok: bool)
      requires schemaStack != [] && BeginsValue(e)
               && schemaStack[|schemaStack| - 1] == NewContext(schemaStack[|schemaStack| - 1].schema)
      modifies this`schemaStack
      ensures var n := |old(schemaStack)| - 1;
              var c := old(schemaStack)[n].schema;
              && ok == Admits(c, e)
              && (ok ==> schemaStack == old(schemaStack)[..n] + [Checked(c, documentStack, e)])
    {
      var n := |schemaStack| - 1;
      var c, ctx := schemaStack[n].schema, schemaStack[n];
      ok := false;
      match e {
        case Null =>
          if NullType !in c.types { return; }
        case Bool(_) =>
          if BooleanType !in c.types { return; }
        case Int(i) =>
          ok := CheckInt(c, i);
          if !ok { return; }
        case Uint(u) =>
          ok := CheckInt(c, u);
          if !ok { return; }
        case Int64(i64) =>
          ok := CheckInt(c, i64);
          if !ok { return; }
        case Uint64(u64) =>
          ok := CheckInt(c, u64);
          if !ok { return; }
        case Double(lexeme) =>
          if NumberType !in c.types || !c.limits(DoubleLeaf(lexeme)) { return; }
        case RawNumber(lexeme) =>
          if StringType !in c.types || !c.limits(StringLeaf(lexeme)) { return; }
        case String(str) =>
          if StringType !in c.types || !c.limits(StringLeaf(str)) { return; }
        case StartObject =>
          if ObjectType !in c.types { return; }
          if HasRequired(c) {
            ctx := ctx.(propertyExist := Some(seq(|c.properties|, _ => false)));
          }
        case StartArray =>
          if ArrayType !in c.types { return; }
          ctx := ctx.(arrayElementIndex := 0, inArray := true);
      }
      var validators := CreateParallelValidator(c);
      CreatedBy(c, validators);
      schemaStack := schemaStack[..n] + [ctx.(validators := validators)];
      ok := true;
    }

    /** `CheckInt` and `CheckUint`: an integer is also a number. */
    method CheckInt(c: Schema, i: int) returns (ok: bool)
      ensures ok == AdmitsLeaf(c, IntegerLeaf(i))
    {
      if IntegerType !in c.types && NumberType !in c.types {
        return false;
      }
      ok := c.limits(IntegerLeaf(i));
    }

    /**
     `CreateParallelValidator`: a fresh validator for every schema that is combined, allOf, anyOf, oneOf and not in
     a row.
     */
    method CreateParallelValidator(c: Schema) returns (validators: seq<Validator>)
      ensures |validators| == ValidatorCount(c)
      ensures forall i | 0 <= i < |c.allOf| :: validators[i] == Fresh(c.allOf[i], documentStack)
      ensures forall i | 0 <= i < |c.anyOf| :: validators[AnyOfBegin(c) + i] == Fresh(c.anyOf[i], documentStack)
      ensures forall i | 0 <= i < |c.oneOf| :: validators[OneOfBegin(c) + i] == Fresh(c.oneOf[i], documentStack)
      ensures c.notOf.Some? ==> validators[NotIndex(c)] == Fresh(c.notOf.value, documentStack)
    {
      validators := CreateSchemaValidators([], c.allOf);
      validators := CreateSchemaValidators(validators, c.anyOf);
      validators := CreateSchemaValidators(validators, c.oneOf);
      if c.notOf.Some? {
        validators := validators + [Fresh(c.notOf.value, documentStack)];
      }
    }

    /** `CreateSchemaValidators`. */
    method CreateSchemaValidators(before: seq<Validator>, schemas: seq<Schema>) returns (validators: seq<Validator>)
      ensures |validators| == |before| + |schemas| && validators[..|before|] == before
      ensures forall i | 0 <= i < |schemas| :: validators[|before| + i] == Fresh(schemas[i], documentStack)
    {
      validators := before;
      var k := 0;
      while k < |schemas|
        invariant k <= |schemas| && |validators| == |before| + k && validators[..|before|] == before
        invariant forall i | 0 <= i < k :: validators[|before| + i] == Fresh(schemas[i], documentStack)
      {
        validators := validators + [Fresh(schemas[k], documentStack)];
        k := k + 1;
      }
    }

    lemma CreatedBy(c: Schema, validators: seq<Validator>)
      requires |validators| == ValidatorCount(c)
      requires forall i | 0 <= i < |c.allOf| :: validators[i] == Fresh(c.allOf[i], documentStack)
      requires forall i | 0 <= i < |c.anyOf| :: validators[AnyOfBegin(c) + i] == Fresh(c.anyOf[i], documentStack)
      requires forall i | 0 <= i < |c.oneOf| :: validators[OneOfBegin(c) + i] == Fresh(c.oneOf[i], documentStack)
      requires c.notOf.Some? ==> validators[NotIndex(c)] == Fresh(c.notOf.value, documentStack)
      ensures validators == Created(c, documentStack)
    {
      forall i | 0 <= i < |validators| ensures validators[i] == Fresh(Proof.SubSchemas(c)[i], documentStack) {
        if AnyOfBegin(c) <= i < OneOfBegin(c) {
          assert validators[AnyOfBegin(c) + (i - AnyOfBegin(c))] == Fresh(c.anyOf[i - AnyOfBegin(c)], documentStack);
        } else if OneOfBegin(c) <= i < NotIndex(c) {
          assert validators[OneOfBegin(c) + (i - OneOfBegin(c))] == Fresh(c.oneOf[i - OneOfBegin(c)], documentStack);
        }
      }
    }

    /** The context behind the check of the event. */
    function Checked(c: Schema, path: Text, e: Event): Context {
      var exist := if e.StartObject? && HasRequired(c) then Some(seq(|c.properties|, _ => false)) else None;
      Context(c, None, Created(c, path), 0, exist, e.StartArray?)
    }

    /** The parallel validators of every context receive the event. */
    method Parallel(e: Event)
      modifies this`schemaStack
      ensures schemaStack == FeedEach(old(schemaStack), e)
    {
      hide Feed;
      var k := 0;
      while k < |schemaStack|
        invariant k <= |schemaStack| == |old(schemaStack)|
        invariant forall i | 0 <= i < k :: schemaStack[i] == FeedContext(old(schemaStack)[i], e)
        invariant forall i | k <= i < |schemaStack| :: schemaStack[i] == old(schemaStack)[i]
      {
        var fed := FeedValidators(schemaStack[k], e);
        schemaStack := schemaStack[k := fed];
        k := k + 1;
      }
      assert schemaStack == FeedEach(old(schemaStack), e);
    }

    /** The inner loop. */
    method FeedValidators(ctx: Context, e: Event) returns (fed: Context)
      ensures fed == FeedContext(ctx, e)
    {
      hide Feed;
      var validators := ctx.validators;
      var i := 0;
      while i < |validators|
        invariant i <= |validators| == |ctx.validators|
        invariant forall j | 0 <= j < i :: validators[j] == Feed(ctx.validators[j], e)
        invariant forall j | i <= j < |validators| :: validators[j] == ctx.validators[j]
      {
        validators := validators[i := Feed(validators[i], e)];
        i := i + 1;
      }
      fed := ctx.(validators := validators);
      assert fed.validators == FeedContext(ctx, e).validators;
    }

    /** `EndValue`. */
    method EndValue()
      requires schemaStack != [] && valid
      modifies this
      ensures var n := |old(schemaStack)| - 1;
              Reached(Close(root, old(schemaStack)[..n], old(schemaStack)[n], old(documentStack)))
    {
      var n := |schemaStack| - 1;
      if !Combined(schemaStack[n].schema, schemaStack[n].validators) {
        valid := false;
        return;
      }
      schemaStack := schemaStack[..n];
      PopLastToken();
    }

    // Events

    /** The events that begin a value: nulls, booleans, numbers, strings, and opening brackets. */
    method Begin(e: Event)
      requires BeginsValue(e)
      modifies this
      ensures Reached(Feed(old(Current()), e))
      ensures !old(valid) ==> Current() == old(Current())
    {
      if !valid {
        return;
      }
      hide Feed, Close, FeedEach, Fed;
      var ok := Enter(e);
      if !ok {
        valid := false;
        return;
      }
      HandOn(e);
    }

    /** All parallel validators receive the event, and a leaf ends. */
    method HandOn(e: Event)
      requires schemaStack != [] && valid
      modifies this
      ensures Reached(Fed(root, FeedEach(old(schemaStack), e), old(documentStack), e))
    {
      hide Close, FeedEach;
      Parallel(e);
      if LeafOf(e).Some? {
        EndValue();
      }
    }

    /**
     The value begins and is checked: what is left is to hand the event to all parallel validators, and to end a
     leaf.
     */
    method Enter(e: Event) returns (ok: bool)
      requires valid && BeginsValue(e)
      modifies this`schemaStack, this`documentStack
      ensures !ok ==> !Feed(old(Current()), e).valid
      ensures ok ==>
                schemaStack != []
                && Feed(old(Current()), e) == Fed(root, FeedEach(schemaStack, e), documentStack, e)
    {
      hide Feed, Opened, Admits, FeedEach, Checked, Entered, Fed;
      ghost var w := Current();
      BeginFeeds(w, e);
      ok := BeginValue();
      if ok {
        ghost var below := schemaStack[..|schemaStack| - 1];
        ghost var c := schemaStack[|schemaStack| - 1].schema;
        CheckedFeeds(root, below, c, documentStack, e);
        ok := Check(e);
      }
    }

    /** A value whose context has received its first event. */
    ghost function Fed(root: Schema, stack: seq<Context>, path: Text, e: Event): Validator
      requires stack != []
    {
      if LeafOf(e).None? then Validator(root, stack, path, true)
      else Close(root, stack[..|stack| - 1], stack[|stack| - 1], path)
    }

    /** What `Feed` does with such an event: the value begins where `BeginValue` leads. */
    lemma {:induction false} BeginFeeds(w: Validator, e: Event)
      requires w.valid && BeginsValue(e)
      ensures Entered(w).None? ==> !Feed(w, e).valid
      ensures Entered(w).Some? ==>
                var w1 := Entered(w).value;
                var n := |w1.stack| - 1;
                Feed(w, e) == Opened(w.root, FeedEach(w1.stack[..n], e), w1.path, w1.stack[n].schema, e)
    {
      hide Opened, FeedEach, FeedContext, BeginElement, IndexToken;
      if w.stack == [] {
        assert FeedEach(w.stack, e) == [] by { NothingToFeed(e); }
      } else {
        var n := |w.stack| - 1;
        var below, top := w.stack[..n], w.stack[n];
        assert w.stack == below + [top];
        Proof.FeedEachSplit(below, top, e);
        FedContext(top, e);
        var next := BeginElement(top);
        if next.Some? && next.value.valueSchema.Some? {
          Proof.FeedEachSplit(below, next.value, e);
          FedContext(next.value, e);
          assert Entered(w).value.stack[..n + 1] == below + [next.value];
        } else if next.Some? {
          FedContext(next.value, e);
        }
        assert (FeedEach(below, e) + [FeedContext(top, e)])[..n] == FeedEach(below, e);
        assert Feed(w, e) == Act(w.(stack := FeedEach(below, e) + [FeedContext(top, e)]), e);
      }
    }

    lemma {:induction false} NothingToFeed(e: Event)
      ensures FeedEach([], e) == []
    {
    }

    /** Feeding the parallel validators and choosing the next schema do not disturb each other. */
    lemma {:induction false} FedContext(ctx: Context, e: Event)
      ensures FeedContext(ctx, e).inArray == ctx.inArray
              && FeedContext(ctx, e).arrayElementIndex == ctx.arrayElementIndex
      ensures FeedContext(ctx, e).valueSchema == ctx.valueSchema
      ensures var next := BeginElement(ctx);
              BeginElement(FeedContext(ctx, e)) == if next.None? then None else Some(FeedContext(next.value, e))
      ensures FeedContext(ctx.(inArray := false), e) == FeedContext(ctx, e).(inArray := false)
    {
      hide Feed, ItemSchema;
    }

    /** A checked context whose new validators receive the event is the context of an opened value. */
    lemma {:induction false} CheckedFeeds(root: Schema, below: seq<Context>, c: Schema, path: Text, e: Event)
      requires BeginsValue(e)
      ensures Admits(c, e) ==>
                Opened(root, FeedEach(below, e), path, c, e)
                  == Fed(root, FeedEach(below + [Checked(c, path, e)], e), path, e)
      ensures !Admits(c, e) ==> !Opened(root, FeedEach(below, e), path, c, e).valid
    {
      hide FeedEach, FeedContext, Close, Admits, JsonValidator.Parallel;
      var ctx := Checked(c, path, e);
      Proof.FeedEachSplit(below, ctx, e);
      var fed := FeedEach(below, e) + [FeedContext(ctx, e)];
      assert fed[..|below|] == FeedEach(below, e);
      CreatedFed(ctx, c, path, e);
    }

    lemma {:induction false} CreatedFed(ctx: Context, c: Schema, path: Text, e: Event)
      requires BeginsValue(e) && ctx.validators == Created(c, path)
      ensures FeedContext(ctx, e) == ctx.(validators := JsonValidator.Parallel(c, path, e))
    {
      hide Feed, First, FeedAll, JsonValidator.Parallel;
      Proof.ParallelIsFed(c, path, e);
      var subs := Proof.SubSchemas(c);
      var a, b := FeedContext(ctx, e).validators, Proof.ParallelAll(c, path, [e]);
      forall i | 0 <= i < |subs| ensures a[i] == b[i] {
        Proof.OneEvent(Fresh(subs[i], path), e);
      }
      assert a == b;
    }

    method Key(name: Text)
      modifies this
      ensures Reached(Feed(old(Current()), Event.Key(name)))
      ensures !old(valid) ==> Current() == old(Current())
    {
      if !valid {
        return;
      }
      hide Feed, FeedEach, KeyContext;
      KeyFeeds(Current(), name);
      AppendToken(name);
      if schemaStack == [] {
        valid := false;
        return;
      }
      var n := |schemaStack| - 1;
      var next := KeyContext(schemaStack[n], name);
      if next.None? {
        valid := false;
        return;
      }
      schemaStack := schemaStack[..n] + [next.value];
      Parallel(Event.Key(name));
    }

    lemma {:induction false} KeyFeeds(w: Validator, name: Text)
      requires w.valid
      ensures var e := Event.Key(name);
              if w.stack == [] then !Feed(w, e).valid
              else
                var n := |w.stack| - 1;
                var next := KeyContext(w.stack[n], name);
                if next.None? then !Feed(w, e).valid
                else Feed(w, e) == Validator(w.root, FeedEach(w.stack[..n] + [next.value], e),
                                             w.path + KeyToken(name), true)
    {
      hide FeedEach, FeedContext, Opened, PropertySchema, FindProperty;
      var e := Event.Key(name);
      if w.stack == [] {
        NothingToFeed(e);
      } else {
        var n := |w.stack| - 1;
        var below, top := w.stack[..n], w.stack[n];
        assert w.stack == below + [top];
        Proof.FeedEachSplit(below, top, e);
        KeyFed(top, name, e);
        var next := KeyContext(top, name);
        if next.Some? {
          Proof.FeedEachSplit(below, next.value, e);
        }
        assert (FeedEach(below, e) + [FeedContext(top, e)])[..n] == FeedEach(below, e);
      }
    }

    lemma {:induction false} KeyFed(ctx: Context, name: Text, e: Event)
      ensures var next := KeyContext(ctx, name);
              KeyContext(FeedContext(ctx, e), name) == if next.None? then None else Some(FeedContext(next.value, e))
    {
      hide Feed, PropertySchema, FindProperty;
    }

    method EndObject(memberCount: nat)
      modifies this
      ensures Reached(Feed(old(Current()), Event.EndObject(memberCount)))
      ensures !old(valid) ==> Current() == old(Current())
    {
      if !valid {
        return;
      }
      hide Feed, FeedEach, Close, EndsObject;
      ghost var w := Current();
      EndFeeds(w, Event.EndObject(memberCount));
      Parallel(Event.EndObject(memberCount));
      if schemaStack == [] || !EndsObject(schemaStack[|schemaStack| - 1], memberCount) {
        valid := false;
        return;
      }
      EndValue();
    }

    method EndArray(elementCount: nat)
      modifies this
      ensures Reached(Feed(old(Current()), Event.EndArray(elementCount)))
      ensures !old(valid) ==> Current() == old(Current())
    {
      if !valid {
        return;
      }
      hide Feed, FeedEach, Close, EndsArray;
      ghost var w := Current();
      EndFeeds(w, Event.EndArray(elementCount));
      Parallel(Event.EndArray(elementCount));
      if schemaStack == [] {
        valid := false;
        return;
      }
      var n := |schemaStack| - 1;
      schemaStack := schemaStack[..n] + [schemaStack[n].(inArray := false)];
      if !EndsArray(schemaStack[n], elementCount) {
        valid := false;
        return;
      }
      EndValue();
    }

    lemma {:induction false} EndFeeds(w: Validator, e: Event)
      requires w.valid && (e.EndObject? || e.EndArray?)
      ensures var fed := FeedEach(w.stack, e);
              if fed == [] then !Feed(w, e).valid
              else
                var n := |fed| - 1;
                && (e.EndObject? ==>
                      if EndsObject(fed[n], e.memberCount) then Feed(w, e) == Close(w.root, fed[..n], fed[n], w.path)
                                     else !Feed(w, e).valid)
                && (e.EndArray? ==> if EndsArray(fed[n].(inArray := false), e.elementCount)
                                    then Feed(w, e) == Close(w.root, fed[..n], fed[n].(inArray := false), w.path)
                                    else !Feed(w, e).valid)
    {
      hide FeedEach, Close, Opened, HasRequired, NothingMissing;
    }

    /** Any event; once the verdict is negative, nothing changes any more. */
    method Receive(e: Event)
      modifies this
      ensures Reached(Feed(old(Current()), e))
      ensures !old(valid) ==> Current() == old(Current())
    {
      hide Feed;
      match e
      case Key(name) => Key(name);
      case EndObject(memberCount) => EndObject(memberCount);
      case EndArray(elementCount) => EndArray(elementCount);
      case _ =>
        assert BeginsValue(e);
        Begin(e);
    }

    /**
     The whole run over a tree's events, whichever source they come from: the verdict is the recursive
     definition's, and after every event so far the path spells the position.
     */
    method Validate(v: Tree.Value, source: Tree.Source)
      requires Tree.Sized(v) && Current() == Fresh(root, [])
      modifies this
      ensures valid == Valid(root, v)
      ensures Keywords.DistinctNames(root) ==> valid == Keywords.Keywords(root, v)
      ensures valid ==> schemaStack == [] && documentStack == []
    {
      hide Feed, FeedAll, Valid, Tree.Events, Path.Follows, Keywords.Keywords;
      var es := Tree.Events(v, source);
      var k := 0;
      assert es[..0] == [] && FeedAll(Fresh(root, []), []) == Fresh(root, []) by { NothingFed(); }
      Locate.EveryPrefixLocated(v, source, 0);
      Path.PathSpellsPosition(root, [], es[..0]);
      while k < |es|
        invariant k <= |es| && Reached(FeedAll(Fresh(root, []), es[..k]))
        invariant Path.Locate(es[..k]).Some? && (valid ==> Path.Follows(Current(), Path.Locate(es[..k]).value, []))
      {
        ghost var w := FeedAll(Fresh(root, []), es[..k]);
        assert es[..k + 1] == es[..k] + [es[k]];
        Proof.FeedAllAppend(Fresh(root, []), es[..k], [es[k]]);
        Proof.OneEvent(w, es[k]);
        if !valid { Path.InvalidFed(w, es[k]); Path.InvalidFed(Current(), es[k]); }
        Receive(es[k]);
        k := k + 1;
        Locate.EveryPrefixLocated(v, source, k);
        if valid {
          Path.PathSpellsPosition(root, [], es[..k]);
        }
      }
      assert es[..k] == es;
      Theorem.StreamingIsRecursive(root, [], v, source);
      if Keywords.DistinctNames(root) { Keywords.ValidIffKeywords(root, v); }
    }

    lemma NothingFed()
      ensures FeedAll(Fresh(root, []), []) == Fresh(root, [])
    {
    }
  }
}
