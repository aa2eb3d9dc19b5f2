/**
 The streaming validator computes validity: driven by the events of a value, its verdict is the
 recursive definition's, parallel validators of every nesting depth included; and when the verdict is
 positive the stack and the path are what they were, except that every context below has had
 its own parallel validators fed with all the events.
 */
module JsonValidatorProof {
  import opened Bytes
  import opened Decimal
  import opened JsonTypes
  import opened JsonValue
  import opened JsonSchema
  import opened JsonValidator
  import opened Optional

  // Runs of events

  lemma {:induction false} InvalidStays(w: Validator, es: seq<Event>)
    requires !w.valid
    ensures FeedAll(w, es) == w
    decreases |es|
  {
    if es != [] {
      InvalidStays(w, es[1..]);
    }
  }

  lemma {:induction false} FeedAllAppend(w: Validator, a: seq<Event>, b: seq<Event>)
    ensures FeedAll(w, a + b) == FeedAll(FeedAll(w, a), b)
    decreases |a|
  {
    hide Feed;
    if a == [] {
      assert a + b == b;
    } else {
      assert (a + b)[1..] == a[1..] + b;
      FeedAllAppend(Feed(w, a[0]), a[1..], b);
    }
  }

  /** The contexts of a stack, each with its parallel validators fed with all the events. */
  ghost function FeedAllEach(stack: seq<Context>, es: seq<Event>): (r: seq<Context>)
    decreases |es|
  {
    if es == [] then stack else FeedAllEach(FeedEach(stack, es[0]), es[1..])
  }

  ghost function FeedAllContext(ctx: Context, es: seq<Event>): Context {
    ctx.(validators := seq(|ctx.validators|, i requires 0 <= i < |ctx.validators| => FeedAll(ctx.validators[i], es)))
  }

  lemma {:induction false} FeedEachSplit(stack: seq<Context>, ctx: Context, e: Event)
    ensures FeedEach(stack + [ctx], e) == FeedEach(stack, e) + [FeedContext(ctx, e)]
  {
    hide FeedContext;
  }

  lemma {:induction false} FeedAllEachSplit(stack: seq<Context>, ctx: Context, es: seq<Event>)
    ensures FeedAllEach(stack + [ctx], es) == FeedAllEach(stack, es) + [FeedAllContext(ctx, es)]
    decreases |es|
  {
    if es == [] {
      assert FeedAllContext(ctx, es) == ctx;
    } else {
      FeedEachSplit(stack, ctx, es[0]);
      FeedAllEachSplit(FeedEach(stack, es[0]), FeedContext(ctx, es[0]), es[1..]);
      ContextStep(ctx, es);
    }
  }

  lemma {:induction false} ContextStep(ctx: Context, es: seq<Event>)
    requires es != []
    ensures FeedAllContext(FeedContext(ctx, es[0]), es[1..]) == FeedAllContext(ctx, es)
  {
    hide Feed;
    var a, b := FeedAllContext(FeedContext(ctx, es[0]), es[1..]).validators, FeedAllContext(ctx, es).validators;
    forall i | 0 <= i < |ctx.validators| ensures a[i] == b[i] {
      assert b[i] == FeedAll(ctx.validators[i], es);
    }
    assert a == b;
  }

  lemma {:induction false} FeedAllEachAppend(stack: seq<Context>, a: seq<Event>, b: seq<Event>)
    ensures FeedAllEach(stack, a + b) == FeedAllEach(FeedAllEach(stack, a), b)
    decreases |a|
  {
    hide FeedEach;
    if a == [] {
      assert a + b == b;
    } else {
      assert (a + b)[1..] == a[1..] + b;
      FeedAllEachAppend(FeedEach(stack, a[0]), a[1..], b);
    }
  }

  lemma {:induction false} FeedAllEachOne(stack: seq<Context>, e: Event)
    ensures FeedAllEach(stack, [e]) == FeedEach(stack, e)
  {
    hide FeedEach;
    assert [e][1..] == [];
  }

  // The parallel validators of a schema

  function SubSchemas(c: Schema): (r: seq<Schema>)
    ensures |r| == ValidatorCount(c)
  {
    c.allOf + c.anyOf + c.oneOf + (if c.notOf.Some? then [c.notOf.value] else [])
  }

  /** The parallel validators of `c`, created at `path`, behind the events `es`. */
  ghost function ParallelAll(c: Schema, path: Text, es: seq<Event>): (r: seq<Validator>)
    ensures |r| == ValidatorCount(c)
  {
    var subs := SubSchemas(c);
    seq(|subs|, i requires 0 <= i < |subs| => FeedAll(Fresh(subs[i], path), es))
  }

  lemma {:induction false} FirstIsFed(root: Schema, path: Text, e: Event)
    requires BeginsValue(e)
    ensures FeedAll(Fresh(root, path), [e]) == First(root, path, e)
  {
    hide Opened;
    assert [e][1..] == [];
    assert FeedEach([], e) == [];
    assert Feed(Fresh(root, path), e) == First(root, path, e);
  }

  lemma {:induction false} ParallelIsFed(c: Schema, path: Text, e: Event)
    requires BeginsValue(e)
    ensures Parallel(c, path, e) == ParallelAll(c, path, [e])
  {
    hide First, FeedAll;
    var subs, r := SubSchemas(c), ParallelAll(c, path, [e]);
    forall i | 0 <= i < |subs| ensures r[i] == First(subs[i], path, e) {
      FirstIsFed(subs[i], path, e);
    }
  }

  /** More events for them. */
  lemma ParallelMore(ctx: Context, c: Schema, path: Text, done: seq<Event>, es: seq<Event>)
    requires ctx.validators == ParallelAll(c, path, done)
    ensures FeedAllContext(ctx, es) == ctx.(validators := ParallelAll(c, path, done + es))
  {
    hide FeedAll;
    var subs := SubSchemas(c);
    var a, b := FeedAllContext(ctx, es).validators, ParallelAll(c, path, done + es);
    forall i | 0 <= i < |subs| ensures a[i] == b[i] {
      FeedAllAppend(Fresh(subs[i], path), done, es);
    }
    assert a == b;
  }

  lemma {:induction false} ParallelOneMore(ctx: Context, c: Schema, path: Text, done: seq<Event>, e: Event)
    requires ctx.validators == ParallelAll(c, path, done)
    ensures FeedContext(ctx, e) == ctx.(validators := ParallelAll(c, path, done + [e]))
  {
    hide FeedAll, Feed, ParallelAll;
    ParallelMore(ctx, c, path, done, [e]);
    var a, b := FeedContext(ctx, e).validators, FeedAllContext(ctx, [e]).validators;
    forall i | 0 <= i < |ctx.validators| ensures a[i] == b[i] {
      OneEvent(ctx.validators[i], e);
    }
    assert a == b;
  }

  lemma {:induction false} OneEvent(w: Validator, e: Event)
    ensures FeedAll(w, [e]) == Feed(w, e)
  {
    hide Feed;
    assert [e][1..] == [];
  }

  /** The validators judge `v` as their schemas do. */
  predicate Rightly(validators: seq<Validator>, schemas: seq<Schema>, v: Value) {
    |validators| == |schemas| && forall i | 0 <= i < |schemas| :: validators[i].valid == Valid(schemas[i], v)
  }

  lemma {:induction false} AllRight(validators: seq<Validator>, schemas: seq<Schema>, v: Value)
    requires Rightly(validators, schemas, v)
    ensures AllValid(validators) <==> ValidForAll(schemas, v)
  {
    hide Valid;
  }

  lemma {:induction false} SomeRight(validators: seq<Validator>, schemas: seq<Schema>, v: Value)
    requires Rightly(validators, schemas, v)
    ensures SomeValid(validators) <==> ValidForSome(schemas, v)
  {
    hide Valid;
  }

  lemma {:induction false} OneRight(validators: seq<Validator>, schemas: seq<Schema>, v: Value)
    requires Rightly(validators, schemas, v)
    ensures OneValid(validators) <==> ValidForOne(schemas, v)
  {
    hide Valid;
  }

  /** A stretch of the sub-schemas. */
  lemma Stretch(validators: seq<Validator>, all: seq<Schema>, lo: nat, schemas: seq<Schema>, v: Value)
    requires Rightly(validators, all, v) && lo + |schemas| <= |all| && all[lo..lo + |schemas|] == schemas
    ensures Rightly(validators[lo..lo + |schemas|], schemas, v)
  {
    hide Valid;
    forall i | 0 <= i < |schemas| ensures schemas[i] == all[lo + i] {
      assert all[lo..lo + |schemas|][i] == schemas[i];
    }
  }

  /** If the parallel validators judge rightly, their combination does. */
  lemma {:induction false} CombinedIsCombination(c: Schema, v: Value, validators: seq<Validator>)
    requires Rightly(validators, SubSchemas(c), v)
    ensures Combined(c, validators) <==> Combination(c, v)
  {
    hide Valid, AllValid, SomeValid, OneValid, SubSchemas, ValidForAll, ValidForSome, ValidForOne;
    assert |validators| == |SubSchemas(c)|;
    var subs, a, b, n := SubSchemas(c), AnyOfBegin(c), OneOfBegin(c), NotIndex(c);
    Stretches(c);
    Stretch(validators, subs, 0, c.allOf, v);
    Stretch(validators, subs, a, c.anyOf, v);
    Stretch(validators, subs, b, c.oneOf, v);
    assert validators[0..a] == validators[..a];
    AllRight(validators[..a], c.allOf, v);
    SomeRight(validators[a..b], c.anyOf, v);
    OneRight(validators[b..n], c.oneOf, v);
    NotRight(c, v, validators);
  }

  lemma {:induction false} NotRight(c: Schema, v: Value, validators: seq<Validator>)
    requires Rightly(validators, SubSchemas(c), v)
    ensures c.notOf.Some? ==> validators[NotIndex(c)].valid == Valid(c.notOf.value, v)
  {
    hide Valid;
    if c.notOf.Some? {
      assert SubSchemas(c)[NotIndex(c)] == c.notOf.value;
    }
  }

  lemma Stretches(c: Schema)
    ensures var subs, a, b, n := SubSchemas(c), AnyOfBegin(c), OneOfBegin(c), NotIndex(c);
            subs[0..a] == c.allOf && subs[a..b] == c.anyOf && subs[b..n] == c.oneOf
  {
  }

  // The path

  lemma {:induction false} PopsBack(path: Text, token: Text)
    requires SLASH !in token
    ensures PopToken(path + [SLASH] + token) == path
    decreases |token|
  {
    var whole := path + [SLASH] + token;
    if token == [] {
      assert whole == path + [SLASH];
      assert whole[..|whole| - 1] == path;
    } else {
      assert whole[|whole| - 1] == token[|token| - 1];
      assert whole[..|whole| - 1] == path + [SLASH] + token[..|token| - 1];
      PopsBack(path, token[..|token| - 1]);
    }
  }

  lemma {:induction false} EscapedHasNoSlash(name: Text)
    ensures SLASH !in EscapeToken(name)
  {
    if name != [] {
      EscapedHasNoSlash(name[1..]);
    }
  }

  /** Whatever the key, tildes and slashes included, popping undoes pushing. */
  lemma {:induction false} KeyPopsBack(path: Text, name: Text)
    ensures PopToken(path + KeyToken(name)) == path
  {
    EscapedHasNoSlash(name);
    assert path + KeyToken(name) == path + [SLASH] + EscapeToken(name);
    PopsBack(path, EscapeToken(name));
  }

  lemma {:induction false} IndexPopsBack(path: Text, index: nat)
    ensures PopToken(path + IndexToken(index)) == path
  {
    var w := Digits(index);
    assert forall i | 0 <= i < |w| :: IsDigit(w[i]);
    assert path + IndexToken(index) == path + [SLASH] + w;
    PopsBack(path, w);
  }
}
