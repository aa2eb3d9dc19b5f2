/**
 `GenericSchemaValidator` as a state machine over events: a stack of contexts, one per open value,
 each with the parallel validators of the schemas it combines, and the path of the current position.
 */
module JsonValidator {
  import opened Bytes
  import opened Decimal
  import opened JsonTypes
  import opened JsonSchema
  import opened Optional

  /** What the validator knows about an open value: `SchemaValidationContext`. */
  datatype Context = Context(
    schema: Schema,
    valueSchema: Option<Schema>,
    validators: seq<Validator>,
    arrayElementIndex: nat,
    propertyExist: Option<seq<bool>>,
    inArray: bool)

  /** A validator; what an invalid one holds besides its verdict no longer matters. */
  datatype Validator = Validator(root: Schema, stack: seq<Context>, path: Text, valid: bool)

  function Fresh(root: Schema, basePath: Text): Validator {
    Validator(root, [], basePath, true)
  }

  // The path

  /** `AppendToken`, without the slash: a tilde becomes ~0, a slash becomes ~1. */
  function EscapeToken(name: Text): Text {
    if name == [] then []
    else
      (if name[0] == TILDE then [TILDE, ZERO] else if name[0] == SLASH then [TILDE, ONE] else [name[0]])
      + EscapeToken(name[1..])
  }

  function KeyToken(name: Text): Text {
    [SLASH] + EscapeToken(name)
  }

  function IndexToken(index: nat): Text {
    [SLASH] + Digits(index)
  }

  /** The loop at the end of `EndValue`: pop characters up to and including a slash. */
  function PopToken(path: Text): Text {
    if path == [] then []
    else if path[|path| - 1] == SLASH then path[..|path| - 1]
    else PopToken(path[..|path| - 1])
  }

  // Schemas and contexts

  function LeafOf(e: Event): Option<Leaf> {
    match e
    case Null => Some(NullLeaf)
    case Bool(b) => Some(BoolLeaf(b))
    case Int(i) => Some(IntegerLeaf(i))
    case Uint(u) => Some(IntegerLeaf(u))
    case Int64(i64) => Some(IntegerLeaf(i64))
    case Uint64(u64) => Some(IntegerLeaf(u64))
    case Double(lexeme) => Some(DoubleLeaf(lexeme))
    case RawNumber(lexeme) => Some(StringLeaf(lexeme))
    case String(str) => Some(StringLeaf(str))
    case _ => None
  }

  /** Does the event begin a value? */
  predicate BeginsValue(e: Event) {
    LeafOf(e).Some? || e.StartObject? || e.StartArray?
  }

  /** The schema's own check of the event that begins a value. */
  predicate Admits(c: Schema, e: Event) {
    if e.StartObject? then ObjectType in c.types
    else if e.StartArray? then ArrayType in c.types
    else LeafOf(e).Some? && AdmitsLeaf(c, LeafOf(e).value)
  }

  /** hasRequired_. */
  predicate HasRequired(c: Schema) {
    exists i | 0 <= i < |c.properties| :: c.properties[i].required
  }

  /** `Schema::BeginValue`: which schema the next element has; None when it is not allowed. */
  function BeginElement(ctx: Context): Option<Context> {
    if !ctx.inArray then Some(ctx)
    else
      var next := ItemSchema(ctx.schema, ctx.arrayElementIndex);
      if next.None? then None
      else Some(ctx.(valueSchema := next, arrayElementIndex := Increment(ctx.arrayElementIndex)))
  }

  /** `Schema::Key`: which schema the member's value has, and that the property exists. */
  function KeyContext(ctx: Context, name: Text): Option<Context> {
    var next := PropertySchema(ctx.schema, name);
    var index := FindProperty(ctx.schema.properties, name, 0);
    if next.None? then None
    else
      var ctx1 := ctx.(valueSchema := next);
      if index.Some? && ctx.propertyExist.Some? && index.value < |ctx.propertyExist.value|
      then Some(ctx1.(propertyExist := Some(ctx.propertyExist.value[index.value := true])))
      else Some(ctx1)
  }

  /** The required properties that have no default exist. */
  predicate NothingMissing(c: Schema, exist: Option<seq<bool>>) {
    forall i | 0 <= i < |c.properties| ::
      c.properties[i].required && c.properties[i].schema.defaultValueLength == 0 ==>
        exist.Some? && i < |exist.value| && exist.value[i]
  }

  /** `Schema::EndObject`. */
  predicate EndsObject(ctx: Context, memberCount: nat) {
    && (HasRequired(ctx.schema) ==> NothingMissing(ctx.schema, ctx.propertyExist))
    && ctx.schema.minProperties <= memberCount <= ctx.schema.maxProperties
  }

  /** `Schema::EndArray`. */
  predicate EndsArray(ctx: Context, elementCount: nat) {
    ctx.schema.minItems <= elementCount <= ctx.schema.maxItems
  }

  /** Where the parallel validators of a schema lie: allOf, anyOf, oneOf, not. */
  function AnyOfBegin(c: Schema): nat { |c.allOf| }
  function OneOfBegin(c: Schema): nat { |c.allOf| + |c.anyOf| }
  function NotIndex(c: Schema): nat { |c.allOf| + |c.anyOf| + |c.oneOf| }
  function ValidatorCount(c: Schema): nat { NotIndex(c) + if c.notOf.Some? then 1 else 0 }

  predicate AllValid(validators: seq<Validator>) {
    forall i | 0 <= i < |validators| :: validators[i].valid
  }

  predicate SomeValid(validators: seq<Validator>) {
    exists i | 0 <= i < |validators| :: validators[i].valid
  }

  predicate OneValid(validators: seq<Validator>) {
    exists i | 0 <= i < |validators| ::
      validators[i].valid && forall j | 0 <= j < |validators| :: validators[j].valid ==> j == i
  }

  /** `Schema::EndValue`: the verdicts of the parallel validators, combined. */
  predicate Combined(c: Schema, validators: seq<Validator>) {
    && |validators| == ValidatorCount(c)
    && AllValid(validators[..AnyOfBegin(c)])
    && (c.anyOf != [] ==> SomeValid(validators[AnyOfBegin(c)..OneOfBegin(c)]))
    && (c.oneOf != [] ==> OneValid(validators[OneOfBegin(c)..NotIndex(c)]))
    && (c.notOf.Some? ==> !validators[NotIndex(c)].valid)
  }

  // Events

  /** `CreateParallelValidator`, and the event that began the value handed to each of the new validators. */
  function Parallel(c: Schema, path: Text, e: Event): (r: seq<Validator>)
    requires BeginsValue(e)
    ensures |r| == ValidatorCount(c)
    decreases c, 0
  {
    seq(|c.allOf|, i requires 0 <= i < |c.allOf| => First(c.allOf[i], path, e))
    + seq(|c.anyOf|, i requires 0 <= i < |c.anyOf| => First(c.anyOf[i], path, e))
    + seq(|c.oneOf|, i requires 0 <= i < |c.oneOf| => First(c.oneOf[i], path, e))
    + (if c.notOf.Some? then [First(c.notOf.value, path, e)] else [])
  }

  /** A fresh validator behind its first event. */
  function First(root: Schema, path: Text, e: Event): Validator
    requires BeginsValue(e)
    decreases root, 2
  {
    Opened(root, [], path, root, e)
  }

  /** A value begins: push a context for `c` on `below`; a value that is no container ends at once. */
  function Opened(root: Schema, below: seq<Context>, path: Text, c: Schema, e: Event): Validator
    requires BeginsValue(e)
    decreases c, 1
  {
    if !Admits(c, e) then Validator(root, below, path, false)
    else
      var exist := if e.StartObject? && HasRequired(c) then Some(seq(|c.properties|, _ => false)) else None;
      var ctx := Context(c, None, Parallel(c, path, e), 0, exist, e.StartArray?);
      if LeafOf(e).None? then Validator(root, below + [ctx], path, true) else Close(root, below, ctx, path)
  }

  /** `EndValue`: combine the verdicts, pop the context and the last token of the path. */
  function Close(root: Schema, below: seq<Context>, ctx: Context, path: Text): Validator {
    if Combined(ctx.schema, ctx.validators) then Validator(root, below, PopToken(path), true)
    else Validator(root, below + [ctx], path, false)
  }

  /** The parallel validators of every context receive the event. */
  function FeedEach(stack: seq<Context>, e: Event): (r: seq<Context>)
    ensures |r| == |stack|
    decreases stack
  {
    seq(|stack|, i requires 0 <= i < |stack| => FeedContext(stack[i], e))
  }

  function FeedContext(ctx: Context, e: Event): Context
    decreases ctx
  {
    ctx.(validators := seq(|ctx.validators|, i requires 0 <= i < |ctx.validators| => Feed(ctx.validators[i], e)))
  }

  /**
   One event. Every context's parallel validators receive it; when it begins a value, those of the new context do too.
   An event outside any value that begins none, and a member's value without a name, meet a failed assertion
   in the code; here they make the validator invalid.
   */
  function Feed(w: Validator, e: Event): Validator
    decreases w
  {
    if !w.valid then w
    else Act(w.(stack := FeedEach(w.stack, e)), e)
  }

  /** The validator's own reaction to an event its parallel validators have received. */
  function Act(w: Validator, e: Event): Validator {
    var n := |w.stack| - 1;
    if w.stack == [] then
      if BeginsValue(e) then Opened(w.root, [], w.path, w.root, e) else w.(valid := false)
    else
      var below, top := w.stack[..n], w.stack[n];
      if BeginsValue(e) then
        var path := if top.inArray then w.path + IndexToken(top.arrayElementIndex) else w.path;
        var next := BeginElement(top);
        if next.None? || next.value.valueSchema.None? then Validator(w.root, w.stack, path, false)
        else Opened(w.root, below + [next.value], path, next.value.valueSchema.value, e)
      else
        match e
        case Key(name) =>
          var next := KeyContext(top, name);
          if next.None? then w.(valid := false)
          else Validator(w.root, below + [next.value], w.path + KeyToken(name), true)
        case EndObject(memberCount) =>
          if EndsObject(top, memberCount) then Close(w.root, below, top, w.path)
          else w.(valid := false)
        case EndArray(elementCount) =>
          if EndsArray(top, elementCount) then Close(w.root, below, top.(inArray := false), w.path)
          else w.(valid := false)
        case _ => w.(valid := false)
  }

  /** A run of events. */
  function FeedAll(w: Validator, es: seq<Event>): Validator
    decreases |es|
  {
    if es == [] then w else FeedAll(Feed(w, es[0]), es[1..])
  }
}
