/**
 Compiled schemas, and what it means that a value is valid: a definition by recursion on the value
 and the schema that knows nothing of events, contexts or the order in which things are checked.
 */
module JsonSchema {
  import opened Bytes
  import opened JsonTypes
  import opened JsonValue
  import opened Optional

  datatype SchemaType = NullType | BooleanType | ObjectType | ArrayType | StringType | NumberType | IntegerType

  /** A value that is no container. */
  datatype Leaf = NullLeaf | BoolLeaf(b: bool) | IntegerLeaf(n: int) | DoubleLeaf(lexeme: Text) | StringLeaf(str: Text)

  /**
   A compiled schema. `limits` stands for the checks of a single number or string: minimum, maximum, multipleOf,
   length and pattern. An absent array of sub-schemas is an empty one, as the constructor leaves it.
   */
  datatype Schema = Schema(
    types: set<SchemaType>,
    limits: Leaf -> bool,
    properties: seq<Property>,
    additionalProperties: bool,
    additionalPropertiesSchema: Option<Schema>,
    minProperties: nat,
    maxProperties: nat,
    itemsList: Option<Schema>,
    itemsTuple: seq<Schema>,
    additionalItems: bool,
    additionalItemsSchema: Option<Schema>,
    minItems: nat,
    maxItems: nat,
    allOf: seq<Schema>,
    anyOf: seq<Schema>,
    oneOf: seq<Schema>,
    notOf: Option<Schema>,
    defaultValueLength: nat)

  /** A property that is only required has the typeless schema. */
  datatype Property = Property(name: Text, schema: Schema, required: bool)

  const ALL_TYPES := {NullType, BooleanType, ObjectType, ArrayType, StringType, NumberType, IntegerType}
  const MAX_SIZE := SIZE_TYPE - 1

  /** The schema of the empty object. */
  const TYPELESS := Schema(ALL_TYPES, _ => true, [], true, None, 0, MAX_SIZE, None, [], true, None, 0, MAX_SIZE, [],
                           [], [], None, 0)

  predicate TypeAllows(types: set<SchemaType>, leaf: Leaf) {
    match leaf
    case NullLeaf => NullType in types
    case BoolLeaf(_) => BooleanType in types
    case IntegerLeaf(_) => IntegerType in types || NumberType in types
    case DoubleLeaf(_) => NumberType in types
    case StringLeaf(_) => StringType in types
  }

  /** Nulls and booleans have no limits. */
  predicate AdmitsLeaf(c: Schema, leaf: Leaf) {
    TypeAllows(c.types, leaf) && (leaf.NullLeaf? || leaf.BoolLeaf? || c.limits(leaf))
  }

  /** `FindPropertyIndex`, from `k` on. */
  function FindProperty(properties: seq<Property>, name: Text, k: nat): (r: Option<nat>)
    requires k <= |properties|
    ensures r.Some? ==> k <= r.value < |properties| && properties[r.value].name == name
    ensures r.None? ==> forall i | k <= i < |properties| :: properties[i].name != name
    decreases |properties| - k
  {
    if k == |properties| then None
    else if properties[k].name == name then Some(k)
    else FindProperty(properties, name, k + 1)
  }

  /** The schema of the property `name`; None when the property is not allowed. */
  function PropertySchema(c: Schema, name: Text): Option<Schema> {
    var index := FindProperty(c.properties, name, 0);
    if index.Some? then Some(c.properties[index.value].schema)
    else if c.additionalPropertiesSchema.Some? then c.additionalPropertiesSchema
    else if c.additionalProperties then Some(TYPELESS)
    else None
  }

  /** The schema of the item at `k`; None when the item is not allowed. */
  function ItemSchema(c: Schema, k: nat): Option<Schema> {
    if c.itemsList.Some? then c.itemsList
    else if c.itemsTuple == [] then Some(TYPELESS)
    else if k < |c.itemsTuple| then Some(c.itemsTuple[k])
    else if c.additionalItemsSchema.Some? then c.additionalItemsSchema
    else if c.additionalItems then Some(TYPELESS)
    else None
  }

  /** Is there, among the first `k` members, one that counts as the property at `i`? */
  predicate Present(c: Schema, members: seq<Member>, k: nat, i: nat)
    requires k <= |members|
  {
    exists j | 0 <= j < k :: FindProperty(c.properties, members[j].name, 0) == Some(i)
  }

  /** A required property may be missing if its schema has a default. */
  predicate RequiredPresent(c: Schema, members: seq<Member>) {
    forall i | 0 <= i < |c.properties| ::
      c.properties[i].required && c.properties[i].schema.defaultValueLength == 0 ==> Present(c, members, |members|, i)
  }

  /** The definition of validity. */
  predicate Valid(c: Schema, v: Value)
    decreases v, c, 1
  {
    Shape(c, v) && Combination(c, v)
  }

  /** Everything but the combinations of other schemas. */
  predicate Shape(c: Schema, v: Value)
    decreases v, c, 0
  {
    match v
    case NullValue => AdmitsLeaf(c, NullLeaf)
    case BoolValue(b) => AdmitsLeaf(c, BoolLeaf(b))
    case IntegerValue(n) => AdmitsLeaf(c, IntegerLeaf(n))
    case DoubleValue(lexeme) => AdmitsLeaf(c, DoubleLeaf(lexeme))
    case StringValue(str) => AdmitsLeaf(c, StringLeaf(str))
    case ArrayValue(elements) =>
      && ArrayType in c.types
      && (forall k | 0 <= k < |elements| :: ItemSchema(c, k).Some? && Valid(ItemSchema(c, k).value, elements[k]))
      && c.minItems <= |elements| <= c.maxItems
    case ObjectValue(members) =>
      && ObjectType in c.types
      && (forall k | 0 <= k < |members| ::
            PropertySchema(c, members[k].name).Some?
              && Valid(PropertySchema(c, members[k].name).value, members[k].value))
      && RequiredPresent(c, members)
      && c.minProperties <= |members| <= c.maxProperties
  }

  predicate Combination(c: Schema, v: Value)
    decreases v, c, 0
  {
    && ValidForAll(c.allOf, v)
    && (c.anyOf != [] ==> ValidForSome(c.anyOf, v))
    && (c.oneOf != [] ==> ValidForOne(c.oneOf, v))
    && (c.notOf.Some? ==> !Valid(c.notOf.value, v))
  }

  predicate ValidForAll(schemas: seq<Schema>, v: Value)
    decreases v, schemas, 0
  {
    forall i | 0 <= i < |schemas| :: Valid(schemas[i], v)
  }

  predicate ValidForSome(schemas: seq<Schema>, v: Value)
    decreases v, schemas, 0
  {
    exists i | 0 <= i < |schemas| :: Valid(schemas[i], v)
  }

  /** Exactly one. */
  predicate ValidForOne(schemas: seq<Schema>, v: Value)
    decreases v, schemas, 0
  {
    exists i | 0 <= i < |schemas| ::
      Valid(schemas[i], v) && forall j | 0 <= j < |schemas| :: Valid(schemas[j], v) ==> j == i
  }

  /** Every value is valid for the schema of the empty object. */
  lemma {:induction false} TypelessAcceptsAll(v: Value)
    requires Sized(v)
    ensures Valid(TYPELESS, v)
    decreases v
  {
    match v
    case ArrayValue(elements) =>
      forall k | 0 <= k < |elements| ensures Valid(TYPELESS, elements[k]) {
        assert Sized(elements[k]);
        TypelessAcceptsAll(elements[k]);
      }
    case ObjectValue(members) =>
      forall k | 0 <= k < |members| ensures Valid(TYPELESS, members[k].value) {
        assert Sized(members[k].value);
        TypelessAcceptsAll(members[k].value);
      }
    case _ =>
  }

  /** With distinct property names, "counts as the property" means "has its name". */
  lemma PresentMeansNamed(c: Schema, members: seq<Member>, i: nat)
    requires i < |c.properties|
    requires forall a, b | 0 <= a < b < |c.properties| :: c.properties[a].name != c.properties[b].name
    ensures Present(c, members, |members|, i)
            <==> exists j | 0 <= j < |members| :: members[j].name == c.properties[i].name
  {
    if j :| 0 <= j < |members| && members[j].name == c.properties[i].name {
      var index := FindProperty(c.properties, members[j].name, 0);
      assert index.value == i;
    }
  }
}
