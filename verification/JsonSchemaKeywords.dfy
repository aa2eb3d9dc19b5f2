/**
 What each keyword of a schema demands of a value, written down keyword by keyword and without the functions the
 validator uses: the definition of validity is exactly that all keywords are satisfied.
 */
module JsonSchemaKeywords {
  import opened Bytes
  import opened JsonTypes
  import opened JsonValue
  import opened JsonSchema
  import opened Optional
  import opened JsonValidator
  import Theorem = JsonValidatorTheorem

  /** The types a value has: an integer is also a number. */
  function TypesOf(v: Value): set<SchemaType> {
    match v
    case NullValue => {NullType}
    case BoolValue(_) => {BooleanType}
    case IntegerValue(_) => {IntegerType, NumberType}
    case DoubleValue(_) => {NumberType}
    case StringValue(_) => {StringType}
    case ArrayValue(_) => {ArrayType}
    case ObjectValue(_) => {ObjectType}
  }

  predicate TypeKeyword(c: Schema, v: Value) {
    TypesOf(v) * c.types != {}
  }

  /** minimum, maximum, multipleOf, lengths and pattern constrain numbers and strings only. */
  predicate LimitKeywords(c: Schema, v: Value) {
    match v
    case IntegerValue(n) => c.limits(IntegerLeaf(n))
    case DoubleValue(lexeme) => c.limits(DoubleLeaf(lexeme))
    case StringValue(str) => c.limits(StringLeaf(str))
    case _ => true
  }

  /** items as one schema constrains every element; as a tuple, the elements it has a schema for. */
  ghost predicate ItemsKeyword(c: Schema, elements: seq<Value>) {
    if c.itemsList.Some? then forall e <- elements :: Valid(c.itemsList.value, e)
    else forall k | 0 <= k < |elements| && k < |c.itemsTuple| :: Valid(c.itemsTuple[k], elements[k])
  }

  /** additionalItems constrains the elements behind a tuple: by a schema, or by forbidding them. */
  ghost predicate AdditionalItemsKeyword(c: Schema, elements: seq<Value>) {
    c.itemsList.None? && c.itemsTuple != [] ==>
      match c.additionalItemsSchema
      case Some(schema) => forall k | |c.itemsTuple| <= k < |elements| :: Valid(schema, elements[k])
      case None => c.additionalItems || |elements| <= |c.itemsTuple|
  }

  /** properties constrains the members it names. */
  ghost predicate PropertiesKeyword(c: Schema, members: seq<Member>) {
    forall m <- members, p <- c.properties :: m.name == p.name ==> Valid(p.schema, m.value)
  }

  /** additionalProperties constrains the other members: by a schema, or by forbidding them. */
  ghost predicate AdditionalPropertiesKeyword(c: Schema, members: seq<Member>) {
    forall m <- members ::
      (forall p <- c.properties :: m.name != p.name) ==>
        match c.additionalPropertiesSchema
        case Some(schema) => Valid(schema, m.value)
        case None => c.additionalProperties
  }

  /** required demands a member of each name it lists, unless that property has a default. */
  ghost predicate RequiredKeyword(c: Schema, members: seq<Member>) {
    forall p <- c.properties ::
      p.required && p.schema.defaultValueLength == 0 ==> exists m <- members :: m.name == p.name
  }

  /** Which of the schemas accept the value. */
  ghost function Accepting(schemas: seq<Schema>, v: Value): set<nat> {
    set i: nat | i < |schemas| && Valid(schemas[i], v)
  }

  ghost predicate CombiningKeywords(c: Schema, v: Value) {
    && (forall s <- c.allOf :: Valid(s, v))
    && (c.anyOf == [] || exists s <- c.anyOf :: Valid(s, v))
    && (c.oneOf == [] || |Accepting(c.oneOf, v)| == 1)
    && (c.notOf == None || !Valid(c.notOf.value, v))
  }

  ghost predicate Keywords(c: Schema, v: Value) {
    && TypeKeyword(c, v)
    && LimitKeywords(c, v)
    && CombiningKeywords(c, v)
    && (v.ArrayValue? ==>
          && ItemsKeyword(c, v.elements)
          && AdditionalItemsKeyword(c, v.elements)
          && c.minItems <= |v.elements| <= c.maxItems)
    && (v.ObjectValue? ==>
          && PropertiesKeyword(c, v.members)
          && AdditionalPropertiesKeyword(c, v.members)
          && RequiredKeyword(c, v.members)
          && c.minProperties <= |v.members| <= c.maxProperties)
  }

  /** The constructor gives every property a name of its own. */
  predicate DistinctNames(c: Schema) {
    forall a, b | 0 <= a < b < |c.properties| :: c.properties[a].name != c.properties[b].name
  }

  lemma {:induction false} OneIsExactlyOne(schemas: seq<Schema>, v: Value)
    ensures ValidForOne(schemas, v) <==> |Accepting(schemas, v)| == 1
  {
    var ok := Accepting(schemas, v);
    forall i: nat ensures i in ok <==> i < |schemas| && Valid(schemas[i], v) { }
    hide Valid, Accepting;
    if i: nat :| i in ok && forall j <- ok :: j == i {
      assert ok == {i};
    }
    if |ok| == 1 {
      var i :| i in ok;
      OnlyOne(ok, i);
    }
  }

  lemma OnlyOne(ok: set<nat>, i: nat)
    requires |ok| == 1 && i in ok
    ensures forall j <- ok :: j == i
  {
    assert |ok - {i}| == 0;
    forall j | j in ok ensures j == i {
      assert j != i ==> j in ok - {i};
    }
  }

  lemma {:induction false} CombinationIsKeywords(c: Schema, v: Value)
    ensures Combination(c, v) <==> CombiningKeywords(c, v)
  {
    OneIsExactlyOne(c.oneOf, v);
    SomeIsMember(c.anyOf, v);
    SomeIsMember(c.allOf, v);
    if c.oneOf == [] { assert Accepting(c.oneOf, v) == {}; }
    hide Valid, ValidForOne, ValidForSome, ValidForAll, Accepting;
  }

  lemma {:induction false} SomeIsMember(schemas: seq<Schema>, v: Value)
    ensures ValidForSome(schemas, v) <==> exists s <- schemas :: Valid(s, v)
    ensures ValidForAll(schemas, v) <==> forall s <- schemas :: Valid(s, v)
  {
    hide Shape, Combination;
    if s :| s in schemas && Valid(s, v) {
      var i :| 0 <= i < |schemas| && schemas[i] == s;
      assert Valid(schemas[i], v);
    }
    if forall s <- schemas :: Valid(s, v) {
      forall i | 0 <= i < |schemas| ensures Valid(schemas[i], v) {
        assert schemas[i] in schemas;
      }
    }
    forall s | s in schemas && ValidForAll(schemas, v) ensures Valid(s, v) {
      var i :| 0 <= i < |schemas| && schemas[i] == s;
      assert Valid(schemas[i], v);
    }
  }

  /** What the keywords demand of the element at `k`. */
  ghost predicate ItemOk(c: Schema, k: nat, e: Value) {
    if c.itemsList.Some? then Valid(c.itemsList.value, e)
    else if k < |c.itemsTuple| then Valid(c.itemsTuple[k], e)
    else if c.itemsTuple == [] then true
    else if c.additionalItemsSchema.Some? then Valid(c.additionalItemsSchema.value, e)
    else c.additionalItems
  }

  lemma ItemsAreKeywords(c: Schema, elements: seq<Value>)
    requires forall e <- elements :: Sized(e)
    ensures (forall k | 0 <= k < |elements| :: ItemSchema(c, k).Some? && Valid(ItemSchema(c, k).value, elements[k]))
            <==> ItemsKeyword(c, elements) && AdditionalItemsKeyword(c, elements)
  {
    hide Valid;
    forall k | 0 <= k < |elements|
      ensures ItemSchema(c, k).Some? && Valid(ItemSchema(c, k).value, elements[k]) <==> ItemOk(c, k, elements[k])
    {
      TypelessAcceptsAll(elements[k]);
    }
    hide ItemSchema;
    ItemsOkAreKeywords(c, elements);
  }

  lemma ItemsOkAreKeywords(c: Schema, elements: seq<Value>)
    ensures (forall k | 0 <= k < |elements| :: ItemOk(c, k, elements[k]))
            <==> ItemsKeyword(c, elements) && AdditionalItemsKeyword(c, elements)
  {
    hide Valid;
    if forall k | 0 <= k < |elements| :: ItemOk(c, k, elements[k]) {
      if c.itemsList.None? && c.itemsTuple != [] && c.additionalItemsSchema.None? && |elements| > |c.itemsTuple| {
        assert ItemOk(c, |c.itemsTuple|, elements[|c.itemsTuple|]);
      }
    }
  }

  lemma MemberIsKeywords(c: Schema, m: Member)
    requires DistinctNames(c) && Sized(m.value)
    ensures PropertySchema(c, m.name).Some? && Valid(PropertySchema(c, m.name).value, m.value)
            <==> PropertiesKeyword(c, [m]) && AdditionalPropertiesKeyword(c, [m])
  {
    hide Valid;
    TypelessAcceptsAll(m.value);
    var index := FindProperty(c.properties, m.name, 0);
    if index.Some? {
      assert c.properties[index.value] in c.properties;
    }
  }

  lemma MembersAreKeywords(c: Schema, members: seq<Member>)
    requires DistinctNames(c) && forall m <- members :: Sized(m.value)
    ensures (forall k | 0 <= k < |members| ::
               PropertySchema(c, members[k].name).Some?
               && Valid(PropertySchema(c, members[k].name).value, members[k].value))
            <==> PropertiesKeyword(c, members) && AdditionalPropertiesKeyword(c, members)
  {
    hide Valid, PropertySchema;
    forall m <- members
      ensures PropertySchema(c, m.name).Some? && Valid(PropertySchema(c, m.name).value, m.value)
              <==> PropertiesKeyword(c, [m]) && AdditionalPropertiesKeyword(c, [m])
    {
      MemberIsKeywords(c, m);
    }
    assert (forall m <- members :: PropertiesKeyword(c, [m])) <==> PropertiesKeyword(c, members);
    assert (forall m <- members :: AdditionalPropertiesKeyword(c, [m])) <==> AdditionalPropertiesKeyword(c, members);
  }

  lemma RequiredIsKeyword(c: Schema, members: seq<Member>)
    requires DistinctNames(c)
    ensures RequiredPresent(c, members) <==> RequiredKeyword(c, members)
  {
    hide Present;
    forall i | 0 <= i < |c.properties|
      ensures Present(c, members, |members|, i) <==> exists m <- members :: m.name == c.properties[i].name
    {
      PresentMeansNamed(c, members, i);
    }
  }

  /** The type of a value that is no container is checked by its event. */
  lemma TypeIsKeyword(c: Schema, v: Value)
    ensures TypeKeyword(c, v) <==> exists t <- TypesOf(v) :: t in c.types
  {
    if t :| t in TypesOf(v) && t in c.types { assert t in TypesOf(v) * c.types; }
  }

  /** The theorem: a value is valid if and only if every keyword of the schema is satisfied. */
  lemma {:induction false} ValidIffKeywords(c: Schema, v: Value)
    requires Sized(v) && DistinctNames(c)
    ensures Valid(c, v) <==> Keywords(c, v)
  {
    hide Combination, CombiningKeywords, ItemSchema, PropertySchema, RequiredPresent, TypeKeyword;
    CombinationIsKeywords(c, v);
    TypeIsKeyword(c, v);
    match v
    case ArrayValue(elements) => ItemsAreKeywords(c, elements);
    case ObjectValue(members) =>
      MembersAreKeywords(c, members);
      RequiredIsKeyword(c, members);
    case _ =>
  }

  /** So does the streaming validator decide. */
  lemma {:induction false} StreamingDecidesKeywords(c: Schema, basePath: Text, v: Value, source: Source)
    requires Sized(v) && DistinctNames(c)
    ensures FeedAll(Fresh(c, basePath), Events(v, source)).valid <==> Keywords(c, v)
  {
    hide FeedAll, Events, Valid, Keywords;
    Theorem.StreamingIsRecursive(c, basePath, v, source);
    ValidIffKeywords(c, v);
  }

  // The keyword "type"

  /** `AddType`: "number" sets the bit of the integers too. */
  function AddType(types: set<SchemaType>, name: string): set<SchemaType> {
    if name == "null" then types + {NullType}
    else if name == "boolean" then types + {BooleanType}
    else if name == "object" then types + {ObjectType}
    else if name == "array" then types + {ArrayType}
    else if name == "string" then types + {StringType}
    else if name == "integer" then types + {IntegerType}
    else if name == "number" then types + {NumberType, IntegerType}
    else types
  }

  function AddTypes(names: seq<string>): set<SchemaType> {
    if names == [] then {} else AddType(AddTypes(names[..|names| - 1]), names[|names| - 1])
  }

  /** Is it a name of a type the value has? */
  predicate Names(name: string, v: Value) {
    match v
    case NullValue => name == "null"
    case BoolValue(_) => name == "boolean"
    case IntegerValue(_) => name == "integer" || name == "number"
    case DoubleValue(_) => name == "number"
    case StringValue(_) => name == "string"
    case ArrayValue(_) => name == "array"
    case ObjectValue(_) => name == "object"
  }

  lemma AddedType(types: set<SchemaType>, name: string, v: Value)
    ensures TypesOf(v) * AddType(types, name) != {} <==> TypesOf(v) * types != {} || Names(name, v)
  {
    var added := AddType({}, name);
    assert AddType(types, name) == types + added;
    assert TypesOf(v) * (types + added) == TypesOf(v) * types + TypesOf(v) * added;
    assert TypesOf(v) * added != {} <==> Names(name, v);
  }

  lemma {:induction false} AddedTypes(names: seq<string>, v: Value)
    ensures TypesOf(v) * AddTypes(names) != {} <==> exists name <- names :: Names(name, v)
  {
    hide Names, TypesOf, AddType;
    if names != [] {
      var n := |names| - 1;
      AddedTypes(names[..n], v);
      AddedType(AddTypes(names[..n]), names[n], v);
      assert names == names[..n] + [names[n]];
    }
  }

  /** A schema with the one keyword "type" accepts exactly the values of one of the types it names. */
  lemma {:induction false} TypeIsNamed(names: seq<string>, v: Value)
    requires Sized(v)
    ensures Valid(TYPELESS.(types := AddTypes(names)), v) <==> exists name <- names :: Names(name, v)
  {
    hide Valid, AddTypes, Names;
    var c := TYPELESS.(types := AddTypes(names));
    ValidIffKeywords(c, v);
    AddedTypes(names, v);
  }
}
