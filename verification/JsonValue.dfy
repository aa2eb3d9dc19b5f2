/**
 `GenericValue` as a tree, the number flags its constructors set, and the events `Accept` generates.
 */
module JsonValue {
  import opened Bytes
  import opened JsonTypes
  import Number = JsonNumber

  datatype Value =
    | NullValue
    | BoolValue(b: bool)
    | IntegerValue(n: int)
    | DoubleValue(lexeme: Text)   // the text the double came from stands for its value
    | StringValue(str: Text)
    | ArrayValue(elements: seq<Value>)
    | ObjectValue(members: seq<Member>)

  datatype Member = Member(name: Text, value: Value)

  // Numbers

  const TWO_31 := Number.TWO_31
  const TWO_32 := Number.TWO_32
  const TWO_63 := Number.TWO_63
  const TWO_64 := Number.TWO_64

  /** Which of the four integer types an integer value claims to fit: kIntFlag, kUintFlag, kInt64Flag, kUint64Flag. */
  datatype Flags = Flags(isInt: bool, isUint: bool, isInt64: bool, isUint64: bool)

  const NUMBER_INT := Flags(true, false, true, false)
  const NUMBER_UINT := Flags(false, true, true, true)
  const NUMBER_INT64 := Flags(false, false, true, false)
  const NUMBER_UINT64 := Flags(false, false, false, true)

  /** No bit of a mask that starts at bit `weight` upwards is set in `u`. */
  predicate NoneSet(u: nat, weight: nat)
    requires weight > 0
  {
    u / weight == 0
  }

  function IntFlags(i: int): Flags {
    if i >= 0 then Flags(true, true, true, true) else NUMBER_INT
  }

  function UintFlags(u: nat): Flags {
    if !NoneSet(u, 0x8000_0000) then NUMBER_UINT else Flags(true, true, true, true)
  }

  function Int64Flags(i64: int): Flags {
    if i64 >= 0 then
      var isUint := NoneSet(i64, 0x1_0000_0000);
      var isInt := NoneSet(i64, 0x8000_0000);
      Flags(isInt, isUint, true, true)
    else if i64 >= -0x8000_0000 then NUMBER_INT64.(isInt := true)
    else NUMBER_INT64
  }

  function Uint64Flags(u64: nat): Flags {
    NUMBER_UINT64.(isInt64 := NoneSet(u64, 0x8000_0000_0000_0000),
                   isUint := NoneSet(u64, 0x1_0000_0000),
                   isInt := NoneSet(u64, 0x8000_0000))
  }

  /** The flags a value ought to have: one for each type that can represent it. */
  function Representable(n: int): Flags {
    Flags(-TWO_31 <= n < TWO_31, 0 <= n < TWO_32, -TWO_63 <= n < TWO_63, 0 <= n < TWO_64)
  }

  /** Whichever constructor makes a number, its flags say exactly which types can represent it. */
  lemma FlagsAreExact(n: int)
    ensures -TWO_31 <= n < TWO_31 ==> IntFlags(n) == Representable(n)
    ensures 0 <= n < TWO_32 ==> UintFlags(n) == Representable(n)
    ensures -TWO_63 <= n < TWO_63 ==> Int64Flags(n) == Representable(n)
    ensures 0 <= n < TWO_64 ==> Uint64Flags(n) == Representable(n)
  {
    if n >= 0 {
      Quotient(n, 0x8000_0000);
      Quotient(n, 0x1_0000_0000);
      Quotient(n, 0x8000_0000_0000_0000);
    }
  }

  lemma Quotient(u: nat, weight: nat)
    requires weight > 0
    ensures NoneSet(u, weight) <==> u < weight
  {
  }

  predicate InRange(n: int) {
    -TWO_63 <= n < TWO_64
  }

  // Events

  /** The two sources of events for a tree: `Accept`, and the reader on the tree's text. */
  datatype Source = Accepted | Parsed

  /** `Accept` asks for the narrowest type, signed before unsigned; the reader goes by the sign of the literal. */
  function NumberEvent(n: int, source: Source): Event
    requires InRange(n)
  {
    match source
    case Accepted =>
      var flags := Representable(n);
      if flags.isInt then Int(n) else if flags.isUint then Uint(n) else if flags.isInt64 then Int64(n) else Uint64(n)
    case Parsed =>
      Number.IntegerEvent(n < 0, if n < 0 then -n else n)
  }

  /** A tree that fits the data structure: integers in range, and counts that fit SizeType. */
  predicate Sized(v: Value) {
    match v
    case IntegerValue(n) => InRange(n)
    case ArrayValue(elements) => |elements| < SIZE_TYPE && forall e <- elements :: Sized(e)
    case ObjectValue(members) => |members| < SIZE_TYPE && forall m <- members :: Sized(m.value)
    case _ => true
  }

  function Events(v: Value, source: Source): seq<Event>
    requires Sized(v)
    decreases v
  {
    match v
    case NullValue => [Null]
    case BoolValue(b) => [Event.Bool(b)]
    case IntegerValue(n) => [NumberEvent(n, source)]
    case DoubleValue(lexeme) => [Double(lexeme)]
    case StringValue(str) => [String(str)]
    case ArrayValue(elements) => [StartArray] + ElementEvents(elements, 0, source) + [EndArray(|elements|)]
    case ObjectValue(members) => [StartObject] + MemberEvents(members, 0, source) + [EndObject(|members|)]
  }

  /** The events of the elements from `k` on. */
  function ElementEvents(elements: seq<Value>, k: nat, source: Source): seq<Event>
    requires k <= |elements| && forall e <- elements :: Sized(e)
    decreases elements, |elements| - k
  {
    if k == |elements| then []
    else Events(elements[k], source) + ElementEvents(elements, k + 1, source)
  }

  /** The events of the members from `k` on. */
  function MemberEvents(members: seq<Member>, k: nat, source: Source): seq<Event>
    requires k <= |members| && forall m <- members :: Sized(m.value)
    decreases members, |members| - k
  {
    if k == |members| then []
    else [Key(members[k].name)] + Events(members[k].value, source) + MemberEvents(members, k + 1, source)
  }

  lemma ElementEventsStep(elements: seq<Value>, k: nat, source: Source)
    requires k < |elements| && forall e <- elements :: Sized(e)
    ensures ElementEvents(elements, k, source) == Events(elements[k], source) + ElementEvents(elements, k + 1, source)
  {
  }

  lemma MemberEventsStep(members: seq<Member>, k: nat, source: Source)
    requires k < |members| && forall m <- members :: Sized(m.value)
    ensures MemberEvents(members, k, source)
         == [Key(members[k].name)] + Events(members[k].value, source) + MemberEvents(members, k + 1, source)
  {
  }
}
