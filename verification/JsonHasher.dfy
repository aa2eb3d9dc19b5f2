/**
 `Hasher`: a stack machine over events that computes a 64-bit code of a tree. The bytes of a number, an
 integer and a double in memory, are a parameter that depends on the number only. Twice the number of members
 is computed in 32 bits: objects of 2^31 members and more leave codes behind.
 */
module JsonHasher {
  import opened Bytes
  import opened Optional
  import opened Sequences
  import opened JsonTypes
  import opened JsonValue
  import opened JsonSchema
  import Validator = JsonValidator

  type Code = bv64

  const PRIME: Code := 0x0000_0100_0000_01b3
  const OFFSET: Code := 0x8422_2325_cbf2_9ce4

  /** kNullType to kNumberType. */
  const NULL_TYPE: Code := 0
  const FALSE_TYPE: Code := 1
  const TRUE_TYPE: Code := 2
  const OBJECT_TYPE: Code := 3
  const ARRAY_TYPE: Code := 4
  const STRING_TYPE: Code := 5
  const NUMBER_TYPE: Code := 6

  function Xor(a: Code, b: Code): Code {
    a ^ b
  }

  /** One step of FNV-1a. */
  function Hash(h: Code, d: Code): Code {
    Xor(h, d) * PRIME
  }

  /** The first `n` bytes of a buffer. */
  function HashBytes(h: Code, w: Text, n: nat): Code
    requires n <= |w|
  {
    if n == 0 then h else Hash(HashBytes(h, w, n - 1), w[n - 1] as bv64)
  }

  /** `WriteBuffer`. */
  function Buffer(kind: Code, w: Text): Code {
    HashBytes(Hash(OFFSET, kind), w, |w|)
  }

  /**
   What the hasher finds in memory: the bytes of a number, and what the loop of `EndObject` makes of a stack and a
   count when it reads past the entries it has popped.
   */
  datatype Memory = Memory(bytes: Leaf -> Text, outside: (seq<Code>, nat) -> Code)

  function LeafCode(memory: Memory, leaf: Leaf): Code {
    match leaf
    case NullLeaf => Buffer(NULL_TYPE, [])
    case BoolLeaf(b) => Buffer(if b then TRUE_TYPE else FALSE_TYPE, [])
    case IntegerLeaf(_) => Buffer(NUMBER_TYPE, memory.bytes(leaf))
    case DoubleLeaf(_) => Buffer(NUMBER_TYPE, memory.bytes(leaf))
    case StringLeaf(str) => Buffer(STRING_TYPE, str)
  }

  /** The codes of null, false and true. */
  lemma {:induction false} KnownWords(memory: Memory)
    ensures CodeOf(memory, NullValue) == 0x789e_9d39_8d40_976c
    ensures CodeOf(memory, BoolValue(false)) == 0x789e_9e39_8d40_991f
    ensures CodeOf(memory, BoolValue(true)) == 0x789e_9f39_8d40_9ad2
  {
  }

  /** The codes of the empty string and of "a". */
  lemma {:induction false} KnownStrings(memory: Memory)
    ensures CodeOf(memory, StringValue([])) == 0x789e_9a39_8d40_9253
    ensures CodeOf(memory, StringValue([0x61])) == 0x3612_41cb_04b8_6af6
  {
    assert HashBytes(Hash(OFFSET, STRING_TYPE), [0x61], 0) == Hash(OFFSET, STRING_TYPE);
  }

  /** The codes of the empty object and the empty array. */
  lemma {:induction false} KnownContainers(memory: Memory)
    ensures CodeOf(memory, ObjectValue([])) == 0x0300_0000_0519
    ensures CodeOf(memory, ArrayValue([])) == 0x0400_0000_06cc
  {
  }

  // The recursive code

  function CodeOf(memory: Memory, v: Value): Code
    decreases v
  {
    match v
    case NullValue => LeafCode(memory, NullLeaf)
    case BoolValue(b) => LeafCode(memory, BoolLeaf(b))
    case IntegerValue(n) => LeafCode(memory, IntegerLeaf(n))
    case DoubleValue(lexeme) => LeafCode(memory, DoubleLeaf(lexeme))
    case StringValue(str) => LeafCode(memory, StringLeaf(str))
    case ArrayValue(elements) => ArrayCode(memory, elements, |elements|)
    case ObjectValue(members) => Xor(Hash(0, OBJECT_TYPE), MembersCode(memory, members))
  }

  /** The elements are chained: their order matters. */
  function ArrayCode(memory: Memory, elements: seq<Value>, n: nat): Code
    requires n <= |elements|
    decreases elements, n
  {
    if n == 0 then Hash(0, ARRAY_TYPE) else Hash(ArrayCode(memory, elements, n - 1), CodeOf(memory, elements[n - 1]))
  }

  function MemberCode(memory: Memory, m: Member): Code
    decreases m, 1
  {
    Hash(LeafCode(memory, StringLeaf(m.name)), CodeOf(memory, m.value))
  }

  /** The members' codes are combined by xor. */
  function MembersCode(memory: Memory, members: seq<Member>): Code
    decreases members, 0
  {
    if members == [] then 0 else Xor(MemberCode(memory, members[0]), MembersCode(memory, members[1..]))
  }

  // The order of members does not matter

  function Without(members: seq<Member>, j: nat): seq<Member>
    requires j < |members|
  {
    members[..j] + members[j + 1..]
  }

  /** The same tree but for the order of members, at any depth. */
  ghost predicate Reordered(v: Value, w: Value)
    decreases v
  {
    match (v, w)
    case (ArrayValue(a), ArrayValue(b)) => |a| == |b| && forall i | 0 <= i < |a| :: Reordered(a[i], b[i])
    case (ObjectValue(a), ObjectValue(b)) => ReorderedMembers(a, b)
    case _ => v == w
  }

  /** Each member has its counterpart, wherever that is. */
  ghost predicate ReorderedMembers(a: seq<Member>, b: seq<Member>)
    decreases a
  {
    if a == [] then b == []
    else exists j | 0 <= j < |b| ::
      a[0].name == b[j].name && Reordered(a[0].value, b[j].value) && ReorderedMembers(a[1..], Without(b, j))
  }

  lemma XorUnit(a: Code)
    ensures Xor(a, 0) == a
  {
  }

  lemma XorCommutes(a: Code, b: Code)
    ensures Xor(a, b) == Xor(b, a)
  {
  }

  lemma XorAssociates(a: Code, b: Code, c: Code)
    ensures Xor(Xor(a, b), c) == Xor(a, Xor(b, c))
  {
  }

  lemma WithoutFirst(members: seq<Member>)
    requires members != []
    ensures Without(members, 0) == members[1..]
  {
  }

  lemma WithoutTail(members: seq<Member>, j: nat)
    requires 0 < j < |members|
    ensures Without(members, j) != [] && Without(members, j)[0] == members[0]
    ensures Without(members, j)[1..] == Without(members[1..], j - 1)
  {
  }

  /** Any member can be taken out first. */
  lemma {:induction false} TakeOut(memory: Memory, members: seq<Member>, j: nat)
    requires j < |members|
    ensures MembersCode(memory, members)
            == Xor(MemberCode(memory, members[j]), MembersCode(memory, Without(members, j)))
    decreases j
  {
    hide Xor, MemberCode, Without;
    if j == 0 {
      WithoutFirst(members);
    } else {
      TakeOut(memory, members[1..], j - 1);
      WithoutTail(members, j);
      var first, taken, others := MemberCode(memory, members[0]), MemberCode(memory, members[j]),
        MembersCode(memory, Without(members[1..], j - 1));
      XorAssociates(first, taken, others);
      XorCommutes(first, taken);
      XorAssociates(taken, first, others);
    }
  }

  /** The theorem: reordering the members of objects, at any depth, does not change the code. */
  lemma {:induction false} ReorderingKeepsCode(memory: Memory, v: Value, w: Value)
    requires Reordered(v, w)
    ensures CodeOf(memory, v) == CodeOf(memory, w)
    decreases v
  {
    hide Xor, Hash, LeafCode, MembersCode;
    match (v, w)
    case (ArrayValue(a), ArrayValue(b)) => ElementsKeepCode(memory, a, b, |a|);
    case (ObjectValue(a), ObjectValue(b)) => MembersKeepCode(memory, a, b);
    case _ =>
  }

  /** Every tree is a reordering of itself. */
  lemma {:induction false} SameIsReordered(v: Value)
    ensures Reordered(v, v)
    decreases v
  {
    match v
    case ArrayValue(elements) =>
      forall i | 0 <= i < |elements| ensures Reordered(elements[i], elements[i]) {
        SameIsReordered(elements[i]);
      }
    case ObjectValue(members) =>
      forall m <- members ensures Reordered(m.value, m.value) {
        SameIsReordered(m.value);
      }
      PermutedIsReordered(members, members);
    case _ =>
  }

  lemma OneLess(members: seq<Member>, j: nat)
    requires j < |members|
    ensures multiset(Without(members, j)) == multiset(members) - multiset{members[j]}
  {
    assert members == members[..j] + [members[j]] + members[j + 1..];
  }

  /** Whatever the permutation of the members. */
  lemma {:induction false} PermutedIsReordered(a: seq<Member>, b: seq<Member>)
    requires multiset(a) == multiset(b) && forall m <- a :: Reordered(m.value, m.value)
    ensures ReorderedMembers(a, b)
    decreases a, 0
  {
    hide Reordered;
    if a != [] {
      assert a == [a[0]] + a[1..];
      assert a[0] in multiset(b);
      var j :| 0 <= j < |b| && b[j] == a[0];
      OneLess(b, j);
      assert multiset(a[1..]) == multiset(a) - multiset{a[0]};
      PermutedIsReordered(a[1..], Without(b, j));
    } else {
      assert |b| == |multiset(b)| == 0;
    }
  }

  /** Permuting the members of an object does not change its code. */
  lemma {:induction false} PermutingKeepsCode(memory: Memory, a: seq<Member>, b: seq<Member>)
    requires multiset(a) == multiset(b)
    ensures CodeOf(memory, ObjectValue(a)) == CodeOf(memory, ObjectValue(b))
  {
    hide CodeOf;
    forall m <- a ensures Reordered(m.value, m.value) {
      SameIsReordered(m.value);
    }
    PermutedIsReordered(a, b);
    ReorderingKeepsCode(memory, ObjectValue(a), ObjectValue(b));
  }

  lemma {:induction false} ElementsKeepCode(memory: Memory, a: seq<Value>, b: seq<Value>, n: nat)
    requires n <= |a| == |b| && forall i | 0 <= i < |a| :: Reordered(a[i], b[i])
    ensures ArrayCode(memory, a, n) == ArrayCode(memory, b, n)
    decreases a, n
  {
    hide Xor, Hash, Reordered, CodeOf;
    if n > 0 {
      ElementsKeepCode(memory, a, b, n - 1);
      ReorderingKeepsCode(memory, a[n - 1], b[n - 1]);
    }
  }

  lemma {:induction false} MembersKeepCode(memory: Memory, a: seq<Member>, b: seq<Member>)
    requires ReorderedMembers(a, b)
    ensures MembersCode(memory, a) == MembersCode(memory, b)
    decreases a
  {
    hide Xor, Hash, Reordered, CodeOf, LeafCode;
    if a != [] {
      var j :| 0 <= j < |b| && a[0].name == b[j].name && Reordered(a[0].value, b[j].value)
               && ReorderedMembers(a[1..], Without(b, j));
      ReorderingKeepsCode(memory, a[0].value, b[j].value);
      MembersKeepCode(memory, a[1..], Without(b, j));
      TakeOut(memory, b, j);
    }
  }

  // The stack machine

  /** The members' codes as they lie on the stack: name, value, name, value. */
  function PairsCode(kv: seq<Code>, n: nat): Code
    requires 2 * n <= |kv|
  {
    if n == 0 then Hash(0, OBJECT_TYPE) else Xor(PairsCode(kv, n - 1), Hash(kv[2 * n - 2], kv[2 * n - 1]))
  }

  function ChainCode(e: seq<Code>, n: nat): Code
    requires n <= |e|
  {
    if n == 0 then Hash(0, ARRAY_TYPE) else Hash(ChainCode(e, n - 1), e[n - 1])
  }

  /** `memberCount * 2`, of type SizeType. */
  function Popped(memberCount: nat): (n: nat)
    ensures n <= 2 * memberCount
  {
    2 * memberCount % SIZE_TYPE
  }

  /** One event; None when the stack underflows. */
  function Handle(memory: Memory, stack: seq<Code>, e: Event): Option<seq<Code>> {
    match e
    case StartObject => Some(stack)
    case StartArray => Some(stack)
    case Key(str) => Some(stack + [LeafCode(memory, StringLeaf(str))])
    case RawNumber(lexeme) => Some(stack + [Buffer(NUMBER_TYPE, lexeme)])
    case EndObject(memberCount) =>
      var top := |stack| - Popped(memberCount);
      if top < 0 then None
      else if Popped(memberCount) < 2 * memberCount then Some(stack[..top] + [memory.outside(stack, memberCount)])
      else Some(stack[..top] + [PairsCode(stack[top..], memberCount)])
    case EndArray(elementCount) =>
      var top := |stack| - elementCount;
      if top < 0 then None else Some(stack[..top] + [ChainCode(stack[top..], elementCount)])
    case _ => Some(stack + [LeafCode(memory, Validator.LeafOf(e).value)])
  }

  function HandleAll(memory: Memory, stack: seq<Code>, es: seq<Event>): Option<seq<Code>>
    decreases |es|
  {
    if es == [] then Some(stack)
    else
      var r := Handle(memory, stack, es[0]);
      if r.None? then None else HandleAll(memory, r.value, es[1..])
  }

  lemma {:induction false} HandleAppend(memory: Memory, stack: seq<Code>, a: seq<Event>, b: seq<Event>)
    requires HandleAll(memory, stack, a).Some?
    ensures HandleAll(memory, stack, a + b) == HandleAll(memory, HandleAll(memory, stack, a).value, b)
    decreases |a|
  {
    hide Handle;
    if a == [] {
      assert a + b == b;
    } else {
      assert (a + b)[1..] == a[1..] + b;
      HandleAppend(memory, Handle(memory, stack, a[0]).value, a[1..], b);
    }
  }

  lemma {:induction false} HandleOne(memory: Memory, stack: seq<Code>, e: Event)
    ensures HandleAll(memory, stack, [e]) == Handle(memory, stack, e)
  {
    hide Handle;
    assert [e][1..] == [];
  }

  /** The codes of the first `k` elements. */
  function ElementCodes(memory: Memory, elements: seq<Value>, k: nat): (r: seq<Code>)
    requires k <= |elements|
    ensures |r| == k
  {
    seq(k, i requires 0 <= i < k => CodeOf(memory, elements[i]))
  }

  /** The codes of the first `k` members, names and values. */
  function MemberCodes(memory: Memory, members: seq<Member>, k: nat): (r: seq<Code>)
    requires k <= |members|
    ensures |r| == 2 * k
  {
    if k == 0 then []
    else MemberCodes(memory, members, k - 1)
         + [LeafCode(memory, StringLeaf(members[k - 1].name)), CodeOf(memory, members[k - 1].value)]
  }

  lemma {:induction false} ChainIsArray(memory: Memory, elements: seq<Value>, k: nat)
    requires k <= |elements|
    ensures ChainCode(ElementCodes(memory, elements, |elements|), k) == ArrayCode(memory, elements, k)
  {
    hide Xor, Hash, CodeOf;
    if k > 0 {
      ChainIsArray(memory, elements, k - 1);
    }
  }

  /** Xor from the front and from the back. */
  lemma {:induction false} XorBack(memory: Memory, members: seq<Member>)
    requires members != []
    ensures var n := |members| - 1;
            MembersCode(memory, members) == Xor(MembersCode(memory, members[..n]), MemberCode(memory, members[n]))
  {
    hide Xor, MemberCode, MembersCode;
    var n := |members| - 1;
    TakeOut(memory, members, n);
    assert Without(members, n) == members[..n];
    XorCommutes(MemberCode(memory, members[n]), MembersCode(memory, members[..n]));
  }

  lemma {:induction false} PairsPrefix(kv: seq<Code>, more: seq<Code>, n: nat)
    requires 2 * n <= |kv|
    ensures PairsCode(kv + more, n) == PairsCode(kv, n)
  {
    hide Xor, Hash;
    if n > 0 {
      PairsPrefix(kv, more, n - 1);
    }
  }

  lemma {:induction false} PairsIsObject(memory: Memory, members: seq<Member>, k: nat)
    requires k <= |members|
    ensures PairsCode(MemberCodes(memory, members, k), k)
            == Xor(Hash(0, OBJECT_TYPE), MembersCode(memory, members[..k]))
  {
    hide Xor, Hash, CodeOf, LeafCode, MemberCode, MembersCode, MemberCodes, PairsCode;
    if k == 0 {
      NoPairs(memory, MemberCodes(memory, members, 0), members[..0]);
    } else {
      PairsIsObject(memory, members, k - 1);
      LastPair(memory, members, k);
      XorBack(memory, members[..k]);
      assert members[..k][..k - 1] == members[..k - 1];
      XorAssociates(Hash(0, OBJECT_TYPE), MembersCode(memory, members[..k - 1]), MemberCode(memory, members[k - 1]));
    }
  }

  lemma {:induction false} NoPairs(memory: Memory, kv: seq<Code>, members: seq<Member>)
    requires members == []
    ensures PairsCode(kv, 0) == Xor(Hash(0, OBJECT_TYPE), MembersCode(memory, members))
  {
    hide Xor, Hash;
    XorUnit(Hash(0, OBJECT_TYPE));
  }

  lemma LastPair(memory: Memory, members: seq<Member>, k: nat)
    requires 0 < k <= |members|
    ensures PairsCode(MemberCodes(memory, members, k), k)
         == Xor(PairsCode(MemberCodes(memory, members, k - 1), k - 1), MemberCode(memory, members[k - 1]))
  {
    hide Xor, Hash, CodeOf, LeafCode, PairsCode, MemberCodes;
    var kv := MemberCodes(memory, members, k - 1);
    var name, value := LeafCode(memory, StringLeaf(members[k - 1].name)), CodeOf(memory, members[k - 1].value);
    assert MemberCodes(memory, members, k) == kv + [name, value] by { MemberCodesBack(memory, members, k); }
    PairsPrefix(kv, [name, value], k - 1);
    PairsStep(kv + [name, value], k);
  }

  lemma MemberCodesBack(memory: Memory, members: seq<Member>, k: nat)
    requires 0 < k <= |members|
    ensures MemberCodes(memory, members, k)
         == MemberCodes(memory, members, k - 1)
           + [LeafCode(memory, StringLeaf(members[k - 1].name)), CodeOf(memory, members[k - 1].value)]
  {
    hide Xor, CodeOf, LeafCode;
  }

  lemma PairsStep(kv: seq<Code>, n: nat)
    requires 0 < 2 * n <= |kv|
    ensures PairsCode(kv, n) == Xor(PairsCode(kv, n - 1), Hash(kv[2 * n - 2], kv[2 * n - 1]))
  {
    hide Xor, Hash;
  }

  /** Objects whose entries can be counted in 32 bits, at any depth. */
  predicate Small(v: Value) {
    match v
    case ArrayValue(elements) => forall e <- elements :: Small(e)
    case ObjectValue(members) => |members| < SIZE_TYPE / 2 && forall m <- members :: Small(m.value)
    case _ => true
  }

  /** Driven by a tree's events, the machine pushes exactly the tree's code. */
  lemma {:induction false} EventsHash(memory: Memory, v: Value, source: Source, stack: seq<Code>)
    requires Sized(v) && Small(v)
    ensures HandleAll(memory, stack, Events(v, source)) == Some(stack + [CodeOf(memory, v)])
    decreases v
  {
    hide HandleAll, LeafCode, ElementEvents, MemberEvents, ArrayCode, MembersCode, PairsCode, ChainCode, Hash,
         MemberCodes, ElementCodes, NumberEvent;
    if v.ArrayValue? {
      var ev, n := ElementEvents(v.elements, 0, source), |v.elements|;
      assert stack + ElementCodes(memory, v.elements, 0) == stack;
      ElementsHash(memory, v.elements, 0, source, stack);
      var codes := ElementCodes(memory, v.elements, n);
      Bracketed(memory, stack, StartArray, ev, EndArray(n), stack + codes);
      ChainIsArray(memory, v.elements, n);
      Slices(stack, codes);
    } else if v.ObjectValue? {
      var ev, n := MemberEvents(v.members, 0, source), |v.members|;
      assert stack + MemberCodes(memory, v.members, 0) == stack;
      MembersHash(memory, v.members, 0, source, stack);
      var codes := MemberCodes(memory, v.members, n);
      Bracketed(memory, stack, StartObject, ev, EndObject(n), stack + codes);
      PairsIsObject(memory, v.members, n);
      assert v.members[..n] == v.members;
      Slices(stack, codes);
    } else {
      LeafHash(memory, v, source, stack);
    }
  }

  lemma {:induction false} LeafHash(memory: Memory, v: Value, source: Source, stack: seq<Code>)
    requires Sized(v) && !v.ArrayValue? && !v.ObjectValue?
    ensures HandleAll(memory, stack, Events(v, source)) == Some(stack + [CodeOf(memory, v)])
  {
    hide Xor, LeafCode, HandleAll;
    var e := Events(v, source)[0];
    assert Events(v, source) == [e];
    HandleOne(memory, stack, e);
  }

  lemma Slices<T>(left: seq<T>, right: seq<T>)
    ensures (left + right)[|left|..] == right && (left + right)[..|left|] == left
  {
  }

  lemma {:induction false} Bracketed(memory: Memory, stack: seq<Code>, start: Event, es: seq<Event>, end: Event,
                                     after: seq<Code>)
    requires (start.StartArray? || start.StartObject?) && HandleAll(memory, stack, es) == Some(after)
    ensures HandleAll(memory, stack, [start] + es + [end]) == Handle(memory, after, end)
  {
    hide HandleAll;
    HandleOne(memory, stack, start);
    HandleAppend(memory, stack, [start], es);
    HandleAppend(memory, stack, [start] + es, [end]);
    HandleOne(memory, after, end);
  }

  lemma {:induction false} ElementsHash(memory: Memory, elements: seq<Value>, k: nat, source: Source, stack: seq<Code>)
    requires k <= |elements| && forall e <- elements :: Sized(e) && Small(e)
    ensures HandleAll(memory, stack + ElementCodes(memory, elements, k), ElementEvents(elements, k, source))
         == Some(stack + ElementCodes(memory, elements, |elements|))
    decreases elements, |elements| - k
  {
    if k < |elements| {
      hide HandleAll, Events, ElementEvents, CodeOf;
      var es, rest := Events(elements[k], source), ElementEvents(elements, k + 1, source);
      ElementEventsStep(elements, k, source);
      EventsHash(memory, elements[k], source, stack + ElementCodes(memory, elements, k));
      HandleAppend(memory, stack + ElementCodes(memory, elements, k), es, rest);
      assert ElementCodes(memory, elements, k + 1) == ElementCodes(memory, elements, k) + [CodeOf(memory, elements[k])];
      Regroup(stack, ElementCodes(memory, elements, k), [CodeOf(memory, elements[k])]);
      ElementsHash(memory, elements, k + 1, source, stack);
    }
  }

  lemma {:induction false} MemberRun(memory: Memory, stack: seq<Code>, name: Text, es: seq<Event>, rest: seq<Event>,
                                     after: seq<Code>)
    requires HandleAll(memory, stack + [LeafCode(memory, StringLeaf(name))], es) == Some(after)
    ensures HandleAll(memory, stack, [Key(name)] + es + rest) == HandleAll(memory, after, rest)
  {
    hide HandleAll, LeafCode;
    HandleOne(memory, stack, Key(name));
    HandleAppend(memory, stack, [Key(name)], es);
    HandleAppend(memory, stack, [Key(name)] + es, rest);
  }

  lemma {:induction false} MembersHash(memory: Memory, members: seq<Member>, k: nat, source: Source, stack: seq<Code>)
    requires k <= |members| && forall m <- members :: Sized(m.value) && Small(m.value)
    ensures HandleAll(memory, stack + MemberCodes(memory, members, k), MemberEvents(members, k, source))
         == Some(stack + MemberCodes(memory, members, |members|))
    decreases members, |members| - k
  {
    if k < |members| {
      hide HandleAll, Events, MemberEvents, CodeOf, LeafCode, MemberCodes;
      var m := members[k];
      var es, rest := Events(m.value, source), MemberEvents(members, k + 1, source);
      var stack0 := stack + MemberCodes(memory, members, k);
      var stack1 := stack0 + [LeafCode(memory, StringLeaf(m.name))];
      MemberEventsStep(members, k, source);
      EventsHash(memory, m.value, source, stack1);
      MemberRun(memory, stack0, m.name, es, rest, stack1 + [CodeOf(memory, m.value)]);
      MemberCodesStep(memory, members, k, stack);
      MembersHash(memory, members, k + 1, source, stack);
    }
  }

  lemma MemberCodesStep(memory: Memory, members: seq<Member>, k: nat, stack: seq<Code>)
    requires k < |members|
    ensures stack + MemberCodes(memory, members, k) + [LeafCode(memory, StringLeaf(members[k].name))]
            + [CodeOf(memory, members[k].value)]
         == stack + MemberCodes(memory, members, k + 1)
  {
    hide Xor, CodeOf, LeafCode;
  }

  /** On a fresh hasher's stack the tree's code is all that is left. */
  lemma {:induction false} AcceptHashes(memory: Memory, v: Value, source: Source)
    requires Sized(v) && Small(v)
    ensures HandleAll(memory, [], Events(v, source)) == Some([CodeOf(memory, v)])
  {
    hide HandleAll, Events, CodeOf;
    EventsHash(memory, v, source, []);
    assert [] + [CodeOf(memory, v)] == [CodeOf(memory, v)];
  }

  // How many codes are left

  /** The codes a tree leaves on the stack. */
  function CodesLeft(v: Value): (n: nat)
    ensures n >= 1
  {
    match v
    case ArrayValue(elements) => ElementsLeft(elements, 0) - |elements| + 1
    case ObjectValue(members) => MembersLeft(members, 0) - Popped(|members|) + 1
    case _ => 1
  }

  /** The codes the elements from `k` on leave. */
  function ElementsLeft(elements: seq<Value>, k: nat): (n: nat)
    requires k <= |elements|
    ensures n >= |elements| - k
    decreases elements, |elements| - k
  {
    if k == |elements| then 0 else CodesLeft(elements[k]) + ElementsLeft(elements, k + 1)
  }

  /** The codes the members from `k` on leave, names and values. */
  function MembersLeft(members: seq<Member>, k: nat): (n: nat)
    requires k <= |members|
    ensures n >= 2 * (|members| - k)
    decreases members, |members| - k
  {
    if k == |members| then 0 else 1 + CodesLeft(members[k].value) + MembersLeft(members, k + 1)
  }

  /** The stack `r` is `stack` with `n` codes more. */
  predicate Adds(r: Option<seq<Code>>, stack: seq<Code>, n: nat) {
    r.Some? && |r.value| == |stack| + n && r.value[..|stack|] == stack
  }

  lemma {:induction false} EventsLeave(memory: Memory, v: Value, source: Source, stack: seq<Code>)
    requires Sized(v)
    ensures Adds(HandleAll(memory, stack, Events(v, source)), stack, CodesLeft(v))
    decreases v
  {
    hide HandleAll, LeafCode, ElementEvents, MemberEvents, PairsCode, ChainCode, Hash, Xor, ElementsLeft,
         MembersLeft, NumberEvent;
    if v.ArrayValue? {
      ElementsLeave(memory, v.elements, 0, source, stack);
      var es, n := ElementEvents(v.elements, 0, source), |v.elements|;
      var after := HandleAll(memory, stack, es).value;
      Bracketed(memory, stack, StartArray, es, EndArray(n), after);
      ArrayLeaves(memory, stack, after, n);
    } else if v.ObjectValue? {
      MembersLeave(memory, v.members, 0, source, stack);
      var es, n := MemberEvents(v.members, 0, source), |v.members|;
      var after := HandleAll(memory, stack, es).value;
      Bracketed(memory, stack, StartObject, es, EndObject(n), after);
      ObjectLeaves(memory, stack, after, n);
    } else {
      LeafHash(memory, v, source, stack);
    }
  }

  lemma ArrayLeaves(memory: Memory, stack: seq<Code>, after: seq<Code>, n: nat)
    requires |stack| + n <= |after| && after[..|stack|] == stack
    ensures Adds(Handle(memory, after, EndArray(n)), stack, |after| - |stack| - n + 1)
  {
    hide ChainCode;
    Cut(after, |stack|, |after| - n);
  }

  lemma ObjectLeaves(memory: Memory, stack: seq<Code>, after: seq<Code>, n: nat)
    requires |stack| + Popped(n) <= |after| && after[..|stack|] == stack
    ensures Adds(Handle(memory, after, EndObject(n)), stack, |after| - |stack| - Popped(n) + 1)
  {
    hide PairsCode, Popped;
    Cut(after, |stack|, |after| - Popped(n));
  }

  lemma Cut<T>(s: seq<T>, i: nat, j: nat)
    requires i <= j <= |s|
    ensures forall c: T :: (s[..j] + [c])[..i] == s[..i]
  {
  }

  lemma {:induction false} ElementsLeave(memory: Memory, elements: seq<Value>, k: nat, source: Source, stack: seq<Code>)
    requires k <= |elements| && forall e <- elements :: Sized(e)
    ensures Adds(HandleAll(memory, stack, ElementEvents(elements, k, source)), stack, ElementsLeft(elements, k))
    decreases elements, |elements| - k
  {
    if k < |elements| {
      hide HandleAll, Events, ElementEvents, CodesLeft;
      var es, rest := Events(elements[k], source), ElementEvents(elements, k + 1, source);
      ElementEventsStep(elements, k, source);
      EventsLeave(memory, elements[k], source, stack);
      var stack1 := HandleAll(memory, stack, es).value;
      HandleAppend(memory, stack, es, rest);
      ElementsLeave(memory, elements, k + 1, source, stack1);
      AddsMore(HandleAll(memory, stack1, rest), stack1, stack);
    }
  }

  lemma {:induction false} MembersLeave(memory: Memory, members: seq<Member>, k: nat, source: Source, stack: seq<Code>)
    requires k <= |members| && forall m <- members :: Sized(m.value)
    ensures Adds(HandleAll(memory, stack, MemberEvents(members, k, source)), stack, MembersLeft(members, k))
    decreases members, |members| - k
  {
    if k < |members| {
      hide HandleAll, Events, MemberEvents, CodesLeft, LeafCode;
      var m := members[k];
      var es, rest := Events(m.value, source), MemberEvents(members, k + 1, source);
      var stack1 := stack + [LeafCode(memory, StringLeaf(m.name))];
      MemberEventsStep(members, k, source);
      EventsLeave(memory, m.value, source, stack1);
      var stack2 := HandleAll(memory, stack1, es).value;
      MemberRun(memory, stack, m.name, es, rest, stack2);
      MembersLeave(memory, members, k + 1, source, stack2);
      AddsMore(Some(stack2), stack1, stack);
      AddsMore(HandleAll(memory, stack2, rest), stack2, stack);
    }
  }

  lemma AddsMore(r: Option<seq<Code>>, middle: seq<Code>, stack: seq<Code>)
    requires r.Some? && |middle| <= |r.value| && r.value[..|middle|] == middle
    requires |stack| <= |middle| && middle[..|stack|] == stack
    ensures r.value[..|stack|] == stack
  {
    assert r.value[..|stack|] == r.value[..|middle|][..|stack|];
  }

  /** One code is left exactly by small trees. */
  lemma {:induction false} OneLeftExactly(v: Value)
    requires Sized(v)
    ensures CodesLeft(v) == 1 <==> Small(v)
    decreases v
  {
    hide ElementsLeft, MembersLeft;
    match v
    case ArrayValue(elements) =>
      OneEachElement(elements, 0);
      assert elements[0..] == elements;
    case ObjectValue(members) =>
      OneEachMember(members, 0);
      assert members[0..] == members;
      PoppedExactly(|members|);
    case _ =>
  }

  lemma PoppedExactly(n: nat)
    requires n < SIZE_TYPE
    ensures Popped(n) == 2 * n <==> n < SIZE_TYPE / 2
  {
  }

  lemma {:induction false} OneEachElement(elements: seq<Value>, k: nat)
    requires k <= |elements| && forall e <- elements :: Sized(e)
    ensures ElementsLeft(elements, k) == |elements| - k <==> forall e <- elements[k..] :: Small(e)
    decreases elements, |elements| - k
  {
    if k < |elements| {
      hide CodesLeft, Small;
      OneLeftExactly(elements[k]);
      OneEachElement(elements, k + 1);
      assert elements[k..] == [elements[k]] + elements[k + 1..];
    }
  }

  lemma {:induction false} OneEachMember(members: seq<Member>, k: nat)
    requires k <= |members| && forall m <- members :: Sized(m.value)
    ensures MembersLeft(members, k) == 2 * (|members| - k) <==> forall m <- members[k..] :: Small(m.value)
    decreases members, |members| - k
  {
    if k < |members| {
      hide CodesLeft, Small;
      OneLeftExactly(members[k].value);
      OneEachMember(members, k + 1);
      assert members[k..] == [members[k]] + members[k + 1..];
    }
  }

  /**
   The theorem: `Accept` on any tree, or parsing its text, leaves exactly one code on a fresh hasher's stack if and only
   if every object has fewer than 2^31 members; and then the code is the tree's.
   */
  lemma {:induction false} OneCodeExactly(memory: Memory, v: Value, source: Source)
    requires Sized(v)
    ensures var r := HandleAll(memory, [], Events(v, source));
            && r.Some? && (|r.value| == 1 <==> Small(v))
            && (Small(v) ==> r.value == [CodeOf(memory, v)])
  {
    hide HandleAll, Events, CodeOf, CodesLeft, Small;
    EventsLeave(memory, v, source, []);
    OneLeftExactly(v);
    if Small(v) { AcceptHashes(memory, v, source); }
  }

  /** An object of 2^31 members pops none of their codes. */
  lemma MembersStay(members: seq<Member>)
    requires |members| == SIZE_TYPE / 2 && forall m <- members :: m.value.NullValue?
    ensures Sized(ObjectValue(members)) && CodesLeft(ObjectValue(members)) == SIZE_TYPE + 1
  {
    hide MembersLeft;
    forall m | m in members ensures Small(m.value) && Sized(m.value) { }
    OneEachMember(members, 0);
    assert members[0..] == members;
  }

  /** `Hasher` as an object. */
  class Hasher {
    const memory: Memory
    var stack: seq<Code>

    constructor (memory: Memory)
      ensures this.memory == memory && stack == []
    {
      this.memory := memory;
      stack := [];
    }

    method WriteBuffer(kind: Code, data: Text)
      modifies this
      ensures stack == old(stack) + [Buffer(kind, data)]
    {
      hide Xor, Hash;
      var h := Hash(OFFSET, kind);
      var i := 0;
      while i < |data|
        invariant i <= |data| && h == HashBytes(Hash(OFFSET, kind), data, i)
      {
        h := Hash(h, data[i] as bv64);
        i := i + 1;
      }
      stack := stack + [h];
    }

    /** The product is cut to 32 bits; reads past the popped entries are left to `memory`. */
    method EndObject(memberCount: nat)
      requires Popped(memberCount) <= |stack|
      modifies this
      ensures Some(stack) == Handle(memory, old(stack), Event.EndObject(memberCount))
    {
      hide Hash, LeafCode, Buffer, Xor;
      var n := memberCount * 2 % SIZE_TYPE;
      var h := Hash(0, OBJECT_TYPE);
      var top := |stack| - n;
      var kv := stack[top..];
      if n < memberCount * 2 {
        h := memory.outside(stack, memberCount);
      } else {
        var i := 0;
        while i < memberCount
          invariant i <= memberCount && h == PairsCode(kv, i)
        {
          h := Xor(h, Hash(kv[i * 2], kv[i * 2 + 1]));
          i := i + 1;
        }
      }
      stack := stack[..top] + [h];
    }

    method EndArray(elementCount: nat)
      requires elementCount <= |stack|
      modifies this
      ensures Some(stack) == Handle(memory, old(stack), Event.EndArray(elementCount))
    {
      hide Xor, Hash, LeafCode, Buffer;
      var h := Hash(0, ARRAY_TYPE);
      var top := |stack| - elementCount;
      var e := stack[top..];
      stack := stack[..top];
      var i := 0;
      while i < elementCount
        invariant i <= elementCount && h == ChainCode(e, i) && stack == old(stack)[..top]
      {
        h := Hash(h, e[i]);
        i := i + 1;
      }
      stack := stack + [h];
    }

    /** Any event. */
    method Receive(e: Event)
      requires Handle(memory, stack, e).Some?
      modifies this
      ensures Some(stack) == Handle(memory, old(stack), e)
    {
      hide Xor, Hash, Buffer;
      match e
      case StartObject =>
      case StartArray =>
      case Key(str) => WriteBuffer(STRING_TYPE, str);
      case String(str) => WriteBuffer(STRING_TYPE, str);
      case RawNumber(lexeme) => WriteBuffer(NUMBER_TYPE, lexeme);
      case EndObject(memberCount) => EndObject(memberCount);
      case EndArray(elementCount) => EndArray(elementCount);
      case Null => WriteBuffer(NULL_TYPE, []);
      case Bool(b) => WriteBuffer(if b then TRUE_TYPE else FALSE_TYPE, []);
      case Int(i) => WriteBuffer(NUMBER_TYPE, memory.bytes(IntegerLeaf(i)));
      case Uint(u) => WriteBuffer(NUMBER_TYPE, memory.bytes(IntegerLeaf(u)));
      case Int64(i64) => WriteBuffer(NUMBER_TYPE, memory.bytes(IntegerLeaf(i64)));
      case Uint64(u64) => WriteBuffer(NUMBER_TYPE, memory.bytes(IntegerLeaf(u64)));
      case Double(lexeme) => WriteBuffer(NUMBER_TYPE, memory.bytes(DoubleLeaf(lexeme)));
    }
  }
}
