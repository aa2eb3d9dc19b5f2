/**
 Resolving a pointer in a tree and creating what it points to. A position in a tree is the list of child
 numbers that lead to it; it stands for the address the code keeps in `v`.
 */
module JsonPointerTree {
  import opened Bytes
  import opened JsonTypes
  import opened JsonPointer
  import opened JsonPointerProof
  import opened JsonValue
  import opened Optional

  // Trees and positions

  function Size(v: Value): nat {
    match v
    case ArrayValue(elements) => |elements|
    case ObjectValue(members) => |members|
    case _ => 0
  }

  function Child(v: Value, i: nat): Value
    requires i < Size(v)
  {
    if v.ArrayValue? then v.elements[i] else v.members[i].value
  }

  function SetChild(v: Value, i: nat, c: Value): (r: Value)
    requires i < Size(v)
    ensures Size(r) == Size(v) && Child(r, i) == c
    ensures forall j | 0 <= j < Size(v) && j != i :: Child(r, j) == Child(v, j)
  {
    if v.ArrayValue? then ArrayValue(v.elements[i := c])
    else ObjectValue(v.members[i := Member(v.members[i].name, c)])
  }

  predicate IsPosition(v: Value, path: seq<nat>)
    decreases |path|
  {
    path == [] || (path[0] < Size(v) && IsPosition(Child(v, path[0]), path[1..]))
  }

  function ValueAt(v: Value, path: seq<nat>): Value
    requires IsPosition(v, path)
    decreases |path|
  {
    if path == [] then v else ValueAt(Child(v, path[0]), path[1..])
  }

  function Replace(v: Value, path: seq<nat>, c: Value): (r: Value)
    requires IsPosition(v, path)
    ensures IsPosition(r, path) && ValueAt(r, path) == c
    decreases |path|
  {
    if path == [] then c else SetChild(v, path[0], Replace(Child(v, path[0]), path[1..], c))
  }

  // Get

  /** `FindMember`, from `k` on: the first member with this name. */
  function FindMember(members: seq<Member>, name: Text, k: nat): (r: Option<nat>)
    requires k <= |members|
    ensures r.Some? ==> k <= r.value < |members| && members[r.value].name == name
    ensures r.Some? ==> forall i | k <= i < r.value :: members[i].name != name
    ensures r.None? ==> forall i | k <= i < |members| :: members[i].name != name
    decreases |members| - k
  {
    if k == |members| then None
    else if members[k].name == name then Some(k)
    else FindMember(members, name, k + 1)
  }

  /** The child a token selects. */
  function Select(v: Value, t: Token): (r: Option<nat>)
    ensures r.Some? ==> r.value < Size(v)
  {
    match v
    case ObjectValue(members) => FindMember(members, t.name, 0)
    case ArrayValue(elements) => if t.index == INVALID_INDEX || t.index >= |elements| then None else Some(t.index)
    case _ => None
  }

  /** `Get`: the position that the tokens from `k` on select below `v`. */
  function Get(v: Value, tokens: seq<Token>, k: nat): (r: Option<seq<nat>>)
    requires k <= |tokens|
    ensures r.Some? ==> IsPosition(v, r.value)
    decreases |tokens| - k
  {
    if k == |tokens| then Some([])
    else
      var child := Select(v, tokens[k]);
      if child.None? then None
      else
        var rest := Get(Child(v, child.value), tokens, k + 1);
        if rest.None? then None else Some([child.value] + rest.value)
  }

  // Create

  const DASH: Text := [MINUS]

  /** What one token makes of a value: the value with the child it needs, and that child. */
  datatype Turn = Turn(node: Value, child: nat, existed: bool)

  /** Append nulls until there are `n` elements. */
  function Pad(elements: seq<Value>, n: nat): (r: seq<Value>)
    ensures |r| == if n <= |elements| then |elements| else n
    ensures forall i | 0 <= i < |r| :: r[i] == if i < |elements| then elements[i] else NullValue
  {
    elements + seq(if n <= |elements| then 0 else n - |elements|, _ => NullValue)
  }

  /** The value is changed to a container if it is not one the token can select from. */
  function Converted(v: Value, t: Token): Value {
    if t.index == INVALID_INDEX then (if v.ObjectValue? then v else ObjectValue([]))
    else if v.ArrayValue? || v.ObjectValue? then v
    else ArrayValue([])
  }

  function CreateChild(v: Value, t: Token): (r: Turn)
    ensures r.child < Size(r.node)
  {
    if v.ArrayValue? && t.name == DASH then
      Turn(ArrayValue(v.elements + [NullValue]), |v.elements|, false)
    else
      var v1 := Converted(v, t);
      if v1.ArrayValue? then Turn(ArrayValue(Pad(v1.elements, t.index + 1)), t.index, t.index < |v1.elements|)
      else
        var m := FindMember(v1.members, t.name, 0);
        if m.Some? then Turn(v1, m.value, true)
        else Turn(ObjectValue(v1.members + [Member(t.name, NullValue)]), |v1.members|, false)
  }

  /** The changed tree, the position of the value, and whether it existed. */
  datatype Creation = Creation(tree: Value, path: seq<nat>, existed: bool)

  /** `Create`, for the tokens from `k` on. */
  function Create(v: Value, tokens: seq<Token>, k: nat): (r: Creation)
    requires k <= |tokens|
    ensures IsPosition(r.tree, r.path)
    decreases |tokens| - k
  {
    if k == |tokens| then Creation(v, [], true)
    else
      var turn := CreateChild(v, tokens[k]);
      var rest := Create(Child(turn.node, turn.child), tokens, k + 1);
      Creation(SetChild(turn.node, turn.child, rest.tree), [turn.child] + rest.path, turn.existed && rest.existed)
  }

  // "Already exists" means Get resolves

  /**
   A token of a parsed pointer that selects a child leaves the value as it is; one that selects none makes a new
   child.
   */
  lemma SelectedExists(v: Value, t: Token)
    requires t.index == IndexOf(t.name)
    ensures var r, s := CreateChild(v, t), Select(v, t);
            && r.existed == s.Some?
            && (r.existed ==> r.node == v && r.child == s.value)
            && (!r.existed ==> Child(r.node, r.child) == NullValue)
  {
    assert DASH[0] == MINUS && !IsNumber(DASH);
    if v.ArrayValue? && t.index != INVALID_INDEX && t.index < |v.elements| {
      assert Pad(v.elements, t.index + 1) == v.elements;
    }
  }

  lemma SetSameChild(v: Value, i: nat)
    requires i < Size(v)
    ensures SetChild(v, i, Child(v, i)) == v
  {
  }

  /**
   The theorem: `Create` reports that the value already exists exactly when `Get` resolves the pointer before
   the call; then the tree is unchanged and the value is the one `Get` finds. A value that did not exist is null.
   */
  lemma {:induction false} ExistsIffResolved(v: Value, tokens: seq<Token>, k: nat)
    requires k <= |tokens| && Indexed(tokens)
    ensures var r, g := Create(v, tokens, k), Get(v, tokens, k);
            && r.existed == g.Some?
            && (r.existed ==> r.tree == v && r.path == g.value)
            && (!r.existed ==> ValueAt(r.tree, r.path) == NullValue)
    decreases |tokens| - k
  {
    if k < |tokens| {
      hide CreateChild, Select, SetChild;
      var t := tokens[k];
      SelectedExists(v, t);
      var turn := CreateChild(v, t);
      var child := Child(turn.node, turn.child);
      ExistsIffResolved(child, tokens, k + 1);
      var rest := Create(child, tokens, k + 1);
      SetSameChild(turn.node, turn.child);
      assert ([turn.child] + rest.path)[1..] == rest.path;
      if !turn.existed && rest.existed { ExistedIsSame(child, tokens, k + 1); }
    }
  }

  /** A null in which the rest of the pointer exists is the null itself. */
  lemma {:induction false} ExistedIsSame(v: Value, tokens: seq<Token>, k: nat)
    requires k <= |tokens| && v == NullValue && Get(v, tokens, k).Some?
    ensures k == |tokens|
  {
  }

  // After Create, Get resolves

  /** Is a "-" token applied to an array on the way? */
  predicate AppliesDash(v: Value, tokens: seq<Token>, k: nat)
    requires k <= |tokens|
    decreases |tokens| - k
  {
    k < |tokens| &&
    ((v.ArrayValue? && tokens[k].name == DASH)
     || var turn := CreateChild(v, tokens[k]); AppliesDash(Child(turn.node, turn.child), tokens, k + 1))
  }

  /** The child a token has made is the one it selects, unless the token is "-" in an array. */
  lemma CreatedIsSelected(v: Value, t: Token, c: Value)
    requires t.index == IndexOf(t.name)
    ensures var r := CreateChild(v, t);
            Select(SetChild(r.node, r.child, c), t) == if v.ArrayValue? && t.name == DASH then None else Some(r.child)
  {
    assert DASH[0] == MINUS && !IsNumber(DASH);
    var r := CreateChild(v, t);
    if !(v.ArrayValue? && t.name == DASH) && r.node.ObjectValue? {
      var ms := SetChild(r.node, r.child, c).members;
      assert forall i | 0 <= i < |ms| :: ms[i].name == r.node.members[i].name;
      FirstMember(ms, t.name, r.child, 0);
    }
  }

  lemma {:induction false} FirstMember(members: seq<Member>, name: Text, i: nat, k: nat)
    requires k <= i < |members| && members[i].name == name && forall j | 0 <= j < i :: members[j].name != name
    ensures FindMember(members, name, k) == Some(i)
    decreases i - k
  {
    if k < i {
      FirstMember(members, name, i, k + 1);
    }
  }

  /**
   The theorem: after `Create`, `Get` resolves to the very value `Create` returned, exactly unless a "-" token was
   applied to an array.
   */
  lemma {:induction false} CreatedIsResolved(v: Value, tokens: seq<Token>, k: nat)
    requires k <= |tokens| && Indexed(tokens)
    ensures var r := Create(v, tokens, k);
            Get(r.tree, tokens, k) == if AppliesDash(v, tokens, k) then None else Some(r.path)
    decreases |tokens| - k
  {
    if k < |tokens| {
      hide CreateChild, Select, SetChild, Get, Child;
      var turn := CreateChild(v, tokens[k]);
      var rest := Create(Child(turn.node, turn.child), tokens, k + 1);
      CreatedIsSelected(v, tokens[k], rest.tree);
      CreatedIsResolved(Child(turn.node, turn.child), tokens, k + 1);
      Descend(SetChild(turn.node, turn.child, rest.tree), tokens, k, turn.child, rest.tree);
    }
  }

  /** One step of `Get`. */
  lemma Descend(v: Value, tokens: seq<Token>, k: nat, i: nat, c: Value)
    requires k < |tokens| && i < Size(v) && Child(v, i) == c
    ensures Select(v, tokens[k]).None? ==> Get(v, tokens, k).None?
    ensures Select(v, tokens[k]) == Some(i) ==>
              var rest := Get(c, tokens, k + 1);
              Get(v, tokens, k) == if rest.None? then None else Some([i] + rest.value)
  {
    hide Select;
  }

  /** Whatever is assigned to the created value, the pointer then resolves to it: `Set` and `Get`. */
  lemma {:induction false} SetIsResolved(v: Value, tokens: seq<Token>, k: nat, path: seq<nat>, c: Value)
    requires k <= |tokens| && Get(v, tokens, k) == Some(path)
    ensures Get(Replace(v, path, c), tokens, k) == Some(path)
    decreases |tokens| - k
  {
    if k < |tokens| {
      hide Select, SetChild;
      var i := path[0];
      var child := Child(v, i);
      var rest := Get(child, tokens, k + 1).value;
      assert path[1..] == rest;
      SetIsResolved(child, tokens, k + 1, rest, c);
      SelectKept(v, tokens[k], Replace(child, rest, c));
    }
  }

  lemma SelectKept(v: Value, t: Token, c: Value)
    requires Select(v, t).Some?
    ensures Select(SetChild(v, Select(v, t).value, c), t) == Select(v, t)
  {
    if v.ObjectValue? {
      var i := Select(v, t).value;
      var ms := SetChild(v, i, c).members;
      assert forall j | 0 <= j < |ms| :: ms[j].name == v.members[j].name;
      FirstMember(ms, t.name, i, 0);
    }
  }
}
