/**
 What `Create` leaves alone and what it adds: of the old tree only what lies below a converted value is lost, and
 only what lies on the way to the new value changes.
 */
module JsonPointerFrame {
  import opened Bytes
  import opened JsonTypes
  import opened JsonPointer
  import opened JsonPointerProof
  import opened JsonValue
  import opened JsonPointerTree
  import opened Optional

  // One token

  /** Is the value no container that the token can select from, nor one that "-" can extend? */
  predicate Converts(v: Value, t: Token) {
    !v.ObjectValue? && !(v.ArrayValue? && (t.name == [MINUS] || t.index != INVALID_INDEX))
  }

  /** What it is converted to: an array for an index, an object for any other name. */
  function Emptied(t: Token): Value {
    if t.index == INVALID_INDEX then ObjectValue([]) else ArrayValue([])
  }

  /** The name of a child, in an object. */
  function Label(v: Value, i: nat): Option<Text>
    requires i < Size(v)
  {
    if v.ObjectValue? then Some(v.members[i].name) else None
  }

  /** All children of `v` are where they were, under the same names; what comes behind them is null. */
  predicate Extends(v: Value, w: Value) {
    && (v.ObjectValue? <==> w.ObjectValue?) && (v.ArrayValue? <==> w.ArrayValue?)
    && Size(v) <= Size(w)
    && (forall i | 0 <= i < Size(v) :: Child(w, i) == Child(v, i) && Label(w, i) == Label(v, i))
    && (forall i | Size(v) <= i < Size(w) :: Child(w, i) == NullValue)
  }

  /** The child is the one the token names: the element at the index or behind the last, the member with the name. */
  predicate IsNamed(v: Value, w: Value, t: Token, child: nat)
    requires child < Size(w)
  {
    if w.ObjectValue? then Label(w, child) == Some(t.name)
    else child == if t.name == [MINUS] then Size(v) else t.index
  }

  /**
   One token: a value is emptied exactly when it is converted, and extended by what the token needs. A child that
   is new comes last; in an object it is the only new one, and no member before it has its name.
   */
  lemma TurnExtends(v: Value, t: Token)
    requires t.index == IndexOf(t.name)
    ensures var r, v1 := CreateChild(v, t), if Converts(v, t) then Emptied(t) else v;
            && Extends(v1, r.node) && IsNamed(v1, r.node, t, r.child)
            && (r.existed <==> r.child < Size(v1))
            && (if r.existed then r.node == v1 && !Converts(v, t) else Size(r.node) == r.child + 1)
            && (r.node.ObjectValue? && !r.existed ==> Size(r.node) == Size(v1) + 1)
            && (r.node.ObjectValue? ==> forall i | 0 <= i < r.child :: Label(r.node, i) != Some(t.name))
  {
    assert [MINUS][0] == MINUS && !IsNumber([MINUS]);
    var r, v1 := CreateChild(v, t), if Converts(v, t) then Emptied(t) else v;
    if v1.ArrayValue? && t.name != [MINUS] && r.existed {
      assert Pad(v1.elements, t.index + 1) == v1.elements;
    }
  }

  // The whole pointer

  /** Does the position lie below a value that the tokens from `k` on convert? `path` is where they lead. */
  predicate Lost(v: Value, tokens: seq<Token>, k: nat, path: seq<nat>, p: seq<nat>)
    requires k <= |tokens| && |path| == |tokens| - k && IsPosition(v, p)
    decreases |p|
  {
    p != [] && path != []
    && (Converts(v, tokens[k])
        || (p[0] == path[0] && Lost(Child(v, p[0]), tokens, k + 1, path[1..], p[1..])))
  }

  /** A position that is not lost goes on with a child of a value that is not converted. */
  lemma {:induction false} NotLost(v: Value, tokens: seq<Token>, k: nat, path: seq<nat>, p: seq<nat>)
    requires k < |tokens| && |path| == |tokens| - k && IsPosition(v, p) && p != [] && !Lost(v, tokens, k, path, p)
    ensures !Converts(v, tokens[k])
    ensures p[0] == path[0] ==> !Lost(Child(v, p[0]), tokens, k + 1, path[1..], p[1..])
  {
    hide Converts;
  }

  lemma {:induction false} PathLength(v: Value, tokens: seq<Token>, k: nat)
    requires k <= |tokens|
    ensures |Create(v, tokens, k).path| == |tokens| - k
    decreases |tokens| - k
  {
    if k < |tokens| {
      hide CreateChild, SetChild;
      var turn := CreateChild(v, tokens[k]);
      PathLength(Child(turn.node, turn.child), tokens, k + 1);
    }
  }

  /** The names along a position. */
  function Labels(v: Value, p: seq<nat>): (names: seq<Option<Text>>)
    requires IsPosition(v, p)
    ensures |names| == |p|
    decreases |p|
  {
    if p == [] then [] else [Label(v, p[0])] + Labels(Child(v, p[0]), p[1..])
  }

  /** What has become of an old position. */
  ghost predicate Kept(v: Value, r: Creation, p: seq<nat>)
    requires IsPosition(v, p)
  {
    && IsPosition(r.tree, p)
    && Labels(r.tree, p) == Labels(v, p)
    && (p <= r.path || ValueAt(r.tree, p) == ValueAt(v, p))
  }

  /** A child beside the one the token names keeps everything, the named one what the rest of the tokens leaves. */
  lemma {:induction false} KeptBelow(v: Value, tokens: seq<Token>, k: nat, p: seq<nat>)
    requires k < |tokens| && Indexed(tokens) && IsPosition(v, p) && p != [] && !Converts(v, tokens[k])
    requires var turn := CreateChild(v, tokens[k]);
             p[0] == turn.child ==> Kept(Child(v, p[0]), Create(Child(v, p[0]), tokens, k + 1), p[1..])
    ensures Kept(v, Create(v, tokens, k), p)
  {
    hide CreateChild, SetChild, Converts;
    var t := tokens[k];
    TurnExtends(v, t);
    var turn := CreateChild(v, t);
    var rest := Create(Child(turn.node, turn.child), tokens, k + 1);
    var r := Create(v, tokens, k);
    SetLabels(turn.node, turn.child, rest.tree);
    assert r.tree == SetChild(turn.node, turn.child, rest.tree) && r.path == [turn.child] + rest.path;
    assert Label(r.tree, p[0]) == Label(turn.node, p[0]) == Label(v, p[0]);
    if p[0] == turn.child {
      assert Child(turn.node, turn.child) == Child(v, p[0]);
      if p[1..] <= rest.path { assert p == [p[0]] + p[1..] <= r.path; }
    }
  }

  lemma SetLabels(v: Value, i: nat, c: Value)
    requires i < Size(v)
    ensures forall j | 0 <= j < Size(v) :: Label(SetChild(v, i, c), j) == Label(v, j)
  {
  }

  /** A child of a value that is not converted is the same behind the turn. */
  lemma NamedChild(v: Value, t: Token)
    requires t.index == IndexOf(t.name) && !Converts(v, t)
    ensures var r := CreateChild(v, t); r.child < Size(v) ==> Child(r.node, r.child) == Child(v, r.child)
  {
    hide CreateChild, Converts;
    TurnExtends(v, t);
  }

  /**
   The theorem about what was there: every position of the old tree that is not below a converted value is a
   position of the new one, under the same names, and holds the same value unless it lies on the way.
   */
  lemma {:induction false} OldIsKept(v: Value, tokens: seq<Token>, k: nat, p: seq<nat>)
    requires k <= |tokens| && Indexed(tokens) && IsPosition(v, p)
    requires |Create(v, tokens, k).path| == |tokens| - k && !Lost(v, tokens, k, Create(v, tokens, k).path, p)
    ensures Kept(v, Create(v, tokens, k), p)
    decreases |tokens| - k
  {
    hide CreateChild, SetChild, Converts, Kept, Extends, IsNamed, Emptied, Lost, Child;
    if k == |tokens| || p == [] {
      KeptTrivially(v, tokens, k, p);
    } else {
      NotLost(v, tokens, k, Create(v, tokens, k).path, p);
      var turn := CreateChild(v, tokens[k]);
      var child := Child(turn.node, turn.child);
      PathLength(child, tokens, k + 1);
      NamedChild(v, tokens[k]);
      assert Create(v, tokens, k).path[1..] == Create(child, tokens, k + 1).path;
      if p[0] == turn.child {
        OldIsKept(child, tokens, k + 1, p[1..]);
      }
      KeptBelow(v, tokens, k, p);
    }
  }

  lemma {:induction false} KeptTrivially(v: Value, tokens: seq<Token>, k: nat, p: seq<nat>)
    requires k <= |tokens| && IsPosition(v, p) && (k == |tokens| || p == [])
    ensures Kept(v, Create(v, tokens, k), p)
  {
    hide CreateChild, SetChild;
  }

  /** What is at a position of the new tree: something kept, something on the way, or a null that fills an array. */
  ghost predicate Accounted(v: Value, tokens: seq<Token>, k: nat, r: Creation, q: seq<nat>)
    requires k <= |tokens| && |r.path| == |tokens| - k && IsPosition(r.tree, q)
  {
    || (IsPosition(v, q) && !Lost(v, tokens, k, r.path, q))
    || q <= r.path
    || (ValueAt(r.tree, q) == NullValue && q != [] && q[..|q| - 1] <= r.path)
  }

  /**
   The theorem about what is new: every position of the new tree was there before and is not below a converted value,
   or lies on the way, or holds a null put in to fill an array on the way.
   */
  lemma {:induction false} NewIsAccounted(v: Value, tokens: seq<Token>, k: nat, q: seq<nat>)
    requires k <= |tokens| && Indexed(tokens) && |Create(v, tokens, k).path| == |tokens| - k
    requires IsPosition(Create(v, tokens, k).tree, q)
    ensures Accounted(v, tokens, k, Create(v, tokens, k), q)
    decreases |tokens| - k
  {
    hide CreateChild, SetChild, Converts, Accounted;
    if k < |tokens| && q != [] {
      var turn := CreateChild(v, tokens[k]);
      var child := Child(turn.node, turn.child);
      PathLength(child, tokens, k + 1);
      assert Create(v, tokens, k).path[1..] == Create(child, tokens, k + 1).path;
      if q[0] == turn.child {
        NewIsAccounted(child, tokens, k + 1, q[1..]);
      }
      AccountedBelow(v, tokens, k, q);
    } else {
      AccountedTrivially(v, tokens, k, q);
    }
  }

  lemma {:induction false} AccountedTrivially(v: Value, tokens: seq<Token>, k: nat, q: seq<nat>)
    requires k <= |tokens| && |Create(v, tokens, k).path| == |tokens| - k
    requires IsPosition(Create(v, tokens, k).tree, q) && (k == |tokens| || q == [])
    ensures Accounted(v, tokens, k, Create(v, tokens, k), q)
  {
    hide CreateChild, SetChild;
  }

  lemma {:induction false} AccountedBelow(v: Value, tokens: seq<Token>, k: nat, q: seq<nat>)
    requires k < |tokens| && Indexed(tokens) && |Create(v, tokens, k).path| == |tokens| - k
    requires IsPosition(Create(v, tokens, k).tree, q) && q != []
    requires var turn := CreateChild(v, tokens[k]);
             q[0] == turn.child ==>
               var r := Create(Child(turn.node, turn.child), tokens, k + 1);
               && |r.path| == |tokens| - (k + 1) && IsPosition(r.tree, q[1..])
               && Accounted(Child(turn.node, turn.child), tokens, k + 1, r, q[1..])
    ensures Accounted(v, tokens, k, Create(v, tokens, k), q)
  {
    hide CreateChild, SetChild, Converts, Lost;
    var turn := CreateChild(v, tokens[k]);
    var rest := Create(Child(turn.node, turn.child), tokens, k + 1);
    var r := Create(v, tokens, k);
    assert r.tree == SetChild(turn.node, turn.child, rest.tree) && r.path == [turn.child] + rest.path;
    if q[0] != turn.child {
      BesideAccounted(v, tokens[k], turn, rest.tree, q);
      assert q[..|q| - 1] == [] <= r.path || |q| > 1;
      if !Converts(v, tokens[k]) && IsPosition(v, q) { NotLostBeside(v, tokens, k, r.path, q); }
    } else {
      hide Child;
      PrefixBelow(q, r.path);
      if IsPosition(Child(turn.node, turn.child), q[1..])
         && !Lost(Child(turn.node, turn.child), tokens, k + 1, rest.path, q[1..]) {
        NamedAccounted(v, tokens, k, r.path, turn, q);
      }
    }
  }

  lemma PrefixBelow(q: seq<nat>, path: seq<nat>)
    requires q != [] && path != [] && q[0] == path[0]
    ensures q[1..] <= path[1..] ==> q <= path
    ensures |q| > 1 && q[1..][..|q| - 2] <= path[1..] ==> q[..|q| - 1] <= path
  {
    if q[1..] <= path[1..] { assert q == [q[0]] + q[1..]; }
    if |q| > 1 && q[1..][..|q| - 2] <= path[1..] { assert q[..|q| - 1] == [q[0]] + q[1..][..|q| - 2]; }
  }

  lemma {:induction false} NotLostBeside(v: Value, tokens: seq<Token>, k: nat, path: seq<nat>, q: seq<nat>)
    requires k < |tokens| && |path| == |tokens| - k && IsPosition(v, q) && q != [] && q[0] != path[0]
    requires !Converts(v, tokens[k])
    ensures !Lost(v, tokens, k, path, q)
  {
    hide Converts;
  }

  /** What was there below the named child was there below the value; a new child has nothing below it. */
  lemma {:induction false} NamedAccounted(v: Value, tokens: seq<Token>, k: nat, path: seq<nat>, turn: Turn, q: seq<nat>)
    requires k < |tokens| && |path| == |tokens| - k && Indexed(tokens) && turn == CreateChild(v, tokens[k])
    requires q != [] && q[0] == path[0] == turn.child && IsPosition(Child(turn.node, turn.child), q[1..])
    requires !Lost(Child(turn.node, turn.child), tokens, k + 1, path[1..], q[1..])
    ensures q <= path || (IsPosition(v, q) && !Lost(v, tokens, k, path, q))
  {
    hide CreateChild, Converts;
    TurnExtends(v, tokens[k]);
    if Converts(v, tokens[k]) || turn.child >= Size(v) {
      assert Child(turn.node, turn.child) == NullValue;
      assert q[1..] == [];
      PrefixBelow(q, path);
    }
  }

  /** Beside the named child there are only old children, of a value that is not converted, and nulls. */
  lemma {:induction false} BesideAccounted(v: Value, t: Token, turn: Turn, c: Value, q: seq<nat>)
    requires t.index == IndexOf(t.name) && turn == CreateChild(v, t)
    requires q != [] && q[0] != turn.child && IsPosition(SetChild(turn.node, turn.child, c), q)
    ensures (!Converts(v, t) && IsPosition(v, q))
            || (|q| == 1 && ValueAt(SetChild(turn.node, turn.child, c), q) == NullValue)
  {
    hide CreateChild, Converts;
    TurnExtends(v, t);
    var v1 := if Converts(v, t) then Emptied(t) else v;
    var tree := SetChild(turn.node, turn.child, c);
    assert Child(tree, q[0]) == Child(turn.node, q[0]);
    if q[0] >= Size(v1) {
      assert Child(turn.node, q[0]) == NullValue;
      assert q[1..] == [];
    }
  }

  // Other pointers

  lemma SelectExtended(v: Value, w: Value, t: Token)
    requires Extends(v, w) && Select(v, t).Some?
    ensures Select(w, t) == Select(v, t)
  {
    if v.ObjectValue? {
      var i := Select(v, t).value;
      forall j | 0 <= j <= i ensures w.members[j].name == v.members[j].name {
        assert Label(w, j) == Label(v, j);
      }
      FirstMember(w.members, t.name, i, 0);
    }
  }

  lemma SelectSet(v: Value, t: Token, i: nat, c: Value)
    requires i < Size(v)
    ensures Select(SetChild(v, i, c), t) == Select(v, t)
  {
    if v.ObjectValue? {
      var w := SetChild(v, i, c);
      forall j | 0 <= j < Size(v) ensures w.members[j].name == v.members[j].name { }
      SameFirst(v.members, w.members, t.name, 0);
    }
  }

  lemma {:induction false} SameFirst(a: seq<Member>, b: seq<Member>, name: Text, k: nat)
    requires k <= |a| == |b| && forall j | 0 <= j < |a| :: a[j].name == b[j].name
    ensures FindMember(a, name, k) == FindMember(b, name, k)
    decreases |a| - k
  {
    if k < |a| {
      SameFirst(a, b, name, k + 1);
    }
  }

  /**
   The theorem about other pointers: one that resolved before to a position that is not below a converted value
   resolves to it still, and the value there is the same unless it lies on the way.
   */
  lemma {:induction false} OthersResolve(v: Value, tokens: seq<Token>, k: nat, others: seq<Token>, l: nat)
    requires k <= |tokens| && l <= |others| && Indexed(tokens) && |Create(v, tokens, k).path| == |tokens| - k
    requires Get(v, others, l).Some?
    requires !Lost(v, tokens, k, Create(v, tokens, k).path, Get(v, others, l).value)
    ensures Get(Create(v, tokens, k).tree, others, l) == Get(v, others, l)
    ensures Kept(v, Create(v, tokens, k), Get(v, others, l).value)
    decreases |tokens| - k
  {
    hide CreateChild, SetChild, Converts, Kept, Select, Child, Lost;
    var p := Get(v, others, l).value;
    OldIsKept(v, tokens, k, p);
    if k == |tokens| {
      NothingLeft(v, tokens);
    } else if l < |others| {
      NotLost(v, tokens, k, Create(v, tokens, k).path, p);
      var i := Select(v, others[l]).value;
      var turn := CreateChild(v, tokens[k]);
      var child := Child(turn.node, turn.child);
      var rest := Create(child, tokens, k + 1);
      var tree := SetChild(turn.node, turn.child, rest.tree);
      assert p[0] == i && p[1..] == Get(Child(v, i), others, l + 1).value;
      TurnExtends(v, tokens[k]);
      SelectExtended(v, turn.node, others[l]);
      SelectSet(turn.node, others[l], turn.child, rest.tree);
      if i == turn.child {
        PathLength(child, tokens, k + 1);
        assert Create(v, tokens, k).path[1..] == rest.path;
        NamedChild(v, tokens[k]);
        OthersResolve(child, tokens, k + 1, others, l + 1);
      } else {
        SameBeside(v, turn, i, rest.tree, tokens[k]);
      }
      Descend(tree, others, l, i, Child(tree, i));
    }
  }

  lemma {:induction false} NothingLeft(v: Value, tokens: seq<Token>)
    ensures Create(v, tokens, |tokens|).tree == v
  {
  }

  lemma SameBeside(v: Value, turn: Turn, i: nat, c: Value, t: Token)
    requires turn == CreateChild(v, t) && t.index == IndexOf(t.name) && !Converts(v, t) && i < Size(v)
             && i != turn.child
    ensures i < Size(turn.node) && Child(SetChild(turn.node, turn.child, c), i) == Child(v, i)
  {
    hide CreateChild, Converts;
    TurnExtends(v, t);
  }

  // Every position has a pointer

  /** The tokens name the children along the position, each the first of its name and below the invalid index. */
  predicate Spells(v: Value, tokens: seq<Token>, k: nat, p: seq<nat>)
    requires k <= |tokens| && |p| == |tokens| - k && IsPosition(v, p)
    decreases |p|
  {
    p != [] ==>
      && (if v.ObjectValue? then
            && v.members[p[0]].name == tokens[k].name
            && forall i | 0 <= i < p[0] :: v.members[i].name != tokens[k].name
          else p[0] == tokens[k].index != INVALID_INDEX)
      && Spells(Child(v, p[0]), tokens, k + 1, p[1..])
  }

  /** `Get` resolves a pointer to a position if and only if its tokens name the children along it. */
  lemma {:induction false} ResolvesIffSpelled(v: Value, tokens: seq<Token>, k: nat, p: seq<nat>)
    requires k <= |tokens| && |p| == |tokens| - k && IsPosition(v, p)
    ensures Get(v, tokens, k) == Some(p) <==> Spells(v, tokens, k, p)
    decreases |p|
  {
    if p != [] {
      ResolvesIffSpelled(Child(v, p[0]), tokens, k + 1, p[1..]);
      if v.ObjectValue? && v.members[p[0]].name == tokens[k].name
         && forall i | 0 <= i < p[0] :: v.members[i].name != tokens[k].name {
        FirstMember(v.members, tokens[k].name, p[0], 0);
      }
      var child := Select(v, tokens[k]);
      if child == Some(p[0]) {
        assert [p[0]] + p[1..] == p;
        var rest := Get(Child(v, p[0]), tokens, k + 1);
        if rest.Some? { assert ([p[0]] + rest.value)[1..] == rest.value; }
      } else if child.Some? {
        var rest := Get(Child(v, child.value), tokens, k + 1);
        if rest.Some? { assert ([child.value] + rest.value)[0] == child.value; }
      }
    }
  }
}
