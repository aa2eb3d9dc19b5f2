/**
 `GenericPointer::Get` and `Create` as they run on a tree that is changed in place: `v`, the address of
 the current value, is a position below the root.
 */
module JsonPointerDom {
  import opened Bytes
  import opened Optional
  import opened Sequences
  import opened JsonTypes
  import opened JsonPointer
  import opened JsonValue
  import opened JsonPointerTree
  import Proof = JsonPointerProof
  import Frame = JsonPointerFrame

  /** Appending to a position. */
  lemma {:induction false} PositionBelow(v: Value, path: seq<nat>, i: nat)
    requires IsPosition(v, path) && i < Size(ValueAt(v, path))
    ensures IsPosition(v, path + [i]) && ValueAt(v, path + [i]) == Child(ValueAt(v, path), i)
    decreases |path|
  {
    hide Child;
    if path == [] {
      assert [i][1..] == [];
    } else {
      assert (path + [i])[1..] == path[1..] + [i];
      PositionBelow(Child(v, path[0]), path[1..], i);
    }
  }

  /** Replacing a child of what is at a position. */
  lemma {:induction false} ReplaceBelow(v: Value, path: seq<nat>, node: Value, i: nat, c: Value)
    requires IsPosition(v, path) && i < Size(node)
    ensures IsPosition(Replace(v, path, node), path + [i])
    ensures Replace(Replace(v, path, node), path + [i], c) == Replace(v, path, SetChild(node, i, c))
    decreases |path|
  {
    PositionBelow(Replace(v, path, node), path, i);
    if path == [] {
      assert [i][1..] == [];
    } else {
      assert (path + [i])[1..] == path[1..] + [i];
      var child := Child(v, path[0]);
      ReplaceBelow(child, path[1..], node, i, c);
      SetTwice(v, path[0], Replace(child, path[1..], node), Replace(child, path[1..], SetChild(node, i, c)));
    }
  }

  lemma SetTwice(v: Value, i: nat, a: Value, b: Value)
    requires i < Size(v)
    ensures SetChild(SetChild(v, i, a), i, b) == SetChild(v, i, b)
  {
  }

  lemma {:induction false} ReplaceSame(v: Value, path: seq<nat>)
    requires IsPosition(v, path)
    ensures Replace(v, path, ValueAt(v, path)) == v
    decreases |path|
  {
    if path != [] {
      ReplaceSame(Child(v, path[0]), path[1..]);
      SetSameChild(v, path[0]);
    }
  }

  class Dom {
    var root: Value

    constructor (root: Value)
      ensures this.root == root
    {
      this.root := root;
    }

    method Get(tokens: seq<Token>) returns (r: Option<seq<nat>>)
      ensures r == JsonPointerTree.Get(root, tokens, 0)
    {
      hide Select, Child, IsPosition;
      var v, path, t := root, [], 0;
      assert JsonPointerTree.Get(root, tokens, 0).Some? ==>
               [] + JsonPointerTree.Get(root, tokens, 0).value == JsonPointerTree.Get(root, tokens, 0).value;
      while t < |tokens|
        invariant t <= |tokens|
        invariant Resolves(JsonPointerTree.Get(root, tokens, 0), path, JsonPointerTree.Get(v, tokens, t))
      {
        var child := Select(v, tokens[t]);
        if child.None? {
          return None;
        }
        var rest := JsonPointerTree.Get(Child(v, child.value), tokens, t + 1);
        if rest.Some? { Regroup(path, [child.value], rest.value); }
        v := Child(v, child.value);
        path := path + [child.value];
        t := t + 1;
      }
      assert path + [] == path;
      r := Some(path);
    }

    /** The whole resolution is the path so far and what is left to resolve. */
    ghost predicate Resolves(all: Option<seq<nat>>, path: seq<nat>, rest: Option<seq<nat>>) {
      all == if rest.None? then None else Some(path + rest.value)
    }

    /** What is left to create below the position will complete the whole creation. */
    ghost predicate Completes(all: Creation, path: seq<nat>, existed: bool, rest: Creation)
      reads this
    {
      && IsPosition(root, path)
      && all == Creation(Replace(root, path, rest.tree), path + rest.path, existed && rest.existed)
    }

    method Create(tokens: seq<Token>) returns (path: seq<nat>, existed: bool)
      requires Proof.Indexed(tokens)
      modifies this
      ensures Creation(root, path, existed) == JsonPointerTree.Create(old(root), tokens, 0)
      ensures existed == JsonPointerTree.Get(old(root), tokens, 0).Some?
      ensures existed ==> root == old(root) && Some(path) == JsonPointerTree.Get(root, tokens, 0)
      ensures JsonPointerTree.Get(root, tokens, 0) == if AppliesDash(old(root), tokens, 0) then None else Some(path)
      ensures |path| == |tokens|
      ensures forall p: seq<nat> | IsPosition(old(root), p) && !Frame.Lost(old(root), tokens, 0, path, p) ::
                Frame.Kept(old(root), Creation(root, path, existed), p)
      ensures forall q: seq<nat> | IsPosition(root, q) ::
                Frame.Accounted(old(root), tokens, 0, Creation(root, path, existed), q)
    {
      hide CreateChild, SetChild, JsonPointerTree.Get, AppliesDash, Replace, Frame.Lost, Frame.Kept, Frame.Accounted;
      CreateFrames(root, tokens);
      ExistsIffResolved(root, tokens, 0);
      CreatedIsResolved(root, tokens, 0);
      ghost var all := JsonPointerTree.Create(root, tokens, 0);
      path, existed := [], true;
      var t := 0;
      assert Completes(all, path, existed, all) by { NothingCreated(all); }
      while t < |tokens|
        invariant t <= |tokens| && IsPosition(root, path)
        invariant Completes(all, path, existed, JsonPointerTree.Create(ValueAt(root, path), tokens, t))
      {
        var v := ValueAt(root, path);
        var turn := CreateOne(v, tokens[t]);
        ghost var rest := JsonPointerTree.Create(Child(turn.node, turn.child), tokens, t + 1);
        OneCreated(all, path, existed, tokens, t, turn, rest);
        root := Replace(root, path, turn.node);
        path := path + [turn.child];
        existed := existed && turn.existed;
        t := t + 1;
      }
      ReplaceSame(root, path);
      assert path + [] == path;
    }

    /** What is kept and what is new, at every position. */
    lemma {:induction false} CreateFrames(v: Value, tokens: seq<Token>)
      requires Proof.Indexed(tokens)
      ensures var r := JsonPointerTree.Create(v, tokens, 0);
              && |r.path| == |tokens|
              && (forall p: seq<nat> | IsPosition(v, p) && !Frame.Lost(v, tokens, 0, r.path, p) :: Frame.Kept(v, r, p))
              && (forall q: seq<nat> | IsPosition(r.tree, q) :: Frame.Accounted(v, tokens, 0, r, q))
    {
      hide CreateChild, Frame.Lost, Frame.Kept, Frame.Accounted, JsonPointerTree.Create;
      var r := JsonPointerTree.Create(v, tokens, 0);
      Frame.PathLength(v, tokens, 0);
      forall p: seq<nat> | IsPosition(v, p) && !Frame.Lost(v, tokens, 0, r.path, p) ensures Frame.Kept(v, r, p) {
        Frame.OldIsKept(v, tokens, 0, p);
      }
      forall q: seq<nat> | IsPosition(r.tree, q) ensures Frame.Accounted(v, tokens, 0, r, q) {
        Frame.NewIsAccounted(v, tokens, 0, q);
      }
    }

    lemma NothingCreated(all: Creation)
      ensures Replace(root, [], all.tree) == all.tree && [] + all.path == all.path && IsPosition(root, [])
    {
    }

    lemma {:induction false} OneCreated(all: Creation, path: seq<nat>, existed: bool, tokens: seq<Token>, t: nat,
                                        turn: Turn, rest: Creation)
      requires t < |tokens| && IsPosition(root, path)
      requires turn == CreateChild(ValueAt(root, path), tokens[t])
               && rest == JsonPointerTree.Create(Child(turn.node, turn.child), tokens, t + 1)
      requires Completes(all, path, existed, JsonPointerTree.Create(ValueAt(root, path), tokens, t))
      ensures var root1, path1 := Replace(root, path, turn.node), path + [turn.child];
              && IsPosition(root1, path1) && ValueAt(root1, path1) == Child(turn.node, turn.child)
              && all == Creation(Replace(root1, path1, rest.tree), path1 + rest.path,
                                existed && turn.existed && rest.existed)
    {
      hide CreateChild, SetChild, Replace;
      PositionBelow(Replace(root, path, turn.node), path, turn.child);
      ReplaceBelow(root, path, turn.node, turn.child, rest.tree);
      Regroup(path, [turn.child], rest.path);
    }

    /** The body of the loop of `Create`, for one value. */
    method CreateOne(v: Value, t: Token) returns (turn: Turn)
      ensures turn == CreateChild(v, t)
    {
      if v.ArrayValue? && |t.name| == 1 && t.name[0] == MINUS {
        assert t.name == DASH;
        return Turn(ArrayValue(v.elements + [NullValue]), |v.elements|, false);
      }
      assert v.ArrayValue? ==> t.name != DASH by { assert |DASH| == 1 && DASH[0] == MINUS; }
      var w := v;
      if t.index == INVALID_INDEX {
        if !w.ObjectValue? {
          w := ObjectValue([]);
        }
      } else if !w.ArrayValue? && !w.ObjectValue? {
        w := ArrayValue([]);
      }
      if w.ArrayValue? {
        var elements := w.elements;
        while t.index >= |elements|
          invariant |elements| <= if t.index + 1 <= |w.elements| then |w.elements| else t.index + 1
          invariant elements == Pad(w.elements, |elements|) && |w.elements| <= |elements|
          decreases t.index + 1 - |elements|
        {
          elements := elements + [NullValue];
          assert elements == Pad(w.elements, |elements|);
        }
        assert elements == Pad(w.elements, t.index + 1);
        turn := Turn(ArrayValue(elements), t.index, t.index < |w.elements|);
      } else {
        var m := FindMember(w.members, t.name, 0);
        if m.None? {
          turn := Turn(ObjectValue(w.members + [Member(t.name, NullValue)]), |w.members|, false);
        } else {
          turn := Turn(w, m.value, true);
        }
      }
    }
  }
}
