/**
 The validator's document path. A small machine, which knows nothing of schemas, follows the events and
 keeps the list of names and indices that lead to the current position; as long as a validator has not
 failed, its path stack spells that list, escaped, below its base path.
 */
module JsonValidatorPath {
  import opened Bytes
  import opened Optional
  import opened Sequences
  import opened Decimal
  import opened JsonTypes
  import opened JsonSchema
  import opened JsonValidator
  import opened JsonValidatorProof

  /**
   An open container: an array and the index of its next element, or an object and the name of the member whose
   value is due or open.
   */
  datatype Place = InArray(next: nat) | InObject(name: Option<Text>)

  /** Before the root value, in it, and behind it. */
  datatype Position = Before | Inside(places: seq<Place>) | Behind

  /** The container around a value that is complete. */
  function Advance(p: Place): Place {
    match p
    case InArray(_) => p
    case InObject(_) => InObject(None)
  }

  /** A value is complete in the innermost of `places`. */
  function Completed(places: seq<Place>): Position {
    if places == [] then Behind
    else Inside(places[..|places| - 1] + [Advance(places[|places| - 1])])
  }

  /** May a value begin? An array counts it at once. */
  function Begun(places: seq<Place>): Option<seq<Place>> {
    if places == [] then Some([])
    else
      var top := places[|places| - 1];
      match top
      case InArray(next) => if next + 1 < SIZE_TYPE then Some(places[..|places| - 1] + [InArray(next + 1)]) else None
      case InObject(name) => if name.Some? then Some(places) else None
  }

  /** One event; None when no tree has such events. */
  function Move(at: Position, e: Event): Option<Position> {
    if at.Behind? then None
    else
      var places := if at.Before? then [] else at.places;
      if BeginsValue(e) then
        if at.Inside? && places == [] then None else
        var begun := Begun(places);
        if begun.None? then None
        else if e.StartObject? then Some(Inside(begun.value + [InObject(None)]))
        else if e.StartArray? then Some(Inside(begun.value + [InArray(0)]))
        else Some(Completed(begun.value))
      else if places == [] then None
      else
        var n := |places| - 1;
        match e
        case Key(name) =>
          if places[n] == InObject(None) then Some(Inside(places[..n] + [InObject(Some(name))])) else None
        case EndObject(_) => if places[n] == InObject(None) then Some(Completed(places[..n])) else None
        case EndArray(_) => if places[n].InArray? then Some(Completed(places[..n])) else None
        case _ => None
  }

  function Locate(es: seq<Event>): Option<Position> {
    if es == [] then Some(Before)
    else
      var before := Locate(es[..|es| - 1]);
      if before.None? then None else Move(before.value, es[|es| - 1])
  }

  /** The name or index of the value open in a container. */
  function NameOf(p: Place): Option<Text> {
    match p
    case InArray(next) => if next > 0 then Some(Digits(next - 1)) else None
    case InObject(name) => name
  }

  /** The raw path through containers in each of which a value is open or due. */
  function RawPath(places: seq<Place>): seq<Text> {
    if places == [] then []
    else
      var n := |places| - 1;
      RawPath(places[..n]) + if NameOf(places[n]).Some? then [NameOf(places[n]).value] else []
  }

  /** The raw path to the current position: between its elements an array is the position itself. */
  function Here(places: seq<Place>): seq<Text> {
    if places != [] && places[|places| - 1].InArray? then RawPath(places[..|places| - 1]) else RawPath(places)
  }

  /** Escaped tokens, each behind a slash: the string representation of a JSON Pointer (section 5 of RFC 6901). */
  function Spell(names: seq<Text>): Text {
    if names == [] then [] else Spell(names[..|names| - 1]) + KeyToken(names[|names| - 1])
  }

  lemma {:induction false} SpellMore(names: seq<Text>, name: Text)
    ensures Spell(names + [name]) == Spell(names) + KeyToken(name)
  {
    assert (names + [name])[..|names|] == names;
  }

  lemma {:induction false} DigitsNeedNoEscape(w: Text)
    requires AllDigits(w)
    ensures EscapeToken(w) == w
  {
    if w != [] {
      DigitsNeedNoEscape(w[1..]);
    }
  }

  lemma {:induction false} IndexIsKey(index: nat)
    ensures IndexToken(index) == KeyToken(Digits(index))
  {
    DigitsNeedNoEscape(Digits(index));
  }

  /** A context and the place of the machine that belongs to it. */
  predicate Matches(ctx: Context, p: Place) {
    match p
    case InArray(next) => ctx.inArray && ctx.arrayElementIndex == next < SIZE_TYPE
    case InObject(_) => !ctx.inArray
  }

  /** In every container but the innermost, a value is open. */
  predicate Tracks(w: Validator, places: seq<Place>, basePath: Text) {
    && |w.stack| == |places|
    && (forall k | 0 <= k < |places| :: Matches(w.stack[k], places[k]))
    && (forall k | 0 <= k < |places| - 1 :: NameOf(places[k]).Some?)
    && w.path == basePath + Spell(Here(places))
  }

  predicate Follows(w: Validator, at: Position, basePath: Text) {
    match at
    case Before => w.stack == [] && w.path == basePath
    case Inside(places) => places != [] && Tracks(w, places, basePath)
    case Behind => w.stack == [] && w.path == PopToken(basePath)
  }

  // Pieces of a step

  /** Popping the innermost name. */
  lemma {:induction false} PopName(basePath: Text, names: seq<Text>, name: Text)
    ensures PopToken(basePath + Spell(names + [name])) == basePath + Spell(names)
  {
    hide PopToken, Spell;
    SpellMore(names, name);
    assert basePath + (Spell(names) + KeyToken(name)) == basePath + Spell(names) + KeyToken(name);
    KeyPopsBack(basePath + Spell(names), name);
  }

  lemma {:induction false} RawPathMore(places: seq<Place>, p: Place)
    ensures RawPath(places + [p]) == RawPath(places) + if NameOf(p).Some? then [NameOf(p).value] else []
  {
    assert (places + [p])[..|places|] == places;
  }

  lemma {:induction false} FeedEachKeeps(stack: seq<Context>, e: Event, k: nat)
    requires k < |stack|
    ensures var a, b := FeedEach(stack, e)[k], stack[k];
            a.inArray == b.inArray && a.arrayElementIndex == b.arrayElementIndex
  {
    hide Feed;
  }

  /** The path at which a value begins, when containers `places` around it have taken note of it. */
  predicate BeginsAt(below: seq<Context>, path: Text, places: seq<Place>, basePath: Text) {
    && |below| == |places|
    && (forall k | 0 <= k < |places| :: Matches(below[k], places[k]) && NameOf(places[k]).Some?)
    && path == basePath + Spell(RawPath(places))
  }

  /** A value ends: its token is popped, whatever it holds. */
  lemma ClosesAt(root: Schema, below: seq<Context>, ctx: Context, path: Text, places: seq<Place>, basePath: Text)
    requires BeginsAt(below, path, places, basePath)
    ensures var w := Close(root, below, ctx, path); w.valid ==> Follows(w, Completed(places), basePath)
  {
    hide Combined, Spell, PopToken;
    if places == [] {
      assert Spell(RawPath([])) == [] by { assert RawPath([]) == []; NoNames(); }
      assert basePath + [] == basePath;
    } else {
      var n := |places| - 1;
      var outer, top := places[..n], places[n];
      assert places == outer + [top];
      RawPathMore(outer, top);
      PopName(basePath, RawPath(outer), NameOf(top).value);
      var places1 := outer + [Advance(top)];
      assert places1[..n] == outer;
      RawPathMore(outer, Advance(top));
      assert RawPath(outer) + [] == RawPath(outer);
      assert Here(places1) == RawPath(outer);
    }
  }

  lemma NoNames()
    ensures Spell([]) == []
  {
  }

  /** A value begins. */
  lemma {:induction false} OpensAt(root: Schema, below: seq<Context>, path: Text, c: Schema, e: Event,
                                   places: seq<Place>, basePath: Text)
    requires BeginsValue(e) && BeginsAt(below, path, places, basePath)
    ensures var w := Opened(root, below, path, c, e);
            w.valid ==> Follows(w, if e.StartObject? then Inside(places + [InObject(None)])
                                   else if e.StartArray? then Inside(places + [InArray(0)])
                                   else Completed(places), basePath)
  {
    hide Combined, Spell, PopToken, Parallel, Admits, RawPath;
    if Admits(c, e) {
      var exist := if e.StartObject? && HasRequired(c) then Some(seq(|c.properties|, _ => false)) else None;
      var ctx := Context(c, None, Parallel(c, path, e), 0, exist, e.StartArray?);
      if LeafOf(e).Some? {
        ClosesAt(root, below, ctx, path, places, basePath);
      } else {
        var p := if e.StartObject? then InObject(None) else InArray(0);
        RawPathMore(places, p);
        assert (places + [p])[..|places|] == places;
        assert RawPath(places) + [] == RawPath(places);
        assert Here(places + [p]) == RawPath(places);
      }
    }
  }

  // A step

  /** Feeding the parallel validators does not move the validator. */
  lemma {:induction false} FedFollows(w: Validator, at: Position, basePath: Text, e: Event)
    requires Follows(w, at, basePath)
    ensures Follows(w.(stack := FeedEach(w.stack, e)), at, basePath)
  {
    hide Spell, PopToken, FeedEach;
    forall k | 0 <= k < |w.stack|
      ensures FeedEach(w.stack, e)[k].inArray == w.stack[k].inArray
      ensures FeedEach(w.stack, e)[k].arrayElementIndex == w.stack[k].arrayElementIndex
    {
      FeedEachKeeps(w.stack, e, k);
    }
    if w.stack == [] { assert FeedEach(w.stack, e) == []; }
  }

  /** An index is pushed as a name would be. */
  lemma {:induction false} IndexPushed(outer: seq<Place>, next: nat, basePath: Text)
    ensures basePath + Spell(Here(outer + [InArray(next)])) + IndexToken(next)
         == basePath + Spell(RawPath(outer + [InArray(next + 1)]))
  {
    hide Spell, RawPath;
    RawPathMore(outer, InArray(next + 1));
    assert (outer + [InArray(next)])[..|outer|] == outer;
    IndexIsKey(next);
    SpellMore(RawPath(outer), Digits(next));
    Regroup(basePath, Spell(RawPath(outer)), IndexToken(next));
  }

  /** A key is pushed. */
  lemma KeyPushed(outer: seq<Place>, name: Text, basePath: Text)
    ensures basePath + Spell(Here(outer + [InObject(None)])) + KeyToken(name)
         == basePath + Spell(Here(outer + [InObject(Some(name))]))
  {
    hide Spell, RawPath;
    RawPathMore(outer, InObject(None));
    RawPathMore(outer, InObject(Some(name)));
    assert RawPath(outer) + [] == RawPath(outer);
    SpellMore(RawPath(outer), name);
    Regroup(basePath, Spell(RawPath(outer)), KeyToken(name));
  }

  /** The event that begins a value. */
  lemma BeginFollows(w: Validator, places: seq<Place>, basePath: Text, e: Event)
    requires places != [] && Tracks(w, places, basePath) && BeginsValue(e) && Begun(places).Some?
    ensures Act(w, e).valid ==> Follows(Act(w, e), Move(Inside(places), e).value, basePath)
  {
    hide Spell, Opened, RawPath, Here, Follows, BeginElement;
    var n := |places| - 1;
    var ctx, begun := w.stack[n], Begun(places).value;
    var path := if ctx.inArray then w.path + IndexToken(ctx.arrayElementIndex) else w.path;
    var next := BeginElement(ctx);
    assert Matches(ctx, places[n]);
    if next.Some? && next.value.valueSchema.Some? {
      BegunPath(places, basePath);
      BelowMatches(w, places, basePath, next.value, begun);
      OpensAt(w.root, w.stack[..n] + [next.value], path, next.value.valueSchema.value, e, begun, basePath);
    }
  }

  lemma BegunPath(places: seq<Place>, basePath: Text)
    requires places != [] && Begun(places).Some?
    ensures var n, begun := |places| - 1, Begun(places).value;
            basePath + Spell(RawPath(begun))
            == if places[n].InArray? then basePath + Spell(Here(places)) + IndexToken(places[n].next)
               else basePath + Spell(Here(places))
  {
    hide Spell, RawPath;
    var n := |places| - 1;
    assert places == places[..n] + [places[n]];
    if places[n].InArray? {
      IndexPushed(places[..n], places[n].next, basePath);
    }
  }

  lemma BelowMatches(w: Validator, places: seq<Place>, basePath: Text, next: Context, begun: seq<Place>)
    requires places != [] && Tracks(w, places, basePath) && Begun(places) == Some(begun)
    requires BeginElement(w.stack[|places| - 1]) == Some(next)
    ensures var below := w.stack[..|places| - 1] + [next];
            |below| == |begun| && forall k | 0 <= k < |begun| :: Matches(below[k], begun[k]) && NameOf(begun[k]).Some?
  {
    hide Spell, ItemSchema;
    var n := |places| - 1;
    assert Matches(w.stack[n], places[n]);
    assert forall k | 0 <= k < n :: begun[k] == places[k];
  }

  /** A member's name. */
  lemma KeyFollows(w: Validator, places: seq<Place>, basePath: Text, name: Text)
    requires places != [] && Tracks(w, places, basePath) && places[|places| - 1] == InObject(None)
    ensures Act(w, Key(name)).valid ==> Follows(Act(w, Key(name)), Move(Inside(places), Key(name)).value, basePath)
  {
    hide Spell, Here, PropertySchema, FindProperty;
    var n := |places| - 1;
    var outer := places[..n];
    var places1 := outer + [InObject(Some(name))];
    assert places == outer + [places[n]];
    assert forall k | 0 <= k < n :: places1[k] == places[k];
    KeyPushed(outer, name, basePath);
    assert Matches(w.stack[n], places[n]);
  }

  /** A closing bracket. */
  lemma EndFollows(w: Validator, places: seq<Place>, basePath: Text, e: Event)
    requires places != [] && Tracks(w, places, basePath) && (e.EndObject? || e.EndArray?)
             && Move(Inside(places), e).Some?
    ensures Act(w, e).valid ==> Follows(Act(w, e), Move(Inside(places), e).value, basePath)
  {
    hide Spell, PopToken, RawPath, Combined, Close;
    var n := |places| - 1;
    var outer, top := places[..n], places[n];
    assert places == outer + [top];
    RawPathMore(outer, top);
    assert RawPath(outer) + [] == RawPath(outer);
    assert BeginsAt(w.stack[..n], w.path, outer, basePath);
    ClosesAt(w.root, w.stack[..n], w.stack[n], w.path, outer, basePath);
    ClosesAt(w.root, w.stack[..n], w.stack[n].(inArray := false), w.path, outer, basePath);
  }

  lemma {:induction false} Step(w: Validator, at: Position, basePath: Text, e: Event)
    requires w.valid && Follows(w, at, basePath) && Move(at, e).Some?
    ensures Feed(w, e).valid ==> Follows(Feed(w, e), Move(at, e).value, basePath)
  {
    hide Spell, PopToken, FeedEach, Opened, Act, Tracks, RawPath;
    FedFollows(w, at, basePath, e);
    var w1 := w.(stack := FeedEach(w.stack, e));
    if at.Before? {
      RootFollows(w1, basePath, e);
    } else if BeginsValue(e) {
      BeginFollows(w1, at.places, basePath, e);
    } else if e.Key? {
      KeyFollows(w1, at.places, basePath, e.str);
    } else {
      EndFollows(w1, at.places, basePath, e);
    }
  }

  lemma RootFollows(w: Validator, basePath: Text, e: Event)
    requires w.stack == [] && w.path == basePath && Move(Before, e).Some?
    ensures Act(w, e).valid ==> Follows(Act(w, e), Move(Before, e).value, basePath)
  {
    hide Spell, PopToken, Opened;
    NoNames();
    assert basePath + [] == basePath;
    assert [] + [InObject(None)] == [InObject(None)] && [] + [InArray(0)] == [InArray(0)];
    OpensAt(w.root, [], w.path, w.root, e, [], basePath);
  }

  /**
   The theorem: after any events of a tree or of a beginning of one, a validator that has not failed holds the
   path of the position the events lead to, escaped, below its base path; behind the root, the base path
   without its last token.
   */
  lemma {:induction false} PathSpellsPosition(root: Schema, basePath: Text, es: seq<Event>)
    requires Locate(es).Some? && FeedAll(Fresh(root, basePath), es).valid
    ensures Follows(FeedAll(Fresh(root, basePath), es), Locate(es).value, basePath)
    decreases |es|
  {
    if es != [] {
      hide Follows, Move, Feed, FeedAll;
      var n := |es| - 1;
      assert es == es[..n] + [es[n]];
      FeedAllAppend(Fresh(root, basePath), es[..n], [es[n]]);
      var w := FeedAll(Fresh(root, basePath), es[..n]);
      OneEvent(w, es[n]);
      if !w.valid { InvalidFed(w, es[n]); }
      PathSpellsPosition(root, basePath, es[..n]);
      Step(w, Locate(es[..n]).value, basePath, es[n]);
    }
  }

  lemma {:induction false} InvalidFed(w: Validator, e: Event)
    requires !w.valid
    ensures !Feed(w, e).valid
  {
  }
}
