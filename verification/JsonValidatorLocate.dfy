/**
 The position machine of JsonValidatorPath accepts the events of every tree, so what is proved about its
 runs holds after every event of every tree.
 */
module JsonValidatorLocate {
  import opened Bytes
  import opened Optional
  import opened Sequences
  import opened JsonTypes
  import opened JsonValue
  import opened JsonSchema
  import opened JsonValidator
  import opened JsonValidatorPath

  lemma {:induction false} LocateStep(out: seq<Event>, e: Event)
    requires Locate(out).Some?
    ensures Locate(out + [e]) == Move(Locate(out).value, e)
  {
    hide Move;
    assert (out + [e])[..|out|] == out;
  }

  /** The containers around a value that begins at `at`. */
  function Around(at: Position): Option<seq<Place>> {
    match at
    case Before => Some([])
    case Inside(places) => if places == [] then None else Begun(places)
    case Behind => None
  }

  /** The events of a tree lead from where a value may begin to where it is complete. */
  lemma {:induction false} EventsLocated(v: Value, source: Source, out: seq<Event>, places: seq<Place>)
    requires Sized(v) && Locate(out).Some? && Around(Locate(out).value) == Some(places)
    ensures Locate(out + Events(v, source)) == Some(Completed(places))
    decreases v
  {
    hide Locate, Move, Completed, ElementEvents, MemberEvents;
    Begins(Locate(out).value, places);
    if v.ArrayValue? {
      LocateStep(out, StartArray);
      ElementsLocated(v.elements, 0, source, out + [StartArray], places);
      var ev, end := ElementEvents(v.elements, 0, source), EndArray(|v.elements|);
      LocateStep(out + [StartArray] + ev, end);
      Ends(places, |v.elements|, end);
      Regroup4(out, [StartArray], ev, [end]);
    } else if v.ObjectValue? {
      LocateStep(out, StartObject);
      MembersLocated(v.members, 0, source, out + [StartObject], places);
      var ev, end := MemberEvents(v.members, 0, source), EndObject(|v.members|);
      LocateStep(out + [StartObject] + ev, end);
      Ends(places, 0, end);
      Regroup4(out, [StartObject], ev, [end]);
    } else {
      LeafBegins(v, source);
      var e := Events(v, source)[0];
      assert Events(v, source) == [e];
      LocateStep(out, e);
    }
  }

  lemma {:induction false} LeafBegins(v: Value, source: Source)
    requires Sized(v) && !v.ArrayValue? && !v.ObjectValue?
    ensures |Events(v, source)| == 1 && LeafOf(Events(v, source)[0]).Some?
  {
  }

  lemma Begins(at: Position, places: seq<Place>)
    requires Around(at) == Some(places)
    ensures Move(at, StartArray) == Some(Inside(places + [InArray(0)]))
    ensures Move(at, StartObject) == Some(Inside(places + [InObject(None)]))
    ensures forall e: Event | LeafOf(e).Some? :: Move(at, e) == Some(Completed(places))
  {
  }

  lemma Ends(places: seq<Place>, n: nat, e: Event)
    ensures e.EndArray? ==> Move(Inside(places + [InArray(n)]), e) == Some(Completed(places))
    ensures e.EndObject? ==> Move(Inside(places + [InObject(None)]), e) == Some(Completed(places))
  {
    assert (places + [InArray(n)])[..|places|] == places;
    assert (places + [InObject(None)])[..|places|] == places;
  }

  /** Between the elements of an array. */
  lemma ElementAround(places: seq<Place>, k: nat)
    requires k + 1 < SIZE_TYPE
    ensures Around(Inside(places + [InArray(k)])) == Some(places + [InArray(k + 1)])
    ensures Completed(places + [InArray(k + 1)]) == Inside(places + [InArray(k + 1)])
  {
    assert (places + [InArray(k)])[..|places|] == places;
    assert (places + [InArray(k + 1)])[..|places|] == places;
  }

  /** Around the value of a member. */
  lemma MemberAround(places: seq<Place>, name: Text)
    ensures Move(Inside(places + [InObject(None)]), Key(name)) == Some(Inside(places + [InObject(Some(name))]))
    ensures Around(Inside(places + [InObject(Some(name))])) == Some(places + [InObject(Some(name))])
    ensures Completed(places + [InObject(Some(name))]) == Inside(places + [InObject(None)])
  {
    assert (places + [InObject(None)])[..|places|] == places;
    assert (places + [InObject(Some(name))])[..|places|] == places;
  }

  lemma {:induction false} ElementsLocated(elements: seq<Value>, k: nat, source: Source, out: seq<Event>,
                                           places: seq<Place>)
    requires k <= |elements| < SIZE_TYPE && forall e <- elements :: Sized(e)
    requires Locate(out) == Some(Inside(places + [InArray(k)]))
    ensures Locate(out + ElementEvents(elements, k, source)) == Some(Inside(places + [InArray(|elements|)]))
    decreases elements, |elements| - k
  {
    hide Locate, Events, Completed, Around, Move;
    if k == |elements| {
      assert out + [] == out;
    } else {
      hide ElementEvents;
      var ev, rest := Events(elements[k], source), ElementEvents(elements, k + 1, source);
      ElementEventsStep(elements, k, source);
      ElementAround(places, k);
      var inner := places + [InArray(k + 1)];
      EventsLocated(elements[k], source, out, inner);
      ElementsLocated(elements, k + 1, source, out + ev, places);
      Regroup(out, ev, rest);
    }
  }

  lemma {:induction false} MembersLocated(members: seq<Member>, k: nat, source: Source, out: seq<Event>,
                                          places: seq<Place>)
    requires k <= |members| && forall m <- members :: Sized(m.value)
    requires Locate(out) == Some(Inside(places + [InObject(None)]))
    ensures Locate(out + MemberEvents(members, k, source)) == Some(Inside(places + [InObject(None)]))
    decreases members, |members| - k
  {
    if k == |members| {
      assert out + [] == out;
    } else {
      hide Locate, Events, MemberEvents, Completed, Around, Move;
      var m := members[k];
      var ev, rest := Events(m.value, source), MemberEvents(members, k + 1, source);
      MemberEventsStep(members, k, source);
      MemberAround(places, m.name);
      LocateStep(out, Key(m.name));
      EventsLocated(m.value, source, out + [Key(m.name)], places + [InObject(Some(m.name))]);
      MembersLocated(members, k + 1, source, out + [Key(m.name)] + ev, places);
      Regroup4(out, [Key(m.name)], ev, rest);
    }
  }

  /** After every event of every tree there is a position. */
  lemma {:induction false} EveryPrefixLocated(v: Value, source: Source, k: nat)
    requires Sized(v) && k <= |Events(v, source)|
    ensures Locate(Events(v, source)[..k]).Some?
  {
    hide Locate, Events, Completed;
    var es := Events(v, source);
    assert Locate([]) == Some(Before) by { NoEvents(); }
    EventsLocated(v, source, [], []);
    assert [] + es == es;
    PrefixLocated(es, k);
  }

  lemma NoEvents()
    ensures Locate([]) == Some(Before)
  {
  }

  lemma {:induction false} PrefixLocated(es: seq<Event>, k: nat)
    requires k <= |es| && Locate(es).Some?
    ensures Locate(es[..k]).Some?
    decreases |es| - k
  {
    hide Move;
    if k == |es| {
      assert es[..k] == es;
    } else {
      PrefixLocated(es, k + 1);
      assert es[..k + 1][..k] == es[..k];
    }
  }
}
