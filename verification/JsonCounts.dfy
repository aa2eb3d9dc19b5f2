/**
 The entries of the containers among the events, counted without wrapping, against the counts the events carry:
 a container of 2^32 entries and more is ended with a count that is too small.
 */
module JsonCounts {
  import opened Bytes
  import opened JsonTypes
  import opened JsonLexical
  import opened JsonNumber
  import opened JsonGrammar

  predicate IsEnd(e: Event) {
    e.EndObject? || e.EndArray?
  }

  /** An event that makes a value by itself. */
  predicate IsScalar(e: Event) {
    !IsEnd(e) && !e.StartObject? && !e.StartArray? && !e.Key?
  }

  /** One entry more at the innermost level. */
  function Bump(open: seq<nat>): seq<nat>
    requires open != []
  {
    open[..|open| - 1] + [open[|open| - 1] + 1]
  }

  function After(open: seq<nat>, e: Event): (next: seq<nat>)
    requires open != []
    ensures next != []
  {
    if e.StartObject? || e.StartArray? then open + [0]
    else if e.Key? then open
    else if IsScalar(e) then Bump(open)
    else if |open| == 1 then open
    else Bump(open[..|open| - 1])
  }

  /** The complete entries of the text, and those of every open container in it, the innermost last. */
  function Entries(out: seq<Event>): (open: seq<nat>)
    ensures open != []
  {
    if out == [] then [0] else After(Entries(out[..|out| - 1]), out[|out| - 1])
  }

  /** Every container that has ended has fewer than 2^32 entries. */
  predicate Fits(out: seq<Event>) {
    out == []
    || var n := |out| - 1;
       var open := Entries(out[..n]);
       Fits(out[..n]) && (IsEnd(out[n]) ==> open[|open| - 1] < SIZE_TYPE)
  }

  /** By how much an event makes the document's stack grow. */
  function Growth(e: Event): int {
    match e
    case EndObject(memberCount) => 0 - 2 * memberCount
    case EndArray(elementCount) => 0 - elementCount
    case _ => 1
  }

  /** The number of values on the document's stack. */
  function Depth(out: seq<Event>): int {
    if out == [] then 0 else Depth(out[..|out| - 1]) + Growth(out[|out| - 1])
  }

  lemma {:induction false} OneMore(out: seq<Event>, e: Event)
    ensures Entries(out + [e]) == After(Entries(out), e) && Depth(out + [e]) == Depth(out) + Growth(e)
    ensures var open := Entries(out);
            Fits(out + [e]) <==> Fits(out) && (IsEnd(e) ==> open[|open| - 1] < SIZE_TYPE)
  {
    assert (out + [e])[..|out|] == out;
  }

  /** What fits has prefixes that fit. */
  lemma {:induction false} PrefixFits(a: seq<Event>, b: seq<Event>)
    requires a <= b && Fits(b)
    ensures Fits(a)
  {
    if |a| < |b| {
      PrefixFits(a, b[..|b| - 1]);
    } else {
      assert a == b;
    }
  }

  /**
   The piece of text read since `out` completes an entry of `open`. The stack is then at `depth`, or above it:
   exactly at it if every container fits, as in all texts under 2^32 bytes.
   */
  ghost predicate Counts(s: Text, r: Outcome, out: seq<Event>, open: seq<nat>, depth: int)
    requires open != []
  {
    && out <= r.out
    && (|s| < SIZE_TYPE && Fits(out) ==> Fits(r.out))
    && (r.Ok? ==> Entries(r.out) == Bump(open) && Depth(r.out) >= depth
                  && (Fits(r.out) <==> Fits(out) && Depth(r.out) == depth))
  }

  /** A scalar sends one event, or fails before it sends any. */
  predicate SendsOne(r: Outcome, out: seq<Event>) {
    || (r.Err? && r.out == out)
    || (|r.out| == |out| + 1 && r.out == out + [r.out[|out|]] && IsScalar(r.out[|out|]))
  }

  lemma NumberSendsOne(o: Options, s: Text, p: nat, out: seq<Event>)
    requires p <= |s|
    ensures SendsOne(ParseNumber(o, s, p, out), out)
  {
    hide ScanInteger, ScanSuffix, SignificantDigits;
  }

  lemma ScalarSendsOne(o: Options, s: Text, p: nat, out: seq<Event>)
    requires p <= |s|
    ensures SendsOne(ParseScalar(o, s, p, out), out)
  {
    hide ParseNumber, ScanString, MatchLength;
    NumberSendsOne(o, s, p, out);
  }

  /** The event that ends a container of `n` entries. */
  lemma {:induction false} Closes(s: Text, out: seq<Event>, open: seq<nat>, n: nat, e: Event)
    requires open != [] && Entries(out) == open + [n]
    requires e == EndObject(n % SIZE_TYPE) || e == EndArray(n % SIZE_TYPE)
    ensures Entries(out + [e]) == Bump(open) && (Fits(out + [e]) <==> Fits(out) && n < SIZE_TYPE)
    ensures Depth(out + [e]) == Depth(out) - (if e.EndObject? then 2 else 1) * (n % SIZE_TYPE)
  {
    hide Entries, Fits, Depth;
    OneMore(out, e);
    assert (open + [n])[..|open|] == open;
  }

  lemma {:induction false} Opens(out: seq<Event>, e: Event)
    requires e.StartObject? || e.StartArray?
    ensures Entries(out + [e]) == Entries(out) + [0] && Depth(out + [e]) == Depth(out) + 1
    ensures Fits(out + [e]) <==> Fits(out)
  {
    hide Entries, Fits, Depth;
    OneMore(out, e);
  }

  lemma {:induction false} ValueCounts(o: Options, s: Text, p: nat, out: seq<Event>)
    requires p <= |s|
    ensures Counts(s, ParseValue(o, s, p, out), out, Entries(out), Depth(out) + 1)
    decreases |s| - p, 2
  {
    hide ParseScalar, Entries, Fits, Depth;
    var c := Peek(s, p);
    if c == LEFT_BRACE {
      ObjectCounts(o, s, p, out);
    } else if c == LEFT_BRACKET {
      ArrayCounts(o, s, p, out);
    } else {
      var r := ParseScalar(o, s, p, out);
      ScalarSendsOne(o, s, p, out);
      if r.out != out {
        OneMore(out, r.out[|out|]);
      }
    }
  }

  lemma {:induction false} ObjectCounts(o: Options, s: Text, p: nat, out: seq<Event>)
    requires p <= |s| && Peek(s, p) == LEFT_BRACE
    ensures Counts(s, ParseObject(o, s, p, out), out, Entries(out), Depth(out) + 1)
    decreases |s| - p, 1
  {
    hide Skip, Entries, Fits, Depth;
    Opens(out, StartObject);
    var out1 := out + [StartObject];
    Closes(s, out1, Entries(out), 0, EndObject(0));
    var r2 := Skip(o, s, p + 1, out1);
    if r2.Ok? && Peek(s, r2.pos) != RIGHT_BRACE {
      MembersCount(o, s, r2.pos, out1, Entries(out), 0);
    }
  }

  lemma {:induction false} MembersCount(o: Options, s: Text, p: nat, out: seq<Event>, open: seq<nat>, k: nat)
    requires k <= p <= |s| && open != [] && Entries(out) == open + [k]
    ensures Counts(s, ParseMembers(o, s, p, out, k % SIZE_TYPE), out, open, Depth(out) - 2 * k)
    decreases |s| - p, 0
  {
    hide Skip, ScanString, Entries, Fits, Depth;
    if Peek(s, p) == QUOTE && ScanString(o, s, p + 1, []).Scanned? {
      var r1 := ParseString(o, s, p, true, out);
      OneMore(out, Key(ScanString(o, s, p + 1, []).str));
      if r1.Ok? {
        var r2 := Skip(o, s, r1.pos, r1.out);
        if r2.Ok? && Peek(s, r2.pos) == COLON {
          var r3 := Skip(o, s, r2.pos + 1, r1.out);
          if r3.Ok? {
            MemberValueCounts(o, s, r3.pos, r1.out, open, k);
          }
        }
      }
    }
  }

  lemma {:induction false} MemberValueCounts(o: Options, s: Text, p: nat, out: seq<Event>, open: seq<nat>, k: nat)
    requires k < p <= |s| && open != [] && Entries(out) == open + [k]
    ensures Counts(s, ParseMemberValue(o, s, p, out, k % SIZE_TYPE), out, open, Depth(out) - 1 - 2 * k)
    decreases |s| - p, 3
  {
    hide ParseValue, Skip, Entries, Fits, Depth, Bump, Increment;
    ValueCounts(o, s, p, out);
    var r1 := ParseValue(o, s, p, out);
    if r1.Ok? {
      NextEntry(open, k);
      Closes(s, r1.out, open, k + 1, EndObject((k + 1) % SIZE_TYPE));
      var r2 := Skip(o, s, r1.pos, r1.out);
      if r2.Ok? && Peek(s, r2.pos) == COMMA {
        var r3 := Skip(o, s, r2.pos + 1, r1.out);
        if r3.Ok? && !(o.trailingCommas && Peek(s, r3.pos) == RIGHT_BRACE) {
          MembersCount(o, s, r3.pos, r1.out, open, k + 1);
        }
      }
    }
  }

  lemma NextEntry(open: seq<nat>, k: nat)
    ensures Bump(open + [k]) == open + [k + 1] && Increment(k % SIZE_TYPE) == (k + 1) % SIZE_TYPE
  {
  }

  lemma {:induction false} ArrayCounts(o: Options, s: Text, p: nat, out: seq<Event>)
    requires p <= |s| && Peek(s, p) == LEFT_BRACKET
    ensures Counts(s, ParseArray(o, s, p, out), out, Entries(out), Depth(out) + 1)
    decreases |s| - p, 1
  {
    hide Skip, Entries, Fits, Depth;
    Opens(out, StartArray);
    var out1 := out + [StartArray];
    Closes(s, out1, Entries(out), 0, EndArray(0));
    var r2 := Skip(o, s, p + 1, out1);
    if r2.Ok? && Peek(s, r2.pos) != RIGHT_BRACKET {
      ElementsCount(o, s, r2.pos, out1, Entries(out), 0);
    }
  }

  lemma {:induction false} ElementsCount(o: Options, s: Text, p: nat, out: seq<Event>, open: seq<nat>, k: nat)
    requires k <= p <= |s| && open != [] && Entries(out) == open + [k]
    ensures Counts(s, ParseElements(o, s, p, out, k % SIZE_TYPE), out, open, Depth(out) - k)
    decreases |s| - p, 3
  {
    hide ParseValue, Skip, Entries, Fits, Depth, Bump, Increment;
    ValueCounts(o, s, p, out);
    var r1 := ParseValue(o, s, p, out);
    if r1.Ok? {
      NextEntry(open, k);
      Closes(s, r1.out, open, k + 1, EndArray((k + 1) % SIZE_TYPE));
      var r2 := Skip(o, s, r1.pos, r1.out);
      if r2.Ok? && Peek(s, r2.pos) == COMMA {
        var r3 := Skip(o, s, r2.pos + 1, r1.out);
        if r3.Ok? && !(o.trailingCommas && Peek(s, r3.pos) == RIGHT_BRACKET) {
          ElementsCount(o, s, r3.pos, r1.out, open, k + 1);
        }
      }
    }
  }
}
