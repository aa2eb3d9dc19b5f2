/**
 Texts of a tree with white space between the tokens: what it means that a stretch of text spells a tree, and a
 printer that puts any text it is given into each gap.
 */
module JsonSpelling {
  import opened Bytes
  import opened Optional
  import opened Sequences
  import opened JsonValue
  import opened JsonPrint
  import Writer = JsonWriter

  /** White space, section 2 of RFC 8259: space, horizontal tab, line feed and carriage return. */
  predicate IsBlank(c: byte) {
    c in {0x20, 0x09, 0x0A, 0x0D}
  }

  predicate AllBlank(w: Text) {
    forall c <- w :: IsBlank(c)
  }

  predicate Blank(s: Text, p: nat, q: nat) {
    p <= q <= |s| && AllBlank(s[p..q])
  }

  predicate Token(s: Text, p: nat, q: nat, w: Text) {
    q == p + |w| && At(s, p, w)
  }

  /** The text from `p` to `q` spells the value. */
  ghost predicate Spells(w: Writer.Style, v: Value, s: Text, p: nat, q: nat)
    requires Printable(w, v)
    decreases v, 0
  {
    match v
    case ArrayValue(elements) => Token(s, p, p + 1, [LEFT_BRACKET]) && SpellsElements(w, elements, 0, s, p + 1, q)
    case ObjectValue(members) => Token(s, p, p + 1, [LEFT_BRACE]) && SpellsMembers(w, members, 0, s, p + 1, q)
    case _ => Token(s, p, q, TextOf(w, v))
  }

  /** From a place in front of element `k`, or of the closing bracket of an empty array, to behind that bracket. */
  ghost predicate SpellsElements(w: Writer.Style, elements: seq<Value>, k: nat, s: Text, p: nat, q: nat)
    requires k <= |elements| && forall e <- elements :: Printable(w, e)
    decreases elements, |elements| - k
  {
    if k == |elements| then exists c: nat :: Blank(s, p, c) && Token(s, c, q, [RIGHT_BRACKET])
    else exists a: nat, b: nat, c: nat ::
        && Blank(s, p, a) && Spells(w, elements[k], s, a, b) && Blank(s, b, c)
        && if k + 1 == |elements| then Token(s, c, q, [RIGHT_BRACKET])
           else Token(s, c, c + 1, [COMMA]) && SpellsElements(w, elements, k + 1, s, c + 1, q)
  }

  ghost predicate SpellsMembers(w: Writer.Style, members: seq<Member>, k: nat, s: Text, p: nat, q: nat)
    requires k <= |members| && forall m <- members :: Writer.StringText(w, m.name).Some? && Printable(w, m.value)
    decreases members, |members| - k
  {
    if k == |members| then exists c: nat :: Blank(s, p, c) && Token(s, c, q, [RIGHT_BRACE])
    else exists a: nat, b: nat, c: nat ::
        && Blank(s, p, a) && SpellsMember(w, members[k], s, a, b) && Blank(s, b, c)
        && if k + 1 == |members| then Token(s, c, q, [RIGHT_BRACE])
           else Token(s, c, c + 1, [COMMA]) && SpellsMembers(w, members, k + 1, s, c + 1, q)
  }

  /** Name, colon and value. */
  ghost predicate SpellsMember(w: Writer.Style, m: Member, s: Text, p: nat, q: nat)
    requires Writer.StringText(w, m.name).Some? && Printable(w, m.value)
    decreases m, 1
  {
    exists a: nat, b: nat, c: nat ::
      && Token(s, p, a, Writer.StringText(w, m.name).value)
      && Blank(s, a, b) && Token(s, b, b + 1, [COLON]) && Blank(s, b + 1, c)
      && Spells(w, m.value, s, c, q)
  }

  // A printer with gaps

  /** What is put into the gaps of the container at a position of the tree: a text for each number. */
  type Gaps = (seq<nat>, nat) -> Text

  ghost predicate AllGapsBlank(g: Gaps) {
    forall path: seq<nat>, i: nat :: AllBlank(g(path, i))
  }

  /** Every gap of every container of the tree is filled with the text `g` has for it. */
  function SpacedText(w: Writer.Style, g: Gaps, path: seq<nat>, v: Value): Text
    requires Printable(w, v)
    decreases v, 0
  {
    match v
    case ArrayValue(elements) => [LEFT_BRACKET] + SpacedElements(w, g, path, elements, 0)
    case ObjectValue(members) => [LEFT_BRACE] + SpacedMembers(w, g, path, members, 0)
    case _ => TextOf(w, v)
  }

  /** The elements from `k` on, with their gaps and commas, and the bracket. */
  function SpacedElements(w: Writer.Style, g: Gaps, path: seq<nat>, elements: seq<Value>, k: nat): Text
    requires k <= |elements| && forall e <- elements :: Printable(w, e)
    decreases elements, |elements| - k
  {
    if k == |elements| then g(path, 0) + [RIGHT_BRACKET]
    else
      var rest := if k + 1 == |elements| then [RIGHT_BRACKET]
        else [COMMA] + SpacedElements(w, g, path, elements, k + 1);
      g(path, 2 * k) + (SpacedText(w, g, path + [k], elements[k]) + (g(path, 2 * k + 1) + rest))
  }

  function SpacedMembers(w: Writer.Style, g: Gaps, path: seq<nat>, members: seq<Member>, k: nat): Text
    requires k <= |members| && forall m <- members :: Writer.StringText(w, m.name).Some? && Printable(w, m.value)
    decreases members, |members| - k
  {
    if k == |members| then g(path, 0) + [RIGHT_BRACE]
    else
      var rest := if k + 1 == |members| then [RIGHT_BRACE] else [COMMA] + SpacedMembers(w, g, path, members, k + 1);
      g(path, 4 * k) + (SpacedMember(w, g, path, members[k], k) + (g(path, 4 * k + 3) + rest))
  }

  function SpacedMember(w: Writer.Style, g: Gaps, path: seq<nat>, m: Member, k: nat): Text
    requires Writer.StringText(w, m.name).Some? && Printable(w, m.value)
    decreases m, 1
  {
    Writer.StringText(w, m.name).value
    + (g(path, 4 * k + 1) + ([COLON] + (g(path, 4 * k + 2) + SpacedText(w, g, path + [k], m.value))))
  }

  // What the printer puts spells the tree

  lemma GapStands(s: Text, p: nat, gap: Text)
    requires At(s, p, gap) && AllBlank(gap)
    ensures Blank(s, p, p + |gap|)
  {
  }

  lemma {:induction false} PrintedSpells(w: Writer.Style, g: Gaps, path: seq<nat>, v: Value, s: Text, p: nat)
    requires Printable(w, v) && AllGapsBlank(g) && At(s, p, SpacedText(w, g, path, v))
    ensures Spells(w, v, s, p, p + |SpacedText(w, g, path, v)|)
    decreases v, 0
  {
    hide SpacedElements, SpacedMembers, SpellsElements, SpellsMembers, At;
    match v
    case ArrayValue(elements) =>
      AtConcat(s, p, [LEFT_BRACKET], SpacedElements(w, g, path, elements, 0));
      PrintedElements(w, g, path, elements, 0, s, p + 1);
    case ObjectValue(members) =>
      AtConcat(s, p, [LEFT_BRACE], SpacedMembers(w, g, path, members, 0));
      PrintedMembers(w, g, path, members, 0, s, p + 1);
    case _ =>
  }

  lemma {:induction false} PrintedElements(w: Writer.Style, g: Gaps, path: seq<nat>, elements: seq<Value>, k: nat,
                                           s: Text,
                                           p: nat)
    requires k <= |elements| && (forall e <- elements :: Printable(w, e)) && AllGapsBlank(g)
    requires At(s, p, SpacedElements(w, g, path, elements, k))
    ensures SpellsElements(w, elements, k, s, p, p + |SpacedElements(w, g, path, elements, k)|)
    decreases elements, |elements| - k
  {
    hide Spells, SpacedText, At, Blank, AllBlank;
    if k == |elements| {
      AtConcat(s, p, g(path, 0), [RIGHT_BRACKET]);
      GapStands(s, p, g(path, 0));
    } else {
      var last := k + 1 == |elements|;
      var rest := if last then [RIGHT_BRACKET] else [COMMA] + SpacedElements(w, g, path, elements, k + 1);
      var g1, t, g2 := g(path, 2 * k), SpacedText(w, g, path + [k], elements[k]), g(path, 2 * k + 1);
      var a, b, c := p + |g1|, p + |g1| + |t|, p + |g1| + |t| + |g2|;
      AtConcat(s, p, g1, t + (g2 + rest));
      AtConcat(s, a, t, g2 + rest);
      AtConcat(s, b, g2, rest);
      GapStands(s, p, g1);
      GapStands(s, b, g2);
      PrintedSpells(w, g, path + [k], elements[k], s, a);
      assert Blank(s, p, a) && Spells(w, elements[k], s, a, b) && Blank(s, b, c);
      if !last {
        AtConcat(s, c, [COMMA], SpacedElements(w, g, path, elements, k + 1));
        PrintedElements(w, g, path, elements, k + 1, s, c + 1);
      }
    }
  }

  lemma {:induction false} PrintedMembers(w: Writer.Style, g: Gaps, path: seq<nat>, members: seq<Member>, k: nat,
                                          s: Text,
                                          p: nat)
    requires k <= |members| && AllGapsBlank(g)
    requires forall m <- members :: Writer.StringText(w, m.name).Some? && Printable(w, m.value)
    requires At(s, p, SpacedMembers(w, g, path, members, k))
    ensures SpellsMembers(w, members, k, s, p, p + |SpacedMembers(w, g, path, members, k)|)
    decreases members, |members| - k
  {
    hide Spells, SpacedMember, SpellsMember, Writer.StringText, At, Blank, AllBlank;
    if k == |members| {
      AtConcat(s, p, g(path, 0), [RIGHT_BRACE]);
      GapStands(s, p, g(path, 0));
    } else {
      var last := k + 1 == |members|;
      var rest := if last then [RIGHT_BRACE] else [COMMA] + SpacedMembers(w, g, path, members, k + 1);
      var g1, t, g2 := g(path, 4 * k), SpacedMember(w, g, path, members[k], k), g(path, 4 * k + 3);
      var a, b, c := p + |g1|, p + |g1| + |t|, p + |g1| + |t| + |g2|;
      AtConcat(s, p, g1, t + (g2 + rest));
      AtConcat(s, a, t, g2 + rest);
      AtConcat(s, b, g2, rest);
      GapStands(s, p, g1);
      GapStands(s, b, g2);
      PrintedMember(w, g, path, members[k], k, s, a);
      assert Blank(s, p, a) && SpellsMember(w, members[k], s, a, b) && Blank(s, b, c);
      if !last {
        AtConcat(s, c, [COMMA], SpacedMembers(w, g, path, members, k + 1));
        PrintedMembers(w, g, path, members, k + 1, s, c + 1);
      }
    }
  }

  lemma {:induction false} PrintedMember(w: Writer.Style, g: Gaps, path: seq<nat>, m: Member, k: nat, s: Text, p: nat)
    requires Writer.StringText(w, m.name).Some? && Printable(w, m.value) && AllGapsBlank(g)
    requires At(s, p, SpacedMember(w, g, path, m, k))
    ensures SpellsMember(w, m, s, p, p + |SpacedMember(w, g, path, m, k)|)
    decreases m, 1
  {
    hide Spells, SpacedText, Writer.StringText, At, Blank, AllBlank;
    var name, g1, g2, t := Writer.StringText(w, m.name).value, g(path, 4 * k + 1), g(path, 4 * k + 2),
                           SpacedText(w, g, path + [k], m.value);
    var a, b := p + |name|, p + |name| + |g1|;
    var c := b + 1 + |g2|;
    AtConcat(s, p, name, g1 + ([COLON] + (g2 + t)));
    AtConcat(s, a, g1, [COLON] + (g2 + t));
    AtConcat(s, b, [COLON], g2 + t);
    AtConcat(s, b + 1, g2, t);
    GapStands(s, a, g1);
    GapStands(s, b + 1, g2);
    PrintedSpells(w, g, path + [k], m.value, s, c);
    assert Token(s, p, a, name) && Blank(s, a, b) && Token(s, b, b + 1, [COLON]) && Blank(s, b + 1, c);
  }

  // Without gaps

  const NO_GAPS: Gaps := (_, _) => []

  /** What the writer prints is the text with empty gaps. */
  lemma {:induction false} CompactText(w: Writer.Style, path: seq<nat>, v: Value)
    requires Printable(w, v)
    ensures SpacedText(w, NO_GAPS, path, v) == TextOf(w, v)
    decreases v, 0
  {
    hide SpacedElements, SpacedMembers, ElementsText, MembersText;
    match v
    case ArrayValue(elements) =>
      CompactElements(w, path, elements, 0);
      Enclosed([LEFT_BRACKET], ElementsText(w, elements, 0), [RIGHT_BRACKET]);
    case ObjectValue(members) =>
      CompactMembers(w, path, members, 0);
      Enclosed([LEFT_BRACE], MembersText(w, members, 0), [RIGHT_BRACE]);
    case _ =>
  }

  lemma Enclosed(left: Text, body: Text, right: Text)
    ensures left + ([] + body + right) == left + body + right && [] + (body + right) == body + right
    ensures forall t: Text :: [] + t == t
  {
    forall t: Text ensures [] + t == t { }
  }

  lemma Turn(comma: Text, t: Text, rest: Text)
    ensures comma + ([] + (t + ([] + rest))) == comma + t + rest
  {
    assert [] + rest == rest && [] + (t + rest) == t + rest;
  }

  lemma {:induction false} CompactElements(w: Writer.Style, path: seq<nat>, elements: seq<Value>, k: nat)
    requires k <= |elements| && (forall e <- elements :: Printable(w, e)) && (k == 0 || k < |elements|)
    ensures Comma(k) + SpacedElements(w, NO_GAPS, path, elements, k) == ElementsText(w, elements, k) + [RIGHT_BRACKET]
    decreases elements, |elements| - k
  {
    hide SpacedText, TextOf;
    if k < |elements| {
      var t := TextOf(w, elements[k]);
      CompactText(w, path + [k], elements[k]);
      if k + 1 < |elements| {
        CompactElements(w, path, elements, k + 1);
      } else {
        assert [] + [RIGHT_BRACKET] == [RIGHT_BRACKET];
      }
      hide NO_GAPS;
      var rest := ElementsText(w, elements, k + 1) + [RIGHT_BRACKET];
      Turn(Comma(k), t, rest);
      Regroup(Comma(k) + t, ElementsText(w, elements, k + 1), [RIGHT_BRACKET]);
    } else {
      Enclosed([], [], [RIGHT_BRACKET]);
    }
  }

  lemma MemberTurn(comma: Text, name: Text, colon: Text, t: Text, rest: Text)
    ensures comma + ([] + ((name + ([] + (colon + ([] + t)))) + ([] + rest))) == comma + name + colon + t + rest
  {
    assert [] + rest == rest && [] + t == t && [] + (colon + t) == colon + t;
    assert name + (colon + t) == name + colon + t;
    Turn(comma, name + colon + t, rest);
  }

  lemma {:induction false} CompactMembers(w: Writer.Style, path: seq<nat>, members: seq<Member>, k: nat)
    requires k <= |members| && (k == 0 || k < |members|)
    requires forall m <- members :: Writer.StringText(w, m.name).Some? && Printable(w, m.value)
    ensures Comma(k) + SpacedMembers(w, NO_GAPS, path, members, k) == MembersText(w, members, k) + [RIGHT_BRACE]
    decreases members, |members| - k
  {
    hide SpacedText, TextOf, Writer.StringText;
    if k < |members| {
      var name, t := Writer.StringText(w, members[k].name).value, TextOf(w, members[k].value);
      CompactText(w, path + [k], members[k].value);
      if k + 1 < |members| {
        CompactMembers(w, path, members, k + 1);
      } else {
        assert [] + [RIGHT_BRACE] == [RIGHT_BRACE];
      }
      var rest := MembersText(w, members, k + 1) + [RIGHT_BRACE];
      MemberTurn(Comma(k), name, [COLON], t, rest);
      Regroup(Comma(k) + name + [COLON] + t, MembersText(w, members, k + 1), [RIGHT_BRACE]);
    } else {
      Enclosed([], [], [RIGHT_BRACE]);
    }
  }
}
