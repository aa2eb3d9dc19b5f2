/**
 What a JSON string is, independently of the reader's loop: a sequence of items, each an escape or, in between, a code
 point in UTF-8 if the reader validates, and a single byte if it does not. The reader accepts exactly these, and
 decodes them item by item.
 */
module JsonStringGrammar {
  import opened Bytes
  import opened Sequences
  import opened JsonTypes
  import opened JsonLexical
  import opened Utf8
  import opened Utf8Properties
  import Strings = JsonStrings

  datatype Item =
    | Plain(cp: ScalarValue)
    | Raw(b: byte)
    | Short(letter: byte)
    | Unit(hex: Text)
    | Pair(high: Text, low: Text)

  predicate IsHexText(h: Text) {
    |h| == 4 && IsHexDigit(h[0]) && IsHexDigit(h[1]) && IsHexDigit(h[2]) && IsHexDigit(h[3])
  }

  function UnitValue(h: Text): (v: nat)
    requires IsHexText(h)
    ensures v < 0x1_0000
  {
    ((HexValue(h[0]) * 16 + HexValue(h[1])) * 16 + HexValue(h[2])) * 16 + HexValue(h[3])
  }

  predicate IsHigh(unit: nat) {
    0xD800 <= unit <= 0xDBFF
  }

  predicate IsLow(unit: nat) {
    0xDC00 <= unit <= 0xDFFF
  }

  /** The items of a string that is validated, or is not. */
  predicate IsItem(checked: bool, it: Item) {
    match it
    case Plain(cp) => checked && cp >= 0x20 && cp != 0x22 && cp != 0x5C
    case Raw(b) => !checked && b >= 0x20 && b != 0x22 && b != 0x5C
    case Short(letter) => Unescaped(letter) != NUL
    case Unit(hex) => IsHexText(hex) && !IsHigh(UnitValue(hex))
    case Pair(high, low) => IsHexText(high) && IsHexText(low) && IsHigh(UnitValue(high)) && IsLow(UnitValue(low))
  }

  /** The item's characters. */
  function Spelling(it: Item): Text {
    match it
    case Plain(cp) => Encode(cp)
    case Raw(b) => [b]
    case Short(letter) => [BACKSLASH, letter]
    case Unit(hex) => [BACKSLASH, LOWER_U] + hex
    case Pair(high, low) => [BACKSLASH, LOWER_U] + high + ([BACKSLASH, LOWER_U] + low)
  }

  /** The bytes it stands for. */
  function Meaning(it: Item): Text
    requires IsItem(true, it) || IsItem(false, it)
  {
    match it
    case Plain(cp) => Encode(cp)
    case Raw(b) => [b]
    case Short(letter) => [Unescaped(letter)]
    case Unit(hex) => Encode(UnitValue(hex))
    case Pair(high, low) => Encode((UnitValue(high) - 0xD800) * 0x400 + (UnitValue(low) - 0xDC00) + 0x1_0000)
  }

  predicate AreItems(checked: bool, items: seq<Item>) {
    forall k | 0 <= k < |items| :: IsItem(checked, items[k])
  }

  function SpellAll(items: seq<Item>): Text {
    if items == [] then [] else Spelling(items[0]) + SpellAll(items[1..])
  }

  function MeanAll(items: seq<Item>): Text
    requires AreItems(true, items) || AreItems(false, items)
  {
    if items == [] then [] else Meaning(items[0]) + MeanAll(items[1..])
  }

  // An item is scanned as one character

  lemma HexAt(s: Text, p: nat, h: Text)
    requires |h| == 4 && At(s, p, h)
    ensures IsHex4(s, p) <==> IsHexText(h)
    ensures IsHexText(h) ==> Hex4(s, p) == UnitValue(h)
  {
    AtPeek(s, p, h, 0); AtPeek(s, p, h, 1); AtPeek(s, p, h, 2); AtPeek(s, p, h, 3);
    hide IsHexDigit, HexValue;
    assert AllHex(s, p, 1) <==> IsHexDigit(h[0]);
    assert AllHex(s, p, 2) <==> AllHex(s, p, 1) && IsHexDigit(h[1]);
    assert AllHex(s, p, 3) <==> AllHex(s, p, 2) && IsHexDigit(h[2]);
    if IsHexText(h) {
      assert HexNumber(s, p, 1) == HexValue(h[0]);
      assert HexNumber(s, p, 2) == HexValue(h[0]) * 16 + HexValue(h[1]);
      assert HexNumber(s, p, 3) == (HexValue(h[0]) * 16 + HexValue(h[1])) * 16 + HexValue(h[2]);
    }
  }

  lemma UnicodeAt(s: Text, p: nat, h: Text)
    requires IsHexText(h) && At(s, p, [BACKSLASH, LOWER_U] + h)
    ensures p + 6 <= |s| && s[p] == BACKSLASH && s[p + 1] == LOWER_U && IsHex4(s, p + 2)
            && Hex4(s, p + 2) == UnitValue(h)
  {
    AtConcat(s, p, [BACKSLASH, LOWER_U], h);
    AtPeek(s, p, [BACKSLASH, LOWER_U], 0);
    AtPeek(s, p, [BACKSLASH, LOWER_U], 1);
    HexAt(s, p + 2, h);
  }

  lemma PlainScans(o: Options, s: Text, p: nat, cp: ScalarValue)
    requires o.validateEncoding && IsItem(true, Plain(cp)) && At(s, p, Encode(cp))
    ensures p < |s| && s[p] != QUOTE && s[p] != NUL
    ensures ScanChar(o, s, p) == Scanned(p + |Encode(cp)|, Encode(cp))
  {
    hide Encode, Decode, At;
    DecodeOfEncode(s, p, cp);
    AtPeek(s, p, Encode(cp), 0);
    FirstByte(cp);
    AtWhole(s, p, Encode(cp));
  }

  lemma RawScans(o: Options, s: Text, p: nat, b: byte)
    requires IsItem(o.validateEncoding, Raw(b)) && At(s, p, [b])
    ensures p < |s| && s[p] == b && ScanChar(o, s, p) == Scanned(p + 1, [b])
  {
    hide At;
    AtPeek(s, p, [b], 0);
  }

  lemma AtWhole(s: Text, p: nat, w: Text)
    requires At(s, p, w)
    ensures p + |w| <= |s| && s[p..p + |w|] == w
  {
  }

  lemma ShortScans(o: Options, s: Text, p: nat, letter: byte)
    requires Unescaped(letter) != NUL && At(s, p, [BACKSLASH, letter])
    ensures p + 1 < |s| && s[p] == BACKSLASH
    ensures ScanChar(o, s, p) == Scanned(p + 2, [Unescaped(letter)])
  {
    hide At, Decode, IsHex4, Hex4;
    AtPeek(s, p, [BACKSLASH, letter], 0);
    AtPeek(s, p, [BACKSLASH, letter], 1);
  }

  lemma UnitScans(o: Options, s: Text, p: nat, hex: Text)
    requires IsHexText(hex) && !IsHigh(UnitValue(hex)) && At(s, p, [BACKSLASH, LOWER_U] + hex)
    ensures p < |s| && s[p] == BACKSLASH
    ensures ScanChar(o, s, p) == Scanned(p + 6, Encode(UnitValue(hex)))
  {
    hide At, Decode, Encode, IsHex4, Hex4, IsHexText, UnitValue;
    UnicodeAt(s, p, hex);
  }

  lemma PairScans(o: Options, s: Text, p: nat, high: Text, low: Text)
    requires IsItem(true, Pair(high, low)) && At(s, p, Spelling(Pair(high, low)))
    ensures p < |s| && s[p] == BACKSLASH
    ensures ScanChar(o, s, p) == Scanned(p + 12, Meaning(Pair(high, low)))
  {
    hide At, Decode, Encode, IsHex4, Hex4, IsHexText, UnitValue;
    FourLong(high);
    AtConcat(s, p, [BACKSLASH, LOWER_U] + high, [BACKSLASH, LOWER_U] + low);
    UnicodeAt(s, p, high);
    UnicodeAt(s, p + 6, low);
  }

  lemma ItemScans(o: Options, s: Text, p: nat, it: Item)
    requires IsItem(o.validateEncoding, it) && At(s, p, Spelling(it))
    ensures p < |s| && s[p] != QUOTE && s[p] != NUL
    ensures ScanChar(o, s, p) == Scanned(p + |Spelling(it)|, Meaning(it))
  {
    hide At, ScanChar, IsHexText, UnitValue, Encode;
    match it
    case Plain(cp) => PlainScans(o, s, p, cp);
    case Raw(b) => RawScans(o, s, p, b);
    case Short(letter) => ShortScans(o, s, p, letter);
    case Unit(hex) =>
      FourLong(hex);
      UnitScans(o, s, p, hex);
    case Pair(high, low) =>
      FourLong(high);
      FourLong(low);
      PairScans(o, s, p, high, low);
  }

  lemma FourLong(h: Text)
    requires IsHexText(h)
    ensures |h| == 4
  {
  }

  lemma FirstByte(cp: ScalarValue)
    ensures |Encode(cp)| > 0
    ensures var c := Encode(cp)[0]; if cp < 0x80 then c == cp else c >= 0x80
  {
  }

  // A scanned character is an item

  lemma ScansItem(o: Options, s: Text, p: nat) returns (it: Item)
    requires p < |s| && s[p] != QUOTE && ScanChar(o, s, p).Scanned?
    ensures var r := ScanChar(o, s, p);
            IsItem(o.validateEncoding, it) && Spelling(it) == s[p..r.pos] && Meaning(it) == r.str
  {
    hide IsHex4, Hex4, Encode, Decode;
    var r := ScanChar(o, s, p);
    var c := s[p];
    if c != BACKSLASH && !o.validateEncoding {
      it := Raw(c);
    } else if c != BACKSLASH {
      EncodeOfDecode(s, p);
      it := Plain(Decode(s, p).codepoint);
      FirstByte(it.cp);
      assert s[p] == s[p..r.pos][0];
    } else if Unescaped(Peek(s, p + 1)) != NUL {
      it := Short(s[p + 1]);
    } else {
      it := ScansUnicode(s, p);
    }
  }

  lemma ScansUnicode(s: Text, p: nat) returns (it: Item)
    requires p + 2 <= |s| && s[p] == BACKSLASH && s[p + 1] == LOWER_U && ScanUnicode(s, p).Scanned?
    ensures var r := ScanUnicode(s, p);
            IsItem(true, it) && IsItem(false, it) && Spelling(it) == s[p..r.pos] && Meaning(it) == r.str
  {
    hide IsHex4, Hex4, IsHexText, UnitValue, Encode;
    Hex4Inside(s, p + 2);
    var hex := s[p + 2..p + 6];
    HexAt(s, p + 2, hex);
    if !IsHigh(Hex4(s, p + 2)) {
      it := Unit(hex);
      assert s[p..p + 6] == [BACKSLASH, LOWER_U] + hex;
    } else {
      Hex4Inside(s, p + 8);
      var low := s[p + 8..p + 12];
      HexAt(s, p + 8, low);
      it := Pair(hex, low);
      assert s[p..p + 6] == [BACKSLASH, LOWER_U] + hex;
      assert s[p + 6..p + 12] == [BACKSLASH, LOWER_U] + low;
      assert s[p..p + 12] == s[p..p + 6] + s[p + 6..p + 12];
    }
  }

  // Whole strings

  /** The string from `p` on is spelled by `items`, up to the quotation mark in front of `q`. */
  predicate SpelledBy(checked: bool, s: Text, p: nat, q: nat, items: seq<Item>) {
    AreItems(checked, items) && q == p + |SpellAll(items)| + 1 && At(s, p, SpellAll(items) + [QUOTE])
  }

  lemma {:induction false} ItemsScan(o: Options, s: Text, p: nat, items: seq<Item>, acc: Text)
    requires AreItems(o.validateEncoding, items) && At(s, p, SpellAll(items) + [QUOTE])
    ensures p <= |s| && ScanString(o, s, p, acc) == Scanned(p + |SpellAll(items)| + 1, acc + MeanAll(items))
    decreases |items|
  {
    hide ScanString, ScanChar, Spelling, Meaning, IsItem, SpellAll, MeanAll, At;
    if items == [] {
      NothingScans(o, s, p, acc);
    } else {
      var it, rest := items[0], items[1..];
      Unfolds(o.validateEncoding, items);
      Strings.SplitAt(s, p, Spelling(it), SpellAll(rest));
      ItemScans(o, s, p, it);
      Strings.ScanStep(o, s, p, acc);
      ItemsScan(o, s, p + |Spelling(it)|, rest, acc + Meaning(it));
      Regroup(acc, Meaning(it), MeanAll(rest));
    }
  }

  lemma {:induction false} NothingScans(o: Options, s: Text, p: nat, acc: Text)
    requires At(s, p, SpellAll([]) + [QUOTE])
    ensures p <= |s| && ScanString(o, s, p, acc) == Scanned(p + |SpellAll([])| + 1, acc + MeanAll([]))
  {
    assert [] + [QUOTE] == [QUOTE];
    AtPeek(s, p, [QUOTE], 0);
    assert acc + [] == acc;
  }

  lemma {:induction false} Unfolds(checked: bool, items: seq<Item>)
    requires items != [] && AreItems(checked, items)
    ensures IsItem(checked, items[0]) && AreItems(checked, items[1..])
    ensures SpellAll(items) == Spelling(items[0]) + SpellAll(items[1..])
    ensures MeanAll(items) == Meaning(items[0]) + MeanAll(items[1..])
  {
    hide Spelling, Meaning, IsItem;
  }

  lemma {:induction false} ScansItems(o: Options, s: Text, p: nat, acc: Text) returns (items: seq<Item>)
    requires p <= |s| && ScanString(o, s, p, acc).Scanned?
    ensures SpelledBy(o.validateEncoding, s, p, ScanString(o, s, p, acc).pos, items)
    ensures ScanString(o, s, p, acc).str == acc + MeanAll(items)
    decreases |s| - p
  {
    hide ScanChar, Spelling, Meaning, IsItem, SpelledBy, MeanAll, ScanString;
    if Peek(s, p) == QUOTE {
      items := [];
      NoItems(o, s, p, acc);
    } else {
      GoesOn(o, s, p, acc);
      var it := ScansItem(o, s, p);
      var r := ScanChar(o, s, p);
      Strings.ScanStep(o, s, p, acc);
      var rest := ScansItems(o, s, r.pos, acc + r.str);
      items := [it] + rest;
      OneMore(o.validateEncoding, s, p, r.pos, ScanString(o, s, p, acc).pos, it, rest);
      Regroup(acc, Meaning(it), MeanAll(rest));
    }
  }

  lemma {:induction false} NoItems(o: Options, s: Text, p: nat, acc: Text)
    requires p <= |s| && Peek(s, p) == QUOTE
    ensures ScanString(o, s, p, acc) == Scanned(p + 1, acc + MeanAll([]))
            && SpelledBy(o.validateEncoding, s, p, p + 1, [])
  {
    assert [] + [QUOTE] == [QUOTE] && acc + [] == acc;
    assert s[p..p + 1] == [QUOTE];
  }

  lemma {:induction false} OneMore(checked: bool, s: Text, p: nat, next: nat, q: nat, it: Item, rest: seq<Item>)
    requires p <= next <= |s| && IsItem(checked, it) && Spelling(it) == s[p..next]
    requires SpelledBy(checked, s, next, q, rest)
    ensures SpelledBy(checked, s, p, q, [it] + rest)
    ensures AreItems(checked, [it] + rest) && AreItems(checked, rest)
    ensures MeanAll([it] + rest) == Meaning(it) + MeanAll(rest)
  {
    hide Spelling, Meaning, IsItem, SpellAll, MeanAll;
    var items := [it] + rest;
    assert items[1..] == rest;
    Unfolds(checked, items);
    Joined(s, p, Spelling(it), SpellAll(rest));
  }

  lemma {:induction false} GoesOn(o: Options, s: Text, p: nat, acc: Text)
    requires p <= |s| && ScanString(o, s, p, acc).Scanned? && Peek(s, p) != QUOTE
    ensures Peek(s, p) != NUL && ScanChar(o, s, p).Scanned?
  {
    hide ScanChar;
  }

  lemma Joined(s: Text, p: nat, u: Text, v: Text)
    requires At(s, p, u) && At(s, p + |u|, v + [QUOTE])
    ensures At(s, p, u + v + [QUOTE])
  {
    assert u + v + [QUOTE] == u + (v + [QUOTE]);
    AtConcat(s, p, u, v + [QUOTE]);
  }

  /**
   The theorem: the text from `p` on is accepted as the string `str` that ends at `q` exactly when it is spelled by
   items that mean `str`: valid escapes, and between them no control characters and, if the reader validates,
   well-formed UTF-8.
   */
  lemma {:induction false} AcceptedIffSpelled(o: Options, s: Text, p: nat, q: nat, str: Text)
    requires p <= |s|
    ensures ScanString(o, s, p, []) == Scanned(q, str)
       <==> exists items: seq<Item> :: SpelledBy(o.validateEncoding, s, p, q, items) && MeanAll(items) == str
  {
    hide ScanString, SpellAll, MeanAll, AreItems, At;
    if ScanString(o, s, p, []) == Scanned(q, str) {
      var items := ScansItems(o, s, p, []);
      assert [] + MeanAll(items) == MeanAll(items);
    }
    if items: seq<Item> :| SpelledBy(o.validateEncoding, s, p, q, items) && MeanAll(items) == str {
      ItemsScan(o, s, p, items, []);
      assert [] + MeanAll(items) == MeanAll(items);
    }
  }

  // Lone low surrogates

  predicate IsLone(it: Item) {
    it.Unit? && IsHexText(it.hex) && IsLow(UnitValue(it.hex))
  }

  predicate NoLone(items: seq<Item>) {
    forall k | 0 <= k < |items| :: !IsLone(items[k])
  }

  /** The encoding of a low surrogate is no UTF-8. */
  lemma LoneIsIllFormed(s: Text, p: nat, unit: nat)
    requires IsLow(unit) && At(s, p, Encode(unit))
    ensures p < |s| && !Decode(s, p).ok
  {
    var w := Encode(unit);
    assert w[0] == 0xED;
    assert w[1] >= 0xB0;
    AtPeek(s, p, w, 0);
    AtPeek(s, p, w, 1);
    assert Decode(s, p) == Copy(s, Copy(s, Utf8.Step(true, p + 1, 13), 0x50), 0x70);
  }

  /** Every other item means the encoding of a scalar value. */
  lemma MeansScalar(it: Item) returns (cp: ScalarValue)
    requires IsItem(true, it) && !IsLone(it)
    ensures Meaning(it) == Encode(cp)
  {
    hide IsHexText, UnitValue;
    match it
    case Plain(c) => cp := c;
    case Short(letter) => cp := Unescaped(letter);
    case Unit(hex) => cp := UnitValue(hex);
    case Pair(high, low) => cp := (UnitValue(high) - 0xD800) * 0x400 + (UnitValue(low) - 0xDC00) + 0x1_0000;
  }

  lemma {:induction false} DecodesIffNoLone(s: Text, p: nat, items: seq<Item>)
    requires AreItems(true, items) && At(s, p, MeanAll(items)) && p + |MeanAll(items)| == |s|
    ensures p <= |s| && (DecodesToEnd(s, p) <==> NoLone(items))
    decreases |items|
  {
    hide Meaning, IsItem, MeanAll, At, Encode, Decode, IsLone, SpellAll;
    if items == [] {
      assert |MeanAll([])| == 0 by { NothingMeant(); }
    } else {
      var it, rest := items[0], items[1..];
      Unfolds(true, items);
      AtConcat(s, p, Meaning(it), MeanAll(rest));
      if IsLone(it) {
        LoneMeaning(it);
        LoneIsIllFormed(s, p, UnitValue(it.hex));
      } else {
        var cp := MeansScalar(it);
        DecodeOfEncode(s, p, cp);
        DecodesIffNoLone(s, p + |Meaning(it)|, rest);
        assert forall k | 0 < k < |items| :: items[k] == rest[k - 1];
        assert NoLone(rest) ==> NoLone(items);
      }
    }
  }

  lemma NothingMeant()
    ensures MeanAll([]) == []
  {
  }

  lemma LoneMeaning(it: Item)
    requires IsItem(true, it) && IsLone(it)
    ensures it.Unit? && IsHexText(it.hex) && IsLow(UnitValue(it.hex)) && Meaning(it) == Encode(UnitValue(it.hex))
  {
  }

  /**
   A validated string is nevertheless well-formed only if no escape in it is a lone low surrogate: those are let
   through.
   */
  lemma {:induction false} MeaningWellFormedIffNoLone(items: seq<Item>)
    requires AreItems(true, items)
    ensures WellFormed(MeanAll(items)) <==> NoLone(items)
  {
    hide MeanAll, NoLone;
    var str := MeanAll(items);
    assert At(str, 0, str);
    DecodesIffNoLone(str, 0, items);
    DecodableIffWellFormed(str);
  }
}
