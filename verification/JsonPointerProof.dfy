/**
 JSON Pointers: parsing undoes stringifying, in both representations; stringifying undoes parsing; and
 exactly when an index is right.
 */
module JsonPointerProof {
  import opened Bytes
  import opened Optional
  import opened Sequences
  import opened Decimal
  import opened JsonTypes
  import opened JsonLexical
  import opened JsonPointer
  import opened Utf8
  import opened Utf8Properties
  import Writer = JsonWriter
  import Strings = JsonStrings

  // Percent-encoding

  lemma EncodedTriplet(s: Text, p: nat, c: byte)
    requires At(s, p, [PERCENT, Writer.HexDigit(c / 16), Writer.HexDigit(c % 16)])
    ensures IsTriplet(s, p) && TripletByte(s, p) == c
  {
    var w: Text := [PERCENT, Writer.HexDigit(c / 16), Writer.HexDigit(c % 16)];
    AtPeek(s, p, w, 0);
    AtPeek(s, p, w, 1);
    AtPeek(s, p, w, 2);
    Strings.HexDigitValue(c / 16);
    Strings.HexDigitValue(c % 16);
  }

  /** Encoded bytes are the first bytes that the triplets stand for. */
  lemma {:induction false} TripletsOfEncoded(s: Text, p: nat, w: Text)
    requires At(s, p, PercentEncode(w))
    ensures At(Triplets(s, p), 0, w)
    decreases |w|
  {
    if w == [] {
      assert Triplets(s, p)[0..0] == [];
    } else {
      hide TripletByte, IsTriplet, Writer.HexDigit;
      var first: Text := [PERCENT, Writer.HexDigit(w[0] / 16), Writer.HexDigit(w[0] % 16)];
      AtConcat(s, p, first, PercentEncode(w[1..]));
      EncodedTriplet(s, p, w[0]);
      TripletsOfEncoded(s, p + 3, w[1..]);
      var rest := Triplets(s, p + 3);
      assert Triplets(s, p) == [w[0]] + rest;
      assert ([w[0]] + rest)[0..|w|] == [w[0]] + rest[0..|w| - 1];
      assert w == [w[0]] + w[1..];
    }
  }

  lemma {:induction false} EncodedLength(w: Text)
    ensures |PercentEncode(w)| == 3 * |w|
  {
    if w != [] {
      EncodedLength(w[1..]);
    }
  }

  // Parsing undoes stringifying

  /** An escaped or unreserved character reads back. */
  lemma CharReadsBack(s: Text, p: nat, c: byte, fragment: bool)
    requires c == TILDE ==> At(s, p, [TILDE, ZERO])
    requires c == SLASH ==> At(s, p, [TILDE, ONE])
    requires c != TILDE && c != SLASH ==> At(s, p, [c]) && !(fragment && NeedPercentEncode(c))
    ensures p < |s| && s[p] != SLASH
    ensures ParseChar(s, p, fragment) == Piece(p + (if c == TILDE || c == SLASH then 2 else 1), [c])
  {
    hide Triplets, Decode;
    if c == TILDE {
      AtPeek(s, p, [TILDE, ZERO], 0);
      AtPeek(s, p, [TILDE, ZERO], 1);
    } else if c == SLASH {
      AtPeek(s, p, [TILDE, ONE], 0);
      AtPeek(s, p, [TILDE, ONE], 1);
    } else {
      AtPeek(s, p, [c], 0);
    }
  }

  /** A percent-encoded code point reads back. */
  lemma SequenceReadsBack(s: Text, p: nat, name: Text, j: nat)
    requires j < |name| && Decode(name, j).ok && NeedPercentEncode(name[j])
    requires At(s, p, PercentEncode(name[j..Decode(name, j).pos]))
    ensures p < |s| && s[p] != SLASH
    ensures var w := name[j..Decode(name, j).pos];
            ParseChar(s, p, true) == Piece(p + |PercentEncode(w)|, w)
  {
    hide Decode, Encode, Triplets, Writer.HexDigit;
    var d := Decode(name, j);
    var w := name[j..d.pos];
    EncodeOfDecode(name, j);
    EncodedLength(w);
    TripletsOfEncoded(s, p, w);
    AtPeek(s, p, PercentEncode(w), 0);
    var bytes := Triplets(s, p);
    DecodeOfEncode(bytes, 0, d.codepoint);
    assert bytes[..|w|] == bytes[0..|w|] == w;
    assert w[0] == name[j];
    assert bytes[0] == w[0] by { AtPeek(bytes, 0, w, 0); }
    if |w| == 1 { assert w == [w[0]]; }
  }

  /** What stands behind a name. */
  predicate EndsName(s: Text, p: nat) {
    p == |s| || (p < |s| && s[p] == SLASH)
  }

  /** The next piece of a stringified name: how many bytes of the name it covers, and its text. */
  function FirstPiece(name: Text, j: nat, fragment: bool): Option<(nat, Text)>
    requires j < |name|
  {
    var c := name[j];
    if c == TILDE then Some((j + 1, [TILDE, ZERO]))
    else if c == SLASH then Some((j + 1, [TILDE, ONE]))
    else if fragment && NeedPercentEncode(c) then
      var d := Decode(name, j);
      if d.ok then Some((d.pos, PercentEncode(name[j..d.pos]))) else None
    else Some((j + 1, [c]))
  }

  lemma {:induction false} StringifyStep(name: Text, j: nat, fragment: bool)
    requires j < |name|
    ensures var f := FirstPiece(name, j, fragment);
            && (f.Some? ==> j < f.value.0 <= |name|)
            && StringifyName(name, j, fragment)
               == if f.None? then None else Prepend(f.value.1, StringifyName(name, f.value.0, fragment))
  {
    hide Decode, PercentEncode;
  }

  lemma {:induction false} NothingStringified(name: Text, fragment: bool)
    ensures StringifyName(name, |name|, fragment) == Some([])
  {
  }

  lemma PieceReadsBack(s: Text, p: nat, name: Text, j: nat, fragment: bool)
    requires j < |name| && FirstPiece(name, j, fragment).Some? && At(s, p, FirstPiece(name, j, fragment).value.1)
    ensures var (next, text) := FirstPiece(name, j, fragment).value;
            && p < |s| && s[p] != SLASH && j < next <= |name|
            && ParseChar(s, p, fragment) == Piece(p + |text|, name[j..next])
  {
    hide ParseChar, Decode, PercentEncode;
    var c := name[j];
    if c != TILDE && c != SLASH && fragment && NeedPercentEncode(c) {
      SequenceReadsBack(s, p, name, j);
    } else {
      CharReadsBack(s, p, c, fragment);
      assert name[j..j + 1] == [c];
    }
  }

  lemma {:induction false} NameReadsBack(s: Text, p: nat, name: Text, j: nat, fragment: bool, acc: Text)
    requires j <= |name| && StringifyName(name, j, fragment).Some? && At(s, p, StringifyName(name, j, fragment).value)
    requires EndsName(s, p + |StringifyName(name, j, fragment).value|)
    ensures p <= |s|
    ensures ParseName(s, p, fragment, acc) == Piece(p + |StringifyName(name, j, fragment).value|, acc + name[j..])
    decreases |name| - j
  {
    hide ParseChar, StringifyName, FirstPiece, ParseName, At, EndsName;
    if j == |name| {
      NothingLeft(s, p, name, fragment, acc);
    } else {
      StringifyStep(name, j, fragment);
      var (next, text) := FirstPiece(name, j, fragment).value;
      var rest := StringifyName(name, next, fragment).value;
      AtConcat(s, p, text, rest);
      PieceReadsBack(s, p, name, j, fragment);
      ParseNameStep(s, p, fragment, acc);
      NameReadsBack(s, p + |text|, name, next, fragment, acc + name[j..next]);
      Strings.Extend(name, j, next, acc);
    }
  }

  lemma {:induction false} NothingLeft(s: Text, p: nat, name: Text, fragment: bool, acc: Text)
    requires StringifyName(name, |name|, fragment).Some? && At(s, p, StringifyName(name, |name|, fragment).value)
    requires EndsName(s, p + |StringifyName(name, |name|, fragment).value|)
    ensures |StringifyName(name, |name|, fragment).value| == 0 && p <= |s|
    ensures ParseName(s, p, fragment, acc) == Piece(p, acc + name[|name|..])
  {
    hide ParseChar;
    assert acc + name[|name|..] == acc;
  }

  lemma {:induction false} ParseNameStep(s: Text, p: nat, fragment: bool, acc: Text)
    requires p < |s| && s[p] != SLASH && ParseChar(s, p, fragment).Piece?
    ensures var r := ParseChar(s, p, fragment);
            ParseName(s, p, fragment, acc) == ParseName(s, r.next, fragment, acc + r.text)
  {
    hide ParseChar;
  }

  /** Tokens as `Parse` leaves them: the index is that of the name. */
  predicate Indexed(tokens: seq<Token>) {
    forall k | 0 <= k < |tokens| :: tokens[k].index == IndexOf(tokens[k].name)
  }

  lemma {:induction false} TokensReadBack(s: Text, p: nat, tokens: seq<Token>, k: nat, fragment: bool)
    requires k <= |tokens| && Indexed(tokens) && StringifyTokens(tokens, k, fragment).Some?
    requires At(s, p, StringifyTokens(tokens, k, fragment).value)
             && p + |StringifyTokens(tokens, k, fragment).value| == |s|
    ensures p <= |s| && (p < |s| ==> s[p] == SLASH)
    ensures ParseTokens(s, p, fragment, tokens[..k]) == Tokens(tokens)
    decreases |tokens| - k
  {
    hide StringifyName, StringifyTokens, ParseName, ParseTokens, IndexOf, At;
    if k == |tokens| {
      NoTokensLeft(s, p, tokens, fragment);
    } else {
      StringifyTokensStep(tokens, k, fragment);
      var name, rest := StringifyName(tokens[k].name, 0, fragment).value,
        StringifyTokens(tokens, k + 1, fragment).value;
      TokenAt(s, p, name, rest);
      TokensReadBack(s, p + 1 + |name|, tokens, k + 1, fragment);
      NameReadsBack(s, p + 1, tokens[k].name, 0, fragment, []);
      OneToken(s, p, tokens, k, fragment);
    }
  }

  lemma {:induction false} NoTokensLeft(s: Text, p: nat, tokens: seq<Token>, fragment: bool)
    requires StringifyTokens(tokens, |tokens|, fragment).Some?
             && p + |StringifyTokens(tokens, |tokens|, fragment).value| == |s|
    ensures p == |s| && ParseTokens(s, p, fragment, tokens[..|tokens|]) == Tokens(tokens)
  {
    assert tokens[..|tokens|] == tokens;
  }

  lemma TokenAt(s: Text, p: nat, name: Text, rest: Text)
    requires At(s, p, [SLASH] + name + rest)
    ensures p < |s| && s[p] == SLASH && At(s, p + 1, name) && At(s, p + 1 + |name|, rest)
  {
    hide At;
    Regroup([SLASH], name, rest);
    AtConcat(s, p, [SLASH], name + rest);
    AtConcat(s, p + 1, name, rest);
    AtPeek(s, p, [SLASH], 0);
  }

  lemma {:induction false} OneToken(s: Text, p: nat, tokens: seq<Token>, k: nat, fragment: bool)
    requires k < |tokens| && Indexed(tokens) && p < |s| && s[p] == SLASH
    requires ParseName(s, p + 1, fragment, []).Piece?
             && ParseName(s, p + 1, fragment, []).text == [] + tokens[k].name[0..]
    ensures ParseTokens(s, p, fragment, tokens[..k])
         == ParseTokens(s, ParseName(s, p + 1, fragment, []).next, fragment, tokens[..k + 1])
  {
    hide ParseName, IndexOf;
    assert [] + tokens[k].name[0..] == tokens[k].name;
    assert tokens[..k + 1] == tokens[..k] + [Token(tokens[k].name, IndexOf(tokens[k].name))];
  }

  lemma StringifyTokensStep(tokens: seq<Token>, k: nat, fragment: bool)
    requires k < |tokens| && StringifyTokens(tokens, k, fragment).Some?
    ensures StringifyName(tokens[k].name, 0, fragment).Some? && StringifyTokens(tokens, k + 1, fragment).Some?
    ensures StringifyTokens(tokens, k, fragment).value
         == [SLASH] + StringifyName(tokens[k].name, 0, fragment).value + StringifyTokens(tokens, k + 1, fragment).value
  {
    hide StringifyName;
  }

  /**
   The theorem: whenever stringifying succeeds, in either representation, parsing gives the same tokens and indices.
   */
  lemma ParsingUndoesStringifying(tokens: seq<Token>, fragment: bool)
    requires Indexed(tokens) && Stringify(tokens, fragment).Some?
    ensures Parse(Stringify(tokens, fragment).value) == Tokens(tokens)
  {
    hide StringifyTokens, ParseTokens, IndexOf;
    var s, body := Stringify(tokens, fragment).value, StringifyTokens(tokens, 0, fragment).value;
    var p := if fragment then 1 else 0;
    assert s[p..] == body && s[p..p + |body|] == body;
    TokensReadBack(s, p, tokens, 0, fragment);
    assert tokens[..0] == [];
  }

  /** The parser leaves indexed tokens. */
  lemma {:induction false} ParsedIndexed(s: Text, p: nat, fragment: bool, tokens: seq<Token>)
    requires p <= |s| && (p < |s| ==> s[p] == SLASH) && Indexed(tokens)
    ensures var r := ParseTokens(s, p, fragment, tokens); r.Tokens? ==> Indexed(r.tokens)
    decreases |s| - p
  {
    hide ParseName, IndexOf;
    if p < |s| {
      var r := ParseName(s, p + 1, fragment, []);
      if r.Piece? {
        ParsedIndexed(s, r.next, fragment, tokens + [Token(r.text, IndexOf(r.text))]);
      }
    }
  }

  /** For every pointer that parses: stringifying and parsing again gives the same tokens, in both representations. */
  lemma ParsedPointersRoundTrip(s: Text, fragment: bool)
    requires Parse(s).Tokens? && Stringify(Parse(s).tokens, fragment).Some?
    ensures Parse(Stringify(Parse(s).tokens, fragment).value) == Parse(s)
  {
    hide Stringify, ParseTokens;
    ParsedIndexed(s, if Peek(s, 0) == HASH then 1 else 0, Peek(s, 0) == HASH, []);
    ParsingUndoesStringifying(Parse(s).tokens, fragment);
  }

  // When stringifying succeeds

  lemma {:induction false} NameStringifies(name: Text, j: nat, fragment: bool)
    requires j <= |name|
    ensures StringifyName(name, j, fragment).Some? <==> (fragment ==> DecodesToEnd(name, j))
    decreases |name| - j
  {
    if j < |name| {
      hide Decode, PercentEncode, StringifyName;
      StringifyStep(name, j, fragment);
      if name[j] < 0x80 { Strings.DecodeOfAscii(name, j); assert name[j..j + 1] == [name[j]]; }
      var f := FirstPiece(name, j, fragment);
      if f.Some? {
        NameStringifies(name, f.value.0, fragment);
      }
    }
  }

  /** The string representation never fails; the fragment fails exactly when a name is not well-formed UTF-8. */
  lemma {:induction false} StringifiesIffWellFormed(tokens: seq<Token>, k: nat, fragment: bool)
    requires k <= |tokens|
    ensures StringifyTokens(tokens, k, fragment).Some? <==>
              (fragment ==> forall i | k <= i < |tokens| :: WellFormed(tokens[i].name))
    decreases |tokens| - k
  {
    hide StringifyName;
    if k < |tokens| {
      NameStringifies(tokens[k].name, 0, fragment);
      DecodableIffWellFormed(tokens[k].name);
      StringifiesIffWellFormed(tokens, k + 1, fragment);
    }
  }

  // Stringifying undoes parsing

  /** In the string representation, a name's characters are determined by the name. */
  lemma {:induction false} NameWritesBack(s: Text, p: nat, acc: Text) returns (name: Text)
    requires p <= |s| && ParseName(s, p, false, acc).Piece?
    ensures ParseName(s, p, false, acc).text == acc + name
    ensures StringifyName(name, 0, false) == Some(s[p..ParseName(s, p, false, acc).next])
    decreases |s| - p
  {
    if p == |s| || s[p] == SLASH {
      name := [];
      assert acc + [] == acc && s[p..p] == [];
    } else {
      hide ParseName, StringifyName;
      var r := ParseChar(s, p, false);
      assert r.Piece? by { NamePiece(s, p, acc); }
      ParseNameStep(s, p, false, acc);
      var rest := NameWritesBack(s, r.next, acc + r.text);
      var c := r.text[0];
      name := [c] + rest;
      Regroup(acc, [c], rest);
      assert r.text == [c];
      StringifyStep(name, 0, false);
      StringifyTail(c, rest);
      var q := ParseName(s, r.next, false, acc + r.text).next;
      assert s[p..q] == s[p..r.next] + s[r.next..q];
      assert FirstPiece(name, 0, false) == Some((1, s[p..r.next])) by { PieceWritesBack(s, p, name); }
    }
  }

  lemma {:induction false} NamePiece(s: Text, p: nat, acc: Text)
    requires p < |s| && s[p] != SLASH && ParseName(s, p, false, acc).Piece?
    ensures ParseChar(s, p, false).Piece?
  {
    hide ParseChar;
  }

  lemma PieceWritesBack(s: Text, p: nat, name: Text)
    requires p < |s| && s[p] != SLASH && ParseChar(s, p, false).Piece? && name != []
             && [name[0]] == ParseChar(s, p, false).text
    ensures FirstPiece(name, 0, false) == Some((1, s[p..ParseChar(s, p, false).next]))
  {
    hide Decode, PercentEncode;
    if s[p] == TILDE {
      assert s[p..p + 2] == [s[p], s[p + 1]];
    } else {
      assert s[p..p + 1] == [s[p]];
    }
  }

  /** Stringifying does not look back. */
  lemma {:induction false} StringifyShift(c: byte, rest: Text, j: nat)
    requires j <= |rest|
    ensures StringifyName([c] + rest, j + 1, false) == StringifyName(rest, j, false)
    decreases |rest| - j
  {
    if j < |rest| {
      hide Decode, PercentEncode;
      StringifyShift(c, rest, j + 1);
      assert ([c] + rest)[j + 1] == rest[j];
    }
  }

  lemma {:induction false} StringifyTail(c: byte, rest: Text)
    ensures StringifyName([c] + rest, 1, false) == StringifyName(rest, 0, false)
  {
    StringifyShift(c, rest, 0);
  }

  lemma {:induction false} TokensWriteBack(s: Text, p: nat, tokens: seq<Token>) returns (more: seq<Token>)
    requires p <= |s| && (p < |s| ==> s[p] == SLASH) && ParseTokens(s, p, false, tokens).Tokens?
    ensures ParseTokens(s, p, false, tokens).tokens == tokens + more
    ensures StringifyTokens(more, 0, false) == Some(s[p..])
    decreases |s| - p
  {
    hide ParseName, StringifyName, StringifyTokens, IndexOf;
    if p == |s| {
      more := [];
      NothingMore(tokens);
      assert s[p..] == [];
    } else {
      var r := ParseName(s, p + 1, false, []);
      var name := NameWritesBack(s, p + 1, []);
      assert [] + name == name;
      var token := Token(name, IndexOf(name));
      var rest := TokensWriteBack(s, r.next, tokens + [token]);
      more := [token] + rest;
      Regroup(tokens, [token], rest);
      TokensTail(token, rest);
      SplitToken(s, p, r.next);
    }
  }

  lemma NothingMore(tokens: seq<Token>)
    ensures tokens + [] == tokens && StringifyTokens([], 0, false) == Some([])
  {
  }

  lemma SplitToken(s: Text, p: nat, q: nat)
    requires p < q <= |s| && s[p] == SLASH
    ensures s[p..] == [SLASH] + s[p + 1..q] + s[q..]
  {
  }

  lemma {:induction false} TokensTail(token: Token, rest: seq<Token>)
    requires StringifyName(token.name, 0, false).Some? && StringifyTokens(rest, 0, false).Some?
    ensures StringifyTokens([token] + rest, 0, false)
         == Some([SLASH] + StringifyName(token.name, 0, false).value + StringifyTokens(rest, 0, false).value)
  {
    hide StringifyName;
    TokensShift(token, rest, 0);
  }

  lemma {:induction false} TokensShift(token: Token, rest: seq<Token>, k: nat)
    requires k <= |rest|
    ensures StringifyTokens([token] + rest, k + 1, false) == StringifyTokens(rest, k, false)
    decreases |rest| - k
  {
    hide StringifyName;
    if k < |rest| {
      TokensShift(token, rest, k + 1);
    }
  }

  /** A pointer in the string representation is its own normal form. */
  lemma StringifyingUndoesParsing(s: Text)
    requires Parse(s).Tokens? && Peek(s, 0) != HASH
    ensures Stringify(Parse(s).tokens, false) == Some(s)
  {
    hide ParseTokens, StringifyTokens;
    var more := TokensWriteBack(s, 0, []);
    assert [] + more == more && s[0..] == s && [] + s == s;
  }

  // Indices

  /** Below the invalid index, the names that are indices are the decimal numerals, section 4 of RFC 6901. */
  lemma {:induction false} IndexIffNumeral(name: Text, n: nat)
    requires n < INVALID_INDEX && ValueOrZero(name) < SIZE_TYPE
    ensures IndexOf(name) == n <==> name == Digits(n)
  {
    if name == Digits(n) {
      NumeralHasNoZero(n);
      IndexExact(name);
    } else if IsNumber(name) {
      IndexExact(name);
      DigitsOfValue(name);
    }
  }

  /** The value of a name made of digits. */
  function ValueOrZero(name: Text): nat {
    if AllDigits(name) then Value(name) else 0
  }

  lemma {:induction false} NumeralHasNoZero(n: nat)
    ensures IsNumber(Digits(n))
  {
    if n == 0 { assert Digits(n) == [ZERO]; }
  }

  lemma {:induction false} ToIndexExact(name: Text, j: nat)
    requires j <= |name| && AllDigits(name) && Value(name[..j]) < SIZE_TYPE
    ensures ToIndex(name, j) == Some(Value(name[..j]))
    decreases j
  {
    if j == 0 {
      assert name[..0] == [];
    } else {
      assert name[..j][..j - 1] == name[..j - 1];
      ToIndexExact(name, j - 1);
    }
  }

  /** An index is the number its name denotes exactly when that number fits SizeType. */
  lemma {:induction false} IndexExact(name: Text)
    requires IsNumber(name)
    ensures IndexOf(name) == Value(name) <==> Value(name) < SIZE_TYPE
  {
    assert name[..|name|] == name;
    if Value(name) < SIZE_TYPE {
      ToIndexExact(name, |name|);
    }
  }

  /** The value of the first `k` digits, as it is left in 32 bits. */
  function Wrapped(name: Text, k: nat): nat
    requires k <= |name| && AllDigits(name)
  {
    Value(name[..k]) % SIZE_TYPE
  }

  /** Taking the digit at `k` makes what is left smaller. */
  predicate Drops(name: Text, k: nat)
    requires k < |name| && AllDigits(name)
  {
    Wrapped(name, k + 1) < Wrapped(name, k)
  }

  predicate DropsBefore(name: Text, j: nat)
    requires j <= |name| && AllDigits(name)
  {
    exists k: nat | k < j :: Drops(name, k)
  }

  lemma WrappedStep(name: Text, k: nat)
    requires k < |name| && AllDigits(name)
    ensures Value(name[..k + 1]) == 10 * Value(name[..k]) + (name[k] - ZERO)
    ensures Wrapped(name, k + 1) == (Wrapped(name, k) * 10 + (name[k] - ZERO)) % SIZE_TYPE
  {
    assert name[..k + 1][..k] == name[..k];
    TimesTen(Value(name[..k]), name[k] - ZERO);
  }

  lemma TimesTen(v: nat, d: nat)
    ensures (10 * v + d) % SIZE_TYPE == (v % SIZE_TYPE * 10 + d) % SIZE_TYPE
  {
    var q, r := v / SIZE_TYPE, v % SIZE_TYPE;
    assert 10 * v + d == (r * 10 + d) + 10 * q * SIZE_TYPE;
    ModuloMultiple(r * 10 + d, 10 * q);
  }

  lemma {:induction false} ModuloMultiple(a: nat, q: nat)
    ensures (a + q * SIZE_TYPE) % SIZE_TYPE == a % SIZE_TYPE
  {
    if q > 0 {
      ModuloMultiple(a, q - 1);
      assert a + q * SIZE_TYPE == (a + (q - 1) * SIZE_TYPE) + SIZE_TYPE;
    }
  }

  lemma {:induction false} ToIndexWraps(name: Text, j: nat)
    requires j <= |name| && AllDigits(name)
    ensures ToIndex(name, j) == if DropsBefore(name, j) then None else Some(Wrapped(name, j))
    decreases j
  {
    if j == 0 {
      assert name[..0] == [];
    } else {
      hide Wrapped;
      ToIndexWraps(name, j - 1);
      WrappedStep(name, j - 1);
      assert DropsBefore(name, j) <==> DropsBefore(name, j - 1) || Drops(name, j - 1);
    }
  }

  /**
   What index a name of any length gets: a wrap is noticed exactly when some digit makes what is left in 32 bits
   smaller, and otherwise what is left is the index.
   */
  lemma {:induction false} NoticedExactly(name: Text)
    requires IsNumber(name)
    ensures IndexOf(name) == if DropsBefore(name, |name|) then INVALID_INDEX else Value(name) % SIZE_TYPE
  {
    assert name[..|name|] == name;
    ToIndexWraps(name, |name|);
  }

  /** For the shortest names that can wrap: the last digit alone decides. */
  lemma {:induction false} TenDigitsNoticed(name: Text)
    requires IsNumber(name) && |name| == 10
    ensures DropsBefore(name, 10) <==> Value(name) % SIZE_TYPE < Value(name) / 10
  {
    hide Value, Wrapped;
    assert name[..10] == name;
    forall k: nat | k < 9 ensures !Drops(name, k) {
      NineDigitsGrow(name, k);
    }
    WrappedStep(name, 9);
    ShortValue(name, 9);
    WholeValue(name);
    LastDigit(Value(name[..9]), name[9] - ZERO);
    assert IsDigit(name[9]);
    assert DropsBefore(name, 10) <==> Drops(name, 9);
  }

  lemma LastDigit(v: nat, d: int)
    ensures 0 <= d < 10 ==> (10 * v + d) / 10 == v
  {
  }

  lemma {:induction false} WholeValue(name: Text)
    requires AllDigits(name)
    ensures Wrapped(name, |name|) == Value(name) % SIZE_TYPE
  {
    assert name[..|name|] == name;
  }

  lemma NineDigitsGrow(name: Text, k: nat)
    requires AllDigits(name) && k < 9 <= |name|
    ensures !Drops(name, k)
  {
    hide Value;
    ShortValue(name, k);
    ShortValue(name, k + 1);
    WrappedStep(name, k);
  }

  lemma ShortValue(name: Text, k: nat)
    requires AllDigits(name) && k <= 9 && k <= |name|
    ensures Value(name[..k]) < 1_000_000_000 && Wrapped(name, k) == Value(name[..k])
  {
    hide Value;
    ValueBelow(name[..k], 9);
    assert Pow10(4) == 10_000;
    assert Pow10(9) == 1_000_000_000;
  }

  /** The overflow test does not notice every wrap: 5000000000 becomes the index 705032704. */
  lemma WrapGoesUnnoticed()
    ensures var name := [0x35] + [ZERO, ZERO, ZERO] + [ZERO, ZERO, ZERO] + [ZERO, ZERO, ZERO];
            IsNumber(name) && IndexOf(name) == 705032704
  {
    var name: Text := [0x35] + [ZERO, ZERO, ZERO] + [ZERO, ZERO, ZERO] + [ZERO, ZERO, ZERO];
    assert name == [0x35, ZERO, ZERO, ZERO, ZERO, ZERO, ZERO, ZERO, ZERO, ZERO];
    assert ToIndex(name, 1) == Some(5);
    assert ToIndex(name, 2) == Some(50);
    assert ToIndex(name, 3) == Some(500);
    assert ToIndex(name, 4) == Some(5000);
    assert ToIndex(name, 5) == Some(50000);
    assert ToIndex(name, 6) == Some(500000);
    assert ToIndex(name, 7) == Some(5000000);
    assert ToIndex(name, 8) == Some(50000000);
    assert ToIndex(name, 9) == Some(500000000);
  }

  /**
   In a fragment a percent-encoded ASCII character means what the character means, the tilde of an escape included;
   but an encoded slash belongs to the name and does not end it.
   */
  lemma {:induction false} TripletIsCharacter(s: Text, p: nat)
    requires IsTriplet(s, p) && TripletByte(s, p) < 0x80
    ensures var c := TripletByte(s, p);
            ParseChar(s, p, true)
            == if c != 0x7E then Piece(p + 3, [c])
               else if Peek(s, p + 3) == 0x30 then Piece(p + 4, [0x7E])
               else if Peek(s, p + 3) == 0x31 then Piece(p + 4, [0x2F])
               else Bad(InvalidEscape, p + 3)
  {
    hide TripletByte;
    assert Triplets(s, p)[0] == TripletByte(s, p);
    assert Utf8.Decode(Triplets(s, p), 0) == Utf8.Step(true, 1, TripletByte(s, p));
  }
}
