/**
 White space, comments, literals and strings: the parts of the grammar both parsers share.
 Each function is the specification of the reader method with the same name.
 */
module JsonLexical {
  import opened Bytes
  import opened JsonTypes
  import Utf8

  predicate IsSpace(c: byte) {
    c == SPACE || c == LINE_FEED || c == CARRIAGE_RETURN || c == TAB
  }

  /** `SkipWhitespace`. */
  function SkipSpaces(s: Text, p: nat): (q: nat)
    requires p <= |s|
    ensures p <= q <= |s| && !IsSpace(Peek(s, q))
    decreases |s| - p
  {
    if IsSpace(Peek(s, p)) then SkipSpaces(s, p + 1) else p
  }

  /** The end of a line comment: behind the line feed, or at the NUL that ends the text. */
  function LineCommentEnd(s: Text, p: nat): (q: nat)
    requires p <= |s|
    ensures p <= q <= |s|
    decreases |s| - p
  {
    var c := Peek(s, p);
    if c == NUL then p
    else if c == LINE_FEED then p + 1
    else LineCommentEnd(s, p + 1)
  }

  /** The end of a block comment. A star that is not followed by a slash is consumed on its own. */
  function BlockCommentEnd(s: Text, p: nat, out: seq<Event>): (r: Outcome)
    requires p <= |s|
    ensures r.out == out && (r.Ok? ==> p < r.pos <= |s|)
    decreases |s| - p
  {
    var c := Peek(s, p);
    if c == NUL then Fail(UnspecificSyntaxError, p, out)
    else if c == STAR && Peek(s, p + 1) == SLASH then Ok(p + 2, out)
    else BlockCommentEnd(s, p + 1, out)
  }

  /** The comments, and the spaces behind each of them, that start at `p`. */
  function SkipComments(s: Text, p: nat, out: seq<Event>): (r: Outcome)
    requires p <= |s|
    ensures r.out == out && (r.Ok? ==> p <= r.pos <= |s|)
    decreases |s| - p
  {
    if Peek(s, p) != SLASH then Ok(p, out)
    else if Peek(s, p + 1) == STAR then
      var r := BlockCommentEnd(s, p + 2, out);
      if r.Err? then r else SkipComments(s, SkipSpaces(s, r.pos), out)
    else if Peek(s, p + 1) == SLASH then
      SkipComments(s, SkipSpaces(s, LineCommentEnd(s, p + 2)), out)
    else Fail(UnspecificSyntaxError, p + 1, out)
  }

  /** `SkipWhitespaceAndComments`. */
  function Skip(o: Options, s: Text, p: nat, out: seq<Event>): (r: Outcome)
    requires p <= |s|
    ensures r.out == out && (r.Ok? ==> p <= r.pos <= |s|)
  {
    var q := SkipSpaces(s, p);
    if o.comments then SkipComments(s, q, out) else Ok(q, out)
  }

  /** `ParseNull`, `ParseTrue` and `ParseFalse`: the error is at the first character that differs. */
  function ParseLiteral(o: Options, s: Text, p: nat, word: Text, e: Event, out: seq<Event>): (r: Outcome)
    requires p <= |s| && |word| > 0 && NUL !in word && Peek(s, p) == word[0]
    ensures r.Ok? ==> p < r.pos <= |s|
  {
    var k := MatchLength(s, p, word);
    if k == |word| then Emit(o, e, out, p + k, p + k) else Fail(ValueInvalid, p + k, out)
  }

  /** How many characters of `word` stand at `p`: a chain of `Consume` calls. */
  function MatchLength(s: Text, p: nat, word: Text): (k: nat)
    requires p <= |s| && NUL !in word
    ensures k <= |word| && p + k <= |s|
    ensures s[p..p + k] == word[..k]
    ensures k < |word| ==> Peek(s, p + k) != word[k]
    decreases |word|
  {
    if word == [] || Peek(s, p) != word[0] then 0
    else
      var k := 1 + MatchLength(s, p + 1, word[1..]);
      assert s[p..p + k] == [s[p]] + s[p + 1..p + k];
      k
  }

  // Strings

  /** A decoded string and the cursor behind it, or the error. */
  datatype Scan = Scanned(pos: nat, str: Text) | Failed(error: Error)

  predicate IsHexDigit(c: byte) {
    ZERO <= c <= NINE || UPPER_A <= c <= UPPER_F || LOWER_A <= c <= LOWER_F
  }

  function HexValue(c: byte): nat
    requires IsHexDigit(c)
  {
    if c <= NINE then c - ZERO else if c <= UPPER_F then c - UPPER_A + 10 else c - LOWER_A + 10
  }

  /** Are the `n` characters from `p` on hexadecimal digits? */
  predicate AllHex(s: Text, p: nat, n: nat) {
    n == 0 || (AllHex(s, p, n - 1) && IsHexDigit(Peek(s, p + n - 1)))
  }

  /** The number that `n` hexadecimal digits denote. */
  function HexNumber(s: Text, p: nat, n: nat): (v: nat)
    requires AllHex(s, p, n)
  {
    if n == 0 then 0 else HexNumber(s, p, n - 1) * 16 + HexValue(Peek(s, p + n - 1))
  }

  /** Four hexadecimal digits: what `ParseHex4` asks for. */
  predicate IsHex4(s: Text, p: nat) {
    AllHex(s, p, 4)
  }

  function Hex4(s: Text, p: nat): (v: nat)
    requires IsHex4(s, p)
    ensures v < 0x1_0000
  {
    assert AllHex(s, p, 3);
    assert AllHex(s, p, 2);
    assert AllHex(s, p, 1);
    assert HexNumber(s, p, 1) < 0x10;
    assert HexNumber(s, p, 2) < 0x100;
    assert HexNumber(s, p, 3) < 0x1000;
    HexNumber(s, p, 4)
  }

  /** The table `escape` of `ParseStringToStream`; NUL where the character is no escape. */
  function Unescaped(e: byte): byte {
    if e == QUOTE || e == SLASH || e == BACKSLASH then e
    else if e == LOWER_B then BACKSPACE
    else if e == LOWER_F then FORM_FEED
    else if e == LOWER_N then LINE_FEED
    else if e == LOWER_R then CARRIAGE_RETURN
    else if e == LOWER_T then TAB
    else NUL
  }

  /** Hexadecimal digits are never read past the end. */
  lemma Hex4Inside(s: Text, p: nat)
    requires p <= |s| && IsHex4(s, p)
    ensures p + 4 <= |s|
  {
    assert IsHexDigit(Peek(s, p + 3)) by { assert AllHex(s, p, 4); }
  }

  /**
   A `\u` escape whose backslash is at `p`: one code unit or a surrogate pair. A lone low surrogate is let through.
   */
  function ScanUnicode(s: Text, p: nat): (r: Scan)
    requires p + 2 <= |s|
    ensures r.Scanned? ==> p + 6 <= r.pos <= |s|
  {
    if !IsHex4(s, p + 2) then Failed(Error(StringUnicodeEscapeInvalidHex, p))
    else
      Hex4Inside(s, p + 2);
      var unit := Hex4(s, p + 2);
      if !(0xD800 <= unit <= 0xDBFF) then Scanned(p + 6, Utf8.Encode(unit))
      else if Peek(s, p + 6) != BACKSLASH || Peek(s, p + 7) != LOWER_U then
        Failed(Error(StringUnicodeSurrogateInvalid, p))
      else if !IsHex4(s, p + 8) then Failed(Error(StringUnicodeEscapeInvalidHex, p))
      else
        Hex4Inside(s, p + 8);
        var low := Hex4(s, p + 8);
        if !(0xDC00 <= low <= 0xDFFF) then Failed(Error(StringUnicodeSurrogateInvalid, p))
        else Scanned(p + 12, Utf8.Encode((unit - 0xD800) * 0x400 + (low - 0xDC00) + 0x1_0000))
  }

  /** An escape sequence whose backslash is at `p`. */
  function ScanEscape(s: Text, p: nat): (r: Scan)
    requires p < |s|
    ensures r.Scanned? ==> p + 2 <= r.pos <= |s|
  {
    var e := Peek(s, p + 1);
    if Unescaped(e) != NUL then Scanned(p + 2, [Unescaped(e)])
    else if e == LOWER_U then ScanUnicode(s, p)
    else Failed(Error(StringEscapeInvalid, p))
  }

  /** One character of a string that is neither a quotation mark nor NUL. */
  function ScanChar(o: Options, s: Text, p: nat): (r: Scan)
    requires p < |s|
    ensures r.Scanned? ==> p < r.pos <= |s|
  {
    var c := s[p];
    if c == BACKSLASH then ScanEscape(s, p)
    else if c < SPACE then Failed(Error(StringInvalidEncoding, p))
    else if o.validateEncoding then
      var d := Utf8.Decode(s, p);
      if d.ok then Scanned(d.pos, s[p..d.pos]) else Failed(Error(StringInvalidEncoding, p))
    else Scanned(p + 1, [c])
  }

  /** `ParseStringToStream`, behind the opening quotation mark; `str` is what has been put to the stream so far. */
  function ScanString(o: Options, s: Text, p: nat, str: Text): (r: Scan)
    requires p <= |s|
    ensures r.Scanned? ==> p < r.pos <= |s|
    decreases |s| - p
  {
    var c := Peek(s, p);
    if c == QUOTE then Scanned(p + 1, str)
    else if c == NUL then Failed(Error(StringMissQuotationMark, p))
    else
      var r := ScanChar(o, s, p);
      if r.Failed? then r else ScanString(o, s, r.pos, str + r.str)
  }

  /** `ParseString`. */
  function ParseString(o: Options, s: Text, p: nat, isKey: bool, out: seq<Event>): (r: Outcome)
    requires p <= |s| && Peek(s, p) == QUOTE
    ensures r.Ok? ==> p < r.pos <= |s|
  {
    match ScanString(o, s, p + 1, [])
    case Failed(error) => Err(error, out)
    case Scanned(q, str) => Emit(o, if isKey then Key(str) else String(str), out, q, q)
  }
}
