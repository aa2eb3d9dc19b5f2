/**
 JSON Pointer (RFC 6901): the tokens of a string or URI fragment, and the string or fragment of tokens.
 The functions are the specification of the parser with its buffers in JsonPointerParser.
 */
module JsonPointer {
  import opened Bytes
  import opened Decimal
  import opened JsonTypes
  import opened JsonLexical
  import opened Optional
  import Utf8
  import Writer = JsonWriter

  /** kPointerInvalidIndex. */
  const INVALID_INDEX := SIZE_TYPE - 1

  datatype Token = Token(name: Text, index: nat)

  datatype PointerError =
    | TokenMustBeginWithSolidus
    | InvalidEscape
    | InvalidPercentEncoding
    | CharacterMustPercentEncode

  datatype Parsed = Tokens(tokens: seq<Token>) | Rejected(code: PointerError, offset: nat)

  /** Unreserved characters (section 2.3 of RFC 3986) need no percent-encoding. */
  predicate NeedPercentEncode(c: byte) {
    !(IsDigit(c) || UPPER_A <= c <= 0x5A || LOWER_A <= c <= 0x7A || c == MINUS || c == DOT || c == 0x5F || c == TILDE)
  }

  // Indices

  /** A name that may be an index: digits without a leading zero. */
  predicate IsNumber(name: Text) {
    name != [] && AllDigits(name) && (|name| > 1 ==> name[0] != ZERO)
  }

  /** The conversion of the first `j` digits to SizeType; None when the overflow test `m < n` has struck. */
  function ToIndex(name: Text, j: nat): (n: Option<nat>)
    requires j <= |name| && AllDigits(name)
    ensures n.Some? ==> n.value < SIZE_TYPE
  {
    if j == 0 then Some(0)
    else
      var n := ToIndex(name, j - 1);
      if n.None? then None
      else
        var m := (n.value * 10 + (name[j - 1] - ZERO)) % SIZE_TYPE;
        if m < n.value then None else Some(m)
  }

  function IndexOf(name: Text): (n: nat)
    ensures n < SIZE_TYPE
  {
    if IsNumber(name) && ToIndex(name, |name|).Some? then ToIndex(name, |name|).value else INVALID_INDEX
  }

  // Parsing

  /** The byte that a triplet %XY at `p` stands for. */
  predicate IsTriplet(s: Text, p: nat) {
    p + 3 <= |s| && s[p] == PERCENT && IsHexDigit(s[p + 1]) && IsHexDigit(s[p + 2])
  }

  function TripletByte(s: Text, p: nat): (c: nat)
    requires IsTriplet(s, p)
    ensures c < 256
  {
    HexValue(s[p + 1]) * 16 + HexValue(s[p + 2])
  }

  /** The bytes that consecutive triplets from `p` on stand for. */
  function Triplets(s: Text, p: nat): (w: Text)
    ensures p + 3 * |w| <= |s| || w == []
    decreases |s| - p
  {
    if IsTriplet(s, p) then [TripletByte(s, p)] + Triplets(s, p + 3) else []
  }

  /** One character of a name, or the error. */
  datatype Piece = Piece(next: nat, text: Text) | Bad(code: PointerError, offset: nat)

  /** The escapes ~0 and ~1: `c` has been read, the cursor is at `p`. */
  function Unescape(s: Text, p: nat, c: byte): (r: Piece)
    requires p <= |s|
    ensures r.Piece? ==> p <= r.next <= |s| && |r.text| == 1
  {
    if c != TILDE then Piece(p, [c])
    else if Peek(s, p) == ZERO then Piece(p + 1, [TILDE])
    else if Peek(s, p) == ONE then Piece(p + 1, [SLASH])
    else Bad(InvalidEscape, p)
  }

  /** One turn of the inner loop. */
  function ParseChar(s: Text, p: nat, fragment: bool): (r: Piece)
    requires p < |s| && s[p] != SLASH
    ensures r.Piece? ==> p < r.next <= |s| && 1 <= |r.text| <= r.next - p
  {
    var c := s[p];
    if fragment && c == PERCENT then
      var bytes := Triplets(s, p);
      var d := Utf8.Decode(bytes, 0);
      if bytes == [] || !d.ok then Bad(InvalidPercentEncoding, p)
      else if d.pos > 1 then Piece(p + 3 * d.pos, bytes[..d.pos])
      else Unescape(s, p + 3, bytes[0])
    else if fragment && NeedPercentEncode(c) then Bad(CharacterMustPercentEncode, p)
    else Unescape(s, p + 1, c)
  }

  /** The rest of a name, behind `name`: up to the next slash or the end. */
  function ParseName(s: Text, p: nat, fragment: bool, name: Text): (r: Piece)
    requires p <= |s|
    ensures r.Piece? ==> p <= r.next <= |s| && (r.next < |s| ==> s[r.next] == SLASH)
    decreases |s| - p
  {
    if p == |s| || s[p] == SLASH then Piece(p, name)
    else
      var r := ParseChar(s, p, fragment);
      if r.Bad? then r else ParseName(s, r.next, fragment, name + r.text)
  }

  /** The tokens from `p` on, behind `tokens`. */
  function ParseTokens(s: Text, p: nat, fragment: bool, tokens: seq<Token>): Parsed
    requires p <= |s| && (p < |s| ==> s[p] == SLASH)
    decreases |s| - p
  {
    if p == |s| then Tokens(tokens)
    else
      var r := ParseName(s, p + 1, fragment, []);
      if r.Bad? then Rejected(r.code, r.offset)
      else ParseTokens(s, r.next, fragment, tokens + [Token(r.text, IndexOf(r.text))])
  }

  /** `Parse`: a string, or a URI fragment if it begins with a hash sign. */
  function Parse(s: Text): Parsed {
    var fragment := Peek(s, 0) == HASH;
    var p := if fragment then 1 else 0;
    if p != |s| && s[p] != SLASH then Rejected(TokenMustBeginWithSolidus, p)
    else ParseTokens(s, p, fragment, [])
  }

  // Stringifying

  function PercentEncode(w: Text): Text {
    if w == [] then []
    else [PERCENT, Writer.HexDigit(w[0] / 16), Writer.HexDigit(w[0] % 16)] + PercentEncode(w[1..])
  }

  /** The characters of a name from `j` on; None when a character cannot be transcoded. */
  function StringifyName(name: Text, j: nat, fragment: bool): Option<Text>
    requires j <= |name|
    decreases |name| - j
  {
    if j == |name| then Some([])
    else
      var c := name[j];
      if c == TILDE then Prepend([TILDE, ZERO], StringifyName(name, j + 1, fragment))
      else if c == SLASH then Prepend([TILDE, ONE], StringifyName(name, j + 1, fragment))
      else if fragment && NeedPercentEncode(c) then
        var d := Utf8.Decode(name, j);
        if !d.ok then None else Prepend(PercentEncode(name[j..d.pos]), StringifyName(name, d.pos, fragment))
      else Prepend([c], StringifyName(name, j + 1, fragment))
  }

  function Prepend(w: Text, rest: Option<Text>): Option<Text> {
    if rest.None? then None else Some(w + rest.value)
  }

  /** The tokens from `k` on. */
  function StringifyTokens(tokens: seq<Token>, k: nat, fragment: bool): Option<Text>
    requires k <= |tokens|
    decreases |tokens| - k
  {
    if k == |tokens| then Some([])
    else
      var name := StringifyName(tokens[k].name, 0, fragment);
      var rest := StringifyTokens(tokens, k + 1, fragment);
      if name.None? || rest.None? then None else Some([SLASH] + name.value + rest.value)
  }

  /** `Stringify` and `StringifyUriFragment`. */
  function Stringify(tokens: seq<Token>, fragment: bool): Option<Text> {
    Prepend(if fragment then [HASH] else [], StringifyTokens(tokens, 0, fragment))
  }
}
