/**
 `GenericPointer::Parse` and `Stringify` as they run: the parser sizes a token buffer and a name buffer
 in advance, and fills them through moving positions. No write leaves the buffers.
 */
module JsonPointerParser {
  import opened Bytes
  import opened Optional
  import opened Sequences
  import opened Decimal
  import opened JsonTypes
  import Pointer = JsonPointer
  import Proof = JsonPointerProof
  import Utf8
  import Utf8Properties
  import Utf8Stream
  import Writer = JsonWriter

  /** A token with its name in the name buffer. */
  datatype RawToken = RawToken(name: nat, length: nat, index: nat)

  /** The number of slashes. */
  function Slashes(s: Text): nat {
    if s == [] then 0 else Slashes(s[..|s| - 1]) + if s[|s| - 1] == SLASH then 1 else 0
  }

  method CountSlashes(source: Text) returns (tokenCount: nat)
    ensures tokenCount == Slashes(source)
  {
    tokenCount := 0;
    var s := 0;
    assert source[..0] == [];
    while s < |source|
      invariant s <= |source| && tokenCount == Slashes(source[..s])
    {
      assert source[..s + 1][..s] == source[..s];
      if source[s] == SLASH {
        tokenCount := tokenCount + 1;
      }
      s := s + 1;
    }
    assert source[..s] == source;
  }

  /** There is no slash between two positions. */
  predicate NoSlash(s: Text, p: nat, q: nat) {
    p <= q <= |s| && forall k | p <= k < q :: s[k] != SLASH
  }

  lemma {:induction false} SlashesBetween(s: Text, p: nat, q: nat)
    requires NoSlash(s, p, q)
    ensures Slashes(s[..q]) == Slashes(s[..p])
    decreases q - p
  {
    if p < q {
      assert s[..q][..q - 1] == s[..q - 1];
      SlashesBetween(s, p, q - 1);
    }
  }

  lemma {:induction false} SlashesMonotone(s: Text, p: nat)
    requires p <= |s|
    ensures Slashes(s[..p]) <= Slashes(s)
    decreases |s| - p
  {
    if p == |s| {
      assert s[..p] == s;
    } else {
      assert s[..p + 1][..p] == s[..p];
      SlashesMonotone(s, p + 1);
    }
  }

  lemma {:induction false} TripletsSkipNoSlash(s: Text, p: nat, k: nat)
    requires k <= |Pointer.Triplets(s, p)|
    ensures k > 0 ==> NoSlash(s, p, p + 3 * k)
    decreases k
  {
    if k > 0 {
      assert Pointer.IsTriplet(s, p);
      assert s[p] != SLASH && s[p + 1] != SLASH && s[p + 2] != SLASH;
      TripletsSkipNoSlash(s, p + 3, k - 1);
    }
  }

  lemma CharSkipsNoSlash(s: Text, p: nat, fragment: bool)
    requires p < |s| && s[p] != SLASH && Pointer.ParseChar(s, p, fragment).Piece?
    ensures NoSlash(s, p, Pointer.ParseChar(s, p, fragment).next)
  {
    hide Utf8.Decode, Pointer.Triplets;
    if fragment && s[p] == PERCENT {
      var bytes := Pointer.Triplets(s, p);
      TripletsSkipNoSlash(s, p, Utf8.Decode(bytes, 0).pos);
    }
  }

  lemma {:induction false} NameSkipsNoSlash(s: Text, p: nat, fragment: bool, name: Text)
    requires p <= |s| && Pointer.ParseName(s, p, fragment, name).Piece?
    ensures NoSlash(s, p, Pointer.ParseName(s, p, fragment, name).next)
    decreases |s| - p
  {
    hide Pointer.ParseChar;
    if p < |s| && s[p] != SLASH {
      CharSkipsNoSlash(s, p, fragment);
      var r := Pointer.ParseChar(s, p, fragment);
      NameSkipsNoSlash(s, r.next, fragment, name + r.text);
    }
  }

  /** One token takes exactly one slash. */
  lemma OneSlash(s: Text, p: nat, next: nat, fragment: bool)
    requires p < |s| && s[p] == SLASH
    requires Pointer.ParseName(s, p + 1, fragment, []).Piece? && next == Pointer.ParseName(s, p + 1, fragment, []).next
    ensures Slashes(s[..p]) < Slashes(s) && Slashes(s[..next]) == Slashes(s[..p]) + 1
  {
    hide Pointer.ParseName;
    NameSkipsNoSlash(s, p + 1, fragment, []);
    SlashesBetween(s, p + 1, next);
    assert s[..p + 1][..p] == s[..p];
    SlashesMonotone(s, p + 1);
  }

  /** The name lies in the buffer, in front of its terminator, and the token is `token`. */
  predicate TokenHolds(buffer: Text, raw: RawToken, token: Pointer.Token, limit: nat) {
    && raw.name + raw.length < limit <= |buffer|
    && buffer[raw.name..raw.name + raw.length] == token.name
    && raw.index == token.index
  }

  /** The buffers hold `done`, with all names in front of `limit`. */
  predicate Holds(buffer: Text, raws: seq<RawToken>, done: seq<Pointer.Token>, limit: nat) {
    |done| <= |raws| && limit <= |buffer| && forall k | 0 <= k < |done| :: TokenHolds(buffer, raws[k], done[k], limit)
  }

  /** Writing behind the limit keeps what the buffers hold. */
  lemma HoldsKept(buffer: Text, buffer': Text, raws: seq<RawToken>, raws': seq<RawToken>, done: seq<Pointer.Token>,
                  limit: nat, limit': nat)
    requires Holds(buffer, raws, done, limit) && limit <= limit' <= |buffer'| && |buffer| == |buffer'|
             && |raws| == |raws'|
    requires buffer[..limit] == buffer'[..limit] && raws[..|done|] == raws'[..|done|]
    ensures Holds(buffer', raws', done, limit')
  {
    forall k | 0 <= k < |done| ensures TokenHolds(buffer', raws'[k], done[k], limit') {
      var raw := raws[k];
      assert raw == raws[..|done|][k] == raws'[..|done|][k];
      assert TokenHolds(buffer, raw, done[k], limit);
      assert buffer[..limit][raw.name..raw.name + raw.length] == buffer[raw.name..raw.name + raw.length];
      assert buffer'[..limit][raw.name..raw.name + raw.length] == buffer'[raw.name..raw.name + raw.length];
    }
  }

  lemma NothingHeld(s: Text, p: nat)
    requires p <= |s| && (p == 0 || (p == 1 && s[0] == HASH))
    ensures forall buffer: Text, raws: seq<RawToken> :: Holds(buffer, raws, [], 0)
    ensures Slashes(s[..p]) == 0
  {
    if p == 1 { assert s[..1][..0] == []; }
  }

  /** One more name, its terminator, and its token. */
  lemma MoreHeld(buffer: Text, buffer': Text, raws: seq<RawToken>, raws': seq<RawToken>, done: seq<Pointer.Token>,
                 name: nat, nameEnd: nat, index: nat)
    requires Holds(buffer, raws, done, name) && name <= nameEnd < |buffer'| == |buffer|
             && buffer[..name] == buffer'[..name]
    requires |done| < |raws| && raws' == raws[|done| := RawToken(name, nameEnd - name, index)]
    ensures Holds(buffer', raws', done + [Pointer.Token(buffer'[name..nameEnd], index)], nameEnd + 1)
  {
    HoldsKept(buffer, buffer', raws, raws', done, name, nameEnd + 1);
  }

  lemma AllHeld(buffer: Text, raws: seq<RawToken>, done: seq<Pointer.Token>, limit: nat)
    requires Holds(buffer, raws, done, limit)
    ensures Holds(buffer, raws, done, |buffer|)
  {
  }

  /** The conversion loop of an index. */
  method ConvertIndex(name: Text) returns (index: nat)
    ensures index == Pointer.IndexOf(name)
  {
    index := Pointer.INVALID_INDEX;
    if !Pointer.IsNumber(name) {
      return;
    }
    var n, j := 0, 0;
    while j < |name|
      invariant j <= |name| && Pointer.ToIndex(name, j) == Some(n)
    {
      var m := (n * 10 + (name[j] - ZERO)) % SIZE_TYPE;
      if m < n {
        Struck(name, j + 1, |name|);
        return;
      }
      n := m;
      j := j + 1;
    }
    index := n;
  }

  /** Once the overflow test has struck, there is no index. */
  lemma {:induction false} Struck(name: Text, j: nat, k: nat)
    requires j <= k <= |name| && AllDigits(name) && Pointer.ToIndex(name, j).None?
    ensures Pointer.ToIndex(name, k).None?
    decreases k
  {
    if j < k {
      Struck(name, j, k - 1);
    }
  }

  class GenericPointer {
    var nameBuffer: array<byte>
    var tokens: array<RawToken>
    var tokenCount: nat
    var error: Option<(Pointer.PointerError, nat)>

    /** The tokens, read out of the buffers; or the error. */
    ghost predicate Is(r: Pointer.Parsed)
      reads this, nameBuffer, tokens
    {
      match r
      case Rejected(code, offset) => error == Some((code, offset)) && tokenCount == 0
      case Tokens(ts) =>
        error.None? && tokenCount == |ts| == tokens.Length
        && Holds(nameBuffer[..], tokens[..], ts, nameBuffer.Length)
    }

    /** One character of a name, put at `name`; a percent-encoded one is decoded in place. */
    method ParseCharacter(source: Text, i: nat, fragment: bool, name: nat)
      returns (ok: bool, next: nat, nameEnd: nat)
      requires i < |source| == nameBuffer.Length && source[i] != SLASH && name + (if fragment then 2 else 1) <= i
      requires error.None?
      modifies nameBuffer, this`error
      ensures nameBuffer[..name] == old(nameBuffer[..name])
      ensures match Pointer.ParseChar(source, i, fragment)
              case Bad(code, offset) => !ok && error == Some((code, offset))
              case Piece(n, text) =>
                && ok && error.None? && next == n && nameEnd == name + |text| <= nameBuffer.Length
                && nameBuffer[name..nameEnd] == text
    {
      hide Utf8.Decode, Pointer.Triplets, Pointer.Unescape;
      var c := source[i];
      next, nameEnd := i + 1, name;
      if fragment && c == PERCENT {
        var len, tell;
        ok, len, tell := PercentDecode(source, i, name);
        if !ok {
          error := Some((Pointer.InvalidPercentEncoding, i));
          return;
        }
        next := i + tell;
        if len != 1 {
          nameEnd := name + len;
          return;
        }
        c := nameBuffer[name];
      } else if fragment && Pointer.NeedPercentEncode(c) {
        error := Some((Pointer.CharacterMustPercentEncode, i));
        ok := false;
        return;
      }
      ok, next, nameEnd := PutUnescaped(source, next, c, name);
    }

    /** A percent-encoded code point, decoded into the name buffer by way of `Validate`. */
    method PercentDecode(source: Text, i: nat, name: nat) returns (ok: bool, len: nat, tell: nat)
      requires i < |source| == nameBuffer.Length && name + 2 <= i
      modifies nameBuffer
      ensures nameBuffer[..name] == old(nameBuffer[..name])
      ensures var bytes := Pointer.Triplets(source, i);
              var d := Utf8.Decode(bytes, 0);
              && ok == (bytes != [] && d.ok)
              && (ok ==> len == d.pos > 0 && tell == 3 * d.pos && name + len <= nameBuffer.Length
                         && d.pos <= |bytes| && nameBuffer[name..name + len] == bytes[..d.pos])
    {
      hide Utf8.Decode, Pointer.IsTriplet;
      var bytes := Pointer.Triplets(source, i);
      var stream := new Utf8Stream.Stream(bytes);
      var result := stream.Validate();
      assert bytes == [] || i + 3 <= |source|;
      len := |stream.out|;
      PutAll(name, stream.out);
      var isValid := len == stream.pos;
      ok, tell := result && isValid, 3 * stream.pos;
    }

    /** Put `c`, or what it escapes. */
    method PutUnescaped(source: Text, i: nat, c: byte, name: nat) returns (ok: bool, next: nat, nameEnd: nat)
      requires i <= |source| == nameBuffer.Length && name < i && error.None?
      modifies nameBuffer, this`error
      ensures nameBuffer[..name] == old(nameBuffer[..name])
      ensures match Pointer.Unescape(source, i, c)
              case Bad(code, offset) => !ok && error == Some((code, offset))
              case Piece(n, text) =>
                && ok && error.None? && next == n && nameEnd == name + |text| <= nameBuffer.Length
                && nameBuffer[name..nameEnd] == text
    {
      ok, next, nameEnd := false, i, name;
      var put := c;
      if c == TILDE {
        if i < |source| && source[i] == ZERO {
          put := TILDE;
        } else if i < |source| && source[i] == ONE {
          put := SLASH;
        } else {
          error := Some((Pointer.InvalidEscape, i));
          return;
        }
        next := i + 1;
      }
      nameBuffer[name] := put;
      nameEnd := name + 1;
      ok := true;
    }

    /** What the in-situ output stream puts. */
    method PutAll(name: nat, w: Text)
      requires name + |w| <= nameBuffer.Length
      modifies nameBuffer
      ensures nameBuffer[..name] == old(nameBuffer[..name])
      ensures nameBuffer[name..name + |w|] == w
    {
      var k := 0;
      while k < |w|
        invariant k <= |w| && nameBuffer[..name] == old(nameBuffer[..name]) && nameBuffer[name..name + k] == w[..k]
      {
        nameBuffer[name + k] := w[k];
        k := k + 1;
        assert nameBuffer[name..name + k] == nameBuffer[name..name + k - 1] + [w[k - 1]];
      }
    }

    /** The inner loop: one name, put from `name` on. */
    method ParseName(source: Text, start: nat, fragment: bool, name: nat) returns (ok: bool, next: nat, nameEnd: nat)
      requires start <= |source| == nameBuffer.Length && name + (if fragment then 2 else 1) <= start
      requires error.None?
      modifies nameBuffer, this`error
      ensures nameBuffer[..name] == old(nameBuffer[..name])
      ensures match Pointer.ParseName(source, start, fragment, [])
              case Bad(code, offset) => !ok && error == Some((code, offset))
              case Piece(n, text) =>
                && ok && error.None? && next == n && nameEnd == name + |text|
                && nameEnd + (if fragment then 2 else 1) <= next
                && nameBuffer[name..nameEnd] == text
    {
      hide Pointer.ParseChar;
      var i := start;
      nameEnd := name;
      assert nameBuffer[name..name] == [];
      while i < |source| && source[i] != SLASH
        invariant i <= |source| && name <= nameEnd && nameEnd + (if fragment then 2 else 1) <= i && error.None?
        invariant nameBuffer[..name] == old(nameBuffer[..name])
        invariant Pointer.ParseName(source, start, fragment, [])
                  == Pointer.ParseName(source, i, fragment, nameBuffer[name..nameEnd])
        decreases |source| - i
      {
        ghost var before := nameBuffer[..];
        ghost var q := nameEnd;
        var ok1, i1, end1 := ParseCharacter(source, i, fragment, nameEnd);
        if !ok1 {
          return false, i, nameEnd;
        }
        SameFront(before, nameBuffer[..], name, q, end1);
        i, nameEnd := i1, end1;
      }
      ok, next := true, i;
    }

    /** What was in front of a position is still there. */
    lemma SameFront(before: Text, now: Text, name: nat, q: nat, end: nat)
      requires name <= q <= end <= |now| == |before| && now[..q] == before[..q]
      ensures now[..name] == before[..name] && now[name..end] == before[name..q] + now[q..end]
    {
      assert now[..q][..name] == now[..name] && before[..q][..name] == before[..name];
      assert now[..q][name..] == now[name..q] && before[..q][name..] == before[name..q];
    }

    /** The outer loop. */
    method ParseTokens(source: Text, start: nat, fragment: bool)
      requires start <= |source| == nameBuffer.Length && start == (if fragment then 1 else 0)
      requires (fragment ==> source[0] == HASH) && (start < |source| ==> source[start] == SLASH)
      requires tokens.Length == Slashes(source) && error.None?
      modifies this`tokenCount, this`error, nameBuffer, tokens
      ensures Is(Pointer.ParseTokens(source, start, fragment, []))
    {
      hide Pointer.ParseName, Pointer.IndexOf, Holds, Slashes;
      var i, name, token := start, 0, 0;
      ghost var done: seq<Pointer.Token> := [];
      NothingHeld(source, start);
      while i < |source|
        invariant i <= |source| && (i < |source| ==> source[i] == SLASH)
        invariant name + (if fragment then 1 else 0) <= i && token == |done| && error.None?
        invariant token == Slashes(source[..i])
        invariant Holds(nameBuffer[..], tokens[..], done, name)
        invariant Pointer.ParseTokens(source, start, fragment, []) == Pointer.ParseTokens(source, i, fragment, done)
        decreases |source| - i
      {
        ghost var buffer, raws, q := nameBuffer[..], tokens[..], name;
        var ok, next, nameEnd := ParseName(source, i + 1, fragment, name);
        if !ok {
          tokenCount := 0;
          return;
        }
        var w := nameBuffer[name..nameEnd];
        nameBuffer[nameEnd] := NUL;
        var index := ConvertIndex(w);
        assert token < tokens.Length by { OneSlash(source, i, next, fragment); }
        OneSlash(source, i, next, fragment);
        tokens[token] := RawToken(name, nameEnd - name, index);
        assert nameBuffer[name..nameEnd] == w;
        MoreHeld(buffer, nameBuffer[..], raws, tokens[..], done, name, nameEnd, index);
        done := done + [Pointer.Token(w, index)];
        token := token + 1;
        name := nameEnd + 1;
        i := next;
      }
      assert source[..i] == source;
      tokenCount := token;
      AllHeld(nameBuffer[..], tokens[..], done, name);
    }

    /** The constructor that parses. */
    constructor (source: Text)
      ensures Is(Pointer.Parse(source))
      ensures fresh(nameBuffer) && fresh(tokens)
    {
      var count := CountSlashes(source);
      tokenCount, error := 0, None;
      nameBuffer := new byte[|source|];
      tokens := new RawToken[count];
      new;
      var fragment := |source| > 0 && source[0] == HASH;
      var i := if fragment then 1 else 0;
      if i != |source| && source[i] != SLASH {
        error := Some((Pointer.TokenMustBeginWithSolidus, i));
        return;
      }
      ParseTokens(source, i, fragment);
    }

    /** `Stringify` and `StringifyUriFragment`. What a failing call leaves in the stream is not specified. */
    method Stringify(ghost ts: seq<Pointer.Token>, fragment: bool) returns (ok: bool, os: Text)
      requires Is(Pointer.Tokens(ts))
      ensures ok == Pointer.Stringify(ts, fragment).Some?
      ensures ok ==> os == Pointer.Stringify(ts, fragment).value
      ensures !ok ==> exists t | 0 <= t < |ts| :: FailsAt(ts, t, fragment, os)
    {
      hide Pointer.StringifyTokens, Pointer.StringifyName, Pointer.Stringify;
      NoToken(ts, fragment);
      os := if fragment then [HASH] else [];
      var t := 0;
      while t < tokenCount
        invariant t <= tokenCount
        invariant Leads(Pointer.Stringify(ts, fragment), os, Pointer.StringifyTokens(ts, t, fragment))
        invariant Pointer.Stringify(ts[..t], fragment) == Some(os)
      {
        assert TokenHolds(nameBuffer[..], tokens[t], ts[t], nameBuffer.Length);
        var name := nameBuffer[tokens[t].name..tokens[t].name + tokens[t].length];
        assert name == ts[t].name;
        var ok1, w := StringifyName(name, fragment);
        TokenLeads(ts, t, fragment);
        if !ok1 {
          assert FailsAt(ts, t, fragment, os + [SLASH] + w);
          return false, os + [SLASH] + w;
        }
        TokenEnds(ts, t, fragment);
        LeadsOn(Pointer.Stringify(ts, fragment), os, [SLASH] + w, Pointer.StringifyTokens(ts, t + 1, fragment));
        os := os + ([SLASH] + w);
        t := t + 1;
      }
      NothingLeads(ts, fragment);
      assert os + [] == os;
      ok := true;
    }

    /** The name of token `t` cannot be transcoded; everything in front of it has been put. */
    ghost predicate FailsAt(ts: seq<Pointer.Token>, t: nat, fragment: bool, os: Text)
      requires t < |ts|
    {
      && Pointer.StringifyName(ts[t].name, 0, fragment).None?
      && Pointer.Stringify(ts[..t], fragment).Some?
      && Pointer.Stringify(ts[..t], fragment).value + [SLASH] <= os
    }

    lemma {:induction false} NoToken(ts: seq<Pointer.Token>, fragment: bool)
      ensures var hash := if fragment then [HASH] else [];
              && Pointer.Stringify(ts[..0], fragment) == Some(hash)
              && Leads(Pointer.Stringify(ts, fragment), hash, Pointer.StringifyTokens(ts, 0, fragment))
    {
      hide Pointer.StringifyName;
      var hash: Text := if fragment then [HASH] else [];
      assert hash + [] == hash;
    }

    /** One token more at the end. */
    lemma {:induction false} TokenEnds(ts: seq<Pointer.Token>, t: nat, fragment: bool)
      requires t < |ts| && Pointer.StringifyName(ts[t].name, 0, fragment).Some?
      requires Pointer.Stringify(ts[..t], fragment).Some?
      ensures Pointer.Stringify(ts[..t + 1], fragment)
              == Some(Pointer.Stringify(ts[..t], fragment).value
                      + ([SLASH] + Pointer.StringifyName(ts[t].name, 0, fragment).value))
    {
      hide Pointer.StringifyName, Pointer.StringifyTokens;
      TokenEndsFrom(ts, 0, t, fragment);
      Regroup(if fragment then [HASH] else [], Pointer.StringifyTokens(ts[..t], 0, fragment).value,
              [SLASH] + Pointer.StringifyName(ts[t].name, 0, fragment).value);
    }

    lemma {:induction false} TokenEndsFrom(ts: seq<Pointer.Token>, k: nat, t: nat, fragment: bool)
      requires k <= t < |ts| && Pointer.StringifyName(ts[t].name, 0, fragment).Some?
      requires Pointer.StringifyTokens(ts[..t], k, fragment).Some?
      ensures Pointer.StringifyTokens(ts[..t + 1], k, fragment)
              == Some(Pointer.StringifyTokens(ts[..t], k, fragment).value
                      + ([SLASH] + Pointer.StringifyName(ts[t].name, 0, fragment).value))
      decreases t - k
    {
      hide Pointer.StringifyName;
      var last := [SLASH] + Pointer.StringifyName(ts[t].name, 0, fragment).value;
      if k == t {
        assert last + [] == last && [] + last == last;
      } else {
        TokenEndsFrom(ts, k + 1, t, fragment);
        assert ts[..t + 1][k] == ts[k] == ts[..t][k];
        Regroup([SLASH] + Pointer.StringifyName(ts[k].name, 0, fragment).value,
                Pointer.StringifyTokens(ts[..t], k + 1, fragment).value, last);
      }
    }

    /** One name. */
    method StringifyName(name: Text, fragment: bool) returns (ok: bool, os: Text)
      ensures ok == Pointer.StringifyName(name, 0, fragment).Some?
      ensures ok ==> os == Pointer.StringifyName(name, 0, fragment).value
    {
      hide Pointer.StringifyName, Utf8.Decode, Pointer.PercentEncode;
      os := [];
      var j := 0;
      Begins(Pointer.StringifyName(name, 0, fragment));
      while j < |name|
        invariant j <= |name|
        invariant Leads(Pointer.StringifyName(name, 0, fragment), os, Pointer.StringifyName(name, j, fragment))
        decreases |name| - j
      {
        Proof.StringifyStep(name, j, fragment);
        var c := name[j];
        var put, next := [c], j + 1;
        if c == TILDE {
          put := [TILDE, ZERO];
        } else if c == SLASH {
          put := [TILDE, ONE];
        } else if fragment && Pointer.NeedPercentEncode(c) {
          var d := Utf8.Decode(name, j);
          if !d.ok {
            return false, os;
          }
          put, next := Pointer.PercentEncode(name[j..d.pos]), d.pos;
        }
        LeadsOn(Pointer.StringifyName(name, 0, fragment), os, put, Pointer.StringifyName(name, next, fragment));
        os := os + put;
        j := next;
      }
      Proof.NothingStringified(name, fragment);
      assert os + [] == os;
      ok := true;
    }

    /** All that is to be written is what has been written and what will be. */
    ghost predicate Leads(all: Option<Text>, os: Text, rest: Option<Text>) {
      all == Pointer.Prepend(os, rest)
    }

    lemma Begins(all: Option<Text>)
      ensures Leads(all, [], all)
    {
      if all.Some? { assert [] + all.value == all.value; }
    }

    lemma LeadsOn(all: Option<Text>, os: Text, put: Text, rest: Option<Text>)
      requires Leads(all, os, Pointer.Prepend(put, rest))
      ensures Leads(all, os + put, rest)
    {
      if rest.Some? { Regroup(os, put, rest.value); }
    }

    lemma TokenLeads(ts: seq<Pointer.Token>, t: nat, fragment: bool)
      requires t < |ts|
      ensures var name := Pointer.StringifyName(ts[t].name, 0, fragment);
              Pointer.StringifyTokens(ts, t, fragment)
              == if name.None? then None
                 else Pointer.Prepend([SLASH] + name.value, Pointer.StringifyTokens(ts, t + 1, fragment))
    {
      hide Pointer.StringifyName;
    }

    lemma {:induction false} NothingLeads(ts: seq<Pointer.Token>, fragment: bool)
      ensures Pointer.StringifyTokens(ts, |ts|, fragment) == Some([])
    {
    }
  }
}
