/**
 `GenericReader`: a cursor over the text, a parse result, a stack, and methods that move them.
 Each method is proved against the function with the same name in JsonLexical, JsonNumber,
 JsonGrammar and JsonAutomaton.
 */
module JsonReader {
  import opened Bytes
  import opened Decimal
  import opened JsonTypes
  import opened Optional
  import Lexical = JsonLexical
  import Number = JsonNumber
  import Grammar = JsonGrammar
  import Automaton = JsonAutomaton
  import Equivalence = JsonEquivalence
  import Utf8

  newtype uint32 = x: int | 0 <= x < 0x1_0000_0000
  newtype uint64 = x: int | 0 <= x < 0x1_0000_0000_0000_0000

  /** `~x + 1`, read as a signed number. */
  function Negate32(x: uint32): int {
    var n := (0x1_0000_0000 - x as int) % 0x1_0000_0000;
    if n < 0x8000_0000 then n else n - 0x1_0000_0000
  }

  function Negate64(x: uint64): int {
    var n := (0x1_0000_0000_0000_0000 - x as int) % 0x1_0000_0000_0000_0000;
    if n < 0x8000_0000_0000_0000 then n else n - 0x1_0000_0000_0000_0000
  }

  /** Once 17 significant digits have been taken, fraction digits no longer count. */
  lemma {:induction false} Saturated(s: Text, p: nat, positive: bool, sig: nat, expFrac: int)
    requires p <= |s| && sig >= 17
    ensures Number.ExtendDouble(s, p, positive, sig, expFrac) == expFrac
    decreases |s| - p
  {
    if IsDigit(Peek(s, p)) {
      Saturated(s, p + 1, positive, sig, expFrac);
    }
  }

  /** Behind an integer part that is a double already, the significand no longer matters. */
  lemma DoubleIgnoresSignificand(s: Text, start: nat, p: nat, v: nat, v': nat, sig: nat)
    requires p <= |s|
    ensures Number.ScanSuffix(s, start, p, true, v, sig) == Number.ScanSuffix(s, start, p, true, v', sig)
  {
  }

  /** Nor does it matter to the event of a double. */
  lemma DeliverIgnoresValue(o: Options, lexeme: Text, minus: bool, v: nat, v': nat, isSpecial: bool, out: seq<Event>,
                            end: nat, start: nat)
    ensures Number.Deliver(o, lexeme, minus, v, true, isSpecial, out, end, start)
         == Number.Deliver(o, lexeme, minus, v', true, isSpecial, out, end, start)
  {
  }

  /** The stack as the code keeps it: for each frame the enumerator of its return state, then its count. */
  function Flatten(frames: seq<Automaton.Frame>): (words: seq<nat>)
    ensures |words| == 2 * |frames|
  {
    if frames == [] then []
    else
      var top := frames[|frames| - 1];
      Flatten(frames[..|frames| - 1]) + [Code(top.ret), top.count]
  }

  /** The enumerators of the states that are pushed. */
  function Code(state: Automaton.State): nat {
    match state
    case StartState => 2
    case MemberValueState => 5
    case ElementState => 8
    case _ => 1
  }

  /** The cast from a stack entry back to a state. */
  function FromCode(code: nat): Automaton.State {
    if code == 2 then Automaton.StartState
    else if code == 5 then Automaton.MemberValueState
    else if code == 8 then Automaton.ElementState
    else Automaton.ErrorState
  }

  /** One character that is no hexadecimal digit spoils every longer run. */
  lemma {:induction false} NotAllHex(s: Text, p: nat, k: nat, n: nat)
    requires k <= n && !Lexical.AllHex(s, p, k)
    ensures !Lexical.AllHex(s, p, n)
  {
    if k < n {
      NotAllHex(s, p, k, n - 1);
    }
  }

  class Reader {
    const opt: Options
    const text: Text
    var pos: nat                // the input stream's cursor
    var out: seq<Event>         // what the handler has received
    var error: Option<Error>    // parseResult_
    var stack: seq<nat>         // stack_, but for the characters of a string while it is parsed
    ghost var frames: seq<Automaton.Frame>  // what the stack stands for

    constructor (opt: Options, text: Text)
      ensures this.opt == opt && this.text == text
      ensures pos == 0 && out == [] && error.None? && Stacked([])
    {
      this.opt := opt;
      this.text := text;
      pos, out, error, stack, frames := 0, [], None, [], [];
    }

    /** In the middle of the text, without an error so far. */
    ghost predicate Ready()
      reads this
    {
      pos <= |text| && error.None?
    }

    /** What the reader has done so far. */
    function Result(): Outcome
      reads this
    {
      if error.None? then Ok(pos, out) else Err(error.value, out)
    }

    /** The stack holds a pair for every open container. */
    ghost predicate Stacked(containers: seq<Automaton.Frame>)
      reads this
    {
      frames == containers && stack == Flatten(containers)
    }

    // Stream and handler

    method Consume(c: byte) returns (b: bool)
      requires pos <= |text| && c != NUL
      modifies this`pos
      ensures b == (Peek(text, old(pos)) == c)
      ensures pos == if b then old(pos) + 1 else old(pos)
      ensures pos <= |text|
    {
      b := Peek(text, pos) == c;
      if b {
        pos := pos + 1;
      }
    }

    method SetParseError(code: ErrorCode, offset: nat)
      requires error.None?
      modifies this`error
      ensures error == Some(Error(code, offset))
    {
      error := Some(Error(code, offset));
    }

    /** Call the handler. */
    method Send(e: Event) returns (b: bool)
      modifies this`out
      ensures out == old(out) + [e] && b == opt.accepts(out)
    {
      out := out + [e];
      b := opt.accepts(out);
    }

    // White space and comments

    method SkipWhitespace()
      requires pos <= |text|
      modifies this`pos
      ensures pos == Lexical.SkipSpaces(text, old(pos)) && pos <= |text|
    {
      while Lexical.IsSpace(Peek(text, pos))
        invariant pos <= |text|
        invariant Lexical.SkipSpaces(text, old(pos)) == Lexical.SkipSpaces(text, pos)
        decreases |text| - pos
      {
        pos := pos + 1;
      }
    }

    method SkipWhitespaceAndComments()
      requires Ready()
      modifies this`pos, this`error
      ensures pos <= |text|
      ensures Result() == Lexical.Skip(opt, text, old(pos), out)
    {
      SkipWhitespace();
      if opt.comments {
        while Peek(text, pos) == SLASH
          invariant Ready()
          invariant Lexical.Skip(opt, text, old(pos), out) == Lexical.SkipComments(text, pos, out)
          decreases |text| - pos
        {
          pos := pos + 1;
          var block := Consume(STAR);
          if block {
            SkipBlockComment();
            if error.Some? {
              return;
            }
          } else {
            var line := Consume(SLASH);
            if line {
              SkipLineComment();
            } else {
              SetParseError(UnspecificSyntaxError, pos);
              return;
            }
          }
          SkipWhitespace();
        }
      }
    }

    /** The loop behind the opening of a block comment. */
    method SkipBlockComment()
      requires Ready()
      modifies this`pos, this`error
      ensures pos <= |text|
      ensures Result() == Lexical.BlockCommentEnd(text, old(pos), out)
    {
      while true
        invariant Ready()
        invariant Lexical.BlockCommentEnd(text, old(pos), out) == Lexical.BlockCommentEnd(text, pos, out)
        decreases |text| - pos
      {
        if Peek(text, pos) == NUL {
          SetParseError(UnspecificSyntaxError, pos);
          return;
        }
        var star := Consume(STAR);
        if star {
          var slash := Consume(SLASH);
          if slash {
            return;
          }
        } else {
          pos := pos + 1;
        }
      }
    }

    /** The loop behind the opening of a line comment. */
    method SkipLineComment()
      requires Ready()
      modifies this`pos
      ensures pos == Lexical.LineCommentEnd(text, old(pos)) && pos <= |text|
    {
      var open := true;
      while open && Peek(text, pos) != NUL
        invariant Ready()
        invariant Lexical.LineCommentEnd(text, old(pos)) == if open then Lexical.LineCommentEnd(text, pos) else pos
        decreases |text| - pos
      {
        open := text[pos] != LINE_FEED;
        pos := pos + 1;
      }
    }

    // Literals

    /** `ParseNull`, `ParseTrue`, `ParseFalse`: take the first character, consume the others one by one. */
    method ParseLiteral(word: Text, e: Event)
      requires Ready() && |word| > 0 && NUL !in word && Peek(text, pos) == word[0]
      modifies this`pos, this`out, this`error
      ensures pos <= |text|
      ensures Result() == Lexical.ParseLiteral(opt, text, old(pos), word, e, old(out))
    {
      var start := pos;
      var same := true;
      var k := 0;
      while same && k < |word|
        invariant k <= |word| && pos == start + k && pos <= |text|
        invariant error.None? && out == old(out) && (!same ==> k < |word|)
        invariant Lexical.MatchLength(text, start, word)
               == k + if same then Lexical.MatchLength(text, pos, word[k..]) else 0
        decreases same, |word| - k
      {
        assert word[k..][1..] == word[k + 1..];
        same := Consume(word[k]);
        if same {
          k := k + 1;
        }
      }
      if same {
        var b := Send(e);
        if !b {
          SetParseError(Termination, pos);
        }
      } else {
        SetParseError(ValueInvalid, pos);
      }
    }

    // Strings

    /** Four hexadecimal digits; an error is reported at the backslash. */
    method ParseHex4(escapeOffset: nat) returns (codepoint: nat)
      requires Ready()
      modifies this`pos, this`error
      ensures pos <= |text|
      ensures if Lexical.IsHex4(text, old(pos))
              then error.None? && pos == old(pos) + 4 && codepoint == Lexical.Hex4(text, old(pos))
              else error == Some(Error(StringUnicodeEscapeInvalidHex, escapeOffset))
    {
      codepoint := 0;
      var i := 0;
      ghost var p := pos;
      while i < 4
        invariant i <= 4 && Ready() && pos == p + i
        invariant Lexical.AllHex(text, p, i) && codepoint == Lexical.HexNumber(text, p, i)
      {
        var c := Peek(text, pos);
        codepoint := codepoint * 16 + c;
        if ZERO <= c <= NINE {
          codepoint := codepoint - ZERO;
        } else if UPPER_A <= c <= UPPER_F {
          codepoint := codepoint - (UPPER_A - 10);
        } else if LOWER_A <= c <= LOWER_F {
          codepoint := codepoint - (LOWER_A - 10);
        } else {
          NotAllHex(text, p, i + 1, 4);
          SetParseError(StringUnicodeEscapeInvalidHex, escapeOffset);
          return;
        }
        pos := pos + 1;
        i := i + 1;
      }
    }

    /** An escape sequence; the cursor is at the backslash. */
    method ParseEscape() returns (str: Text)
      requires Ready() && Peek(text, pos) == BACKSLASH
      modifies this`pos, this`error
      ensures pos <= |text|
      ensures match Lexical.ScanEscape(text, old(pos))
              case Scanned(q, w) => error.None? && pos == q && str == w
              case Failed(e) => error == Some(e)
    {
      str := [];
      var escapeOffset := pos;
      pos := pos + 1;
      var e := Peek(text, pos);
      if Lexical.Unescaped(e) != NUL {
        pos := pos + 1;
        str := [Lexical.Unescaped(e)];
      } else if e == LOWER_U {
        pos := pos + 1;
        var codepoint := ParseHex4(escapeOffset);
        if error.Some? {
          return;
        }
        if 0xD800 <= codepoint <= 0xDBFF {
          var backslash := Consume(BACKSLASH);
          var u := false;
          if backslash {
            u := Consume(LOWER_U);
          }
          if !backslash || !u {
            SetParseError(StringUnicodeSurrogateInvalid, escapeOffset);
            return;
          }
          var codepoint2 := ParseHex4(escapeOffset);
          if error.Some? {
            return;
          }
          if codepoint2 < 0xDC00 || codepoint2 > 0xDFFF {
            SetParseError(StringUnicodeSurrogateInvalid, escapeOffset);
            return;
          }
          codepoint := (codepoint - 0xD800) * 0x400 + (codepoint2 - 0xDC00) + 0x1_0000;
        }
        str := Utf8.Encode(codepoint);
      } else {
        SetParseError(StringEscapeInvalid, escapeOffset);
      }
    }

    /** Behind the opening quotation mark. */
    method ParseStringToStream() returns (str: Text)
      requires Ready()
      modifies this`pos, this`error
      ensures pos <= |text|
      ensures match Lexical.ScanString(opt, text, old(pos), [])
              case Scanned(q, w) => error.None? && pos == q && str == w
              case Failed(e) => error == Some(e)
    {
      str := [];
      while Peek(text, pos) != QUOTE
        invariant Ready()
        invariant Lexical.ScanString(opt, text, old(pos), []) == Lexical.ScanString(opt, text, pos, str)
        decreases |text| - pos
      {
        var c := Peek(text, pos);
        if c == BACKSLASH {
          var w := ParseEscape();
          if error.Some? {
            return;
          }
          str := str + w;
        } else if c < SPACE {
          if c == NUL {
            SetParseError(StringMissQuotationMark, pos);
          } else {
            SetParseError(StringInvalidEncoding, pos);
          }
          return;
        } else if opt.validateEncoding {
          var d := Utf8.Decode(text, pos);
          if !d.ok {
            SetParseError(StringInvalidEncoding, pos);
            return;
          }
          str := str + text[pos..d.pos];
          pos := d.pos;
        } else {
          str := str + [text[pos]];
          pos := pos + 1;
        }
      }
      pos := pos + 1;
    }

    method ParseString(isKey: bool)
      requires Ready() && Peek(text, pos) == QUOTE
      modifies this`pos, this`out, this`error
      ensures pos <= |text|
      ensures Result() == Lexical.ParseString(opt, text, old(pos), isKey, old(out))
    {
      pos := pos + 1;
      var str := ParseStringToStream();
      if error.Some? {
        return;
      }
      var b := Send(if isKey then Key(str) else String(str));
      if !b {
        SetParseError(Termination, pos);
      }
    }

    // Numbers

    /** The integer part, when it does not begin with zero: 32-bit, 64-bit and then double accumulation. */
    method ParseDigits(minus: bool)
      returns (i: uint32, i64: uint64, use64bit: bool, useDouble: bool, significandDigit: nat)
      requires Ready() && ONE <= Peek(text, pos) <= NINE
      modifies this`pos
      ensures pos == DigitsEnd(text, old(pos)) && old(pos) < pos <= |text|
      ensures AllDigits(text[old(pos)..pos])
      ensures var v := Value(text[old(pos)..pos]);
              && useDouble == !Number.Fits64(minus, v)
              && (!useDouble ==> v == if use64bit then i64 as int else i as int)
              && (!useDouble ==> use64bit == if minus then v > Number.TWO_31 else v >= Number.TWO_32)
      ensures if useDouble then significandDigit >= 17 else significandDigit == pos - old(pos) - 1
    {
      ghost var p := pos;
      assert text[p..p] == [];
      ValueStep(text, p, p);
      i, i64, use64bit, useDouble, significandDigit := (text[pos] - ZERO) as uint32, 0, false, false, 0;
      pos := pos + 1;
      i, i64, use64bit, significandDigit := ParseDigits32(minus, p, i);
      if use64bit {
        i64, useDouble, significandDigit := ParseDigits64(minus, p, i64, significandDigit);
      }
      if useDouble {
        while IsDigit(Peek(text, pos))
          invariant Ready() && p < pos && AllDigits(text[p..pos])
          invariant !Number.Fits64(minus, Value(text[p..pos]))
                    || (IsDigit(Peek(text, pos)) && Overflows64(minus, p, pos))
          decreases |text| - pos
        {
          ValueStep(text, p, pos);
          pos := pos + 1;
        }
      }
      DigitsEndUnique(text, p, pos);
    }

    /** The accumulator after one more digit. */
    function Next(i: nat, p: nat): nat
      requires IsDigit(Peek(text, p))
    {
      i * 10 + (Peek(text, p) - ZERO)
    }

    /** The next digit would take the 64-bit accumulator beyond its range. */
    ghost predicate Overflows64(minus: bool, p: nat, q: nat)
      requires p <= q < |text| && AllDigits(text[p..q]) && IsDigit(text[q])
    {
      !Number.Fits64(minus, Next(Value(text[p..q]), q))
    }

    /** The 32-bit loop, behind the first digit at `p`. */
    method ParseDigits32(minus: bool, ghost p: nat, first: uint32)
      returns (i: uint32, i64: uint64, use64bit: bool, significandDigit: nat)
      requires Ready() && p < pos && AllDigits(text[p..pos]) && pos == p + 1
      requires first as int == Value(text[p..pos]) && first < 10
      modifies this`pos
      ensures old(pos) <= pos <= |text| && AllDigits(text[p..pos])
      ensures i as int == Value(text[p..pos]) && significandDigit == pos - p - 1
      ensures i as int <= if minus then Number.TWO_31 else Number.TWO_32 - 1
      ensures if use64bit
              then i64 as int == i as int && IsDigit(Peek(text, pos))
                   && Next(i as int, pos) > if minus then Number.TWO_31 else Number.TWO_32 - 1
              else !IsDigit(Peek(text, pos))
    {
      i, i64, use64bit, significandDigit := first, 0, false, 0;
      if minus {
        while IsDigit(Peek(text, pos))
          invariant Ready() && p < pos && AllDigits(text[p..pos])
          invariant i as int == Value(text[p..pos]) && i as int <= Number.TWO_31 && significandDigit == pos - p - 1
          decreases |text| - pos
        {
          if i >= 214748364 {
            if i != 214748364 || Peek(text, pos) > 0x38 {
              i64 := i as uint64;
              use64bit := true;
              return;
            }
          }
          ValueStep(text, p, pos);
          i := i * 10 + (text[pos] - ZERO) as uint32;
          pos := pos + 1;
          significandDigit := significandDigit + 1;
        }
      } else {
        while IsDigit(Peek(text, pos))
          invariant Ready() && p < pos && AllDigits(text[p..pos])
          invariant i as int == Value(text[p..pos]) && significandDigit == pos - p - 1
          decreases |text| - pos
        {
          if i >= 429496729 {
            if i != 429496729 || Peek(text, pos) > 0x35 {
              i64 := i as uint64;
              use64bit := true;
              return;
            }
          }
          ValueStep(text, p, pos);
          i := i * 10 + (text[pos] - ZERO) as uint32;
          pos := pos + 1;
          significandDigit := significandDigit + 1;
        }
      }
    }

    /** The 64-bit loop. */
    method ParseDigits64(minus: bool, ghost p: nat, start: uint64, count: nat)
      returns (i64: uint64, useDouble: bool, significandDigit: nat)
      requires Ready() && p < pos && AllDigits(text[p..pos]) && IsDigit(Peek(text, pos))
      requires start as int == Value(text[p..pos]) && start as int <= 0xFFFF_FFFF && count == pos - p - 1
      requires Next(start as int, pos) > if minus then Number.TWO_31 else Number.TWO_32 - 1
      modifies this`pos
      ensures old(pos) < pos <= |text| && AllDigits(text[p..pos])
      ensures i64 as int == Value(text[p..pos]) && Number.Fits64(minus, i64 as int)
      ensures i64 as int > if minus then Number.TWO_31 else Number.TWO_32 - 1
      ensures significandDigit == pos - p - 1
      ensures if useDouble then IsDigit(Peek(text, pos)) && Overflows64(minus, p, pos) && significandDigit >= 17
              else !IsDigit(Peek(text, pos))
    {
      i64, useDouble, significandDigit := start, false, count;
      if minus {
        while IsDigit(Peek(text, pos))
          invariant Ready() && p < pos && AllDigits(text[p..pos]) && old(pos) <= pos
          invariant i64 as int == Value(text[p..pos]) && i64 as int <= Number.TWO_63 && significandDigit == pos - p - 1
          invariant if pos == old(pos) then i64 == start else i64 as int >= Next(start as int, old(pos))
          decreases |text| - pos
        {
          if i64 >= 0x0CCC_CCCC_CCCC_CCCC {
            if i64 != 0x0CCC_CCCC_CCCC_CCCC || Peek(text, pos) > 0x38 {
              useDouble := true;
              ManyDigits(p, i64);
              return;
            }
          }
          ValueStep(text, p, pos);
          i64 := i64 * 10 + (text[pos] - ZERO) as uint64;
          pos := pos + 1;
          significandDigit := significandDigit + 1;
        }
      } else {
        while IsDigit(Peek(text, pos))
          invariant Ready() && p < pos && AllDigits(text[p..pos]) && old(pos) <= pos
          invariant i64 as int == Value(text[p..pos]) && significandDigit == pos - p - 1
          invariant if pos == old(pos) then i64 == start else i64 as int >= Next(start as int, old(pos))
          decreases |text| - pos
        {
          if i64 >= 0x1999_9999_9999_9999 {
            if i64 != 0x1999_9999_9999_9999 || Peek(text, pos) > 0x35 {
              useDouble := true;
              ManyDigits(p, i64);
              return;
            }
          }
          ValueStep(text, p, pos);
          i64 := i64 * 10 + (text[pos] - ZERO) as uint64;
          pos := pos + 1;
          significandDigit := significandDigit + 1;
        }
      }
    }

    /** An accumulator near the end of its range has taken at least 18 digits. */
    lemma ManyDigits(p: nat, i64: uint64)
      requires p <= pos <= |text| && AllDigits(text[p..pos]) && i64 as int == Value(text[p..pos])
      requires i64 >= 0x0CCC_CCCC_CCCC_CCCC
      ensures pos - p >= 18
    {
      assert Pow10(6) == 1_000_000;
      assert Pow10(12) == 1_000_000_000_000;
      assert Pow10(17) == 100_000_000_000_000_000;
      if pos - p <= 17 {
        ValueBelow(text[p..pos], 17);
      }
    }

    method ParseNanOrInf()
      requires Ready() && (Peek(text, pos) == UPPER_N || Peek(text, pos) == UPPER_I)
      modifies this`pos, this`error
      ensures pos <= |text|
      ensures match Number.ScanNanOrInf(text, old(pos))
              case Special(q) => error.None? && pos == q
              case Invalid(offset) => error == Some(Error(ValueInvalid, offset))
    {
      hide Lexical.MatchLength;
      var same: bool;
      if Peek(text, pos) == UPPER_N {
        same := ConsumeWord(Number.NAN_WORD);
      } else {
        same := ConsumeWord(Number.INF_WORD);
        if same && Peek(text, pos) == LOWER_I {
          same := ConsumeWord(Number.INITY_WORD);
        }
      }
      if !same {
        SetParseError(ValueInvalid, pos);
      }
    }

    /** A chain of `Consume` calls joined by `&&`. */
    method ConsumeWord(word: Text) returns (same: bool)
      requires Ready() && NUL !in word
      modifies this`pos
      ensures pos == old(pos) + Lexical.MatchLength(text, old(pos), word) && pos <= |text|
      ensures same == (Lexical.MatchLength(text, old(pos), word) == |word|)
    {
      var start := pos;
      var k := 0;
      same := true;
      while same && k < |word|
        invariant k <= |word| && pos == start + k && pos <= |text| && (!same ==> k < |word|)
        invariant Lexical.MatchLength(text, start, word)
               == k + if same then Lexical.MatchLength(text, pos, word[k..]) else 0
        decreases same, |word| - k
      {
        assert word[k..][1..] == word[k + 1..];
        same := Consume(word[k]);
        if same {
          k := k + 1;
        }
      }
    }

    /** The digits behind the decimal point, while the significand is a 64-bit integer. */
    method ExtendInteger(start: uint64, count: nat) returns (i64: uint64, significandDigit: nat, expFrac: int)
      requires Ready()
      modifies this`pos
      ensures old(pos) <= pos <= |text|
      ensures Number.ExtendInteger(text, old(pos), start as int, count, 0)
              == (pos, i64 as int, significandDigit, expFrac)
    {
      i64, significandDigit, expFrac := start, count, 0;
      while IsDigit(Peek(text, pos)) && i64 <= 0x1F_FFFF_FFFF_FFFF
        invariant Ready() && old(pos) <= pos
        invariant Number.ExtendInteger(text, old(pos), start as int, count, 0)
               == Number.ExtendInteger(text, pos, i64 as int, significandDigit, expFrac)
        decreases |text| - pos
      {
        i64 := i64 * 10 + (text[pos] - ZERO) as uint64;
        pos := pos + 1;
        expFrac := expFrac - 1;
        if i64 != 0 {
          significandDigit := significandDigit + 1;
        }
      }
    }

    /** The digits behind the decimal point, once the significand is a double; `big` stands for d > 0. */
    method ExtendDouble(big: bool, count: nat, start: int) returns (expFrac: int)
      requires Ready()
      modifies this`pos
      ensures pos == DigitsEnd(text, old(pos)) && pos <= |text|
      ensures expFrac == Number.ExtendDouble(text, old(pos), big, count, start)
    {
      var positive, significandDigit := big, count;
      expFrac := start;
      while IsDigit(Peek(text, pos))
        invariant Ready()
        invariant DigitsEnd(text, old(pos)) == DigitsEnd(text, pos)
        invariant Number.ExtendDouble(text, old(pos), big, count, start)
               == Number.ExtendDouble(text, pos, positive, significandDigit, expFrac)
        decreases |text| - pos
      {
        if significandDigit < 17 {
          positive := positive || text[pos] != ZERO;
          expFrac := expFrac - 1;
          if positive {
            significandDigit := significandDigit + 1;
          }
        }
        pos := pos + 1;
      }
    }

    /** The digits behind the decimal point. */
    method ParseFraction(useDouble: bool, start: uint64, count: nat) returns (expFrac: int)
      requires Ready() && (useDouble ==> count >= 17)
      modifies this`pos
      ensures pos == DigitsEnd(text, old(pos)) && pos <= |text|
      ensures expFrac == Number.FractionExponent(text, old(pos), useDouble, start as int,
                                                 if useDouble then 17 else count)
    {
      ghost var p := pos;
      if useDouble {
        Saturated(text, p, true, 17, 0);
        Saturated(text, p, true, count, 0);
        expFrac := ExtendDouble(true, count, 0);
      } else {
        var i64, significandDigit, e := ExtendInteger(start, count);
        Number.DigitsEndSplit(text, p, pos);
        expFrac := ExtendDouble(i64 > 0, significandDigit, e);
      }
    }

    /**
     The exponent, if there is one. `exp` is a 32-bit int in the code: it stays one in every turn of the
     loops, and so does its sum with `expFrac`, as long as not too many fraction digits were counted.
     */
    method ParseExponent(start: nat, expFrac: int, double: bool) returns (useDouble: bool, exp: int)
      requires Ready() && expFrac <= 0
      modifies this`pos, this`error
      ensures pos <= |text|
      ensures match Number.ScanExponent(text, start, old(pos), expFrac, double)
              case Suffix(end, isDouble) => error.None? && pos == end && useDouble == isDouble
              case Malformed(e) => error == Some(e)
      ensures error.None? ==> exp == Number.ExponentOf(text, old(pos), expFrac)
      ensures expFrac >= -Number.MOST_FRACTION_DIGITS ==>
                Number.INT_MIN <= exp <= Number.INT_MAX && Number.INT_MIN <= exp + expFrac <= Number.INT_MAX
    {
      useDouble, exp := double, 0;
      var mark, expMinus := ExponentMark();
      if !mark {
        return;
      }
      useDouble := true;
      if !IsDigit(Peek(text, pos)) {
        SetParseError(NumberMissExponent, pos);
        return;
      }
      if expMinus {
        exp := ParseNegativeExponent(expFrac);
        exp := -exp;
      } else {
        exp := ParsePositiveExponent(start, expFrac);
      }
    }

    /** The letter that begins an exponent, and the sign behind it. */
    method ExponentMark() returns (mark: bool, expMinus: bool)
      requires Ready()
      modifies this`pos
      ensures mark == Number.IsExponentMark(Peek(text, old(pos))) && pos <= |text|
      ensures !mark ==> pos == old(pos)
      ensures mark ==> var sign := Peek(text, old(pos) + 1);
              && pos == old(pos) + (if sign == PLUS || sign == MINUS then 2 else 1)
              && expMinus == (sign == MINUS)
    {
      expMinus := false;
      mark := Consume(LOWER_E);
      if !mark {
        mark := Consume(UPPER_E);
      }
      if mark {
        var plus := Consume(PLUS);
        if !plus {
          expMinus := Consume(MINUS);
        }
      }
    }

    /** The first digit of an exponent. */
    method FirstExponentDigit(ghost limit: int) returns (exp: int)
      requires Ready() && IsDigit(Peek(text, pos))
      modifies this`pos
      ensures pos == old(pos) + 1 && pos <= |text| && AllDigits(text[old(pos)..pos])
      ensures exp == Number.Accumulate(text[old(pos)..pos], limit) && 0 <= exp <= 9
    {
      exp := text[pos] - ZERO;
      assert text[pos..pos + 1] == [text[pos]];
      pos := pos + 1;
    }

    /** One more digit of an exponent. */
    lemma {:induction false} AccumulateStep(p: nat, q: nat, limit: int)
      requires p < q < |text| && AllDigits(text[p..q]) && IsDigit(text[q])
      ensures AllDigits(text[p..q + 1])
      ensures var exp := Number.Accumulate(text[p..q], limit);
              Number.Accumulate(text[p..q + 1], limit)
              == if q - p > 1 && exp > limit then exp else exp * 10 + (text[q] - ZERO)
    {
      ValueStep(text, p, q);
      assert text[p..q + 1][..q - p] == text[p..q];
    }

    /** The loop for a negative exponent: beyond the limit, digits are consumed only. */
    method ParseNegativeExponent(expFrac: int) returns (exp: int)
      requires Ready() && expFrac <= 0 && IsDigit(Peek(text, pos))
      modifies this`pos
      ensures pos == DigitsEnd(text, old(pos)) && old(pos) < pos <= |text| && AllDigits(text[old(pos)..pos])
      ensures exp == Number.Accumulate(text[old(pos)..pos], Number.NegativeLimit(expFrac))
      ensures expFrac >= -Number.MOST_FRACTION_DIGITS ==> exp <= Number.INT_MAX && expFrac - exp >= Number.INT_MIN
    {
      hide Number.Accumulate, Number.NegativeLimit, DigitsEnd;
      ghost var p := pos;
      var maxExp := Number.NegativeLimit(expFrac);
      exp := FirstExponentDigit(maxExp);
      while IsDigit(Peek(text, pos))
        invariant Ready() && p < pos && AllDigits(text[p..pos])
        invariant exp == Number.Accumulate(text[p..pos], maxExp)
        invariant exp > maxExp && pos > p + 1 ==> !IsDigit(Peek(text, pos))
        decreases |text| - pos
      {
        AccumulateStep(p, pos, maxExp);
        exp := exp * 10 + (text[pos] - ZERO);
        pos := pos + 1;
        if exp > maxExp {
          ConsumeExponent(p, maxExp);
        }
      }
      DigitsEndUnique(text, p, pos);
      NegativeFits(expFrac, text[p..pos]);
    }

    lemma {:induction false} NegativeFits(expFrac: int, w: Text)
      requires expFrac <= 0 && AllDigits(w) && |w| > 0
      ensures expFrac >= -Number.MOST_FRACTION_DIGITS ==>
                var exp := Number.Accumulate(w, Number.NegativeLimit(expFrac));
                exp <= Number.INT_MAX && expFrac - exp >= Number.INT_MIN
    {
      Number.NegativeExponentExact(expFrac);
    }

    /** Consume the rest of an exponent that is beyond the limit. */
    method ConsumeExponent(ghost p: nat, ghost limit: int)
      requires Ready() && p + 1 < pos && AllDigits(text[p..pos]) && Number.Accumulate(text[p..pos], limit) > limit
      modifies this`pos
      ensures old(pos) <= pos <= |text| && AllDigits(text[p..pos]) && !IsDigit(Peek(text, pos))
      ensures Number.Accumulate(text[p..pos], limit) == Number.Accumulate(text[p..old(pos)], limit)
    {
      hide Number.Accumulate;
      while IsDigit(Peek(text, pos))
        invariant Ready() && old(pos) <= pos && AllDigits(text[p..pos])
        invariant Number.Accumulate(text[p..pos], limit) == Number.Accumulate(text[p..old(pos)], limit)
        decreases |text| - pos
      {
        AccumulateStep(p, pos, limit);
        pos := pos + 1;
      }
    }

    /** The loop for a positive exponent: beyond the limit, the number is too big. */
    method ParsePositiveExponent(start: nat, expFrac: int) returns (exp: int)
      requires Ready() && expFrac <= 0 && IsDigit(Peek(text, pos))
      modifies this`pos, this`error
      ensures pos <= |text|
      ensures if Value(text[old(pos)..DigitsEnd(text, old(pos))]) > Number.PositiveLimit(expFrac)
              then error == Some(Error(NumberTooBig, start))
              else error.None? && pos == DigitsEnd(text, old(pos)) && exp == Value(text[old(pos)..pos])
      ensures exp >= 0
      ensures expFrac >= -Number.MOST_FRACTION_DIGITS ==> exp <= Number.INT_MAX
    {
      ghost var p := pos;
      var maxExp := Number.PositiveLimit(expFrac);
      exp := FirstExponentDigit(maxExp);
      while IsDigit(Peek(text, pos))
        invariant Ready() && p < pos && AllDigits(text[p..pos])
        invariant exp == Number.Accumulate(text[p..pos], maxExp) && exp <= maxExp
        decreases |text| - pos
      {
        AccumulateStep(p, pos, maxExp);
        exp := exp * 10 + (text[pos] - ZERO);
        pos := pos + 1;
        assert expFrac >= -Number.MOST_FRACTION_DIGITS ==> exp <= Number.INT_MAX;
        if exp > maxExp {
          TooBig(p, pos, maxExp);
          SetParseError(NumberTooBig, start);
          return;
        }
      }
      DigitsEndUnique(text, p, pos);
      Number.AccumulateDecides(text[p..pos], maxExp);
    }

    /** A prefix of the digits that is beyond the limit puts all of them beyond it. */
    lemma {:induction false} TooBig(p: nat, q: nat, limit: int)
      requires p < q <= |text| && AllDigits(text[p..q]) && limit >= 9
      requires Number.Accumulate(text[p..q], limit) > limit
      ensures Value(text[p..DigitsEnd(text, p)]) > limit
    {
      var end := DigitsEnd(text, p);
      Number.AccumulateDecides(text[p..q], limit);
      Number.DigitsEndSplit(text, p, q);
      assert text[p..end][..q - p] == text[p..q];
      ValueMonotone(text[p..end], q - p);
    }

    /** The integer part, with the flags the code keeps about it. */
    method ParseInteger(minus: bool)
      returns (i: uint32, i64: uint64, use64bit: bool, useDouble: bool, useNanOrInf: bool, significandDigit: nat)
      requires Ready()
      modifies this`pos, this`error
      ensures pos <= |text|
      ensures var integer := Number.ScanInteger(opt, text, old(pos));
              if integer.Invalid? then error == Some(Error(ValueInvalid, integer.offset))
              else
                var v := if integer.Decimal? then Value(text[old(pos)..integer.end]) else 0;
                && error.None? && pos == integer.end && useNanOrInf == integer.Special?
                && useDouble == !Number.Fits64(minus, v)
                && (!useDouble ==> v == if use64bit then i64 as int else i as int)
                && (!useDouble ==> use64bit == if minus then v > Number.TWO_31 else v >= Number.TWO_32)
                && if useDouble then significandDigit >= 17
                   else significandDigit == Number.SignificantDigits(false, integer, old(pos))
    {
      i, i64, use64bit, useDouble, useNanOrInf, significandDigit := 0, 0, false, false, false, 0;
      if Peek(text, pos) == ZERO {
        assert text[pos..pos] == [];
        ValueStep(text, pos, pos);
        pos := pos + 1;
      } else if IsDigit(Peek(text, pos)) {
        i, i64, use64bit, useDouble, significandDigit := ParseDigits(minus);
      } else if opt.nanAndInf && (Peek(text, pos) == UPPER_I || Peek(text, pos) == UPPER_N) {
        ParseNanOrInf();
        useNanOrInf := true;
      } else {
        SetParseError(ValueInvalid, pos);
      }
    }

    /** Fraction and exponent. */
    method ParseSuffix(start: nat, useDouble: bool, significand: uint64, significandDigit: nat)
      returns (double: bool, exp: int, expFrac: int)
      requires Ready() && (useDouble ==> significandDigit >= 17)
      modifies this`pos, this`error
      ensures pos <= |text|
      ensures match Number.ScanSuffix(text, start, old(pos), useDouble, significand as int,
                                      if useDouble then 17 else significandDigit)
              case Suffix(end, isDouble) => error.None? && pos == end && double == isDouble
              case Malformed(e) => error == Some(e)
      ensures error.None? ==>
                && expFrac == Number.CountedExponent(text, old(pos), useDouble, significand as int,
                                                     if useDouble then 17 else significandDigit)
                && exp == Number.ExponentOf(text, Number.MantissaEnd(text, old(pos)), expFrac)
    {
      double, exp, expFrac := useDouble, 0, 0;
      var dot := Consume(DOT);
      if dot {
        if !IsDigit(Peek(text, pos)) {
          SetParseError(NumberMissFraction, pos);
          return;
        }
        expFrac := ParseFraction(useDouble, significand, significandDigit);
        double := true;
      }
      double, exp := ParseExponent(start, expFrac, double);
    }

    /** Send the number whose literal begins at `startOffset` and ends at the cursor. */
    method Deliver(startOffset: nat, minus: bool, i: uint32, i64: uint64, use64bit: bool, double: bool,
                   useNanOrInf: bool)
      requires Ready() && startOffset <= pos
      requires var v := if use64bit then i64 as int else i as int;
               !double ==>
                 Number.Fits64(minus, v)
                 && (use64bit <==> if minus then v > Number.TWO_31 else v >= Number.TWO_32)
      modifies this`out, this`error
      ensures Result() == Number.Deliver(opt, text[startOffset..pos], minus, if use64bit then i64 as int else i as int,
                                         double, useNanOrInf, old(out), pos, startOffset)
    {
      var e: Event;
      if opt.numbersAsStrings {
        e := RawNumber(text[startOffset..pos]);
      } else if double {
        if opt.doubleOverflows(text[startOffset..pos]) {
          SetParseError(NumberTooBig, startOffset);
          return;
        }
        e := Double(text[startOffset..pos]);
      } else if useNanOrInf {
        e := Double(text[startOffset..pos]);
      } else if use64bit {
        e := if minus then Int64(Negate64(i64)) else Uint64(i64 as int);
      } else {
        e := if minus then Int(Negate32(i)) else Uint(i as int);
      }
      var b := Send(e);
      if !b {
        SetParseError(Termination, startOffset);
      }
    }

    method ParseNumber()
      requires Ready()
      modifies this`pos, this`out, this`error
      ensures pos <= |text|
      ensures Result() == Number.ParseNumber(opt, text, old(pos), old(out))
    {
      var startOffset := pos;
      var minus := Consume(MINUS);
      ghost var q := pos;
      var i, i64, use64bit, useDouble, useNanOrInf, significandDigit := ParseInteger(minus);
      if error.Some? {
        return;
      }
      ghost var v := var integer := Number.ScanInteger(opt, text, q);
                     if integer.Decimal? then Value(text[q..integer.end]) else 0;
      if useDouble {
        DoubleIgnoresSignificand(text, startOffset, pos, v, if use64bit then i64 as int else i as int, 17);
      }
      var double, exp, expFrac := ParseSuffix(startOffset, useDouble,
                                               if use64bit then i64 else i as uint64, significandDigit);
      if error.Some? {
        return;
      }
      if double {
        DeliverIgnoresValue(opt, text[startOffset..pos], minus, v,
                            if use64bit then i64 as int else i as int, useNanOrInf, out, pos, startOffset);
      }
      Deliver(startOffset, minus, i, i64, use64bit, double, useNanOrInf);
    }

    // The recursive descent parser

    method ParseValue()
      requires Ready()
      modifies this`pos, this`out, this`error
      ensures pos <= |text|
      ensures Result() == Grammar.ParseValue(opt, text, old(pos), old(out))
      decreases |text| - pos, 2
    {
      hide Lexical.ParseLiteral, Lexical.ParseString, Number.ParseNumber;
      var c := Peek(text, pos);
      if c == LOWER_N {
        ParseLiteral(Grammar.NULL_WORD, Null);
      } else if c == LOWER_T {
        ParseLiteral(Grammar.TRUE_WORD, Bool(true));
      } else if c == LOWER_F {
        ParseLiteral(Grammar.FALSE_WORD, Bool(false));
      } else if c == QUOTE {
        ParseString(false);
      } else if c == LEFT_BRACE {
        ParseObject();
      } else if c == LEFT_BRACKET {
        ParseArray();
      } else {
        ParseNumber();
      }
    }

    method ParseObject()
      requires Ready() && Peek(text, pos) == LEFT_BRACE
      modifies this`pos, this`out, this`error
      ensures pos <= |text|
      ensures Result() == Grammar.ParseObject(opt, text, old(pos), old(out))
      decreases |text| - pos, 1
    {
      hide Lexical.Skip, Lexical.ParseString, Grammar.ParseScalar;
      pos := pos + 1;
      var b := Send(StartObject);
      if !b {
        SetParseError(Termination, pos);
        return;
      }
      SkipWhitespaceAndComments();
      if error.Some? {
        return;
      }
      var empty := Consume(RIGHT_BRACE);
      if empty {
        b := Send(EndObject(0));
        if !b {
          SetParseError(Termination, pos);
        }
        return;
      }
      ParseMembers();
    }

    /** The member loop. */
    method ParseMembers()
      requires Ready()
      modifies this`pos, this`out, this`error
      ensures pos <= |text|
      ensures Result() == Grammar.ParseMembers(opt, text, old(pos), old(out), 0)
      decreases |text| - pos, 0
    {
      hide Lexical.Skip, Lexical.ParseString, Grammar.ParseScalar;
      var memberCount := 0;
      while true
        invariant Ready() && old(pos) <= pos
        invariant Grammar.ParseMembers(opt, text, old(pos), old(out), 0)
                  == Grammar.ParseMembers(opt, text, pos, out, memberCount)
        decreases |text| - pos
      {
        ParseName();
        if error.Some? {
          return;
        }
        ParseValue();
        if error.Some? {
          return;
        }
        SkipWhitespaceAndComments();
        if error.Some? {
          return;
        }
        memberCount := Increment(memberCount);
        var c := Peek(text, pos);
        if c == COMMA {
          pos := pos + 1;
          SkipWhitespaceAndComments();
          if error.Some? {
            return;
          }
        } else if c == RIGHT_BRACE {
          pos := pos + 1;
          var b := Send(EndObject(memberCount));
          if !b {
            SetParseError(Termination, pos);
          }
          return;
        } else {
          SetParseError(ObjectMissCommaOrCurlyBracket, pos);
          return;
        }
        if opt.trailingCommas && Peek(text, pos) == RIGHT_BRACE {
          var b := Send(EndObject(memberCount));
          if !b {
            SetParseError(Termination, pos);
          } else {
            pos := pos + 1;
          }
          return;
        }
      }
    }

    /** A member's name and the colon behind it. */
    method ParseName()
      requires Ready()
      modifies this`pos, this`out, this`error
      ensures pos <= |text|
      ensures error.None? ==> old(pos) < pos
      ensures forall count: nat ::
                Grammar.ParseMembers(opt, text, old(pos), old(out), count)
                == if error.None? then Grammar.ParseMemberValue(opt, text, pos, out, count) else Result()
    {
      hide Lexical.Skip, Lexical.ParseString, Grammar.ParseScalar, Grammar.ParseMemberValue;
      if Peek(text, pos) != QUOTE {
        SetParseError(ObjectMissName, pos);
        return;
      }
      ParseString(true);
      if error.Some? {
        return;
      }
      SkipWhitespaceAndComments();
      if error.Some? {
        return;
      }
      var colon := Consume(COLON);
      if !colon {
        SetParseError(ObjectMissColon, pos);
        return;
      }
      SkipWhitespaceAndComments();
    }

    method ParseArray()
      requires Ready() && Peek(text, pos) == LEFT_BRACKET
      modifies this`pos, this`out, this`error
      ensures pos <= |text|
      ensures Result() == Grammar.ParseArray(opt, text, old(pos), old(out))
      decreases |text| - pos, 1
    {
      hide Lexical.Skip, Grammar.ParseScalar;
      pos := pos + 1;
      var b := Send(StartArray);
      if !b {
        SetParseError(Termination, pos);
        return;
      }
      SkipWhitespaceAndComments();
      if error.Some? {
        return;
      }
      var empty := Consume(RIGHT_BRACKET);
      if empty {
        b := Send(EndArray(0));
        if !b {
          SetParseError(Termination, pos);
        }
        return;
      }
      ParseElements();
    }

    /** The element loop. */
    method ParseElements()
      requires Ready()
      modifies this`pos, this`out, this`error
      ensures pos <= |text|
      ensures Result() == Grammar.ParseElements(opt, text, old(pos), old(out), 0)
      decreases |text| - pos, 3
    {
      hide Lexical.Skip, Grammar.ParseScalar;
      var elementCount := 0;
      while true
        invariant Ready() && old(pos) <= pos
        invariant Grammar.ParseElements(opt, text, old(pos), old(out), 0)
                  == Grammar.ParseElements(opt, text, pos, out, elementCount)
        decreases |text| - pos
      {
        ParseValue();
        if error.Some? {
          return;
        }
        elementCount := Increment(elementCount);
        SkipWhitespaceAndComments();
        if error.Some? {
          return;
        }
        var comma := Consume(COMMA);
        if comma {
          SkipWhitespaceAndComments();
          if error.Some? {
            return;
          }
        } else {
          var end := Consume(RIGHT_BRACKET);
          if end {
            var b := Send(EndArray(elementCount));
            if !b {
              SetParseError(Termination, pos);
            }
          } else {
            SetParseError(ArrayMissCommaOrSquareBracket, pos);
          }
          return;
        }
        if opt.trailingCommas && Peek(text, pos) == RIGHT_BRACKET {
          var b := Send(EndArray(elementCount));
          if !b {
            SetParseError(Termination, pos);
          } else {
            pos := pos + 1;
          }
          return;
        }
      }
    }

    // The table-driven parser

    /** A machine in the automaton's sense: what the parser is at while it waits for a token. */
    ghost function Machine(state: Automaton.State): Automaton.Machine
      reads this
    {
      Automaton.Machine(state, pos, frames, out)
    }

    /** Push the state to return to and a count of zero. */
    method PushFrame(n: Automaton.State)
      requires Stacked(frames) && Automaton.IsReturnState(n)
      modifies this`stack, this`frames
      ensures Stacked(old(frames) + [Automaton.Frame(n, 0)])
    {
      stack := stack + [Code(n)];
      stack := stack + [0];
      frames := frames + [Automaton.Frame(n, 0)];
      assert frames[..|frames| - 1] == old(frames);
    }

    /** Pop the count and the state to return to. */
    method PopFrame() returns (n: Automaton.State, c: nat)
      requires Stacked(frames) && |frames| > 0 && Automaton.WellFormed(frames)
      modifies this`stack, this`frames
      ensures var top := old(frames)[|old(frames)| - 1]; n == top.ret && c == top.count
      ensures Stacked(old(frames)[..|old(frames)| - 1])
    {
      c := stack[|stack| - 1];
      stack := stack[..|stack| - 1];
      n := FromCode(stack[|stack| - 1]);
      stack := stack[..|stack| - 1];
      frames := frames[..|frames| - 1];
    }

    /** Count one more entry of the innermost container. */
    method CountEntry()
      requires Stacked(frames) && |frames| > 0
      modifies this`stack, this`frames
      ensures Stacked(Automaton.CountOne(old(frames)))
    {
      var k := |stack| - 1;
      stack := stack[k := Increment(stack[k])];
      frames := Automaton.CountOne(frames);
      assert frames[..|frames| - 1] == old(frames)[..|frames| - 1];
    }

    /**
     `Transit`. When it returns the error state without an error, `HandleError` will set the one
     that belongs to `src`.
     */
    method Transit(src: Automaton.State, dst: Automaton.State) returns (next: Automaton.State)
      requires Ready() && Stacked(frames) && Automaton.Running(Machine(src), text)
      requires Peek(text, pos) != NUL && dst == Automaton.Predict(src, Automaton.Tokenize(Peek(text, pos)))
      modifies this`pos, this`out, this`error, this`stack, this`frames
      ensures pos <= |text|
      ensures match Automaton.Transit(opt, text, old(Machine(src)))
              case To(m) => error.None? && m == Machine(next) && Stacked(frames)
              case Stop(e, o) =>
                && next.ErrorState? && out == o
                && if error.Some? then error.value == e else e == Error(Automaton.StateError(src), pos)
    {
      hide Grammar.ParseValue, Lexical.ParseString, Automaton.Open, Automaton.Close, Automaton.FinalCount, Flatten;
      next := dst;
      if dst.ErrorState? {
      } else if dst.ObjectInitialState? || dst.ArrayInitialState? {
        next := OpenContainer(src, dst);
      } else if dst.MemberKeyState? {
        ParseString(true);
        if error.Some? {
          next := Automaton.ErrorState;
        }
      } else if dst.KeyValueDelimiterState? {
        pos := pos + 1;
      } else if dst.MemberDelimiterState? || dst.ElementDelimiterState? {
        pos := pos + 1;
        CountEntry();
      } else if dst.ObjectFinishState? {
        if !opt.trailingCommas && src.MemberDelimiterState? {
          SetParseError(ObjectMissName, pos);
          next := Automaton.ErrorState;
        } else {
          next := CloseContainer(src, true);
        }
      } else if dst.ArrayFinishState? {
        if !opt.trailingCommas && src.ElementDelimiterState? {
          SetParseError(ValueInvalid, pos);
          next := Automaton.ErrorState;
        } else {
          next := CloseContainer(src, false);
        }
      } else {
        ParseValue();
        if error.Some? {
          next := Automaton.ErrorState;
        } else if dst.ValueState? {
          next := Automaton.FinishState;
        }
      }
    }

    /** The branch of `Transit` for an opening bracket. */
    method OpenContainer(src: Automaton.State, dst: Automaton.State) returns (next: Automaton.State)
      requires Ready() && Stacked(frames) && Automaton.Running(Machine(src), text) && pos < |text|
      requires Automaton.IsReturnState(Automaton.AfterValue(src))
      requires dst.ObjectInitialState? || dst.ArrayInitialState?
      modifies this`pos, this`out, this`error, this`stack, this`frames
      ensures pos <= |text|
      ensures match Automaton.Open(opt, old(Machine(src)), dst,
                                   if dst.ObjectInitialState? then StartObject else StartArray)
              case To(m) => error.None? && m == Machine(next) && Stacked(frames)
              case Stop(e, o) => next.ErrorState? && out == o && error == Some(e)
    {
      var n := src;
      if src.ArrayInitialState? || src.ElementDelimiterState? {
        n := Automaton.ElementState;
      } else if src.KeyValueDelimiterState? {
        n := Automaton.MemberValueState;
      }
      PushFrame(n);
      var hr := Send(if dst.ObjectInitialState? then StartObject else StartArray);
      if !hr {
        SetParseError(Termination, pos);
        return Automaton.ErrorState;
      }
      pos := pos + 1;
      next := dst;
    }

    /** The branches of `Transit` for a closing bracket. */
    method CloseContainer(src: Automaton.State, isObject: bool) returns (next: Automaton.State)
      requires Ready() && Stacked(frames) && Automaton.Running(Machine(src), text) && pos < |text| && |frames| > 0
      modifies this`pos, this`out, this`error, this`stack, this`frames
      ensures pos <= |text|
      ensures var count := Automaton.FinalCount(old(Machine(src)),
                                                  if isObject then src.MemberValueState? else src.ElementState?);
              match Automaton.Close(opt, old(Machine(src)), if isObject then EndObject(count) else EndArray(count))
              case To(m) => error.None? && m == Machine(next) && Stacked(frames)
              case Stop(e, o) => next.ErrorState? && out == o && error == Some(e)
    {
      var n, c := PopFrame();
      if isObject && src.MemberValueState? {
        c := Increment(c);
      }
      if !isObject && src.ElementState? {
        c := Increment(c);
      }
      if n.StartState? {
        n := Automaton.FinishState;
      }
      var hr := Send(if isObject then EndObject(c) else EndArray(c));
      if !hr {
        SetParseError(Termination, pos);
        return Automaton.ErrorState;
      }
      pos := pos + 1;
      next := n;
    }

    method HandleError(src: Automaton.State)
      requires pos <= |text|
      modifies this`error
      ensures error == if old(error).Some? then old(error) else Some(Error(Automaton.StateError(src), pos))
    {
      if error.Some? {
        return;
      }
      match src {
        case StartState => SetParseError(DocumentEmpty, pos);
        case FinishState => SetParseError(DocumentRootNotSingular, pos);
        case ObjectInitialState => SetParseError(ObjectMissName, pos);
        case MemberDelimiterState => SetParseError(ObjectMissName, pos);
        case MemberKeyState => SetParseError(ObjectMissColon, pos);
        case MemberValueState => SetParseError(ObjectMissCommaOrCurlyBracket, pos);
        case KeyValueDelimiterState => SetParseError(ValueInvalid, pos);
        case ArrayInitialState => SetParseError(ValueInvalid, pos);
        case ElementDelimiterState => SetParseError(ValueInvalid, pos);
        case _ => SetParseError(ArrayMissCommaOrSquareBracket, pos);
      }
    }

    method IterativeParse()
      requires pos == 0 && out == [] && Stacked([])
      modifies this`pos, this`out, this`error, this`stack, this`frames
      ensures Result() == Automaton.Parse(opt, text)
      ensures Stacked([])
    {
      hide Lexical.Skip, Automaton.Transit;
      error := None;
      var state := Automaton.StartState;
      SkipWhitespaceAndComments();
      if error.None? {
        state := Transitions();
        if !state.FinishState? {
          HandleError(state);
        }
      }
      stack, frames := [], [];
    }

    /** The loop of `IterativeParse`; it is left in the finishing state, with an error, or at the end of the text. */
    method Transitions() returns (state: Automaton.State)
      requires Ready() && out == [] && Stacked([])
      modifies this`pos, this`out, this`error, this`stack, this`frames
      ensures pos <= |text|
      ensures state.FinishState? || error.Some?
              ==> Result() == Automaton.Iterate(opt, text, old(Machine(Automaton.StartState)))
      ensures !state.FinishState? && error.None? ==>
                Automaton.Iterate(opt, text, old(Machine(Automaton.StartState)))
                  == Fail(Automaton.StateError(state), pos, out)
    {
      hide Lexical.Skip, Automaton.Transit, Automaton.Predict, Automaton.Tokenize, Automaton.StateError;
      state := Automaton.StartState;
      while Peek(text, pos) != NUL
        invariant Ready() && Stacked(frames) && Automaton.Running(Machine(state), text)
        invariant Automaton.Iterate(opt, text, old(Machine(Automaton.StartState)))
                  == Automaton.Iterate(opt, text, Machine(state))
        decreases |text| - pos
      {
        var n := Automaton.Predict(state, Automaton.Tokenize(Peek(text, pos)));
        var d := Transit(state, n);
        if d.ErrorState? {
          HandleError(state);
          return;
        }
        state := d;
        if opt.stopWhenDone && state.FinishState? {
          return;
        }
        SkipWhitespaceAndComments();
        if error.Some? {
          return;
        }
      }
    }

    // Both

    /**
     `Parse`. Whichever parser the flag selects, the handler receives the same events, the same texts
     are accepted, and an accepting parser stops at the same place.
     */
    method Parse(iterative: bool)
      requires pos == 0 && out == [] && Stacked([])
      modifies this`pos, this`out, this`error, this`stack, this`frames
      ensures Result() == if iterative then Automaton.Parse(opt, text) else Grammar.Parse(opt, text)
      ensures out == Grammar.Parse(opt, text).out == Automaton.Parse(opt, text).out
      ensures error.None? ==> Grammar.Parse(opt, text) == Automaton.Parse(opt, text) == Ok(pos, out)
      ensures error.Some? ==> Grammar.Parse(opt, text).Err? && Automaton.Parse(opt, text).Err?
      ensures Stacked([])
    {
      Equivalence.ParsersAgree(opt, text);
      if iterative {
        IterativeParse();
      } else {
        RecursiveParse();
      }
    }

    /** The rest of `Parse`. */
    method RecursiveParse()
      requires pos == 0 && out == []
      modifies this`pos, this`out, this`error
      ensures Result() == Grammar.Parse(opt, text)
    {
      hide Lexical.Skip, Grammar.ParseValue;
      error := None;
      SkipWhitespaceAndComments();
      if error.Some? {
        return;
      }
      if Peek(text, pos) == NUL {
        SetParseError(DocumentEmpty, pos);
        return;
      }
      ParseValue();
      if error.Some? {
        return;
      }
      if !opt.stopWhenDone {
        SkipWhitespaceAndComments();
        if error.Some? {
          return;
        }
        if Peek(text, pos) != NUL {
          SetParseError(DocumentRootNotSingular, pos);
        }
      }
    }
  }
}
