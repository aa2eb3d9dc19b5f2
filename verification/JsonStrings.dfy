/**
 Strings: what `WriteString` writes, `ParseStringToStream` reads back byte for byte, with either
 target encoding and with or without validation on either side.
 */
module JsonStrings {
  import opened Bytes
  import opened Optional
  import opened Sequences
  import opened JsonTypes
  import opened JsonLexical
  import opened JsonWriter
  import opened Utf8
  import opened Utf8Properties

  // When a string is refused

  /** The writer refuses a string exactly when it decodes it and the string is not well-formed UTF-8. */
  lemma WriterRefusesIllFormed(w: Style, str: Text)
    ensures StringText(w, str).None? <==> (w.ascii || w.validate) && !WellFormed(str)
  {
    CharsRefused(w, str, 0);
    DecodableIffWellFormed(str);
  }

  lemma {:induction false} CharsRefused(w: Style, str: Text, i: nat)
    requires i <= |str|
    ensures WriteChars(w, str, i).Some? <==> (w.ascii || w.validate ==> DecodesToEnd(str, i))
    decreases |str| - i
  {
    if i < |str| {
      hide Decode, EscapeByte, EscapeCodePoint;
      var t := WriteChar(w, str, i);
      if str[i] < 0x80 { DecodeOfAscii(str, i); }
      if t.Put? {
        CharsRefused(w, str, t.next);
      }
    }
  }

  lemma DecodeOfAscii(s: Text, p: nat)
    requires p < |s| && s[p] < 0x80
    ensures Decode(s, p) == Utf8.Step(true, p + 1, s[p])
  {
  }

  // The text without the turns of the loop: byte by byte

  function EscapeAll(str: Text, i: nat): Text
    requires i <= |str|
    decreases |str| - i
  {
    if i == |str| then [] else EscapeByte(str[i]) + EscapeAll(str, i + 1)
  }

  /** Bytes outside ASCII are copied. */
  lemma {:induction false} HighBytes(str: Text, i: nat, j: nat)
    requires i <= j <= |str| && forall k | i <= k < j :: str[k] >= 0x80
    ensures EscapeAll(str, i) == str[i..j] + EscapeAll(str, j)
    decreases j - i
  {
    if i < j {
      HighBytes(str, i + 1, j);
      assert EscapeByte(str[i]) == [str[i]];
      assert str[i..j] == [str[i]] + str[i + 1..j];
      Regroup([str[i]], str[i + 1..j], EscapeAll(str, j));
    }
  }

  /** A code point outside ASCII is encoded by bytes outside ASCII. */
  lemma DecodedHigh(str: Text, i: nat)
    requires i < |str| && str[i] >= 0x80 && Decode(str, i).ok
    ensures forall k | i <= k < Decode(str, i).pos :: str[k] >= 0x80
  {
    hide Decode;
    var d := Decode(str, i);
    EncodeOfDecode(str, i);
    assert str[i] == str[i..d.pos][0];
    forall k | i <= k < d.pos ensures str[k] >= 0x80 {
      assert str[k] == Encode(d.codepoint)[k - i];
    }
  }

  /** To UTF-8, with or without validation, the writer writes the same text. */
  lemma {:induction false} Utf8Text(w: Style, str: Text, i: nat)
    requires !w.ascii && i <= |str| && WriteChars(w, str, i).Some?
    ensures WriteChars(w, str, i).value == EscapeAll(str, i)
    decreases |str| - i
  {
    if i < |str| {
      hide Decode, EscapeByte;
      var t := WriteChar(w, str, i);
      Utf8Text(w, str, t.next);
      if str[i] < 0x80 {
        DecodeOfAscii(str, i);
        if Escape(str[i]) == NUL { PlainByte(str[i]); assert str[i..i + 1] == [str[i]]; }
      } else {
        if w.validate {
          DecodedHigh(str, i);
        }
        PlainByte(str[i]);
        HighBytes(str, i, t.next);
        assert t.text == str[i..t.next];
      }
    }
  }

  lemma PlainByte(c: byte)
    ensures Escape(c) == NUL ==> EscapeByte(c) == [c]
    ensures c >= 0x80 ==> Escape(c) == NUL
  {
  }

  // Reading escapes

  lemma HexDigitValue(n: nat)
    requires n < 16
    ensures IsHexDigit(HexDigit(n)) && HexValue(HexDigit(n)) == n
  {
  }

  /** The four digits of an escape denote its code unit. */
  lemma UnitReadsBack(s: Text, p: nat, unit: nat)
    requires unit < 0x1_0000 && At(s, p, UnicodeEscape(unit))
    ensures Peek(s, p) == BACKSLASH && Peek(s, p + 1) == LOWER_U && p + 6 <= |s|
    ensures IsHex4(s, p + 2) && Hex4(s, p + 2) == unit
  {
    hide HexDigit, IsHex4, Hex4;
    var a, b, c, d := unit / 4096, unit / 256 % 16, unit / 16 % 16, unit % 16;
    UnitDigits(unit);
    SixCharacters(s, p, BACKSLASH, LOWER_U, HexDigit(a), HexDigit(b), HexDigit(c), HexDigit(d));
    FourHexDigits(s, p + 2, a, b, c, d);
  }

  lemma UnitDigits(unit: nat)
    requires unit < 0x1_0000
    ensures unit / 4096 < 16
    ensures unit == ((unit / 4096 * 16 + unit / 256 % 16) * 16 + unit / 16 % 16) * 16 + unit % 16
  {
  }

  lemma SixCharacters(s: Text, p: nat, a: byte, b: byte, c: byte, d: byte, e: byte, f: byte)
    requires At(s, p, [a, b, c, d, e, f])
    ensures p + 6 <= |s| && Peek(s, p) == a && Peek(s, p + 1) == b
    ensures Peek(s, p + 2) == c && Peek(s, p + 3) == d && Peek(s, p + 4) == e && Peek(s, p + 5) == f
  {
    var w := [a, b, c, d, e, f];
    AtPeek(s, p, w, 0); AtPeek(s, p, w, 1); AtPeek(s, p, w, 2); AtPeek(s, p, w, 3); AtPeek(s, p, w, 4);
    AtPeek(s, p, w, 5);
  }

  lemma FourHexDigits(s: Text, p: nat, a: nat, b: nat, c: nat, d: nat)
    requires a < 16 && b < 16 && c < 16 && d < 16
    requires Peek(s, p) == HexDigit(a) && Peek(s, p + 1) == HexDigit(b)
    requires Peek(s, p + 2) == HexDigit(c) && Peek(s, p + 3) == HexDigit(d)
    ensures IsHex4(s, p) && Hex4(s, p) == ((a * 16 + b) * 16 + c) * 16 + d
  {
    hide HexDigit, IsHexDigit, HexValue;
    HexDigitValue(a); HexDigitValue(b); HexDigitValue(c); HexDigitValue(d);
    assert AllHex(s, p, 1) && HexNumber(s, p, 1) == a;
    assert AllHex(s, p, 2) && HexNumber(s, p, 2) == a * 16 + b;
    assert AllHex(s, p, 3) && HexNumber(s, p, 3) == (a * 16 + b) * 16 + c;
  }

  /** An escaped code point reads back as its encoding: one unit, or a surrogate pair. */
  lemma CodePointReadsBack(o: Options, s: Text, p: nat, cp: ScalarValue)
    requires At(s, p, EscapeCodePoint(cp))
    ensures p < |s| && ScanChar(o, s, p) == Scanned(p + |EscapeCodePoint(cp)|, Encode(cp))
  {
    hide Encode, Decode, UnicodeEscape, IsHex4, Hex4;
    if cp <= 0xFFFF {
      UnitReadsBack(s, p, cp);
    } else {
      var high, low := (cp - 0x1_0000) / 1024 + 0xD800, (cp - 0x1_0000) % 1024 + 0xDC00;
      AtConcat(s, p, UnicodeEscape(high), UnicodeEscape(low));
      UnitReadsBack(s, p, high);
      UnitReadsBack(s, p + 6, low);
      assert (high - 0xD800) * 0x400 + (low - 0xDC00) + 0x1_0000 == cp;
    }
  }

  /** A byte below 0x80 reads back as itself. */
  lemma ByteReadsBack(o: Options, s: Text, p: nat, c: byte)
    requires c < 0x80 && At(s, p, EscapeByte(c))
    ensures p < |s| && s[p] != QUOTE && s[p] != NUL
    ensures ScanChar(o, s, p) == Scanned(p + |EscapeByte(c)|, [c])
  {
    hide UnicodeEscape, IsHex4, Hex4, Decode;
    var w := EscapeByte(c);
    AtPeek(s, p, w, 0);
    if Escape(c) == NUL {
      DecodeOfAscii(s, p);
      assert s[p..p + 1] == [c];
    } else if Escape(c) == LOWER_U {
      SmallUnit(c);
      UnitReadsBack(s, p, c);
      SmallEncode(c);
    } else {
      AtPeek(s, p, w, 1);
    }
  }

  lemma SmallUnit(c: byte)
    requires c < 0x80
    ensures UnicodeEscape(c) == [BACKSLASH, LOWER_U, ZERO, ZERO, HexDigit(c / 16), HexDigit(c % 16)]
  {
    assert c as int / 4096 == 0 && c as int / 256 % 16 == 0 && c as int / 16 % 16 == c as int / 16;
  }

  lemma SmallEncode(c: byte)
    requires c < 0x80
    ensures Encode(c) == [c]
  {
  }

  // Reading whole strings

  /** One character read: the rest of the string is read behind it. */
  lemma {:induction false} ScanStep(o: Options, s: Text, p: nat, acc: Text)
    requires p < |s| && s[p] != QUOTE && s[p] != NUL && ScanChar(o, s, p).Scanned?
    ensures var r := ScanChar(o, s, p); ScanString(o, s, p, acc) == ScanString(o, s, r.pos, acc + r.str)
  {
    hide ScanChar;
  }

  /** A byte outside ASCII reads back as itself when nothing is validated. */
  lemma HighByteReadsBack(o: Options, s: Text, p: nat)
    requires p < |s| && s[p] >= 0x80 && !o.validateEncoding
    ensures ScanChar(o, s, p) == Scanned(p + 1, [s[p]])
  {
  }

  /** A multi-byte sequence reads back as itself when it is validated. */
  lemma SequenceReadsBack(o: Options, s: Text, p: nat, str: Text, i: nat)
    requires i < |str| && str[i] >= 0x80 && Decode(str, i).ok && o.validateEncoding
    requires At(s, p, str[i..Decode(str, i).pos])
    ensures var d := Decode(str, i);
            p < |s| && s[p] == str[i] && ScanChar(o, s, p) == Scanned(p + (d.pos - i), str[i..d.pos])
  {
    hide Decode, Encode, ScanEscape;
    var d := Decode(str, i);
    EncodeOfDecode(str, i);
    AtPeek(s, p, str[i..d.pos], 0);
    DecodeOfEncode(s, p, d.codepoint);
  }

  /** Is the string fit for a reader with these options? */
  predicate Readable(o: Options, str: Text, i: nat)
    requires i <= |str|
  {
    o.validateEncoding ==> DecodesToEnd(str, i)
  }

  /** The plain text of a string, and the quotation mark behind it, are scanned back to the string. */
  lemma {:induction false} PlainReadsBack(o: Options, s: Text, p: nat, str: Text, i: nat, acc: Text)
    requires i <= |str| && Readable(o, str, i) && At(s, p, EscapeAll(str, i) + [QUOTE])
    ensures ScanString(o, s, p, acc) == Scanned(p + |EscapeAll(str, i)| + 1, acc + str[i..])
    decreases |str| - i
  {
    hide ScanChar, ScanString, EscapeByte, Decode, EscapeAll;
    if i == |str| {
      Ends(o, s, p, str, acc);
    } else if str[i] < 0x80 {
      var c := str[i];
      EscapeAllStep(str, i);
      SplitAt(s, p, EscapeByte(c), EscapeAll(str, i + 1));
      ByteReadsBack(o, s, p, c);
      ScanStep(o, s, p, acc);
      DecodeOfAscii(str, i);
      PlainReadsBack(o, s, p + |EscapeByte(c)|, str, i + 1, acc + [c]);
      Extend(str, i, i + 1, acc);
      assert str[i..i + 1] == [c];
    } else {
      var next := if o.validateEncoding then Decode(str, i).pos else i + 1;
      if o.validateEncoding { DecodedHigh(str, i); }
      HighBytes(str, i, next);
      SplitAt(s, p, str[i..next], EscapeAll(str, next));
      AtPeek(s, p, str[i..next], 0);
      if o.validateEncoding { SequenceReadsBack(o, s, p, str, i); } else { HighByteReadsBack(o, s, p); }
      assert ScanChar(o, s, p) == Scanned(p + (next - i), str[i..next]);
      ScanStep(o, s, p, acc);
      PlainReadsBack(o, s, p + (next - i), str, next, acc + str[i..next]);
      Extend(str, i, next, acc);
    }
  }

  lemma {:induction false} Ends(o: Options, s: Text, p: nat, str: Text, acc: Text)
    requires At(s, p, EscapeAll(str, |str|) + [QUOTE])
    ensures |EscapeAll(str, |str|)| == 0
    ensures ScanString(o, s, p, acc) == Scanned(p + 1, acc + str[|str|..])
  {
    assert [] + [QUOTE] == [QUOTE];
    AtPeek(s, p, [QUOTE], 0);
    assert acc + str[|str|..] == acc;
  }

  lemma EscapeAllStep(str: Text, i: nat)
    requires i < |str|
    ensures EscapeAll(str, i) == EscapeByte(str[i]) + EscapeAll(str, i + 1)
  {
  }

  lemma SplitAt(s: Text, p: nat, u: Text, v: Text)
    requires At(s, p, u + v + [QUOTE])
    ensures At(s, p, u) && At(s, p + |u|, v + [QUOTE])
  {
    Regroup(u, v, [QUOTE]);
    AtConcat(s, p, u, v + [QUOTE]);
  }

  lemma Extend(str: Text, i: nat, j: nat, acc: Text)
    requires i <= j <= |str|
    ensures acc + str[i..j] + str[j..] == acc + str[i..]
  {
    assert str[i..j] + str[j..] == str[i..];
    Regroup(acc, str[i..j], str[j..]);
  }

  /** With an ASCII target, every code point outside ASCII is escaped, and scanned back to its encoding. */
  lemma {:induction false} AsciiReadsBack(w: Style, o: Options, s: Text, p: nat, str: Text, i: nat, acc: Text)
    requires w.ascii && i <= |str| && WriteChars(w, str, i).Some?
    requires At(s, p, WriteChars(w, str, i).value + [QUOTE])
    ensures ScanString(o, s, p, acc) == Scanned(p + |WriteChars(w, str, i).value| + 1, acc + str[i..])
    decreases |str| - i
  {
    hide ScanChar, ScanString, WriteChar, WriteChars, Decode, At, Peek;
    if i == |str| {
      NothingWritten(w, str);
      Ends(o, s, p, str, acc);
    } else {
      AsciiTurn(w, str, i);
      var t := WriteChar(w, str, i);
      var rest := WriteChars(w, str, t.next).value;
      SplitAt(s, p, t.text, rest);
      TurnReadsBack(w, o, s, p, str, i);
      ScanStep(o, s, p, acc);
      AsciiReadsBack(w, o, s, p + |t.text|, str, t.next, acc + str[i..t.next]);
      Extend(str, i, t.next, acc);
    }
  }

  lemma {:induction false} NothingWritten(w: Style, str: Text)
    ensures WriteChars(w, str, |str|) == Some([]) && EscapeAll(str, |str|) == []
  {
  }

  lemma {:induction false} AsciiTurn(w: Style, str: Text, i: nat)
    requires i < |str| && WriteChars(w, str, i).Some?
    ensures var t := WriteChar(w, str, i);
            t.Put? && WriteChars(w, str, t.next).Some?
            && WriteChars(w, str, i).value == t.text + WriteChars(w, str, t.next).value
  {
    hide WriteChar;
  }

  lemma TurnReadsBack(w: Style, o: Options, s: Text, p: nat, str: Text, i: nat)
    requires w.ascii && i < |str|
    requires WriteChar(w, str, i).Put? && At(s, p, WriteChar(w, str, i).text)
    ensures var t := WriteChar(w, str, i);
            && p < |s| && s[p] != QUOTE && s[p] != NUL
            && ScanChar(o, s, p) == Scanned(p + |t.text|, str[i..t.next])
  {
    hide ScanChar, Decode, EscapeCodePoint;
    var c := str[i];
    if c < 0x80 {
      DecodeOfAscii(str, i);
      PlainByte(c);
      assert str[i..i + 1] == [c];
      ByteReadsBack(o, s, p, c);
    } else {
      EncodeOfDecode(str, i);
      var cp := Decode(str, i).codepoint;
      CodePointReadsBack(o, s, p, cp);
      BeginsWithBackslash(cp);
      AtPeek(s, p, EscapeCodePoint(cp), 0);
    }
  }

  lemma BeginsWithBackslash(cp: ScalarValue)
    ensures |EscapeCodePoint(cp)| > 0 && EscapeCodePoint(cp)[0] == BACKSLASH
  {
  }

  /** The theorem: a written string, wherever it stands in a text, is scanned back to the same bytes. */
  lemma {:induction false} StringReadsBack(w: Style, o: Options, s: Text, p: nat, str: Text)
    requires StringText(w, str).Some? && At(s, p, StringText(w, str).value)
    requires o.validateEncoding ==> WellFormed(str)
    ensures Peek(s, p) == QUOTE && p < |s|
    ensures ScanString(o, s, p + 1, []) == Scanned(p + |StringText(w, str).value|, str)
  {
    hide ScanString, WriteChars, EscapeAll;
    DecodableIffWellFormed(str);
    var body := WriteChars(w, str, 0).value;
    Regroup([QUOTE], body, [QUOTE]);
    AtConcat(s, p, [QUOTE], body + [QUOTE]);
    AtPeek(s, p, [QUOTE], 0);
    assert [] + str[0..] == str;
    if w.ascii {
      AsciiReadsBack(w, o, s, p + 1, str, 0, []);
    } else {
      Utf8Text(w, str, 0);
      PlainReadsBack(o, s, p + 1, str, 0, []);
    }
  }
}
