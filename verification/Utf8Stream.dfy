/**
 `UTF8<>::Encode`, `Decode` and `Validate` on streams: an input cursor that yields NUL at the end of
 the text, and an output that grows by one byte a call.
 */
module Utf8Stream {
  import opened Bytes
  import Utf8

  class Stream {
    const text: Text
    var pos: nat
    var out: Text

    constructor (text: Text)
      ensures this.text == text && pos == 0 && out == []
    {
      this.text := text;
      pos, out := 0, [];
    }

    method Take() returns (c: byte)
      requires pos <= |text|
      modifies this`pos
      ensures c == Peek(text, old(pos)) && pos == if old(pos) < |text| then old(pos) + 1 else old(pos)
    {
      c := Peek(text, pos);
      if pos < |text| {
        pos := pos + 1;
      }
    }

    method Put(c: nat)
      requires c < 256
      modifies this`out
      ensures out == old(out) + [c]
    {
      out := out + [c];
    }

    method Encode(codepoint: nat)
      requires codepoint < 0x11_0000
      modifies this`out
      ensures out == old(out) + Utf8.Encode(codepoint)
    {
      if codepoint <= 0x7F {
        Put(codepoint % 256);
      } else if codepoint <= 0x7FF {
        Put(0xC0 + codepoint / 64);
        Put(0x80 + codepoint % 64);
      } else if codepoint <= 0xFFFF {
        Put(0xE0 + codepoint / 4096);
        Put(0x80 + codepoint / 64 % 64);
        Put(0x80 + codepoint % 64);
      } else {
        Put(0xF0 + codepoint / 262144);
        Put(0x80 + codepoint / 4096 % 64);
        Put(0x80 + codepoint / 64 % 64);
        Put(0x80 + codepoint % 64);
      }
    }

    /** RAPIDJSON_COPY and RAPIDJSON_TRANS of `Decode`: one continuation byte. */
    method CopyTrans(mask: nat, codepoint: nat, result: bool) returns (next: nat, ok: bool)
      requires pos <= |text|
      modifies this`pos
      ensures Utf8.Step(ok, pos, next) == Utf8.Copy(text, Utf8.Step(result, old(pos), codepoint), mask)
      ensures pos <= |text|
    {
      var c := Take();
      next := codepoint * 64 + c % 64;
      ok := result && Utf8.InRange(c, mask);
    }

    method Decode() returns (result: bool, codepoint: nat)
      requires pos <= |text|
      modifies this`pos
      ensures Utf8.Step(result, pos, codepoint) == Utf8.Decode(text, old(pos))
    {
      hide Utf8.InRange;
      var c := Take();
      if c < 0x80 {
        return true, c;
      }
      var range := Utf8.GetRange(c);
      result := true;
      if range == 2 {
        codepoint, result := CopyTrans(0x70, c % 64, result);
      } else if range == 3 {
        codepoint, result := CopyTrans(0x70, c % 32, result);
        codepoint, result := CopyTrans(0x70, codepoint, result);
      } else if range == 4 {
        codepoint, result := CopyTrans(0x50, c % 16, result);
        codepoint, result := CopyTrans(0x70, codepoint, result);
      } else if range == 5 {
        codepoint, result := CopyTrans(0x10, c % 8, result);
        codepoint, result := CopyTrans(0x70, codepoint, result);
        codepoint, result := CopyTrans(0x70, codepoint, result);
      } else if range == 6 {
        codepoint, result := CopyTrans(0x70, c % 4, result);
        codepoint, result := CopyTrans(0x70, codepoint, result);
        codepoint, result := CopyTrans(0x70, codepoint, result);
      } else if range == 10 {
        codepoint, result := CopyTrans(0x20, 0, result);
        codepoint, result := CopyTrans(0x70, codepoint, result);
      } else if range == 11 {
        codepoint, result := CopyTrans(0x60, 0, result);
        codepoint, result := CopyTrans(0x70, codepoint, result);
        codepoint, result := CopyTrans(0x70, codepoint, result);
      } else {
        return false, 0;
      }
    }

    /** While the bytes read are in range, the output has grown by exactly them. */
    ghost predicate Copied(base: Text, start: nat, ok: bool)
      reads this
    {
      && start <= pos <= |text| && |base| < |out| && base == out[..|base|]
      && (ok ==> out == base + text[start..pos])
    }

    /** RAPIDJSON_COPY of `Validate`: take a byte and put it, the NUL at the end of the text included. */
    method CopyPut(mask: nat, result: bool, ghost codepoint: nat, ghost base: Text, ghost start: nat)
      returns (ok: bool, ghost next: nat)
      requires Copied(base, start, result)
      modifies this`pos, this`out
      ensures Utf8.Step(ok, pos, next) == Utf8.Copy(text, Utf8.Step(result, old(pos), codepoint), mask)
      ensures Copied(base, start, ok) && |out| == |old(out)| + 1
    {
      var c := Take();
      Put(c);
      if old(pos) < |text| {
        assert text[start..pos] == text[start..old(pos)] + [c];
      }
      ok, next := result && Utf8.InRange(c, mask), codepoint * 64 + c % 64;
    }

    /** `Validate` takes what `Decode` takes, with the same verdict, and copies it to the output. */
    method Validate() returns (result: bool)
      requires pos <= |text|
      modifies this`pos, this`out
      ensures var d := Utf8.Decode(text, old(pos)); result == d.ok && pos == d.pos
      ensures result && old(pos) < |text| ==> out == old(out) + text[old(pos)..pos]
      ensures old(out) <= out && |old(out)| < |out| <= |old(out)| + 4
      ensures Peek(text, old(pos)) < 0x80 ==> result && |out| == |old(out)| + 1
    {
      hide Utf8.InRange, Copied;
      ghost var p, base := pos, out;
      var c := Take();
      Put(c);
      if c < 0x80 {
        assert p < |text| ==> text[p..pos] == [c];
        return true;
      }
      Started(base, p, c);
      ghost var cp: nat;
      var range := Utf8.GetRange(c);
      result := true;
      if range == 2 {
        result, cp := CopyPut(0x70, result, c % 64, base, p);
      } else if range == 3 {
        result, cp := CopyPut(0x70, result, c % 32, base, p);
        result, cp := CopyPut(0x70, result, cp, base, p);
      } else if range == 4 {
        result, cp := CopyPut(0x50, result, c % 16, base, p);
        result, cp := CopyPut(0x70, result, cp, base, p);
      } else if range == 5 {
        result, cp := CopyPut(0x10, result, c % 8, base, p);
        result, cp := CopyPut(0x70, result, cp, base, p);
        result, cp := CopyPut(0x70, result, cp, base, p);
      } else if range == 6 {
        result, cp := CopyPut(0x70, result, c % 4, base, p);
        result, cp := CopyPut(0x70, result, cp, base, p);
        result, cp := CopyPut(0x70, result, cp, base, p);
      } else if range == 10 {
        result, cp := CopyPut(0x20, result, 0, base, p);
        result, cp := CopyPut(0x70, result, cp, base, p);
      } else if range == 11 {
        result, cp := CopyPut(0x60, result, 0, base, p);
        result, cp := CopyPut(0x70, result, cp, base, p);
        result, cp := CopyPut(0x70, result, cp, base, p);
      } else {
        result := false;
        Weaken(base, p);
      }
      Finished(base, p, result);
    }

    lemma Started(base: Text, start: nat, c: byte)
      requires start < |text| && pos == start + 1 && text[start] == c && out == base + [c]
      ensures Copied(base, start, true)
    {
      assert text[start..pos] == [c];
    }

    lemma Weaken(base: Text, start: nat)
      requires Copied(base, start, true)
      ensures Copied(base, start, false)
    {
    }

    lemma Finished(base: Text, start: nat, result: bool)
      requires Copied(base, start, result)
      ensures base <= out && (result ==> start <= pos <= |text| && out == base + text[start..pos])
    {
    }
  }
}
