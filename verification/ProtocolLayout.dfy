/**
 The bytes on the wire, by numbers: which byte of a segment is which digit, in base 256, of which field. A format
 that only reads back what it has written could put them anywhere.
 */
module ProtocolLayout {
  import opened Bytes
  import opened ProtocolFormats

  function Power256(k: nat): (n: nat)
    ensures n > 0
  {
    if k == 0 then 1 else 256 * Power256(k - 1)
  }

  /** The digit of `n` that counts 256^k. */
  function Digit(n: nat, k: nat): byte {
    n / Power256(k) % 256
  }

  /** The number `n` fills the `width` bytes of `w` from `at` on, the highest digit first, or the lowest. */
  ghost predicate Stored(w: Text, at: nat, width: nat, n: nat, highestFirst: bool) {
    && at + width <= |w|
    && n < Power256(width)
    && forall i | at <= i < at + width :: w[i] == Digit(n, if highestFirst then at + width - 1 - i else i - at)
  }

  lemma Powers()
    ensures Power256(0) == 1 && Power256(1) == 0x100 && Power256(2) == 0x1_0000
    ensures Power256(3) == 0x100_0000 && Power256(4) == 0x1_0000_0000
  {
    assert Power256(2) == 256 * Power256(1);
    assert Power256(3) == 256 * Power256(2);
    assert Power256(4) == 256 * Power256(3);
  }

  lemma Digits16(w: Text)
    requires |w| == 2
    ensures var n := FromLittle16(w); n < Power256(2) && Digit(n, 0) == w[0] && Digit(n, 1) == w[1]
  {
    hide Power256;
    Powers();
    var n := FromLittle16(w);
    assert n / 1 == n;
  }

  lemma Digits32(w: Text)
    requires |w| == 4
    ensures var n := FromLittle32(w);
            && n < Power256(4)
            && Digit(n, 0) == w[0] && Digit(n, 1) == w[1] && Digit(n, 2) == w[2] && Digit(n, 3) == w[3]
  {
    hide Power256;
    Powers();
    var n := FromLittle32(w);
    var a: nat, b: nat, c: nat, d: nat := w[0], w[1], w[2], w[3];
    assert n / 1 == n;
    assert n / 0x100 == b + 256 * c + 65536 * d;
    assert n / 0x1_0000 == c + 256 * d;
  }

  /** Two bytes that are read stand for the number read. */
  lemma {:induction false} Reads16(w: Text, at: nat)
    requires at + 2 <= |w|
    ensures Stored(w, at, 2, FromLittle16(w[at..at + 2]), false)
  {
    hide Power256, Digit, FromLittle16;
    Digits16(w[at..at + 2]);
  }

  /** Four bytes that are read stand for the number read, in both orders. */
  lemma {:induction false} Reads32(w: Text, at: nat)
    requires at + 4 <= |w|
    ensures Stored(w, at, 4, FromLittle32(w[at..at + 4]), false)
    ensures Stored(w, at, 4, FromBig32(w[at..at + 4]), true)
  {
    hide Power256, Digit, FromLittle32;
    var v := w[at..at + 4];
    Digits32(v);
    Digits32([v[3], v[2], v[1], v[0]]);
  }

  /** A segment of an endian protocol: msg_id, length and message, the numbers in the protocol's byte order. */
  ghost predicate EndianLayout(kind: Kind, raw: Text, msgId: nat, msg: Text) {
    && |raw| == 8 + |msg|
    && Stored(raw, 0, 4, msgId, kind.BigEndian?)
    && Stored(raw, 4, 4, |msg|, kind.BigEndian?)
    && raw[8..] == msg
  }

  lemma EndianIsLaidOut(kind: Kind, a: nat, b: nat, msg: Text)
    requires a < 0x1_0000_0000 && b == |msg| < 0x1_0000_0000
    ensures EndianLayout(kind, (if kind.BigEndian? then Big32(a) + Big32(b) else Little32(a) + Little32(b)) + msg, a,
                         msg)
  {
    hide Little32, Big32, FromLittle32, FromBig32, Stored;
    Little32RoundTrip(a); Little32RoundTrip(b);
    Big32RoundTrip(a); Big32RoundTrip(b);
    var u, v := if kind.BigEndian? then Big32(a) else Little32(a), if kind.BigEndian? then Big32(b) else Little32(b);
    var raw := u + v + msg;
    assert raw[0..4] == u && raw[4..8] == v && raw[8..] == msg;
    Reads32(raw, 0);
    Reads32(raw, 4);
  }

  /** What an endian protocol packs. */
  lemma PackLayout(kind: Kind, h: Header, msg: Text, from: Text, when: Text)
    requires !kind.Universal? && InWidth(h) && |when| == 8 && Pack(kind, h, msg, from, when).Done?
    ensures EndianLayout(kind, Pack(kind, h, msg, from, when).value.segment, h.msgId, msg)
  {
    hide Little32, Big32, EndianLayout;
    EndianIsLaidOut(kind, h.msgId, |msg|, msg);
  }

  /** What an endian protocol unpacks out of any bytes: it succeeds exactly when the length they hold fits. */
  lemma UnpackLayout(kind: Kind, h: Header, raw: Text)
    requires !kind.Universal?
    ensures var r := Unpack(kind, h, raw);
            && (r.Done? ==>
                  var n := r.value.header.length;
                  && |raw| > 8 && 8 + n <= |raw| && r.value.payload == raw[8..8 + n]
                  && Stored(raw, 0, 4, r.value.header.msgId, kind.BigEndian?)
                  && Stored(raw, 4, 4, n, kind.BigEndian?))
            && (!r.Done? ==>
                  r.Refused? && (|raw| > 8 ==> exists n :: n > |raw| - 8 && Stored(raw, 4, 4, n, kind.BigEndian?)))
  {
    hide FromLittle32, FromBig32, Stored;
    if |raw| > 8 {
      Reads32(raw, 0);
      Reads32(raw, 4);
    }
  }

  /** The part of the bytes that is read is a segment with the payload for its message. */
  lemma UnpackPrefix(kind: Kind, h: Header, raw: Text)
    requires !kind.Universal?
    ensures var r := Unpack(kind, h, raw);
            r.Done? ==>
              var u := r.value;
              && u.header.length == |u.payload| && 8 + u.header.length <= |raw|
              && EndianLayout(kind, raw[..8 + u.header.length], u.header.msgId, u.payload)
  {
    hide FromLittle32, FromBig32, Stored;
    var r := Unpack(kind, h, raw);
    if r.Done? {
      var part := raw[..8 + r.value.header.length];
      assert part[0..4] == raw[0..4] && part[4..8] == raw[4..8];
      Reads32(part, 0);
      Reads32(part, 4);
    }
  }

  /** The fixed header of a universal command: two sizes, two numbers, eight bytes of time, and four single bytes. */
  ghost predicate UniversalLayout(raw: Text, h: Header) {
    && |raw| >= UNIVERSAL_SIZE
    && Stored(raw, 0, 2, h.hsize, false)
    && Stored(raw, 2, 2, h.state, false)
    && Stored(raw, 4, 4, h.msgId, false)
    && Stored(raw, 8, 4, h.length, false)
    && raw[12..20] == h.when
    && raw[20] == h.flag
    && (raw[23] != 0 <==> h.isFrom)
  }

  lemma UniversalIsRead(raw: Text, h: Header)
    requires |raw| > UNIVERSAL_SIZE
    ensures UniversalLayout(raw, ReadUniversal(h, raw))
  {
    hide FromLittle16, FromLittle32, CString, Stored;
    Reads16(raw, 0);
    Reads16(raw, 2);
    Reads32(raw, 4);
    Reads32(raw, 8);
  }

  lemma UniversalIsLaidOut(h: Header, rest: Text)
    requires InWidth(h)
    ensures var raw := UniversalBytes(h) + rest;
            UniversalLayout(raw, h) && raw[21] == raw[22] == 0 && raw[23] in {0, 1} && raw[UNIVERSAL_SIZE..] == rest
  {
    hide FromLittle16, FromLittle32, Little16, Little32, Stored;
    var raw := UniversalBytes(h) + rest;
    hide UniversalBytes;
    UniversalFields(h, rest);
    Reads16(raw, 0);
    Reads16(raw, 2);
    Reads32(raw, 4);
    Reads32(raw, 8);
    UniversalReserved(h, rest);
  }

  lemma UniversalReserved(h: Header, rest: Text)
    requires InWidth(h)
    ensures var raw := UniversalBytes(h) + rest;
            raw[21] == raw[22] == 0
  {
    hide Little16, Little32;
  }

  /** What a universal command packs, if its header fits hsize: fixed header, sender and NUL if any, message. */
  lemma UniversalPackLayout(h: Header, msg: Text, from: Text, when: Text)
    requires InWidth(h) && |when| == 8 && Pack(Universal, h, msg, from, when).Done?
    requires FrontSize(Universal, h, from) < 0x1_0000
    ensures var p := Pack(Universal, h, msg, from, when).value;
            var name := if from != [] then from else h.from;
            var n := UNIVERSAL_SIZE + if h.isFrom || from != [] then |name| + 1 else 0;
            && UniversalLayout(p.segment, Header(h.msgId, |msg|, n, h.state, h.flag, when, h.isFrom
              || from != [], name))
            && p.segment[21] == p.segment[22] == 0 && p.segment[23] in {0, 1}
            && |p.segment| == n + |msg| && p.segment[n..] == msg
            && (h.isFrom || from != [] ==> p.segment[UNIVERSAL_SIZE..n] == name + [NUL])
  {
    hide UniversalBytes, UniversalLayout;
    var h1 := Pack(Universal, h, msg, from, when).value.header;
    var front := UniversalBytes(h1) + FromBytes(h1);
    assert |front| == h1.hsize && front[..h1.hsize] == front;
    assert front + msg == UniversalBytes(h1) + (FromBytes(h1) + msg);
    UniversalIsLaidOut(h1, FromBytes(h1) + msg);
  }

  /** What a universal command unpacks out of any bytes: the fields where they lie, and the payload at hsize. */
  lemma UniversalUnpackLayout(h: Header, raw: Text)
    ensures var r := Unpack(Universal, h, raw);
            r.Done? ==>
              var h1 := r.value.header;
              && UniversalLayout(raw, h1)
              && h1.length == |r.value.payload|
              && (h1.length > 0 ==>
                    h1.hsize + h1.length <= |raw| && r.value.payload == raw[h1.hsize..h1.hsize + h1.length])
              && (h1.isFrom ==>
                    && UNIVERSAL_SIZE + |h1.from| < |raw| && NUL !in h1.from
                    && raw[UNIVERSAL_SIZE..UNIVERSAL_SIZE + |h1.from| + 1] == h1.from + [NUL])
              && (!h1.isFrom ==> h1.from == h.from)
  {
    hide UniversalLayout, CString, FromLittle16, FromLittle32;
    if Unpack(Universal, h, raw).Done? {
      UniversalIsRead(raw, h);
      if raw[23] != 0 {
        CStringEnds(raw[UNIVERSAL_SIZE..]);
        var name := CString(raw[UNIVERSAL_SIZE..]);
        assert raw[UNIVERSAL_SIZE..][..|name| + 1] == raw[UNIVERSAL_SIZE..UNIVERSAL_SIZE + |name| + 1];
      }
    }
  }

  lemma {:induction false} CStringEnds(w: Text)
    requires NUL in w
    ensures var name := CString(w); |name| < |w| && NUL !in name && w[..|name| + 1] == name + [NUL]
  {
    if w[0] != NUL {
      CStringEnds(w[1..]);
      var rest := CString(w[1..]);
      assert CString(w) == [w[0]] + rest;
      assert w[..|rest| + 2] == [w[0]] + w[1..][..|rest| + 1];
    }
  }
}
