/**
 The wire formats of the protocols CPBigEndian, CPLittleEndian and CPUniversalCMD, and chains of them:
 each layer puts its header in front of what the layer before has packed.
 */
module ProtocolFormats {
  import opened Bytes

  /** What came of a call: a value, a failed assertion, or an access to memory outside the buffer. */
  datatype Outcome<T> = Done(value: T) | Refused | Outside

  // Numbers in memory

  function Little16(n: nat): (w: Text)
    requires n < 0x1_0000
    ensures |w| == 2
  {
    [n % 256, n / 256]
  }

  function Little32(n: nat): (w: Text)
    requires n < 0x1_0000_0000
    ensures |w| == 4
  {
    [n % 256, n / 256 % 256, n / 65536 % 256, n / 16777216]
  }

  /** The same bytes, the highest first: what the bit fields raw_0 to raw_3 select. */
  function Big32(n: nat): (w: Text)
    requires n < 0x1_0000_0000
    ensures |w| == 4
  {
    var w := Little32(n);
    [w[3], w[2], w[1], w[0]]
  }

  function FromLittle16(w: Text): (n: nat)
    requires |w| == 2
    ensures n < 0x1_0000
  {
    var a: nat, b: nat := w[0], w[1];
    a + 256 * b
  }

  function FromLittle32(w: Text): (n: nat)
    requires |w| == 4
    ensures n < 0x1_0000_0000
  {
    var a: nat, b: nat, c: nat, d: nat := w[0], w[1], w[2], w[3];
    a + 256 * b + 65536 * c + 16777216 * d
  }

  function FromBig32(w: Text): nat
    requires |w| == 4
  {
    FromLittle32([w[3], w[2], w[1], w[0]])
  }

  lemma Little16RoundTrip(n: nat)
    requires n < 0x1_0000
    ensures FromLittle16(Little16(n)) == n
  {
  }

  lemma Little32RoundTrip(n: nat)
    requires n < 0x1_0000_0000
    ensures FromLittle32(Little32(n)) == n
  {
    var a, b, c := n / 256, n / 65536, n / 16777216;
    assert a == b * 256 + a % 256 && b == c * 256 + b % 256;
  }

  lemma Big32RoundTrip(n: nat)
    requires n < 0x1_0000_0000
    ensures FromBig32(Big32(n)) == n
  {
    Little32RoundTrip(n);
    var w := Big32(n);
    assert [w[3], w[2], w[1], w[0]] == Little32(n);
  }

  // Layers

  datatype Kind = BigEndian | LittleEndian | Universal

  /**
   What a protocol object knows of a packet. The endian protocols use the first two fields only; `when` is the
   eight bytes of the sending time.
   */
  datatype Header = Header(
    msgId: nat,
    length: nat,
    hsize: nat,
    state: nat,
    flag: nat,
    when: Text,
    isFrom: bool,
    from: Text)

  const CLEAN := Header(0, 0, 0, 0, 0, [0, 0, 0, 0, 0, 0, 0, 0], false, [])

  const SEGMENT_SIZE := 1500
  const UNIVERSAL_SIZE := 24

  /** The widths of the fields. */
  predicate InWidth(h: Header) {
    && h.msgId < 0x1_0000_0000 && h.length < 0x1_0000_0000 && h.hsize < 0x1_0000 && h.state < 0x1_0000 && h.flag < 0x100
    && |h.when| == 8
  }

  /** The 24 bytes of the universal command's header. */
  function UniversalBytes(h: Header): (w: Text)
    requires InWidth(h)
    ensures |w| == UNIVERSAL_SIZE
  {
    Little16(h.hsize) + Little16(h.state) + Little32(h.msgId) + Little32(h.length) + h.when
      + [h.flag, 0, 0, if h.isFrom then 1 else 0]
  }

  /** A packed segment: the header with its fields set, and the bytes. */
  datatype Packed = Packed(header: Header, segment: Text)

  /** What follows the fixed header of a universal command: the sender's name, as a C string. */
  function FromBytes(h: Header): Text {
    if h.isFrom then h.from + [NUL] else []
  }

  /** The header a universal command packs: the sizes are cut to the widths of their fields. */
  function UniversalHeader(h: Header, size: nat, from: Text, when: Text): (r: Header)
    requires InWidth(h) && |when| == 8
    ensures InWidth(r)
  {
    var isFrom := h.isFrom || from != [];
    var name := if from != [] then from else h.from;
    var hsize := UNIVERSAL_SIZE + if isFrom then |name| + 1 else 0;
    h.(when := when, isFrom := isFrom, from := name, length := size % 0x1_0000_0000, hsize := hsize % 0x1_0000)
  }

  /**
   `pack` of one layer. `from` is the sender's name, `when` the time. The universal command's buffer has room for
   what hsize says and the message; header and name are written first, then the message at hsize.
   */
  function Pack(kind: Kind, h: Header, msg: Text, from: Text, when: Text): Outcome<Packed>
    requires InWidth(h) && |when| == 8
  {
    match kind
    case BigEndian =>
      if msg == [] || |msg| >= SEGMENT_SIZE then Refused
      else Done(Packed(h.(length := |msg|), Big32(h.msgId) + Big32(|msg|) + msg))
    case LittleEndian =>
      if msg == [] || |msg| >= SEGMENT_SIZE then Refused
      else Done(Packed(h.(length := |msg|), Little32(h.msgId) + Little32(|msg|) + msg))
    case Universal =>
      var h1 := UniversalHeader(h, |msg|, from, when);
      var front := UniversalBytes(h1) + FromBytes(h1);
      if h1.flag == 0 || h1.state == 0 || h1.msgId == 0 || h1.length != |msg| then Refused
      else if |front| > h1.hsize + |msg| then Outside
      else Done(Packed(h1, front[..h1.hsize] + msg))
  }

  /** The C string at the beginning of `w`. */
  function CString(w: Text): Text {
    if w == [] || w[0] == NUL then [] else [w[0]] + CString(w[1..])
  }

  /** What a layer reads out of a segment: the header and the payload. */
  datatype Unpacked = Unpacked(header: Header, payload: Text)

  /** size_t is a 64-bit unsigned integer: differences wrap. */
  const SIZE_T := 0x1_0000_0000_0000_0000

  /** Is the sender's name, a C string behind the header, read past the end of the segment? */
  predicate NameRunsOut(raw: Text)
    requires |raw| > UNIVERSAL_SIZE
  {
    raw[23] != 0 && NUL !in raw[UNIVERSAL_SIZE..]
  }

  /**
   `unpack` of one layer, on a header `h`. The universal command compares the payload's size with a difference that
   wraps when the header is said to be longer than the segment.
   */
  function Unpack(kind: Kind, h: Header, raw: Text): Outcome<Unpacked> {
    match kind
    case BigEndian =>
      if |raw| <= 8 then Refused
      else
        var length := FromBig32(raw[4..8]);
        if length > |raw| - 8 then Refused
        else Done(Unpacked(h.(msgId := FromBig32(raw[0..4]), length := length), raw[8..8 + length]))
    case LittleEndian =>
      if |raw| <= 8 then Refused
      else
        var length := FromLittle32(raw[4..8]);
        if length > |raw| - 8 then Refused
        else Done(Unpacked(h.(msgId := FromLittle32(raw[0..4]), length := length), raw[8..8 + length]))
    case Universal =>
      if |raw| <= UNIVERSAL_SIZE then Refused
      else if NameRunsOut(raw) then Outside
      else
        var h1 := ReadUniversal(h, raw);
        if h1.length > (|raw| - h1.hsize) % SIZE_T then Refused
        else if h1.length == 0 then Done(Unpacked(h1, []))
        else if h1.hsize + h1.length > |raw| then Outside
        else Done(Unpacked(h1, raw[h1.hsize..h1.hsize + h1.length]))
  }

  /** The fixed header, and the sender's name behind it. */
  function ReadUniversal(h: Header, raw: Text): Header
    requires |raw| > UNIVERSAL_SIZE
  {
    Header(
      FromLittle32(raw[4..8]), FromLittle32(raw[8..12]), FromLittle16(raw[0..2]), FromLittle16(raw[2..4]), raw[20],
      raw[12..20], raw[23] != 0, if raw[23] != 0 then CString(raw[UNIVERSAL_SIZE..]) else h.from)
  }

  // One layer

  lemma {:induction false} CStringOfName(name: Text, rest: Text)
    requires NUL !in name
    ensures CString(name + [NUL] + rest) == name
  {
    if name != [] {
      var w := name + [NUL] + rest;
      assert w[1..] == name[1..] + [NUL] + rest;
      CStringOfName(name[1..], rest);
    }
  }

  lemma EndianRoundTrip(kind: Kind, h: Header, other: Header, msg: Text, from: Text, when: Text)
    requires !kind.Universal? && InWidth(h) && |when| == 8 && Pack(kind, h, msg, from, when).Done?
    ensures var p := Pack(kind, h, msg, from, when).value;
            Unpack(kind, other, p.segment) == Done(Unpacked(other.(msgId := h.msgId, length := |msg|), msg))
  {
    hide Little32, Big32, FromLittle32, FromBig32;
    var raw := Pack(kind, h, msg, from, when).value.segment;
    Little32RoundTrip(h.msgId); Little32RoundTrip(|msg|);
    Big32RoundTrip(h.msgId); Big32RoundTrip(|msg|);
    var a := if kind.BigEndian? then Big32(h.msgId) else Little32(h.msgId);
    var b := if kind.BigEndian? then Big32(|msg|) else Little32(|msg|);
    assert raw == a + b + msg;
    assert raw[0..4] == a && raw[4..8] == b && raw[8..8 + |msg|] == msg;
  }

  /** The fields of the universal header lie where they are read. */
  lemma UniversalFields(h: Header, rest: Text)
    requires InWidth(h)
    ensures var raw := UniversalBytes(h) + rest;
            && FromLittle16(raw[0..2]) == h.hsize && FromLittle16(raw[2..4]) == h.state
            && FromLittle32(raw[4..8]) == h.msgId && FromLittle32(raw[8..12]) == h.length
            && raw[12..20] == h.when && raw[20] == h.flag && raw[23] == (if h.isFrom then 1 else 0)
            && raw[UNIVERSAL_SIZE..] == rest
  {
    hide Little16, Little32, FromLittle16, FromLittle32;
    Little16RoundTrip(h.hsize); Little16RoundTrip(h.state);
    Little32RoundTrip(h.msgId); Little32RoundTrip(h.length);
    var a, b, c, d := Little16(h.hsize), Little16(h.state), Little32(h.msgId), Little32(h.length);
    var e: Text := [h.flag, 0, 0, if h.isFrom then 1 else 0];
    var raw := a + b + c + d + h.when + e + rest;
    assert raw[0..2] == a && raw[2..4] == b && raw[4..8] == c && raw[8..12] == d && raw[12..20] == h.when;
    assert raw[20..24] == e;
    assert raw[20] == raw[20..24][0] && raw[23] == raw[20..24][3];
  }

  /** The length of the header a layer puts in front, before hsize cuts it to 16 bits. */
  function FrontSize(kind: Kind, h: Header, from: Text): nat {
    if !kind.Universal? then 8
    else if from != [] then UNIVERSAL_SIZE + |from| + 1
    else UNIVERSAL_SIZE + if h.isFrom then |h.from| + 1 else 0
  }

  /**
   A universal command with a payload or a sender reads back, if its header fits hsize and the name holds no NUL. With
   neither, it is packed, but not unpacked.
   */
  lemma UniversalRoundTrip(h: Header, msg: Text, from: Text, when: Text)
    requires InWidth(h) && |when| == 8 && Pack(Universal, h, msg, from, when).Done?
    requires NUL !in from && NUL !in h.from && FrontSize(Universal, h, from) < 0x1_0000
    ensures var p := Pack(Universal, h, msg, from, when).value;
            Unpack(Universal, CLEAN, p.segment)
            == if msg == [] && !p.header.isFrom then Refused
               else Done(Unpacked(if p.header.isFrom then p.header else p.header.(from := []), msg))
  {
    hide UniversalBytes, Unpack;
    var h1 := Pack(Universal, h, msg, from, when).value.header;
    var front := UniversalBytes(h1) + FromBytes(h1);
    assert FrontSize(Universal, h, from) == |front| == h1.hsize;
    assert front[..h1.hsize] == front;
    UniversalReads(h1, msg);
  }

  lemma UniversalReads(h1: Header, msg: Text)
    requires InWidth(h1) && h1.hsize == UNIVERSAL_SIZE + |FromBytes(h1)| && h1.length == |msg| && NUL !in h1.from
    ensures Unpack(Universal, CLEAN, UniversalBytes(h1) + FromBytes(h1) + msg)
         == if msg == [] && !h1.isFrom then Refused
            else Done(Unpacked(if h1.isFrom then h1 else h1.(from := []), msg))
  {
    hide UniversalBytes, FromLittle16, FromLittle32, CString;
    var raw, tail := UniversalBytes(h1) + FromBytes(h1) + msg, FromBytes(h1) + msg;
    assert raw == UniversalBytes(h1) + tail;
    UniversalFields(h1, tail);
    if h1.isFrom {
      CStringOfName(h1.from, msg);
      assert NUL in tail by { assert tail[|h1.from|] == NUL; }
    }
    assert raw[h1.hsize..] == msg;
    if |raw| > UNIVERSAL_SIZE { assert raw[h1.hsize..h1.hsize + |msg|] == msg; }
  }

  /** A longer header is written over by the message: hsize is cut, and so is the room. */
  lemma LongHeaderOverwritten(h: Header, msg: Text, from: Text, when: Text)
    requires InWidth(h) && |when| == 8 && FrontSize(Universal, h, from) >= 0x1_0000
    ensures Pack(Universal, h, msg, from, when).Done? ==>
              var p := Pack(Universal, h, msg, from, when).value;
              && |p.segment| < FrontSize(Universal, h, from) + |msg|
              && p.segment[FrontSize(Universal, h, from) % 0x1_0000..] == msg
  {
    hide UniversalBytes;
    var r := Pack(Universal, h, msg, from, when);
    if r.Done? {
      var h1 := UniversalHeader(h, |msg|, from, when);
      CutAt(UniversalBytes(h1) + FromBytes(h1), h1.hsize, msg);
    }
  }

  lemma CutAt(front: Text, hsize: nat, msg: Text)
    requires hsize <= |front|
    ensures (front[..hsize] + msg)[hsize..] == msg
  {
  }

  // Reading inside the segment

  /** Does a layer read only inside the segment? */
  predicate ReadsInside(kind: Kind, raw: Text) {
    kind.Universal? && |raw| > UNIVERSAL_SIZE ==>
      && (raw[23] != 0 ==> NUL in raw[UNIVERSAL_SIZE..])
      && (FromLittle32(raw[8..12]) > 0 ==> FromLittle16(raw[0..2]) <= |raw|)
  }

  /** Exactly when hsize is beyond the segment's length, or the name has no end, something outside is read. */
  lemma InsideExactly(kind: Kind, h: Header, raw: Text)
    ensures Unpack(kind, h, raw).Outside? <==> !ReadsInside(kind, raw)
  {
    hide CString, FromBig32;
    if kind.Universal? && |raw| > UNIVERSAL_SIZE && FromLittle16(raw[0..2]) > |raw| {
      WrapsUp(|raw|, FromLittle16(raw[0..2]));
    }
  }

  /** The difference wraps to more than any payload's size. */
  lemma WrapsUp(size: nat, hsize: nat)
    requires size < hsize < 0x1_0000
    ensures (size - hsize) % SIZE_T == SIZE_T + size - hsize >= 0x1_0000_0000
  {
  }

  /** The payload that layer `k` of a chain unpacks. */
  function InputOf(kinds: seq<Kind>, k: nat, raw: Text): Text
    requires k < |kinds| && UnpackChain(kinds, k + 1, raw).Done?
  {
    var above := UnpackChain(kinds, k + 1, raw).value;
    if above == [] then raw else above[0].payload
  }

  /** A chain reads outside a segment exactly when some layer it reaches does. */
  lemma {:induction false} ChainInsideExactly(kinds: seq<Kind>, k: nat, raw: Text)
    requires k <= |kinds|
    ensures UnpackChain(kinds, k, raw).Outside?
       <==> exists j | k <= j < |kinds| ::
          UnpackChain(kinds, j + 1, raw).Done? && !ReadsInside(kinds[j], InputOf(kinds, j, raw))
    decreases |kinds| - k
  {
    hide Unpack, UnpackChain, ReadsInside;
    UnpackChainStep(kinds, k, raw);
    if k < |kinds| {
      ChainInsideExactly(kinds, k + 1, raw);
      if UnpackChain(kinds, k + 1, raw).Done? {
        InsideExactly(kinds[k], CLEAN, InputOf(kinds, k, raw));
      }
    }
  }

  /** A segment of 25 bytes that claims a header of 100 and a payload of one. */
  lemma HeaderBeyondSegment(h: Header)
    ensures var raw := UniversalBytes(CLEAN.(hsize := 100, length := 1)) + [NUL];
            Unpack(Universal, h, raw) == Outside
  {
    hide UniversalBytes, FromLittle16, FromLittle32;
    UniversalFields(CLEAN.(hsize := 100, length := 1), [NUL]);
    var raw := UniversalBytes(CLEAN.(hsize := 100, length := 1)) + [NUL];
    InsideExactly(Universal, h, raw);
  }

  // Chains

  /** A layer of a chain: its protocol, and the header its owner has set. */
  datatype Layer = Layer(kind: Kind, header: Header)

  /** Pack `msg` through the layers from `k` on. */
  function PackChain(layers: seq<Layer>, k: nat, msg: Text, from: Text, when: Text): Outcome<Text>
    requires k <= |layers| && |when| == 8 && forall l <- layers :: InWidth(l.header)
    decreases |layers| - k
  {
    if k == |layers| then Done(msg)
    else
      match Pack(layers[k].kind, layers[k].header, msg, from, when)
      case Refused => Refused
      case Outside => Outside
      case Done(p) => PackChain(layers, k + 1, p.segment, from, when)
  }

  /** What unpacking through the layers down to `k` leaves at each of them, the layer `k` first. */
  function UnpackChain(kinds: seq<Kind>, k: nat, raw: Text): Outcome<seq<Unpacked>>
    requires k <= |kinds|
    decreases |kinds| - k
  {
    if k == |kinds| then Done([])
    else
      var above := UnpackChain(kinds, k + 1, raw);
      if !above.Done? then above
      else
        match Unpack(kinds[k], CLEAN, if above.value == [] then raw else above.value[0].payload)
        case Refused => Refused
        case Outside => Outside
        case Done(u) => Done([u] + above.value)
  }

  function Kinds(layers: seq<Layer>): seq<Kind> {
    seq(|layers|, k requires 0 <= k < |layers| => layers[k].kind)
  }

  /** Names hold no NUL, and headers with names fit hsize. */
  predicate NamesFit(layers: seq<Layer>, from: Text) {
    && NUL !in from
    && (forall l <- layers :: NUL !in l.header.from)
    && (forall l <- layers :: FrontSize(l.kind, l.header, from) < 0x1_0000)
  }

  lemma LayerRoundTrip(l: Layer, msg: Text, from: Text, when: Text)
    requires InWidth(l.header) && |when| == 8 && msg != [] && NamesFit([l], from)
    requires Pack(l.kind, l.header, msg, from, when).Done?
    ensures var p := Pack(l.kind, l.header, msg, from, when).value;
            && p.segment != []
            && var u := Unpack(l.kind, CLEAN, p.segment);
               u.Done? && u.value.payload == msg && u.value.header.msgId == l.header.msgId
  {
    assert l in [l];
    if l.kind.Universal? {
      hide UniversalBytes, Unpack;
      UniversalRoundTrip(l.header, msg, from, when);
    } else {
      EndianRoundTrip(l.kind, l.header, CLEAN, msg, from, when);
    }
  }

  /** The message and the message ids that unpacking must restore; no payload on the way is empty. */
  predicate Restored(us: seq<Unpacked>, layers: seq<Layer>, k: nat, msg: Text)
    requires k <= |layers|
  {
    && |us| == |layers| - k
    && (forall i | 0 <= i < |us| :: us[i].header.msgId == layers[k + i].header.msgId && us[i].payload != [])
    && (us != [] ==> us[0].payload == msg)
  }

  /**
   The theorem, for chains of any length: if every layer packs, unpacking with a clean chain of the same protocols
   restores the message at the first protocol and the message id at every layer.
   */
  lemma {:induction false} ChainRoundTrip(layers: seq<Layer>, k: nat, msg: Text, from: Text, when: Text)
    requires k <= |layers| && |when| == 8 && msg != [] && NamesFit(layers, from)
    requires forall l <- layers :: InWidth(l.header)
    requires PackChain(layers, k, msg, from, when).Done?
    ensures var us := UnpackChain(Kinds(layers), k, PackChain(layers, k, msg, from, when).value);
            us.Done? && Restored(us.value, layers, k, msg)
    decreases |layers| - k
  {
    hide Pack, Unpack, PackChain, UnpackChain, Restored;
    PackChainStep(layers, k, msg, from, when);
    var raw := PackChain(layers, k, msg, from, when).value;
    UnpackChainStep(Kinds(layers), k, raw);
    if k == |layers| {
      NothingRestored(layers, msg);
    } else {
      var p := Pack(layers[k].kind, layers[k].header, msg, from, when).value;
      assert NamesFit([layers[k]], from);
      LayerRoundTrip(layers[k], msg, from, when);
      ChainRoundTrip(layers, k + 1, p.segment, from, when);
      var above := UnpackChain(Kinds(layers), k + 1, raw).value;
      PayloadAbove(layers, k + 1, p.segment, above);
      PackChainStep(layers, k + 1, p.segment, from, when);
      OneRestored(layers, k, p.segment, above, Unpack(layers[k].kind, CLEAN, p.segment).value, msg);
    }
  }

  lemma PackChainStep(layers: seq<Layer>, k: nat, msg: Text, from: Text, when: Text)
    requires k <= |layers| && |when| == 8 && forall l <- layers :: InWidth(l.header)
    ensures k == |layers| ==> PackChain(layers, k, msg, from, when) == Done(msg)
    ensures k < |layers| ==>
              var p := Pack(layers[k].kind, layers[k].header, msg, from, when);
              && (p.Done? ==>
                  PackChain(layers, k, msg, from, when)
                  == PackChain(layers, k + 1, p.value.segment, from, when))
              && (p.Refused? ==> PackChain(layers, k, msg, from, when).Refused?)
              && (p.Outside? ==> PackChain(layers, k, msg, from, when).Outside?)
  {
    hide Pack;
  }

  lemma UnpackChainStep(kinds: seq<Kind>, k: nat, raw: Text)
    requires k <= |kinds|
    ensures k == |kinds| ==> UnpackChain(kinds, k, raw) == Done([])
    ensures k < |kinds| && !UnpackChain(kinds, k + 1, raw).Done?
            ==> UnpackChain(kinds, k, raw) == UnpackChain(kinds, k + 1, raw)
    ensures k < |kinds| && UnpackChain(kinds, k + 1, raw).Done? ==>
              var above := UnpackChain(kinds, k + 1, raw).value;
              var u := Unpack(kinds[k], CLEAN, if above == [] then raw else above[0].payload);
              && (u.Done? ==> UnpackChain(kinds, k, raw) == Done([u.value] + above))
              && (u.Refused? ==> UnpackChain(kinds, k, raw).Refused?)
              && (u.Outside? ==> UnpackChain(kinds, k, raw).Outside?)
  {
    hide Unpack;
  }

  lemma NothingRestored(layers: seq<Layer>, msg: Text)
    ensures Restored([], layers, |layers|, msg)
  {
  }

  lemma PayloadAbove(layers: seq<Layer>, k: nat, msg: Text, above: seq<Unpacked>)
    requires k <= |layers| && Restored(above, layers, k, msg)
    ensures above == [] ==> k == |layers|
    ensures above != [] ==> above[0].payload == msg
  {
  }

  lemma OneRestored(layers: seq<Layer>, k: nat, segment: Text, above: seq<Unpacked>, u: Unpacked, msg: Text)
    requires k < |layers| && Restored(above, layers, k + 1, segment)
    requires u.payload == msg != [] && u.header.msgId == layers[k].header.msgId
    ensures Restored([u] + above, layers, k, msg)
  {
    var us := [u] + above;
    forall i | 0 <= i < |us| ensures us[i].header.msgId == layers[k + i].header.msgId && us[i].payload != [] {
      if i > 0 { assert us[i] == above[i - 1]; }
    }
  }

  // What can be packed

  /** The header as hsize says it. */
  function RoomSize(l: Layer, from: Text): nat {
    FrontSize(l.kind, l.header, from) % 0x1_0000
  }

  /** The size of the input of layer `k`, for a message of `n` bytes: the headers in front add up. */
  function SizeAt(layers: seq<Layer>, k: nat, n: nat, from: Text): nat
    requires k <= |layers|
  {
    if k == 0 then n else SizeAt(layers, k - 1, n, from) + RoomSize(layers[k - 1], from)
  }

  /** What a layer needs to know of its input is the size. */
  predicate Packs(l: Layer, n: nat, from: Text) {
    if l.kind.Universal? then
      && l.header.flag != 0 && l.header.state != 0 && l.header.msgId != 0 && n < 0x1_0000_0000
      && FrontSize(l.kind, l.header, from) <= RoomSize(l, from) + n
    else 0 < n < SEGMENT_SIZE
  }

  lemma PacksExactly(l: Layer, msg: Text, from: Text, when: Text)
    requires InWidth(l.header) && |when| == 8
    ensures var p := Pack(l.kind, l.header, msg, from, when);
            && (p.Done? <==> Packs(l, |msg|, from))
            && (p.Done? ==> |p.value.segment| == |msg| + RoomSize(l, from))
  {
    hide UniversalBytes, Big32, Little32;
  }

  /**
   The theorem about chains of any length: a message can be packed if and only if it is under 1500 bytes where it
   reaches an endian layer, all headers in front of it included, and every universal layer has its fields set and
   finds room.
   */
  lemma {:induction false} ChainPacksExactly(layers: seq<Layer>, msg: Text, from: Text, when: Text)
    requires |when| == 8 && forall l <- layers :: InWidth(l.header)
    ensures PackChain(layers, 0, msg, from, when).Done?
       <==> forall i | 0 <= i < |layers| :: Packs(layers[i], SizeAt(layers, i, |msg|, from), from)
    ensures PackChain(layers, 0, msg, from, when).Done? ==>
              |PackChain(layers, 0, msg, from, when).value| == SizeAt(layers, |layers|, |msg|, from)
  {
    hide PackChain, Packs;
    PacksFrom(layers, 0, msg, |msg|, from, when);
  }

  lemma {:induction false} PacksFrom(layers: seq<Layer>, k: nat, msg: Text, n: nat, from: Text, when: Text)
    requires k <= |layers| && |when| == 8 && forall l <- layers :: InWidth(l.header)
    requires |msg| == SizeAt(layers, k, n, from)
    ensures PackChain(layers, k, msg, from, when).Done?
       <==> forall i | k <= i < |layers| :: Packs(layers[i], SizeAt(layers, i, n, from), from)
    ensures PackChain(layers, k, msg, from, when).Done? ==>
              |PackChain(layers, k, msg, from, when).value| == SizeAt(layers, |layers|, n, from)
    decreases |layers| - k
  {
    hide Pack, PackChain, Packs, RoomSize;
    PackChainStep(layers, k, msg, from, when);
    if k < |layers| {
      PacksExactly(layers[k], msg, from, when);
      var p := Pack(layers[k].kind, layers[k].header, msg, from, when);
      if p.Done? { PacksFrom(layers, k + 1, p.value.segment, n, from, when); }
    }
  }
}
