/**
 Protocol objects and chains of them as they run: headers are overwritten, raw buffers are filled in
 place, segments are appended, and the chain is walked to the last protocol when packing and back to the first
 when unpacking.
 */
module ProtocolChain {
  import opened Bytes
  import opened ProtocolFormats
  import Layout = ProtocolLayout

  /** `memcpy` into a raw buffer. */
  method MemCpy(raw: array<byte>, at: nat, w: Text)
    requires at + |w| <= raw.Length
    modifies raw
    ensures raw[..at] == old(raw[..at]) && raw[at..at + |w|] == w && raw[at + |w|..] == old(raw[at + |w|..])
  {
    var i := 0;
    while i < |w|
      invariant i <= |w| && raw[..at] == old(raw[..at]) && raw[at..at + i] == w[..i]
                && raw[at + i..] == old(raw[at + i..])
    {
      raw[at + i] := w[i];
      i := i + 1;
      assert raw[at..at + i] == raw[at..at + i - 1] + [w[i - 1]];
      assert old(raw[at + i - 1..])[1..] == old(raw[at + i..]);
      assert raw[at + i - 1..][1..] == raw[at + i..];
    }
  }

  /** Fill a raw buffer: header, what follows it, message. */
  method Fill(raw: array<byte>, a: Text, b: Text, c: Text)
    requires raw.Length == |a| + |b| + |c|
    modifies raw
    ensures raw[..] == a + b + c
  {
    MemCpy(raw, 0, a);
    assert raw[0..|a|] == raw[..|a|];
    MemCpy(raw, |a|, b);
    assert raw[..|a| + |b|] == raw[..|a|] + raw[|a|..|a| + |b|];
    MemCpy(raw, |a| + |b|, c);
    assert raw[..] == raw[..|a| + |b|] + raw[|a| + |b|..|a| + |b| + |c|];
  }

  /** Write what stands in front, and the message at `hsize`, over its end if hsize says so. */
  method Overlay(raw: array<byte>, front: Text, hsize: nat, msg: Text)
    requires hsize <= |front| <= raw.Length == hsize + |msg|
    modifies raw
    ensures raw[..] == front[..hsize] + msg
  {
    MemCpy(raw, 0, front);
    assert raw[..hsize] == raw[0..|front|][..hsize];
    MemCpy(raw, hsize, msg);
    assert raw[..] == raw[..hsize] + raw[hsize..hsize + |msg|];
  }

  class Protocol {
    const kind: Kind
    var header: Header
    var segments: seq<Text>
    var payload: Text

    constructor (kind: Kind)
      ensures this.kind == kind && header == CLEAN && segments == [] && payload == []
    {
      this.kind := kind;
      header, segments, payload := CLEAN, [], [];
    }

    /** `clean_data`, for one protocol. */
    method CleanData(txData: bool, rxData: bool)
      modifies this
      ensures segments == if txData then [] else old(segments)
      ensures rxData ==> header == CLEAN && payload == []
      ensures !rxData ==> header == old(header) && payload == old(payload)
    {
      if txData {
        segments := [];
      }
      if rxData {
        payload := [];
        header := CLEAN;
      }
    }

    /** `pack_raw_data` of the endian protocols; false when its assertion fails. */
    method PackRawData(msg: Text, raw: array<byte>) returns (ok: bool)
      requires !kind.Universal? && InWidth(header) && raw.Length == |msg| + 8
      modifies this`header, raw
      ensures ok == (0 < |msg| < SEGMENT_SIZE)
      ensures ok ==> header == old(header).(length := |msg|)
      ensures ok ==> raw[..] == (if kind.BigEndian? then Big32(header.msgId) + Big32(|msg|)
                             else Little32(header.msgId) + Little32(|msg|)) + msg
      ensures ok ==> Layout.EndianLayout(kind, raw[..], old(header).msgId, msg)
    {
      hide Little32, Big32, Layout.EndianLayout;
      ok := 0 < |msg| < SEGMENT_SIZE;
      if !ok {
        return;
      }
      header := header.(length := |msg|);
      var a := if kind.BigEndian? then Big32(header.msgId) else Little32(header.msgId);
      var b := if kind.BigEndian? then Big32(header.length) else Little32(header.length);
      Fill(raw, a, b, msg);
      Layout.EndianIsLaidOut(kind, header.msgId, |msg|, msg);
    }

    /** `pack` of the endian protocols: the loop that was meant to cut segments. */
    method PackEndian(msg: Text, isUdp: bool) returns (ok: bool)
      requires !kind.Universal? && InWidth(header)
      modifies this`header, this`segments
      ensures ok == (|msg| < SEGMENT_SIZE)
      ensures ok && msg == [] ==> segments == old(segments) && header == old(header)
      ensures ok && msg != [] ==> var p := ProtocolFormats.Pack(kind, old(header), msg, [], [0, 0, 0, 0, 0, 0, 0, 0]);
                p.Done? && header == p.value.header && segments == old(segments) + [p.value.segment]
    {
      var msgSize := |msg|;
      ok := true;
      while msgSize > 0
        invariant msgSize == |msg| || msgSize == 0
        invariant msgSize == |msg| ==> segments == old(segments) && header == old(header)
        invariant msgSize == 0 && msg != [] ==> |msg| < SEGMENT_SIZE
        invariant msgSize == 0 && msg != [] ==>
                    var p := ProtocolFormats.Pack(kind, old(header), msg, [], [0, 0, 0, 0, 0, 0, 0, 0]);
                    p.Done? && header == p.value.header && segments == old(segments) + [p.value.segment]
        decreases msgSize
      {
        if isUdp && msgSize >= SEGMENT_SIZE {
          return false;
        }
        var length := if msgSize >= SEGMENT_SIZE then SEGMENT_SIZE else msgSize;
        msgSize := msgSize - length;
        var raw := new byte[length + 8];
        var packed := PackRawData(msg[..length], raw);
        if !packed {
          return false;
        }
        assert msg[..length] == msg;
        segments := segments + [raw[..]];
      }
    }

    /** `pack` of the universal command; the buffer is not touched when a write would leave it. */
    method PackUniversal(msg: Text, from: Text, when: Text) returns (ok: bool, outside: bool)
      requires kind.Universal? && InWidth(header) && |when| == 8
      modifies this`header, this`segments
      ensures header == UniversalHeader(old(header), |msg|, from, when)
      ensures var r := ProtocolFormats.Pack(kind, old(header), msg, from, when);
              && ok == r.Done? && outside == r.Outside?
              && segments == old(segments) + if ok then [r.value.segment] else []
    {
      hide UniversalBytes;
      ok, outside := false, false;
      header := header.(when := when);
      if from != [] {
        header := header.(from := from, isFrom := true);
      }
      header := header.(length := |msg| % 0x1_0000_0000);
      SetHeaderSize();
      if header.flag == 0 || header.state == 0 || header.msgId == 0 || header.length != |msg| {
        return;
      }
      var front := UniversalBytes(header) + FromBytes(header);
      var raw := new byte[|msg| + header.hsize];
      if |front| > raw.Length {
        outside := true;
        return;
      }
      Overlay(raw, front, header.hsize, msg);
      segments := segments + [raw[..]];
      ok := true;
    }

    /** The sum is cut to 16 bits. */
    method SetHeaderSize()
      modifies this`header
      ensures header == old(header).(hsize := (UNIVERSAL_SIZE + |FromBytes(old(header))|) % 0x1_0000)
    {
      header := header.(hsize := UNIVERSAL_SIZE);
      if header.isFrom {
        header := header.(hsize := (header.hsize + |header.from| + 1) % 0x1_0000);
      }
    }

    /** `pack`. An endian protocol packs an empty message by doing nothing; every other outcome is the format's. */
    method Pack(msg: Text, isUdp: bool, from: Text, when: Text) returns (ok: bool, outside: bool)
      requires InWidth(header) && |when| == 8
      modifies this`header, this`segments
      ensures if msg == [] && !kind.Universal? then
                ok && !outside && segments == old(segments) && header == old(header)
              else
                var r := ProtocolFormats.Pack(kind, old(header), msg, from, when);
                && ok == r.Done? && outside == r.Outside?
                && (ok ==> header == r.value.header && segments == old(segments) + [r.value.segment])
    {
      if kind.Universal? {
        ok, outside := PackUniversal(msg, from, when);
      } else {
        ok := PackEndian(msg, isUdp);
        outside := false;
      }
    }

    /** `unpack`, on a clean object; it stops where it would read outside the segment. */
    method Unpack(raw: Text) returns (ok: bool, outside: bool)
      requires header == CLEAN && payload == []
      modifies this`header, this`payload
      ensures var r := ProtocolFormats.Unpack(kind, CLEAN, raw);
              ok == r.Done? && outside == r.Outside? && (ok ==> Unpacked(header, payload) == r.value)
      ensures ok && !kind.Universal? ==> 8 + header.length <= |raw|
      ensures ok && !kind.Universal? ==>
                Layout.EndianLayout(kind, raw[..8 + header.length], header.msgId, payload)
                && header.length == |payload|
      ensures ok && kind.Universal? ==> Layout.UniversalLayout(raw, header) && header.length == |payload|
    {
      hide FromBig32, FromLittle32, FromLittle16, CString, Layout.EndianLayout, Layout.UniversalLayout;
      if kind.Universal? { Layout.UniversalUnpackLayout(CLEAN, raw); } else { Layout.UnpackPrefix(kind, CLEAN, raw); }
      ok, outside := false, false;
      if kind.Universal? {
        if |raw| <= UNIVERSAL_SIZE {
          return;
        }
        if raw[23] != 0 && NUL !in raw[UNIVERSAL_SIZE..] {
          outside := true;
          return;
        }
        header := ReadUniversal(header, raw);
        if header.length > (|raw| - header.hsize) % SIZE_T {
          return;
        }
        if header.length > 0 {
          if header.hsize + header.length > |raw| {
            outside := true;
            return;
          }
          payload := raw[header.hsize..header.hsize + header.length];
        }
        ok := true;
      } else {
        if |raw| <= 8 {
          return;
        }
        header := if kind.BigEndian? then header.(msgId := FromBig32(raw[0..4]), length := FromBig32(raw[4..8]))
                  else header.(msgId := FromLittle32(raw[0..4]), length := FromLittle32(raw[4..8]));
        if header.length > |raw| - 8 {
          return;
        }
        payload := raw[8..8 + header.length];
        ok := true;
      }
    }
  }

  // Chains

  predicate Distinct(chain: seq<Protocol>) {
    forall i, j | 0 <= i < j < |chain| :: chain[i] != chain[j]
  }

  /** `clean_data`: the loop over the chain. */
  method CleanChain(chain: seq<Protocol>, txData: bool, rxData: bool)
    requires Distinct(chain)
    modifies chain
    ensures forall p <- chain :: p.segments == if txData then [] else old(p.segments)
    ensures if rxData then Untouched(chain)
            else forall p <- chain :: p.header == old(p.header) && p.payload == old(p.payload)
  {
    var k := 0;
    while k < |chain|
      invariant k <= |chain|
      invariant forall p <- chain[..k] :: p.segments == if txData then [] else old(p.segments)
      invariant forall p <- chain[..k] ::
                  if rxData then p.header == CLEAN && p.payload == []
                  else p.header == old(p.header) && p.payload == old(p.payload)
      invariant forall p <- chain[k..] ::
                  p.segments == old(p.segments) && p.header == old(p.header)
                  && p.payload == old(p.payload)
    {
      Parts(chain, k);
      chain[k].CleanData(txData, rxData);
      k := k + 1;
    }
    assert chain[..k] == chain;
  }

  lemma Parts(chain: seq<Protocol>, k: nat)
    requires k < |chain| && Distinct(chain)
    ensures chain[..k + 1] == chain[..k] + [chain[k]] && chain[k..] == [chain[k]] + chain[k + 1..]
    ensures chain[k] !in chain[..k] && chain[k] !in chain[k + 1..] && chain[k] in chain
  {
  }

  /** The layers of a chain that is about to pack. */
  ghost function LayersOf(chain: seq<Protocol>): seq<Layer>
    reads chain
  {
    seq(|chain|, k requires 0 <= k < |chain| reads chain => Layer(chain[k].kind, chain[k].header))
  }

  function KindsOf(chain: seq<Protocol>): seq<Kind> {
    seq(|chain|, k requires 0 <= k < |chain| => chain[k].kind)
  }

  /** The headers and payloads the protocols hold. */
  ghost function Held(chain: seq<Protocol>): seq<Unpacked>
    reads chain
  {
    if chain == [] then [] else [Unpacked(chain[0].header, chain[0].payload)] + Held(chain[1..])
  }

  ghost predicate Untouched(chain: seq<Protocol>)
    reads chain
  {
    forall p <- chain :: p.header == CLEAN && p.payload == []
  }

  /** A protocol in the middle of a chain stands apart from the rest of it. */
  lemma Apart(chain: seq<Protocol>, k: nat)
    requires k < |chain| && Distinct(chain)
    ensures chain[k] !in chain[..k] && chain[k] !in chain[k + 1..] && chain[k] in chain
    ensures Held(chain[k..]) == [Unpacked(chain[k].header, chain[k].payload)] + Held(chain[k + 1..])
    ensures Untouched(chain[..k + 1]) ==> Untouched(chain[..k]) && chain[k].header == CLEAN && chain[k].payload == []
  {
    assert chain[k..][1..] == chain[k + 1..];
    assert chain[..k + 1] == chain[..k] + [chain[k]];
  }

  /**
   `pack_recursive`: every protocol packs the segments of the one before. If no assertion fails, each protocol has
   exactly one segment, and the last one's is the whole chain's; but an empty message makes an endian protocol, and
   so all behind it, pack nothing.
   */
  method PackRecursive(chain: seq<Protocol>, msg: Text, isUdp: bool, from: Text, when: Text)
    returns (ok: bool, outside: bool)
    requires chain != [] && Distinct(chain) && |when| == 8
    requires forall p <- chain :: InWidth(p.header) && p.segments == []
    modifies chain
    ensures if msg == [] && !chain[0].kind.Universal? then
              ok && !outside && forall p <- chain :: p.segments == [] && p.header == old(p.header)
            else
              var r := PackChain(old(LayersOf(chain)), 0, msg, from, when);
              && ok == r.Done? && outside == r.Outside?
              && (ok ==> chain[|chain| - 1].segments == [r.value] && forall p <- chain :: |p.segments| == 1)
  {
    hide ProtocolFormats.Pack, PackChain;
    ghost var layers := LayersOf(chain);
    ghost var nothing := msg == [] && !chain[0].kind.Universal?;
    PackChainStep(layers, 0, msg, from, when);
    ok, outside := chain[0].Pack(msg, isUdp, from, when);
    if !ok {
      return;
    }
    if !nothing { PackedNotEmpty(layers[0], msg, from, when); }
    var k := 1;
    while k < |chain|
      invariant 1 <= k <= |chain| && ok && !outside
      invariant nothing ==> forall i | 0 <= i < |chain| :: Packs(chain[i], [], layers[i].header)
      invariant !nothing ==> (forall i | 0 <= i < k :: |chain[i].segments| == 1) && chain[k - 1].segments[0] != []
      invariant !nothing ==>
                  PackChain(layers, 0, msg, from, when)
                  == PackChain(layers, k, chain[k - 1].segments[0], from, when)
      invariant forall i | k <= i < |chain| :: Packs(chain[i], [], layers[i].header)
    {
      assert chain[k] in chain && chain[k - 1] in chain;
      if !nothing { PackChainStep(layers, k, chain[k - 1].segments[0], from, when); }
      ok, outside := PackEach(chain[k], chain[k - 1].segments, isUdp, from, when);
      if !ok {
        return;
      }
      k := k + 1;
    }
    if !nothing { PackChainStep(layers, k, chain[k - 1].segments[0], from, when); }
  }

  /** What a protocol has packed, and its header. */
  ghost predicate Packs(p: Protocol, segments: seq<Text>, header: Header)
    reads p
  {
    p.segments == segments && p.header == header
  }

  /** The loop of `pack_recursive` over the segments of the protocol before, of which there is at most one. */
  method PackEach(p: Protocol, segments: seq<Text>, isUdp: bool, from: Text, when: Text)
    returns (ok: bool, outside: bool)
    requires InWidth(p.header) && p.segments == [] && |when| == 8
    requires |segments| <= 1 && (segments != [] ==> segments[0] != [])
    modifies p
    ensures segments == [] ==> ok && !outside && Packs(p, [], old(p.header))
    ensures segments != [] ==>
              var r := ProtocolFormats.Pack(p.kind, old(p.header), segments[0], from, when);
              && ok == r.Done? && outside == r.Outside?
              && (ok ==> Packs(p, [r.value.segment], r.value.header) && r.value.segment != [])
  {
    hide ProtocolFormats.Pack;
    ok, outside := true, false;
    var j := 0;
    while j < |segments|
      invariant j <= |segments| && ok && !outside
      invariant j == 0 ==> Packs(p, [], old(p.header))
      invariant j > 0 ==>
                  var r := ProtocolFormats.Pack(p.kind, old(p.header), segments[0], from, when);
                  r.Done? && Packs(p, [r.value.segment], r.value.header) && r.value.segment != []
    {
      ok, outside := p.Pack(segments[j], isUdp, from, when);
      if !ok {
        return;
      }
      PackedNotEmpty(Layer(p.kind, old(p.header)), segments[j], from, when);
      j := j + 1;
    }
  }

  lemma PackedNotEmpty(l: Layer, msg: Text, from: Text, when: Text)
    requires InWidth(l.header) && |when| == 8 && ProtocolFormats.Pack(l.kind, l.header, msg, from, when).Done?
    ensures ProtocolFormats.Pack(l.kind, l.header, msg, from, when).value.segment != []
  {
    hide ProtocolFormats.Pack;
    PacksExactly(l, msg, from, when);
  }

  /** The formats from `k` on unpack the segment, and no payload on the way to `k` is empty. */
  ghost predicate UnpacksDownTo(kinds: seq<Kind>, k: nat, raw: Text)
    requires k <= |kinds|
  {
    var us := UnpackChain(kinds, k, raw);
    us.Done? && forall i | 0 < i < |us.value| :: us.value[i].payload != []
  }

  /** One more format, on a payload that is not empty. */
  lemma OneFurther(kinds: seq<Kind>, k: nat, raw: Text, us: seq<Unpacked>)
    requires k < |kinds| && UnpacksDownTo(kinds, k + 1, raw) && UnpackChain(kinds, k + 1, raw) == Done(us)
    requires us != [] ==> us[0].payload != []
    ensures var u := ProtocolFormats.Unpack(kinds[k], CLEAN, if us == [] then raw else us[0].payload);
            && (u.Refused? ==> UnpackChain(kinds, k, raw).Refused?)
            && (u.Outside? ==> UnpackChain(kinds, k, raw).Outside?)
            && (!u.Done? ==> !UnpacksDownTo(kinds, 0, raw))
            && (u.Done? ==> UnpackChain(kinds, k, raw) == Done([u.value] + us) && UnpacksDownTo(kinds, k, raw))
  {
    hide ProtocolFormats.Unpack, UnpackChain;
    UnpackChainStep(kinds, k, raw);
    if !UnpackChain(kinds, k, raw).Done? {
      NoFurther(kinds, k, raw);
    }
  }

  /** An empty payload ends it. */
  lemma {:induction false} StopsShort(kinds: seq<Kind>, k: nat, raw: Text, us: seq<Unpacked>)
    requires 0 < k <= |kinds| && UnpackChain(kinds, k, raw) == Done(us) && us != [] && us[0].payload == []
    ensures !UnpacksDownTo(kinds, 0, raw)
  {
    hide ProtocolFormats.Unpack, UnpackChain;
    UnpackChainStep(kinds, k - 1, raw);
    if UnpackChain(kinds, k - 1, raw).Done? {
      assert UnpackChain(kinds, k - 1, raw).value[1] == us[0];
    }
    NoFurther(kinds, k - 1, raw);
  }

  /** Where one format fails, or a payload on the way is empty, the chain does not unpack down to its first protocol. */
  lemma {:induction false} NoFurther(kinds: seq<Kind>, k: nat, raw: Text)
    requires k <= |kinds| && !UnpacksDownTo(kinds, k, raw)
    ensures !UnpacksDownTo(kinds, 0, raw)
    decreases k
  {
    hide ProtocolFormats.Unpack, UnpackChain;
    if k > 0 {
      UnpackChainStep(kinds, k - 1, raw);
      if UnpackChain(kinds, k, raw).Done? && UnpackChain(kinds, k - 1, raw).Done? {
        var us := UnpackChain(kinds, k, raw).value;
        var i :| 0 < i < |us| && us[i].payload == [];
        assert UnpackChain(kinds, k - 1, raw).value[i + 1] == us[i];
      }
      NoFurther(kinds, k - 1, raw);
    }
  }

  /**
   `unpack_recurcive`: from the last protocol to the first, until a payload is empty or a protocol fails. The protocols
   behind `reached` hold what the formats unpack, those in front of it are untouched; `reached` itself has failed,
   or it holds what its format unpacks, and is the first protocol or has an empty payload.
   */
  method UnpackRecursive(chain: seq<Protocol>, raw: Text)
    returns (ok: bool, outside: bool, ghost reached: nat)
    requires chain != [] && Distinct(chain) && Untouched(chain)
    modifies chain
    ensures reached < |chain| && Untouched(chain[..reached])
    ensures ok ==>
              && UnpacksDownTo(KindsOf(chain), reached, raw)
              && UnpackChain(KindsOf(chain), reached, raw) == Done(Held(chain[reached..]))
              && (reached == 0 || chain[reached].payload == [])
    ensures !ok ==>
              && UnpacksDownTo(KindsOf(chain), reached + 1, raw)
              && UnpackChain(KindsOf(chain), reached + 1, raw) == Done(Held(chain[reached + 1..]))
              && UnpackChain(KindsOf(chain), reached, raw) == if outside then Outside else Refused
    ensures ok ==> !outside
    ensures UnpacksDownTo(KindsOf(chain), 0, raw) <==> ok && reached == 0
  {
    hide ProtocolFormats.Unpack, UnpackChain, UnpacksDownTo, Held, Untouched, Distinct;
    ghost var kinds := KindsOf(chain);
    var k := |chain| - 1;
    reached := k;
    NoneYet(kinds, raw);
    OneFurther(kinds, k, raw, []);
    Behind(chain, k);
    Apart(chain, k);
    ok, outside := chain[k].Unpack(raw);
    Behind(chain, k);
    if !ok {
      return;
    }
    Apart(chain, k);
    while k > 0
      invariant k < |chain| && ok && !outside && reached == k
      invariant UnpacksDownTo(kinds, k, raw) && UnpackChain(kinds, k, raw) == Done(Held(chain[k..]))
      invariant Untouched(chain[..k])
    {
      Apart(chain, k);
      if chain[k].payload == [] {
        StopsShort(kinds, k, raw, Held(chain[k..]));
        return;
      }
      OneFurther(kinds, k - 1, raw, Held(chain[k..]));
      k := k - 1;
      reached := k;
      Apart(chain, k);
      ok, outside := chain[k].Unpack(chain[k + 1].payload);
      if !ok {
        return;
      }
      Apart(chain, k);
    }
  }

  lemma Behind(chain: seq<Protocol>, k: nat)
    requires k + 1 == |chain|
    ensures chain[..k + 1] == chain && Held(chain[k + 1..]) == []
  {
  }

  lemma {:induction false} NoneYet(kinds: seq<Kind>, raw: Text)
    ensures UnpacksDownTo(kinds, |kinds|, raw) && UnpackChain(kinds, |kinds|, raw) == Done([])
  {
  }

  /** What a chain has packed, a clean chain of the same protocols unpacks to the message and the message ids. */
  lemma {:induction false} PackedUnpacks(layers: seq<Layer>, msg: Text, from: Text, when: Text)
    requires |when| == 8 && msg != [] && NamesFit(layers, from) && forall l <- layers :: InWidth(l.header)
    requires PackChain(layers, 0, msg, from, when).Done?
    ensures var raw := PackChain(layers, 0, msg, from, when).value;
            && UnpacksDownTo(Kinds(layers), 0, raw)
            && Restored(UnpackChain(Kinds(layers), 0, raw).value, layers, 0, msg)
  {
    hide PackChain, UnpackChain;
    ChainRoundTrip(layers, 0, msg, from, when);
  }
}
