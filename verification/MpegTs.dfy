/**
 The MPEG transport stream writer: one audio or video frame becomes a PES packet, cut into TS
 packets of 188 bytes, the last of which is filled up in place.
 */
module MpegTs {
  import opened Bytes
  import opened Pieces

  const PACKET := 188
  const DELAY := 63000

  // ---------------------------------------------------------------- the formats (ISO/IEC 13818-1)

  /** Section 2.4.3.2: the fields of a TS packet. */
  predicate IsPacket(pk: seq<byte>) {
    |pk| == PACKET && pk[0] == 0x47 && pk[3] / 64 == 0 && pk[3] / 16 % 2 == 1
  }

  predicate StartsUnit(pk: seq<byte>)
    requires |pk| == PACKET
  {
    pk[1] / 64 % 2 == 1
  }

  function Pid(pk: seq<byte>): nat
    requires |pk| == PACKET
  {
    pk[1] as int % 32 * 256 + pk[2] as int
  }

  function Continuity(pk: seq<byte>): nat
    requires |pk| == PACKET
  {
    pk[3] as int % 16
  }

  predicate HasAdaptation(pk: seq<byte>)
    requires |pk| == PACKET
  {
    pk[3] / 32 % 2 == 1
  }

  /** Where the payload starts: behind the adaptation field, if there is one. */
  function PayloadStart(pk: seq<byte>): nat
    requires |pk| == PACKET
  {
    if HasAdaptation(pk) then 5 + pk[4] as int else 4
  }

  function Payload(pk: seq<byte>): seq<byte> {
    if |pk| == PACKET && PayloadStart(pk) <= PACKET then pk[PayloadStart(pk)..] else []
  }

  /** A time stamp of 33 bits in 5 bytes, section 2.4.3.7. */
  function TimeBytes(fb: nat, v: int): seq<byte> {
    [Low8(fb * 16 + v / 0x40000000 % 8 * 2 + 1)] + BE16(v / 0x8000 % 0x8000 * 2 + 1) + BE16(v % 0x8000 * 2 + 1)
  }

  function DecodeTime(b: seq<byte>): nat
    requires |b| == 5
  {
    b[0] as int / 2 % 8 * 0x40000000 + U16(b[1..3]) / 2 * 0x8000 + U16(b[3..5]) / 2
  }

  /** The program clock reference, section 2.4.3.5: 33 bits, 6 reserved, 9 of extension. */
  function PcrBytes(v: int): seq<byte> {
    [Low8(v / 0x2000000), Low8(v / 0x20000), Low8(v / 0x200), Low8(v / 2), v % 2 * 128 + 126, 0]
  }

  function DecodePcr(b: seq<byte>): nat
    requires |b| == 6
  {
    b[0] as int * 0x2000000 + b[1] as int * 0x20000 + b[2] as int * 0x200 + b[3] as int * 2 + b[4] as int / 128
  }

  // ---------------------------------------------------------------- a frame and its PES packet

  class MpegtsFrame {
    var pts: int
    var dts: int
    var pid: int
    var sid: int
    var cc: nat
    var key: bool

    constructor ()
      ensures pts == dts == 0 && pid == sid == 0 && cc == 0 && !key
    {
      pts, dts, pid, sid, cc, key := 0, 0, 0, 0, 0, false;
    }

    function Header(): FrameHeader
      reads this
    {
      FrameHeader(pts, dts, pid, sid, key)
    }
  }

  datatype FrameHeader = FrameHeader(pts: int, dts: int, pid: int, sid: int, key: bool)

  /** The length of the optional time stamps in a PES header. */
  function HeaderSize(f: FrameHeader): nat {
    if f.dts != f.pts then 10 else 5
  }

  /** What is written as PES_packet_length in front of n bytes of data: 0 when it does not fit. */
  function PesLength(f: FrameHeader, n: nat): nat {
    if n + HeaderSize(f) + 3 > 0xffff then 0 else n + HeaderSize(f) + 3
  }

  function PesFlags(f: FrameHeader): byte {
    if f.dts != f.pts then 0xc0 else 0x80
  }

  /** The PES header in front of n bytes of data. */
  function PesHeader(f: FrameHeader, n: nat): seq<byte> {
    [0, 0, 1, Low8(f.sid)] + BE16(PesLength(f, n)) + [0x80, PesFlags(f), HeaderSize(f)]
    + TimeBytes(PesFlags(f) as int / 64, f.pts + DELAY)
    + if f.dts != f.pts then TimeBytes(1, f.dts + DELAY) else []
  }

  lemma PesHeaderSize(f: FrameHeader, n: nat)
    ensures |PesHeader(f, n)| == 9 + HeaderSize(f)
  {}

  /** The adaptation field of a keyframe: random access, and the clock. */
  function KeyAdaptation(f: FrameHeader): seq<byte> {
    [7, 0x50] + PcrBytes(f.dts - DELAY)
  }

  // ---------------------------------------------------------------- what is written for a frame

  /** The bytes of a packet in front of its part of the frame, of which n bytes are left to write. */
  function PacketHead(f: FrameHeader, first: bool, cc: nat, n: nat): seq<byte> {
    [0x47, f.pid / 256 % 32 + (if first then 64 else 0), Low8(f.pid), 16 + cc % 16 + (if first && f.key then 32 else 0)]
    + (if first && f.key then KeyAdaptation(f) else [])
    + if first then PesHeader(f, n) else []
  }

  /** A packet of the frame whose payload is `payload`. */
  ghost predicate FramePacket(pk: seq<byte>, f: FrameHeader, first: bool, cc: nat, payload: seq<byte>) {
    && IsPacket(pk) && Pid(pk) == f.pid % 0x2000 && StartsUnit(pk) == first && Continuity(pk) == cc % 16
    && PayloadStart(pk) < PACKET && Payload(pk) == payload
    && (first && f.key ==> HasAdaptation(pk) && pk[4] >= 7 && pk[5..12] == KeyAdaptation(f)[1..])
    && (!(first && f.key) && HasAdaptation(pk) && pk[4] > 0 ==>
          pk[5] == 0 && forall i :: 6 <= i < PayloadStart(pk) ==> pk[i] == 0xff)
  }

  /** A packet without stuffing. */
  predicate Full(pk: seq<byte>, f: FrameHeader, first: bool) {
    |pk| == PACKET && if first && f.key then HasAdaptation(pk) && pk[4] == 7 else !HasAdaptation(pk)
  }

  predicate AllFull(pks: seq<seq<byte>>, f: FrameHeader) {
    pks == [] || (AllFull(pks[..|pks| - 1], f) && Full(pks[|pks| - 1], f, |pks| == 1))
  }

  function Payloads(pks: seq<seq<byte>>): seq<byte> {
    if pks == [] then [] else Payloads(pks[..|pks| - 1]) + Payload(pks[|pks| - 1])
  }

  /** Packets of one frame, the first of which has continuity counter cc + 1. */
  ghost predicate FramePackets(pks: seq<seq<byte>>, f: FrameHeader, cc: nat) {
    pks == [] || (FramePackets(pks[..|pks| - 1], f, cc)
                  && FramePacket(pks[|pks| - 1], f, |pks| == 1, cc + |pks|, Payload(pks[|pks| - 1])))
  }

  /** The whole frame: only its last packet may hold stuffing. */
  ghost predicate IsFrame(pks: seq<seq<byte>>, f: FrameHeader, cc: nat, data: seq<byte>) {
    && |pks| > 0 && FramePackets(pks, f, cc)
    && AllFull(pks[..|pks| - 1], f)
    && Payloads(pks) == PesHeader(f, |data|) + data
  }

  function Concat(pks: seq<seq<byte>>): seq<byte> {
    if pks == [] then [] else Concat(pks[..|pks| - 1]) + pks[|pks| - 1]
  }

  lemma HeadSize(f: FrameHeader, first: bool, cc: nat, n: nat)
    ensures |PacketHead(f, first, cc, n)|
         == 4 + (if first && f.key then 8 else 0) + if first then 9 + HeaderSize(f) else 0
  {}

  /** The fixed fields, read back from the first four bytes. */
  lemma HeadFields(f: FrameHeader, first: bool, cc: nat, pk: seq<byte>)
    requires |pk| == PACKET && pk[0] == 0x47
    requires pk[1] == f.pid / 256 % 32 + (if first then 64 else 0) && pk[2] == Low8(f.pid)
    requires pk[3] == 16 + cc % 16 || pk[3] == 48 + cc % 16
    ensures IsPacket(pk) && Pid(pk) == f.pid % 0x2000 && StartsUnit(pk) == first && Continuity(pk) == cc % 16
    ensures HasAdaptation(pk) <==> pk[3] >= 48
  {
    ModSplit(f.pid, 256, 32, 0x2000);
  }

  /** A packet that is filled exactly. */
  lemma FullPacket(pk: seq<byte>, f: FrameHeader, first: bool, cc: nat, n: nat, part: seq<byte>)
    requires |pk| == PACKET && part != [] && pk == PacketHead(f, first, cc, n) + part
    ensures FramePacket(pk, f, first, cc, (if first then PesHeader(f, n) else []) + part)
    ensures Full(pk, f, first)
  {
    hide PesHeader, PcrBytes;
    PesHeaderSize(f, n);
    HeadSize(f, first, cc, n);
    HeadFields(f, first, cc, pk);
    if first && f.key {
      assert pk[4..12] == KeyAdaptation(f);
      assert pk[5..12] == pk[4..12][1..];
      assert Payload(pk) == pk[12..];
    } else {
      assert Payload(pk) == pk[4..];
    }
  }

  // ---------------------------------------------------------------- writing

  /** How the packet `b` came from `a` by stuffing in front of the bytes that reached up to p. An
      adaptation field that was there only grows: what is in the gap is not said. */
  ghost predicate Stuffed(a: seq<byte>, b: seq<byte>, p: nat, stuff: nat)
    requires |a| == |b| == PACKET && p + stuff <= PACKET && stuff >= 1
  {
    var base := PayloadStart(a);
    && base <= p && a[..3] == b[..3] && b[4] as int == base + stuff - 5
    && b[base + stuff..p + stuff] == a[base..p]
    && if HasAdaptation(a) then a[3] == b[3] && b[5..base] == a[5..base]
       else b[3] == a[3] + 32 && (stuff >= 2 ==> b[5] == 0) && forall i :: 6 <= i < 4 + stuff ==> b[i] == 0xff
  }

  /** A packet that was stuffed. */
  lemma StuffedPacket(a: seq<byte>, b: seq<byte>, pk: seq<byte>, f: FrameHeader, first: bool, cc: nat, n: nat,
      part: seq<byte>)
    requires |a| == |b| == |pk| == PACKET && part != []
    requires var p := |PacketHead(f, first, cc, n)|;
             && p + |part| < PACKET && a[..p] == PacketHead(f, first, cc, n)
             && Stuffed(a, b, p, PACKET - p - |part|)
             && pk == b[..PACKET - |part|] + part
    ensures FramePacket(pk, f, first, cc, (if first then PesHeader(f, n) else []) + part)
  {
    hide PesHeader, PcrBytes;
    HeadSize(f, first, cc, n);
    PesHeaderSize(f, n);
    var head := PacketHead(f, first, cc, n);
    var p := |head|;
    var stuff := PACKET - p - |part|;
    var adapted := first && f.key;
    var start := if adapted then 12 else 4;
    var pes := if first then PesHeader(f, n) else [];
    HeadFields(f, first, cc, a);
    assert PayloadStart(a) == start && HasAdaptation(a) == adapted by {
      if adapted {
        assert a[4] == head[4];
      }
    }
    assert head[start..] == pes;
    HeadFields(f, first, cc, pk);
    assert Payload(pk) == pes + part;
    if adapted {
      assert pk[5..12] == a[5..12] == head[5..12];
    }
  }

  /** Only a part of `data` was added. */
  ghost predicate IsCutShort(now: seq<byte>, was: seq<byte>, data: seq<byte>) {
    |was| <= |now| < |was| + |data| && now == was + data[..|now| - |was|]
  }

  /** A file that a transport stream is written to; a failing write may leave a part behind. */
  class TsFile {
    var content: seq<byte>

    constructor ()
      ensures content == []
    {
      content := [];
    }

    method Write(data: array<byte>) returns (ok: bool)
      requires data.Length > 0
      modifies this`content
      ensures ok ==> content == old(content) + data[..]
      ensures !ok ==> IsCutShort(content, old(content), data[..])
    {
      var k: int := *;
      if 0 <= k < data.Length {
        content := content + data[..k];
        return false;
      }
      content := content + data[..];
      ok := true;
    }
  }

  class MpegtsWriter {
    // one buffer for all packets: what a packet does not overwrite is left from the one before
    const packet: array<byte>

    constructor ()
      ensures packet.Length == PACKET && fresh(packet)
    {
      packet := new byte[PACKET];
    }

    /** Puts bytes at p, which moves behind them. */
    method Put(p: nat, s: seq<byte>) returns (q: nat)
      requires p + |s| <= packet.Length
      modifies packet
      ensures q == p + |s| && packet[..q] == old(packet[..p]) + s
      ensures packet[q..] == old(packet[q..])
    {
      forall i | 0 <= i < |s| {
        packet[p + i] := s[i];
      }
      q := p + |s|;
      assert packet[..q] == packet[..p] + packet[p..q];
    }

    /** Moves n bytes within the packet; the ranges may overlap. */
    method Move(to: nat, start: nat, n: nat)
      requires to + n <= packet.Length && start + n <= packet.Length
      modifies packet
      ensures packet[to..to + n] == old(packet[start..start + n])
      ensures forall i :: 0 <= i < to || to + n <= i < packet.Length ==> packet[i] == old(packet[i])
    {
      forall i | 0 <= i < n {
        packet[to + i] := packet[start + i];
      }
    }

    method WritePcr(p: nat, pcr: int) returns (q: nat)
      requires p + 6 <= packet.Length
      modifies packet
      ensures q == p + 6 && packet[..q] == old(packet[..p]) + PcrBytes(pcr)
    {
      q := Put(p, [Low8(pcr / 0x2000000), Low8(pcr / 0x20000), Low8(pcr / 0x200), Low8(pcr / 2)]);
      q := Put(q, [Low8(pcr * 128) + 0x7e, 0]);
      LowBit(pcr);
    }

    method WritePts(p: nat, fb: nat, pts: int) returns (q: nat)
      requires p + 5 <= packet.Length
      modifies packet
      ensures q == p + 5 && packet[..q] == old(packet[..p]) + TimeBytes(fb, pts)
    {
      var val := fb * 16 + pts / 0x40000000 % 8 * 2 + 1;
      q := Put(p, [Low8(val)]);
      val := pts / 0x8000 % 0x8000 * 2 + 1;
      q := Put(q, [Low8(val / 0x100), Low8(val)]);
      val := pts % 0x8000 * 2 + 1;
      q := Put(q, [Low8(val / 0x100), Low8(val)]);
    }

    method WritePesHeader(p: nat, frame: MpegtsFrame, n: nat) returns (q: nat)
      requires p + 19 <= packet.Length
      modifies packet
      ensures q == p + 9 + HeaderSize(frame.Header())
      ensures packet[..q] == old(packet[..p]) + PesHeader(frame.Header(), n)
    {
      hide TimeBytes;
      var headerSize, flags: byte, pesSize := 5, 0x80, 0;
      if frame.dts != frame.pts {
        headerSize, flags := headerSize + 5, 0xc0;
      }
      pesSize := n + headerSize + 3;
      if pesSize > 0xffff {
        pesSize := 0;
      }
      q := Put(p, [0, 0, 1, Low8(frame.sid), Low8(pesSize / 0x100), Low8(pesSize), 0x80, flags, headerSize]);
      q := WritePts(q, flags as int / 64, frame.pts + DELAY);
      if frame.dts != frame.pts {
        q := WritePts(q, 1, frame.dts + DELAY);
      }
    }

    /** Everything in a packet in front of the part of the frame. */
    method WriteHead(frame: MpegtsFrame, first: bool, n: nat) returns (p: nat)
      requires packet.Length == PACKET
      modifies packet
      ensures p == |PacketHead(frame.Header(), first, frame.cc, n)| < PACKET
      ensures packet[..p] == PacketHead(frame.Header(), first, frame.cc, n)
    {
      hide PesHeader, PcrBytes;
      ghost var f := frame.Header();
      p := Put(0, [0x47, frame.pid / 256 % 32 + (if first then 64 else 0), Low8(frame.pid),
                   16 + frame.cc % 16 + (if first && frame.key then 32 else 0)]);
      if first {
        if frame.key {
          p := Put(p, [7, 0x50]);
          p := WritePcr(p, frame.dts - DELAY);
        }
        p := WritePesHeader(p, frame, n);
        PesHeaderSize(f, n);
      }
    }

    /** Makes room for stuffing in front of the PES bytes, in an adaptation field. */
    method FillStuff(p: nat, stuff: nat) returns (q: nat)
      requires packet.Length == PACKET && 4 <= p && 1 <= stuff && p + stuff <= PACKET
      requires packet[3] / 32 % 2 == 1 ==> 5 + packet[4] as int <= p
      requires packet[3] / 32 % 2 == 0 ==> packet[3] < 32
      modifies packet
      ensures q == p + stuff
      ensures Stuffed(old(packet[..]), packet[..], p, stuff)
    {
      ghost var was := packet[..];
      q := p + stuff;
      if packet[3] / 32 % 2 == 1 {
        WidenAdaptation(p, stuff);
        return;
      }
      packet[3] := packet[3] + 32;
      assert packet[4..p] == was[4..p];
      Move(4 + stuff, 4, p - 4);
      CreateAdaptation(stuff, q);
    }

    method CreateAdaptation(stuff: nat, q: nat)
      requires packet.Length == PACKET && 1 <= stuff && 4 + stuff <= q <= PACKET
      modifies packet
      ensures packet[..4] == old(packet[..4]) && packet[4] == stuff - 1 && (stuff >= 2 ==> packet[5] == 0)
      ensures forall i :: 6 <= i < 4 + stuff ==> packet[i] == 0xff
      ensures packet[4 + stuff..q] == old(packet[4 + stuff..q])
    {
      packet[4] := stuff - 1;
      if stuff >= 2 {
        packet[5] := 0;
        forall i | 6 <= i < 4 + stuff {
          packet[i] := 0xff;
        }
      }
    }

    method WidenAdaptation(p: nat, stuff: nat)
      requires packet.Length == PACKET && 1 <= stuff && p + stuff <= PACKET && 5 + packet[4] as int <= p
      requires packet[3] / 32 % 2 == 1
      modifies packet
      ensures Stuffed(old(packet[..]), packet[..], p, stuff)
    {
      ghost var was := packet[..];
      var base := 5 + packet[4] as int;
      Move(base + stuff, base, p - base);
      packet[4] := packet[4] + stuff;
      assert packet[base + stuff..p + stuff] == was[base..p];
    }

    /** Fills the packet with the next bytes of the frame. */
    method FillPacket(frame: MpegtsFrame, first: bool, buffer: seq<byte>, pos: nat) returns (next: nat)
      requires packet.Length == PACKET && pos < |buffer|
      modifies packet
      ensures pos < next <= |buffer|
      ensures FramePacket(packet[..], frame.Header(), first, frame.cc,
                          (if first then PesHeader(frame.Header(), |buffer| - pos) else []) + buffer[pos..next])
      ensures next < |buffer| ==> Full(packet[..], frame.Header(), first)
    {
      hide FramePacket, PacketHead, PesHeader, Stuffed;
      ghost var f := frame.Header();
      var left := |buffer| - pos;
      var p := WriteHead(frame, first, left);
      var bodySize := PACKET - p;
      if bodySize <= left {
        next := pos + bodySize;
        var _ := Put(p, buffer[pos..next]);
        FullPacket(packet[..], f, first, frame.cc, left, buffer[pos..next]);
      } else {
        ghost var a := packet[..];
        BeforeStuffing(a, f, first, frame.cc, left);
        p := FillStuff(p, bodySize - left);
        ghost var b := packet[..];
        next := |buffer|;
        var _ := Put(p, buffer[pos..next]);
        StuffedPacket(a, b, packet[..], f, first, frame.cc, left, buffer[pos..next]);
      }
    }

    /** Writes the packet; there may be no file to write to. */
    method Emit(file: TsFile?) returns (ok: bool)
      requires packet.Length == PACKET
      modifies if file == null then {} else {file}
      ensures file == null ==> !ok
      ensures file != null && ok ==> file.content == old(file.content) + packet[..]
      ensures file != null && !ok ==> IsCutShort(file.content, old(file.content), packet[..])
    {
      if file == null {
        return false;
      }
      ok := file.Write(packet);
    }

    /** Writes one frame. An empty one leaves no trace; when writing fails, whole packets and the
        beginning of the next one are in the file. */
    method WriteFrame(file: TsFile?, frame: MpegtsFrame, buffer: seq<byte>)
        returns (ok: bool, ghost pks: seq<seq<byte>>)
      requires packet.Length == PACKET
      modifies packet, frame`cc, if file == null then {} else {file}
      ensures FramePackets(pks, frame.Header(), old(frame.cc))
      ensures buffer == [] ==> ok && pks == [] && frame.cc == old(frame.cc)
      ensures buffer == [] && file != null ==> file.content == old(file.content)
      ensures buffer != [] && file == null ==> !ok
      ensures ok && buffer != [] ==> && IsFrame(pks, frame.Header(), old(frame.cc), buffer)
                                     && file.content == old(file.content) + Concat(pks)
                                     && frame.cc == old(frame.cc) + |pks|
      ensures !ok ==> frame.cc == old(frame.cc) + |pks| + 1
      ensures !ok && file != null ==> exists pk ::
              && |pk| == PACKET
              && IsCutShort(file.content, old(file.content) + Concat(pks), pk)
    {
      hide WrittenUpTo, FramePackets, FramePacket, IsFrame, AllFull, Full, Concat;
      pks := [];
      ghost var f, cc := frame.Header(), frame.cc;
      NothingWritten(f, cc, buffer);
      if |buffer| == 0 {
        return true, pks;
      }
      var pos, first := 0, true;
      while pos < |buffer|
        invariant pos <= |buffer| && first == (pos == 0) && f == frame.Header()
        invariant WrittenUpTo(pks, f, cc, buffer, pos)
        invariant pos == 0 || file != null
        invariant file != null ==> file.content == old(file.content) + Concat(pks)
        invariant frame.cc == cc + |pks|
      {
        frame.cc := frame.cc + 1;
        var next := FillPacket(frame, first, buffer, pos);
        ghost var pk := packet[..];
        ExtendsWritten(pks, pk, f, cc, buffer, pos, next);
        ok := Emit(file);
        if !ok {
          return;
        }
        Assoc(old(file.content), Concat(pks), pk);
        pks := pks + [pk];
        pos, first := next, false;
      }
      WrittenIsFrame(pks, f, cc, buffer);
      ok := true;
    }
  }

  /** The packets hold the first `pos` bytes of the frame, and all that may hold stuffing is the one
      that ends it. */
  ghost predicate WrittenUpTo(pks: seq<seq<byte>>, f: FrameHeader, cc: nat, data: seq<byte>, pos: nat)
    requires pos <= |data|
  {
    && (pks == [] <==> pos == 0) && FramePackets(pks, f, cc)
    && AllFull(if pos == |data| && pos > 0 then pks[..|pks| - 1] else pks, f)
    && Payloads(pks) == (if pos == 0 then [] else PesHeader(f, |data|)) + data[..pos]
  }

  lemma NothingWritten(f: FrameHeader, cc: nat, data: seq<byte>)
    ensures WrittenUpTo([], f, cc, data, 0) && FramePackets([], f, cc) && Concat([]) == []
  {}

  lemma WrittenIsFrame(pks: seq<seq<byte>>, f: FrameHeader, cc: nat, data: seq<byte>)
    requires data != [] && WrittenUpTo(pks, f, cc, data, |data|)
    ensures IsFrame(pks, f, cc, data) && FramePackets(pks, f, cc)
  {
    hide FramePackets, AllFull;
    assert data[..|data|] == data;
  }

  lemma ExtendsWritten(pks: seq<seq<byte>>, pk: seq<byte>, f: FrameHeader, cc: nat, data: seq<byte>, pos: nat,
      next: nat)
    requires pos < next <= |data| && WrittenUpTo(pks, f, cc, data, pos)
    requires |pk| == PACKET && (next < |data| ==> Full(pk, f, pos == 0))
    requires FramePacket(pk, f, pos == 0, cc + |pks| + 1,
             (if pos == 0 then PesHeader(f, |data| - pos) else []) + data[pos..next])
    ensures WrittenUpTo(pks + [pk], f, cc, data, next)
    ensures Concat(pks + [pk]) == Concat(pks) + pk
    ensures FramePackets(pks, f, cc)
  {
    hide FramePacket, PesHeader, Full, Payload, Payloads, Concat;
    assert (pks + [pk])[..|pks|] == pks;
    PayloadOf(pk, f, pos == 0, cc + |pks| + 1, (if pos == 0 then PesHeader(f, |data| - pos) else []) + data[pos..next]);
    Snoc(pks, pk);
    PartsJoin(PesHeader(f, |data|), data, pos, next);
  }

  lemma PartsJoin(header: seq<byte>, data: seq<byte>, pos: nat, next: nat)
    requires pos <= next <= |data|
    ensures (if pos == 0 then [] else header) + data[..pos] + ((if pos == 0 then header else []) + data[pos..next])
            == header + data[..next]
  {
    assert data[..pos] + data[pos..next] == data[..next];
  }

  lemma Snoc(pks: seq<seq<byte>>, pk: seq<byte>)
    ensures Payloads(pks + [pk]) == Payloads(pks) + Payload(pk) && Concat(pks + [pk]) == Concat(pks) + pk
  {
    assert (pks + [pk])[..|pks|] == pks;
  }

  lemma PayloadOf(pk: seq<byte>, f: FrameHeader, first: bool, cc: nat, payload: seq<byte>)
    requires FramePacket(pk, f, first, cc, payload)
    ensures |pk| == PACKET && Payload(pk) == payload
  {}

  /** What FillStuff relies on. */
  lemma BeforeStuffing(a: seq<byte>, f: FrameHeader, first: bool, cc: nat, n: nat)
    requires |a| == PACKET && |PacketHead(f, first, cc, n)| <= PACKET
             && a[..|PacketHead(f, first, cc, n)|] == PacketHead(f, first, cc, n)
    ensures |PacketHead(f, first, cc, n)| >= 4
    ensures a[3] / 32 % 2 == 1 ==> 5 + a[4] as int <= |PacketHead(f, first, cc, n)|
    ensures a[3] / 32 % 2 == 0 ==> a[3] < 32
  {
    var head := PacketHead(f, first, cc, n);
    HeadSize(f, first, cc, n);
    assert a[3] == head[3];
    if first && f.key {
      assert a[4] == head[4] == 7;
    }
  }

  lemma LowBit(v: int)
    ensures Low8(v * 128) == v % 2 * 128
  {
    assert v == v / 2 * 2 + v % 2;
    Remainder(v * 128, 256, v / 2, v % 2 * 128);
  }
}
