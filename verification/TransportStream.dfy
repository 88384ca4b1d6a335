/**
 Whole transport streams: the muxer that writes the frames of a segment into one file, and a reader,
 built from ISO/IEC 13818-1 alone, that gets all of them back.
 */
module TransportStream {
  import opened Bytes
  import opened Pieces
  import opened MpegTs

  const VIDEO_PID := 256
  const AUDIO_PID := 257

  // ---------------------------------------------------------------- the reader

  /** Cuts a file into packets; less than a packet at the end is ignored. */
  function Cut(bytes: seq<byte>): seq<seq<byte>> {
    if |bytes| < PACKET then [] else [bytes[..PACKET]] + Cut(bytes[PACKET..])
  }

  function OfPid(pks: seq<seq<byte>>, pid: nat): seq<seq<byte>> {
    if pks == [] then []
    else
      var pk := pks[|pks| - 1];
      OfPid(pks[..|pks| - 1], pid) + if IsPacket(pk) && Pid(pk) == pid then [pk] else []
  }

  /** Joins the payloads of packets of one PID: a unit goes on until the next one starts. */
  function Units(pks: seq<seq<byte>>): seq<seq<byte>> {
    if pks == [] then []
    else
      var before, pk := Units(pks[..|pks| - 1]), pks[|pks| - 1];
      if |pk| == PACKET && StartsUnit(pk) then before + [Payload(pk)]
      else if before == [] then []
      else before[..|before| - 1] + [before[|before| - 1] + Payload(pk)]
  }

  datatype Pes = Pes(sid: nat, pts: nat, dts: nat, data: seq<byte>)

  /** A PES packet, section 2.4.3.6; a length that is given must be the length there is. */
  function ParsePes(u: seq<byte>): Option<Pes> {
    if |u| < 9 || u[..3] != [0, 0, 1] || (U16(u[4..6]) != 0 && U16(u[4..6]) != |u| - 6) then None
    else if u[8] as int + 9 > |u| then None
    else if u[7] / 64 == 2 && u[8] >= 5 then
      Some(Pes(u[3], DecodeTime(u[9..14]), DecodeTime(u[9..14]), u[9 + u[8] as int..]))
    else if u[7] / 64 == 3 && u[8] >= 10 then
      Some(Pes(u[3], DecodeTime(u[9..14]), DecodeTime(u[14..19]), u[9 + u[8] as int..]))
    else None
  }

  function ParseAll(us: seq<seq<byte>>): seq<Option<Pes>> {
    if us == [] then [] else ParseAll(us[..|us| - 1]) + [ParsePes(us[|us| - 1])]
  }

  function Demux(file: seq<byte>, pid: nat): seq<Option<Pes>> {
    ParseAll(Units(OfPid(Cut(file), pid)))
  }

  // ---------------------------------------------------------------- what is written

  /** A frame that was written: cc is the counter before it. */
  datatype Written = Written(header: FrameHeader, cc: nat, data: seq<byte>, pks: seq<seq<byte>>)

  ghost predicate AllFrames(ws: seq<Written>) {
    ws == [] || (var w := ws[|ws| - 1]; AllFrames(ws[..|ws| - 1]) && IsFrame(w.pks, w.header, w.cc, w.data))
  }

  function AllPackets(ws: seq<Written>): seq<seq<byte>> {
    if ws == [] then [] else AllPackets(ws[..|ws| - 1]) + ws[|ws| - 1].pks
  }

  /** The frames of one PID, as a reader should see them: times have 33 bits. */
  function Sent(ws: seq<Written>, pid: nat): seq<Option<Pes>> {
    if ws == [] then []
    else
      var w := ws[|ws| - 1];
      Sent(ws[..|ws| - 1], pid) + if w.header.pid % 0x2000 == pid then [Some(AsPes(w.header, w.data))] else []
  }

  function AsPes(f: FrameHeader, data: seq<byte>): Pes {
    Pes(f.sid % 256, (f.pts + DELAY) % 0x200000000, (f.dts + DELAY) % 0x200000000, data)
  }

  // ---------------------------------------------------------------- time stamps

  /** 33 bits of a time stamp survive. */
  lemma TimeRoundTrip(fb: nat, v: int)
    ensures DecodeTime(TimeBytes(fb, v)) == v % 0x200000000
  {
    hide BE16, Low8, U16;
    var top, middle, low := v / 0x40000000 % 8, v / 0x8000 % 0x8000, v % 0x8000;
    TimeParts(fb, top, middle, low);
    WithoutMarker(middle);
    WithoutMarker(low);
    TopBits(fb, top);
    Split33(v);
  }

  lemma WithoutMarker(x: nat)
    requires x < 0x8000
    ensures U16(BE16(x * 2 + 1)) / 2 == x
  {
    BigEndian16(x * 2 + 1);
  }

  lemma TimeParts(fb: nat, top: nat, middle: nat, low: nat)
    requires top < 8
    ensures var b := [Low8(fb * 16 + top * 2 + 1)] + BE16(middle * 2 + 1) + BE16(low * 2 + 1);
            && |b| == 5 && b[0] == Low8(fb * 16 + top * 2 + 1)
            && b[1..3] == BE16(middle * 2 + 1) && b[3..5] == BE16(low * 2 + 1)
  {}

  lemma Split33(v: int)
    ensures v % 0x200000000 == v / 0x40000000 % 8 * 0x40000000 + v / 0x8000 % 0x8000 * 0x8000 + v % 0x8000
  {
    ModSplit(v, 0x8000, 0x8000, 0x40000000);
    ModSplit(v, 0x40000000, 8, 0x200000000);
  }

  /** Each part of a time stamp ends in a marker bit. */
  lemma TimeHasMarkers(fb: nat, v: int)
    ensures var b := TimeBytes(fb, v); b[0] % 2 == 1 && b[2] % 2 == 1 && b[4] % 2 == 1
  {
    TopBits(fb, v / 0x40000000 % 8);
    OddEnds(v / 0x8000 % 0x8000);
    OddEnds(v % 0x8000);
  }

  lemma TopBits(fb: nat, top: nat)
    requires top < 8
    ensures Low8(fb * 16 + top * 2 + 1) / 2 % 8 == top && Low8(fb * 16 + top * 2 + 1) % 2 == 1
  {
    ModSplit(fb * 16 + top * 2 + 1, 16, 16, 256);
    Remainder(fb * 16 + top * 2 + 1, 16, fb, top * 2 + 1);
  }

  lemma OddEnds(x: nat)
    ensures Low8(x * 2 + 1) % 2 == 1
  {
    ModSplit(x * 2 + 1, 2, 128, 256);
  }

  lemma PcrRoundTrip(v: int)
    ensures DecodePcr(PcrBytes(v)) == v % 0x200000000
  {
    ModSplit(v, 2, 0x100, 0x200);
    ModSplit(v, 0x200, 0x100, 0x20000);
    ModSplit(v, 0x20000, 0x100, 0x2000000);
    ModSplit(v, 0x2000000, 0x100, 0x200000000);
  }

  /** The length that is written is that of the rest of the packet, unless that needs more than 16 bits. */
  lemma PesLengthIsRight(f: FrameHeader, data: seq<byte>)
    ensures var u := PesHeader(f, |data|) + data;
            U16(u[4..6]) == if |u| - 6 <= 0xffff then |u| - 6 else 0
  {
    hide TimeBytes;
    var u := PesHeader(f, |data|) + data;
    TimesAre5(f);
    assert u[4..6] == BE16(PesLength(f, |data|));
    BigEndian16(PesLength(f, |data|));
  }

  lemma TimesAre5(f: FrameHeader)
    ensures |TimeBytes(PesFlags(f) as int / 64, f.pts + DELAY)| == |TimeBytes(1, f.dts + DELAY)| == 5
  {}

  /** Reading a PES packet that was written gives the frame. */
  lemma PesRoundTrip(f: FrameHeader, data: seq<byte>)
    ensures ParsePes(PesHeader(f, |data|) + data) == Some(AsPes(f, data))
  {
    hide TimeBytes, DecodeTime;
    var u := PesHeader(f, |data|) + data;
    PesLengthIsRight(f, data);
    TimesAre5(f);
    PesHeaderSize(f, |data|);
    TimeRoundTrip(PesFlags(f) as int / 64, f.pts + DELAY);
    TimeRoundTrip(1, f.dts + DELAY);
    assert u[..3] == [0, 0, 1];
    assert u[9..14] == TimeBytes(PesFlags(f) as int / 64, f.pts + DELAY);
    assert f.dts != f.pts ==> u[14..19] == TimeBytes(1, f.dts + DELAY);
    assert u[9 + HeaderSize(f)..] == data;
  }

  // ---------------------------------------------------------------- the stream is lossless

  lemma OfPidConcat(a: seq<seq<byte>>, b: seq<seq<byte>>, pid: nat)
    ensures OfPid(a + b, pid) == OfPid(a, pid) + OfPid(b, pid)
    decreases |b|
  {
    hide IsPacket, Pid;
    if b == [] {
      assert a + b == a;
    } else {
      assert (a + b)[..|a + b| - 1] == a + b[..|b| - 1];
      OfPidConcat(a, b[..|b| - 1], pid);
    }
  }

  lemma {:induction false} CutConcat(pks: seq<seq<byte>>, rest: seq<byte>)
    requires forall i :: 0 <= i < |pks| ==> |pks[i]| == PACKET
    ensures Cut(Concat(pks) + rest) == pks + Cut(rest)
    decreases |pks|
  {
    if pks == [] {
      assert Concat(pks) + rest == rest;
    } else {
      var front, last := pks[..|pks| - 1], pks[|pks| - 1];
      Assoc(Concat(front), last, rest);
      CutConcat(front, last + rest);
      assert (last + rest)[..PACKET] == last && (last + rest)[PACKET..] == rest;
      assert front + ([last] + Cut(rest)) == pks + Cut(rest);
    }
  }

  /** The packets of one frame all have its PID, and the reader joins them into one unit. */
  lemma {:induction false} FrameIsOneUnit(before: seq<seq<byte>>, pks: seq<seq<byte>>, f: FrameHeader, cc: nat)
    requires |pks| > 0 && FramePackets(pks, f, cc)
    ensures Units(before + pks) == Units(before) + [Payloads(pks)]
    decreases |pks|
  {
    hide FramePacket, Payload;
    var front, pk := pks[..|pks| - 1], pks[|pks| - 1];
    FieldsOf(pk, f, |pks| == 1, cc + |pks|);
    assert (before + pks)[..|before + pks| - 1] == before + front;
    if |pks| == 1 {
      assert before + front == before && front == [];
      assert Payloads(pks) == Payload(pk);
    } else {
      FrameIsOneUnit(before, front, f, cc);
    }
  }

  lemma FieldsOf(pk: seq<byte>, f: FrameHeader, first: bool, cc: nat)
    requires FramePacket(pk, f, first, cc, Payload(pk))
    ensures IsPacket(pk) && Pid(pk) == f.pid % 0x2000 && StartsUnit(pk) == first && Continuity(pk) == cc % 16
  {}

  lemma {:induction false} FramePid(pks: seq<seq<byte>>, f: FrameHeader, cc: nat, pid: nat)
    requires FramePackets(pks, f, cc)
    ensures OfPid(pks, pid) == if f.pid % 0x2000 == pid then pks else []
    decreases |pks|
  {
    hide FramePacket, Payload, IsPacket, Pid, Continuity, StartsUnit;
    if pks != [] {
      var front, pk := pks[..|pks| - 1], pks[|pks| - 1];
      FieldsOf(pk, f, |pks| == 1, cc + |pks|);
      FramePid(front, f, cc, pid);
      assert pks == front + [pk];
    }
  }

  /** The packets count on from cc, modulo 16. */
  ghost predicate Consecutive(pks: seq<seq<byte>>, cc: nat) {
    pks == [] || (var pk := pks[|pks| - 1];
                  Consecutive(pks[..|pks| - 1], cc) && |pk| == PACKET && Continuity(pk) == (cc + |pks|) % 16)
  }

  lemma {:induction false} ConsecutiveConcat(a: seq<seq<byte>>, b: seq<seq<byte>>, cc: nat)
    requires Consecutive(a, cc) && Consecutive(b, cc + |a|)
    ensures Consecutive(a + b, cc)
    decreases |b|
  {
    hide Continuity;
    if b == [] {
      assert a + b == a;
    } else {
      assert (a + b)[..|a + b| - 1] == a + b[..|b| - 1];
      ConsecutiveConcat(a, b[..|b| - 1], cc);
    }
  }

  lemma {:induction false} FrameCounters(pks: seq<seq<byte>>, f: FrameHeader, cc: nat)
    requires FramePackets(pks, f, cc)
    ensures Consecutive(pks, cc)
    decreases |pks|
  {
    hide FramePacket, Pid, Continuity, StartsUnit;
    if pks != [] {
      FieldsOf(pks[|pks| - 1], f, |pks| == 1, cc + |pks|);
      FrameCounters(pks[..|pks| - 1], f, cc);
    }
  }

  lemma {:induction false} FrameIsWhole(pks: seq<seq<byte>>, f: FrameHeader, cc: nat)
    requires FramePackets(pks, f, cc)
    ensures forall i :: 0 <= i < |pks| ==> |pks[i]| == PACKET
    decreases |pks|
  {
    hide FramePacket, Pid, Continuity, StartsUnit;
    if pks != [] {
      FieldsOf(pks[|pks| - 1], f, |pks| == 1, cc + |pks|);
      FrameIsWhole(pks[..|pks| - 1], f, cc);
      assert forall i :: 0 <= i < |pks| - 1 ==> pks[i] == pks[..|pks| - 1][i];
    }
  }

  lemma {:induction false} PacketsAreWhole(ws: seq<Written>)
    requires AllFrames(ws)
    ensures forall i :: 0 <= i < |AllPackets(ws)| ==> |AllPackets(ws)[i]| == PACKET
    decreases |ws|
  {
    hide FramePackets;
    if ws != [] {
      var w := ws[|ws| - 1];
      PacketsAreWhole(ws[..|ws| - 1]);
      FrameIsWhole(w.pks, w.header, w.cc);
    }
  }

  lemma ParseAllSnoc(us: seq<seq<byte>>, u: seq<byte>)
    ensures ParseAll(us + [u]) == ParseAll(us) + [ParsePes(u)]
  {
    assert (us + [u])[..|us|] == us;
  }

  /** Audio and video frames may be interleaved in any way: the units of a PID are its frames. */
  lemma {:induction false} UnitsAreFrames(ws: seq<Written>, pid: nat)
    requires AllFrames(ws)
    ensures ParseAll(Units(OfPid(AllPackets(ws), pid))) == Sent(ws, pid)
    decreases |ws|
  {
    hide FramePackets, ParsePes, PesHeader, AsPes, AllFull, Payloads;
    if ws != [] {
      var front, w := ws[..|ws| - 1], ws[|ws| - 1];
      UnitsAreFrames(front, pid);
      OfPidConcat(AllPackets(front), w.pks, pid);
      FramePid(w.pks, w.header, w.cc, pid);
      var before := OfPid(AllPackets(front), pid);
      if w.header.pid % 0x2000 == pid {
        FrameIsOneUnit(before, w.pks, w.header, w.cc);
        ParseAllSnoc(Units(before), Payloads(w.pks));
        PesRoundTrip(w.header, w.data);
      } else {
        assert before + [] == before;
      }
    }
  }

  // ---------------------------------------------------------------- the tables in front

  /** The program association and map tables, each in a packet of its own. */
  const PAT_PACKET: seq<byte> :=
    [0x47, 0x40, 0x00, 0x10, 0x00, 0x00, 0xb0, 0x0d, 0x00, 0x01, 0xc1, 0x00, 0x00, 0x00, 0x01, 0xf0, 0x01,
     0x2e, 0x70, 0x19, 0x05] + seq(167, _ => 0xff)

  const PMT_PACKET: seq<byte> :=
    [0x47, 0x50, 0x01, 0x10, 0x00, 0x02, 0xb0, 0x17, 0x00, 0x01, 0xc1, 0x00, 0x00, 0xe1, 0x00, 0xf0, 0x00,
     0x1b, 0xe1, 0x00, 0xf0, 0x00, 0x0f, 0xe1, 0x01, 0xf0, 0x00, 0x2f, 0x44, 0xb9, 0x9b] + seq(157, _ => 0xff)

  const PMT_PID := 0x1001

  lemma TablesArePackets()
    ensures IsPacket(PAT_PACKET) && Pid(PAT_PACKET) == 0 && IsPacket(PMT_PACKET) && Pid(PMT_PACKET) == PMT_PID
  {}

  /** The reader gets back every frame of a PID, in order, with its stream, its times modulo 2^33 and
      its data: whatever else is in the file, and even when writing broke off within a last packet. */
  lemma TransportIsLossless(ws: seq<Written>, tail: seq<byte>, pid: nat)
    requires AllFrames(ws) && |tail| < PACKET && pid != 0 && pid != PMT_PID
    ensures Demux(PAT_PACKET + PMT_PACKET + Concat(AllPackets(ws)) + tail, pid) == Sent(ws, pid)
  {
    hide PAT_PACKET, PMT_PACKET, Pid, IsPacket, ParseAll, Units, Cut, Concat, AllPackets, AllFrames, Sent;
    var pks := AllPackets(ws);
    var body := Concat(pks);
    TablesArePackets();
    assert Cut(PAT_PACKET + (PMT_PACKET + (body + tail))) == [PAT_PACKET, PMT_PACKET] + pks by {
      PacketsAreWhole(ws);
      CutConcat(pks, tail);
      CutTail(tail);
      CutTwo(PAT_PACKET, PMT_PACKET, body + tail);
      assert pks + [] == pks;
    }
    Assoc(PMT_PACKET, body, tail);
    Assoc(PAT_PACKET, PMT_PACKET + body, tail);
    Assoc(PAT_PACKET, PMT_PACKET, body);
    OfPidConcat([PAT_PACKET, PMT_PACKET], pks, pid);
    TablesHaveTheirPid(pid);
    assert [] + OfPid(pks, pid) == OfPid(pks, pid);
    UnitsAreFrames(ws, pid);
  }

  lemma CutTail(tail: seq<byte>)
    requires |tail| < PACKET
    ensures Cut(tail) == []
  {}

  lemma TablesHaveTheirPid(pid: nat)
    requires pid != 0 && pid != PMT_PID
    ensures OfPid([PAT_PACKET, PMT_PACKET], pid) == []
  {
    hide PAT_PACKET, PMT_PACKET;
    TablesArePackets();
    assert [PAT_PACKET][..0] == [];
    assert OfPid([PAT_PACKET], pid) == [];
    assert [PAT_PACKET, PMT_PACKET][..1] == [PAT_PACKET];
  }

  lemma CutTwo(a: seq<byte>, b: seq<byte>, rest: seq<byte>)
    requires |a| == PACKET && |b| == PACKET
    ensures Cut(a + (b + rest)) == [a, b] + Cut(rest)
  {
    assert (a + (b + rest))[..PACKET] == a && (a + (b + rest))[PACKET..] == b + rest;
    assert (b + rest)[..PACKET] == b && (b + rest)[PACKET..] == rest;
  }

  // ---------------------------------------------------------------- continuity

  /** What was tried to be written for one frame: a frame that failed has left the packets in front of the
      one that could not be written. */
  datatype Attempt = Attempt(frame: Written, whole: bool)

  /** The packets that went out for all frames, in any number of files. */
  function PacketsOf(log: seq<Attempt>): seq<seq<byte>> {
    if log == [] then [] else PacketsOf(log[..|log| - 1]) + log[|log| - 1].frame.pks
  }

  /** The frames that were written. */
  function WholeFrames(log: seq<Attempt>): seq<Written> {
    if log == [] then []
    else WholeFrames(log[..|log| - 1]) + if log[|log| - 1].whole then [log[|log| - 1].frame] else []
  }

  /** How many frames of a PID could not be written. */
  function Failures(log: seq<Attempt>, pid: nat): nat {
    if log == [] then 0
    else
      var a := log[|log| - 1];
      Failures(log[..|log| - 1], pid) + if a.frame.header.pid % 0x2000 == pid && !a.whole then 1 else 0
  }

  /** The counter of a PID behind what was tried: a frame that failed has used up one number more than it
      has left packets. */
  function Counter(log: seq<Attempt>, pid: nat): nat {
    if log == [] then 0
    else
      var a := log[|log| - 1];
      Counter(log[..|log| - 1], pid)
      + if a.frame.header.pid % 0x2000 != pid then 0 else |a.frame.pks| + if a.whole then 0 else 1
  }

  /** The packets of each frame were numbered on from where the counter of its PID stood. */
  ghost predicate Numbered(log: seq<Attempt>, pid: nat) {
    log == [] || (var a := log[|log| - 1];
                  && Numbered(log[..|log| - 1], pid) && FramePackets(a.frame.pks, a.frame.header, a.frame.cc)
                  && (a.frame.header.pid % 0x2000 == pid ==> a.frame.cc == Counter(log[..|log| - 1], pid)))
  }

  /** What a muxer keeps: all frames of a PID share one counter, and that is where it stands. */
  ghost predicate CountsOn(log: seq<Attempt>, pid: nat, cc: nat) {
    Numbered(log, pid) && cc == Counter(log, pid)
  }

  lemma NothingCounts(pid: nat)
    ensures CountsOn([], pid, 0)
  {}

  /** One more frame was tried. */
  lemma AttemptCounts(log: seq<Attempt>, a: Attempt, pid: nat, cc: nat)
    requires CountsOn(log, pid, cc) && FramePackets(a.frame.pks, a.frame.header, a.frame.cc)
    requires a.frame.header.pid % 0x2000 == pid ==> a.frame.cc == cc
    ensures CountsOn(log + [a], pid,
                     cc + if a.frame.header.pid % 0x2000 != pid then 0 else |a.frame.pks| + if a.whole then 0 else 1)
  {
    hide FramePackets;
    assert (log + [a])[..|log|] == log;
  }

  lemma {:induction false} AttemptsOfPid(log: seq<Attempt>, pid: nat)
    requires Numbered(log, pid)
    ensures Counter(log, pid) == |OfPid(PacketsOf(log), pid)| + Failures(log, pid)
    decreases |log|
  {
    hide FramePackets, OfPid;
    if log == [] {
      NoneConsecutive(pid, 0);
    } else {
      var front, a := log[..|log| - 1], log[|log| - 1];
      AttemptsOfPid(front, pid);
      OfPidConcat(PacketsOf(front), a.frame.pks, pid);
      FramePid(a.frame.pks, a.frame.header, a.frame.cc, pid);
    }
  }

  /** The counter behind the first k attempts is that of the packets that went out, and one for each
      failure. From there it goes up by one, modulo 16, from packet to packet for as long as every frame
      could be written: a reader misses exactly one packet for each failure and never another. */
  lemma {:induction false} ContinuityBreaksOnlyAtFailures(log: seq<Attempt>, k: nat, pid: nat)
    requires Numbered(log, pid) && k <= |log| && Failures(log[k..], pid) == 0
    ensures Consecutive(OfPid(PacketsOf(log[k..]), pid), Counter(log[..k], pid))
    ensures Counter(log[..k], pid) == |OfPid(PacketsOf(log[..k]), pid)| + Failures(log[..k], pid)
    ensures Counter(log, pid) == Counter(log[..k], pid) + |OfPid(PacketsOf(log[k..]), pid)|
    decreases |log|
  {
    hide FramePackets, Consecutive, OfPid;
    if k == |log| {
      assert log[..k] == log && log[k..] == [];
      AttemptsOfPid(log, pid);
      NoneConsecutive(pid, Counter(log, pid));
    } else {
      var front, a := log[..|log| - 1], log[|log| - 1];
      assert front[..k] == log[..k] && front[k..] == log[k..][..|log[k..]| - 1];
      ContinuityBreaksOnlyAtFailures(front, k, pid);
      var before := OfPid(PacketsOf(front[k..]), pid);
      OfPidConcat(PacketsOf(front[k..]), a.frame.pks, pid);
      FramePid(a.frame.pks, a.frame.header, a.frame.cc, pid);
      if a.frame.header.pid % 0x2000 == pid {
        FrameCounters(a.frame.pks, a.frame.header, a.frame.cc);
        ConsecutiveConcat(before, a.frame.pks, Counter(log[..k], pid));
      } else {
        assert before + [] == before;
      }
    }
  }

  lemma NoneConsecutive(pid: nat, cc: nat)
    ensures OfPid([], pid) == [] && Consecutive([], cc)
  {}

  // ---------------------------------------------------------------- the muxer of a segment

  class TsMuxer {
    const writer: MpegtsWriter
    var file: TsFile?
    // the frames in the file, and whether nothing else has got into it
    ghost var written: seq<Written>
    ghost var sound: bool

    ghost predicate Valid()
      reads this, writer, file
    {
      && writer.packet.Length == PACKET
      && (sound ==> && file != null && AllFrames(written)
                    && file.content == PAT_PACKET + PMT_PACKET + Concat(AllPackets(written)))
    }

    constructor (w: MpegtsWriter)
      requires w.packet.Length == PACKET
      ensures Valid() && writer == w && file == null && !sound && written == []
    {
      writer, file, written, sound := w, null, [], false;
    }

    /** Creates the file and writes the tables. */
    method Open() returns (ok: bool)
      requires writer.packet.Length == PACKET
      modifies this
      ensures Valid() && written == [] && (file == null || fresh(file))
      ensures ok ==> sound
    {
      file, written, sound := null, [], false;
      if * {
        return false;
      }
      file := new TsFile();
      var tables := new byte[2 * PACKET](i requires 0 <= i < 2 * PACKET => (PAT_PACKET + PMT_PACKET)[i]);
      assert tables[..] == PAT_PACKET + PMT_PACKET;
      ok := file.Write(tables);
      sound := ok;
      assert ok ==> file.content == PAT_PACKET + PMT_PACKET + Concat(AllPackets([]));
    }

    /** Writes a frame; a failure spoils the file. */
    method WriteFrame(frame: MpegtsFrame, buffer: seq<byte>) returns (ok: bool, ghost pks: seq<seq<byte>>)
      requires Valid()
      modifies this, writer.packet, frame`cc, if file == null then {} else {file}
      ensures Valid() && file == old(file)
      ensures buffer == [] ==> ok && frame.cc == old(frame.cc) && written == old(written) && sound == old(sound)
      ensures FramePackets(pks, frame.Header(), old(frame.cc))
      ensures ok && buffer != [] ==>
              && sound == old(sound)
              && written == old(written) + [Written(frame.Header(), old(frame.cc), buffer, pks)]
      ensures buffer != [] ==> frame.cc == old(frame.cc) + |pks| + if ok then 0 else 1
      ensures file == null && buffer != [] ==> !ok
      ensures !ok ==> !sound && written == old(written)
    {
      hide PAT_PACKET, PMT_PACKET, IsFrame, FramePackets;
      ok, pks := writer.WriteFrame(file, frame, buffer);
      if !ok {
        sound := false;
      } else if buffer != [] {
        ghost var w := Written(frame.Header(), old(frame.cc), buffer, pks);
        AddFrame(written, w);
        Assoc(PAT_PACKET + PMT_PACKET, Concat(AllPackets(written)), Concat(pks));
        written := written + [w];
      }
    }

    method Close()
      modifies this
      ensures file == null && !sound && written == old(written)
    {
      file, sound := null, false;
    }
  }

  lemma {:induction false} ConcatConcat(a: seq<seq<byte>>, b: seq<seq<byte>>)
    ensures Concat(a + b) == Concat(a) + Concat(b)
    decreases |b|
  {
    if b == [] {
      assert a + b == a;
    } else {
      var front, last := b[..|b| - 1], b[|b| - 1];
      assert (a + b)[..|a + b| - 1] == a + front;
      ConcatConcat(a, front);
      Assoc(Concat(a), Concat(front), last);
    }
  }

  lemma AddFrame(ws: seq<Written>, w: Written)
    requires IsFrame(w.pks, w.header, w.cc, w.data)
    ensures AllFrames(ws) ==> AllFrames(ws + [w])
    ensures AllPackets(ws + [w]) == AllPackets(ws) + w.pks
    ensures Concat(AllPackets(ws + [w])) == Concat(AllPackets(ws)) + Concat(w.pks)
  {
    assert (ws + [w])[..|ws|] == ws;
    ConcatConcat(AllPackets(ws), w.pks);
  }

  /** A file that nothing has gone wrong with gives back every frame that was written to it. */
  lemma FileIsLossless(m: TsMuxer, pid: nat)
    requires m.Valid() && m.sound && pid != 0 && pid != PMT_PID
    ensures Demux(m.file.content, pid) == Sent(m.written, pid)
  {
    hide Demux, PAT_PACKET, PMT_PACKET;
    TransportIsLossless(m.written, [], pid);
    assert m.file.content + [] == m.file.content;
  }
}
