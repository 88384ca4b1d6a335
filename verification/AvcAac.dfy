/**
 Taking H.264 pictures and AAC frames out of FLV payloads: the decoder configuration records, and
 the list of NAL units of a picture.
 */
module AvcAac {
  import opened Bytes
  import opened Pieces
  import opened Stream
  import Codec

  const MAX_CODEC_SAMPLE := 128

  const SEQUENCE_HEADER := 0
  const NALU := 1
  const RAW_DATA := 1

  /** A range of a payload; a signed length on the wire can make it negative. */
  datatype Slice = Slice(pos: int, size: int)

  class CodecSample {
    var isVideo: bool
    var cts: int
    var frameType: int
    var avcPacketType: int
    var soundRate: int
    var aacPacketType: int
    var buffers: seq<Slice>

    constructor ()
      ensures buffers == []
    {
      isVideo, cts, frameType, avcPacketType, soundRate, aacPacketType, buffers := false, 0, 0, -1, -1, -1, [];
    }

    method Clear()
      modifies this
      ensures buffers == [] && frameType == 0 && avcPacketType == -1 && aacPacketType == -1
    {
      isVideo, cts, frameType, avcPacketType, soundRate, aacPacketType, buffers := false, 0, 0, -1, -1, -1, [];
    }

    method AddSample(pos: int, size: int) returns (ok: bool)
      modifies this`buffers
      ensures ok == (|old(buffers)| < MAX_CODEC_SAMPLE)
      ensures buffers == if ok then old(buffers) + [Slice(pos, size)] else old(buffers)
    {
      if |buffers| >= MAX_CODEC_SAMPLE {
        return false;
      }
      buffers := buffers + [Slice(pos, size)];
      ok := true;
    }
  }

  // ---------------------------------------------------------------- decoder configuration

  /** A parameter set; its length is stored before it is known whether the bytes are there. */
  datatype ParameterSet = ParameterSet(length: nat, unit: seq<byte>)

  datatype VideoConfig =
    VideoConfig(codecId: int, nalUnitLength: nat, sps: ParameterSet, pps: ParameterSet, extraSize: nat,
        extra: seq<byte>)

  datatype AudioConfig =
    AudioConfig(codecId: int, profile: nat, sampleRate: nat, channels: nat, extraSize: nat, extra: seq<byte>)

  datatype SetResult = SetResult(ok: bool, stored: ParameterSet, next: nat)

  /** Reads the one parameter set of its kind at p. */
  function SetAt(s: ParameterSet, d: seq<byte>, p: nat): SetResult {
    if p + 3 > |d| || d[p] % 32 != 1 then SetResult(false, s, p)
    else
      var n := U16(d[p + 1..p + 3]);
      if p + 3 == |d| || p + 3 + n > |d| then SetResult(false, s.(length := n), p)
      else SetResult(true, ParameterSet(n, if n > 0 then d[p + 3..p + 3 + n] else s.unit), p + 3 + n)
  }

  datatype RecordResult = RecordResult(ok: bool, config: VideoConfig)

  function SetsAt(v: VideoConfig, d: seq<byte>, p: nat): RecordResult {
    var s := SetAt(v.sps, d, p);
    if !s.ok then RecordResult(false, v.(sps := s.stored))
    else
      var q := SetAt(v.pps, d, s.next);
      RecordResult(q.ok, v.(sps := s.stored, pps := q.stored))
  }

  /** Reads the AVCDecoderConfigurationRecord, ISO/IEC 14496-15 section 5.2.4.1.1, at p. */
  function RecordAt(v: VideoConfig, d: seq<byte>, p: nat): RecordResult
    requires p <= |d|
  {
    var v0 := v.(extraSize := |d| - p, extra := if p < |d| then d[p..] else v.extra);
    if |d| < p + 6 then RecordResult(false, v0)
    else SetsAt(v0.(nalUnitLength := d[p + 4] as int % 4), d, p + 5)
  }

  /** The bits of an AudioSpecificConfig, ISO/IEC 14496-3 section 1.6.2.1. */
  function ObjectType(b0: byte): nat {
    b0 as int / 8
  }

  function FrequencyIndex(b0: byte, b1: byte): nat {
    b0 as int % 8 * 2 + b1 as int / 128
  }

  function ChannelConfiguration(b1: byte): nat {
    b1 as int / 8 % 16
  }

  /** The profile that is used for an object type: extended ones are played as low complexity. */
  function ProfileOf(objectType: nat): nat {
    if objectType == 0 || objectType == 31 then objectType
    else if objectType - 1 > 3 then 1
    else objectType - 1
  }

  // ---------------------------------------------------------------- the NAL units of a picture

  /** How cutting a picture ends. When the cursor was moved in front of the payload, nothing is known
      of the bytes there. */
  datatype Outcome = Cut(samples: seq<Slice>) | Bad(samples: seq<Slice>) | Lost(samples: seq<Slice>)

  /** The length of a NAL unit as it is read: only sizes of four bytes are read in full, of all others
      the first byte alone, and as a signed number. */
  function LengthRead(n: nat, d: seq<byte>, p: nat): int
    requires p + n + 1 <= |d| && n <= 3
  {
    if n == 3 then Signed32(U32(d[p..p + 4])) else Signed8(d[p])
  }

  function SizeRead(n: nat): nat {
    if n == 3 then 4 else 1
  }

  /** Cuts a picture of `length` bytes from the cursor p on, i bytes of which are accounted for. */
  function Nalus(n: nat, d: seq<byte>, p: int, i: int, length: nat, samples: seq<Slice>): Outcome
    requires n <= 3
    decreases MAX_CODEC_SAMPLE - |samples|
  {
    if i >= length then Cut(samples)
    else if p >= |d| || n + 1 > |d| - p then Bad(samples)
    else if p < 0 then Lost(samples)
    else
      var size, q := LengthRead(n, d, p), p + SizeRead(n);
      if q >= |d| || size > |d| - q || |samples| >= MAX_CODEC_SAMPLE then Bad(samples)
      else Nalus(n, d, q + size, i + n + 1 + size, length, samples + [Slice(q, size)])
  }

  lemma Step(n: nat, d: seq<byte>, p: int, i: int, length: nat, samples: seq<Slice>)
    requires n <= 3
    ensures i >= length ==> Nalus(n, d, p, i, length, samples) == Cut(samples)
    ensures i < length && (p >= |d| || n + 1 > |d| - p) ==> Nalus(n, d, p, i, length, samples) == Bad(samples)
    ensures i < length && p + n + 1 <= |d| && p < 0 ==> Nalus(n, d, p, i, length, samples) == Lost(samples)
    ensures i < length && p + n + 1 <= |d| && p >= 0 ==>
              var size, q := LengthRead(n, d, p), p + SizeRead(n);
              Nalus(n, d, p, i, length, samples)
              == if q >= |d| || size > |d| - q || |samples| >= MAX_CODEC_SAMPLE then Bad(samples)
                 else Nalus(n, d, q + size, i + n + 1 + size, length, samples + [Slice(q, size)])
  {}

  class AvcAacCodec {
    const stream: ByteStream
    var video: VideoConfig
    var audio: AudioConfig

    constructor ()
      ensures fresh(stream) && video.codecId == 0 && video.extraSize == 0 && audio.codecId == 0 && audio.extraSize == 0
      ensures video.nalUnitLength == 0 && audio.sampleRate == 0
    {
      stream := new ByteStream();
      video := VideoConfig(0, 0, ParameterSet(0, []), ParameterSet(0, []), 0, []);
      audio := AudioConfig(0, 0, 0, 0, 0, []);
    }

    /** Reads a parameter set; the stream stops where the first missing part is. */
    method ReadSet(s: ParameterSet) returns (ok: bool, r: ParameterSet)
      requires stream.Valid() && stream.p >= 0
      modifies stream`p
      ensures var d := stream.Data(); var e := SetAt(s, d, old(stream.p));
              ok == e.ok && r == e.stored && (ok ==> stream.p == e.next)
    {
      hide U16, Signed8;
      r := s;
      ghost var p := stream.p;
      if !stream.Require(1) {
        return false, r;
      }
      var count := stream.Read1();
      LowBits(stream.Data()[p]);
      if count % 32 != 1 {
        return false, r;
      }
      if !stream.Require(2) {
        return false, r;
      }
      var n := stream.Read2();
      r := r.(length := n);
      if !stream.Require(n) {
        return false, r;
      }
      if n > 0 {
        var unit := stream.ReadBytes(n);
        r := r.(unit := unit);
      }
      ok := true;
    }

    /** Reads the record; what was read before the first missing part is stored. */
    method ReadRecord() returns (ok: bool)
      requires stream.Valid() && stream.p == 5 <= stream.size
      modifies stream`p, this`video
      ensures var e := RecordAt(old(video), stream.Data(), 5); ok == e.ok && video == e.config
    {
      hide SetsAt, Signed8;
      var left := stream.size - stream.p;
      video := video.(extraSize := left);
      if left > 0 {
        var extra := stream.ReadBytes(left);
        stream.Skip(-left);
        assert extra == stream.Data()[5..];
        video := video.(extra := extra);
      }
      if !stream.Require(6) {
        return false;
      }
      stream.Skip(4);
      var lengthSizeMinusOne := stream.Read1();
      LowBits(stream.Data()[9]);
      video := video.(nalUnitLength := lengthSizeMinusOne % 4);
      ok := ReadSets();
    }

    method ReadSets() returns (ok: bool)
      requires stream.Valid() && stream.p >= 0
      modifies stream`p, this`video
      ensures var e := SetsAt(old(video), stream.Data(), old(stream.p)); ok == e.ok && video == e.config
    {
      hide SetAt;
      var unit;
      ok, unit := ReadSet(video.sps);
      video := video.(sps := unit);
      if !ok {
        return;
      }
      ok, unit := ReadSet(video.pps);
      video := video.(pps := unit);
    }

    method ReadLength() returns (size: int)
      requires stream.Valid() && stream.Require(video.nalUnitLength + 1) && video.nalUnitLength <= 3
      modifies stream`p
      ensures stream.p == old(stream.p) + SizeRead(video.nalUnitLength)
      ensures old(stream.p) >= 0 ==> size == LengthRead(video.nalUnitLength, stream.Data(), old(stream.p))
    {
      if video.nalUnitLength == 3 {
        size := stream.Read4();
      } else {
        // a length of two or three bytes is meant to be read here, but never is
        size := stream.Read1();
      }
    }

    /** Cuts the picture. Whatever the bytes are, this ends: each turn takes one of the places for
        samples or gives up. */
    method ReadNalus(sample: CodecSample) returns (ok: bool)
      requires stream.Valid() && stream.p == 5 <= stream.size && video.nalUnitLength <= 3 && sample.buffers == []
      modifies stream`p, sample`buffers
      ensures |sample.buffers| <= MAX_CODEC_SAMPLE
      ensures match Nalus(video.nalUnitLength, stream.Data(), 5, 0, stream.size - 5, [])
              case Cut(s) => ok && sample.buffers == s
              case Bad(s) => !ok && sample.buffers == s
              case Lost(s) => s <= sample.buffers
    {
      hide Nalus, LengthRead, SizeRead;
      var length, i := stream.size - 5, 0;
      ghost var d, n := stream.Data(), video.nalUnitLength;
      ghost var end := Nalus(n, d, 5, 0, length, []);
      ghost var lost := false;
      while i < length
        invariant |sample.buffers| <= MAX_CODEC_SAMPLE
        invariant lost ==> end.Lost? && end.samples <= sample.buffers
        invariant !lost ==> end == Nalus(n, d, stream.p, i, length, sample.buffers)
        decreases MAX_CODEC_SAMPLE - |sample.buffers|
      {
        ghost var p := stream.p;
        Step(n, d, p, i, length, sample.buffers);
        if !stream.Require(video.nalUnitLength + 1) {
          return false;
        }
        lost := lost || p < 0;
        var size := ReadLength();
        if !stream.Require(size) {
          return false;
        }
        ok := sample.AddSample(stream.p, size);
        if !ok {
          return;
        }
        stream.Skip(size);
        i := i + video.nalUnitLength + 1 + size;
      }
      Step(n, d, stream.p, i, length, sample.buffers);
      ok := true;
    }

    /** Takes an FLV video payload apart. */
    method VideoAvcDemux(data: array<byte>, sample: CodecSample) returns (ok: bool)
      requires sample.buffers == [] && video.nalUnitLength <= 3
      modifies stream, this`video, sample
      ensures |sample.buffers| <= MAX_CODEC_SAMPLE && video.nalUnitLength <= 3
      ensures data.Length == 0 ==> ok && video == old(video) && sample.buffers == []
      ensures data.Length > 0 && data[0] % 16 != Codec.AVC ==> !ok && video == old(video) && sample.buffers == []
      ensures 0 < data.Length < 5 ==> !ok && sample.buffers == []
      ensures data.Length >= 5 && data[0] % 16 == Codec.AVC ==>
                && sample.frameType == data[0] as int / 16 && sample.avcPacketType == Signed8(data[1])
                && sample.cts == U24(data[2..5])
                && var v := old(video).(codecId := Codec.AVC);
                   if data[1] as int == SEQUENCE_HEADER then
                     var e := RecordAt(v, data[..], 5); ok == e.ok && video == e.config && sample.buffers == []
                   else if data[1] as int == NALU && v.extraSize > 0 && v.extra != [] then
                     && video == v
                     && match Nalus(v.nalUnitLength, data[..], 5, 0, data.Length - 5, [])
                        case Cut(s) => ok && sample.buffers == s
                        case Bad(s) => !ok && sample.buffers == s
                        case Lost(s) => s <= sample.buffers
                   else ok == (data[1] as int != NALU) && video == v && sample.buffers == []
    {
      hide Nalus, RecordAt;
      sample.isVideo := true;
      if data.Length <= 0 {
        return true;
      }
      var _ := stream.Initialize(data, 0, data.Length);
      assert stream.Data() == data[..];
      var frameType := stream.Read1();
      FrameBits(data[0]);
      var codecId := frameType % 16;
      sample.frameType := frameType / 16 % 16;
      if codecId != Codec.AVC {
        return false;
      }
      video := video.(codecId := codecId);
      if !stream.Require(4) {
        return false;
      }
      var packetType := stream.Read1();
      var cts := stream.Read3();
      sample.cts := cts;
      sample.avcPacketType := packetType;
      if packetType == SEQUENCE_HEADER {
        ghost var v := video;
        ok := ReadRecord();
        SizeIsInRange(v, data[..]);
      } else if packetType == NALU {
        if video.extraSize <= 0 || video.extra == [] {
          return false;
        }
        ok := ReadNalus(sample);
      } else {
        ok := true;
      }
    }

    /** Takes an FLV audio payload apart. */
    method AudioAacDemux(data: array<byte>, sample: CodecSample) returns (ok: bool)
      requires sample.buffers == []
      modifies stream, this`audio, sample
      ensures data.Length == 0 ==> ok && audio == old(audio) && sample.buffers == []
      ensures data.Length > 0 ==>
                && sample.soundRate == SoundRate(data[0] as int / 4 % 4, old(audio.sampleRate))
                && var a := old(audio).(codecId := data[0] as int / 16);
                   if a.codecId != Codec.AAC || data.Length == 1 then !ok && audio == a && sample.buffers == []
                   else
                     && sample.aacPacketType == Signed8(data[1])
                     && if data[1] as int == SEQUENCE_HEADER then
                          var e := AscAt(a, data[..], 2); ok == e.ok && audio == e.config && sample.buffers == []
                        else
                          && audio == a
                          && ok == (data[1] as int != RAW_DATA || (a.extraSize > 0 && a.extra != []))
                          && sample.buffers
                             == if ok && data[1] as int == RAW_DATA then [Slice(2, data.Length - 2)] else []
    {
      sample.isVideo := false;
      if data.Length <= 0 {
        return true;
      }
      var _ := stream.Initialize(data, 0, data.Length);
      assert stream.Data() == data[..];
      var soundFormat := stream.Read1();
      FrameBits(data[0]);
      hide AscAt, Signed8;
      var soundRate := soundFormat / 4 % 4;
      audio := audio.(codecId := soundFormat / 16 % 16);
      sample.soundRate := soundRate;
      if audio.sampleRate == 10 {
        sample.soundRate := 1;
      } else if audio.sampleRate == 7 {
        sample.soundRate := 2;
      } else if audio.sampleRate == 4 {
        sample.soundRate := 3;
      }
      if audio.codecId != Codec.AAC {
        return false;
      }
      if !stream.Require(1) {
        return false;
      }
      var packetType := stream.Read1();
      SmallSigned(data[1]);
      sample.aacPacketType := packetType;
      if packetType == SEQUENCE_HEADER {
        ok := ReadAsc();
      } else if packetType == RAW_DATA {
        if audio.extraSize <= 0 || audio.extra == [] {
          return false;
        }
        ok := sample.AddSample(stream.p, stream.Left());
      } else {
        ok := true;
      }
    }

    method ReadAsc() returns (ok: bool)
      requires stream.Valid() && stream.p == 2 <= stream.size
      modifies stream`p, this`audio
      ensures var e := AscAt(old(audio), stream.Data(), 2); ok == e.ok && audio == e.config
    {
      var left := stream.size - stream.p;
      hide ProfileOf, Signed8, ObjectType, FrequencyIndex, ChannelConfiguration;
      audio := audio.(extraSize := left);
      if left > 0 {
        var extra := stream.ReadBytes(left);
        stream.Skip(-left);
        assert extra == stream.Data()[2..];
        audio := audio.(extra := extra);
      }
      if !stream.Require(2) {
        return false;
      }
      var b0 := stream.Read1();
      var b1 := stream.Read1();
      Unsigned(stream.Data()[2]);
      Unsigned(stream.Data()[3]);
      ok := SetAsc(b0 % 256, b1 % 256);
    }

    method SetAsc(b0: byte, b1: byte) returns (ok: bool)
      modifies this`audio
      ensures audio == old(audio).(profile := ProfileOf(ObjectType(b0)), sampleRate := FrequencyIndex(b0, b1),
                                   channels := ChannelConfiguration(b1))
      ensures ok == (ObjectType(b0) != 0 && ObjectType(b0) != 31)
    {
      AscBits(b0, b1);
      audio := audio.(channels := b1 as int / 8 % 16);
      audio := audio.(sampleRate := b0 as int * 2 % 16 + b1 as int / 128 % 2);
      audio := audio.(profile := b0 as int / 8 % 32);
      if audio.profile == 0 || audio.profile == 31 {
        return false;
      }
      audio := audio.(profile := audio.profile - 1);
      if audio.profile > 3 {
        audio := audio.(profile := 1);
      }
      ok := true;
    }
  }

  /** What an AudioSpecificConfig changes; only object types 0 and 31 are refused. */
  datatype AscResult = AscResult(ok: bool, config: AudioConfig)

  function AscAt(a: AudioConfig, d: seq<byte>, p: nat): AscResult
    requires p <= |d|
  {
    var a0 := a.(extraSize := |d| - p, extra := if p < |d| then d[p..] else a.extra);
    if |d| < p + 2 then AscResult(false, a0)
    else
      var t := ObjectType(d[p]);
      AscResult(t != 0 && t != 31, a0.(profile := ProfileOf(t), sampleRate := FrequencyIndex(d[p], d[p + 1]),
                                       channels := ChannelConfiguration(d[p + 1])))
  }

  /** The sound rate of the FLV tag is corrected by the frequency of the sequence header seen before. */
  function SoundRate(flag: nat, frequencyIndex: nat): nat {
    if frequencyIndex == 10 then 1 else if frequencyIndex == 7 then 2 else if frequencyIndex == 4 then 3 else flag
  }

  lemma SmallSigned(b: byte)
    ensures Signed8(b) == 0 <==> b == 0
    ensures Signed8(b) == 1 <==> b == 1
  {}

  lemma Unsigned(b: byte)
    ensures Signed8(b) % 256 == b
  {}

  lemma AscBits(b0: byte, b1: byte)
    ensures b1 / 8 % 16 == ChannelConfiguration(b1)
    ensures b0 * 2 % 16 + b1 / 128 % 2 == FrequencyIndex(b0, b1)
    ensures b0 / 8 % 32 == ObjectType(b0)
  {
    Remainder(b0 * 2, 16, b0 / 8, b0 % 8 * 2);
  }

  /** The composition time of a picture has 24 bits and a sign, which is read as a number without one: it
      is right exactly when it is not negative. */
  lemma CompositionTimeIsReadIff(cts: int)
    requires -0x800000 <= cts < 0x800000
    ensures U24(BE24(cts)) == cts <==> cts >= 0
    ensures cts < 0 ==> U24(BE24(cts)) == cts + 0x1000000
  {
    BigEndian24(cts);
  }

  lemma LowBits(b: byte)
    ensures Signed8(b) % 32 == b as int % 32 && Signed8(b) % 4 == b as int % 4
  {
    if b >= 128 {
      Remainder(b as int - 256, 32, b as int / 32 - 8, b as int % 32);
      Remainder(b as int - 256, 4, b as int / 4 - 64, b as int % 4);
    }
  }

  lemma FrameBits(b: byte)
    ensures Signed8(b) % 16 == b as int % 16 && Signed8(b) / 16 % 16 == b as int / 16
    ensures Signed8(b) / 4 % 4 == b as int / 4 % 4
  {
    if b >= 128 {
      Remainder(b as int - 256, 16, b as int / 16 - 16, b as int % 16);
      Remainder(b as int / 16 - 16, 16, -1, b as int / 16);
      Remainder(b as int - 256, 4, b as int / 4 - 64, b as int % 4);
      Remainder(b as int / 4 - 64, 4, b as int / 16 - 16, b as int / 4 % 4);
    }
  }

  lemma SizeIsInRange(v: VideoConfig, d: seq<byte>)
    requires |d| >= 5 && v.nalUnitLength <= 3
    ensures RecordAt(v, d, 5).config.nalUnitLength <= 3
  {}
}
