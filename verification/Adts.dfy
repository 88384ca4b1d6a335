/** AAC frames in ADTS headers, ISO/IEC 13818-7 section 6.2. */
module Adts {
  import opened Bytes
  import opened Pieces
  import opened AvcAac

  const HEADER := 7
  const MAX_RAW := 0x1fff
  const MAX_FRAMED := 8184

  // ---------------------------------------------------------------- the reader

  datatype Frame = Frame(profile: nat, frequency: nat, channels: nat, data: seq<byte>)

  predicate HasSync(d: seq<byte>, p: nat)
    requires p + HEADER <= |d|
  {
    d[p] == 0xff && d[p + 1] / 16 == 15 && d[p + 1] / 2 % 4 == 0 && d[p + 1] % 2 == 1
  }

  /** The length of the frame with its header, in 13 bits. */
  function FrameLength(d: seq<byte>, p: nat): nat
    requires p + HEADER <= |d|
  {
    d[p + 3] as int % 4 * 2048 + d[p + 4] as int * 8 + d[p + 5] as int / 32
  }

  function ReadFrame(d: seq<byte>, p: nat): Option<Frame> {
    if p + HEADER > |d| || !HasSync(d, p) then None
    else
      var n := FrameLength(d, p);
      if n < HEADER || p + n > |d| then None
      else Some(Frame(d[p + 2] as int / 64, d[p + 2] as int / 4 % 16, d[p + 2] as int % 2 * 4 + d[p + 3] as int / 64,
                      d[p + HEADER..p + n]))
  }

  /** All frames from p on, if there are nothing but frames. */
  function ReadFrames(d: seq<byte>, p: nat): Option<seq<Frame>>
    requires p <= |d|
    decreases |d| - p
  {
    if p == |d| then Some([])
    else
      var f := ReadFrame(d, p);
      if f == None then None
      else
        var rest := ReadFrames(d, p + HEADER + |f.value.data|);
        if rest == None then None else Some([f.value] + rest.value)
  }

  // ---------------------------------------------------------------- the writer

  function Header(a: AudioConfig, size: nat): (r: seq<byte>)
    ensures |r| == HEADER
  {
    var n := size + HEADER;
    [0xff, 0xf1, a.profile % 4 * 64 + a.sampleRate % 16 * 4 + a.channels / 4 % 2, a.channels % 4 * 64 + n / 2048 % 4,
     n / 8 % 256, n % 8 * 32 + 0x1f, 0xfc]
  }

  function FramesBytes(a: AudioConfig, frames: seq<seq<byte>>): seq<byte> {
    if frames == [] then [] else Header(a, |frames[0]|) + frames[0] + FramesBytes(a, frames[1..])
  }

  function AsFrames(a: AudioConfig, frames: seq<seq<byte>>): seq<Frame> {
    if frames == [] then []
    else [Frame(a.profile % 4, a.sampleRate % 16, a.channels % 8, frames[0])] + AsFrames(a, frames[1..])
  }

  lemma FramesBytesConcat(a: AudioConfig, x: seq<seq<byte>>, y: seq<seq<byte>>)
    ensures FramesBytes(a, x + y) == FramesBytes(a, x) + FramesBytes(a, y)
    decreases |x|
  {
    hide Header;
    if x == [] {
      assert x + y == y;
    } else {
      assert (x + y)[1..] == x[1..] + y;
      FramesBytesConcat(a, x[1..], y);
    }
  }

  lemma FramesBytesOne(a: AudioConfig, frame: seq<byte>)
    ensures FramesBytes(a, [frame]) == Header(a, |frame|) + frame
  {
    hide Header;
    assert FramesBytes(a, [frame]) == Header(a, |frame|) + frame + [];
  }

  // ---------------------------------------------------------------- framing delimits itself

  /** What a reader sees of a header that was written: the length only modulo 2^13. */
  lemma HeaderIsRead(a: AudioConfig, size: nat, d: seq<byte>, p: nat)
    requires At(d, p, Header(a, size))
    ensures p + HEADER <= |d| && HasSync(d, p) && FrameLength(d, p) == (size + HEADER) % 0x2000
    ensures d[p + 2] as int / 64 == a.profile % 4 && d[p + 2] as int / 4 % 16 == a.sampleRate % 16
    ensures d[p + 2] as int % 2 * 4 + d[p + 3] as int / 64 == a.channels % 8
  {
    var h := Header(a, size);
    AtIndex(d, p, h, 0);
    AtIndex(d, p, h, 1);
    AtIndex(d, p, h, 2);
    AtIndex(d, p, h, 3);
    AtIndex(d, p, h, 4);
    AtIndex(d, p, h, 5);
    SmallParts(a.profile % 4, a.sampleRate % 16, a.channels / 4 % 2, h[2]);
    ModSplit(a.channels, 4, 2, 8);
    ModSplit(size + HEADER, 8, 256, 2048);
    ModSplit(size + HEADER, 2048, 4, 0x2000);
  }

  lemma SmallParts(x: nat, y: nat, z: nat, b: byte)
    requires x < 4 && y < 16 && z < 2 && b as int == x * 64 + y * 4 + z
    ensures b as int / 64 == x && b as int / 4 % 16 == y && b as int % 2 == z
  {
    Remainder(b, 64, x, y * 4 + z);
    Remainder(b, 4, x * 16 + y, z);
    Remainder(x * 16 + y, 16, x, y);
    Remainder(b, 2, x * 32 + y * 2, z);
  }

  predicate Accepted(frames: seq<seq<byte>>) {
    frames == [] || (0 < |frames[0]| <= MAX_RAW && Accepted(frames[1..]))
  }

  predicate Framable(frames: seq<seq<byte>>) {
    frames == [] || (|frames[0]| <= MAX_FRAMED && Framable(frames[1..]))
  }

  lemma FrameIsRead(a: AudioConfig, frame: seq<byte>, d: seq<byte>, p: nat)
    requires |frame| <= MAX_RAW && At(d, p, Header(a, |frame|) + frame)
    ensures ReadFrame(d, p) == if |frame| <= MAX_FRAMED
            then Some(Frame(a.profile % 4, a.sampleRate % 16, a.channels % 8, frame)) else None
  {
    hide Header, HasSync, FrameLength;
    AtConcat(d, p, Header(a, |frame|), frame);
    HeaderIsRead(a, |frame|, d, p);
    assert d[p + HEADER..p + HEADER + |frame|] == frame;
  }

  lemma {:induction false} FramingIff(a: AudioConfig, frames: seq<seq<byte>>, d: seq<byte>, p: nat)
    requires Accepted(frames) && At(d, p, FramesBytes(a, frames)) && p + |FramesBytes(a, frames)| == |d|
    ensures Framable(frames) ==> ReadFrames(d, p) == Some(AsFrames(a, frames))
    ensures !Framable(frames) ==> ReadFrames(d, p) == None
    decreases |frames|
  {
    hide Header, ReadFrame;
    if frames != [] {
      var frame, rest := frames[0], frames[1..];
      AtConcat(d, p, Header(a, |frame|) + frame, FramesBytes(a, rest));
      FrameIsRead(a, frame, d, p);
      if |frame| <= MAX_FRAMED {
        FramingIff(a, rest, d, p + HEADER + |frame|);
      }
    }
  }

  /** A reader gets back the frames, each with the profile, the frequency and the channels of the
      configuration, exactly when none is longer than 8184 bytes; longer ones are accepted up to 8191
      bytes, but their length wraps and the reader loses the rest. */
  lemma FramesRoundTripIff(a: AudioConfig, frames: seq<seq<byte>>)
    requires Accepted(frames)
    ensures ReadFrames(FramesBytes(a, frames), 0) == Some(AsFrames(a, frames))
            <==> forall i :: 0 <= i < |frames| ==> |frames[i]| <= MAX_FRAMED
  {
    hide ReadFrames, FramesBytes;
    AtWhole(FramesBytes(a, frames));
    FramingIff(a, frames, FramesBytes(a, frames), 0);
    FramableIff(frames);
  }

  lemma ReadStep(d: seq<byte>, p: nat)
    requires p < |d|
    ensures var f := ReadFrame(d, p);
            ReadFrames(d, p) == if f == None then None
                                else
                                  var rest := ReadFrames(d, p + HEADER + |f.value.data|);
                                  if rest == None then None else Some([f.value] + rest.value)
  {
    hide HasSync, FrameLength;
  }

  lemma NothingToRead(d: seq<byte>)
    ensures ReadFrames(d, |d|) == Some([])
  {}

  /** What is read up to the end of a piece is read of the whole, too. */
  lemma {:induction false} ReadsOn(d: seq<byte>, more: seq<byte>, p: nat)
    requires p <= |d| && ReadFrames(d, p).Some?
    ensures var rest := ReadFrames(d + more, |d|);
            ReadFrames(d + more, p) == if rest == None then None else Some(ReadFrames(d, p).value + rest.value)
    decreases |d| - p
  {
    hide ReadFrame, ReadFrames;
    var rest := ReadFrames(d + more, |d|);
    if p == |d| {
      NothingToRead(d);
      assert rest != None ==> [] + rest.value == rest.value;
    } else {
      ReadStep(d, p);
      FrameIsThere(d, more, p);
      ReadStep(d + more, p);
      var f := ReadFrame(d, p).value;
      var q := p + HEADER + |f.data|;
      ReadsOn(d, more, q);
      assert rest != None ==> [f] + (ReadFrames(d, q).value + rest.value) == [f] + ReadFrames(d, q).value + rest.value;
    }
  }

  lemma FrameIsThere(d: seq<byte>, more: seq<byte>, p: nat)
    requires ReadFrame(d, p).Some?
    ensures ReadFrame(d + more, p) == ReadFrame(d, p) && p + HEADER + |ReadFrame(d, p).value.data| <= |d|
  {
    var n := FrameLength(d, p);
    assert (d + more)[p + HEADER..p + n] == d[p + HEADER..p + n];
  }

  lemma OneIsFramable(frame: seq<byte>)
    requires 0 < |frame| <= MAX_FRAMED
    ensures Accepted([frame]) && Framable([frame])
  {
    assert [frame][1..] == [];
  }

  /** Frames that are collected one by one, whatever their configurations, are read one by one. */
  lemma CollectedFrameIsRead(before: seq<byte>, a: AudioConfig, frame: seq<byte>)
    requires ReadFrames(before, 0).Some? && 0 < |frame| <= MAX_FRAMED
    ensures ReadFrames(before + FramesBytes(a, [frame]), 0)
         == Some(ReadFrames(before, 0).value + [Frame(a.profile % 4, a.sampleRate % 16, a.channels % 8, frame)])
  {
    hide ReadFrames, FramesBytes;
    var d := before + FramesBytes(a, [frame]);
    ReadsOn(before, FramesBytes(a, [frame]), 0);
    assert d[|before|..|d|] == FramesBytes(a, [frame]);
    OneIsFramable(frame);
    FramingIff(a, [frame], d, |before|);
    var read := Frame(a.profile % 4, a.sampleRate % 16, a.channels % 8, frame);
    assert AsFrames(a, [frame]) == [read] + AsFrames(a, []) == [read];
  }

  lemma {:induction false} FramableIff(frames: seq<seq<byte>>)
    ensures Framable(frames) <==> forall i :: 0 <= i < |frames| ==> |frames[i]| <= MAX_FRAMED
    decreases |frames|
  {
    if frames != [] {
      FramableIff(frames[1..]);
      assert forall i :: 1 <= i < |frames| ==> frames[i] == frames[1..][i - 1];
      assert forall i :: 0 <= i < |frames[1..]| ==> frames[1..][i] == frames[i + 1];
    }
  }

  lemma ConfigFields(a: AudioConfig, d: seq<byte>, p: nat)
    requires p + 2 <= |d| && AscAt(a, d, p).ok
    ensures var c, t := AscAt(a, d, p).config, ObjectType(d[p]);
            && c.profile % 4 == (if t <= 4 then t - 1 else 1) && c.channels == ChannelConfiguration(d[p + 1])
            && c.sampleRate % 16 == FrequencyIndex(d[p], d[p + 1])
  {}

  /** The fields that a reader sees are those of the AudioSpecificConfig that was demuxed: its frequency
      index, its channels modulo 8, and its object type less one, or low complexity for extended types. */
  lemma FieldsComeFromConfig(a: AudioConfig, d: seq<byte>, p: nat, frame: seq<byte>)
    requires p + 2 <= |d| && AscAt(a, d, p).ok && |frame| <= MAX_FRAMED
    ensures var c, t := AscAt(a, d, p).config, ObjectType(d[p]);
            ReadFrame(Header(c, |frame|) + frame, 0)
            == Some(Frame(if t <= 4 then t - 1 else 1, FrequencyIndex(d[p], d[p + 1]),
                ChannelConfiguration(d[p + 1]) % 8, frame))
  {
    hide Header, ReadFrame, AscAt, ObjectType, FrequencyIndex, ChannelConfiguration;
    var c := AscAt(a, d, p).config;
    ConfigFields(a, d, p);
    AtWhole(Header(c, |frame|) + frame);
    FrameIsRead(c, frame, Header(c, |frame|) + frame, 0);
  }
}
