/**
 The cache between the demuxed frames and the muxer: audio is collected and smoothed, pictures are
 written at once, and both decide when a segment ends.
 */
module HlsCache {
  import opened Bytes
  import opened Pieces
  import opened AvcAac
  import opened Avcc
  import opened AnnexB
  import opened Adts
  import opened MpegTs
  import opened TransportStream
  import opened HlsMuxer

  const AUDIO_CACHE_SIZE := 1024 * 1024
  const AUDIO_DELAY_MS := 300
  const SYNC_MS := 100
  const TS_AUDIO_AAC := 0xc0
  const TS_VIDEO_AVC := 0xe0

  // ---------------------------------------------------------------- the times of the audio

  datatype Grid = Grid(base: int, samples: nat)

  function FlvSampleRate(soundRate: int): nat {
    match soundRate % 4 case 0 => 5512 case 1 => 11025 case 2 => 22050 case _ => 44100
  }

  /** When the next frame of 1024 samples is due. */
  function Due(g: Grid, soundRate: int): int {
    g.base + g.samples * 90000 * 1024 / FlvSampleRate(soundRate)
  }

  predicate InSync(g: Grid, pts: int, soundRate: int, syncMs: int) {
    -90 * syncMs <= Due(g, soundRate) - pts <= 90 * syncMs
  }

  class AacJitter {
    var base: int
    var samples: nat
    const syncMs: int

    constructor (sync: int)
      ensures State() == Grid(0, 0) && syncMs == sync
    {
      base, samples, syncMs := 0, 0, sync;
    }

    function State(): Grid
      reads this
    {
      Grid(base, samples)
    }

    /** The time for a buffer that starts at pts: that of the grid, as long as it is close. */
    method OnBufferStart(pts: int, soundRate: int) returns (r: int)
      modifies this
      ensures syncMs == 0 ==> r == pts && State() == old(State())
      ensures syncMs != 0 && InSync(old(State()), pts, soundRate, syncMs) ==>
                r == Due(old(State()), soundRate) && State() == Grid(old(base), old(samples) + 1)
      ensures syncMs != 0 && !InSync(old(State()), pts, soundRate, syncMs) ==> r == pts && State() == Grid(pts, 1)
      ensures syncMs >= 0 ==> -90 * syncMs <= r - pts <= 90 * syncMs
    {
      if syncMs == 0 {
        return pts;
      }
      var due := base + samples * 90000 * 1024 / FlvSampleRate(soundRate);
      var delta := due - pts;
      if delta <= syncMs * 90 && delta >= syncMs * -90 {
        samples := samples + 1;
        return due;
      }
      base, samples := pts, 1;
      r := pts;
    }

    method OnBufferContinue()
      modifies this
      ensures State() == old(State()).(samples := old(samples) + 1)
    {
      samples := samples + 1;
    }
  }

  /** Frames of one sound rate that arrive at `times`; each starts a buffer or continues one. */
  function AfterFrames(g: Grid, starts: seq<bool>, times: seq<int>, soundRate: int, syncMs: int): Grid
    requires |starts| == |times|
  {
    if starts == [] then g
    else
      var n := |starts| - 1;
      var before := AfterFrames(g, starts[..n], times[..n], soundRate, syncMs);
      if !starts[n] || InSync(before, times[n], soundRate, syncMs) then before.(samples := before.samples + 1)
      else Grid(times[n], 1)
  }

  /** Audio is never resynced as long as the buffers start no further from the sample clock than the
      tolerance: they then start exactly on the grid, however they are cut. */
  lemma {:induction false} RegularAudioStaysOnGrid(g: Grid, starts: seq<bool>, times: seq<int>, soundRate: int,
      syncMs: int)
    requires |starts| == |times|
    requires forall i :: 0 <= i < |times| && starts[i] ==>
             InSync(Grid(g.base, g.samples + i), times[i], soundRate, syncMs)
    ensures AfterFrames(g, starts, times, soundRate, syncMs) == Grid(g.base, g.samples + |starts|)
    decreases |starts|
  {
    hide InSync;
    if starts != [] {
      var n := |starts| - 1;
      assert forall i :: 0 <= i < n ==> times[..n][i] == times[i] && starts[..n][i] == starts[i];
      RegularAudioStaysOnGrid(g, starts[..n], times[..n], soundRate, syncMs);
      assert starts[n] ==> InSync(Grid(g.base, g.samples + n), times[n], soundRate, syncMs);
    }
  }

  // ---------------------------------------------------------------- the cache

  /** The bytes that are taken for a parameter set. */
  ghost predicate IsSet(s: ParameterSet, b: seq<byte>) {
    |b| == s.length && (|b| <= |s.unit| ==> b == s.unit[..|b|])
  }

  lemma ContentsSnoc(samples: seq<Slice>, i: nat, d: seq<byte>)
    requires i < |samples| && AllPositive(samples[..i]) && InPayload(samples[..i], d)
    requires InPayload(samples[..i + 1], d) && samples[i].size > 0
    ensures AllPositive(samples[..i + 1]) && samples[i].pos >= 0 && samples[i].pos + samples[i].size <= |d|
    ensures Contents(samples[..i + 1], d) == Contents(samples[..i], d)
            + [d[samples[i].pos..samples[i].pos + samples[i].size]]
  {
    hide AllPositive, InPayload, Contents;
    Unfold(samples[..i + 1], d);
    assert samples[..i + 1][..i] == samples[..i];
  }

  lemma {:induction false} Unfold(samples: seq<Slice>, d: seq<byte>)
    requires samples != [] && InPayload(samples, d)
    ensures var front, s := samples[..|samples| - 1], samples[|samples| - 1];
            && InPayload(front, d) && (AllPositive(samples) <==> AllPositive(front) && s.size > 0)
            && (AllPositive(samples) ==> && 0 <= s.pos && s.pos + s.size <= |d|
                                         && Contents(samples, d) == Contents(front, d) + [d[s.pos..s.pos + s.size]])
  {}

  lemma {:induction false} InPayloadPrefix(samples: seq<Slice>, i: nat, d: seq<byte>)
    requires InPayload(samples, d) && i <= |samples|
    ensures InPayload(samples[..i], d)
    decreases |samples|
  {
    if i == |samples| {
      assert samples[..i] == samples;
    } else {
      InPayloadPrefix(samples[..|samples| - 1], i, d);
      assert samples[..|samples| - 1][..i] == samples[..i];
    }
  }

  lemma NoContents(samples: seq<Slice>, d: seq<byte>)
    ensures AllPositive(samples[..0]) && InPayload(samples[..0], d) && Contents(samples[..0], d) == []
  {}

  class HlsCache {
    const aacJitter: AacJitter
    const ab: CodecBuffer
    const vb: CodecBuffer
    const af: MpegtsFrame
    const vf: MpegtsFrame
    var audioBufferStartPts: int
    var videoCount: nat

    ghost predicate Valid()
      reads this
    {
      ab != vb && af != vf
    }

    /** The frames of all segments share one counter for the audio and one for the pictures. */
    ghost predicate Continuous(muxer: Muxer)
      reads this, ab, af, vf, muxer
    {
      && CountsOn(muxer.log, AUDIO_PID, af.cc) && CountsOn(muxer.log, VIDEO_PID, vf.cc)
      && (ab.bytes != [] ==> af.pid == AUDIO_PID && af.sid == TS_AUDIO_AAC)
    }

    ghost function Footprint(): set<object> {
      {this, aacJitter, ab, vb, af, vf}
    }

    constructor ()
      ensures Valid() && fresh(Footprint()) && ab.bytes == vb.bytes == [] && af.cc == vf.cc == 0
    {
      aacJitter := new AacJitter(SYNC_MS);
      ab := new CodecBuffer();
      vb := new CodecBuffer();
      af := new MpegtsFrame();
      vf := new MpegtsFrame();
      audioBufferStartPts, videoCount := 0, 0;
    }

    /** Puts the frames into the audio buffer, each behind an ADTS header; stops at the first whose size
        cannot be told in one. */
    method CacheAudio(audio: AudioConfig, buffers: seq<Slice>, data: seq<byte>) returns (ok: bool, ghost done: nat)
      requires InPayload(buffers, data)
      modifies ab
      ensures done <= |buffers| && AllPositive(buffers[..done]) && InPayload(buffers[..done], data)
      ensures ab.bytes == old(ab.bytes) + FramesBytes(audio, Contents(buffers[..done], data))
      ensures ok <==> done == |buffers|
      ensures forall i :: 0 <= i < done ==> buffers[i].size <= MAX_RAW
      ensures !ok ==> !(0 < buffers[done].size <= MAX_RAW)
    {
      hide FramesBytes, Contents, AllPositive, InPayload;
      var i := 0;
      NoContents(buffers, data);
      NoFrames(audio);
      while i < |buffers|
        invariant 0 <= i <= |buffers| && AllPositive(buffers[..i]) && InPayload(buffers[..i], data)
        invariant ab.bytes == old(ab.bytes) + FramesBytes(audio, Contents(buffers[..i], data))
        invariant forall k :: 0 <= k < i ==> buffers[k].size <= MAX_RAW
      {
        var buf := buffers[i];
        if buf.size <= 0 || buf.size > MAX_RAW {
          return false, i;
        }
        InPayloadPrefix(buffers, i + 1, data);
        ContentsSnoc(buffers, i, data);
        var frame := data[buf.pos..buf.pos + buf.size];
        FramesBytesConcat(audio, Contents(buffers[..i], data), [frame]);
        FramesBytesOne(audio, frame);
        Assoc(old(ab.bytes), FramesBytes(audio, Contents(buffers[..i], data)), Header(audio, |frame|) + frame);
        ab.Append(AdtsHeader(audio, buf.size) + frame);
        i := i + 1;
      }
      assert buffers[..i] == buffers;
      ok, done := true, i;
    }

    /** The length bytes of a parameter set; what lies behind those that were stored is not known. */
    method SetBytes(s: ParameterSet) returns (b: seq<byte>)
      ensures IsSet(s, b)
    {
      b := if s.length <= |s.unit| then s.unit[..s.length] else s.unit;
      while |b| < s.length
        invariant |b| <= s.length && (s.length <= |s.unit| ==> b == s.unit[..s.length])
      {
        var x: byte := 0;
        if * {
          x := 255;
        }
        b := b + [x];
      }
    }

    /** Puts a picture into the video buffer as an Annex B byte stream; stops at the first size that is
        not positive. */
    method CacheVideo(video: VideoConfig, buffers: seq<Slice>, data: seq<byte>)
      returns (ok: bool, ghost done: nat, ghost sps: seq<byte>, ghost pps: seq<byte>)
      requires InPayload(buffers, data)
      modifies vb
      ensures IsSet(video.sps, sps) && IsSet(video.pps, pps)
      ensures done <= |buffers| && AllPositive(buffers[..done]) && InPayload(buffers[..done], data)
      ensures vb.bytes == old(vb.bytes) + StreamOf(PictureUnits(Contents(buffers[..done], data), sps, pps))
      ensures ok <==> done == |buffers|
      ensures !ok ==> buffers[done].size <= 0
    {
      hide StreamOf, PictureUnits, Contents, AllPositive, InPayload, SetsSent;
      var spsBytes := SetBytes(video.sps);
      var ppsBytes := SetBytes(video.pps);
      sps, pps := spsBytes, ppsBytes;
      vb.Append([0, 0, 0, 1] + AUD);
      NoContents(buffers, data);
      NoPicture(sps, pps);
      var i, spsPpsSent := 0, false;
      while i < |buffers|
        invariant 0 <= i <= |buffers| && AllPositive(buffers[..i]) && InPayload(buffers[..i], data)
        invariant spsPpsSent == SetsSent(Contents(buffers[..i], data)) && |Contents(buffers[..i], data)| == i
        invariant vb.bytes == old(vb.bytes) + StreamOf(PictureUnits(Contents(buffers[..i], data), sps, pps))
      {
        var buf := buffers[i];
        if buf.size <= 0 {
          return false, i, sps, pps;
        }
        InPayloadPrefix(buffers, i + 1, data);
        ContentsSnoc(buffers, i, data);
        var nal := data[buf.pos..buf.pos + buf.size];
        ghost var front := Contents(buffers[..i], data);
        ghost var before := vb.bytes;
        spsPpsSent := WriteNal(nal, i == 0, spsPpsSent, spsBytes, ppsBytes, front);
        Assoc(old(vb.bytes), StreamOf(PictureUnits(front, sps, pps)), vb.bytes[|before|..]);
        i := i + 1;
      }
      assert buffers[..i] == buffers;
      ok, done := true, i;
    }

    method AppendSet(unit: seq<byte>)
      modifies vb
      ensures vb.bytes == old(vb.bytes) + if unit == [] then [] else [0, 0, 0, 1] + unit
    {
      if |unit| > 0 {
        vb.Append([0, 0, 0, 1]);
        vb.Append(unit);
        Assoc(old(vb.bytes), [0, 0, 0, 1], unit);
      }
    }

    /** Writes a NAL unit, behind the parameter sets if an IDR picture begins. */
    method WriteNal(nal: seq<byte>, isFirst: bool, sent: bool, sps: seq<byte>, pps: seq<byte>,
        ghost front: seq<seq<byte>>)
      returns (spsPpsSent: bool)
      requires nal != [] && isFirst == (front == []) && sent == SetsSent(front)
      modifies vb
      ensures spsPpsSent == SetsSent(front + [nal])
      ensures old(vb.bytes) <= vb.bytes
      ensures StreamOf(PictureUnits(front + [nal], sps, pps))
              == StreamOf(PictureUnits(front, sps, pps)) + vb.bytes[|old(vb.bytes)|..]
    {
      hide StreamOf, PictureUnits, SetUnits, SetsSent;
      spsPpsSent := sent;
      ghost var was := vb.bytes;
      var nalUnitType := nal[0] as int % 32;
      if nalUnitType == SLICE {
        spsPpsSent := false;
      }
      ghost var sets: seq<byte> := [];
      if nalUnitType == IDR && !spsPpsSent {
        spsPpsSent := true;
        AppendSet(sps);
        AppendSet(pps);
        sets := StreamOf(SetUnits(sps, pps));
        SetUnitsBytes(sps, pps);
        Assoc(was, if sps == [] then [] else [0, 0, 0, 1] + sps, if pps == [] then [] else [0, 0, 0, 1] + pps);
      }
      assert vb.bytes == was + sets;
      vb.Append(if isFirst then [0, 0, 0, 1] else [0, 0, 1]);
      vb.Append(nal);
      assert vb.bytes == was + (sets + UnitBytes(Unit(isFirst, nal))) by {
        Assoc(was, sets, UnitBytes(Unit(isFirst, nal)));
        Assoc(was + sets, if isFirst then [0, 0, 0, 1] else [0, 0, 1], nal);
      }
      assert vb.bytes[|was|..] == sets + UnitBytes(Unit(isFirst, nal));
      PictureGrows(front, nal, sps, pps);
      SentAfter(front, nal);
    }

    method OnPublish(muxer: Muxer, place: Place, fragment: int, window: int, start: int)
      returns (ok: bool, ghost io: OpenIo)
      requires muxer.Valid()
      modifies this`videoCount, muxer
      ensures muxer.Valid() && fresh(muxer.Footprint() - old(muxer.Footprint()))
      ensures ok ==> muxer.current.Some?
      ensures ok ==> muxer.ts.sound || (old(muxer.current.Some?) && muxer.ts == old(muxer.ts))
      ensures muxer.log == old(muxer.log)
      ensures muxer.State() == AfterOpen(old(muxer.State()).(place := place, fragment := fragment, window := window),
              start, io)
    {
      videoCount := 0;
      muxer.UpdateConfig(place, fragment, window);
      ok, io := muxer.SegmentOpen(start);
    }

    /** Writes what is left of the audio and closes the segment. */
    method OnUnpublish(muxer: Muxer) returns (ok: bool, ghost flushed: bool, ghost io: CloseIo)
      requires muxer.Valid()
      modifies muxer.Footprint(), af`cc, ab
      ensures muxer.Valid() && fresh(muxer.Footprint() - old(muxer.Footprint()))
      ensures old(Valid() && Continuous(muxer)) ==> Continuous(muxer)
      ensures flushed && old(muxer.current.Some? && ab.bytes != []) ==>
                ab.bytes == [] && LastIs(old(muxer.ts).written, af.Header(), old(ab.bytes))
      ensures var st := WithAudio(old(muxer.State()), old(ab.bytes), af.pts);
              ok == (flushed && CloseSucceeds(st, io)) && muxer.State() == if flushed then AfterClose(st, io) else st
    {
      hide AfterClose, CloseSucceeds, WithAudio, CountsOn, LastIs, TsMuxer.Valid, Muxer.Valid;
      io := CloseIo(true, RefreshIo(true, 0, true));
      ok := WriteRest(muxer);
      flushed := ok;
      if ok {
        ok, io := muxer.SegmentClose();
      }
    }

    /** Writes what is left of the audio. */
    method WriteRest(muxer: Muxer) returns (ok: bool)
      requires muxer.Valid()
      modifies muxer.Footprint(), af`cc, ab
      ensures muxer.Valid() && muxer.Footprint() == old(muxer.Footprint()) && muxer.ts == old(muxer.ts)
      ensures old(Valid() && Continuous(muxer)) ==> Continuous(muxer)
      ensures muxer.State() == WithAudio(old(muxer.State()), old(ab.bytes), af.pts)
      ensures ok && old(muxer.current.Some? && ab.bytes != []) ==>
                ab.bytes == [] && LastIs(muxer.ts.written, af.Header(), old(ab.bytes))
    {
      hide Timed, CountsOn, TsMuxer.Valid, Muxer.Valid;
      ok := muxer.FlushAudio(af, ab);
    }

    method OnSequenceHeader(muxer: Muxer)
      requires muxer.Valid() && muxer.current.Some?
      modifies muxer`current
      ensures muxer.Valid()
      ensures muxer.State()
           == old(muxer.State()).(current := Some(old(muxer.current.value).(discontinuity := true)))
    {
      muxer.OnSequenceHeader();
    }

    /** Closes the segment, opens the next, and starts it with the audio that was collected. */
    method ReapSegment(muxer: Muxer, start: int) returns (ok: bool, ghost c: CloseIo, ghost o: OpenIo)
      requires muxer.Valid() && muxer.current.Some?
      modifies muxer.Footprint(), af`cc, ab
      ensures muxer.Valid() && fresh(muxer.Footprint() - old(muxer.Footprint()))
      ensures ok ==> Reaped(old(muxer.State()), muxer.State(), c, o, start,
              if old(ab.bytes) == [] then None else Some(af.pts))
      ensures ok ==> ab.bytes == [] && muxer.ts.sound && fresh(muxer.ts) && muxer.current.Some?
      ensures old(muxer.ts).written == old(muxer.ts.written)
      ensures old(muxer.ts.file) != null ==> old(muxer.ts.file).content == old(muxer.ts.file.content)
      ensures old(Valid() && Continuous(muxer)) ==> Continuous(muxer)
      ensures ok && old(ab.bytes) == [] ==> muxer.ts.written == []
      ensures ok && old(ab.bytes) != [] ==>
              && |muxer.ts.written| == 1
              && LastIs(muxer.ts.written, af.Header(), old(ab.bytes))
      ensures ok && old(ab.bytes) != [] && af.pid == AUDIO_PID ==>
                muxer.ts.file != null && EndsWith(muxer.ts.file.content, af.Header(), old(ab.bytes))
    {
      hide AfterClose, AfterOpen, CloseSucceeds, Timed, TsMuxer.Valid, Muxer.Valid, CountsOn, EndsWith, LastIs;
      ok, c, o := NextSegment(muxer, start);
      if !ok {
        return;
      }
      ok := WriteCollected(muxer);
    }

    /** Closes the segment and opens the next. */
    method NextSegment(muxer: Muxer, start: int) returns (ok: bool, ghost c: CloseIo, ghost o: OpenIo)
      requires muxer.Valid() && muxer.current.Some?
      modifies muxer, muxer.disk, muxer.ts
      ensures muxer.Valid() && fresh(muxer.Footprint() - old(muxer.Footprint()))
      ensures muxer.log == old(muxer.log) && old(muxer.ts).written == old(muxer.ts.written)
      ensures ok ==> && CloseSucceeds(old(muxer.State()), c) && o.directory && o.file && muxer.current.Some?
                     && muxer.State() == AfterOpen(AfterClose(old(muxer.State()), c), start, o)
                     && fresh(muxer.ts) && (muxer.ts.file == null || fresh(muxer.ts.file)) && muxer.ts.sound
                         && muxer.ts.written == []
    {
      hide AfterClose, CloseSucceeds, NewSegment, TsMuxer.Valid;
      o := OpenIo(true, true);
      ok, c := muxer.SegmentClose();
      if !ok {
        return;
      }
      CloseLeavesNone(old(muxer.State()), c);
      ok, o := muxer.SegmentOpen(start);
    }

    /** Caches a picture and describes it. */
    method PreparePicture(video: VideoConfig, dts: int, sample: CodecSample, data: seq<byte>)
      returns (ok: bool, ghost sps: seq<byte>, ghost pps: seq<byte>)
      requires InPayload(sample.buffers, data)
      modifies this`videoCount, vf`pts, vf`dts, vf`pid, vf`sid, vf`key, vb
      ensures IsSet(video.sps, sps) && IsSet(video.pps, pps)
      ensures ok <==> AllPositive(sample.buffers)
      ensures vb.bytes != []
      ensures ok ==> vb.bytes == old(vb.bytes) + StreamOf(PictureUnits(Contents(sample.buffers, data), sps, pps))
      ensures videoCount == (old(videoCount) + 1) % 0x100000000
      ensures ok ==> vf.Header() == FrameHeader(dts + sample.cts * 90, dts, VIDEO_PID, TS_VIDEO_AVC,
              sample.frameType == 1)
    {
      hide StreamOf, PictureUnits, Contents, AllPositive, InPayload;
      videoCount := (videoCount + 1) % 0x100000000;
      ghost var done;
      ok, done, sps, pps := CacheVideo(video, sample.buffers, data);
      PictureHasBytes(Contents(sample.buffers[..done], data), sps, pps);
      if !ok {
        NotAllPositive(sample.buffers, done);
        return;
      }
      assert sample.buffers[..done] == sample.buffers;
      vf.dts := dts;
      vf.pts := vf.dts + sample.cts * 90;
      vf.pid := VIDEO_PID;
      vf.sid := TS_VIDEO_AVC;
      vf.key := sample.frameType == 1;
    }

    /** Starts a new segment when the current one has lasted long enough. */
    method ReapIfDue(wanted: bool, muxer: Muxer, start: int)
        returns (ok: bool, ghost reaped: bool, ghost c: CloseIo, ghost o: OpenIo)
      requires muxer.Valid() && muxer.current.Some?
      modifies muxer.Footprint(), af`cc, ab
      ensures muxer.Valid() && fresh(muxer.Footprint() - old(muxer.Footprint()))
      ensures reaped == (wanted && old(muxer.IsSegmentOverflow()))
      ensures ok ==> muxer.current.Some?
      ensures ok && !reaped ==> && muxer.State() == old(muxer.State()) && muxer.ts == old(muxer.ts)
                                && muxer.ts.written == old(muxer.ts.written) && muxer.ts.sound == old(muxer.ts.sound)
                                && ab.bytes == old(ab.bytes)
      ensures old(muxer.ts.file) != null ==> old(muxer.ts.file).content == old(muxer.ts.file.content)
      ensures old(Valid() && Continuous(muxer)) ==> Continuous(muxer)
      ensures ok && reaped && old(ab.bytes) != [] && af.pid == AUDIO_PID ==>
                muxer.ts.file != null && EndsWith(muxer.ts.file.content, af.Header(), old(ab.bytes))
      ensures ok && reaped ==>
                && Reaped(old(muxer.State()), muxer.State(), c, o, start,
                    if old(ab.bytes) == [] then None else Some(af.pts))
                && ab.bytes == [] && muxer.ts.sound
                && if old(ab.bytes) == [] then muxer.ts.written == []
                   else |muxer.ts.written| == 1 && LastIs(muxer.ts.written, af.Header(), old(ab.bytes))
      ensures old(muxer.ts).written == old(muxer.ts.written)
    {
      hide TsMuxer.Valid, Muxer.Valid, CountsOn, EndsWith, LastIs, Reaped;
      ok, reaped, c, o := true, false, CloseIo(true, RefreshIo(true, 0, true)), OpenIo(true, true);
      if wanted && muxer.IsSegmentOverflow() {
        reaped := true;
        ok, c, o := ReapSegment(muxer, start);
      }
    }

    /** Caches a picture, starts a new segment when a keyframe comes after the segment has lasted long
        enough, and writes the picture. */
    method WriteVideo(video: VideoConfig, muxer: Muxer, dts: int, sample: CodecSample, data: seq<byte>)
      returns (ok: bool, ghost reaped: bool, ghost c: CloseIo, ghost o: OpenIo, ghost sps: seq<byte>,
          ghost pps: seq<byte>)
      requires Valid() && muxer.Valid() && muxer.current.Some? && InPayload(sample.buffers, data)
      requires Footprint() + {sample} !! muxer.Footprint()
      modifies this`videoCount, muxer.Footprint(), af`cc, ab, vf, vb
      ensures muxer.Valid() && fresh(muxer.Footprint() - old(muxer.Footprint()))
      ensures IsSet(video.sps, sps) && IsSet(video.pps, pps)
      ensures old(Continuous(muxer)) ==> Continuous(muxer)
      ensures vb.bytes == [] <==> ok
      ensures ok && old(muxer.ts.sound) ==> muxer.ts.sound
      ensures ok ==>
                && AllPositive(sample.buffers) && muxer.current.Some?
                && LastIs(muxer.ts.written, FrameHeader(dts + sample.cts * 90, dts, VIDEO_PID, TS_VIDEO_AVC,
                    sample.frameType == 1),
                          old(vb.bytes) + StreamOf(PictureUnits(Contents(sample.buffers, data), sps, pps)))
                && reaped == (sample.frameType == 1 && old(muxer.IsSegmentOverflow()))
      ensures ok && muxer.ts.sound ==>
                muxer.ts.file != null
                && EndsWith(muxer.ts.file.content,
                            FrameHeader(dts + sample.cts * 90, dts, VIDEO_PID, TS_VIDEO_AVC, sample.frameType == 1),
                            old(vb.bytes) + StreamOf(PictureUnits(Contents(sample.buffers, data), sps, pps)))
      ensures videoCount == (old(videoCount) + 1) % 0x100000000
      ensures ok && !reaped ==>
                && muxer.State() == old(muxer.State()).(current := Some(Timed(old(muxer.current.value), dts)))
                && muxer.ts == old(muxer.ts) && muxer.ts.sound == old(muxer.ts.sound)
                && muxer.ts.written[..|muxer.ts.written| - 1] == old(muxer.ts.written)
      ensures ok && reaped ==>
                && muxer.ts.sound && ab.bytes == []
                && (if old(ab.bytes) == [] then |muxer.ts.written| == 1
                    else |muxer.ts.written| == 2 && LastIs(muxer.ts.written[..1], af.Header(), old(ab.bytes)))
                && exists st :: Reaped(old(muxer.State()), st, c, o, dts,
                    if old(ab.bytes) == [] then None else Some(af.pts))
                             && muxer.State() == st.(current := Some(Timed(st.current.value, dts)))
    {
      hide StreamOf, PictureUnits, Contents, AllPositive, InPayload, Reaped, AfterOpen, AfterClose, CloseSucceeds,
          TsMuxer.Valid, Muxer.Valid,
           CountsOn, EndsWith, LastIs, Timed;
      reaped, c, o := false, CloseIo(true, RefreshIo(true, 0, true)), OpenIo(true, true);
      ok, sps, pps := PreparePicture(video, dts, sample, data);
      if !ok {
        return;
      }
      assert muxer.Footprint() == old(muxer.Footprint()) && muxer.State() == old(muxer.State());
      ok, reaped, c, o := ReapAndWrite(muxer);
    }

    /** Starts a new segment if the picture may begin one and it is time, and writes the picture. */
    method ReapAndWrite(muxer: Muxer) returns (ok: bool, ghost reaped: bool, ghost c: CloseIo, ghost o: OpenIo)
      requires Valid() && muxer.Valid() && muxer.current.Some? && vb.bytes != [] && vf.pid == VIDEO_PID
      requires Footprint() !! muxer.Footprint()
      modifies muxer.Footprint(), af`cc, ab, vf`cc, vb
      ensures muxer.Valid() && fresh(muxer.Footprint() - old(muxer.Footprint()))
      ensures old(Continuous(muxer)) ==> Continuous(muxer)
      ensures vb.bytes == [] <==> ok
      ensures ok ==> && (old(muxer.ts.sound) ==> muxer.ts.sound) && muxer.current.Some?
                     && LastIs(muxer.ts.written, vf.Header(), old(vb.bytes))
                         && reaped == (vf.key && old(muxer.IsSegmentOverflow()))
      ensures ok && muxer.ts.sound ==>
              && muxer.ts.file != null
              && EndsWith(muxer.ts.file.content, vf.Header(), old(vb.bytes))
      ensures ok && !reaped ==>
                && muxer.State() == old(muxer.State()).(current := Some(Timed(old(muxer.current.value), vf.dts)))
                && muxer.ts == old(muxer.ts) && muxer.ts.sound == old(muxer.ts.sound)
                && muxer.ts.written[..|muxer.ts.written| - 1] == old(muxer.ts.written)
      ensures ok && reaped ==>
                && muxer.ts.sound && ab.bytes == []
                && (if old(ab.bytes) == [] then |muxer.ts.written| == 1
                    else |muxer.ts.written| == 2 && LastIs(muxer.ts.written[..1], af.Header(), old(ab.bytes)))
                && exists st :: Reaped(old(muxer.State()), st, c, o, vf.dts,
                    if old(ab.bytes) == [] then None else Some(af.pts))
                             && muxer.State() == st.(current := Some(Timed(st.current.value, vf.dts)))
    {
      hide Reaped, AfterOpen, AfterClose, CloseSucceeds, TsMuxer.Valid, Muxer.Valid, CountsOn, EndsWith, LastIs, Timed;
      ok, reaped, c, o := ReapIfDue(vf.key, muxer, vf.dts);
      if !ok {
        return;
      }
      ghost var st := muxer.State();
      ok := WritePicture(muxer);
      assert ok ==> muxer.State() == st.(current := Some(Timed(st.current.value, vf.dts)));
    }

    /** Writes the picture that was prepared. */
    method WritePicture(muxer: Muxer) returns (ok: bool)
      requires Valid() && muxer.Valid() && muxer.current.Some? && vb.bytes != [] && vf.pid == VIDEO_PID
      requires Footprint() !! muxer.Footprint()
      modifies muxer.Footprint(), vf`cc, vb
      ensures muxer.Valid() && muxer.ts == old(muxer.ts) && muxer.Footprint() == old(muxer.Footprint())
      ensures muxer.State() == old(muxer.State()).(current := Some(Timed(old(muxer.current.value), vf.dts)))
      ensures old(Continuous(muxer)) ==> Continuous(muxer)
      ensures vb.bytes == [] <==> ok
      ensures ok ==> && muxer.ts.sound == old(muxer.ts.sound) && LastIs(muxer.ts.written, vf.Header(), old(vb.bytes))
                     && |muxer.ts.written| > 0 && muxer.ts.written[..|muxer.ts.written| - 1] == old(muxer.ts.written)
      ensures ok && muxer.ts.sound ==>
              && muxer.ts.file != null
              && EndsWith(muxer.ts.file.content, vf.Header(), old(vb.bytes))
    {
      hide TsMuxer.Valid, CountsOn;
      ok := muxer.FlushVideo(vf, vb);
      if ok && muxer.ts.sound {
        FileEndsWith(muxer.ts, vf.Header(), old(vb.bytes));
      }
    }

    /** Collects a frame; one that starts the buffer gives it its time. */
    method CollectAudio(audio: AudioConfig, pts: int, sample: CodecSample, data: seq<byte>)
        returns (ok: bool, time: int)
      requires InPayload(sample.buffers, data)
      modifies this`audioBufferStartPts, aacJitter, af`pts, af`dts, af`pid, af`sid, ab
      ensures ok ==> && AllPositive(sample.buffers)
                     && ab.bytes == old(ab.bytes) + FramesBytes(audio, Contents(sample.buffers, data))
      ensures old(ab.bytes) == [] ==>
              && af.Header() == FrameHeader(time, time, AUDIO_PID, TS_AUDIO_AAC, af.key)
              && audioBufferStartPts == time
      ensures old(ab.bytes) == [] && aacJitter.syncMs >= 0 ==>
              -90 * aacJitter.syncMs <= time - pts <= 90 * aacJitter.syncMs
      ensures old(ab.bytes) != [] ==>
              && af.Header() == old(af.Header())
              && audioBufferStartPts == old(audioBufferStartPts) && time == pts
    {
      hide FramesBytes, Contents, AllPositive, InPayload;
      time := pts;
      if ab.bytes == [] {
        time := aacJitter.OnBufferStart(pts, sample.soundRate);
        af.pts := time;
        af.dts := time;
        audioBufferStartPts := time;
        af.pid := AUDIO_PID;
        af.sid := TS_AUDIO_AAC;
      } else {
        aacJitter.OnBufferContinue();
      }
      ghost var done;
      ok, done := CacheAudio(audio, sample.buffers, data);
      assert sample.buffers[..|sample.buffers|] == sample.buffers;
    }

    /** Writes the collected audio, if any, to the current file. */
    method WriteCollected(muxer: Muxer) returns (ok: bool)
      requires muxer.Valid() && muxer.current.Some?
      modifies muxer.Footprint(), af`cc, ab
      ensures muxer.Valid() && muxer.Footprint() == old(muxer.Footprint()) && muxer.ts == old(muxer.ts)
              && muxer.current.Some?
      ensures muxer.ts.file == old(muxer.ts.file)
      ensures muxer.State() == old(muxer.State()).(current := muxer.current)
      ensures old(Valid() && Continuous(muxer)) ==> Continuous(muxer)
      ensures ok ==> ab.bytes == [] && muxer.ts.sound == old(muxer.ts.sound)
      ensures old(ab.bytes) != [] ==> muxer.current == Some(Timed(old(muxer.current.value), af.pts))
      ensures ok && old(ab.bytes) != [] ==>
              && |muxer.ts.written| == |old(muxer.ts.written)| + 1
              && LastIs(muxer.ts.written, af.Header(), old(ab.bytes))
      ensures ok && muxer.ts.sound && old(ab.bytes) != [] && af.pid == AUDIO_PID ==>
                muxer.ts.file != null && EndsWith(muxer.ts.file.content, af.Header(), old(ab.bytes))
      ensures old(ab.bytes) == [] ==>
              && muxer.State() == old(muxer.State())
              && muxer.ts.written == old(muxer.ts.written)
                                      && (muxer.ts.file != null ==> muxer.ts.file.content == old(muxer.ts.file.content))
    {
      hide TsMuxer.Valid, CountsOn;
      ok := muxer.FlushAudio(af, ab);
      if ok && muxer.ts.sound && old(ab.bytes) != [] && af.pid == AUDIO_PID {
        FileEndsWith(muxer.ts, af.Header(), old(ab.bytes));
      }
    }

    /** Writes the collected audio when there is much of it, or when it began long ago. */
    method FlushIfDue(muxer: Muxer, time: int) returns (ok: bool, ghost flushed: bool)
      requires muxer.Valid() && muxer.current.Some?
      modifies muxer.Footprint(), af`cc, ab
      ensures muxer.Valid() && muxer.Footprint() == old(muxer.Footprint()) && muxer.ts == old(muxer.ts)
              && muxer.current.Some?
      ensures old(Valid() && Continuous(muxer)) ==> Continuous(muxer)
      ensures muxer.ts.file == old(muxer.ts.file)
      ensures flushed && ok && muxer.ts.sound && old(ab.bytes) != [] && af.pid == AUDIO_PID ==>
                muxer.ts.file != null && EndsWith(muxer.ts.file.content, af.Header(), old(ab.bytes))
      ensures flushed == (|old(ab.bytes)| > AUDIO_CACHE_SIZE || time - audioBufferStartPts > AUDIO_DELAY_MS * 90)
      ensures muxer.State() == old(muxer.State()).(current := muxer.current)
      ensures !flushed ==>
              && ok && muxer.State() == old(muxer.State()) && ab.bytes == old(ab.bytes)
              && muxer.ts.written == old(muxer.ts.written)
      ensures flushed && ok ==> ab.bytes == [] && (old(ab.bytes) != [] ==>
              LastIs(muxer.ts.written, af.Header(), old(ab.bytes)))
      ensures ok ==> muxer.ts.sound == old(muxer.ts.sound)
    {
      hide TsMuxer.Valid, CountsOn, EndsWith;
      ok, flushed := true, false;
      if |ab.bytes| > AUDIO_CACHE_SIZE {
        flushed := true;
        ok := WriteCollected(muxer);
        if !ok {
          return;
        }
      }
      if time - audioBufferStartPts > AUDIO_DELAY_MS * 90 {
        flushed := true;
        ok := WriteCollected(muxer);
      }
    }

    /** Collects a frame, and writes what is collected when it is due or when a segment of audio alone has
        lasted long enough. */
    method WriteAudio(audio: AudioConfig, muxer: Muxer, pts: int, sample: CodecSample, data: seq<byte>)
      returns (ok: bool, ghost flushed: bool, ghost reaped: bool, ghost file: TsFile?)
      requires Valid() && muxer.Valid() && muxer.current.Some? && InPayload(sample.buffers, data)
      requires Footprint() + {sample} !! muxer.Footprint()
      modifies this`audioBufferStartPts, aacJitter, muxer.Footprint(), af, ab
      ensures muxer.Valid() && fresh(muxer.Footprint() - old(muxer.Footprint()))
      ensures old(Continuous(muxer)) ==> Continuous(muxer)
      ensures ok && old(muxer.ts.sound) ==> muxer.ts.sound
      ensures ok ==> AllPositive(sample.buffers) && muxer.current.Some?
      ensures file == if flushed then old(muxer.ts.file) else muxer.ts.file
      ensures old(ab.bytes != [] ==> af.pid == AUDIO_PID && af.sid == TS_AUDIO_AAC) ==>
                af.pid == AUDIO_PID && af.sid == TS_AUDIO_AAC
      ensures ok && (flushed || reaped) && old(muxer.ts.sound) && (old(ab.bytes) != [] ==> old(af.pid) == AUDIO_PID) ==>
                var bytes := old(ab.bytes) + FramesBytes(audio, Contents(sample.buffers, data));
                bytes != [] ==> file != null && EndsWith(file.content, af.Header(), bytes)
      ensures ok ==> var bytes := old(ab.bytes) + FramesBytes(audio, Contents(sample.buffers, data));
                     if !flushed && !reaped then
                       && ab.bytes == bytes && muxer.State() == old(muxer.State())
                       && muxer.ts == old(muxer.ts) && muxer.ts.written == old(muxer.ts.written)
                     else
                       && ab.bytes == []
                       && (bytes != [] ==> LastIs(if flushed then old(muxer.ts).written else muxer.ts.written,
                           af.Header(), bytes))
      ensures ok ==> flushed == (|old(ab.bytes) + FramesBytes(audio, Contents(sample.buffers, data))| > AUDIO_CACHE_SIZE
                                 || (old(ab.bytes) != [] && pts - old(audioBufferStartPts) > AUDIO_DELAY_MS * 90))
      ensures ok && reaped ==> videoCount == 0
      ensures ok && !flushed ==> reaped == (videoCount == 0 && old(muxer.IsSegmentOverflow()))
    {
      hide FramesBytes, Contents, AllPositive, InPayload, Reaped, LastIs, TsMuxer.Valid, Muxer.Valid, CountsOn,
          EndsWith;
      flushed, reaped, file := false, false, muxer.ts.file;
      var time;
      ok, time := CollectAudio(audio, pts, sample, data);
      if !ok {
        return;
      }
      assert muxer.Footprint() == old(muxer.Footprint()) && muxer.State() == old(muxer.State());
      ok, flushed := FlushIfDue(muxer, time);
      if !ok {
        return;
      }
      ghost var c, o;
      ok, reaped, c, o := ReapIfDue(videoCount == 0, muxer, af.pts);
      file := if flushed then old(muxer.ts.file) else muxer.ts.file;
    }
  }

  /** A frame was written last. */
  ghost predicate LastIs(written: seq<Written>, f: FrameHeader, data: seq<byte>) {
    written != [] && written[|written| - 1].header == f && written[|written| - 1].data == data
  }

  /** A reader that takes the file apart finds the frame as the last one of its PID. */
  ghost predicate EndsWith(content: seq<byte>, f: FrameHeader, data: seq<byte>) {
    var units := Demux(content, f.pid % 0x2000);
    units != [] && units[|units| - 1] == Some(AsPes(f, data))
  }

  lemma LastIsSent(ws: seq<Written>, f: FrameHeader, data: seq<byte>, pid: nat)
    requires LastIs(ws, f, data) && f.pid % 0x2000 == pid
    ensures Sent(ws, pid) != [] && Sent(ws, pid)[|Sent(ws, pid)| - 1] == Some(AsPes(f, data))
  {}

  lemma FileEndsWith(ts: TsMuxer, f: FrameHeader, data: seq<byte>)
    requires ts.Valid() && ts.sound && LastIs(ts.written, f, data) && (f.pid == AUDIO_PID || f.pid == VIDEO_PID)
    ensures ts.file != null && EndsWith(ts.file.content, f, data)
  {
    hide Demux, Sent, AsPes;
    FileIsLossless(ts, f.pid % 0x2000);
    LastIsSent(ts.written, f, data, f.pid % 0x2000);
  }

  /** The next segment was opened behind the last one, and perhaps begun with some audio. */
  ghost predicate Reaped(st: MuxerState, after: MuxerState, c: CloseIo, o: OpenIo, start: int, audio: Option<int>)
    requires st.current.Some? ==> st.nextNo > 0
  {
    var begun := AfterOpen(AfterClose(st, c), start, o);
    && CloseSucceeds(st, c) && o.directory && o.file && begun.current.Some? && after.current.Some?
    && after == if audio == None then begun else begun.(current := Some(Timed(begun.current.value, audio.value)))
  }

  lemma {:induction false} NotAllPositive(samples: seq<Slice>, k: nat)
    requires k < |samples| && samples[k].size <= 0
    ensures !AllPositive(samples)
    decreases |samples|
  {
    if k < |samples| - 1 {
      NotAllPositive(samples[..|samples| - 1], k);
    }
  }

  /** The current segment after collected audio was written to it. */
  function WithAudio(st: MuxerState, audio: seq<byte>, pts: int): MuxerState {
    if st.current.Some? && audio != [] then st.(current := Some(Timed(st.current.value, pts))) else st
  }

  lemma CloseLeavesNone(st: MuxerState, c: CloseIo)
    requires st.current.Some? && st.nextNo > 0
    ensures AfterClose(st, c).current == None
  {
    hide Dropped, PlaylistOf;
  }

  lemma PictureHasBytes(nals: seq<seq<byte>>, sps: seq<byte>, pps: seq<byte>)
    ensures StreamOf(PictureUnits(nals, sps, pps)) != []
  {
    hide StreamOf;
    if nals == [] {
      NoPicture(sps, pps);
    } else {
      PictureGrows(nals[..|nals| - 1], nals[|nals| - 1], sps, pps);
      assert nals == nals[..|nals| - 1] + [nals[|nals| - 1]];
    }
  }

  /** The seven bytes in front of a frame. */
  function AdtsHeader(a: AudioConfig, size: nat): (r: seq<byte>)
    ensures r == Header(a, size)
  {
    var frameLength := size + 7;
    var b2 := a.profile * 64 % 256 + a.sampleRate * 4 % 64 + a.channels / 4 % 2;
    var b3 := a.channels * 64 % 256 + frameLength / 2048 % 4;
    Shift(a.profile, 64, 4, 256);
    Shift(a.sampleRate, 4, 16, 64);
    Shift(a.channels, 64, 4, 256);
    Shift(frameLength, 32, 8, 256);
    [0xff, 0xf1, b2, b3, frameLength / 8 % 256, frameLength * 32 % 256 + 0x1f, 0xfc]
  }

  /** The low bits of a number that is shifted to the left. */
  lemma Shift(v: nat, n: nat, low: nat, all: nat)
    requires n > 0 && low > 0 && all == n * low
    ensures v * n % all == v % low * n
  {
    var q, r := v / low, v % low;
    calc {
      v * n;
      (q * low + r) * n;
      q * (n * low) + r * n;
    }
    assert 0 <= r * n < all by {
      assert r <= low - 1;
      assert r * n <= (low - 1) * n;
    }
    Remainder(v * n, all, q, r * n);
  }

  lemma NoFrames(a: AudioConfig)
    ensures FramesBytes(a, []) == []
  {}

  lemma NoPicture(sps: seq<byte>, pps: seq<byte>)
    ensures StreamOf(PictureUnits([], sps, pps)) == [0, 0, 0, 1] + AUD && !SetsSent([])
  {
    StreamOfOne(Unit(true, AUD));
  }

  lemma SetUnitsBytes(sps: seq<byte>, pps: seq<byte>)
    ensures StreamOf(SetUnits(sps, pps))
         == (if sps == [] then [] else [0, 0, 0, 1] + sps) + if pps == [] then [] else [0, 0, 0, 1] + pps
  {
    var a := if sps == [] then [] else [Unit(true, sps)];
    var b := if pps == [] then [] else [Unit(true, pps)];
    StreamOfConcat(a, b);
    StreamOfOne(Unit(true, sps));
    StreamOfOne(Unit(true, pps));
  }

  lemma PictureGrows(front: seq<seq<byte>>, nal: seq<byte>, sps: seq<byte>, pps: seq<byte>)
    ensures StreamOf(PictureUnits(front + [nal], sps, pps))
            == StreamOf(PictureUnits(front, sps, pps))
               + ((if NalType(nal) == IDR && !SetsSent(front) then StreamOf(SetUnits(sps, pps)) else [])
                   + UnitBytes(Unit(front == [], nal)))
  {
    hide StreamOf, SetUnits, SetsSent, UnitBytes;
    assert (front + [nal])[..|front|] == front;
    var sets := if NalType(nal) == IDR && !SetsSent(front) then SetUnits(sps, pps) else [];
    var u := Unit(front == [], nal);
    StreamOfConcat(PictureUnits(front, sps, pps) + sets, [u]);
    StreamOfConcat(PictureUnits(front, sps, pps), sets);
    StreamOfOne(u);
    assert StreamOf([]) == [] by { NoUnitBytes(); }
  }

  lemma SentAfter(front: seq<seq<byte>>, nal: seq<byte>)
    ensures SetsSent(front + [nal]) <==> NalType(nal) != SLICE && (NalType(nal) == IDR || SetsSent(front))
  {
    assert (front + [nal])[..|front|] == front;
  }

  lemma NoUnitBytes()
    ensures StreamOf([]) == []
  {}
}
