/** HLS output of a live source: when it is on, and that a segment is open whenever it is. */
module Hls {
  import opened Bytes
  import opened Pieces
  import opened AvcAac
  import opened Avcc
  import opened AnnexB
  import opened Adts
  import opened MpegTs
  import opened TransportStream
  import opened HlsMuxer
  import opened HlsCache
  import opened LiveQueue
  import Codec

  /** What the configuration of a stream says about HLS. */
  datatype HlsConfig = HlsConfig(enabled: bool, place: Place, fragment: int, window: int)

  function Configured(st: MuxerState, config: HlsConfig): MuxerState {
    st.(place := config.place, fragment := config.fragment, window := config.window)
  }

  /** At most the current segment was marked as following a sequence header. */
  ghost predicate OnlyMarked(before: MuxerState, after: MuxerState) {
    || after == before
    || (before.current.Some? && after == before.(current := Some(before.current.value.(discontinuity := true))))
  }

  class HlsOutput {
    var hlsEnabled: bool
    const codec: AvcAacCodec
    const sample: CodecSample
    const jitter: RtmpJitter
    const muxer: Muxer
    const cache: HlsCache
    var streamDts: int

    /** The invariant between calls: whenever HLS is on, a segment is open. */
    ghost predicate Valid()
      reads this, codec, cache, cache.ab, cache.af, cache.vf, muxer, muxer.writer, muxer.ts, muxer.ts.writer,
          muxer.ts.file
    {
      Sound() && (hlsEnabled ==> muxer.current.Some?)
    }

    /** What holds even behind a failure. */
    ghost predicate Sound()
      reads this, codec, cache, cache.ab, cache.af, cache.vf, muxer, muxer.writer, muxer.ts, muxer.ts.writer,
          muxer.ts.file
    {
      && muxer.Valid() && cache.Valid() && cache.Continuous(muxer) && codec.video.nalUnitLength <= 3
      && Own() !! muxer.Footprint() && Own() !! cache.Footprint() && cache.Footprint() !! muxer.Footprint()
    }

    ghost function Own(): set<object>
    {
      {this, codec, codec.stream, sample, jitter}
    }

    ghost function Footprint(): set<object>
      reads muxer, muxer.ts
    {
      Own() + cache.Footprint() + muxer.Footprint()
    }

    constructor (m: Muxer)
      requires m.Valid() && m.log == []
      ensures Valid() && !hlsEnabled && muxer == m && fresh(Own() + cache.Footprint()) && cache.vb.bytes == []
    {
      hide TsMuxer.Valid, Muxer.Valid, CountsOn;
      hlsEnabled, streamDts := false, 0;
      codec := new AvcAacCodec();
      sample := new CodecSample();
      jitter := new RtmpJitter();
      muxer := m;
      cache := new HlsCache();
      NothingCounts(AUDIO_PID);
      NothingCounts(VIDEO_PID);
      new;
      assert Own() !! muxer.Footprint();
      assert Own() !! cache.Footprint();
      assert cache.Footprint() !! muxer.Footprint();
    }

    /** The demuxed frames were put behind the audio collected `before`: all of it is still collected, or
        it is the last frame of the current file or, if that was closed, of the file before. */
    ghost predicate AudioTaken(before: seq<byte>, payload: seq<byte>, earlier: seq<Written>)
      reads this, codec, sample, cache, cache.ab, cache.af, muxer, muxer.ts
    {
      && AllPositive(sample.buffers) && InPayload(sample.buffers, payload)
      && var bytes := before + FramesBytes(codec.audio, Contents(sample.buffers, payload));
         cache.ab.bytes == bytes
         || (cache.ab.bytes == [] && (LastIs(muxer.ts.written, cache.af.Header(), bytes)
             || LastIs(earlier, cache.af.Header(), bytes)))
    }

    /** The demuxed picture is the last frame of the current file, at time t. */
    ghost predicate PictureWritten(before: seq<byte>, payload: seq<byte>, t: int)
      reads this, codec, sample, muxer, muxer.ts
    {
      && AllPositive(sample.buffers) && InPayload(sample.buffers, payload)
      && exists sps, pps ::
           && IsSet(codec.video.sps, sps) && IsSet(codec.video.pps, pps)
           && LastIs(muxer.ts.written, FrameHeader(t + sample.cts * 90, t, VIDEO_PID, TS_VIDEO_AVC,
               sample.frameType == Codec.KEYFRAME),
                     before + StreamOf(PictureUnits(Contents(sample.buffers, payload), sps, pps)))
    }

    /** A player that reads the current file finds the demuxed picture at its end: its times, and its NAL
        units with the parameter sets where they belong. */
    ghost predicate PictureSeen(payload: seq<byte>, t: int)
      reads this, codec, sample, muxer, muxer.ts, muxer.ts.file
    {
      && AllPositive(sample.buffers) && InPayload(sample.buffers, payload) && muxer.ts.file != null
      && exists sps, pps ::
           && IsSet(codec.video.sps, sps) && IsSet(codec.video.pps, pps)
           && var nals := Contents(sample.buffers, payload);
              CleanPicture(nals, sps, pps) ==>
                Sees(muxer.ts.file.content, t + sample.cts * 90, t, Expected(nals, sps, pps))
    }

    /** What a player finds at the end of the pictures of the current file begins with what was in the buffer
        before the demuxed picture. */
    ghost predicate FrameSeen(before: seq<byte>, payload: seq<byte>, t: int)
      reads this, codec, sample, muxer, muxer.ts, muxer.ts.file
    {
      && AllPositive(sample.buffers) && InPayload(sample.buffers, payload) && muxer.ts.file != null
      && exists sps, pps ::
           && IsSet(codec.video.sps, sps) && IsSet(codec.video.pps, pps)
           && EndsWith(muxer.ts.file.content,
                       FrameHeader(t + sample.cts * 90, t, VIDEO_PID, TS_VIDEO_AVC, sample.frameType == Codec.KEYFRAME),
                       before + StreamOf(PictureUnits(Contents(sample.buffers, payload), sps, pps)))
    }

    lemma ShowFrame(before: seq<byte>, payload: seq<byte>, t: int, sps: seq<byte>, pps: seq<byte>)
      requires AllPositive(sample.buffers) && InPayload(sample.buffers, payload) && muxer.ts.file != null
      requires IsSet(codec.video.sps, sps) && IsSet(codec.video.pps, pps)
      requires EndsWith(muxer.ts.file.content,
                        FrameHeader(t + sample.cts * 90, t, VIDEO_PID, TS_VIDEO_AVC,
                            sample.frameType == Codec.KEYFRAME),
                        before + StreamOf(PictureUnits(Contents(sample.buffers, payload), sps, pps)))
      ensures FrameSeen(before, payload, t)
    {
      hide InPayload, AllPositive, Contents, StreamOf, PictureUnits, EndsWith;
    }

    /** A player that reads the file finds, at the end of its audio, the frames that were collected `before`
        and the one of the payload. */
    ghost predicate AudioHeard(before: seq<byte>, payload: seq<byte>, file: TsFile?)
      reads this, codec, cache, cache.af, file
    {
      2 < |payload| <= 2 + MAX_FRAMED && ReadFrames(before, 0).Some? ==>
        && file != null
        && Hears(file.content, cache.af.pts, ReadFrames(before, 0).value + [AsFrame(codec.audio, payload[2..])])
    }

    lemma ShowSeen(payload: seq<byte>, t: int, sps: seq<byte>, pps: seq<byte>)
      requires AllPositive(sample.buffers) && InPayload(sample.buffers, payload) && muxer.ts.file != null
      requires IsSet(codec.video.sps, sps) && IsSet(codec.video.pps, pps)
      requires EndsWith(muxer.ts.file.content,
                        FrameHeader(t + sample.cts * 90, t, VIDEO_PID, TS_VIDEO_AVC,
                            sample.frameType == Codec.KEYFRAME),
                        StreamOf(PictureUnits(Contents(sample.buffers, payload), sps, pps)))
      ensures PictureSeen(payload, t)
    {
      hide InPayload, AllPositive, Contents, StreamOf, PictureUnits, EndsWith, CleanPicture, Sees, Expected;
      var nals := Contents(sample.buffers, payload);
      if CleanPicture(nals, sps, pps) {
        PlayerSeesPicture(muxer.ts.file.content, t + sample.cts * 90, t, sample.frameType == Codec.KEYFRAME, nals, sps,
            pps);
      }
    }

    lemma ShowPicture(before: seq<byte>, payload: seq<byte>, t: int, sps: seq<byte>, pps: seq<byte>)
      requires AllPositive(sample.buffers) && InPayload(sample.buffers, payload)
      requires IsSet(codec.video.sps, sps) && IsSet(codec.video.pps, pps)
      requires LastIs(muxer.ts.written, FrameHeader(t + sample.cts * 90, t, VIDEO_PID, TS_VIDEO_AVC,
               sample.frameType == Codec.KEYFRAME),
                      before + StreamOf(PictureUnits(Contents(sample.buffers, payload), sps, pps)))
      ensures PictureWritten(before, payload, t)
    {
      hide InPayload, AllPositive, Contents, StreamOf, PictureUnits, LastIs;
    }

    method DemuxAudio(payload: seq<byte>) returns (ok: bool)
      requires codec.video.nalUnitLength <= 3
      modifies codec`audio, codec.stream, sample
      ensures InPayload(sample.buffers, payload)
      ensures Codec.AudioIsSequenceHeader(payload) ==> payload != []
      ensures ok && payload != [] ==>
                && |payload| >= 2 && codec.audio.codecId == Codec.AAC
                && (Codec.AudioIsSequenceHeader(payload) <==> sample.aacPacketType == SEQUENCE_HEADER)
                && sample.buffers == if payload[1] as int == RAW_DATA then [Slice(2, |payload| - 2)] else []
    {
      hide AscAt, InPayload;
      sample.Clear();
      var data := new byte[|payload|](i requires 0 <= i < |payload| => payload[i]);
      assert data[..] == payload;
      ok := codec.AudioAacDemux(data, sample);
      OneSliceStays(sample.buffers, payload);
      if ok && |payload| >= 2 {
        AscKeepsCodec(old(codec.audio).(codecId := Codec.AAC), payload);
        SmallSigned(payload[1]);
      }
    }

    method DemuxVideo(payload: seq<byte>) returns (ok: bool)
      requires codec.video.nalUnitLength <= 3
      modifies codec`video, codec.stream, sample
      ensures codec.video.nalUnitLength <= 3 && InPayload(sample.buffers, payload)
      ensures Codec.VideoIsSequenceHeader(payload) ==> payload != []
      ensures ok && payload != [] ==>
                && |payload| >= 5 && codec.video.codecId == Codec.AVC
                && sample.frameType == payload[0] as int / 16 && sample.cts == U24(payload[2..5])
                && (Codec.VideoIsSequenceHeader(payload) <==>
                      sample.frameType == Codec.KEYFRAME && sample.avcPacketType == SEQUENCE_HEADER)
                && (payload[1] as int == NALU ==> AreCut(sample.buffers, codec.video.nalUnitLength, payload))
    {
      hide Nalus, RecordAt, InPayload;
      sample.Clear();
      var data := new byte[|payload|](i requires 0 <= i < |payload| => payload[i]);
      assert data[..] == payload;
      ok := codec.VideoAvcDemux(data, sample);
      SlicesStay(sample.buffers, payload, codec.video.nalUnitLength);
      if ok && |payload| >= 5 {
        RecordKeepsCodec(old(codec.video).(codecId := Codec.AVC), payload);
        SmallSigned(payload[1]);
      }
    }

    /** A sequence header only marks the current segment. */
    method OnAudio(audio: Message) returns (ok: bool)
      requires Valid() && audio.kind == Audio
      modifies Footprint()
      ensures Sound() && hlsEnabled == old(hlsEnabled) && fresh(Footprint() - old(Footprint()))
      ensures ok ==> Valid()
      ensures !old(hlsEnabled) || Codec.AudioIsSequenceHeader(audio.payload) ==>
                OnlyMarked(old(muxer.State()), muxer.State()) && muxer.ts == old(muxer.ts)
                    && muxer.ts.sound == old(muxer.ts.sound)
      ensures !old(hlsEnabled) ==> ok && muxer.State() == old(muxer.State())
      ensures ok && old(hlsEnabled) && audio.payload != [] && !Codec.AudioIsSequenceHeader(audio.payload) ==>
                && |audio.payload| >= 2
                && sample.buffers == (if audio.payload[1] as int == RAW_DATA then [Slice(2, |audio.payload| - 2)]
                    else [])
                && streamDts == Corrected(old(jitter.State()), audio, 0, 0).corrected * 90
                && AudioTaken(old(cache.ab.bytes), audio.payload, old(muxer.ts).written)
                && (audio.payload[1] as int == RAW_DATA && cache.ab.bytes == [] && old(muxer.ts.sound) ==>
                      || AudioHeard(old(cache.ab.bytes), audio.payload, muxer.ts.file)
                      || AudioHeard(old(cache.ab.bytes), audio.payload, old(muxer.ts.file)))
      ensures cache.vb.bytes == old(cache.vb.bytes)
      ensures ok && old(muxer.ts.sound) ==> muxer.ts.sound
    {
      hide InPayload, AllPositive, Contents, FramesBytes, LastIs, TsMuxer.Valid, Muxer.Valid,
          Codec.AudioIsSequenceHeader,
           Retimed, Corrected, HlsOutput.AudioTaken, HlsOutput.AudioHeard, CountsOn;
      if !hlsEnabled {
        return true;
      }
      ok := DemuxAudio(audio.payload);
      if !ok {
        return;
      }
      ok := FeedAudio(audio);
    }

    /** Takes what was demuxed, unless it is no AAC; a sequence header only marks the segment. */
    method FeedAudio(audio: Message) returns (ok: bool)
      requires Valid() && hlsEnabled && InPayload(sample.buffers, audio.payload) && audio.kind == Audio
      modifies Footprint()
      ensures Sound() && hlsEnabled && fresh(Footprint() - old(Footprint())) && cache.vb.bytes == old(cache.vb.bytes)
      ensures ok ==> Valid() && (old(muxer.ts.sound) ==> muxer.ts.sound)
      ensures old(codec.audio.codecId != Codec.AAC || sample.aacPacketType == SEQUENCE_HEADER) ==>
                ok && OnlyMarked(old(muxer.State()), muxer.State()) && muxer.ts == old(muxer.ts)
                    && muxer.ts.sound == old(muxer.ts.sound)
      ensures ok && old(codec.audio.codecId == Codec.AAC && sample.aacPacketType != SEQUENCE_HEADER) ==>
                && streamDts == Corrected(old(jitter.State()), audio, 0, 0).corrected * 90
                && sample.buffers == old(sample.buffers)
                    && AudioTaken(old(cache.ab.bytes), audio.payload, old(muxer.ts).written)
                && (sample.buffers == [Slice(2, |audio.payload| - 2)] && cache.ab.bytes == [] && old(muxer.ts.sound) ==>
                      || AudioHeard(old(cache.ab.bytes), audio.payload, muxer.ts.file)
                      || AudioHeard(old(cache.ab.bytes), audio.payload, old(muxer.ts.file)))
    {
      hide InPayload, TsMuxer.Valid, Muxer.Valid, Corrected, HlsOutput.AudioTaken, HlsOutput.AudioHeard, CountsOn;
      if codec.audio.codecId != Codec.AAC {
        return true;
      }
      if sample.aacPacketType == SEQUENCE_HEADER {
        MarkSegment();
        return true;
      }
      ok := WriteAudio(audio);
    }

    /** Marks the current segment as one that follows a sequence header. */
    method MarkSegment()
      requires Valid() && hlsEnabled
      modifies muxer`current
      ensures Valid() && OnlyMarked(old(muxer.State()), muxer.State())
    {
      hide TsMuxer.Valid, Muxer.Valid, CountsOn;
      cache.OnSequenceHeader(muxer);
    }

    lemma ShowHeard(before: seq<byte>, payload: seq<byte>, file: TsFile?)
      requires InPayload(sample.buffers, payload) && AllPositive(sample.buffers)
      requires sample.buffers == [Slice(2, |payload| - 2)]
      requires var bytes := before + FramesBytes(codec.audio, Contents(sample.buffers, payload));
               bytes != [] ==> file != null && EndsWith(file.content, cache.af.Header(), bytes)
                               && cache.af.pid == AUDIO_PID && cache.af.sid == TS_AUDIO_AAC
      ensures AudioHeard(before, payload, file)
    {
      hide FramesBytes, EndsWith, ReadFrames, Hears;
      if 2 < |payload| <= 2 + MAX_FRAMED && ReadFrames(before, 0).Some? {
        OneFrame(payload);
        FramesBytesOne(codec.audio, payload[2..]);
        CollectedFrameIsRead(before, codec.audio, payload[2..]);
        PlayerHearsAudio(file.content, cache.af.Header(), before + FramesBytes(codec.audio, [payload[2..]]),
                         ReadFrames(before, 0).value + [AsFrame(codec.audio, payload[2..])]);
      }
    }

    /** Corrects the time and writes what was demuxed. */
    method WriteAudio(audio: Message) returns (ok: bool)
      requires Valid() && hlsEnabled && InPayload(sample.buffers, audio.payload)
      modifies Footprint()
      ensures Sound() && hlsEnabled == old(hlsEnabled) && fresh(Footprint() - old(Footprint()))
      ensures ok ==> Valid()
      ensures ok && audio.kind == Audio ==> streamDts == Corrected(old(jitter.State()), audio, 0, 0).corrected * 90
      ensures ok ==>
              && sample.buffers == old(sample.buffers)
              && AudioTaken(old(cache.ab.bytes), audio.payload, old(muxer.ts).written)
      ensures ok && sample.buffers == [Slice(2, |audio.payload| - 2)] && cache.ab.bytes == [] && old(muxer.ts.sound) ==>
                || AudioHeard(old(cache.ab.bytes), audio.payload, muxer.ts.file)
                || AudioHeard(old(cache.ab.bytes), audio.payload, old(muxer.ts.file))
      ensures cache.vb.bytes == old(cache.vb.bytes)
      ensures ok && old(muxer.ts.sound) ==> muxer.ts.sound
    {
      hide InPayload, TsMuxer.Valid, Muxer.Valid, Corrected, HlsOutput.AudioTaken, HlsOutput.AudioHeard, CountsOn;
      var m := jitter.Correct(audio, 0, 0);
      var pts := m.time * 90;
      streamDts := pts;
      ok := CollectAt(audio.payload, pts);
    }

    /** Takes what was demuxed, at a time. */
    method CollectAt(payload: seq<byte>, pts: int) returns (ok: bool)
      requires Valid() && hlsEnabled && InPayload(sample.buffers, payload)
      modifies cache.Footprint() - {cache.vb}, muxer.Footprint()
      ensures Sound() && fresh(muxer.Footprint() - old(muxer.Footprint()))
      ensures ok ==> muxer.current.Some? && AudioTaken(old(cache.ab.bytes), payload, old(muxer.ts).written)
      ensures ok && sample.buffers == [Slice(2, |payload| - 2)] && cache.ab.bytes == [] && old(muxer.ts.sound) ==>
                || AudioHeard(old(cache.ab.bytes), payload, muxer.ts.file)
                || AudioHeard(old(cache.ab.bytes), payload, old(muxer.ts.file))
      ensures ok && old(muxer.ts.sound) ==> muxer.ts.sound
    {
      hide InPayload, AllPositive, Contents, FramesBytes, LastIs, TsMuxer.Valid, Muxer.Valid, CountsOn, EndsWith,
          HlsOutput.AudioHeard;
      ghost var flushed, reaped, file;
      ok, flushed, reaped, file := cache.WriteAudio(codec.audio, muxer, pts, sample, payload);
      if ok && sample.buffers == [Slice(2, |payload| - 2)] && cache.ab.bytes == [] && old(muxer.ts.sound) {
        ShowHeard(old(cache.ab.bytes), payload, file);
      }
    }

    method OnVideo(video: Message) returns (ok: bool)
      requires Valid() && video.kind == Video
      modifies Footprint()
      ensures Sound() && hlsEnabled == old(hlsEnabled) && fresh(Footprint() - old(Footprint()))
      ensures ok ==> Valid()
      ensures !old(hlsEnabled) || Codec.VideoIsSequenceHeader(video.payload) ==>
                OnlyMarked(old(muxer.State()), muxer.State()) && muxer.ts == old(muxer.ts)
                    && muxer.ts.sound == old(muxer.ts.sound)
      ensures !old(hlsEnabled) ==> ok && muxer.State() == old(muxer.State())
      ensures ok && old(hlsEnabled) && video.payload != [] && !Codec.VideoIsSequenceHeader(video.payload) ==>
                && |video.payload| >= 5 && sample.frameType == video.payload[0] as int / 16
                    && sample.cts == U24(video.payload[2..5])
                && (video.payload[1] as int == NALU ==>
                    AreCut(sample.buffers, codec.video.nalUnitLength, video.payload))
                && streamDts == Corrected(old(jitter.State()), video, 0, 0).corrected * 90
                && PictureWritten(old(cache.vb.bytes), video.payload, streamDts) && cache.vb.bytes == []
                && (old(muxer.ts.sound) ==> FrameSeen(old(cache.vb.bytes), video.payload, streamDts))
                && (old(cache.vb.bytes) == [] && old(muxer.ts.sound) ==> PictureSeen(video.payload, streamDts))
      ensures !old(hlsEnabled) || Codec.VideoIsSequenceHeader(video.payload) ==> cache.vb.bytes == old(cache.vb.bytes)
      ensures if ok then cache.vb.bytes == [] || cache.vb.bytes == old(cache.vb.bytes)
              else cache.vb.bytes != [] || cache.vb.bytes == old(cache.vb.bytes)
      ensures ok && old(muxer.ts.sound) ==> muxer.ts.sound
    {
      hide InPayload, AllPositive, Contents, StreamOf, PictureUnits, LastIs, Reaped, Timed, TsMuxer.Valid, Muxer.Valid,
           Codec.VideoIsSequenceHeader, Retimed, Corrected, HlsOutput.PictureWritten, HlsOutput.FrameSeen,
               HlsOutput.PictureSeen, AreCut,
               U24, CountsOn;
      if !hlsEnabled {
        return true;
      }
      ok := DemuxVideo(video.payload);
      if !ok {
        return;
      }
      if codec.video.codecId != Codec.AVC {
        return true;
      }
      if sample.frameType == Codec.KEYFRAME && sample.avcPacketType == SEQUENCE_HEADER {
        MarkSegment();
        return true;
      }
      ok := WriteVideo(video);
    }

    /** Corrects the time and writes what was demuxed. */
    method WriteVideo(video: Message) returns (ok: bool)
      requires Valid() && hlsEnabled && InPayload(sample.buffers, video.payload)
      modifies Footprint()
      ensures Sound() && hlsEnabled == old(hlsEnabled) && fresh(Footprint() - old(Footprint()))
      ensures ok ==> Valid()
      ensures ok && video.kind == Video ==> streamDts == Corrected(old(jitter.State()), video, 0, 0).corrected * 90
      ensures ok ==> && KeepsPicture(old(sample.buffers), old(sample.cts), old(sample.frameType), old(codec.video))
                     && PictureWritten(old(cache.vb.bytes), video.payload, streamDts)
                     && (old(muxer.ts.sound) ==> FrameSeen(old(cache.vb.bytes), video.payload, streamDts))
                     && (old(cache.vb.bytes) == [] && old(muxer.ts.sound) ==> PictureSeen(video.payload, streamDts))
      ensures cache.vb.bytes == [] <==> ok
      ensures ok && old(muxer.ts.sound) ==> muxer.ts.sound
    {
      hide InPayload, TsMuxer.Valid, Muxer.Valid, Corrected, HlsOutput.PictureWritten, HlsOutput.FrameSeen,
          HlsOutput.PictureSeen, CountsOn;
      var m := jitter.Correct(video, 0, 0);
      var dts := m.time * 90;
      streamDts := dts;
      ok := WriteAt(video.payload, dts);
    }

    ghost predicate KeepsPicture(buffers: seq<Slice>, cts: int, frameType: int, video: VideoConfig)
      reads this, sample, codec
    {
      sample.buffers == buffers && sample.cts == cts && sample.frameType == frameType && codec.video == video
    }

    /** Writes what was demuxed, at a time. */
    method WriteAt(payload: seq<byte>, dts: int) returns (ok: bool)
      requires Valid() && hlsEnabled && InPayload(sample.buffers, payload)
      modifies cache.Footprint(), muxer.Footprint()
      ensures Sound() && fresh(muxer.Footprint() - old(muxer.Footprint()))
      ensures ok ==> muxer.current.Some? && PictureWritten(old(cache.vb.bytes), payload, dts)
                     && (old(muxer.ts.sound) ==> FrameSeen(old(cache.vb.bytes), payload, dts))
                     && (old(cache.vb.bytes) == [] && old(muxer.ts.sound) ==> PictureSeen(payload, dts))
      ensures cache.vb.bytes == [] <==> ok
      ensures ok && old(muxer.ts.sound) ==> muxer.ts.sound
    {
      hide InPayload, AllPositive, Contents, StreamOf, PictureUnits, Reaped, Timed, LastIs, TsMuxer.Valid, Muxer.Valid,
          CountsOn,
           HlsOutput.PictureWritten, HlsOutput.FrameSeen, HlsOutput.PictureSeen, EndsWith;
      ghost var reaped, c, o, sps, pps;
      ok, reaped, c, o, sps, pps := cache.WriteVideo(codec.video, muxer, dts, sample, payload);
      if ok {
        ShowPicture(old(cache.vb.bytes), payload, dts, sps, pps);
        if muxer.ts.sound {
          ShowFrame(old(cache.vb.bytes), payload, dts, sps, pps);
        }
        if old(cache.vb.bytes) == [] && old(muxer.ts.sound) {
          ghost var stream := StreamOf(PictureUnits(Contents(sample.buffers, payload), sps, pps));
          assert old(cache.vb.bytes) + stream == stream;
          ShowSeen(payload, dts, sps, pps);
        }
      }
    }

    /** Turns HLS on if the configuration wants it, and feeds it the sequence headers that the source
        keeps. When a header is refused HLS stays on, and publishing fails. */
    method OnPublish(config: HlsConfig, videoSh: Option<Message>, audioSh: Option<Message>) returns (ok: bool)
      requires Valid()
      requires videoSh.Some? ==> videoSh.value.kind == Video && Codec.VideoIsSequenceHeader(videoSh.value.payload)
      requires audioSh.Some? ==> audioSh.value.kind == Audio && Codec.AudioIsSequenceHeader(audioSh.value.payload)
      modifies Footprint()
      ensures Valid() && fresh(Footprint() - old(Footprint()))
      ensures old(hlsEnabled) || !config.enabled ==>
              ok && hlsEnabled == old(hlsEnabled) && muxer.State() == old(muxer.State())
      ensures ok && config.enabled ==> hlsEnabled
      ensures hlsEnabled && !old(hlsEnabled) && old(muxer.current == None) ==> muxer.ts.sound
      ensures cache.vb.bytes == old(cache.vb.bytes)
      ensures hlsEnabled && !old(hlsEnabled) ==> config.enabled && muxer.place == config.place
      ensures hlsEnabled && !old(hlsEnabled) ==>
                exists io :: OnlyMarked(AfterOpen(Configured(old(muxer.State()), config), old(streamDts), io),
                    muxer.State())
    {
      hide TsMuxer.Valid, Muxer.Valid, AfterOpen, CountsOn, Codec.VideoIsSequenceHeader, Codec.AudioIsSequenceHeader;
      if hlsEnabled {
        return true;
      }
      if !config.enabled {
        return true;
      }
      ghost var io;
      ok, io := Enable(config);
      OpenKeepsPlace(Configured(old(muxer.State()), config), old(streamDts));
      if !ok {
        return;
      }
      ok := OnHlsStart(videoSh, audioSh);
      assert OnlyMarked(AfterOpen(Configured(old(muxer.State()), config), old(streamDts), io), muxer.State());
    }

    /** Opens a segment with the new configuration. */
    method Enable(config: HlsConfig) returns (ok: bool, ghost io: OpenIo)
      requires Valid() && !hlsEnabled
      modifies this`hlsEnabled, cache, muxer
      ensures Valid() && fresh(Footprint() - old(Footprint())) && hlsEnabled == ok
      ensures muxer.State() == AfterOpen(Configured(old(muxer.State()), config), old(streamDts), io)
      ensures ok ==> muxer.ts.sound || old(muxer.current.Some?)
    {
      hide TsMuxer.Valid, Muxer.Valid, AfterOpen, CountsOn;
      ok, io := cache.OnPublish(muxer, config.place, config.fragment, config.window, streamDts);
      hlsEnabled := ok;
    }

    /** The source feeds the sequence headers it keeps. */
    method OnHlsStart(videoSh: Option<Message>, audioSh: Option<Message>) returns (ok: bool)
      requires Valid() && hlsEnabled
      requires videoSh.Some? ==> videoSh.value.kind == Video && Codec.VideoIsSequenceHeader(videoSh.value.payload)
      requires audioSh.Some? ==> audioSh.value.kind == Audio && Codec.AudioIsSequenceHeader(audioSh.value.payload)
      modifies Footprint()
      ensures Valid() && hlsEnabled && fresh(Footprint() - old(Footprint()))
      ensures OnlyMarked(old(muxer.State()), muxer.State()) && muxer.ts == old(muxer.ts)
              && muxer.ts.sound == old(muxer.ts.sound)
      ensures cache.vb.bytes == old(cache.vb.bytes)
    {
      hide TsMuxer.Valid, Muxer.Valid, Codec.VideoIsSequenceHeader, Codec.AudioIsSequenceHeader, CountsOn;
      if videoSh.Some? {
        ok := OnVideo(videoSh.value);
        if !ok {
          return;
        }
      }
      if audioSh.Some? {
        ok := OnAudio(audioSh.value);
        if !ok {
          return;
        }
      }
      ok := true;
    }

    /** Turns HLS off, after trying to write what is left. */
    method OnUnpublish()
      requires Sound()
      modifies Footprint()
      ensures Valid() && !hlsEnabled && fresh(Footprint() - old(Footprint()))
      ensures !old(hlsEnabled) ==> muxer.State() == old(muxer.State())
      ensures cache.vb.bytes == old(cache.vb.bytes)
    {
      hide TsMuxer.Valid, Muxer.Valid, CountsOn;
      if !hlsEnabled {
        return;
      }
      ghost var flushed, io;
      var ok;
      ok, flushed, io := cache.OnUnpublish(muxer);
      hlsEnabled := false;
    }
  }

  lemma OpenKeepsPlace(st: MuxerState, start: int)
    ensures forall io :: AfterOpen(st, start, io).place == st.place
  {}

  // ---------------------------------------------------------------- the source

  /** What the live source does with its HLS output: a failure never reaches the stream, it only turns
      HLS off. */
  class HlsSource {
    const hls: HlsOutput

    ghost predicate Valid()
      reads this, hls, hls.codec, hls.cache, hls.cache.ab, hls.cache.af, hls.cache.vf, hls.muxer, hls.muxer.writer,
          hls.muxer.ts, hls.muxer.ts.writer, hls.muxer.ts.file
    {
      hls.Valid() && this !in hls.Footprint()
    }

    /** Nothing failed that later output would show: the current file is sound, and no picture was left in
        the buffer. */
    ghost predicate Clean()
      reads this, hls, hls.cache, hls.cache.vb, hls.muxer, hls.muxer.ts
    {
      hls.muxer.ts.sound && hls.cache.vb.bytes == []
    }

    constructor (m: Muxer)
      requires m.Valid() && m.log == []
      ensures Valid() && !hls.hlsEnabled && hls.muxer == m && hls.cache.vb.bytes == []
    {
      hide TsMuxer.Valid, Muxer.Valid;
      hls := new HlsOutput(m);
    }

    method OnAudio(msg: Message)
      requires Valid() && msg.kind == Audio
      modifies hls.Footprint()
      ensures Valid() && fresh(hls.Footprint() - old(hls.Footprint()))
      ensures hls.hlsEnabled ==> old(hls.hlsEnabled) && (old(Clean()) ==> Clean())
    {
      hide CountsOn, TsMuxer.Valid, Muxer.Valid, HlsOutput.Sound;
      var ok := hls.OnAudio(msg);
      if !ok {
        hls.OnUnpublish();
      }
    }

    method OnVideo(msg: Message)
      requires Valid() && msg.kind == Video
      modifies hls.Footprint()
      ensures Valid() && fresh(hls.Footprint() - old(hls.Footprint()))
      ensures hls.hlsEnabled ==> old(hls.hlsEnabled) && (old(Clean()) ==> Clean())
    {
      hide CountsOn, TsMuxer.Valid, Muxer.Valid, HlsOutput.Sound;
      var ok := hls.OnVideo(msg);
      if !ok {
        hls.OnUnpublish();
      }
    }

    /** The configuration of HLS was reloaded. */
    method OnReloadVhostHls(config: HlsConfig, videoSh: Option<Message>, audioSh: Option<Message>) returns (ok: bool)
      requires Valid()
      requires videoSh.Some? ==> videoSh.value.kind == Video && Codec.VideoIsSequenceHeader(videoSh.value.payload)
      requires audioSh.Some? ==> audioSh.value.kind == Audio && Codec.AudioIsSequenceHeader(audioSh.value.payload)
      modifies hls.Footprint()
      ensures Valid() && fresh(hls.Footprint() - old(hls.Footprint()))
      ensures ok ==> hls.hlsEnabled == config.enabled
      ensures hls.hlsEnabled ==> config.enabled && hls.muxer.place == config.place
      ensures hls.hlsEnabled && old(!hls.hlsEnabled && hls.muxer.current == None && hls.cache.vb.bytes == []) ==>
              Clean()
    {
      hide CountsOn, TsMuxer.Valid, Muxer.Valid, HlsOutput.Sound, Codec.VideoIsSequenceHeader,
          Codec.AudioIsSequenceHeader;
      hls.OnUnpublish();
      ok := hls.OnPublish(config, videoSh, audioSh);
    }
  }

  /** The slices are those the cutting loop takes from a picture, unless its cursor left the payload. */
  ghost predicate AreCut(buffers: seq<Slice>, n: nat, payload: seq<byte>)
    requires n <= 3 && |payload| >= 5
  {
    match Nalus(n, payload, 5, 0, |payload| - 5, [])
    case Cut(s) => buffers == s
    case Bad(s) => false
    case Lost(s) => s <= buffers
  }

  lemma AscKeepsCodec(a: AudioConfig, d: seq<byte>)
    requires |d| >= 2
    ensures AscAt(a, d, 2).config.codecId == a.codecId
  {}

  lemma RecordKeepsCodec(v: VideoConfig, d: seq<byte>)
    requires |d| >= 5
    ensures RecordAt(v, d, 5).config.codecId == v.codecId
  {}

  lemma OneSliceStays(buffers: seq<Slice>, payload: seq<byte>)
    requires buffers == [] || buffers == [Slice(2, |payload| - 2)]
    ensures InPayload(buffers, payload)
  {
    if buffers != [] {
      assert buffers[..0] == [];
    }
  }

  lemma SlicesStay(buffers: seq<Slice>, payload: seq<byte>, n: nat)
    requires n <= 3
    requires buffers == [] || (|payload| >= 5 &&
                               var o := Nalus(n, payload, 5, 0, |payload| - 5, []);
                               if o.Lost? then o.samples <= buffers else buffers == o.samples)
    ensures InPayload(buffers, payload)
  {
    hide Nalus;
    if buffers != [] {
      CutsStayInPayload(n, payload, buffers);
    }
  }

  // ---------------------------------------------------------------- what a player gets

  function AsFrame(a: AudioConfig, data: seq<byte>): Frame {
    Frame(a.profile % 4, a.sampleRate % 16, a.channels % 8, data)
  }

  lemma OneFrame(payload: seq<byte>)
    requires |payload| > 2 && InPayload([Slice(2, |payload| - 2)], payload) && AllPositive([Slice(2, |payload| - 2)])
    ensures Contents([Slice(2, |payload| - 2)], payload) == [payload[2..]]
  {
    var s := [Slice(2, |payload| - 2)];
    assert s[..0] == [];
    assert payload[2..2 + (|payload| - 2)] == payload[2..];
  }

  ghost predicate CleanPicture(nals: seq<seq<byte>>, sps: seq<byte>, pps: seq<byte>) {
    (sps == [] || Clean(sps)) && (pps == [] || Clean(pps)) && forall i :: 0 <= i < |nals| ==> Clean(nals[i])
  }

  /** A player that takes the file apart finds these NAL units in its last picture. */
  ghost predicate Sees(content: seq<byte>, pts: int, dts: int, nals: seq<seq<byte>>) {
    var units := Demux(content, VIDEO_PID);
    && units != [] && units[|units| - 1].Some?
    && var pes := units[|units| - 1].value;
       && pes.sid == TS_VIDEO_AVC && pes.pts == (pts + DELAY) % 0x200000000 && pes.dts == (dts + DELAY) % 0x200000000
       && AnnexB.Split(pes.data, 0) == nals
  }

  /** A player that takes the file apart finds these AAC frames in its last unit of audio. */
  ghost predicate Hears(content: seq<byte>, pts: int, frames: seq<Frame>) {
    var units := Demux(content, AUDIO_PID);
    && units != [] && units[|units| - 1].Some?
    && var pes := units[|units| - 1].value;
       pes.sid == TS_AUDIO_AAC && pes.pts == (pts + DELAY) % 0x200000000 && ReadFrames(pes.data, 0) == Some(frames)
  }

  /** A player that reads the file of a segment finds the picture that was written last: its times, and its
      NAL units with the parameter sets where they belong. */
  lemma PlayerSeesPicture(content: seq<byte>, pts: int, dts: int, key: bool, nals: seq<seq<byte>>, sps: seq<byte>,
      pps: seq<byte>)
    requires EndsWith(content, FrameHeader(pts, dts, VIDEO_PID, TS_VIDEO_AVC, key),
             StreamOf(PictureUnits(nals, sps, pps)))
    requires CleanPicture(nals, sps, pps)
    ensures Sees(content, pts, dts, Expected(nals, sps, pps))
  {
    hide Demux, StreamOf, PictureUnits, Expected, AnnexB.Split, Clean;
    PictureIsPreserved(nals, sps, pps);
  }

  /** With something left over in front of it a player does not find just this picture. */
  lemma LeftoverSpoils(content: seq<byte>, f: FrameHeader, before: seq<byte>, picture: seq<byte>)
    requires EndsWith(content, f, before + picture)
    ensures EndsWith(content, f, picture) <==> before == []
  {
    hide Demux;
    if before == [] {
      assert before + picture == picture;
    } else {
      assert |before + picture| > |picture|;
    }
  }

  /** A player finds the audio that was written last, frame by frame. */
  lemma PlayerHearsAudio(content: seq<byte>, f: FrameHeader, data: seq<byte>, frames: seq<Frame>)
    requires EndsWith(content, f, data) && f.pid == AUDIO_PID && f.sid == TS_AUDIO_AAC
             && ReadFrames(data, 0) == Some(frames)
    ensures Hears(content, f.pts, frames)
  {
    hide Demux, ReadFrames;
  }

  /** Over every run, whatever failed: from any point on, the packets of a PID that go into the files are
      numbered without a gap for as long as its frames could be written, across all segments; where the
      count begins differs from the number of packets before by the number of frames that could not. */
  lemma ContinuityOverSegments(hls: HlsOutput, k: nat, pid: nat)
    requires hls.Sound() && k <= |hls.muxer.log| && (pid == AUDIO_PID || pid == VIDEO_PID)
    ensures var log := hls.muxer.log;
            && (Failures(log[k..], pid) == 0 ==> Consecutive(OfPid(PacketsOf(log[k..]), pid), Counter(log[..k], pid)))
            && Counter(log[..k], pid) == |OfPid(PacketsOf(log[..k]), pid)| + Failures(log[..k], pid)
    ensures hls.cache.af.cc == Counter(hls.muxer.log, AUDIO_PID) && hls.cache.vf.cc == Counter(hls.muxer.log, VIDEO_PID)
  {
    hide Numbered, Consecutive, OfPid, PacketsOf, Counter, Failures, TsMuxer.Valid;
    NumberedPrefix(hls.muxer.log, k, pid);
    AttemptsOfPid(hls.muxer.log[..k], pid);
    if Failures(hls.muxer.log[k..], pid) == 0 {
      ContinuityBreaksOnlyAtFailures(hls.muxer.log, k, pid);
    }
  }

  lemma {:induction false} NumberedPrefix(log: seq<Attempt>, k: nat, pid: nat)
    requires k <= |log| && Numbered(log, pid)
    ensures Numbered(log[..k], pid)
    decreases |log|
  {
    if k == |log| {
      assert log[..k] == log;
    } else {
      assert log[..|log| - 1][..k] == log[..k];
      NumberedPrefix(log[..|log| - 1], k, pid);
    }
  }
}
