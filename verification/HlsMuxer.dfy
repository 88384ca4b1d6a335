/** The muxer of an HLS stream: segments, their files, and the playlist that lists them. */
module HlsMuxer {
  import opened Bytes
  import opened Pieces
  import opened MpegTs
  import opened TransportStream

  // times are in ticks of 1/90000 second
  const SECOND := 90000
  const MIN_DURATION := 9000

  // ---------------------------------------------------------------- names

  function Digit(n: nat): char
    requires n < 10
  {
    "0123456789"[n]
  }

  function Decimal(n: nat): string {
    if n < 10 then [Digit(n)] else Decimal(n / 10) + [Digit(n % 10)]
  }

  /** A name in a buffer of 128 characters, the last of which is the terminator. */
  function Fitted(name: string): string {
    if |name| <= 127 then name else name[..127]
  }

  function FileName(stream: string, no: nat): string {
    Fitted(stream + "-" + Decimal(no) + ".ts")
  }

  /** Where the segments and the playlist of a stream are. */
  datatype Place = Place(path: string, app: string, stream: string)

  function FullPath(place: Place, uri: string): string {
    place.path + "/" + place.app + "/" + uri
  }

  function PlaylistPath(place: Place): string {
    FullPath(place, place.stream + ".m3u8")
  }

  // ---------------------------------------------------------------- segments and playlists

  datatype Segment = Segment(no: nat, uri: string, path: string, start: int, ticks: nat, discontinuity: bool)

  /** A frame at time t; frames of the time before the segment do not count. */
  function Timed(s: Segment, t: int): Segment {
    if t < s.start then s else s.(ticks := t - s.start)
  }

  datatype Line =
    | Preamble
    | MediaSequence(no: nat)
    | TargetDuration(seconds: nat)
    | Discontinuity
    | ExtInf(ticks: nat)
    | Uri(uri: string)

  function MaxSeconds(segments: seq<Segment>): nat {
    if segments == [] then 0
    else
      var m, s := MaxSeconds(segments[..|segments| - 1]), segments[|segments| - 1].ticks / SECOND;
      if s > m then s else m
  }

  function EntryLines(s: Segment): seq<Line> {
    (if s.discontinuity then [Discontinuity] else []) + [ExtInf(s.ticks), Uri(s.uri)]
  }

  function Entries(segments: seq<Segment>): seq<Line> {
    if segments == [] then [] else Entries(segments[..|segments| - 1]) + EntryLines(segments[|segments| - 1])
  }

  /** The playlist of some segments. */
  function PlaylistOf(segments: seq<Segment>): seq<Line>
    requires segments != []
  {
    [Preamble, MediaSequence(segments[0].no), TargetDuration(MaxSeconds(segments) + 1)] + Entries(segments)
  }

  /** How many of the first n segments are dropped: from the last one backwards they are kept up to and
      including the one with which they last longer than the window. `sum` is what those behind last. */
  function Dropped(segments: seq<Segment>, n: nat, sum: nat, window: int): (r: nat)
    requires n <= |segments|
    ensures r <= n
  {
    if n == 0 then 0
    else
      var t := sum + segments[n - 1].ticks;
      if t / SECOND > window then n - 1 else Dropped(segments, n - 1, t, window)
  }

  // ---------------------------------------------------------------- the files on the disk

  class Disk {
    var files: set<string>
    var playlists: map<string, seq<Line>>

    constructor ()
      ensures files == {} && playlists == map[]
    {
      files, playlists := {}, map[];
    }
  }

  /** How replacing a playlist can end: how many lines could be written, and the two other steps. */
  datatype RefreshIo = RefreshIo(created: bool, lines: nat, renamed: bool)

  datatype CloseIo = CloseIo(renamed: bool, refresh: RefreshIo)

  /** Creating the directory, and the file with its tables. */
  datatype OpenIo = OpenIo(directory: bool, file: bool)

  datatype MuxerState = MuxerState(
    place: Place, fragment: int, window: int, nextNo: nat, current: Option<Segment>, segments: seq<Segment>,
    files: set<string>, playlists: map<string, seq<Line>>)

  function Succeeds(io: RefreshIo, segments: seq<Segment>): bool {
    segments == [] || (io.created && io.renamed && io.lines >= |PlaylistOf(segments)|)
  }

  /** The new playlist appears when it could be opened and renamed, even if it was cut short. */
  function Refreshed(st: MuxerState, io: RefreshIo): MuxerState {
    if st.segments == [] || !io.created || !io.renamed then st
    else
      var p := PlaylistOf(st.segments);
      st.(playlists := st.playlists[PlaylistPath(st.place) := if io.lines < |p| then p[..io.lines] else p])
  }

  function Paths(segments: seq<Segment>): set<string> {
    set s | s in segments :: s.path
  }

  function Shrunk(st: MuxerState, io: RefreshIo): MuxerState {
    var k := Dropped(st.segments, |st.segments|, 0, st.window);
    var r := Refreshed(st.(segments := st.segments[k..]), io);
    r.(files := r.files - Paths(st.segments[..k]))
  }

  /** A segment that is closed is listed if it lasts at least a tenth of a second; a shorter one is
      forgotten and its number used again. */
  function Ended(st: MuxerState, renamed: bool): MuxerState
    requires st.current.Some? && st.nextNo > 0
  {
    var s := st.current.value;
    if s.ticks >= MIN_DURATION then
      st.(segments := st.segments + [s], current := None, files := if renamed then st.files + {s.path} else st.files)
    else st.(nextNo := st.nextNo - 1, current := None)
  }

  /** Only closing a listed segment can fail half way, when its file cannot be renamed. */
  predicate Stops(st: MuxerState, renamed: bool)
    requires st.current.Some?
  {
    st.current.value.ticks >= MIN_DURATION && !renamed
  }

  function AfterClose(st: MuxerState, io: CloseIo): MuxerState
    requires st.current.Some? ==> st.nextNo > 0
  {
    if st.current == None then st
    else if Stops(st, io.renamed) then Ended(st, false)
    else Shrunk(Ended(st, io.renamed), io.refresh)
  }

  predicate CloseSucceeds(st: MuxerState, io: CloseIo)
    requires st.current.Some? ==> st.nextNo > 0
  {
    st.current.Some? ==>
      && !Stops(st, io.renamed)
      && var e := Ended(st, io.renamed);
         Succeeds(io.refresh, e.segments[Dropped(e.segments, |e.segments|, 0, e.window)..])
  }

  function NewSegment(place: Place, no: nat, start: int): Segment {
    Segment(no, FileName(place.stream, no), FullPath(place, FileName(place.stream, no)), start, 0, false)
  }

  /** A segment stays open when only its file could not be created. */
  function AfterOpen(st: MuxerState, start: int, io: OpenIo): MuxerState {
    if st.current.Some? || !io.directory then st
    else st.(nextNo := st.nextNo + 1, current := Some(NewSegment(st.place, st.nextNo, start)))
  }

  // ---------------------------------------------------------------- the muxer

  class CodecBuffer {
    var bytes: seq<byte>

    constructor ()
      ensures bytes == []
    {
      bytes := [];
    }

    method Append(data: seq<byte>)
      modifies this
      ensures bytes == old(bytes) + data
    {
      bytes := bytes + data;
    }

    method Free()
      modifies this
      ensures bytes == []
    {
      bytes := [];
    }
  }

  class Muxer {
    const disk: Disk
    const writer: MpegtsWriter
    var place: Place
    var fragment: int
    var window: int
    var nextNo: nat
    var current: Option<Segment>
    var segments: seq<Segment>
    // writes the file of the current segment
    var ts: TsMuxer
    // the frames of all segments, and where those of the current file begin
    ghost var log: seq<Attempt>
    ghost var begun: nat

    ghost predicate Valid()
      reads this, writer, ts, ts.writer, ts.file
    {
      && ts.Valid() && ts.writer == writer && writer.packet.Length == PACKET && (current.Some? ==> nextNo > 0)
      && begun <= |log| && ts.written == WholeFrames(log[begun..])
      && (ts.sound ==> AllPackets(ts.written) == PacketsOf(log[begun..]))
    }

    ghost function Footprint(): set<object>
      reads this, ts
    {
      {this, disk, writer.packet, ts} + if ts.file == null then {} else {ts.file}
    }

    ghost function State(): MuxerState
      reads this, disk
    {
      MuxerState(place, fragment, window, nextNo, current, segments, disk.files, disk.playlists)
    }

    constructor (d: Disk, w: MpegtsWriter)
      requires w.packet.Length == PACKET
      ensures Valid() && disk == d && writer == w && fresh(ts) && ts.file == null
      ensures nextNo == 0 && current == None && segments == [] && log == []
    {
      disk, writer, log, begun := d, w, [], 0;
      place, fragment, window := Place("", "", ""), 0, 0;
      nextNo, current, segments := 0, None, [];
      ts := new TsMuxer(w);
    }

    method UpdateConfig(p: Place, f: int, w: int)
      requires Valid()
      modifies this`place, this`fragment, this`window
      ensures Valid() && State() == old(State()).(place := p, fragment := f, window := w)
    {
      place, fragment, window := p, f, w;
    }

    /** Opens the next segment, unless one is open. */
    method SegmentOpen(start: int) returns (ok: bool, ghost io: OpenIo)
      requires Valid()
      modifies this
      ensures Valid() && (ts == old(ts) || (fresh(ts) && (ts.file == null || fresh(ts.file))))
      ensures State() == AfterOpen(old(State()), start, io)
      ensures ok == (old(current.Some?) || (io.directory && io.file))
      ensures ok && old(current == None) ==> fresh(ts) && ts.sound && ts.written == []
      ensures old(current.Some?) ==> ts == old(ts)
      ensures log == old(log)
    {
      io := OpenIo(true, true);
      if current.Some? {
        return true, io;
      }
      if * {
        return false, io.(directory := false);
      }
      var no := nextNo;
      nextNo := nextNo + 1;
      var uri := FileName(place.stream, no);
      current := Some(Segment(no, uri, FullPath(place, uri), start, 0, false));
      ts := new TsMuxer(writer);
      begun := |log|;
      ok := ts.Open();
      io := io.(file := ok);
    }

    method OnSequenceHeader()
      requires Valid() && current.Some?
      modifies this`current
      ensures Valid() && State() == old(State()).(current := Some(old(current.value).(discontinuity := true)))
    {
      current := Some(current.value.(discontinuity := true));
    }

    predicate IsSegmentOverflow()
      requires current.Some?
      reads this
    {
      current.value.ticks >= fragment * SECOND
    }

    method UpdateDuration(t: int)
      requires current.Some?
      modifies this`current
      ensures current == Some(Timed(old(current.value), t))
    {
      if t < current.value.start {
        return;
      }
      current := Some(current.value.(ticks := t - current.value.start));
    }

    /** Writes a frame to the current file, and notes it. */
    method WriteFrame(f: MpegtsFrame, data: seq<byte>) returns (ok: bool)
      requires Valid() && current.Some?
      modifies this`log, ts, writer.packet, f`cc, if ts.file == null then {} else {ts.file}
      ensures Valid() && ts.file == old(ts.file)
      ensures data == [] ==>
              && ok && f.cc == old(f.cc) && log == old(log) && ts.written == old(ts.written)
              && ts.sound == old(ts.sound)
      ensures ok && data != [] ==> Grew(f.Header(), data, old(ts.written), ts.written) && ts.sound == old(ts.sound)
      ensures !ok ==> !ts.sound
      ensures Continues(old(log), log, f.Header(), old(f.cc), f.cc)
    {
      hide TsMuxer.Valid, FramePackets, CountsOn;
      ghost var pks;
      ok, pks := ts.WriteFrame(f, data);
      if data != [] {
        ghost var a := Attempt(Written(f.Header(), old(f.cc), data, pks), ok);
        ContinuesBy(log, a, f.cc);
        LogSnoc(log, begun, a);
        log := log + [a];
      }
    }

    /** Writes the buffered audio to the current segment, which takes the time of the frame. */
    method FlushAudio(af: MpegtsFrame, ab: CodecBuffer) returns (ok: bool)
      requires Valid()
      modifies Footprint(), af`cc, ab
      ensures Valid() && ts == old(ts) && ts.file == old(ts.file) && Footprint() == old(Footprint())
      ensures old(current == None) ==> ok && ab.bytes == old(ab.bytes) && current == None
      ensures old(current == None || ab.bytes == []) ==>
                && ok && State() == old(State()) && af.cc == old(af.cc) && log == old(log)
                && ts.written == old(ts.written) && ab.bytes == old(ab.bytes)
                && (ts.file != null ==> ts.file.content == old(ts.file.content))
      ensures State() == old(State()).(current := current)
      ensures old(current.Some? && ab.bytes != []) ==> current == Some(Timed(old(current.value), af.pts))
      ensures old(current.Some?) ==> ab.bytes == if ok then [] else old(ab.bytes)
      ensures old(current.Some? && ab.bytes != []) && ok ==>
              Grew(af.Header(), old(ab.bytes), old(ts.written), ts.written)
      ensures if ok then ts.sound == old(ts.sound) else !ts.sound
      ensures Continues(old(log), log, af.Header(), old(af.cc), af.cc)
    {
      hide TsMuxer.Valid, FramePackets, CountsOn;
      if current == None {
        return true;
      }
      if |ab.bytes| <= 0 {
        return true;
      }
      UpdateDuration(af.pts);
      ok := WriteFrame(af, ab.bytes);
      if !ok {
        return;
      }
      ab.Free();
    }

    /** Writes a picture to the current segment. */
    method FlushVideo(vf: MpegtsFrame, vb: CodecBuffer) returns (ok: bool)
      requires Valid()
      modifies Footprint(), vf`cc, vb
      ensures Valid() && ts == old(ts) && ts.file == old(ts.file) && Footprint() == old(Footprint())
      ensures old(current == None) ==> ok && vb.bytes == old(vb.bytes) && current == None
      ensures State() == old(State()).(current := current)
      ensures old(current.Some?) ==>
              && current == Some(Timed(old(current.value), vf.dts))
              && vb.bytes == if ok then [] else old(vb.bytes)
      ensures old(current.Some? && vb.bytes != []) && ok ==>
              Grew(vf.Header(), old(vb.bytes), old(ts.written), ts.written)
      ensures if ok then ts.sound == old(ts.sound) else !ts.sound
      ensures Continues(old(log), log, vf.Header(), old(vf.cc), vf.cc)
    {
      hide TsMuxer.Valid, FramePackets, CountsOn;
      if current == None {
        return true;
      }
      UpdateDuration(vf.dts);
      ok := WriteFrame(vf, vb.bytes);
      if !ok {
        return;
      }
      vb.Free();
    }

    /** Closes the current segment, drops those that have left the window, and replaces the playlist. */
    method SegmentClose() returns (ok: bool, ghost io: CloseIo)
      requires Valid()
      modifies this, disk, ts
      ensures Valid() && ts == old(ts) && (ts.file == old(ts.file) || ts.file == null) && ts.written == old(ts.written)
      ensures log == old(log) && begun == old(begun)
      ensures State() == AfterClose(old(State()), io) && ok == CloseSucceeds(old(State()), io)
    {
      io := CloseIo(true, RefreshIo(true, 0, true));
      ghost var st := State();
      if current == None {
        return true, io;
      }
      var s := current.value;
      if s.ticks >= MIN_DURATION {
        segments := segments + [s];
        ts.Close();
        current := None;
        if * {
          return false, io.(renamed := false);
        }
        disk.files := disk.files + {s.path};
      } else {
        nextNo := nextNo - 1;
        ts.Close();
        current := None;
      }
      assert State() == Ended(st, true);
      ghost var r;
      ok, r := Shrink();
      io := io.(refresh := r);
    }

    method Shrink() returns (ok: bool, ghost io: RefreshIo)
      modifies this`segments, disk
      ensures State() == Shrunk(old(State()), io) && ok == Succeeds(io, segments)
    {
      ghost var st := State();
      var duration, removeIndex := 0, -1;
      var i := |segments| - 1;
      while i >= 0
        invariant -1 <= i < |segments| && removeIndex == -1 && duration >= 0
        invariant Dropped(segments, |segments|, 0, window) == Dropped(segments, i + 1, duration, window)
      {
        duration := duration + segments[i].ticks;
        if duration / SECOND > window {
          removeIndex := i;
          break;
        }
        i := i - 1;
      }
      var k := if removeIndex < 0 then 0 else removeIndex;
      assert k == Dropped(st.segments, |st.segments|, 0, window);
      var toRemove := TakeFirst(k);
      ok, io := RefreshM3u8();
      Unlink(toRemove);
    }

    method TakeFirst(k: nat) returns (toRemove: seq<Segment>)
      requires k <= |segments|
      modifies this`segments
      ensures toRemove == old(segments[..k]) && segments == old(segments[k..])
    {
      toRemove := [];
      var i := 0;
      while i < k && segments != []
        invariant 0 <= i <= k && segments == old(segments[i..]) && toRemove == old(segments[..i])
      {
        toRemove := toRemove + [segments[0]];
        segments := segments[1..];
        i := i + 1;
      }
    }

    method Unlink(toRemove: seq<Segment>)
      modifies disk`files
      ensures disk.files == old(disk.files) - Paths(toRemove)
    {
      var i := 0;
      while i < |toRemove|
        invariant 0 <= i <= |toRemove| && disk.files == old(disk.files) - Paths(toRemove[..i])
      {
        assert toRemove[..i + 1] == toRemove[..i] + [toRemove[i]];
        disk.files := disk.files - {toRemove[i].path};
        i := i + 1;
      }
      assert toRemove[..i] == toRemove;
    }

    /** Writes the playlist to a temporary file and renames it. */
    method RefreshM3u8() returns (ok: bool, ghost io: RefreshIo)
      modifies disk`playlists
      ensures State() == Refreshed(old(State()), io) && ok == Succeeds(io, segments)
    {
      io := RefreshIo(true, 0, true);
      if segments == [] {
        return true, io;
      }
      if * {
        return false, io.(created := false);
      }
      var lines;
      ok, lines := WriteM3u8();
      io := io.(lines := |lines|);
      if * {
        return false, io.(renamed := false);
      }
      assert lines == PlaylistOf(segments)[..|lines|];
      disk.playlists := disk.playlists[PlaylistPath(place) := lines];
    }

    /** Writes the lines one after the other, up to the first that fails. */
    method WriteM3u8() returns (ok: bool, lines: seq<Line>)
      requires segments != []
      ensures lines <= PlaylistOf(segments) && ok == (lines == PlaylistOf(segments))
    {
      hide Entries, MaxSeconds, EntryLines;
      ghost var all := PlaylistOf(segments);
      lines := [];
      if * {
        return false, lines;
      }
      lines := [Preamble];
      if * {
        return false, lines;
      }
      lines := lines + [MediaSequence(segments[0].no)];
      var target := TargetSeconds();
      if * {
        return false, lines;
      }
      lines := lines + [TargetDuration(target)];
      assert lines == all[..3];
      NoEntries(segments);
      var i := 0;
      while i < |segments|
        invariant 0 <= i <= |segments| && lines == all[..3] + Entries(segments[..i])
      {
        EntriesGrow(segments, i);
        var entry;
        ok, entry := WriteEntry(segments[i]);
        lines := lines + entry;
        if !ok {
          return;
        }
        i := i + 1;
      }
      assert segments[..i] == segments;
      ok := true;
    }

    method TargetSeconds() returns (target: nat)
      ensures target == MaxSeconds(segments) + 1
    {
      target := 0;
      var i := 0;
      while i < |segments|
        invariant 0 <= i <= |segments| && target == MaxSeconds(segments[..i])
      {
        assert segments[..i + 1][..i] == segments[..i];
        target := if segments[i].ticks / SECOND > target then segments[i].ticks / SECOND else target;
        i := i + 1;
      }
      assert segments[..i] == segments;
      target := target + 1;
    }

    method WriteEntry(s: Segment) returns (ok: bool, lines: seq<Line>)
      ensures lines <= EntryLines(s) && (if ok then lines == EntryLines(s) else lines != EntryLines(s))
    {
      lines := [];
      if s.discontinuity {
        if * {
          return false, lines;
        }
        lines := lines + [Discontinuity];
      }
      if * {
        return false, lines;
      }
      lines := lines + [ExtInf(s.ticks)];
      if * {
        return false, lines;
      }
      lines := lines + [Uri(s.uri)];
      ok := true;
    }
  }

  lemma NoEntries(segments: seq<Segment>)
    ensures Entries(segments[..0]) == []
  {}

  /** One frame was added to those of a file. */
  ghost predicate Grew(f: FrameHeader, data: seq<byte>, before: seq<Written>, after: seq<Written>) {
    && |after| == |before| + 1 && after[..|before|] == before
    && var w := after[|before|]; w.header == f && w.data == data
  }

  /** What was tried since `before` belongs to the PID of a frame, whose counter has kept pace. */
  ghost predicate Continues(before: seq<Attempt>, after: seq<Attempt>, f: FrameHeader, cc: nat, counter: nat) {
    && before <= after
    && (CountsOn(before, f.pid % 0x2000, cc) ==> CountsOn(after, f.pid % 0x2000, counter))
    && (forall pid: nat, other: nat :: pid != f.pid % 0x2000 && CountsOn(before, pid, other) ==>
        CountsOn(after, pid, other))
  }

  lemma ContinuesBy(log: seq<Attempt>, a: Attempt, counter: nat)
    requires FramePackets(a.frame.pks, a.frame.header, a.frame.cc)
    requires counter == a.frame.cc + |a.frame.pks| + if a.whole then 0 else 1
    ensures Continues(log, log + [a], a.frame.header, a.frame.cc, counter)
  {
    hide FramePackets, CountsOn;
    var pid := a.frame.header.pid % 0x2000;
    if CountsOn(log, pid, a.frame.cc) {
      AttemptCounts(log, a, pid, a.frame.cc);
    }
    forall other: nat, cc: nat | other != pid && CountsOn(log, other, cc)
      ensures CountsOn(log + [a], other, cc)
    {
      AttemptCounts(log, a, other, cc);
    }
  }

  lemma LogSnoc(log: seq<Attempt>, begun: nat, a: Attempt)
    requires begun <= |log|
    ensures var was, now := log[begun..], (log + [a])[begun..];
            && WholeFrames(now) == WholeFrames(was) + (if a.whole then [a.frame] else [])
            && PacketsOf(now) == PacketsOf(was) + a.frame.pks
            && AllPackets(WholeFrames(was) + [a.frame]) == AllPackets(WholeFrames(was)) + a.frame.pks
  {
    assert (log + [a])[begun..] == log[begun..] + [a];
    assert (log[begun..] + [a])[..|log[begun..]|] == log[begun..];
    assert (WholeFrames(log[begun..]) + [a.frame])[..|WholeFrames(log[begun..])|] == WholeFrames(log[begun..]);
  }

  lemma EntriesGrow(segments: seq<Segment>, i: nat)
    requires i < |segments|
    ensures Entries(segments[..i + 1]) == Entries(segments[..i]) + EntryLines(segments[i])
    ensures Entries(segments[..i + 1]) <= Entries(segments)
    decreases |segments| - i
  {
    hide EntryLines;
    assert segments[..i + 1][..i] == segments[..i];
    if i + 1 < |segments| {
      EntriesGrow(segments, i + 1);
    } else {
      assert segments[..i + 1] == segments;
    }
  }
}
