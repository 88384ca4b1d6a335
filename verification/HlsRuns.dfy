/** What the playlist promises a player, over every run of the muxer, failing file operations included. */
module HlsRuns {
  import opened Bytes
  import opened Pieces
  import opened HlsMuxer

  // ---------------------------------------------------------------- names of segments

  lemma {:induction false} DecimalIsInjective(i: nat, j: nat)
    requires Decimal(i) == Decimal(j)
    ensures i == j
    decreases i
  {
    var a, b := Decimal(i), Decimal(j);
    DecimalSize(i);
    DecimalSize(j);
    if i >= 10 && j >= 10 {
      assert a[..|a| - 1] == Decimal(i / 10) && b[..|b| - 1] == Decimal(j / 10);
      DecimalIsInjective(i / 10, j / 10);
      assert a[|a| - 1] == Digit(i % 10) && b[|b| - 1] == Digit(j % 10);
      DigitIsInjective(i % 10, j % 10);
    } else if i < 10 && j < 10 {
      assert a[0] == Digit(i) && b[0] == Digit(j);
      DigitIsInjective(i, j);
    }
  }

  lemma DigitIsInjective(i: nat, j: nat)
    requires i < 10 && j < 10 && Digit(i) == Digit(j)
    ensures i == j
  {
    assert forall k :: 0 <= k < 10 ==> "0123456789"[k] == ['0', '1', '2', '3', '4', '5', '6', '7', '8', '9'][k];
  }

  lemma {:induction false} DecimalSize(n: nat)
    ensures |Decimal(n)| >= 1 && (|Decimal(n)| == 1 <==> n < 10)
    decreases n
  {
    if n >= 10 {
      DecimalSize(n / 10);
    }
  }

  /** The numbers of the first n segments fit into the buffers of their names; what comes behind them
      may be cut off. */
  predicate NamesFit(stream: string, n: nat) {
    n <= 1 || |stream| + 1 + |Decimal(n - 1)| <= 127
  }

  /** The first n segments have different names. */
  ghost predicate DistinctNames(stream: string, n: nat) {
    forall i: nat, j: nat :: i < n && j < n && FileName(stream, i) == FileName(stream, j) ==> i == j
  }

  lemma {:induction false} DecimalGrows(i: nat, j: nat)
    requires i <= j
    ensures |Decimal(i)| <= |Decimal(j)|
    decreases j
  {
    if i >= 10 {
      DecimalGrows(i / 10, j / 10);
    } else {
      DecimalSize(j);
    }
  }

  lemma {:induction false} DecimalHasNoDot(n: nat)
    ensures forall k :: 0 <= k < |Decimal(n)| ==> Decimal(n)[k] != '.'
    decreases n
  {
    if n >= 10 {
      DecimalHasNoDot(n / 10);
    }
  }

  /** What a name that fits as far as its number begins with. */
  lemma NameStarts(stream: string, no: nat)
    requires |stream| + 1 + |Decimal(no)| <= 127
    ensures var name, k := FileName(stream, no), |stream| + 1 + |Decimal(no)|;
            k <= |name| && name[|stream| + 1..k] == Decimal(no) && (k < |name| ==> name[k] == '.')
                && (k < 127 ==> k < |name|)
  {
    var whole, name, k := stream + "-" + Decimal(no) + ".ts", FileName(stream, no), |stream| + 1 + |Decimal(no)|;
    assert name[|stream| + 1..k] == whole[|stream| + 1..k] == Decimal(no);
  }

  lemma FittingNamesDiffer(stream: string, i: nat, j: nat)
    requires i < j && |stream| + 1 + |Decimal(j)| <= 127
    ensures FileName(stream, i) != FileName(stream, j)
  {
    DecimalGrows(i, j);
    NameStarts(stream, i);
    NameStarts(stream, j);
    var a, b, k := FileName(stream, i), FileName(stream, j), |stream| + 1 + |Decimal(i)|;
    if |Decimal(i)| == |Decimal(j)| {
      if a == b {
        DecimalIsInjective(i, j);
      }
    } else {
      DecimalHasNoDot(j);
      assert b[k] == b[|stream| + 1..|stream| + 1 + |Decimal(j)|][|Decimal(i)|];
    }
  }

  /** A number that does not fit loses its last digit, and with it what tells the segment from another. */
  lemma LongNamesCollide(stream: string, no: nat)
    requires |stream| + 1 + |Decimal(no)| > 127
    ensures FileName(stream, no) == FileName(stream, no / 10)
  {
    var a, b := stream + "-" + Decimal(no) + ".ts", stream + "-" + Decimal(no / 10) + ".ts";
    DecimalSize(no);
    DecimalSize(no / 10);
    assert a[..127] == b[..127] by {
      if no >= 10 {
        assert forall k :: 0 <= k < |Decimal(no / 10)| ==> Decimal(no)[k] == Decimal(no / 10)[k];
      }
    }
  }

  predicate EndsIn(path: string, uri: string) {
    |uri| <= |path| && path[|path| - |uri|..] == uri
  }

  lemma FullPathEnds(place: Place, uri: string)
    ensures EndsIn(FullPath(place, uri), uri)
  {
    var dir := place.path + "/" + place.app + "/";
    assert FullPath(place, uri) == dir + uri && (dir + uri)[|dir|..] == uri;
  }

  lemma {:induction false} DecimalHasDigitsOnly(n: nat)
    ensures forall k :: 0 <= k < |Decimal(n)| ==> Decimal(n)[k] != '-' && Decimal(n)[k] != 's'
    decreases n
  {
    if n >= 10 {
      DecimalHasDigitsOnly(n / 10);
    }
  }

  lemma SuffixAt(path: string, uri: string, k: nat)
    requires EndsIn(path, uri) && k < |uri|
    ensures path[|path| - |uri| + k] == uri[k]
  {
    assert path[|path| - |uri|..][k] == uri[k];
  }

  lemma SuffixOfSuffix(path: string, a: string, b: string)
    requires EndsIn(path, a) && EndsIn(path, b) && |a| <= |b|
    ensures EndsIn(b, a)
  {
    assert path[|path| - |b|..][|b| - |a|..] == path[|path| - |a|..];
  }

  /** A path ends in the name of one segment only, so that segments have different files in whatever
      directories they are. */
  lemma OneNameEnds(stream: string, i: nat, j: nat, path: string)
    requires |stream| + 1 + |Decimal(i)| <= 127 && |stream| + 1 + |Decimal(j)| <= 127
    requires EndsIn(path, FileName(stream, i)) && EndsIn(path, FileName(stream, j))
    ensures i == j
  {
    hide FileName, Decimal;
    var a, b := FileName(stream, i), FileName(stream, j);
    if |a| == |b| {
      assert a == b;
      if i < j {
        FittingNamesDiffer(stream, i, j);
      } else if j < i {
        FittingNamesDiffer(stream, j, i);
      }
    } else if |a| < |b| {
      SuffixOfSuffix(path, a, b);
      ShorterNameDoesNotEnd(stream, i, j);
    } else {
      SuffixOfSuffix(path, b, a);
      ShorterNameDoesNotEnd(stream, j, i);
    }
  }

  /** Its hyphen would be a digit, or its last letter would. */
  lemma ShorterNameDoesNotEnd(stream: string, i: nat, j: nat)
    requires |stream| + 1 + |Decimal(i)| <= 127 && |stream| + 1 + |Decimal(j)| <= 127
    requires |FileName(stream, i)| < |FileName(stream, j)|
    ensures !EndsIn(FileName(stream, j), FileName(stream, i))
  {
    hide Decimal, EndsIn;
    DecimalHasDigitsOnly(j);
    var a, b := FileName(stream, i), FileName(stream, j);
    var d := |b| - |a|;
    var whole := stream + "-" + Decimal(j) + ".ts";
    assert a == stream + "-" + Decimal(i) + ".ts" && a[|stream|] == '-' && a[|a| - 1] == 's';
    if EndsIn(b, a) {
      if b == whole {
        assert whole[|stream| + d] == Decimal(j)[d - 1];
        SuffixAt(b, a, |stream|);
      } else {
        assert |b| == 127 && b[126] == whole[126];
        assert |stream| + |Decimal(j)| <= 126;
        assert whole[126] == (Decimal(j) + ".ts")[126 - |stream| - 1];
        SuffixAt(b, a, |a| - 1);
      }
    }
  }

  /** Names repeat as soon as a number does not fit into its buffer, and not before. */
  lemma NamesDistinctIff(stream: string, n: nat)
    ensures DistinctNames(stream, n) <==> NamesFit(stream, n)
  {
    hide FileName;
    if NamesFit(stream, n) {
      forall i: nat, j: nat | i < j < n
        ensures FileName(stream, i) != FileName(stream, j)
      {
        DecimalGrows(j, n - 1);
        FittingNamesDiffer(stream, i, j);
      }
    } else {
      LongNamesCollide(stream, n - 1);
      assert (n - 1) / 10 < n - 1;
    }
  }

  // ---------------------------------------------------------------- durations

  /** The target duration is above every duration, and no less than it has to be. */
  lemma {:induction false} TargetExceedsAll(segments: seq<Segment>)
    ensures forall i :: 0 <= i < |segments| ==> segments[i].ticks < (MaxSeconds(segments) + 1) * SECOND
    ensures segments != [] ==> exists i :: 0 <= i < |segments| && segments[i].ticks / SECOND == MaxSeconds(segments)
    decreases |segments|
  {
    if segments != [] {
      var front, n := segments[..|segments| - 1], |segments| - 1;
      TargetExceedsAll(front);
      assert forall i :: 0 <= i < n ==> segments[i] == front[i];
      if n > 0 && segments[n].ticks / SECOND <= MaxSeconds(front) {
        var i :| 0 <= i < |front| && front[i].ticks / SECOND == MaxSeconds(front);
        assert segments[i].ticks / SECOND == MaxSeconds(segments);
      } else {
        assert segments[n].ticks / SECOND == MaxSeconds(segments);
      }
    }
  }

  function Ticks(segments: seq<Segment>): nat {
    if segments == [] then 0 else segments[0].ticks + Ticks(segments[1..])
  }

  /** Keeping the segments from k on: all but the first of them fit into the window, and if any are
      dropped, those that are kept are longer than the window. */
  ghost predicate KeepsWindow(segments: seq<Segment>, k: nat, window: int) {
    && k < |segments| && Ticks(segments[k + 1..]) / SECOND <= window
    && (k > 0 ==> Ticks(segments[k..]) / SECOND > window)
  }

  lemma TicksFrom(segments: seq<Segment>, n: nat)
    requires n < |segments|
    ensures Ticks(segments[n..]) == segments[n].ticks + Ticks(segments[n + 1..])
  {
    assert segments[n..][1..] == segments[n + 1..];
  }

  lemma {:induction false} TicksShrink(segments: seq<Segment>, i: nat, j: nat)
    requires i <= j <= |segments|
    ensures Ticks(segments[j..]) <= Ticks(segments[i..])
    decreases j - i
  {
    if i < j {
      TicksFrom(segments, i);
      TicksShrink(segments, i + 1, j);
    }
  }

  lemma {:induction false} DroppedKeeps(segments: seq<Segment>, n: nat, window: int)
    requires 0 < |segments| && n <= |segments| && Ticks(segments[n..]) / SECOND <= window
    ensures KeepsWindow(segments, Dropped(segments, n, Ticks(segments[n..]), window), window)
    decreases n
  {
    if n == 0 {
      TicksShrink(segments, 0, 1);
    } else {
      TicksFrom(segments, n - 1);
      if Ticks(segments[n - 1..]) / SECOND <= window {
        DroppedKeeps(segments, n - 1, window);
      }
    }
  }

  /** The segments that are dropped are determined by the window. */
  lemma DroppedIffWindow(segments: seq<Segment>, k: nat, window: nat)
    requires segments != []
    ensures KeepsWindow(segments, k, window) <==> k == Dropped(segments, |segments|, 0, window)
  {
    assert segments[|segments|..] == [];
    var d := Dropped(segments, |segments|, 0, window);
    DroppedKeeps(segments, |segments|, window);
    if KeepsWindow(segments, k, window) {
      if k < d {
        TicksShrink(segments, k + 1, d);
      } else if d < k {
        TicksShrink(segments, d + 1, k);
      }
    }
  }

  // ---------------------------------------------------------------- runs

  datatype Event =
    | Configure(path: string, fragment: int, window: int)
    | Open(start: int, openIo: OpenIo)
    | SequenceHeader
    | Flush(time: int)
    | Close(closeIo: CloseIo)

  function Step(st: MuxerState, e: Event): MuxerState
    requires st.current.Some? ==> st.nextNo > 0
  {
    match e
    case Configure(path, f, w) => st.(place := st.place.(path := path), fragment := f, window := w)
    case Open(start, io) => AfterOpen(st, start, io)
    case SequenceHeader => if st.current == None then st
        else st.(current := Some(st.current.value.(discontinuity := true)))
    case Flush(t) => if st.current == None then st else st.(current := Some(Timed(st.current.value, t)))
    case Close(io) => AfterClose(st, io)
  }

  function Initial(place: Place): MuxerState {
    MuxerState(place, 0, 0, 0, None, [], {}, map[])
  }

  /** The state after the events, the numbers of the segments whose file could not be renamed, and
      whether the playlist on the disk is older than the last change; that of another directory is. */
  datatype Result = Result(st: MuxerState, lost: set<nat>, stale: bool)

  function Next(r: Result, e: Event): Result
    requires r.st.current.Some? ==> r.st.nextNo > 0
  {
    Result(Step(r.st, e), if LosesFile(r.st, e) then r.lost + {r.st.current.value.no} else r.lost,
           if Refreshes(r.st, e) then !(e.closeIo.refresh.created && e.closeIo.refresh.renamed)
           else r.stale || (e.Configure? && e.path != r.st.place.path))
  }

  predicate LosesFile(st: MuxerState, e: Event) {
    e.Close? && st.current.Some? && Stops(st, e.closeIo.renamed)
  }

  predicate Refreshes(st: MuxerState, e: Event)
    requires st.current.Some? ==> st.nextNo > 0
  {
    e.Close? && st.current.Some? && !Stops(st, e.closeIo.renamed) && Ended(st, e.closeIo.renamed).segments != []
  }

  ghost predicate IsSegment(stream: string, s: Segment, no: nat) {
    s.no == no && s.uri == FileName(stream, no) && EndsIn(s.path, s.uri) && s.ticks >= MIN_DURATION
  }

  /** The number that the next listed segment will have. */
  function Upcoming(st: MuxerState): nat {
    if st.current.Some? then st.current.value.no else st.nextNo
  }

  /** Listed segments are numbered consecutively, and the current one is the next. */
  ghost predicate Numbered(st: MuxerState) {
    && (forall i :: 0 <= i < |st.segments| ==> IsSegment(st.place.stream, st.segments[i], st.segments[0].no + i))
    && (st.segments != [] ==> st.segments[0].no + |st.segments| == Upcoming(st))
    && (st.current.Some? ==>
          && st.nextNo == st.current.value.no + 1
          && st.current.value.uri == FileName(st.place.stream, st.current.value.no)
          && EndsIn(st.current.value.path, st.current.value.uri))
  }

  ghost predicate HeldBy(segments: seq<Segment>, lost: set<nat>, path: string) {
    exists i :: 0 <= i < |segments| && segments[i].path == path && segments[i].no !in lost
  }

  /** The disk holds the files of the listed segments, except those that could not be renamed. */
  ghost predicate FilesAreListed(r: Result) {
    forall path :: path in r.st.files <==> HeldBy(r.st.segments, r.lost, path)
  }

  ghost predicate LostAreOld(r: Result) {
    forall no :: no in r.lost ==> no < Upcoming(r.st)
  }

  ghost predicate Lists(lines: seq<Line>, uri: string) {
    Uri(uri) in lines
  }

  ghost predicate IsListed(segments: seq<Segment>, uri: string) {
    exists i :: 0 <= i < |segments| && segments[i].uri == uri
  }

  /** What a playlist file holds. */
  ghost predicate OnDiskAt(st: MuxerState, path: string, lines: seq<Line>) {
    path in st.playlists && st.playlists[path] == lines
  }

  ghost predicate OnDisk(st: MuxerState, lines: seq<Line>) {
    OnDiskAt(st, PlaylistPath(st.place), lines)
  }

  /** The media sequence of a playlist on the disk, in whatever directory, is not ahead of the muxer's. */
  ghost predicate PlaylistsFollow(st: MuxerState) {
    forall path, lines: seq<Line> :: OnDiskAt(st, path, lines) && |lines| >= 2 ==>
      st.segments != [] && lines[1].MediaSequence? && lines[1].no <= st.segments[0].no
  }

  /** The playlist on the disk, if it is not stale, lists only segments that the muxer still lists. */
  ghost predicate IsUpToDate(r: Result) {
    !r.stale ==>
      forall lines: seq<Line>, uri :: OnDisk(r.st, lines) && Lists(lines, uri) ==> IsListed(r.st.segments, uri)
  }

  ghost predicate DiskFollows(r: Result) {
    PlaylistsFollow(r.st) && IsUpToDate(r)
  }

  /** What holds whatever the segments are called. */
  ghost predicate Ordered(r: Result) {
    Numbered(r.st) && LostAreOld(r) && DiskFollows(r)
  }

  // ---- listing the current segment

  lemma ListedKeeps(r: Result, renamed: bool)
    requires Ordered(r) && r.st.current.Some? && r.st.current.value.ticks >= MIN_DURATION
    ensures Ordered(Listed(r, renamed))
  {
    hide FileName, FullPath, PlaylistPath, Lists, EndsIn;
    var e := Listed(r, renamed);
    var before, after := r.st.segments, e.st.segments;
    assert after[|before|] == r.st.current.value && forall i :: 0 <= i < |before| ==> after[i] == before[i];
    assert Numbered(e.st);
    assert PlaylistsFollow(e.st) by {
      assert forall path, lines: seq<Line> :: OnDiskAt(e.st, path, lines) ==> OnDiskAt(r.st, path, lines);
    }
    forall lines: seq<Line>, uri | OnDisk(e.st, lines) && Lists(lines, uri) && !e.stale
      ensures IsListed(after, uri)
    {
      assert OnDisk(r.st, lines);
      var i :| 0 <= i < |before| && before[i].uri == uri;
      assert after[i].uri == uri;
    }
  }

  function Listed(r: Result, renamed: bool): Result
    requires r.st.current.Some? && r.st.nextNo > 0
  {
    Result(Ended(r.st, renamed), if renamed then r.lost else r.lost + {r.st.current.value.no}, r.stale)
  }

  lemma ListedFiles(r: Result, renamed: bool)
    requires Ordered(r) && FilesAreListed(r) && r.st.current.Some? && r.st.current.value.ticks >= MIN_DURATION
    ensures FilesAreListed(Listed(r, renamed))
  {
    hide FileName, FullPath, PlaylistPath, Lists, HeldBy, DiskFollows;
    var e, s := Listed(r, renamed), r.st.current.value;
    forall path
      ensures path in e.st.files <==> HeldBy(e.st.segments, e.lost, path)
    {
      HeldAfterListing(r.st.segments, s, r.lost, e.lost, path);
    }
  }

  lemma HeldAfterListing(before: seq<Segment>, s: Segment, lost: set<nat>, lost': set<nat>, path: string)
    requires s.no !in lost && (lost' == lost || lost' == lost + {s.no})
    requires forall i :: 0 <= i < |before| ==> before[i].no < s.no
    ensures HeldBy(before + [s], lost', path) <==> HeldBy(before, lost, path) || (path == s.path && lost' == lost)
  {
    var after := before + [s];
    assert after[|before|] == s && forall i :: 0 <= i < |before| ==> after[i] == before[i];
    if HeldBy(before, lost, path) {
      var i :| 0 <= i < |before| && before[i].path == path && before[i].no !in lost;
      assert after[i].path == path && after[i].no !in lost';
    }
    if HeldBy(after, lost', path) {
      var i :| 0 <= i < |after| && after[i].path == path && after[i].no !in lost';
      if i < |before| {
        assert before[i].path == path && before[i].no !in lost;
      }
    }
  }

  // ---- dropping segments that left the window

  /** The path of a listed segment ends in no other segment's name. */
  lemma OnlyItsOwnPathEnds(st: MuxerState, n: nat, i: nat, j: nat)
    requires NamesFit(st.place.stream, n) && Upcoming(st) <= n && Numbered(st)
    requires i < |st.segments| && j < |st.segments| && EndsIn(st.segments[j].path, st.segments[i].uri)
    ensures i == j
  {
    hide FileName, EndsIn, Decimal;
    if i != j {
      var a, b := st.segments[i], st.segments[j];
      assert IsSegment(st.place.stream, a, st.segments[0].no + i);
      assert IsSegment(st.place.stream, b, st.segments[0].no + j);
      DecimalGrows(a.no, n - 1);
      DecimalGrows(b.no, n - 1);
      OneNameEnds(st.place.stream, a.no, b.no, b.path);
    }
  }

  /** Different listed segments have different files. */
  lemma ListedPathsDiffer(st: MuxerState, n: nat, i: nat, j: nat)
    requires NamesFit(st.place.stream, n) && Upcoming(st) <= n && Numbered(st)
    requires i < j < |st.segments|
    ensures st.segments[i].path != st.segments[j].path
  {
    hide FileName, EndsIn, NamesFit;
    if st.segments[i].path == st.segments[j].path {
      assert IsSegment(st.place.stream, st.segments[i], st.segments[0].no + i);
      OnlyItsOwnPathEnds(st, n, i, j);
    }
  }

  lemma PathsOf(segments: seq<Segment>, path: string)
    ensures path in Paths(segments) <==> exists i :: 0 <= i < |segments| && segments[i].path == path
  {
    if path in Paths(segments) {
      var s :| s in segments && s.path == path;
      var i :| 0 <= i < |segments| && segments[i] == s;
    }
    if i :| 0 <= i < |segments| && segments[i].path == path {
      assert segments[i] in segments;
    }
  }

  lemma HeldAfterDropping(st: MuxerState, lost: set<nat>, n: nat, k: nat, path: string)
    requires NamesFit(st.place.stream, n) && Upcoming(st) <= n && Numbered(st) && k <= |st.segments|
    ensures HeldBy(st.segments[k..], lost, path) <==>
            HeldBy(st.segments, lost, path) && path !in Paths(st.segments[..k])
  {
    hide NamesFit, Numbered, Paths;
    var segments, kept := st.segments, st.segments[k..];
    PathsOf(segments[..k], path);
    if HeldBy(kept, lost, path) {
      var i :| 0 <= i < |kept| && kept[i].path == path && kept[i].no !in lost;
      assert segments[k + i] == kept[i];
      if j :| 0 <= j < k && segments[..k][j].path == path {
        ListedPathsDiffer(st, n, j, k + i);
        assert false;
      }
    }
    if HeldBy(segments, lost, path) && path !in Paths(segments[..k]) {
      var i :| 0 <= i < |segments| && segments[i].path == path && segments[i].no !in lost;
      if i < k {
        assert false;
      }
      assert kept[i - k] == segments[i];
    }
  }

  lemma DroppingKeeps(st: MuxerState, k: nat)
    requires Numbered(st) && k < |st.segments|
    ensures Numbered(st.(segments := st.segments[k..], files := st.files - Paths(st.segments[..k])))
  {
    hide Paths, IsSegment;
    var segments, kept := st.segments, st.segments[k..];
    FirstNumber(st, k);
    forall i | 0 <= i < |kept|
      ensures IsSegment(st.place.stream, kept[i], kept[0].no + i)
    {
      assert IsSegment(st.place.stream, segments[k + i], segments[0].no + (k + i));
    }
  }

  lemma DroppingFiles(r: Result, k: nat)
    requires NamesFit(r.st.place.stream, Upcoming(r.st))
    requires Numbered(r.st) && FilesAreListed(r) && k <= |r.st.segments|
    ensures FilesAreListed(r.(st := r.st.(segments := r.st.segments[k..],
            files := r.st.files - Paths(r.st.segments[..k]))))
  {
    hide NamesFit, Paths, HeldBy, Numbered;
    forall path {
      HeldAfterDropping(r.st, r.lost, Upcoming(r.st), k, path);
    }
  }

  // ---- the playlist

  lemma {:induction false} EntriesList(segments: seq<Segment>, uri: string)
    ensures Lists(Entries(segments), uri) <==> IsListed(segments, uri)
    decreases |segments|
  {
    if segments != [] {
      var front, s := segments[..|segments| - 1], segments[|segments| - 1];
      EntriesList(front, uri);
      assert Lists(EntryLines(s), uri) <==> s.uri == uri;
      if IsListed(segments, uri) {
        var i :| 0 <= i < |segments| && segments[i].uri == uri;
        assert i < |front| ==> front[i].uri == uri;
      }
      if IsListed(front, uri) {
        var i :| 0 <= i < |front| && front[i].uri == uri;
        assert segments[i].uri == uri;
      }
      assert s.uri == uri ==> segments[|segments| - 1].uri == uri;
    }
  }

  /** A complete playlist lists exactly the segments. */
  lemma PlaylistLists(segments: seq<Segment>, uri: string)
    requires segments != []
    ensures Lists(PlaylistOf(segments), uri) <==> IsListed(segments, uri)
  {
    EntriesList(segments, uri);
  }

  lemma PrefixLists(some: seq<Line>, all: seq<Line>, uri: string)
    requires some <= all && Lists(some, uri)
    ensures Lists(all, uri)
  {}

  lemma DroppedIsLess(segments: seq<Segment>, n: nat, sum: nat, window: int)
    requires n <= |segments|
    ensures n > 0 ==> Dropped(segments, n, sum, window) < n
    decreases n
  {}

  function Replaced(r: Result, io: RefreshIo): Result {
    Result(Shrunk(r.st, io), r.lost, if r.st.segments != [] then !(io.created && io.renamed) else r.stale)
  }

  /** Replacing the playlist of the segments that are kept. */
  lemma ShrinkingKeeps(r: Result, io: RefreshIo)
    requires Ordered(r)
    ensures Ordered(Replaced(r, io))
  {
    hide FileName, FullPath, PlaylistPath, Paths, IsSegment, PlaylistOf;
    var st, e := r.st, Replaced(r, io);
    var k := Dropped(st.segments, |st.segments|, 0, st.window);
    DroppedIsLess(st.segments, |st.segments|, 0, st.window);
    var kept := st.segments[k..];
    assert e.st.segments == kept;
    if st.segments == [] {
      assert kept == st.segments;
      assert Paths([]) == {} by { NoPaths(); }
      assert e.st == st;
    } else {
      FirstNumber(st, k);
      PlaylistStarts(kept);
      forall path, lines: seq<Line> | OnDiskAt(e.st, path, lines) && |lines| >= 2
        ensures lines[1].MediaSequence? && lines[1].no <= kept[0].no
      {
        assert OnDiskAt(st, path, lines) || lines <= PlaylistOf(kept);
      }
      forall lines: seq<Line>, uri | OnDisk(e.st, lines) && Lists(lines, uri) && !e.stale
        ensures IsListed(kept, uri)
      {
        assert lines <= PlaylistOf(kept);
        PrefixLists(lines, PlaylistOf(kept), uri);
        PlaylistLists(kept, uri);
      }
      DroppingKeeps(st, k);
      SameNumbering(st, e.st, k);
    }
  }

  lemma ShrinkingFiles(r: Result, io: RefreshIo)
    requires Ordered(r) && FilesAreListed(r) && NamesFit(r.st.place.stream, Upcoming(r.st))
    ensures FilesAreListed(Replaced(r, io))
  {
    hide HeldBy, Numbered, NamesFit, Paths, LostAreOld, DiskFollows;
    DroppingFiles(r, Dropped(r.st.segments, |r.st.segments|, 0, r.st.window));
  }

  lemma NoPaths()
    ensures Paths([]) == {}
  {}

  lemma FirstNumber(st: MuxerState, k: nat)
    requires Numbered(st) && k < |st.segments|
    ensures st.segments[k..][0].no == st.segments[0].no + k
  {
    hide FileName, FullPath;
    assert IsSegment(st.place.stream, st.segments[k], st.segments[0].no + k);
  }

  lemma PlaylistStarts(segments: seq<Segment>)
    requires segments != []
    ensures |PlaylistOf(segments)| >= 2 && PlaylistOf(segments)[1] == MediaSequence(segments[0].no)
  {}

  lemma SameNumbering(st: MuxerState, e: MuxerState, k: nat)
    requires k < |st.segments|
    requires Numbered(st.(segments := st.segments[k..], files := st.files - Paths(st.segments[..k])))
    requires e.segments == st.segments[k..] && e.place == st.place && e.current == st.current && e.nextNo == st.nextNo
    ensures Numbered(e)
  {
    hide IsSegment;
  }

  lemma ShortKeeps(r: Result)
    requires Ordered(r) && r.st.current.Some? && r.st.current.value.ticks < MIN_DURATION
    ensures var e := r.(st := Ended(r.st, true));
            Ordered(e) && Upcoming(e.st) == Upcoming(r.st) && (FilesAreListed(r) ==> FilesAreListed(e))
  {
    hide IsSegment, HeldBy, Lists, IsListed, FileName, FullPath, PlaylistPath;
    var e := r.(st := Ended(r.st, true));
    SameDisk(r, e);
  }

  /** Nothing is changed of what is on the disk, of the list, or of the directory. */
  lemma SameDisk(r: Result, e: Result)
    requires DiskFollows(r) && e.st.playlists == r.st.playlists && e.st.segments == r.st.segments
    requires e.stale || (e.stale == r.stale && e.st.place == r.st.place)
    ensures DiskFollows(e)
  {
    hide Lists, IsListed, PlaylistPath;
    assert forall path, lines: seq<Line> :: OnDiskAt(e.st, path, lines) <==> OnDiskAt(r.st, path, lines);
  }

  lemma CloseKeeps(r: Result, io: CloseIo)
    requires Ordered(r)
    ensures Ordered(Next(r, Close(io))) && Upcoming(r.st) <= Upcoming(Next(r, Close(io)).st)
  {
    hide Ordered, Shrunk;
    NextNumber(r);
    if r.st.current.Some? {
      if r.st.current.value.ticks >= MIN_DURATION {
        ListedKeeps(r, io.renamed);
        if io.renamed {
          ShrinkingKeeps(Listed(r, true), io.refresh);
        }
      } else {
        ShortKeeps(r);
        ShrinkingKeeps(r.(st := Ended(r.st, true)), io.refresh);
      }
      ShrunkNumbers(Ended(r.st, io.renamed), io.refresh);
    }
  }

  lemma CloseFiles(r: Result, io: CloseIo)
    requires Ordered(r) && FilesAreListed(r) && NamesFit(r.st.place.stream, Upcoming(Next(r, Close(io)).st))
    ensures FilesAreListed(Next(r, Close(io)))
  {
    hide Ordered, FilesAreListed, Shrunk, NamesFit;
    NextNumber(r);
    if r.st.current.Some? {
      ShrunkNumbers(Ended(r.st, io.renamed), io.refresh);
      if r.st.current.value.ticks >= MIN_DURATION {
        ListedKeeps(r, io.renamed);
        ListedFiles(r, io.renamed);
        if io.renamed {
          ShrinkingFiles(Listed(r, true), io.refresh);
        }
      } else {
        ShortKeeps(r);
        ShrinkingFiles(r.(st := Ended(r.st, true)), io.refresh);
      }
    }
  }

  lemma NextNumber(r: Result)
    requires Ordered(r)
    ensures r.st.current.Some? ==> r.st.nextNo == Upcoming(r.st) + 1
  {}

  lemma ShrunkNumbers(st: MuxerState, io: RefreshIo)
    ensures Shrunk(st, io).nextNo == st.nextNo && Shrunk(st, io).current == st.current
            && Shrunk(st, io).place == st.place
  {}

  lemma OtherKeeps(r: Result, e: Event)
    requires Ordered(r) && !e.Close?
    ensures var q := Next(r, e);
            && Ordered(q) && Upcoming(q.st) == Upcoming(r.st) && SameStream(q.st, r.st)
            && (FilesAreListed(r) ==> FilesAreListed(q))
  {
    hide HeldBy, Lists, IsListed, FileName, FullPath, PlaylistPath, EndsIn, DiskFollows;
    var q := Next(r, e);
    SameDisk(r, q);
    if e.Open? {
      FullPathEnds(r.st.place, FileName(r.st.place.stream, r.st.nextNo));
    }
  }

  predicate SameStream(a: MuxerState, b: MuxerState) {
    a.place.app == b.place.app && a.place.stream == b.place.stream
  }

  lemma StepKeeps(r: Result, e: Event)
    requires Ordered(r)
    ensures var q := Next(r, e); Ordered(q) && Upcoming(r.st) <= Upcoming(q.st) && SameStream(q.st, r.st)
  {
    hide Ordered, AfterClose;
    NextNumber(r);
    if e.Close? {
      CloseKeeps(r, e.closeIo);
      ClosePlace(r.st, e.closeIo);
    } else {
      OtherKeeps(r, e);
    }
  }

  lemma StepFiles(r: Result, e: Event)
    requires Ordered(r) && FilesAreListed(r) && NamesFit(r.st.place.stream, Upcoming(Next(r, e).st))
    ensures FilesAreListed(Next(r, e))
  {
    hide Ordered, FilesAreListed, AfterClose, NamesFit;
    if e.Close? {
      CloseFiles(r, e.closeIo);
    } else {
      OtherKeeps(r, e);
    }
  }

  lemma ClosePlace(st: MuxerState, io: CloseIo)
    requires st.current.Some? ==> st.nextNo > 0
    ensures AfterClose(st, io).place == st.place
  {}

  lemma InitialInvariant(place: Place)
    ensures Ordered(Result(Initial(place), {}, false)) && FilesAreListed(Result(Initial(place), {}, false))
  {}

  ghost predicate WellFormed(r: Result) {
    r.st.current.Some? ==> r.st.nextNo > 0
  }

  /** Any run, from the start of the server on. */
  function Run(place: Place, es: seq<Event>): (r: Result)
    ensures WellFormed(r)
    decreases |es|
  {
    if es == [] then Result(Initial(place), {}, false)
    else
      var r := Run(place, es[..|es| - 1]);
      StepWellFormed(r, es[|es| - 1]);
      Next(r, es[|es| - 1])
  }

  lemma StepWellFormed(r: Result, e: Event)
    requires WellFormed(r)
    ensures WellFormed(Next(r, e))
  {}

  lemma {:induction false} RunKeeps(place: Place, es: seq<Event>)
    ensures Ordered(Run(place, es)) && SameStream(Run(place, es).st, Initial(place))
    decreases |es|
  {
    hide Ordered, Next;
    if es == [] {
      InitialInvariant(place);
    } else {
      RunKeeps(place, es[..|es| - 1]);
      StepKeeps(Run(place, es[..|es| - 1]), es[|es| - 1]);
    }
  }

  lemma {:induction false} RunFiles(place: Place, es: seq<Event>)
    requires NamesFit(place.stream, Upcoming(Run(place, es).st))
    ensures FilesAreListed(Run(place, es))
    decreases |es|
  {
    hide Ordered, FilesAreListed, Next, NamesFit;
    if es == [] {
      InitialInvariant(place);
    } else {
      var r := Run(place, es[..|es| - 1]);
      RunKeeps(place, es[..|es| - 1]);
      StepKeeps(r, es[|es| - 1]);
      FewerNames(place.stream, Upcoming(r.st), Upcoming(Run(place, es).st));
      RunFiles(place, es[..|es| - 1]);
      StepFiles(r, es[|es| - 1]);
    }
  }

  lemma FewerNames(stream: string, m: nat, n: nat)
    requires m <= n && NamesFit(stream, n)
    ensures NamesFit(stream, m)
  {
    if m > 1 {
      DecimalGrows(m - 1, n - 1);
    }
  }

  // ---------------------------------------------------------------- the promises

  /** The segments that have been listed so far, dropped ones included, are those below this number. */
  function ListedSoFar(place: Place, es: seq<Event>): nat {
    Upcoming(Run(place, es).st)
  }

  /** A playlist that is not stale names only files that are there, in its directory, or could not be
      renamed. */
  ghost predicate Safe(r: Result) {
    forall lines: seq<Line>, uri :: OnDisk(r.st, lines) && Lists(lines, uri) && !r.stale ==>
      FullPath(r.st.place, uri) in r.st.files || NamesLost(r.st.place.stream, r.lost, uri)
  }

  ghost predicate NamesLost(stream: string, lost: set<nat>, uri: string) {
    exists no :: no in lost && uri == FileName(stream, no)
  }

  /** The listed segments were opened in the directory that is configured now. */
  ghost predicate InOneDirectory(st: MuxerState) {
    forall i :: 0 <= i < |st.segments| ==> st.segments[i].path == FullPath(st.place, st.segments[i].uri)
  }

  /** Over every run: the files of the listed segments are on the disk, those that were dropped are not,
      and a playlist that is not stale names only files that are there or could not be renamed, unless it is
      in another directory than they are. */
  lemma PlaylistIsSafe(place: Place, es: seq<Event>)
    requires NamesFit(place.stream, ListedSoFar(place, es)) && InOneDirectory(Run(place, es).st)
    ensures Safe(Run(place, es))
  {
    hide FileName, FullPath, PlaylistPath, Run, LostAreOld, OnDisk, Lists, NamesFit, EndsIn;
    RunKeeps(place, es);
    RunFiles(place, es);
    var r := Run(place, es);
    var segments := r.st.segments;
    forall lines: seq<Line>, uri | OnDisk(r.st, lines) && Lists(lines, uri) && !r.stale
      ensures FullPath(r.st.place, uri) in r.st.files || NamesLost(r.st.place.stream, r.lost, uri)
    {
      assert IsListed(segments, uri);
      var i :| 0 <= i < |segments| && segments[i].uri == uri;
      assert IsSegment(place.stream, segments[i], segments[0].no + i);
      if segments[i].no !in r.lost {
        assert HeldBy(segments, r.lost, FullPath(r.st.place, uri));
      }
    }
  }

  /** A complete playlist of the last change, when every file could be renamed, is safe exactly when all it
      lists was opened in its directory. */
  lemma CompleteIsSafeIff(place: Place, es: seq<Event>)
    requires NamesFit(place.stream, ListedSoFar(place, es))
    requires var r := Run(place, es);
             r.st.segments != [] && !r.stale && r.lost == {} && OnDisk(r.st, PlaylistOf(r.st.segments))
    ensures Safe(Run(place, es)) <==> InOneDirectory(Run(place, es).st)
  {
    hide FileName, FullPath, PlaylistPath, PlaylistOf, Run, LostAreOld, OnDisk, Lists, NamesFit, EndsIn, Numbered;
    hide Upcoming;
    if InOneDirectory(Run(place, es).st) {
      PlaylistIsSafe(place, es);
    } else {
      RunKeeps(place, es);
      RunFiles(place, es);
      var r := Run(place, es);
      var i :| 0 <= i < |r.st.segments| && r.st.segments[i].path != FullPath(r.st.place, r.st.segments[i].uri);
      var uri := r.st.segments[i].uri;
      PlaylistLists(r.st.segments, uri);
      if FullPath(r.st.place, uri) in r.st.files {
        var j :| 0 <= j < |r.st.segments| && r.st.segments[j].path == FullPath(r.st.place, uri)
                 && r.st.segments[j].no !in r.lost;
        FullPathEnds(r.st.place, uri);
        OnlyItsOwnPathEnds(r.st, Upcoming(r.st), i, j);
        assert false;
      }
      assert !NamesLost(r.st.place.stream, r.lost, uri);
    }
  }

  /** A file is there exactly when its segment is listed and could be renamed, in whatever directory: this also
      decides which lines of a stale playlist a player can still follow. */
  lemma FileIsThereIff(place: Place, es: seq<Event>, path: string)
    requires NamesFit(place.stream, ListedSoFar(place, es))
    ensures var r := Run(place, es);
            path in r.st.files
            <==> exists i :: 0 <= i < |r.st.segments| && r.st.segments[i].path == path && r.st.segments[i].no !in r.lost
  {
    hide Run, NamesFit;
    RunKeeps(place, es);
    RunFiles(place, es);
    assert FilesAreListed(Run(place, es));
  }

  /** Listed segments and the current one are numbered without a gap, whatever was dropped in between. */
  lemma NumbersAreConsecutive(place: Place, es: seq<Event>, i: nat)
    ensures var st := Run(place, es).st;
            && (i < |st.segments| ==>
                && st.segments[i].no == st.segments[0].no + i
                && st.segments[i].ticks >= MIN_DURATION)
            && (st.current.Some? ==> st.nextNo == st.current.value.no + 1)
            && (st.segments != [] ==> st.segments[0].no + |st.segments| == Upcoming(st))
  {
    hide FileName, EndsIn, Run;
    RunKeeps(place, es);
    var st := Run(place, es).st;
    assert i < |st.segments| ==> IsSegment(st.place.stream, st.segments[i], st.segments[0].no + i);
  }

  /** What a step does to the list: it is never emptied, its first number never goes down, and a playlist
      that appears on the disk starts with it. */
  ghost predicate GoesOn(r: Result, q: Result) {
    && (r.st.segments != [] ==> q.st.segments != [] && r.st.segments[0].no <= q.st.segments[0].no)
    && (forall path, lines: seq<Line> :: OnDiskAt(q.st, path, lines) ==>
          OnDiskAt(r.st, path, lines)
          || (q.st.segments != [] && (|lines| >= 2 ==> lines[1] == MediaSequence(q.st.segments[0].no))))
  }

  lemma ShrunkGoesOn(st: MuxerState, io: RefreshIo)
    requires Numbered(st)
    ensures GoesOn(Result(st, {}, false), Result(Shrunk(st, io), {}, false))
  {
    hide FileName, FullPath, PlaylistPath, IsSegment, PlaylistOf;
    var k := Dropped(st.segments, |st.segments|, 0, st.window);
    DroppedIsLess(st.segments, |st.segments|, 0, st.window);
    if st.segments != [] {
      FirstNumber(st, k);
      PlaylistStarts(st.segments[k..]);
    }
  }

  lemma StepGoesOn(r: Result, e: Event)
    requires Ordered(r)
    ensures GoesOn(r, Next(r, e))
  {
    hide FileName, FullPath, PlaylistPath, HeldBy, Lists, Shrunk, IsSegment;
    if e.Close? && r.st.current.Some? {
      var t := Ended(r.st, e.closeIo.renamed);
      assert r.st.segments != [] ==> t.segments[0] == r.st.segments[0];
      EndedIsNumbered(r, e.closeIo.renamed);
      ShrunkGoesOn(t, e.closeIo.refresh);
    }
  }

  lemma EndedIsNumbered(r: Result, renamed: bool)
    requires Ordered(r) && r.st.current.Some?
    ensures Numbered(Ended(r.st, renamed))
  {
    if r.st.current.value.ticks >= MIN_DURATION {
      ListedKeeps(r, renamed);
    } else {
      ShortKeeps(r);
    }
  }

  /** The playlist that `b` shows is the one of `a`, or starts no earlier than the list did. */
  lemma {:induction false} LaterPlaylists(place: Place, es: seq<Event>, k: nat, path: string, lines: seq<Line>)
    requires k <= |es| && OnDiskAt(Run(place, es).st, path, lines)
    ensures var a, b := Run(place, es[..k]).st, Run(place, es).st;
            && (a.segments != [] ==> b.segments != [] && a.segments[0].no <= b.segments[0].no)
            && (OnDiskAt(a, path, lines)
                || (|lines| >= 2 && a.segments != [] ==> lines[1].MediaSequence? && a.segments[0].no <= lines[1].no))
    decreases |es|
  {
    hide Ordered, Next, OnDiskAt;
    if k == |es| {
      assert es[..k] == es;
    } else {
      var front := es[..|es| - 1];
      assert front[..k] == es[..k];
      var r := Run(place, front);
      RunKeeps(place, front);
      StepGoesOn(r, es[|es| - 1]);
      ListGoesOn(place, front, k);
      if OnDiskAt(r.st, path, lines) {
        LaterPlaylists(place, front, k, path, lines);
      }
    }
  }

  lemma {:induction false} ListGoesOn(place: Place, es: seq<Event>, k: nat)
    requires k <= |es|
    ensures var a, b := Run(place, es[..k]).st, Run(place, es).st;
            a.segments != [] ==> b.segments != [] && a.segments[0].no <= b.segments[0].no
    decreases |es|
  {
    hide Ordered, Next, OnDiskAt;
    if k == |es| {
      assert es[..k] == es;
    } else {
      var front := es[..|es| - 1];
      assert front[..k] == es[..k];
      RunKeeps(place, front);
      StepGoesOn(Run(place, front), es[|es| - 1]);
      ListGoesOn(place, front, k);
    }
  }

  /** A player that reads a playlist file twice never sees its media sequence go back, whatever failed in
      between and wherever other playlists were written. */
  lemma MediaSequenceNeverDecreases(place: Place, es: seq<Event>, k: nat, path: string, earlier: seq<Line>,
      later: seq<Line>)
    requires k <= |es| && |earlier| >= 2 && |later| >= 2
    requires OnDiskAt(Run(place, es[..k]).st, path, earlier) && OnDiskAt(Run(place, es).st, path, later)
    ensures earlier[1].MediaSequence? && later[1].MediaSequence? && earlier[1].no <= later[1].no
  {
    hide Run, Numbered, LostAreOld;
    LaterPlaylists(place, es, k, path, later);
    RunKeeps(place, es[..k]);
  }

  /** After closing a segment all but the first of those that are listed fit into the window. */
  lemma WindowIsKept(st: MuxerState, io: CloseIo)
    requires st.current.Some? && st.nextNo > 0 && st.window >= 0 && !Stops(st, io.renamed)
    requires Ended(st, io.renamed).segments != []
    ensures var kept := AfterClose(st, io).segments; kept != [] && Ticks(kept[1..]) / SECOND <= st.window
  {
    hide Paths, PlaylistOf, PlaylistPath, Ticks, Dropped;
    var segments := Ended(st, io.renamed).segments;
    var k := Dropped(segments, |segments|, 0, st.window);
    DroppedIffWindow(segments, k, st.window);
    assert segments[k..][1..] == segments[k + 1..];
  }

  // ---------------------------------------------------------------- names that do not fit

  const ALL_DONE := CloseIo(true, RefreshIo(true, 1000, true))

  /** A segment of one second is written, and closing it ends as given. */
  function Second(io: CloseIo): seq<Event> {
    [Open(0, OpenIo(true, true)), Flush(SECOND), Close(io)]
  }

  lemma RunSecond(place: Place, es: seq<Event>, io: CloseIo)
    ensures Run(place, es + Second(io)) == Next(Next(Next(Run(place, es), Second(io)[0]), Second(io)[1]), Second(io)[2])
  {
    hide Next;
    var a := es + [Second(io)[0]];
    var b := a + [Second(io)[1]];
    RunSnoc(place, es, Second(io)[0]);
    RunSnoc(place, a, Second(io)[1]);
    RunSnoc(place, b, Second(io)[2]);
    assert es + Second(io) == b + [Second(io)[2]];
  }

  lemma RunSnoc(place: Place, es: seq<Event>, e: Event)
    ensures Run(place, es + [e]) == Next(Run(place, es), e)
  {
    hide Next;
    assert (es + [e])[..|es|] == es;
  }

  function SecondOf(st: MuxerState): Segment {
    NewSegment(st.place, st.nextNo, 0).(ticks := SECOND)
  }

  /** The segment is listed, and then those that have left the window are dropped. */
  lemma SecondIsListed(place: Place, es: seq<Event>, io: CloseIo)
    requires Run(place, es).st.current == None && io.renamed
    ensures var r, q := Run(place, es), Run(place, es + Second(io));
            var s := SecondOf(r.st);
            var listed := r.st.(nextNo := r.st.nextNo + 1, segments := r.st.segments + [s],
                files := r.st.files + {s.path});
            q == Result(Shrunk(listed, io.refresh), r.lost, !(io.refresh.created && io.refresh.renamed))
  {
    hide FileName, FullPath, Shrunk, Run;
    RunSecond(place, es, io);
  }

  /** With no window only that segment is left in the list. */
  lemma OneSecondIsLeft(place: Place, es: seq<Event>, io: CloseIo)
    requires var st := Run(place, es).st; st.current == None && st.window == 0
    requires io.renamed
    ensures var r, q := Run(place, es), Run(place, es + Second(io));
            var s := SecondOf(r.st);
            && q.st.segments == [s] && q.lost == r.lost && q.stale == !(io.refresh.created && io.refresh.renamed)
            && q.st.files == r.st.files + {s.path} - Paths(r.st.segments)
            && q.st.nextNo == r.st.nextNo + 1 && q.st.current == None && q.st.window == 0 && q.st.place == r.st.place
            && (io == ALL_DONE ==> OnDisk(q.st, PlaylistOf([s])))
            && (!io.refresh.created ==> q.st.playlists == r.st.playlists)
  {
    hide FileName, FullPath, PlaylistPath, PlaylistOf, Paths, Run, Second;
    SecondIsListed(place, es, io);
    var r := Run(place, es);
    var s := SecondOf(r.st);
    var all := r.st.segments + [s];
    assert Dropped(all, |all|, 0, 0) == |r.st.segments|;
    assert all[|r.st.segments|..] == [s] && all[..|r.st.segments|] == r.st.segments;
    PlaylistSize([s]);
  }

  lemma {:induction false} EntriesSize(segments: seq<Segment>)
    ensures |Entries(segments)| <= 3 * |segments|
    decreases |segments|
  {
    if segments != [] {
      EntriesSize(segments[..|segments| - 1]);
    }
  }

  lemma PlaylistSize(segments: seq<Segment>)
    requires 0 < |segments| <= 2
    ensures |PlaylistOf(segments)| <= 1000
  {
    hide MaxSeconds;
    EntriesSize(segments);
  }

  /** Segments of one second, all of which stay in the window. */
  function Seconds(path: string, n: nat, window: nat): seq<Event> {
    if n == 0 then [Configure(path, 0, window)] else Seconds(path, n - 1, window) + Second(ALL_DONE)
  }

  lemma {:induction false} TicksSnoc(segments: seq<Segment>, s: Segment)
    ensures Ticks(segments + [s]) == Ticks(segments) + s.ticks
    decreases |segments|
  {
    if segments != [] {
      TicksSnoc(segments[1..], s);
      assert (segments + [s])[1..] == segments[1..] + [s];
    }
  }

  lemma {:induction false} AllSecondsAreKept(place: Place, n: nat, window: nat)
    requires n <= window
    ensures var r := Run(place, Seconds(place.path, n, window));
            && r.st.current == None && r.st.window == window && r.st.nextNo == n && r.lost == {} && r.st.place == place
            && |r.st.segments| == n && Ticks(r.st.segments) == n * SECOND && InOneDirectory(r.st)
    decreases n
  {
    hide FileName, FullPath, PlaylistPath, PlaylistOf, Paths, Run, Second, Ticks;
    if n == 0 {
      RunSnoc(place, [], Configure(place.path, 0, window));
      assert [] + [Configure(place.path, 0, window)] == Seconds(place.path, 0, window);
      NoRun(place);
    } else {
      AllSecondsAreKept(place, n - 1, window);
      SecondIsListed(place, Seconds(place.path, n - 1, window), ALL_DONE);
      var st := Run(place, Seconds(place.path, n - 1, window)).st;
      var all := st.segments + [SecondOf(st)];
      TicksSnoc(st.segments, SecondOf(st));
      NoneIsDropped(all, n, window);
      assert all[0..] == all;
    }
  }

  lemma NoRun(place: Place)
    ensures Run(place, []) == Result(Initial(place), {}, false) && Ticks([]) == 0
  {}

  lemma NoneIsDropped(segments: seq<Segment>, n: nat, window: nat)
    requires segments != [] && Ticks(segments) == n * SECOND && n <= window
    ensures Dropped(segments, |segments|, 0, window) == 0
  {
    TicksShrink(segments, 0, 1);
    assert segments[0..] == segments;
    DroppedIffWindow(segments, 0, window);
  }

  /** Segments that stay in the window, and one more after it has been taken away. */
  function Narrowed(path: string, n: nat): seq<Event>
    requires n > 0
  {
    Seconds(path, n - 1, n) + [Configure(path, 0, 0)] + Second(ALL_DONE)
  }

  /** As soon as a number does not fit, dropping segments can unlink the file of one that is listed: an
      up-to-date playlist then names a file that is not there, though nothing failed. */
  lemma LongNamesUnlinkListedSegments(place: Place, n: nat)
    requires !NamesFit(place.stream, n)
    ensures var es := Narrowed(place.path, n);
            ListedSoFar(place, es) == n && InOneDirectory(Run(place, es).st) && !Safe(Run(place, es))
  {
    hide FileName, FullPath, PlaylistPath, PlaylistOf, OnDisk, Lists, Paths, Run, Seconds, Second, Numbered, EndsIn;
    var no, es := n - 1, Seconds(place.path, n - 1, n);
    AllSecondsAreKept(place, no, n);
    RunSnoc(place, es, Configure(place.path, 0, 0));
    OneSecondIsLeft(place, es + [Configure(place.path, 0, 0)], ALL_DONE);
    NumberedFrom(place, es, no / 10);
    NumbersFromZero(place, es);
    LongNamesCollide(place.stream, no);
    RunKeeps(place, es);
    var r, q := Run(place, es), Run(place, Narrowed(place.path, n));
    var s := SecondOf(r.st);
    PathsOf(r.st.segments, s.path);
    assert r.st.segments[no / 10].path == s.path;
    assert s.path !in q.st.files;
    assert IsListed([s], s.uri) by {
      assert [s][0].uri == s.uri;
    }
    PlaylistLists([s], s.uri);
    assert !NamesLost(place.stream, q.lost, s.uri);
  }

  lemma NumberedFrom(place: Place, es: seq<Event>, i: nat)
    ensures var st := Run(place, es).st;
            i < |st.segments| ==> IsSegment(place.stream, st.segments[i], st.segments[0].no + i)
  {
    hide Run, IsSegment;
    RunKeeps(place, es);
  }

  lemma NumbersFromZero(place: Place, es: seq<Event>)
    requires var st := Run(place, es).st; st.current == None && st.segments != [] && st.nextNo == |st.segments|
    ensures Run(place, es).st.segments[0].no == 0
  {
    hide Run;
    RunKeeps(place, es);
  }

  /** The first n segments can be listed safely in one directory, whatever happens, exactly when their numbers
      fit. */
  lemma SafeIffNamesFit(place: Place, n: nat)
    ensures NamesFit(place.stream, n)
       <==> forall es :: ListedSoFar(place, es) <= n && InOneDirectory(Run(place, es).st) ==> Safe(Run(place, es))
  {
    hide Safe, Run, ListedSoFar, FileName, InOneDirectory;
    if NamesFit(place.stream, n) {
      forall es | ListedSoFar(place, es) <= n && InOneDirectory(Run(place, es).st)
        ensures Safe(Run(place, es))
      {
        FewerNames(place.stream, ListedSoFar(place, es), n);
        PlaylistIsSafe(place, es);
      }
    } else {
      LongNamesUnlinkListedSegments(place, n);
    }
  }

  // ---------------------------------------------------------------- a playlist that moves

  /** A segment, another path, and a segment. */
  function Moved(path: string, other: string): seq<Event> {
    Seconds(path, 1, 2) + [Configure(other, 0, 2)] + Second(ALL_DONE)
  }

  /** After the path was changed an up-to-date playlist names a file that is not beside it, though nothing
      failed. */
  lemma MovedPlaylistIsUnsafe(place: Place, other: string)
    requires other != place.path && NamesFit(place.stream, 2)
    ensures var r := Run(place, Moved(place.path, other)); !Safe(r) && !r.stale && r.lost == {}
  {
    hide FileName, FullPath, PlaylistPath, PlaylistOf, Safe, NamesFit, Paths, Run, Seconds, Second, Ticks;
    var es, config := Seconds(place.path, 1, 2), Configure(other, 0, 2);
    AllSecondsAreKept(place, 1, 2);
    RunSnoc(place, es, config);
    var st := Run(place, es + [config]).st;
    var all := st.segments + [SecondOf(st)];
    SecondIsListed(place, es + [config], ALL_DONE);
    TicksSnoc(st.segments, SecondOf(st));
    NoneIsDropped(all, 2, 2);
    assert all[0..] == all && all[0] == st.segments[0];
    PlaylistSize(all);
    var r := Run(place, Moved(place.path, other));
    assert OnDisk(r.st, PlaylistOf(all));
    PathsDiffer(place, other, all[0].uri);
    CompleteIsSafeIff(place, Moved(place.path, other));
  }

  lemma PathsDiffer(place: Place, other: string, uri: string)
    requires other != place.path
    ensures FullPath(place, uri) != FullPath(place.(path := other), uri)
  {
    var rest := "/" + place.app + "/" + uri;
    assert FullPath(place, uri) == place.path + rest && FullPath(place.(path := other), uri) == other + rest;
    if |place.path| == |other| {
      assert (place.path + rest)[..|other|] == place.path && (other + rest)[..|other|] == other;
    }
  }

  // ---------------------------------------------------------------- a playlist that could not be replaced

  /** A second segment follows, and the new playlist cannot be created. */
  const UNREPLACED: seq<Event> := Second(ALL_DONE) + Second(CloseIo(true, RefreshIo(false, 0, false)))

  /** The old playlist stays, and names a file that has been unlinked. */
  lemma StalePlaylistNamesUnlinked(place: Place)
    ensures var r, uri := Run(place, UNREPLACED), FileName(place.stream, 0);
            && r.stale && r.lost == {} && FullPath(place, uri) !in r.st.files
            && exists lines: seq<Line> :: OnDisk(r.st, lines) && Lists(lines, uri)
  {
    hide FileName, FullPath, PlaylistPath, PlaylistOf, Lists, Paths, Run, Second;
    var io := CloseIo(true, RefreshIo(false, 0, false));
    NoRun(place);
    assert [] + Second(ALL_DONE) == Second(ALL_DONE);
    OneSecondIsLeft(place, [], ALL_DONE);
    OneSecondIsLeft(place, Second(ALL_DONE), io);
    var s := SecondOf(Initial(place));
    PathsOf([s], s.path);
    assert [s][0].path == s.path && [s][0].uri == s.uri;
    PlaylistLists([s], s.uri);
    assert OnDisk(Run(place, UNREPLACED).st, PlaylistOf([s]));
  }
}
