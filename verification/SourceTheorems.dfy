/**
 What a live source promises its players: a player that joins late is started with the headers and
 exactly the live pictures since the last keyframe; and aggregate messages are FLV tags.
 */
module SourceTheorems {
  import opened Bytes
  import opened Pieces
  import opened Codec
  import opened LiveQueue
  import opened Source
  import opened Flv
  import opened FlvTheorems

  // ---------------------------------------------------------------- a publishing session

  /** What happens to a source while it is published: audio and video, metadata, players joining. */
  datatype Event = Av(m: Message) | Meta(m: Message, tba: Option<int>, tbv: Option<int>, atc: bool) | Join

  predicate ValidEvent(e: Event) {
    match e case Av(m) => m.IsAv() case Meta(m, _, _, _) => m.kind == Other case Join => true
  }

  function Next(s: Shared, e: Event): Shared {
    match e
    case Av(m) => AfterAv(s, m)
    case Meta(m, tba, tbv, atc) => AfterMeta(s, m, tba, tbv, atc)
    case Join => BeforeJoin(s)
  }

  function Run(s: Shared, es: seq<Event>): Shared {
    if es == [] then s else Next(Run(s, es[..|es| - 1]), es[|es| - 1])
  }

  /** A source on which nothing was published yet, with the picture cache on. */
  predicate Clean(s: Shared) {
    s.meta.None? && s.videoSh.None? && s.audioSh.None? && s.gop == Gop(true, 0, [])
  }

  lemma UnpublishCleans(s: Shared)
    ensures Greeting(AfterUnpublish(s)) == [] && (s.gop.enabled ==> Clean(AfterUnpublish(s)))
  {}

  predicate IsVideoSh(m: Message) {
    m.kind == Video && VideoIsSequenceHeader(m.payload)
  }

  predicate IsAudioSh(m: Message) {
    m.kind == Audio && AudioIsSequenceHeader(m.payload)
  }

  /** The audio and video messages of a session that are not sequence headers. */
  function Pictures(es: seq<Event>): seq<Message> {
    if es == [] then []
    else
      var e := es[|es| - 1];
      Pictures(es[..|es| - 1]) + if e.Av? && !IsVideoSh(e.m) && !IsAudioSh(e.m) then [e.m] else []
  }

  /** What a source keeps the latest of. */
  datatype Sort = MetaData | VideoSh | AudioSh

  predicate OfSort(e: Event, sort: Sort) {
    match sort
    case MetaData => e.Meta? && e.m.payload != []
    case VideoSh => e.Av? && IsVideoSh(e.m)
    case AudioSh => e.Av? && IsAudioSh(e.m)
  }

  /** The last message of a session that is of the given sort. */
  function Latest(es: seq<Event>, sort: Sort): Option<Message> {
    if es == [] then None
    else if OfSort(es[|es| - 1], sort) then Some(es[|es| - 1].m)
    else Latest(es[..|es| - 1], sort)
  }

  // ---------------------------------------------------------------- the cached pictures

  /** Where the pictures a new player needs start: at the last keyframe; without one, at the first
      video; without video, nowhere. */
  function GopStart(ms: seq<Message>): (r: nat)
    ensures r <= |ms|
  {
    if ms == [] then 0
    else
      var r, n := GopStart(ms[..|ms| - 1]), |ms| - 1;
      if ms[n].IsKeyframe() || (r == n && ms[n].kind == Video) then n
      else if r == n then |ms|
      else r
  }

  /** The start of the needed pictures, said outright. */
  lemma {:induction false} GopStartIs(ms: seq<Message>)
    ensures var r := GopStart(ms);
            && (forall i :: r < i < |ms| ==> !ms[i].IsKeyframe())
            && (r == |ms| ==> forall i :: 0 <= i < |ms| ==> ms[i].kind != Video)
            && (r < |ms| ==> ms[r].kind == Video)
            && (r < |ms| && !ms[r].IsKeyframe() ==>
                  forall i :: 0 <= i < |ms| ==> !ms[i].IsKeyframe() && (i < r ==> ms[i].kind != Video))
  {
    if ms != [] {
      var front := ms[..|ms| - 1];
      GopStartIs(front);
      assert forall i :: 0 <= i < |front| ==> front[i] == ms[i];
    }
  }

  lemma CachedPicture(g: Gop, ms: seq<Message>, m: Message)
    requires g.enabled && m.IsAv() && (g.videos == 0 <==> GopStart(ms) == |ms|) && g.msgs == ms[GopStart(ms)..]
    ensures var r, all := Cached(g, m), ms + [m];
            && r.enabled && (r.videos == 0 <==> GopStart(all) == |all|) && r.msgs == all[GopStart(all)..]
  {
    hide GopStart;
    GopStartSnoc(ms, m);
    var all := ms + [m];
    if GopStart(all) == |ms| {
      assert all[|ms|..] == [m];
    } else if GopStart(ms) < |ms| {
      assert all[GopStart(ms)..] == ms[GopStart(ms)..] + [m];
    }
  }

  lemma GopStartSnoc(ms: seq<Message>, m: Message)
    ensures GopStart(ms + [m]) == if m.IsKeyframe() || (GopStart(ms) == |ms| && m.kind == Video) then |ms|
                                  else if GopStart(ms) == |ms| then |ms| + 1
                                  else GopStart(ms)
  {
    assert (ms + [m])[..|ms|] == ms;
  }

  lemma {:induction false} GopInvariant(s: Shared, es: seq<Event>)
    requires s.gop == Gop(true, 0, []) && forall i :: 0 <= i < |es| ==> ValidEvent(es[i])
    ensures var g, ms := Run(s, es).gop, Pictures(es);
            g.enabled && (g.videos == 0 <==> GopStart(ms) == |ms|) && g.msgs == ms[GopStart(ms)..]
    decreases |es|
  {
    hide Cached, GopStart;
    if es == [] {
      NoPictures();
    } else {
      var front, e := es[..|es| - 1], es[|es| - 1];
      assert forall i :: 0 <= i < |front| ==> front[i] == es[i];
      GopInvariant(s, front);
      assert ValidEvent(e);
      if e.Av? {
        CachedPicture(Run(s, front).gop, Pictures(front), e.m);
        assert IsVideoSh(e.m) || IsAudioSh(e.m) ==> Pictures(es) == Pictures(front);
      } else {
        assert Pictures(es) == Pictures(front);
      }
    }
  }

  lemma NoPictures()
    ensures GopStart([]) == 0
  {}

  /** After any session the picture cache holds exactly the pictures since the last keyframe. */
  lemma CacheIsLastGop(s: Shared, es: seq<Event>)
    requires s.gop == Gop(true, 0, []) && forall i :: 0 <= i < |es| ==> ValidEvent(es[i])
    ensures Run(s, es).gop.msgs == Pictures(es)[GopStart(Pictures(es))..]
  {
    hide Run, GopStart;
    GopInvariant(s, es);
  }

  // ---------------------------------------------------------------- the cached headers

  ghost predicate Relative(s: Shared, es: seq<Event>) {
    !s.atc && forall i :: 0 <= i < |es| && es[i].Meta? ==> !es[i].atc
  }

  /** The message whatever its time. */
  function Untimed(m: Option<Message>): Option<Message> {
    Restamped(m, 0)
  }

  /** What is kept is the latest of each sort, up to the time, which changes in absolute time only. */
  lemma {:induction false} HeadersAreLatest(s: Shared, es: seq<Event>)
    requires Clean(s) && forall i :: 0 <= i < |es| ==> ValidEvent(es[i])
    ensures var r := Run(s, es);
            && Untimed(r.meta) == Untimed(Latest(es, MetaData)) && Untimed(r.videoSh) == Untimed(Latest(es, VideoSh))
            && Untimed(r.audioSh) == Untimed(Latest(es, AudioSh))
            && (Relative(s, es) ==> && !r.atc && r.meta == Latest(es, MetaData) && r.videoSh == Latest(es, VideoSh)
                                    && r.audioSh == Latest(es, AudioSh))
    decreases |es|
  {
    hide Cached;
    if es != [] {
      var front, e := es[..|es| - 1], es[|es| - 1];
      assert forall i :: 0 <= i < |front| ==> front[i] == es[i];
      assert ValidEvent(e);
      HeadersAreLatest(s, front);
    }
  }

  /** Whatever was published before it joined, a new player is started with the latest metadata, the
      latest video and audio sequence headers, and exactly the live pictures from the last keyframe
      on. In absolute time the headers take the time of the first picture. */
  lemma LateJoinerIsStartedFromLastKeyframe(s: Shared, es: seq<Event>, length: nat)
    requires Clean(s) && forall i :: 0 <= i < |es| ==> ValidEvent(es[i])
    ensures var r, pictures := Run(s, es), Pictures(es)[GopStart(Pictures(es))..];
            && Greeting(r) == ToSeq(BeforeJoin(r).meta) + ToSeq(BeforeJoin(r).videoSh) + ToSeq(BeforeJoin(r).audioSh)
                + pictures
            && Untimed(BeforeJoin(r).meta) == Untimed(Latest(es, MetaData))
            && Untimed(BeforeJoin(r).videoSh) == Untimed(Latest(es, VideoSh))
            && Untimed(BeforeJoin(r).audioSh) == Untimed(Latest(es, AudioSh))
            && (Relative(s, es) ==> Greeting(r) == ToSeq(Latest(es, MetaData)) + ToSeq(Latest(es, VideoSh))
                                                   + ToSeq(Latest(es, AudioSh)) + pictures)
            && Joined(r, length) == DeliveredAll(FreshConsumer(length), Greeting(r), r.tba, r.tbv, r.atc)
  {
    hide Run, GopStart, Pictures, Latest, DeliveredAll, Relative;
    HeadersAreLatest(s, es);
    CacheIsLastGop(s, es);
  }

  /** In absolute time the headers carry the time of the first cached picture. */
  lemma AbsoluteHeadersStartWithPictures(s: Shared, es: seq<Event>)
    requires Clean(s) && forall i :: 0 <= i < |es| ==> ValidEvent(es[i])
    requires Run(s, es).atc && Run(s, es).gop.msgs != []
    ensures var g, n := Greeting(Run(s, es)), |Greeting(Run(s, es))| - |Run(s, es).gop.msgs|;
            && g[n..] == Pictures(es)[GopStart(Pictures(es))..]
            && forall i :: 0 <= i < n ==> g[i].time == g[n].time
  {
    hide Run, GopStart, Pictures;
    CacheIsLastGop(s, es);
    var r := Run(s, es);
    var heads := ToSeq(BeforeJoin(r).meta) + ToSeq(BeforeJoin(r).videoSh) + ToSeq(BeforeJoin(r).audioSh);
    assert Greeting(r) == heads + r.gop.msgs;
    assert forall i :: 0 <= i < |heads| ==> heads[i].time == r.gop.msgs[0].time;
  }

  // ---------------------------------------------------------------- late is as early

  /** A player that was there before an event, after it. */
  function LiveNext(c: ConsumerState, s: Shared, e: Event): ConsumerState
    requires c.queue.size >= 0
  {
    match e
    case Av(m) => Delivered(c, m, s.tba, s.tbv, s.atc)
    case Meta(m, _, _, _) =>
      var n := Next(s, e);
      if m.payload == [] then c else Delivered(c, m, n.tba, n.tbv, n.atc)
    case Join => c
  }

  lemma LiveKeepsSize(c: ConsumerState, s: Shared, e: Event)
    requires c.queue.size >= 0
    ensures LiveNext(c, s, e).queue.size >= 0
  {
    hide Delivered;
    match e {
      case Av(m) => DeliveredKeepsSize(c, m, s.tba, s.tbv, s.atc);
      case Meta(m, _, _, _) => DeliveredKeepsSize(c, m, Next(s, e).tba, Next(s, e).tbv, Next(s, e).atc);
      case Join =>
    }
  }

  function LiveRun(c: ConsumerState, s: Shared, es: seq<Event>): ConsumerState
    requires c.queue.size >= 0
    decreases |es|
  {
    if es == [] then c
    else
      LiveKeepsSize(c, s, es[0]);
      LiveRun(LiveNext(c, s, es[0]), Next(s, es[0]), es[1..])
  }

  /** A group of pictures as it arrives: other players may join meanwhile. */
  predicate PicturesOnly(es: seq<Event>) {
    es != [] ==>
        && !es[0].Meta? && (es[0].Av? ==> es[0].m.IsAv() && !IsVideoSh(es[0].m) && !IsAudioSh(es[0].m))
        && PicturesOnly(es[1..])
  }

  predicate NoKeyframe(es: seq<Event>) {
    es != [] ==> (es[0].Av? ==> !es[0].m.IsKeyframe()) && NoKeyframe(es[1..])
  }

  /** The messages of a group of pictures, from the front. */
  function MessagesOf(es: seq<Event>): seq<Message> {
    if es == [] then [] else (if es[0].Av? then [es[0].m] else []) + MessagesOf(es[1..])
  }

  function RunOn(s: Shared, es: seq<Event>): Shared
    decreases |es|
  {
    if es == [] then s else RunOn(Next(s, es[0]), es[1..])
  }

  lemma {:induction false} RunOnIsRun(s: Shared, es: seq<Event>)
    ensures RunOn(s, es) == Run(s, es)
    decreases |es|
  {
    hide Next;
    if |es| == 1 {
      assert es[1..] == [] && es[..0] == [];
      assert Run(s, es[..0]) == s && RunOn(Next(s, es[0]), []) == Next(s, es[0]);
    } else if |es| > 1 {
      var tail, front := es[1..], es[..|es| - 1];
      RunOnIsRun(Next(s, es[0]), tail);
      RunOnIsRun(Next(s, es[0]), tail[..|tail| - 1]);
      RunOnIsRun(s, front);
      assert front[1..] == tail[..|tail| - 1] && front[0] == es[0] && tail[|tail| - 1] == es[|es| - 1];
    }
  }

  lemma {:induction false} PicturesPassThrough(c: ConsumerState, s: Shared, es: seq<Event>)
    requires c.queue.size >= 0 && PicturesOnly(es) && NoKeyframe(es) && !s.atc && s.gop.enabled && s.gop.videos > 0
    ensures RunOn(s, es).(gop := s.gop) == s
    ensures RunOn(s, es).gop.msgs == s.gop.msgs + MessagesOf(es)
    ensures LiveRun(c, s, es) == DeliveredAll(c, MessagesOf(es), s.tba, s.tbv, false)
    decreases |es|
  {
    hide Delivered;
    if es == [] {
      assert s.gop.msgs + MessagesOf(es) == s.gop.msgs;
    } else {
      var e, rest := es[0], MessagesOf(es[1..]);
      LiveKeepsSize(c, s, e);
      PicturesPassThrough(LiveNext(c, s, e), Next(s, e), es[1..]);
      if e.Av? {
        assert s.gop.msgs + [e.m] + rest == s.gop.msgs + MessagesOf(es);
        assert MessagesOf(es)[1..] == rest;
      } else {
        assert MessagesOf(es) == rest;
      }
    }
  }

  /** What a source keeps without its pictures: a player that joins is then started with the headers. */
  function WithoutPictures(s: Shared): Shared {
    s.(gop := Cleared(s.gop))
  }

  /** Joining in the middle of a group of pictures is joining in front of its keyframe, whatever was
      cached before: the player ends in the same state, queue, corrector and all, as one that had been
      started with the headers alone and got the keyframe and all that followed when they came. */
  lemma LateIsAsEarly(s: Shared, key: Message, es: seq<Event>, length: nat)
    requires !s.atc && s.gop.enabled
    requires key.IsKeyframe() && !IsVideoSh(key) && PicturesOnly(es) && NoKeyframe(es)
    ensures Joined(WithoutPictures(s), length).queue.size >= 0
    ensures Joined(Run(s, [Av(key)] + es), length)
         == LiveRun(Joined(WithoutPictures(s), length), WithoutPictures(s), [Av(key)] + es)
  {
    hide Delivered, Run, RunOn, DeliveredAll, PicturesOnly, NoKeyframe, MessagesOf;
    var b := WithoutPictures(s);
    var all, c, s1 := [Av(key)] + es, Joined(b, length), Next(s, Av(key));
    assert all[0] == Av(key) && all[1..] == es && s1 == Next(b, Av(key));
    DeliveredAllConcat(FreshConsumer(length), Greeting(b), [key] + MessagesOf(es), s.tba, s.tbv, false);
    LiveKeepsSize(c, b, Av(key));
    PicturesPassThrough(LiveNext(c, b, Av(key)), s1, es);
    RunOnIsRun(s, all);
    assert RunOn(s, all) == RunOn(s1, es) by { RunOnFirst(s, Av(key), es); }
    DeliveredAllFirst(c, key, MessagesOf(es), s.tba, s.tbv);
    var heads := ToSeq(s.meta) + ToSeq(s.videoSh) + ToSeq(s.audioSh);
    assert Greeting(b) == heads + [] == heads;
    assert Greeting(Run(s, all)) == heads + ([key] + MessagesOf(es));
  }

  lemma RunOnFirst(s: Shared, e: Event, es: seq<Event>)
    ensures RunOn(s, [e] + es) == RunOn(Next(s, e), es)
  {
    assert ([e] + es)[1..] == es;
  }

  lemma DeliveredAllFirst(c: ConsumerState, m: Message, ms: seq<Message>, tba: int, tbv: int)
    requires c.queue.size >= 0
    ensures Delivered(c, m, tba, tbv, false).queue.size >= 0
    ensures DeliveredAll(c, [m] + ms, tba, tbv, false)
            == DeliveredAll(Delivered(c, m, tba, tbv, false), ms, tba, tbv, false)
  {
    hide Delivered;
    DeliveredKeepsSize(c, m, tba, tbv, false);
    assert ([m] + ms)[1..] == ms;
  }

  // ---------------------------------------------------------------- aggregates are FLV tags

  /** The audio and video messages that a list of tags stands for. */
  function MessagesOfTags(ts: seq<Tag>): seq<Message> {
    if ts == [] then []
    else
      (if ts[0].IsAv() then [Message(KindOf(ts[0].kind), ts[0].time % 0x80000000, ts[0].data)] else [])
      + MessagesOfTags(ts[1..])
  }

  lemma PartIsTag(data: seq<byte>, pos: nat, t: Tag)
    requires Pieces.At(data, pos, TagBytes(t)) && |t.data| < 0x1000000
    ensures pos < |data| && PartAt(data, pos) == Some(Message(KindOf(t.kind), t.time % 0x80000000, t.data))
  {
    hide Pieces.At, TagBytes;
    TagFields(data, pos, t);
    assert data[pos + 7] as int * 0x1000000 <= TimeAt(data, pos) < 0x80000000;
    assert data[pos + 7] < 128;
  }

  lemma {:induction false} SplitTags(data: seq<byte>, pos: nat, ts: seq<Tag>, before: seq<Message>)
    requires Pieces.At(data, pos, FileBytes(ts)) && pos + |FileBytes(ts)| == |data|
    requires forall i :: 0 <= i < |ts| ==> |ts[i].data| < 0x1000000
    ensures SplitFrom(data, pos, before) == Parts(true, before + MessagesOfTags(ts))
    decreases |ts|
  {
    hide Pieces.At, FileBytes, PartAt, SplitFrom, KindOf;
    if ts == [] {
      SplitEnd(data, pos, before);
      assert before + MessagesOfTags(ts) == before;
    } else {
      var t := ts[0];
      FirstTag(data, pos, ts);
      PartIsTag(data, pos, t);
      FileBytesSize(ts);
      var m := Message(KindOf(t.kind), t.time % 0x80000000, t.data);
      SplitOne(data, pos, before, m);
      var now := if t.IsAv() then before + [m] else before;
      SplitTags(data, pos + SizeTag(|t.data|), ts[1..], now);
      KindsAgree(t);
      if t.IsAv() {
        Assoc(before, [m], MessagesOfTags(ts[1..]));
      } else {
        assert MessagesOfTags(ts) == MessagesOfTags(ts[1..]);
      }
    }
  }

  lemma KindsAgree(t: Tag)
    ensures t.IsAv() <==> KindOf(t.kind) != Other
  {}

  lemma SplitEnd(data: seq<byte>, pos: nat, before: seq<Message>)
    requires pos + |FileBytes([])| == |data|
    ensures SplitFrom(data, pos, before) == Parts(true, before)
  {}

  lemma SplitOne(data: seq<byte>, pos: nat, before: seq<Message>, m: Message)
    requires pos < |data| && PartAt(data, pos) == Some(m)
    ensures SplitFrom(data, pos, before) == SplitFrom(data, pos + SizeTag(|m.payload|),
            if m.IsAv() then before + [m] else before)
  {
    hide PartAt;
  }

  /** An aggregate made of the tags an FLV writer writes is cut into exactly the audio and video
      ones, in order, with their payload and their 31-bit time. */
  lemma AggregateIsFlvTags(ts: seq<Tag>)
    requires ts != [] && forall i :: 0 <= i < |ts| ==> |ts[i].data| < 0x1000000
    ensures Split(FileBytes(ts)) == Parts(true, MessagesOfTags(ts))
  {
    hide FileBytes, SplitFrom;
    var data := FileBytes(ts);
    FileBytesSize(ts);
    AtWhole(data);
    SplitTags(data, 0, ts, []);
    assert [] + MessagesOfTags(ts) == MessagesOfTags(ts);
  }
}
