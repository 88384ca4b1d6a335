/**
 The live source: the caches a new player is started from, the fan-out to all players, and the
 splitter for aggregate messages.
 */
module Source {
  import opened Bytes
  import opened Pieces
  import opened Codec
  import opened LiveQueue
  import opened Stream

  // ---------------------------------------------------------------- the group-of-pictures cache

  datatype Gop = Gop(enabled: bool, videos: nat, msgs: seq<Message>)

  function Cached(g: Gop, m: Message): Gop {
    var videos := if m.kind == Video then g.videos + 1 else g.videos;
    if !g.enabled then g
    else if videos == 0 then g
    else if m.IsKeyframe() then Gop(g.enabled, 1, [m])
    else Gop(g.enabled, videos, g.msgs + [m])
  }

  function Cleared(g: Gop): Gop {
    Gop(g.enabled, 0, [])
  }

  class GopCache {
    var enableGopCache: bool
    var cachedVideoCount: nat
    var gopCache: seq<Message>

    constructor ()
      ensures State() == Gop(true, 0, [])
    {
      enableGopCache, cachedVideoCount, gopCache := true, 0, [];
    }

    function State(): Gop
      reads this
    {
      Gop(enableGopCache, cachedVideoCount, gopCache)
    }

    method Set(enabled: bool)
      modifies this
      ensures State() == if enabled then old(State()).(enabled := true) else Gop(false, 0, [])
    {
      enableGopCache := enabled;
      if !enabled {
        Clear();
      }
    }

    method Cache(msg: Message)
      modifies this
      ensures State() == Cached(old(State()), msg)
    {
      if !enableGopCache {
        return;
      }
      if msg.kind == Video {
        cachedVideoCount := cachedVideoCount + 1;
      }
      if cachedVideoCount == 0 {
        return;
      }
      if msg.kind == Video && VideoIsKeyframe(msg.payload) {
        Clear();
        cachedVideoCount := 1;
      }
      gopCache := gopCache + [msg];
    }

    method Clear()
      modifies this
      ensures State() == Cleared(old(State()))
    {
      gopCache, cachedVideoCount := [], 0;
    }

    /** Sends the cached messages to a player. */
    method Dump(consumer: Consumer, tba: int, tbv: int, atc: bool)
      requires consumer.queue.queueSizeMs >= 0
      modifies consumer.jitter, consumer.queue
      ensures consumer.State() == DeliveredAll(old(consumer.State()), gopCache, tba, tbv, atc)
    {
      ghost var target := DeliveredAll(consumer.State(), gopCache, tba, tbv, atc);
      for i := 0 to |gopCache|
        invariant consumer.queue.queueSizeMs >= 0
        invariant target == DeliveredAll(consumer.State(), gopCache[i..], tba, tbv, atc)
      {
        assert gopCache[i..][1..] == gopCache[i + 1..];
        DeliveredKeepsSize(consumer.State(), gopCache[i], tba, tbv, atc);
        consumer.Enqueue(gopCache[i], tba, tbv, atc);
      }
    }

    predicate Empty()
      reads this
    {
      gopCache == []
    }

    function GetStartTime(): int
      reads this
    {
      if gopCache == [] then 0 else gopCache[0].time
    }
  }

  /** A player after a list of messages. */
  function DeliveredAll(c: ConsumerState, ms: seq<Message>, tba: int, tbv: int, atc: bool): ConsumerState
    requires c.queue.size >= 0
    decreases |ms|
  {
    if ms == [] then c
    else
      DeliveredKeepsSize(c, ms[0], tba, tbv, atc);
      DeliveredAll(Delivered(c, ms[0], tba, tbv, atc), ms[1..], tba, tbv, atc)
  }

  // ---------------------------------------------------------------- what the source keeps

  /** The cached metadata and sequence headers, the cached pictures, the announced rates, and
      whether timestamps are absolute. */
  datatype Shared = Shared(meta: Option<Message>, videoSh: Option<Message>, audioSh: Option<Message>,
                           gop: Gop, tba: int, tbv: int, atc: bool)

  function Restamped(m: Option<Message>, time: int): Option<Message> {
    match m case None => None case Some(x) => Some(x.(time := time))
  }

  function AfterAudio(s: Shared, m: Message): Shared {
    if AudioIsSequenceHeader(m.payload) then s.(audioSh := Some(m))
    else
      var s' := s.(gop := Cached(s.gop, m));
      if s.atc then s'.(audioSh := Restamped(s.audioSh, m.time), meta := Restamped(s.meta, m.time)) else s'
  }

  function AfterVideo(s: Shared, m: Message): Shared {
    if VideoIsSequenceHeader(m.payload) then s.(videoSh := Some(m))
    else
      var s' := s.(gop := Cached(s.gop, m));
      if s.atc then s'.(videoSh := Restamped(s.videoSh, m.time), meta := Restamped(s.meta, m.time)) else s'
  }

  /** Metadata announces rates, decides on absolute time, and is cached unless it is empty. */
  function AfterMeta(s: Shared, m: Message, tba: Option<int>, tbv: Option<int>, atc: bool): Shared {
    var s' := s.(tba := if tba.Some? then tba.value else s.tba, tbv := if tbv.Some? then tbv.value else s.tbv,
        atc := atc);
    if |m.payload| == 0 then s' else s'.(meta := Some(m))
  }

  function AfterUnpublish(s: Shared): Shared {
    Shared(None, None, None, Cleared(s.gop), 0, 0, s.atc)
  }

  /** In absolute time, what a new player is started with is moved to the start of the cached pictures. */
  function BeforeJoin(s: Shared): Shared {
    if s.atc && s.gop.msgs != [] then
      var t := s.gop.msgs[0].time;
      s.(meta := Restamped(s.meta, t), videoSh := Restamped(s.videoSh, t), audioSh := Restamped(s.audioSh, t))
    else s
  }

  function ToSeq(m: Option<Message>): seq<Message> {
    match m case None => [] case Some(x) => [x]
  }

  /** What the caches hold, in sending order. */
  function Held(s: Shared): seq<Message> {
    ToSeq(s.meta) + ToSeq(s.videoSh) + ToSeq(s.audioSh) + s.gop.msgs
  }

  /** The messages a new player is started with. */
  function Greeting(s: Shared): seq<Message> {
    Held(BeforeJoin(s))
  }

  function Joined(s: Shared, length: nat): (r: ConsumerState)
    ensures r.queue.size == length
  {
    DeliveredAllConcat(FreshConsumer(length), Greeting(s), [], s.tba, s.tbv, s.atc);
    DeliveredAll(FreshConsumer(length), Greeting(s), s.tba, s.tbv, s.atc)
  }

  lemma {:induction false} DeliveredAllConcat(c: ConsumerState, a: seq<Message>, b: seq<Message>, tba: int, tbv: int,
      atc: bool)
    requires c.queue.size >= 0
    ensures DeliveredAll(c, a, tba, tbv, atc).queue.size == c.queue.size
    ensures DeliveredAll(c, a + b, tba, tbv, atc) == DeliveredAll(DeliveredAll(c, a, tba, tbv, atc), b, tba, tbv, atc)
    decreases |a|
  {
    hide Delivered;
    if a == [] {
      assert a + b == b;
    } else {
      assert (a + b)[1..] == a[1..] + b;
      DeliveredKeepsSize(c, a[0], tba, tbv, atc);
      DeliveredAllConcat(Delivered(c, a[0], tba, tbv, atc), a[1..], b, tba, tbv, atc);
    }
  }

  /** Sending what is held piece by piece is sending all of it. */
  lemma GreetInSteps(c: ConsumerState, s: Shared)
    requires c.queue.size >= 0
    ensures var c1 := DeliveredAll(c, ToSeq(s.meta), s.tba, s.tbv, s.atc);
            c1.queue.size == c.queue.size &&
            var c2 := DeliveredAll(c1, ToSeq(s.videoSh), s.tba, s.tbv, s.atc);
            c2.queue.size == c.queue.size &&
            var c3 := DeliveredAll(c2, ToSeq(s.audioSh), s.tba, s.tbv, s.atc);
            c3.queue.size == c.queue.size &&
            var c4 := DeliveredAll(c3, s.gop.msgs, s.tba, s.tbv, s.atc);
            c4.queue.size == c.queue.size && c4 == DeliveredAll(c, Held(s), s.tba, s.tbv, s.atc)
  {
    hide DeliveredAll;
    var x, y, z := ToSeq(s.meta), ToSeq(s.videoSh), ToSeq(s.audioSh);
    DeliveredAllConcat(c, x, y, s.tba, s.tbv, s.atc);
    DeliveredAllConcat(c, x + y, z, s.tba, s.tbv, s.atc);
    DeliveredAllConcat(c, x + y + z, s.gop.msgs, s.tba, s.tbv, s.atc);
    DeliveredAllConcat(c, Held(s), [], s.tba, s.tbv, s.atc);
  }

  // ---------------------------------------------------------------- aggregate messages

  /** The messages cut out so far, and whether no error was met. */
  datatype Parts = Parts(ok: bool, msgs: seq<Message>)

  function KindOf(messageType: byte): Kind {
    if messageType == 8 then Audio else if messageType == 9 then Video else Other
  }

  lemma KindOfType(b: byte)
    ensures KindOf(b) == if Signed8(b) == 8 then Audio else if Signed8(b) == 9 then Video else Other
  {}

  const SUB_HEADER := 11
  const BACK_SIZE := 4

  /** The sub-message at a position, of whatever kind; None when it is cut off. */
  function PartAt(data: seq<byte>, pos: nat): Option<Message>
    requires pos < |data|
  {
    if pos + SUB_HEADER > |data| then None
    else
      var size := U24(data[pos + 1..pos + 4]);
      if pos + SUB_HEADER + size + BACK_SIZE > |data| then None
      else
        var time := data[pos + 7] % 128 * 0x1000000 + U24(data[pos + 4..pos + 7]);
        Some(Message(KindOf(data[pos]), time, data[pos + SUB_HEADER..pos + SUB_HEADER + size]))
  }

  /** The audio and video sub-messages from a position on, behind those already cut out. */
  function SplitFrom(data: seq<byte>, pos: nat, before: seq<Message>): Parts
    decreases |data| - pos
  {
    if pos >= |data| then Parts(true, before)
    else
      match PartAt(data, pos)
      case None => Parts(false, before)
      case Some(m) =>
        SplitFrom(data, pos + SUB_HEADER + |m.payload| + BACK_SIZE, if m.IsAv() then before + [m] else before)
  }

  /** All sub-messages of an aggregate; one without payload is an error. */
  function Split(data: seq<byte>): Parts {
    if data == [] then Parts(false, []) else SplitFrom(data, 0, [])
  }

  function AfterAv(s: Shared, m: Message): Shared {
    if m.kind == Audio then AfterAudio(s, m) else AfterVideo(s, m)
  }

  /** What the source keeps after a list of audio and video messages. */
  function AfterAll(s: Shared, ms: seq<Message>): Shared {
    if ms == [] then s else AfterAv(AfterAll(s, ms[..|ms| - 1]), ms[|ms| - 1])
  }

  lemma AfterAllSnoc(s: Shared, ms: seq<Message>, m: Message)
    ensures AfterAll(s, ms + [m]) == AfterAv(AfterAll(s, ms), m)
  {
    assert (ms + [m])[..|ms|] == ms;
  }

  lemma DeliveredAllSnoc(c: ConsumerState, ms: seq<Message>, m: Message, tba: int, tbv: int, atc: bool)
    requires c.queue.size >= 0
    ensures DeliveredAll(c, ms, tba, tbv, atc).queue.size >= 0
    ensures DeliveredAll(c, ms + [m], tba, tbv, atc) == Delivered(DeliveredAll(c, ms, tba, tbv, atc), m, tba, tbv, atc)
  {
    hide Delivered;
    DeliveredAllConcat(c, ms, [m], tba, tbv, atc);
    var c1 := DeliveredAll(c, ms, tba, tbv, atc);
    DeliveredKeepsSize(c1, m, tba, tbv, atc);
    assert [m][1..] == [];
  }

  lemma SplitStep(data: seq<byte>, pos: nat, before: seq<Message>)
    requires pos < |data|
    ensures var part := PartAt(data, pos);
            SplitFrom(data, pos, before)
            == if part == None then Parts(false, before)
               else SplitFrom(data, pos + SUB_HEADER + |part.value.payload| + BACK_SIZE,
                              if part.value.IsAv() then before + [part.value] else before)
  {
    hide PartAt;
  }

  lemma AllTaken(data: seq<byte>, pos: nat, done: seq<Message>)
    requires pos >= |data|
    ensures SplitFrom(data, pos, done) == Parts(true, done)
  {}

  // ---------------------------------------------------------------- the source

  class LiveSource {
    var consumers: seq<Consumer>
    const gopCache: GopCache
    const aggregateStream: ByteStream
    var sampleRate: int
    var frameRate: int
    var atc: bool
    var cacheMetadata: Option<Message>
    var cacheShVideo: Option<Message>
    var cacheShAudio: Option<Message>

    ghost predicate Valid()
      reads this, consumers, set c | c in consumers :: c.queue
    {
      && (forall c :: c in consumers ==> c.queue.queueSizeMs >= 0)
      && (forall i, j :: 0 <= i < j < |consumers| ==>
            consumers[i] != consumers[j] && consumers[i].jitter != consumers[j].jitter
                && consumers[i].queue != consumers[j].queue)
    }

    function State(): Shared
      reads this, gopCache
    {
      Shared(cacheMetadata, cacheShVideo, cacheShAudio, gopCache.State(), sampleRate, frameRate, atc)
    }

    constructor (atcConfigured: bool)
      ensures Valid() && consumers == []
      ensures State() == Shared(None, None, None, Gop(true, 0, []), 0, 0, atcConfigured)
      ensures fresh(gopCache) && fresh(aggregateStream)
    {
      consumers := [];
      gopCache := new GopCache();
      aggregateStream := new ByteStream();
      sampleRate, frameRate, atc := 0, 0, atcConfigured;
      cacheMetadata, cacheShVideo, cacheShAudio := None, None, None;
    }

    /** Copies a message to all players. */
    method Dispatch(msg: Message)
      requires Valid()
      modifies set c | c in consumers :: c.jitter, set c | c in consumers :: c.queue
      ensures Valid()
      ensures forall c :: c in consumers ==> c.State() == Delivered(old(c.State()), msg, sampleRate, frameRate, atc)
    {
      hide Delivered;
      for i := 0 to |consumers|
        invariant Valid()
        invariant forall k :: 0 <= k < i ==>
          consumers[k].State() == Delivered(old(consumers[k].State()), msg, sampleRate, frameRate, atc)
        invariant forall k :: i <= k < |consumers| ==> consumers[k].State() == old(consumers[k].State())
      {
        DeliveredKeepsSize(consumers[i].State(), msg, sampleRate, frameRate, atc);
        consumers[i].Enqueue(msg, sampleRate, frameRate, atc);
      }
    }

    method OnAudio(msg: Message)
      requires Valid() && msg.kind == Audio
      modifies this, gopCache, set c | c in consumers :: c.jitter, set c | c in consumers :: c.queue
      ensures Valid() && consumers == old(consumers)
      ensures State() == AfterAudio(old(State()), msg)
      ensures forall c :: c in consumers ==>
              c.State()
              == Delivered(old(c.State()), msg, old(sampleRate), old(frameRate), old(atc))
    {
      Dispatch(msg);
      if AudioIsSequenceHeader(msg.payload) {
        cacheShAudio := Some(msg);
        return;
      }
      gopCache.Cache(msg);
      if atc {
        cacheShAudio := Restamped(cacheShAudio, msg.time);
        cacheMetadata := Restamped(cacheMetadata, msg.time);
      }
    }

    method OnVideo(msg: Message)
      requires Valid() && msg.kind == Video
      modifies this, gopCache, set c | c in consumers :: c.jitter, set c | c in consumers :: c.queue
      ensures Valid() && consumers == old(consumers)
      ensures State() == AfterVideo(old(State()), msg)
      ensures forall c :: c in consumers ==>
              c.State()
              == Delivered(old(c.State()), msg, old(sampleRate), old(frameRate), old(atc))
    {
      Dispatch(msg);
      if VideoIsSequenceHeader(msg.payload) {
        cacheShVideo := Some(msg);
        return;
      }
      gopCache.Cache(msg);
      if atc {
        cacheShVideo := Restamped(cacheShVideo, msg.time);
        cacheMetadata := Restamped(cacheMetadata, msg.time);
      }
    }

    /** An audio or video message goes to its handler. */
    method OnAv(o: Message)
      requires Valid() && o.kind != Other
      modifies this, gopCache, set c | c in consumers :: c.jitter, set c | c in consumers :: c.queue
      ensures Valid() && consumers == old(consumers)
      ensures State() == AfterAv(old(State()), o) && sampleRate == old(sampleRate) && frameRate == old(frameRate)
              && atc == old(atc)
      ensures forall c :: c in consumers ==>
              c.State()
              == Delivered(old(c.State()), o, old(sampleRate), old(frameRate), old(atc))
    {
      if o.kind == Audio {
        OnAudio(o);
      } else {
        OnVideo(o);
      }
    }

    /** Reads the header of a sub-message, checking before each field that it is there. */
    method ReadPartHeader(stream: ByteStream) returns (ok: bool, messageType: int, dataSize: nat, timestamp: nat)
      requires stream.Valid() && 0 <= stream.p < stream.size
      modifies stream`p
      ensures ok == (old(stream.p) + SUB_HEADER <= stream.size)
      ensures ok ==>
        var data, from := stream.Data(), old(stream.p);
        && messageType == Signed8(data[from])
        && dataSize == U24(data[from + 1..from + 4])
        && timestamp == data[from + 7] % 128 * 0x1000000 + U24(data[from + 4..from + 7])
        && stream.p == from + SUB_HEADER
    {
      ok, messageType, dataSize, timestamp := false, 0, 0, 0;
      if !stream.Require(1) {
        return;
      }
      messageType := stream.Read1();
      if !stream.Require(3) {
        return;
      }
      dataSize := stream.Read3();
      if !stream.Require(3) {
        return;
      }
      timestamp := stream.Read3();
      if !stream.Require(1) {
        return;
      }
      var timeHigh := stream.Read1();
      timestamp := timeHigh % 128 * 0x1000000 + timestamp;
      if !stream.Require(3) {
        return;
      }
      var streamId := stream.Read3();
      ok := true;
    }

    /** Reads one sub-message. */
    method ReadPart(stream: ByteStream) returns (ok: bool, o: Message)
      requires stream.Valid() && 0 <= stream.p < stream.size
      modifies stream`p
      ensures stream.Valid()
      ensures var part := PartAt(stream.Data(), old(stream.p));
              ok == part.Some? && (ok ==>
                  && o == part.value
                  && stream.p == old(stream.p) + SUB_HEADER + |o.payload| + BACK_SIZE)
    {
      hide U24, Signed8;
      o := Message(Other, 0, []);
      var messageType, dataSize, timestamp;
      ok, messageType, dataSize, timestamp := ReadPartHeader(stream);
      if !ok {
        return;
      }
      if dataSize > 0 && !stream.Require(dataSize) {
        return false, o;
      }
      var payload := [];
      if dataSize > 0 {
        payload := stream.ReadBytes(dataSize);
      }
      if !stream.Require(4) {
        return false, o;
      }
      var _ := stream.Read4();
      KindOfType(stream.Data()[old(stream.p)]);
      o := Message(if messageType == 8 then Audio else if messageType == 9 then Video else Other, timestamp, payload);
    }

    /** The source and its players after the audio and video messages `done`. */
    ghost predicate HasTaken(done: seq<Message>, start: Shared, starts: map<Consumer, ConsumerState>)
      reads this, gopCache, consumers, set c | c in consumers :: c.jitter, set c | c in consumers :: c.queue
    {
      && State() == AfterAll(start, done)
      && sampleRate == start.tba && frameRate == start.tbv && atc == start.atc
      && forall c :: c in consumers ==>
           c in starts && starts[c].queue.size >= 0
           && c.State() == DeliveredAll(starts[c], done, start.tba, start.tbv, start.atc)
    }

    /** Takes the next message of an aggregate. */
    method TakePart(o: Message, ghost done: seq<Message>, ghost start: Shared,
        ghost starts: map<Consumer, ConsumerState>)
      requires Valid() && o.kind != Other && HasTaken(done, start, starts)
      modifies this, gopCache, set c | c in consumers :: c.jitter, set c | c in consumers :: c.queue
      ensures Valid() && consumers == old(consumers) && HasTaken(done + [o], start, starts)
    {
      hide DeliveredAll, Delivered, AfterAll, AfterAv;
      AfterAllSnoc(start, done, o);
      forall c | c in consumers
        ensures DeliveredAll(starts[c], done, start.tba, start.tbv, start.atc).queue.size >= 0
        ensures DeliveredAll(starts[c], done + [o], start.tba, start.tbv, start.atc)
             == Delivered(DeliveredAll(starts[c], done, start.tba, start.tbv, start.atc), o, start.tba, start.tbv,
                 start.atc)
      {
        DeliveredAllSnoc(starts[c], done, o, start.tba, start.tbv, start.atc);
      }
      OnAv(o);
    }

    /** Where cutting an aggregate message stands: `done` was taken and the rest is still to be cut. */
    ghost predicate Cutting(payload: array<byte>, done: seq<Message>, start: Shared,
        starts: map<Consumer, ConsumerState>)
      reads this, gopCache, consumers, set c | c in consumers :: c.jitter, set c | c in consumers :: c.queue
      reads aggregateStream, payload
    {
      && Valid() && HasTaken(done, start, starts)
      && aggregateStream.Valid() && aggregateStream.bytes == payload && aggregateStream.from == 0
      && aggregateStream.size == payload.Length && aggregateStream.p >= 0
      && SplitFrom(payload[..], aggregateStream.p, done) == Split(payload[..])
    }

    /** The body of the cutting loop. */
    method NextPart(payload: array<byte>, ghost done: seq<Message>, ghost start: Shared,
        ghost starts: map<Consumer, ConsumerState>)
      returns (ok: bool, ghost now: seq<Message>)
      requires Cutting(payload, done, start, starts) && !aggregateStream.Empty()
      modifies this, gopCache, aggregateStream, set c | c in consumers :: c.jitter, set c | c in consumers :: c.queue
      ensures consumers == old(consumers)
      ensures ok ==> Valid() && Cutting(payload, now, start, starts) && old(aggregateStream.p) < aggregateStream.p
                     && aggregateStream.size == payload.Length
      ensures !ok ==> Valid() && HasTaken(now, start, starts) && Split(payload[..]) == Parts(false, now)
    {
      hide PartAt, SplitFrom, Split, LiveSource.HasTaken;
      now := done;
      var o;
      assert aggregateStream.Data() == payload[..];
      SplitStep(payload[..], aggregateStream.p, done);
      ok, o := ReadPart(aggregateStream);
      assert aggregateStream.Data() == payload[..];
      if ok && o.kind != Other {
        TakePart(o, done, start, starts);
        now := done + [o];
      }
    }

    /** Cuts an aggregate message into its sub-messages and takes the audio and video ones. */
    method OnAggregate(payload: array<byte>) returns (ok: bool)
      requires Valid()
      modifies this, gopCache, aggregateStream, set c | c in consumers :: c.jitter, set c | c in consumers :: c.queue
      ensures Valid() && consumers == old(consumers)
      ensures ok == Split(payload[..]).ok
      ensures State() == AfterAll(old(State()), Split(payload[..]).msgs)
      ensures forall c :: c in consumers ==>
        c.State() == DeliveredAll(old(c.State()), Split(payload[..]).msgs, old(sampleRate), old(frameRate), old(atc))
    {
      hide LiveSource.HasTaken, LiveSource.Cutting, LiveSource.Valid, Split, DeliveredAll, AfterAll;
      ghost var start, starts;
      ok, start, starts := StartCutting(payload);
      if !ok {
        Taken([], start, starts);
        return;
      }
      ghost var done: seq<Message> := [];
      while !aggregateStream.Empty()
        invariant consumers == old(consumers) && ok && Valid() && Cutting(payload, done, start, starts)
        invariant aggregateStream.size == payload.Length
        decreases payload.Length - aggregateStream.p
      {
        ok, done := NextPart(payload, done, start, starts);
        if !ok {
          Taken(done, start, starts);
          return;
        }
      }
      AllCut(payload, done, start, starts);
      Taken(done, start, starts);
    }

    method StartCutting(payload: array<byte>) returns (ok: bool, ghost start: Shared,
        ghost starts: map<Consumer, ConsumerState>)
      requires Valid()
      modifies aggregateStream
      ensures Valid() && start == State() && starts.Keys == set c | c in consumers
      ensures forall c :: c in consumers ==> starts[c] == c.State()
      ensures ok ==> Cutting(payload, [], start, starts) && aggregateStream.size == payload.Length
      ensures !ok ==> Split(payload[..]) == Parts(false, []) && HasTaken([], start, starts)
    {
      hide SplitFrom;
      start, starts := State(), map c | c in consumers :: c.State();
      ok := aggregateStream.Initialize(payload, 0, payload.Length);
    }

    lemma AllCut(payload: array<byte>, done: seq<Message>, start: Shared, starts: map<Consumer, ConsumerState>)
      requires Cutting(payload, done, start, starts) && aggregateStream.Empty()
      ensures Valid() && HasTaken(done, start, starts) && Split(payload[..]) == Parts(true, done)
    {
      hide LiveSource.HasTaken;
      AllTaken(payload[..], aggregateStream.p, done);
    }

    lemma Taken(done: seq<Message>, start: Shared, starts: map<Consumer, ConsumerState>)
      requires HasTaken(done, start, starts)
      ensures State() == AfterAll(start, done)
      ensures forall c :: c in consumers ==>
                && c in starts && starts[c].queue.size >= 0
                && c.State() == DeliveredAll(starts[c], done, start.tba, start.tbv, start.atc)
    {
      hide DeliveredAll, AfterAll;
    }

    /** Metadata, already encoded; the rates it announces and the absolute-time decision are given. */
    method OnMetaData(msg: Message, tba: Option<int>, tbv: Option<int>, useAtc: bool)
      requires Valid() && msg.kind == Other
      modifies this, set c | c in consumers :: c.jitter, set c | c in consumers :: c.queue
      ensures Valid() && consumers == old(consumers)
      ensures State() == AfterMeta(old(State()), msg, tba, tbv, useAtc)
      ensures forall c :: c in consumers ==>
        c.State() == if |msg.payload| == 0 then old(c.State())
            else Delivered(old(c.State()), msg, sampleRate, frameRate, atc)
    {
      if tba.Some? {
        sampleRate := tba.value;
      }
      if tbv.Some? {
        frameRate := tbv.value;
      }
      atc := useAtc;
      if |msg.payload| <= 0 {
        return;
      }
      cacheMetadata := Some(msg);
      Dispatch(msg);
    }

    method OnUnpublish()
      modifies this, gopCache
      ensures State() == AfterUnpublish(old(State())) && consumers == old(consumers)
    {
      gopCache.Clear();
      cacheMetadata := None;
      frameRate, sampleRate := 0, 0;
      cacheShVideo, cacheShAudio := None, None;
    }

    /** The configured time mode is not taken over by a reload; only the pictures are dropped. */
    method OnReloadVhostAtc()
      modifies gopCache
      ensures State() == old(State()).(gop := Cleared(old(gopCache.State())))
    {
      gopCache.Clear();
    }

    method OnReloadVhostGopCache(enabled: bool)
      modifies gopCache
      ensures State() == old(State()).(gop := if enabled then old(gopCache.State()).(enabled := true)
              else Gop(false, 0, []))
    {
      gopCache.Set(enabled);
    }

    method OnReloadVhostQueueLength(length: nat)
      requires Valid()
      modifies set c | c in consumers :: c.queue
      ensures Valid()
      ensures forall c :: c in consumers ==>
              c.State()
              == old(c.State()).(queue := old(c.State()).queue.(size := length))
    {
      for i := 0 to |consumers|
        invariant Valid()
        invariant forall k :: 0 <= k < i ==>
          consumers[k].State() == old(consumers[k].State()).(queue :=
              old(consumers[k].State()).queue.(size := length))
        invariant forall k :: i <= k < |consumers| ==> consumers[k].State() == old(consumers[k].State())
      {
        consumers[i].SetQueueSize(length);
      }
    }

    /** Adds a player and starts it from the caches. */
    method CreateConsumer(length: nat) returns (consumer: Consumer)
      requires Valid()
      modifies this
      ensures Valid() && consumers == old(consumers) + [consumer]
      ensures fresh(consumer) && fresh(consumer.jitter) && fresh(consumer.queue)
      ensures State() == BeforeJoin(old(State()))
      ensures consumer.State() == Joined(old(State()), length)
    {
      consumer := new Consumer();
      consumers := consumers + [consumer];
      consumer.SetQueueSize(length);
      if atc && !gopCache.Empty() {
        cacheMetadata := Restamped(cacheMetadata, gopCache.GetStartTime());
        cacheShVideo := Restamped(cacheShVideo, gopCache.GetStartTime());
        cacheShAudio := Restamped(cacheShAudio, gopCache.GetStartTime());
      }
      assert State() == BeforeJoin(old(State()));
      hide DeliveredAll, BeforeJoin, FreshConsumer;
      Greet(consumer);
    }

    /** Sends a player what the caches hold. */
    method Greet(consumer: Consumer)
      requires consumer.queue.queueSizeMs >= 0
      modifies consumer.jitter, consumer.queue
      ensures consumer.queue.queueSizeMs == old(consumer.queue.queueSizeMs)
      ensures consumer.State()
           == DeliveredAll(old(consumer.State()), Held(State()), sampleRate, frameRate, atc)
    {
      hide DeliveredAll;
      GreetInSteps(consumer.State(), State());
      SendCached(consumer, cacheMetadata);
      SendCached(consumer, cacheShVideo);
      SendCached(consumer, cacheShAudio);
      gopCache.Dump(consumer, sampleRate, frameRate, atc);
    }

    /** Sends a cached message to a player, if there is one. */
    method SendCached(consumer: Consumer, m: Option<Message>)
      requires consumer.queue.queueSizeMs >= 0
      modifies consumer.jitter, consumer.queue
      ensures consumer.State() == DeliveredAll(old(consumer.State()), ToSeq(m), sampleRate, frameRate, atc)
      ensures consumer.queue.queueSizeMs == old(consumer.queue.queueSizeMs)
    {
      if m.Some? {
        DeliveredKeepsSize(consumer.State(), m.value, sampleRate, frameRate, atc);
        consumer.Enqueue(m.value, sampleRate, frameRate, atc);
      }
    }

    method OnConsumerDestroy(consumer: Consumer)
      requires Valid()
      modifies this`consumers
      ensures Valid()
      ensures consumer !in old(consumers) ==> consumers == old(consumers)
      ensures consumer in old(consumers) ==>
        (exists k :: 0 <= k < |old(consumers)| && old(consumers)[k] == consumer
                  && consumers == old(consumers)[..k] + old(consumers)[k + 1..])
    {
      var it := 0;
      while it < |consumers| && consumers[it] != consumer
        invariant it <= |consumers| && consumer !in consumers[..it]
      {
        it := it + 1;
      }
      if it < |consumers| {
        assert consumers[it] == consumer;
        consumers := consumers[..it] + consumers[it + 1..];
      }
    }
  }
}
