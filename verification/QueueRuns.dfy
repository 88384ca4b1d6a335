/**
 Whole runs of a player's queue: no message is lost or duplicated unaccounted, what is dropped are
 whole groups of pictures, and what is kept spans no more time than configured.
 */
module QueueRuns {
  import opened Pieces
  import opened LiveQueue

  // ---------------------------------------------------------------- conservation

  datatype Op = Put(m: Message) | Get(maxCount: int) | Resize(length: nat)

  /** Messages that left the queue together: handed to the reader, or dropped when `seen` messages
      had been enqueued. */
  datatype Batch = Out(msgs: seq<Message>) | Drop(msgs: seq<Message>, seen: nat)

  /** The queue, the batches that left it, and all messages ever enqueued. */
  datatype Log = Log(q: QueueState, left: seq<Batch>, all: seq<Message>)

  function Concat(bs: seq<Batch>): seq<Message> {
    if bs == [] then [] else Concat(bs[..|bs| - 1]) + bs[|bs| - 1].msgs
  }

  /** Shrinking with every drop recorded. */
  function Shrinking(l: Log): (r: Log)
    requires l.q.size >= 0
    ensures r.q == ShrunkEnough(l.q)
    decreases |l.q.msgs|, if l.q.Overflows() then 1 else 0
  {
    if l.q.Overflows() then
      Shrinking(Log(Shrunk(l.q), l.left + [Drop(l.q.msgs[..Cut(l.q.msgs)], |l.all|)], l.all))
    else l
  }

  function Step(l: Log, op: Op): (r: Log)
    requires l.q.size >= 0
  {
    match op
    case Put(m) => Shrinking(Log(Pushed(l.q, m), l.left, l.all + [m]))
    case Get(maxCount) => Log(Taken(l.q, maxCount), l.left + [Out(l.q.msgs[..Take(l.q, maxCount)])], l.all)
    case Resize(length) => l.(q := l.q.(size := length))
  }

  /** A recorded drop ended with everything enqueued so far, or in front of a video keyframe. */
  ghost predicate DropsWholeGops(l: Log) {
    forall k :: 0 <= k < |l.left| && l.left[k].Drop? ==>
      var end := |Concat(l.left[..k + 1])|;
      && l.left[k].msgs != []
      && end <= l.left[k].seen <= |l.all|
      && (end < l.left[k].seen ==> l.all[end].IsKeyframe())
  }

  /** Every message ever enqueued was delivered, dropped or is still queued: once, in order. */
  ghost predicate Accounted(l: Log) {
    Concat(l.left) + l.q.msgs == l.all && DropsWholeGops(l)
  }

  lemma ConcatSnoc(bs: seq<Batch>, b: Batch)
    ensures Concat(bs + [b]) == Concat(bs) + b.msgs
  {
    assert (bs + [b])[..|bs|] == bs;
  }

  /** A batch taken from the front of the queue keeps the account, if a drop ends properly. */
  lemma LeavesFront(l: Log, n: nat, b: Batch, q: QueueState)
    requires Accounted(l) && n <= |l.q.msgs| && b.msgs == l.q.msgs[..n] && q.msgs == l.q.msgs[n..]
    requires b.Drop? ==> n > 0 && b.seen == |l.all| && (n < |l.q.msgs| ==> l.q.msgs[n].IsKeyframe())
    ensures Accounted(Log(q, l.left + [b], l.all))
  {
    hide Concat;
    var left := l.left + [b];
    ConcatSnoc(l.left, b);
    assert Concat(left) + q.msgs == Concat(l.left) + (l.q.msgs[..n] + l.q.msgs[n..]);
    assert l.q.msgs[..n] + l.q.msgs[n..] == l.q.msgs;
    forall k | 0 <= k < |left| && left[k].Drop?
      ensures var end := |Concat(left[..k + 1])|;
              && left[k].msgs != [] && end <= left[k].seen <= |l.all|
              && (end < left[k].seen ==> l.all[end].IsKeyframe())
    {
      if k < |l.left| {
        assert left[..k + 1] == l.left[..k + 1];
      } else {
        assert left[..k + 1] == left;
        if n < |l.q.msgs| {
          assert l.all[|Concat(left)|] == l.q.msgs[n];
        }
      }
    }
  }

  lemma {:induction false} ShrinkingAccounts(l: Log)
    requires l.q.size >= 0 && Accounted(l) && (l.q.Overflows() ==> l.q.msgs != [])
    ensures Accounted(Shrinking(l))
    decreases |l.q.msgs|, if l.q.Overflows() then 1 else 0
  {
    hide Accounted;
    if l.q.Overflows() {
      var n := Cut(l.q.msgs);
      var b := Drop(l.q.msgs[..n], |l.all|);
      LeavesFront(l, n, b, Shrunk(l.q));
      ShrinkingAccounts(Log(Shrunk(l.q), l.left + [b], l.all));
    }
  }

  lemma PushAccounts(l: Log, m: Message)
    requires Accounted(l)
    ensures Accounted(Log(Pushed(l.q, m), l.left, l.all + [m]))
  {
    hide Concat;
    assert Concat(l.left) + (l.q.msgs + [m]) == l.all + [m];
  }

  lemma StepAccounts(l: Log, op: Op)
    requires l.q.size >= 0 && Accounted(l)
    ensures Accounted(Step(l, op)) && Step(l, op).q.size >= 0
  {
    hide Accounted, Shrinking;
    match op {
      case Put(m) =>
        PushAccounts(l, m);
        ShrinkingAccounts(Log(Pushed(l.q, m), l.left, l.all + [m]));
        SizeKept(Pushed(l.q, m));
      case Get(maxCount) =>
        var n := Take(l.q, maxCount);
        LeavesFront(l, n, Out(l.q.msgs[..n]), Taken(l.q, maxCount));
      case Resize(length) =>
        ResizeAccounts(l, length);
    }
  }

  lemma ResizeAccounts(l: Log, length: nat)
    requires Accounted(l)
    ensures Accounted(l.(q := l.q.(size := length)))
  {}

  function Run(l: Log, ops: seq<Op>): Log
    requires l.q.size >= 0
    decreases |ops|
  {
    if ops == [] then l
    else
      StepSize(l, ops[0]);
      Run(Step(l, ops[0]), ops[1..])
  }

  lemma StepSize(l: Log, op: Op)
    requires l.q.size >= 0
    ensures Step(l, op).q.size >= 0
  {
    if op.Put? {
      SizeKept(Pushed(l.q, op.m));
    }
  }

  /** Over any run of enqueueing, reading and resizing, what was enqueued is what was delivered,
      dropped and is still queued, in order; and every drop was of whole groups of pictures or of
      everything. */
  lemma {:induction false} RunAccounts(l: Log, ops: seq<Op>)
    requires l.q.size >= 0 && Accounted(l)
    ensures Accounted(Run(l, ops))
    decreases |ops|
  {
    hide Accounted, Step;
    if ops != [] {
      StepAccounts(l, ops[0]);
      RunAccounts(Step(l, ops[0]), ops[1..]);
    }
  }

  /** From a new queue on. */
  lemma NoMessageLost(ops: seq<Op>)
    ensures var l := Run(Log(EMPTY_QUEUE, [], []), ops);
            Concat(l.left) + l.q.msgs == l.all && DropsWholeGops(l)
  {
    hide Run;
    RunAccounts(Log(EMPTY_QUEUE, [], []), ops);
  }

  // ---------------------------------------------------------------- the corrected time line

  /** A corrector never steps back and never by more than half a second; a step it accepts is the
      step of the input. */
  lemma CorrectedStep(j: JitterState, m: Message, tba: int, tbv: int)
    requires j.corrected >= 0
    ensures var c := Corrected(j, m, tba, tbv);
            && 0 <= c.corrected - j.corrected <= MAX_JITTER_MS
            && (m.IsAv() && 0 <= m.time - j.last <= MAX_JITTER_MS ==> c.corrected - j.corrected == m.time - j.last)
  {}

  // ---------------------------------------------------------------- the time span

  /** Audio and video in the queue are in time order and between the two marks, no message has a later
      time than the audio and video behind it, and none is later than `now`. */
  ghost predicate Timed(q: QueueState, now: int) {
    && -1 <= q.start <= now && -1 <= q.end <= now && 0 <= now
    && (forall i :: 0 <= i < |q.msgs| ==> 0 <= q.msgs[i].time <= now)
    && (forall i :: 0 <= i < |q.msgs| && q.msgs[i].IsAv() ==> 0 <= q.start <= q.msgs[i].time <= q.end)
    && (forall i, j :: 0 <= i < j < |q.msgs| && q.msgs[j].IsAv() ==> q.msgs[i].time <= q.msgs[j].time)
  }

  /** No two audio or video messages in the queue are further apart than the configured length. */
  ghost predicate WithinSize(q: QueueState) {
    forall i, j :: 0 <= i < |q.msgs| && 0 <= j < |q.msgs| && q.msgs[i].IsAv() && q.msgs[j].IsAv() ==>
      q.msgs[i].time - q.msgs[j].time <= q.size
  }

  lemma PushedTimed(q: QueueState, now: int, m: Message)
    requires Timed(q, now) && 0 <= m.time && (m.IsAv() ==> now <= m.time)
    ensures Timed(Pushed(q, m), Max(now, m.time))
  {}

  lemma ShrunkTimed(q: QueueState, now: int)
    requires Timed(q, now)
    ensures Timed(Shrunk(q), now)
  {
    var n := Cut(q.msgs);
    if n < |q.msgs| {
      var r := q.msgs[n..];
      assert forall i :: 0 <= i < |r| ==> r[i] == q.msgs[n + i];
    }
  }

  lemma {:induction false} ShrunkEnoughTimed(q: QueueState, now: int)
    requires Timed(q, now) && q.size >= 0
    ensures Timed(ShrunkEnough(q), now)
    decreases |q.msgs|, if q.Overflows() then 1 else 0
  {
    hide Timed;
    if q.Overflows() {
      ShrunkTimed(q, now);
      ShrunkEnoughTimed(Shrunk(q), now);
    }
  }

  lemma TakenTimed(q: QueueState, now: int, maxCount: int)
    requires Timed(q, now)
    ensures Timed(Taken(q, maxCount), now)
  {
    var n := Take(q, maxCount);
    var r := q.msgs[n..];
    assert forall i :: 0 <= i < |r| ==> r[i] == q.msgs[n + i];
  }

  lemma SpanIsWithin(q: QueueState, now: int)
    requires Timed(q, now) && !q.Overflows()
    ensures WithinSize(q)
  {}

  /** What a player's session consists of. Feeding carries the rates announced at that time. */
  datatype Event = Feed(m: Message, tba: int, tbv: int) | Read(maxCount: int) | Pause(on: bool) | SetSize(length: nat)

  function Next(c: ConsumerState, e: Event, atc: bool): ConsumerState
    requires c.queue.size >= 0
  {
    match e
    case Feed(m, tba, tbv) => Delivered(c, m, tba, tbv, atc)
    case Read(maxCount) => if c.paused then c else c.(queue := Taken(c.queue, maxCount))
    case Pause(on) => c.(paused := on)
    case SetSize(length) => c.(queue := c.queue.(size := length))
  }

  lemma NextKeepsSize(c: ConsumerState, e: Event, atc: bool)
    requires c.queue.size >= 0
    ensures Next(c, e, atc).queue.size >= 0
  {
    if e.Feed? {
      DeliveredKeepsSize(c, e.m, e.tba, e.tbv, atc);
    }
  }

  function Session(c: ConsumerState, events: seq<Event>, atc: bool): (r: ConsumerState)
    requires c.queue.size >= 0
    ensures r.queue.size >= 0
    decreases |events|
  {
    if events == [] then c
    else
      NextKeepsSize(Session(c, events[..|events| - 1], atc), events[|events| - 1], atc);
      Next(Session(c, events[..|events| - 1], atc), events[|events| - 1], atc)
  }

  lemma OtherEventsTimed(c: ConsumerState, e: Event, now: int, atc: bool)
    requires c.queue.size >= 0 && Timed(c.queue, now) && !e.Feed?
    ensures Timed(Next(c, e, atc).queue, now)
  {
    if e.Read? {
      TakenTimed(c.queue, now, e.maxCount);
    }
  }

  /** A message with a time that fits in keeps the order, and what is then in the queue fits the size. */
  lemma EnqueuedTimed(q: QueueState, now: int, m: Message)
    requires Timed(q, now) && q.size >= 0 && 0 <= m.time && (m.IsAv() ==> now <= m.time)
    ensures Timed(Enqueued(q, m), Max(now, m.time)) && WithinSize(Enqueued(q, m))
  {
    hide Timed, WithinSize;
    PushedTimed(q, now, m);
    ShrunkEnoughTimed(Pushed(q, m), Max(now, m.time));
    SpanIsWithin(Enqueued(q, m), Max(now, m.time));
  }

  // ---- with the corrector

  ghost predicate Healthy(c: ConsumerState) {
    c.queue.size >= 0 && c.jitter.corrected >= 0 && Timed(c.queue, c.jitter.corrected)
  }

  lemma NextHealthy(c: ConsumerState, e: Event)
    requires Healthy(c)
    ensures Healthy(Next(c, e, false))
    ensures e.Feed? ==> WithinSize(Next(c, e, false).queue)
  {
    hide Timed, WithinSize;
    NextKeepsSize(c, e, false);
    if e.Feed? {
      CorrectedStep(c.jitter, e.m, e.tba, e.tbv);
      EnqueuedTimed(c.queue, c.jitter.corrected, Retimed(c.jitter, e.m, e.tba, e.tbv));
    } else {
      OtherEventsTimed(c, e, c.jitter.corrected, false);
    }
  }

  lemma FreshIsTimed(length: nat)
    ensures Timed(FreshConsumer(length).queue, 0)
  {}

  lemma {:induction false} SessionHealthy(length: nat, events: seq<Event>)
    ensures Healthy(Session(FreshConsumer(length), events, false))
    decreases |events|
  {
    hide Timed, Next;
    if events == [] {
      FreshIsTimed(length);
    } else {
      SessionHealthy(length, events[..|events| - 1]);
      NextHealthy(Session(FreshConsumer(length), events[..|events| - 1], false), events[|events| - 1]);
    }
  }

  /** Whatever timestamps arrive, and however the player reads, pauses and is resized: after each
      message fed to it the audio and video it holds span at most the configured time. */
  lemma QueueSpanBounded(length: nat, history: seq<Event>, e: Event)
    requires e.Feed?
    ensures WithinSize(Session(FreshConsumer(length), history + [e], false).queue)
  {
    hide Healthy, WithinSize, Next;
    SessionHealthy(length, history);
    NextHealthy(Session(FreshConsumer(length), history, false), e);
    assert (history + [e])[..|history|] == history;
  }

  // ---- in absolute time

  /** The messages fed in a session. */
  function Fed(events: seq<Event>): seq<Message> {
    if events == [] then []
    else Fed(events[..|events| - 1]) + if events[|events| - 1].Feed? then [events[|events| - 1].m] else []
  }

  function Feeds(ms: seq<Message>): seq<Event> {
    if ms == [] then [] else Feeds(ms[..|ms| - 1]) + [Feed(ms[|ms| - 1], 0, 0)]
  }

  /** A player that was given some messages at once. */
  function Given(ms: seq<Message>, length: nat): (r: ConsumerState)
    ensures r.queue.size >= 0
  {
    Session(FreshConsumer(length), Feeds(ms), true)
  }

  /** Timestamps have no sign. */
  ghost predicate NotNegative(ms: seq<Message>) {
    forall i :: 0 <= i < |ms| ==> 0 <= ms[i].time
  }

  /** Nothing, of whatever kind, is later than audio or video behind it. */
  ghost predicate InOrder(ms: seq<Message>) {
    forall i, j :: 0 <= i < j < |ms| && ms[j].IsAv() ==> ms[i].time <= ms[j].time
  }

  ghost predicate NoLater(ms: seq<Message>, now: int) {
    forall i :: 0 <= i < |ms| ==> ms[i].time <= now
  }

  lemma OrderOfConcat(a: seq<Message>, b: seq<Message>)
    ensures InOrder(a + b)
       <==> InOrder(a) && InOrder(b) && forall k :: 0 <= k < |b| && b[k].IsAv() ==> NoLater(a, b[k].time)
    ensures NotNegative(a + b) <==> NotNegative(a) && NotNegative(b)
    ensures forall now :: NoLater(a + b, now) <==> NoLater(a, now) && NoLater(b, now)
  {
    var ms := a + b;
    assert forall i :: 0 <= i < |a| ==> ms[i] == a[i];
    assert forall i :: 0 <= i < |b| ==> ms[|a| + i] == b[i];
  }

  /** What may come after the time `now`. */
  ghost predicate Later(more: seq<Message>, now: int) {
    NotNegative(more) && InOrder(more) && forall i :: 0 <= i < |more| && more[i].IsAv() ==> now <= more[i].time
  }

  /** After a message was fed the queue spans no more than its length. */
  ghost predicate Bounded(c: ConsumerState, events: seq<Event>)
    requires c.queue.size >= 0
  {
    (events != [] ==> events[|events| - 1].Feed?) ==> WithinSize(Session(c, events, true).queue)
  }

  function LatestTime(ms: seq<Message>): (r: int)
    ensures r >= 0 && NoLater(ms, r)
  {
    if ms == [] then 0 else Max(LatestTime(ms[..|ms| - 1]), ms[|ms| - 1].time)
  }

  lemma LatestIsBefore(ms: seq<Message>, t: int)
    requires t >= 0 && NoLater(ms, t)
    ensures LatestTime(ms) <= t
  {}

  lemma {:induction false} AbsoluteTimed(length: nat, events: seq<Event>)
    requires NotNegative(Fed(events)) && InOrder(Fed(events))
    ensures Timed(Session(FreshConsumer(length), events, true).queue, LatestTime(Fed(events)))
    ensures Bounded(FreshConsumer(length), events)
    decreases |events|
  {
    hide Timed, WithinSize, LatestTime;
    if events == [] {
      FreshIsTimed(length);
      EmptyIsWithin(length);
      assert LatestTime([]) == 0 by { NoLatest(); }
    } else {
      var front, e := events[..|events| - 1], events[|events| - 1];
      var ms, c := Fed(front), Session(FreshConsumer(length), front, true);
      assert forall i :: 0 <= i < |ms| ==> Fed(events)[i] == ms[i];
      AbsoluteTimed(length, front);
      if e.Feed? {
        assert Fed(events)[|ms|] == e.m;
        if e.m.IsAv() {
          LatestIsBefore(ms, e.m.time);
        }
        EnqueuedTimed(c.queue, LatestTime(ms), e.m);
        LatestSnoc(ms, e.m);
      } else {
        assert Fed(events) == ms;
        OtherEventsTimed(c, e, LatestTime(ms), true);
      }
    }
  }

  lemma EmptyIsWithin(length: nat)
    ensures WithinSize(FreshConsumer(length).queue)
  {}

  lemma NoLatest()
    ensures LatestTime([]) == 0
  {}

  lemma LatestSnoc(ms: seq<Message>, m: Message)
    ensures LatestTime(ms + [m]) == Max(LatestTime(ms), m.time)
  {
    assert (ms + [m])[..|ms|] == ms;
  }

  lemma {:induction false} FeedsFeed(ms: seq<Message>)
    ensures Fed(Feeds(ms)) == ms && (ms != [] ==> Feeds(ms) != [] && Feeds(ms)[|Feeds(ms)| - 1].Feed?)
    decreases |ms|
  {
    if ms != [] {
      var front := ms[..|ms| - 1];
      FeedsFeed(front);
      assert Feeds(ms)[..|Feeds(ms)| - 1] == Feeds(front);
      assert front + [ms[|ms| - 1]] == ms;
    }
  }

  lemma {:induction false} FedConcat(a: seq<Event>, b: seq<Event>)
    ensures Fed(a + b) == Fed(a) + Fed(b)
    decreases |b|
  {
    if b == [] {
      assert a + b == a;
    } else {
      assert (a + b)[..|a + b| - 1] == a + b[..|b| - 1];
      FedConcat(a, b[..|b| - 1]);
    }
  }

  lemma {:induction false} SessionConcat(c: ConsumerState, a: seq<Event>, b: seq<Event>, atc: bool)
    requires c.queue.size >= 0
    ensures Session(c, a + b, atc) == Session(Session(c, a, atc), b, atc)
    decreases |b|
  {
    hide Next;
    if b == [] {
      assert a + b == a;
    } else {
      assert (a + b)[..|a + b| - 1] == a + b[..|b| - 1];
      SessionConcat(c, a, b[..|b| - 1], atc);
    }
  }

  lemma SessionSnoc(c: ConsumerState, events: seq<Event>, e: Event, atc: bool)
    requires c.queue.size >= 0
    ensures Session(c, events + [e], atc) == Next(Session(c, events, atc), e, atc)
  {
    hide Next;
    assert (events + [e])[..|events|] == events;
  }

  /** A queue that is long enough keeps everything. */
  lemma {:induction false} AllStay(ms: seq<Message>, length: nat)
    requires NotNegative(ms) && NoLater(ms, length)
    ensures var q := Given(ms, length).queue;
            && q.msgs == ms && q.size == length && !Given(ms, length).paused
            && ((q.start == -1 && q.end == -1) || (0 <= q.start && 0 <= q.end <= length))
    decreases |ms|
  {
    if ms != [] {
      var front, m := ms[..|ms| - 1], ms[|ms| - 1];
      assert forall i :: 0 <= i < |front| ==> front[i] == ms[i];
      AllStay(front, length);
      SessionSnoc(FreshConsumer(length), Feeds(front), Feed(m, 0, 0), true);
      assert front + [m] == ms;
    }
  }

  /** What a reader does that takes all up to message i and then lets the queue be shortened. */
  function Trap(i: nat, size: nat, m: Message): seq<Event> {
    [Read(i + 1)] + [SetSize(size)] + [Feed(m, 0, 0)]
  }

  /** If message i is later than audio or video j behind it, a reader that takes all up to i makes the queue
      start at a time that j is before. */
  lemma TrapExceeds(ms: seq<Message>, now: nat, i: nat, j: nat)
    requires NotNegative(ms) && NoLater(ms, now) && i < j < |ms| && ms[j].IsAv() && ms[j].time < ms[i].time
    ensures var m := Message(Audio, now, []);
            && !Bounded(Given(ms, now), Trap(i, now - ms[i].time, m))
            && Fed(Trap(i, now - ms[i].time, m)) == [m] && Later([m], now)
  {
    hide NoLater, Trap, Session, Later;
    var m, c, size := Message(Audio, now, []), Given(ms, now), now - ms[i].time;
    AllStay(ms, now);
    NotAfter(ms, now, i);
    TrapQueue(c, ms, i, size, m);
    var q, rest := Session(c, Trap(i, size, m), true).queue, ms[i + 1..];
    assert rest[j - i - 1] == ms[j];
    assert q.msgs[|rest|] == m && q.msgs[j - i - 1] == ms[j];
    FedTrap(i, size, m);
    NowIsLater(now);
  }

  lemma NotAfter(ms: seq<Message>, now: int, i: nat)
    requires NotNegative(ms) && NoLater(ms, now) && i < |ms|
    ensures 0 <= ms[i].time <= now
  {}

  lemma NowIsLater(now: nat)
    ensures Later([Message(Audio, now, [])], now)
  {}

  /** The reader makes the queue start at the time of message i, and the message that is fed is not further
      away from that than the queue is long. */
  lemma TrapQueue(c: ConsumerState, ms: seq<Message>, i: nat, size: nat, m: Message)
    requires c.queue.size >= 0 && c.queue.msgs == ms && !c.paused && i < |ms| && m.IsAv()
    requires 0 <= ms[i].time && m.time - ms[i].time == size
    ensures Session(c, Trap(i, size, m), true).queue == QueueState(ms[i + 1..] + [m], ms[i].time, m.time, size)
    ensures Trap(i, size, m) != [] && Trap(i, size, m)[|Trap(i, size, m)| - 1].Feed?
  {
    var read, sized := [] + [Read(i + 1)], [] + [Read(i + 1)] + [SetSize(size)];
    SessionSnoc(c, [], Read(i + 1), true);
    SessionSnoc(c, read, SetSize(size), true);
    SessionSnoc(c, sized, Feed(m, 0, 0), true);
    assert Trap(i, size, m) == sized + [Feed(m, 0, 0)];
    assert Session(c, [], true) == c;
    hide Session;
    var taken := Taken(c.queue, i + 1);
    assert taken.msgs == ms[i + 1..] && taken.start == ms[i].time;
    assert Session(c, sized, true).queue == taken.(size := size);
  }

  lemma FedTrap(i: nat, size: nat, m: Message)
    ensures Fed(Trap(i, size, m)) == [m]
  {
    var a, b, c := [Read(i + 1)], [SetSize(size)], [Feed(m, 0, 0)];
    assert a[..0] == b[..0] == c[..0] == [];
    assert Fed(a) == Fed(b) == [] && Fed(c) == [] + [m] == [m];
    FedConcat(a, b);
    FedConcat(a + b, c);
  }

  /** In absolute time, a player that is given some messages at once, and then others with any reads,
      pauses and resizes in between: whatever comes later, its queue keeps to its length exactly when all
      that it was fed is in order. */
  lemma AbsoluteBoundIff(first: seq<Message>, next: seq<Message>, now: nat)
    requires NotNegative(first + next) && NoLater(first + next, now)
    ensures InOrder(first + next)
       <==> forall length: nat, more, events :: Later(more, now) && Fed(events) <= next + more ==>
              Bounded(Given(first, length), events)
  {
    hide Bounded, Later, Session;
    if InOrder(first + next) {
      forall length: nat, more, events | Later(more, now) && Fed(events) <= next + more
        ensures Bounded(Given(first, length), events)
      {
        OrderedStaysBounded(first, next, now, length, more, events);
      }
    } else {
      var ms := first + next;
      var i, j :| 0 <= i < j < |ms| && ms[j].IsAv() && ms[j].time < ms[i].time;
      DisorderExceeds(first, next, now, i, j);
    }
  }

  lemma OrderedStaysBounded(first: seq<Message>, next: seq<Message>, now: nat, length: nat, more: seq<Message>,
      events: seq<Event>)
    requires NotNegative(first + next) && NoLater(first + next, now) && InOrder(first + next)
    requires Later(more, now) && Fed(events) <= next + more
    ensures Bounded(Given(first, length), events)
  {
    hide WithinSize, Session, InOrder, NotNegative, NoLater;
    var all, whole := Feeds(first) + events, first + next + more;
    FeedsFeed(first);
    FedConcat(Feeds(first), events);
    Assoc(first, next, more);
    OrderOfConcat(first + next, more);
    NoLaterThanMore(first + next, more, now);
    PrefixInOrder(Fed(all), whole);
    AbsoluteTimed(length, all);
    SessionConcat(FreshConsumer(length), Feeds(first), events, true);
    assert events != [] ==> all[|all| - 1] == events[|events| - 1];
    assert events == [] ==> all == Feeds(first);
  }

  lemma NoLaterThanMore(ms: seq<Message>, more: seq<Message>, now: int)
    requires NoLater(ms, now) && Later(more, now)
    ensures NotNegative(more) && InOrder(more)
    ensures forall k :: 0 <= k < |more| && more[k].IsAv() ==> NoLater(ms, more[k].time)
  {}

  lemma PrefixInOrder(a: seq<Message>, b: seq<Message>)
    requires a <= b && NotNegative(b) && InOrder(b)
    ensures NotNegative(a) && InOrder(a)
  {
    assert forall k :: 0 <= k < |a| ==> a[k] == b[k];
  }

  lemma DisorderExceeds(first: seq<Message>, next: seq<Message>, now: nat, i: nat, j: nat)
    requires NotNegative(first + next) && NoLater(first + next, now)
    requires i < j < |first + next| && (first + next)[j].IsAv() && (first + next)[j].time < (first + next)[i].time
    ensures exists length: nat, more, events ::
              Later(more, now) && Fed(events) <= next + more && !Bounded(Given(first, length), events)
  {
    hide WithinSize, Session, Later, InOrder;
    var ms, m := first + next, Message(Audio, now, []);
    var trap := Trap(i, now - ms[i].time, m);
    TrapExceeds(ms, now, i, j);
    var events := Feeds(next) + trap;
    FeedsFeed(next);
    FedConcat(Feeds(next), trap);
    FeedsConcat(first, next);
    SessionConcat(FreshConsumer(now), Feeds(first), Feeds(next), true);
    SessionConcat(Given(first, now), Feeds(next), trap, true);
    assert events[|events| - 1] == trap[|trap| - 1];
    assert Later([m], now) && Fed(events) <= next + [m] && !Bounded(Given(first, now), events);
  }

  lemma {:induction false} FeedsConcat(a: seq<Message>, b: seq<Message>)
    ensures Feeds(a + b) == Feeds(a) + Feeds(b)
    decreases |b|
  {
    if b == [] {
      assert a + b == a;
    } else {
      assert (a + b)[..|a + b| - 1] == a + b[..|b| - 1];
      FeedsConcat(a, b[..|b| - 1]);
    }
  }

  // ---------------------------------------------------------------- when shrinking ends

  /** The queue after n turns of the shrinking loop. */
  function ShrunkTimes(q: QueueState, n: nat): QueueState
    decreases n
  {
    if n == 0 then q else ShrunkTimes(Shrunk(q), n - 1)
  }

  ghost predicate LoopEnds(q: QueueState) {
    exists n: nat :: !ShrunkTimes(q, n).Overflows()
  }

  lemma {:induction false} EndsWhenItCan(q: QueueState) returns (n: nat)
    requires CanShrink(q)
    ensures ShrunkTimes(q, n) == ShrunkEnough(q)
    decreases |q.msgs|, if q.Overflows() then 1 else 0
  {
    n := 0;
    if q.Overflows() {
      ShrinkingGoesOn(q);
      n := EndsWhenItCan(Shrunk(q));
      n := n + 1;
    }
  }

  lemma StaysStuck(q: QueueState)
    requires !CanShrink(q)
    ensures q.Overflows() && !CanShrink(Shrunk(q))
  {
    var n, r := Cut(q.msgs), Shrunk(q);
    if n < |q.msgs| {
      assert q.msgs[n].IsKeyframe();
      forall k | 1 <= k < |r.msgs| && r.msgs[k].IsKeyframe()
        ensures r.end - r.msgs[k].time > r.size
      {
        assert r.msgs[k] == q.msgs[n + k];
      }
    }
  }

  lemma {:induction false} StuckOverflows(q: QueueState, n: nat)
    requires !CanShrink(q)
    ensures ShrunkTimes(q, n).Overflows()
    decreases n
  {
    StaysStuck(q);
    if n > 0 {
      StuckOverflows(Shrunk(q), n - 1);
    }
  }

  /** For every queue: the shrinking loop ends exactly when the length is not negative, or nothing
      overflows, or some keyframe behind the front is so late that the queue from there on fits. */
  lemma ShrinkingEndsIff(q: QueueState)
    ensures LoopEnds(q)
            <==> || q.size >= 0 || !q.Overflows()
                 || exists k :: 1 <= k < |q.msgs| && q.msgs[k].IsKeyframe() && q.end - q.msgs[k].time <= q.size
  {
    hide ShrunkTimes;
    if CanShrink(q) {
      var n := EndsWhenItCan(q);
      assert !ShrunkTimes(q, n).Overflows();
    } else {
      forall n: nat
        ensures ShrunkTimes(q, n).Overflows()
      {
        StuckOverflows(q, n);
      }
    }
  }

  /** In a queue whose times are in order, as the corrector makes them, no keyframe is late enough. */
  lemma CorrectedShrinkingEndsIff(q: QueueState, now: int)
    requires Timed(q, now)
    ensures LoopEnds(q) <==> q.size >= 0 || !q.Overflows()
  {
    hide LoopEnds;
    ShrinkingEndsIff(q);
    assert forall k :: 1 <= k < |q.msgs| && q.msgs[k].IsKeyframe() ==> q.end - q.msgs[k].time >= 0;
  }

  /** A player whose length is negative never gets its first message: the loop does not end. */
  lemma NegativeLengthNeverEnds(length: int, m: Message)
    requires length < 0
    ensures !LoopEnds(Pushed(FreshConsumer(length).queue, m))
  {
    hide LoopEnds;
    ShrinkingEndsIff(Pushed(FreshConsumer(length).queue, m));
  }
}
