/**
 Players of a source in absolute time, where nothing is corrected: which of them keep to the length of
 their queue, from what the source had kept when they joined and from what the stream sends them then.
 */
module AbsoluteTime {
  import opened Pieces
  import opened LiveQueue
  import opened Source
  import opened QueueRuns
  import SourceTheorems

  // ---------------------------------------------------------------- what a player is started with

  lemma {:induction false} DeliveredAreFed(c: ConsumerState, ms: seq<Message>, tba: int, tbv: int)
    requires c.queue.size >= 0
    ensures DeliveredAll(c, ms, tba, tbv, true) == Session(c, Feeds(ms), true)
    decreases |ms|
  {
    hide Delivered;
    if ms != [] {
      var front, m := ms[..|ms| - 1], ms[|ms| - 1];
      DeliveredAreFed(c, front, tba, tbv);
      DeliveredAllSnoc(c, front, m, tba, tbv, true);
      assert front + [m] == ms;
      SessionSnoc(c, Feeds(front), Feed(m, 0, 0), true);
      RatesDoNotMatter(Session(c, Feeds(front), true), m, tba, tbv);
    }
  }

  lemma RatesDoNotMatter(c: ConsumerState, m: Message, tba: int, tbv: int)
    requires c.queue.size >= 0
    ensures Delivered(c, m, tba, tbv, true) == Delivered(c, m, 0, 0, true)
  {}

  /** A player that joins is given the greeting. */
  lemma JoinedIsGiven(r: Shared, length: nat)
    requires r.atc
    ensures Joined(r, length) == Given(Greeting(r), length)
  {
    hide DeliveredAll, Session, Greeting;
    DeliveredAreFed(FreshConsumer(length), Greeting(r), r.tba, r.tbv);
  }

  /** What is kept has times up to `now`; the cached pictures are in order. */
  ghost predicate Holds(r: Shared, now: int) {
    && HeaderHolds(r.meta, Other, now) && HeaderHolds(r.videoSh, Video, now) && HeaderHolds(r.audioSh, Audio, now)
    && NotNegative(r.gop.msgs) && NoLater(r.gop.msgs, now) && InOrder(r.gop.msgs)
    && forall i :: 0 <= i < |r.gop.msgs| ==> r.gop.msgs[i].IsAv()
  }

  predicate HeaderHolds(m: Option<Message>, kind: Kind, now: int) {
    m.Some? ==> m.value.kind == kind && 0 <= m.value.time <= now
  }

  /** The second header, if both are kept, is not stamped earlier than the first. */
  predicate NotBefore(first: Option<Message>, second: Option<Message>) {
    first.Some? && second.Some? ==> first.value.time <= second.value.time
  }

  /** A player can be started in order: from cached pictures, to whose time the headers are moved, or from
      headers that are stamped in the order in which they are sent. */
  predicate StartsInOrder(r: Shared) {
    || r.gop.msgs != []
    || (NotBefore(r.meta, r.videoSh) && NotBefore(r.meta, r.audioSh) && NotBefore(r.videoSh, r.audioSh))
  }

  function Headers(s: Shared): seq<Message> {
    ToSeq(s.meta) + ToSeq(s.videoSh) + ToSeq(s.audioSh)
  }

  lemma HeadersAreHeld(r: Shared, now: int)
    requires Holds(r, now)
    ensures NotNegative(Headers(r)) && NoLater(Headers(r), now)
  {
    OrderOfConcat(ToSeq(r.meta), ToSeq(r.videoSh));
    OrderOfConcat(ToSeq(r.meta) + ToSeq(r.videoSh), ToSeq(r.audioSh));
  }

  /** With cached pictures all headers are moved to the time of the first. */
  lemma MovedHeaders(r: Shared)
    requires r.atc && r.gop.msgs != []
    ensures forall i :: 0 <= i < |Headers(BeforeJoin(r))| ==> Headers(BeforeJoin(r))[i].time == r.gop.msgs[0].time
  {}

  lemma GreetingIs(r: Shared)
    ensures Greeting(r) == Headers(BeforeJoin(r)) + r.gop.msgs && (r.gop.msgs == [] ==> Greeting(r) == Headers(r))
  {}

  lemma GreetingInOrderIff(r: Shared, now: int)
    requires r.atc && Holds(r, now)
    ensures NotNegative(Greeting(r)) && NoLater(Greeting(r), now)
    ensures InOrder(Greeting(r)) <==> StartsInOrder(r)
  {
    hide InOrder, NotNegative, NoLater, BeforeJoin, Headers, Greeting;
    GreetingIs(r);
    if r.gop.msgs == [] {
      HeadersAreHeld(r, now);
      HeadersInOrderIff(r);
    } else {
      var heads, t := Headers(BeforeJoin(r)), r.gop.msgs[0].time;
      MovedHeaders(r);
      FirstIsEarliest(r.gop.msgs);
      TimeOfFirst(r.gop.msgs, now);
      OneStamp(heads, t);
      OrderOfConcat(heads, r.gop.msgs);
      forall k | 0 <= k < |r.gop.msgs|
        ensures NoLater(heads, r.gop.msgs[k].time)
      {
        OneStampIsNoLater(heads, t, r.gop.msgs[k].time);
      }
      OneStampIsNoLater(heads, t, now);
    }
  }

  lemma TimeOfFirst(ms: seq<Message>, now: int)
    requires ms != [] && NotNegative(ms) && NoLater(ms, now)
    ensures 0 <= ms[0].time <= now
  {}

  lemma OneStampIsNoLater(ms: seq<Message>, t: int, now: int)
    requires forall i :: 0 <= i < |ms| ==> ms[i].time == t
    ensures t <= now ==> NoLater(ms, now)
  {}

  /** Messages of one time are in order. */
  lemma OneStamp(ms: seq<Message>, t: int)
    ensures (forall i :: 0 <= i < |ms| ==> ms[i].time == t) && t >= 0 ==>
            InOrder(ms) && NotNegative(ms) && NoLater(ms, t)
  {}

  lemma FirstIsEarliest(ms: seq<Message>)
    requires InOrder(ms) && ms != [] && forall i :: 0 <= i < |ms| ==> ms[i].IsAv()
    ensures forall k :: 0 <= k < |ms| ==> ms[0].time <= ms[k].time
  {
    forall k | 0 <= k < |ms|
      ensures ms[0].time <= ms[k].time
    {
      assert k == 0 || ms[0].time <= ms[k].time;
    }
  }

  lemma HeadersInOrderIff(r: Shared)
    requires r.meta.Some? ==> r.meta.value.kind == Other
    requires r.videoSh.Some? ==> r.videoSh.value.kind == Video
    requires r.audioSh.Some? ==> r.audioSh.value.kind == Audio
    ensures InOrder(Headers(r))
       <==> NotBefore(r.meta, r.videoSh) && NotBefore(r.meta, r.audioSh) && NotBefore(r.videoSh, r.audioSh)
  {
    OrderOfConcat(ToSeq(r.meta), ToSeq(r.videoSh));
    OrderOfConcat(ToSeq(r.meta) + ToSeq(r.videoSh), ToSeq(r.audioSh));
    BehindOne(r.meta, r.videoSh);
    BehindOne(r.meta, r.audioSh);
    BehindOne(r.videoSh, r.audioSh);
  }

  lemma BehindOne(first: Option<Message>, second: Option<Message>)
    ensures NotBefore(first, second) <==>
            forall k :: 0 <= k < |ToSeq(second)| ==> NoLater(ToSeq(first), ToSeq(second)[k].time)
  {
    if first.Some? && second.Some? {
      assert ToSeq(second)[0] == second.value && ToSeq(first)[0] == first.value;
    }
  }

  /** A player that joins a source in absolute time, whatever has led to what the source keeps: over all
      later streams in order, lengths, reads, pauses and resizes its queue keeps to its length exactly when
      pictures are cached, or the headers that are kept are stamped in the order in which they are sent. */
  lemma CreatedPlayerBoundIff(r: Shared, now: nat)
    requires r.atc && Holds(r, now)
    ensures StartsInOrder(r)
       <==> forall length: nat, more, events :: Later(more, now) && Fed(events) <= more ==>
              Bounded(Joined(r, length), events)
  {
    hide Holds, StartsInOrder, Greeting, Given, Joined, Bounded, Later;
    GreetingInOrderIff(r, now);
    var g := Greeting(r);
    assert g + [] == g;
    AbsoluteBoundIff(g, [], now);
    forall length: nat
      ensures Joined(r, length) == Given(g, length)
    {
      JoinedIsGiven(r, length);
    }
    assert forall more: seq<Message> :: [] + more == more;
  }

  // ---------------------------------------------------------------- whole streams

  /** The messages that an event of a session sends to the players. */
  function LiveOf(e: SourceTheorems.Event): seq<Message> {
    match e
    case Av(m) => [m]
    case Meta(m, _, _, _) => if m.payload == [] then [] else [m]
    case Join => []
  }

  function Live(es: seq<SourceTheorems.Event>): seq<Message> {
    if es == [] then [] else Live(es[..|es| - 1]) + LiveOf(es[|es| - 1])
  }

  lemma {:induction false} LiveConcat(a: seq<SourceTheorems.Event>, b: seq<SourceTheorems.Event>)
    ensures Live(a + b) == Live(a) + Live(b)
    decreases |b|
  {
    hide LiveOf;
    if b == [] {
      assert a + b == a;
    } else {
      assert (a + b)[..|a + b| - 1] == a + b[..|b| - 1];
      LiveConcat(a, b[..|b| - 1]);
    }
  }

  /** Metadata keeps the time absolute. */
  predicate Absolute(es: seq<SourceTheorems.Event>) {
    forall i :: 0 <= i < |es| ==> SourceTheorems.ValidEvent(es[i]) && (es[i].Meta? ==> es[i].atc)
  }

  predicate NothingKept(s: Shared) {
    s.meta.None? && s.videoSh.None? && s.audioSh.None? && s.gop.msgs == []
  }

  lemma {:induction false} StreamIsHeld(s: Shared, es: seq<SourceTheorems.Event>, now: int)
    requires NothingKept(s) && s.atc && Absolute(es)
    requires NotNegative(Live(es)) && NoLater(Live(es), now) && InOrder(Live(es))
    ensures SourceTheorems.Run(s, es).atc && Holds(SourceTheorems.Run(s, es), now)
    decreases |es|
  {
    hide SourceTheorems.Next, Holds;
    if es == [] {
      NothingIsHeld(s, now);
    } else {
      var front, e := es[..|es| - 1], es[|es| - 1];
      assert forall i :: 0 <= i < |Live(front)| ==> Live(es)[i] == Live(front)[i];
      assert forall i :: 0 <= i < |LiveOf(e)| ==> Live(es)[|Live(front)| + i] == LiveOf(e)[i];
      StreamIsHeld(s, front, now);
      assert LiveOf(e) != [] ==> Live(es)[|Live(front)|] == e.m;
      if e.Av? {
        assert Live(es)[|Live(front)|] == e.m;
        StreamIsHeld(s, front, e.m.time);
      }
      EventIsHeld(SourceTheorems.Run(s, front), e, now);
    }
  }

  lemma NothingIsHeld(s: Shared, now: int)
    requires NothingKept(s)
    ensures Holds(s, now)
  {}

  lemma EventIsHeld(r: Shared, e: SourceTheorems.Event, now: int)
    requires r.atc && Holds(r, now) && SourceTheorems.ValidEvent(e) && (e.Meta? ==> e.atc)
    requires e.Av? ==> Holds(r, e.m.time) && 0 <= e.m.time <= now
    requires e.Meta? && e.m.payload != [] ==> 0 <= e.m.time <= now
    ensures SourceTheorems.Next(r, e).atc && Holds(SourceTheorems.Next(r, e), now)
  {
    if e.Av? {
      CachedIsHeld(r.gop, e.m, now);
    }
  }

  lemma CachedIsHeld(g: Gop, m: Message, now: int)
    requires NotNegative(g.msgs) && NoLater(g.msgs, m.time) && InOrder(g.msgs) && m.IsAv() && 0 <= m.time <= now
    requires forall i :: 0 <= i < |g.msgs| ==> g.msgs[i].IsAv()
    ensures var r := Cached(g, m);
            && NotNegative(r.msgs) && NoLater(r.msgs, now) && InOrder(r.msgs)
            && forall i :: 0 <= i < |r.msgs| ==> r.msgs[i].IsAv()
  {}

  /** All that the player is fed that joins after the first j events. */
  function FedTo(s: Shared, es: seq<SourceTheorems.Event>, j: nat): seq<Message>
    requires j <= |es|
  {
    Greeting(SourceTheorems.Run(s, es[..j])) + Live(es[j..])
  }

  lemma AbsoluteFront(es: seq<SourceTheorems.Event>, j: nat)
    requires Absolute(es) && j <= |es|
    ensures Absolute(es[..j])
  {}

  lemma FedToIsSane(s: Shared, es: seq<SourceTheorems.Event>, j: nat, now: int)
    requires NothingKept(s) && s.atc && Absolute(es) && j <= |es|
    requires NotNegative(Live(es)) && NoLater(Live(es), now) && InOrder(Live(es))
    ensures SourceTheorems.Run(s, es[..j]).atc && NotNegative(FedTo(s, es, j)) && NoLater(FedTo(s, es, j), now)
    ensures InOrder(FedTo(s, es, j)) <==> StartsInOrder(SourceTheorems.Run(s, es[..j]))
  {
    hide Holds, StartsInOrder, Greeting, SourceTheorems.Run, InOrder, NotNegative, NoLater, Absolute, Live;
    var a, b := es[..j], es[j..];
    assert a + b == es;
    LiveConcat(a, b);
    OrderOfConcat(Live(a), Live(b));
    AbsoluteFront(es, j);
    var r := SourceTheorems.Run(s, a);
    StreamIsHeld(s, a, now);
    GreetingInOrderIff(r, now);
    var g := Greeting(r);
    OrderOfConcat(g, Live(b));
    forall k | 0 <= k < |Live(b)| && Live(b)[k].IsAv()
      ensures NoLater(g, Live(b)[k].time)
    {
      StreamIsHeld(s, a, Live(b)[k].time);
      GreetingInOrderIff(r, Live(b)[k].time);
    }
  }

  /** The player that joins after the first j events and the events that follow, with what it does itself. */
  ghost predicate KeepsBound(s: Shared, es: seq<SourceTheorems.Event>, j: nat, length: nat, more: seq<Message>,
      events: seq<Event>)
    requires j <= |es|
  {
    Later(more, LatestTime(Live(es))) && Fed(events) <= Live(es[j..]) + more ==>
      Bounded(Joined(SourceTheorems.Run(s, es[..j]), length), events)
  }

  lemma StartedInOrderKeeps(s: Shared, es: seq<SourceTheorems.Event>, j: nat, length: nat, more: seq<Message>,
      events: seq<Event>)
    requires NothingKept(s) && s.atc && Absolute(es) && NotNegative(Live(es)) && InOrder(Live(es))
    requires j <= |es| && StartsInOrder(SourceTheorems.Run(s, es[..j]))
    ensures KeepsBound(s, es, j, length, more, events)
  {
    hide StartsInOrder, Greeting, SourceTheorems.Run, Bounded, Later, Joined, Given, InOrder, NotNegative, NoLater;
    var now, r := LatestTime(Live(es)), SourceTheorems.Run(s, es[..j]);
    FedToIsSane(s, es, j, now);
    if Later(more, now) && Fed(events) <= Live(es[j..]) + more {
      OrderedStaysBounded(Greeting(r), Live(es[j..]), now, length, more, events);
      JoinedIsGiven(r, length);
    }
  }

  lemma FedOutOfOrderExceeds(s: Shared, es: seq<SourceTheorems.Event>, j: nat)
    requires j <= |es| && SourceTheorems.Run(s, es[..j]).atc
    requires NotNegative(FedTo(s, es, j)) && NoLater(FedTo(s, es, j), LatestTime(Live(es))) && !InOrder(FedTo(s, es, j))
    ensures exists length: nat, more, events :: !KeepsBound(s, es, j, length, more, events)
  {
    hide Greeting, SourceTheorems.Run, Bounded, Later, Joined, Given, NotNegative, NoLater;
    var r, now, ms := SourceTheorems.Run(s, es[..j]), LatestTime(Live(es)), FedTo(s, es, j);
    var i, k :| 0 <= i < k < |ms| && ms[k].IsAv() && ms[k].time < ms[i].time;
    DisorderExceeds(Greeting(r), Live(es[j..]), now, i, k);
    var length: nat, more, events :| Later(more, now) && Fed(events) <= Live(es[j..]) + more
                                     && !Bounded(Given(Greeting(r), length), events);
    JoinedIsGiven(r, length);
    assert !KeepsBound(s, es, j, length, more, events);
  }

  lemma FirstIsFedTheStream(s: Shared, es: seq<SourceTheorems.Event>)
    requires NothingKept(s)
    ensures FedTo(s, es, 0) == Live(es) && SourceTheorems.Run(s, es[..0]) == s
  {
    assert es[..0] == [] && es[0..] == es;
    assert Greeting(s) == [];
  }

  /** A stream in absolute time, from its publication on: the queues of all players, whenever they join, and
      whatever their lengths, reads, pauses and resizes are and the stream goes on with, keep to their length
      exactly when the stream is in order and each time a player can be started in order. */
  lemma StreamBoundIff(s: Shared, es: seq<SourceTheorems.Event>)
    requires NothingKept(s) && s.atc && Absolute(es) && NotNegative(Live(es))
    ensures InOrder(Live(es)) && (forall j :: 0 <= j <= |es| ==> StartsInOrder(SourceTheorems.Run(s, es[..j])))
       <==> forall j, length: nat, more, events :: 0 <= j <= |es| ==> KeepsBound(s, es, j, length, more, events)
  {
    hide StartsInOrder, Greeting, SourceTheorems.Run, KeepsBound, InOrder, NotNegative, NoLater, FedTo;
    if !InOrder(Live(es)) {
      FirstIsFedTheStream(s, es);
      FedOutOfOrderExceeds(s, es, 0);
    } else if j :| 0 <= j <= |es| && !StartsInOrder(SourceTheorems.Run(s, es[..j])) {
      FedToIsSane(s, es, j, LatestTime(Live(es)));
      FedOutOfOrderExceeds(s, es, j);
    } else {
      forall j, length: nat, more, events | 0 <= j <= |es|
        ensures KeepsBound(s, es, j, length, more, events)
      {
        StartedInOrderKeeps(s, es, j, length, more, events);
      }
    }
  }
}
