/** Recording a live stream into FLV files: when the segment and the hss plan cut. */
module Dvr {
  import opened LiveQueue

  // ---------------------------------------------------------------- counting time

  /** Times in milliseconds: of the current segment, and of the stream since it was published. */
  datatype Segment = Segment(start: int, duration: int, streamStart: int, streamDuration: int, previous: int)

  const NEW_SEGMENT := Segment(-1, 0, 0, 0, -1)

  /** A packet at time t is counted; a time that runs backwards counts as no step. */
  function Counted(s: Segment, t: int): Segment {
    var previous := if s.previous < 0 || s.previous > t then t else s.previous;
    Segment(if s.start < 0 then t else s.start, s.duration + (t - previous), s.streamStart,
        s.streamDuration + (t - previous), t)
  }

  function Emptied(s: Segment): Segment {
    s.(start := -1, duration := 0)
  }

  function Republished(s: Segment, now: int): Segment {
    s.(previous := -1, streamStart := now, streamDuration := 0)
  }

  /** How opening the next file can end: the header may fail behind a successful open. */
  datatype OpenResult = Opened | OpenFailed | HeaderFailed

  /** A plan; `reaped` are the durations of the segments closed since the stream was published. */
  datatype Plan = Plan(enabled: bool, open: bool, segment: Segment, jitter: JitterState, reapAt: int, reaped: seq<int>)

  const NEW_PLAN := Plan(false, false, NEW_SEGMENT, JitterState(0, 0), 0, [])

  function AfterOpen(p: Plan, how: OpenResult): Plan {
    p.(segment := Emptied(p.segment), open := how != OpenFailed, enabled := p.enabled || how == Opened)
  }

  /** Closing the current file and, unless the renaming failed, opening the next one. */
  function AfterReap(p: Plan, closed: bool, how: OpenResult): Plan {
    var c := p.(open := false, reaped := p.reaped + [p.segment.duration]);
    if !closed then c.(segment := Emptied(c.segment)) else AfterOpen(c.(enabled := false), how)
  }

  /** A plan that starts recording a newly published stream. */
  function Begun(segment: Segment, now: int, reapAt: int, how: OpenResult): Plan {
    AfterOpen(Plan(false, false, Republished(segment, now), JitterState(0, 0), reapAt, []), how)
  }

  /** The hss plan only fixes its grid when the file could be opened. */
  function BegunHss(segment: Segment, now: int, length: int, before: int, how: OpenResult): Plan {
    Begun(segment, now, if how == Opened then now + length else before, how)
  }

  /** The segment plan cuts by the duration of the segment. */
  predicate SegmentDue(s: Segment, length: int) {
    length > 0 && s.duration > length
  }

  /** The hss plan cuts when the stream passes a fixed grid of times. */
  predicate HssDue(p: Plan) {
    && p.reapAt > 0 && p.segment.streamStart > 0 && p.segment.streamDuration > 0
    && p.segment.streamStart + p.segment.streamDuration > p.reapAt
  }

  // ---------------------------------------------------------------- the plan objects

  /** The part the plans share. */
  class DvrPlan {
    var dvrEnabled: bool
    var isOpen: bool
    var segment: Segment
    var jitter: RtmpJitter
    var expectReapTime: int
    // whether a file begins with a header
    const headed: bool
    ghost var reaped: seq<int>

    constructor (h: bool)
      ensures State() == NEW_PLAN && fresh(jitter) && headed == h
    {
      headed := h;
      dvrEnabled, isOpen, segment := false, false, NEW_SEGMENT;
      jitter := new RtmpJitter();
      expectReapTime, reaped := 0, [];
    }

    ghost function State(): Plan
      reads this, jitter
    {
      Plan(dvrEnabled, isOpen, segment, jitter.State(), expectReapTime, reaped)
    }

    /** Starts the recording of a newly published stream, if the configuration wants it. */
    method OnPublish(wanted: bool, now: int) returns (ok: bool)
      modifies this
      ensures fresh(jitter) || jitter == old(jitter)
      ensures old(dvrEnabled) || !wanted ==> State() == old(State()) && ok
      ensures !old(dvrEnabled) && wanted ==>
        exists how ::
          && ok == (how == Opened) && (how == HeaderFailed ==> headed)
          && State() == Begun(old(segment), now, old(expectReapTime), how)
    {
      if dvrEnabled {
        return true;
      }
      if !wanted {
        return true;
      }
      jitter := new RtmpJitter();
      segment := Republished(segment, now);
      reaped := [];
      ghost var how;
      ok, how := OpenNewSegment();
      assert State() == Begun(old(segment), now, old(expectReapTime), how);
    }

    method OpenNewSegment() returns (ok: bool, ghost how: OpenResult)
      modifies this`dvrEnabled, this`isOpen, this`segment
      ensures ok == (how == Opened) && (how == HeaderFailed ==> headed)
      ensures State() == AfterOpen(old(State()), how)
    {
      segment := Emptied(segment);
      if * {
        isOpen := false;
        return false, OpenFailed;
      }
      isOpen := true;
      if headed {
        if * {
          return false, HeaderFailed;
        }
      }
      dvrEnabled := true;
      return true, Opened;
    }

    /** Closes the file and renames it to its final name. */
    method FlvClose() returns (ok: bool)
      modifies this`isOpen, this`reaped
      ensures State() == old(State()).(open := false, reaped := old(reaped) + [segment.duration])
    {
      isOpen := false;
      reaped := reaped + [segment.duration];
      ok := *;
    }

    method OnUnpublish()
      modifies this`dvrEnabled
      ensures State() == old(State()).(enabled := false)
    {
      if !dvrEnabled {
        return;
      }
      dvrEnabled := false;
    }

    /** Counts a packet. */
    method UpdateDuration(t: int)
      modifies this`segment
      ensures State() == old(State()).(segment := Counted(old(segment), t))
    {
      if segment.start < 0 {
        segment := segment.(start := t);
      }
      if segment.previous < 0 || segment.previous > t {
        segment := segment.(previous := t);
      }
      segment := segment.(duration := segment.duration + (t - segment.previous));
      segment := segment.(streamDuration := segment.streamDuration + (t - segment.previous));
      segment := segment.(previous := t);
    }

    /** Closes the file and opens the next. */
    method Reap() returns (ok: bool, ghost closed: bool, ghost how: OpenResult)
      modifies this`dvrEnabled, this`isOpen, this`segment, this`reaped
      ensures ok == (closed && how == Opened) && (how == HeaderFailed ==> headed)
      ensures State() == AfterReap(old(State()), closed, how)
    {
      how := Opened;
      ok := FlvClose();
      closed := ok;
      if !ok {
        segment := Emptied(segment);
        return;
      }
      OnUnpublish();
      ok, how := OpenNewSegment();
    }

    /** Corrects a packet's time and writes the packet; writing may fail. */
    method Write(msg: Message) returns (ok: bool, t: int)
      requires msg.IsAv()
      modifies jitter
      ensures t == Corrected(old(jitter.State()), msg, 0, 0).corrected
      ensures State() == old(State()).(jitter := Corrected(old(jitter.State()), msg, 0, 0))
    {
      var m := jitter.Correct(msg, 0, 0);
      t := m.time;
      ok := *;
    }
  }

  /** What a packet does to a plan; `written` and the rest say how the file operations ended. */
  datatype Io = Io(written: bool, closed: bool, how: OpenResult)

  const ALL_WELL := Io(true, true, Opened)

  /** By the length of the current segment, or by a grid of fixed times. */
  datatype Kind = BySegment | ByGrid

  predicate Due(kind: Kind, length: int, p: Plan) {
    if kind == BySegment then SegmentDue(p.segment, length) else HssDue(p)
  }

  /** A plan that has corrected and counted a packet, and not cut yet. */
  function AfterCounting(p: Plan, m: Message): Plan {
    var j := Corrected(p.jitter, m, 0, 0);
    p.(jitter := j, segment := Counted(p.segment, j.corrected))
  }

  function AfterPacket(kind: Kind, length: int, p: Plan, m: Message, io: Io): Plan {
    if !p.enabled then p
    else if !io.written then p.(jitter := Corrected(p.jitter, m, 0, 0))
    else
      var c := AfterCounting(p, m);
      if !Due(kind, length, c) then c
      else AfterReap(if kind == ByGrid then c.(reapAt := c.reapAt + length) else c, io.closed, io.how)
  }

  /** Whether the plan reports an error for a packet. */
  predicate Fails(kind: Kind, length: int, p: Plan, m: Message, io: Io) {
    p.enabled && (!io.written || (Due(kind, length, AfterCounting(p, m)) && !(io.closed && io.how == Opened)))
  }

  /** Only the files of the segment plan begin with a header, whose writing can fail. */
  predicate CanEnd(kind: Kind, how: OpenResult) {
    how == HeaderFailed ==> kind == BySegment
  }

  /** Whether publishing starts a new recording rather than going on with one. */
  predicate Begins(p: Plan, wanted: bool) {
    !p.open && !p.enabled && wanted
  }

  function AfterPublish(kind: Kind, length: int, p: Plan, wanted: bool, now: int, how: OpenResult): Plan {
    if p.open then p.(enabled := true)
    else if !Begins(p, wanted) then if kind == ByGrid then p.(reapAt := p.segment.streamStart + length) else p
    else if kind == ByGrid then BegunHss(p.segment, now, length, p.reapAt, how)
    else Begun(p.segment, now, p.reapAt, how)
  }

  /** What happens to a plan; the source disables one that reports an error for a packet. */
  datatype Event =
    | Packet(m: Message, io: Io)
    | Unpublish
    | Publish(wanted: bool, now: int, how: OpenResult)

  function Step(kind: Kind, length: int, p: Plan, e: Event): Plan {
    match e
    case Packet(m, io) =>
      var q := AfterPacket(kind, length, p, m, io);
      if Fails(kind, length, p, m, io) then q.(enabled := false) else q
    case Unpublish => p.(enabled := false)
    case Publish(wanted, now, how) => AfterPublish(kind, length, p, wanted, now, how)
  }

  /** The plan that cuts when the current segment is longer than configured. */
  class DvrSegmentPlan {
    const base: DvrPlan
    const segmentDuration: int

    ghost predicate Valid()
      reads this
    {
      base.headed == true
    }

    constructor (seconds: int)
      ensures Valid()
      ensures base.State() == NEW_PLAN && segmentDuration == seconds * 1000 && fresh(base) && fresh(base.jitter)
    {
      base := new DvrPlan(true);
      segmentDuration := seconds * 1000;
    }

    /** A recording that is still open just goes on when the stream comes back. */
    method OnPublish(wanted: bool, now: int) returns (ok: bool)
      requires Valid()
      modifies base
      ensures fresh(base.jitter) || base.jitter == old(base.jitter)
      ensures exists how ::
        && base.State() == AfterPublish(BySegment, segmentDuration, old(base.State()), wanted, now, how)
        && CanEnd(BySegment, how)
        && ok == (Begins(old(base.State()), wanted) ==> how == Opened)
    {
      ghost var p, how := base.State(), Opened;
      if base.isOpen {
        base.dvrEnabled := true;
        assert base.State() == AfterPublish(BySegment, segmentDuration, p, wanted, now, Opened);
        return true;
      }
      ok := base.OnPublish(wanted, now);
      if Begins(p, wanted) {
        how :| ok == (how == Opened) && CanEnd(BySegment, how) && base.State() == Begun(p.segment, now, p.reapAt, how);
      }
      assert base.State() == AfterPublish(BySegment, segmentDuration, p, wanted, now, how);
    }

    method OnAv(msg: Message) returns (ok: bool)
      requires Valid() && msg.IsAv()
      modifies base, base.jitter
      ensures base.jitter == old(base.jitter)
      ensures exists io ::
        && base.State() == AfterPacket(BySegment, segmentDuration, old(base.State()), msg, io)
        && CanEnd(BySegment, io.how) && ok == !Fails(BySegment, segmentDuration, old(base.State()), msg, io)
    {
      ghost var p, io := base.State(), ALL_WELL;
      if !base.dvrEnabled {
        assert base.State() == AfterPacket(BySegment, segmentDuration, p, msg, io);
        return true;
      }
      var t;
      ok, t := base.Write(msg);
      if !ok {
        io := io.(written := false);
        assert base.State() == AfterPacket(BySegment, segmentDuration, p, msg, io);
        return;
      }
      base.UpdateDuration(t);
      if segmentDuration > 0 && base.segment.duration > segmentDuration {
        ghost var closed, how;
        ok, closed, how := base.Reap();
        io := Io(true, closed, how);
      }
      assert base.State() == AfterPacket(BySegment, segmentDuration, p, msg, io);
    }

    /** What the source does with a packet: an error disables the recording and goes no further. */
    method Record(msg: Message)
      requires Valid() && msg.IsAv()
      modifies base, base.jitter
      ensures base.jitter == old(base.jitter)
      ensures exists io ::
        && base.State() == Step(BySegment, segmentDuration, old(base.State()), Packet(msg, io))
        && CanEnd(BySegment, io.how)
    {
      ghost var p := base.State();
      var ok := OnAv(msg);
      ghost var io :| base.State() == AfterPacket(BySegment, segmentDuration, p, msg, io)
                      && CanEnd(BySegment, io.how) && ok == !Fails(BySegment, segmentDuration, p, msg, io);
      if !ok {
        base.OnUnpublish();
      }
      assert base.State() == Step(BySegment, segmentDuration, p, Packet(msg, io));
    }
  }

  /** The plan that cuts at fixed distances from the moment the stream was published. */
  class DvrHssPlan {
    const base: DvrPlan
    const segmentDuration: int

    ghost predicate Valid()
      reads this
    {
      base.headed == false
    }

    constructor (seconds: int)
      ensures Valid()
      ensures base.State() == NEW_PLAN && segmentDuration == seconds * 1000 && fresh(base) && fresh(base.jitter)
    {
      base := new DvrPlan(false);
      segmentDuration := seconds * 1000;
    }

    method OnPublish(wanted: bool, now: int) returns (ok: bool)
      requires Valid()
      modifies base
      ensures fresh(base.jitter) || base.jitter == old(base.jitter)
      ensures exists how ::
        && base.State() == AfterPublish(ByGrid, segmentDuration, old(base.State()), wanted, now, how)
        && CanEnd(ByGrid, how)
        && ok == (Begins(old(base.State()), wanted) ==> how == Opened)
    {
      ghost var p, how := base.State(), Opened;
      if base.isOpen {
        base.dvrEnabled := true;
        assert base.State() == AfterPublish(ByGrid, segmentDuration, p, wanted, now, Opened);
        return true;
      }
      ok := base.OnPublish(wanted, now);
      if Begins(p, wanted) {
        how :| ok == (how == Opened) && CanEnd(ByGrid, how) && base.State() == Begun(p.segment, now, p.reapAt, how);
      }
      if ok {
        base.expectReapTime := base.segment.streamStart + segmentDuration;
      }
      assert base.State() == AfterPublish(ByGrid, segmentDuration, p, wanted, now, how);
    }

    method OnAv(msg: Message) returns (ok: bool)
      requires Valid() && msg.IsAv()
      modifies base, base.jitter
      ensures base.jitter == old(base.jitter)
      ensures exists io ::
        && base.State() == AfterPacket(ByGrid, segmentDuration, old(base.State()), msg, io)
        && CanEnd(ByGrid, io.how) && ok == !Fails(ByGrid, segmentDuration, old(base.State()), msg, io)
    {
      ghost var p, io := base.State(), ALL_WELL;
      if !base.dvrEnabled {
        assert base.State() == AfterPacket(ByGrid, segmentDuration, p, msg, io);
        return true;
      }
      var t;
      ok, t := base.Write(msg);
      if !ok {
        io := io.(written := false);
        assert base.State() == AfterPacket(ByGrid, segmentDuration, p, msg, io);
        return;
      }
      base.UpdateDuration(t);
      if base.expectReapTime <= 0 || base.segment.streamStart <= 0 || base.segment.streamDuration <= 0 {
        assert base.State() == AfterPacket(ByGrid, segmentDuration, p, msg, io);
        return;
      }
      if base.segment.streamStart + base.segment.streamDuration > base.expectReapTime {
        base.expectReapTime := base.expectReapTime + segmentDuration;
        ghost var closed, how;
        ok, closed, how := base.Reap();
        io := Io(true, closed, how);
      }
      assert base.State() == AfterPacket(ByGrid, segmentDuration, p, msg, io);
    }

    /** What the source does with a packet: an error disables the recording and goes no further. */
    method Record(msg: Message)
      requires Valid() && msg.IsAv()
      modifies base, base.jitter
      ensures base.jitter == old(base.jitter)
      ensures exists io ::
        && base.State() == Step(ByGrid, segmentDuration, old(base.State()), Packet(msg, io))
        && CanEnd(ByGrid, io.how)
    {
      ghost var p := base.State();
      var ok := OnAv(msg);
      ghost var io :| base.State() == AfterPacket(ByGrid, segmentDuration, p, msg, io)
                      && CanEnd(ByGrid, io.how) && ok == !Fails(ByGrid, segmentDuration, p, msg, io);
      if !ok {
        base.OnUnpublish();
      }
      assert base.State() == Step(ByGrid, segmentDuration, p, Packet(msg, io));
    }
  }

  // ---------------------------------------------------------------- what the cuts promise

  function Sum(xs: seq<int>): int {
    if xs == [] then 0 else Sum(xs[..|xs| - 1]) + xs[|xs| - 1]
  }

  lemma SumSnoc(xs: seq<int>, x: int)
    ensures Sum(xs + [x]) == Sum(xs) + x
  {
    assert (xs + [x])[..|xs|] == xs;
  }

  /** The closed segments and the current one make up the stream. */
  ghost predicate Conserved(p: Plan) {
    Sum(p.reaped) + p.segment.duration == p.segment.streamDuration
  }

  lemma ReapConserves(p: Plan, closed: bool, how: OpenResult)
    requires Conserved(p)
    ensures Conserved(AfterReap(p, closed, how))
  {
    SumSnoc(p.reaped, p.segment.duration);
  }

  /** However the file operations end, no counted time is lost or counted twice. */
  lemma PacketConserves(kind: Kind, length: int, p: Plan, m: Message, io: Io)
    requires Conserved(p)
    ensures Conserved(AfterPacket(kind, length, p, m, io))
  {
    hide AfterReap;
    var c := AfterCounting(p, m);
    ReapConserves(c, io.closed, io.how);
    ReapConserves(c.(reapAt := c.reapAt + length), io.closed, io.how);
  }

  lemma PublishConserves(p: Plan, now: int, how: OpenResult)
    ensures Conserved(Begun(p.segment, now, p.reapAt, how))
  {}

  // ---------------------------------------------------------------- any run of a plan

  /** A plan under observation: how many packets were not written since the last that was, and what that
      number was at each cut. */
  datatype Watched = Watched(plan: Plan, skipped: nat, atCuts: seq<nat>)

  function Watch(kind: Kind, length: int, w: Watched, e: Event): Watched {
    var p, q := w.plan, Step(kind, length, w.plan, e);
    if e.Packet? && p.enabled then
      if !e.io.written then Watched(q, w.skipped + 1, w.atCuts)
      else Watched(q, 0, if Due(kind, length, AfterCounting(p, e.m)) then w.atCuts + [w.skipped] else w.atCuts)
    else if e.Publish? && Begins(p, e.wanted) then Watched(q, 0, [])
    else w.(plan := q)
  }

  /** Any run, from the start of the server on. */
  function Run(kind: Kind, length: int, es: seq<Event>): Watched {
    if es == [] then Watched(NEW_PLAN, 0, [])
    else Watch(kind, length, Run(kind, length, es[..|es| - 1]), es[|es| - 1])
  }

  /** Over every run, closed segments and the current one make up the stream. */
  lemma {:induction false} RunConserves(kind: Kind, length: int, es: seq<Event>)
    ensures Conserved(Run(kind, length, es).plan)
    decreases |es|
  {
    hide Conserved, AfterPacket, Begun, BegunHss;
    if es == [] {
      assert Conserved(NEW_PLAN) by { NothingConserved(); }
    } else {
      var p, e := Run(kind, length, es[..|es| - 1]).plan, es[|es| - 1];
      RunConserves(kind, length, es[..|es| - 1]);
      match e {
        case Packet(m, io) =>
          PacketConserves(kind, length, p, m, io);
          SameTimesConserved(AfterPacket(kind, length, p, m, io));
        case Unpublish =>
          SameTimesConserved(p);
        case Publish(wanted, now, how) =>
          SameTimesConserved(p);
          PublishConserves(p, now, how);
          BegunHssConserves(p, now, length, how);
      }
    }
  }

  lemma NothingConserved()
    ensures Conserved(NEW_PLAN)
  {}

  lemma SameTimesConserved(p: Plan)
    requires Conserved(p)
    ensures forall enabled: bool, reapAt: int :: Conserved(p.(enabled := enabled)) && Conserved(p.(reapAt := reapAt))
  {}

  lemma BegunHssConserves(p: Plan, now: int, length: int, how: OpenResult)
    ensures Conserved(BegunHss(p.segment, now, length, p.reapAt, how))
  {}

  predicate AllAv(es: seq<Event>) {
    forall e :: e in es && e.Packet? ==> e.m.IsAv()
  }

  /** How far the corrector may be ahead of the last packet that was counted. */
  ghost predicate Follows(w: Watched) {
    var previous, now := w.plan.segment.previous, w.plan.jitter.corrected;
    now >= 0 && (previous == -1 || (0 <= previous <= now && now - previous <= w.skipped * MAX_JITTER_MS))
  }

  /** Each closed segment is longer than configured, by at most half a second for the packet that ended it
      and half a second for each that was not written right before. */
  ghost predicate CutsInTime(w: Watched, length: int) {
    && |w.atCuts| == |w.plan.reaped|
    && forall i :: 0 <= i < |w.atCuts| ==> length < w.plan.reaped[i] <= length + (w.atCuts[i] + 1) * MAX_JITTER_MS
  }

  lemma StepFollows(kind: Kind, length: int, w: Watched, e: Event)
    requires Follows(w) && (e.Packet? ==> e.m.IsAv())
    ensures Follows(Watch(kind, length, w, e))
  {
    hide Corrected;
    if e.Packet? {
      StepOf(w.plan.jitter, e.m);
    }
  }

  lemma CountingStretches(w: Watched, m: Message)
    requires Follows(w) && m.IsAv()
    ensures var c := AfterCounting(w.plan, m).segment;
            && 0 <= c.duration - w.plan.segment.duration <= (w.skipped + 1) * MAX_JITTER_MS
            && c.streamDuration - w.plan.segment.streamDuration == c.duration - w.plan.segment.duration
            && c.streamStart == w.plan.segment.streamStart
  {
    hide Corrected;
    StepOf(w.plan.jitter, m);
  }

  lemma StepCutsInTime(length: int, w: Watched, e: Event)
    requires length > 0 && Follows(w) && CutsInTime(w, length) && 0 <= w.plan.segment.duration <= length
    requires e.Packet? ==> e.m.IsAv()
    ensures var v := Watch(BySegment, length, w, e); CutsInTime(v, length) && 0 <= v.plan.segment.duration <= length
  {
    hide Corrected, Follows;
    if e.Packet? && w.plan.enabled && e.io.written {
      CountingStretches(w, e.m);
    }
  }

  /** Whatever timestamps arrive and whatever fails: every segment closed by the segment plan is in time,
      and the current one is not longer than configured. */
  lemma {:induction false} SegmentCutsAreInTime(length: int, es: seq<Event>)
    requires length > 0 && AllAv(es)
    ensures var w := Run(BySegment, length, es);
            Follows(w) && CutsInTime(w, length) && 0 <= w.plan.segment.duration <= length
    decreases |es|
  {
    hide Follows, CutsInTime, Watch;
    if es == [] {
      StartsInTime(length);
    } else {
      var front := es[..|es| - 1];
      SegmentCutsAreInTime(length, front);
      var w := Run(BySegment, length, front);
      assert es[|es| - 1] in es;
      StepFollows(BySegment, length, w, es[|es| - 1]);
      StepCutsInTime(length, w, es[|es| - 1]);
    }
  }

  lemma StartsInTime(length: int)
    requires length > 0
    ensures var w := Watched(NEW_PLAN, 0, []); Follows(w) && CutsInTime(w, length) && w.plan.segment.duration == 0
  {}

  function FailedWrites(es: seq<Event>): nat {
    if es == [] then 0
    else FailedWrites(es[..|es| - 1]) + if es[|es| - 1].Packet? && !es[|es| - 1].io.written then 1 else 0
  }

  lemma {:induction false} SkipsAreFailures(kind: Kind, length: int, es: seq<Event>, i: nat)
    ensures var w := Run(kind, length, es);
            w.skipped <= FailedWrites(es) && (i < |w.atCuts| ==> w.atCuts[i] <= FailedWrites(es))
    decreases |es|
  {
    if es != [] {
      hide Step, Due;
      SkipsAreFailures(kind, length, es[..|es| - 1], i);
    }
  }

  /** Every closed segment is longer than configured by at most half a second. */
  ghost predicate Tight(p: Plan, length: int) {
    forall i :: 0 <= i < |p.reaped| ==> length < p.reaped[i] <= length + MAX_JITTER_MS
  }

  /** As long as every packet could be written, the segments are tight, whatever else fails. */
  lemma SegmentCutsAreTight(length: int, es: seq<Event>)
    requires length > 0 && AllAv(es) && FailedWrites(es) == 0
    ensures Tight(Run(BySegment, length, es).plan, length)
  {
    hide Run, AllAv;
    SegmentCutsAreInTime(length, es);
    var w := Run(BySegment, length, es);
    forall i | 0 <= i < |w.plan.reaped|
      ensures length < w.plan.reaped[i] <= length + MAX_JITTER_MS
    {
      SkipsAreFailures(BySegment, length, es, i);
    }
  }

  // ---- the bound is reached

  function Tick(t: int, written: bool): Event {
    Packet(Message(Video, t, []), ALL_WELL.(written := written))
  }

  const PUBLISHED := Publish(true, 1, Opened)

  /** A stream that runs up to a time in steps of at most half a second. */
  function UpTo(t: nat): seq<Event> {
    if t == 0 then [PUBLISHED, Tick(0, true)]
    else UpTo(if t < MAX_JITTER_MS then 0 else t - MAX_JITTER_MS) + [Tick(t, true)]
  }

  /** After that it goes on for some packets none of which can be written, and is published anew after
      each of them. */
  function Broken(t: nat, k: nat): seq<Event> {
    if k == 0 then UpTo(t) else Broken(t, k - 1) + [Tick(t + k * MAX_JITTER_MS, false), PUBLISHED]
  }

  lemma RunSnoc(kind: Kind, length: int, es: seq<Event>, e: Event)
    ensures Run(kind, length, es + [e]) == Watch(kind, length, Run(kind, length, es), e)
    ensures FailedWrites(es + [e]) == FailedWrites(es) + if e.Packet? && !e.io.written then 1 else 0
    ensures AllAv(es) && (e.Packet? ==> e.m.IsAv()) ==> AllAv(es + [e])
  {
    hide Watch;
    assert (es + [e])[..|es|] == es;
  }

  lemma {:induction false} UpToRuns(length: int, t: nat)
    requires t <= length
    ensures var p := Run(BySegment, length, UpTo(t)).plan;
            && p.enabled && p.open && p.jitter == JitterState(t, t) && p.reaped == []
            && p.segment.previous == t && p.segment.duration == t
    ensures FailedWrites(UpTo(t)) == 0 && AllAv(UpTo(t))
    decreases t
  {
    hide Run, FailedWrites, AllAv;
    if t == 0 {
      assert [PUBLISHED, Tick(0, true)] == [] + [PUBLISHED] + [Tick(0, true)];
      RunSnoc(BySegment, length, [], PUBLISHED);
      RunSnoc(BySegment, length, [] + [PUBLISHED], Tick(0, true));
      NoRun(length);
    } else {
      var before := if t < MAX_JITTER_MS then 0 else t - MAX_JITTER_MS;
      UpToRuns(length, before);
      RunSnoc(BySegment, length, UpTo(before), Tick(t, true));
    }
  }

  lemma NoRun(length: int)
    ensures Run(BySegment, length, []) == Watched(NEW_PLAN, 0, []) && FailedWrites([]) == 0 && AllAv([])
  {}

  lemma {:induction false} BrokenRuns(length: int, t: nat, k: nat)
    requires t <= length
    ensures var p := Run(BySegment, length, Broken(t, k)).plan;
            && p.enabled && p.open && p.jitter == JitterState(t + k * MAX_JITTER_MS, t + k * MAX_JITTER_MS)
                && p.reaped == []
            && p.segment.previous == t && p.segment.duration == t
    ensures FailedWrites(Broken(t, k)) == k && AllAv(Broken(t, k))
    decreases k
  {
    hide Run, FailedWrites, AllAv;
    if k == 0 {
      UpToRuns(length, t);
    } else {
      BrokenRuns(length, t, k - 1);
      var tick := Tick(t + k * MAX_JITTER_MS, false);
      RunSnoc(BySegment, length, Broken(t, k - 1), tick);
      RunSnoc(BySegment, length, Broken(t, k - 1) + [tick], PUBLISHED);
      assert Broken(t, k) == Broken(t, k - 1) + [tick] + [PUBLISHED];
    }
  }

  /** For every number of failed writes there is a stream with a segment as long as they allow. */
  lemma BoundIsReached(length: int, k: nat)
    requires length > 0
    ensures exists es :: AllAv(es) && FailedWrites(es) == k
                         && Run(BySegment, length, es).plan.reaped == [length + (k + 1) * MAX_JITTER_MS]
  {
    hide Run, FailedWrites, AllAv, Broken;
    BrokenRuns(length, length, k);
    var last := Tick(length + (k + 1) * MAX_JITTER_MS, true);
    RunSnoc(BySegment, length, Broken(length, k), last);
    var es := Broken(length, k) + [last];
    assert AllAv(es) && FailedWrites(es) == k;
    assert Run(BySegment, length, es).plan.reaped == [length + (k + 1) * MAX_JITTER_MS];
  }

  /** With up to k failed writes all segments of all streams are tight exactly when k is 0. */
  lemma TightIffNothingFailed(length: int, k: nat)
    requires length > 0
    ensures k == 0 <==> forall es :: AllAv(es) && FailedWrites(es) <= k ==>
            Tight(Run(BySegment, length, es).plan, length)
  {
    hide Run, FailedWrites, AllAv;
    if k == 0 {
      forall es | AllAv(es) && FailedWrites(es) <= k
        ensures Tight(Run(BySegment, length, es).plan, length)
      {
        SegmentCutsAreTight(length, es);
      }
    } else {
      BoundIsReached(length, k);
      var es :| AllAv(es) && FailedWrites(es) == k
                && Run(BySegment, length, es).plan.reaped == [length + (k + 1) * MAX_JITTER_MS];
      assert Run(BySegment, length, es).plan.reaped[0] > length + MAX_JITTER_MS;
    }
  }

  // ---------------------------------------------------------------- the grid of the hss plan

  lemma StepOf(j: JitterState, m: Message)
    requires j.corrected >= 0 && m.IsAv()
    ensures 0 <= Corrected(j, m, 0, 0).corrected - j.corrected <= MAX_JITTER_MS
  {}

  /** What can happen to a hss plan: the clock of the server is positive. */
  predicate OfGrid(es: seq<Event>) {
    forall e :: e in es ==> GridEvent(e)
  }

  predicate GridEvent(e: Event) {
    match e
    case Packet(m, io) => m.IsAv() && CanEnd(ByGrid, io.how)
    case Unpublish => true
    case Publish(wanted, now, how) => now > 0 && CanEnd(ByGrid, how)
  }

  /** The longest row of packets that were not written. */
  function LongestSkip(length: int, es: seq<Event>): nat {
    if es == [] then 0
    else
      var before, last := LongestSkip(length, es[..|es| - 1]), Run(ByGrid, length, es).skipped;
      if last > before then last else before
  }

  /** While a file is open the next cut is expected one length behind the last one, counted from the start
      of the stream, and the stream has not passed it. */
  ghost predicate OnGrid(p: Plan, length: int) {
    p.open ==>
      && p.segment.streamStart > 0 && p.segment.streamDuration >= 0
      && p.reapAt == p.segment.streamStart + (|p.reaped| + 1) * length
      && KeepsUp(p)
  }

  predicate KeepsUp(p: Plan) {
    p.open ==> p.segment.streamStart + p.segment.streamDuration <= p.reapAt
  }

  /** A plan that is enabled has a file open. */
  predicate Recording(p: Plan) {
    p.enabled ==> p.open
  }

  lemma NextGridPoint(n: nat, length: int)
    ensures (n + 1) * length + length == (n + 2) * length
    ensures length > 0 ==> (n + 1) * length > 0
  {}

  lemma PacketOnGrid(length: int, w: Watched, m: Message, io: Io, k: nat)
    requires Follows(w) && OnGrid(w.plan, length) && Recording(w.plan) && m.IsAv() && CanEnd(ByGrid, io.how)
    requires length >= (k + 1) * MAX_JITTER_MS && w.skipped <= k
    ensures var p := Step(ByGrid, length, w.plan, Packet(m, io)); OnGrid(p, length) && Recording(p)
  {
    hide Corrected, Follows;
    if w.plan.enabled && io.written {
      CountingStretches(w, m);
      NextGridPoint(|w.plan.reaped|, length);
      assert (w.skipped + 1) * MAX_JITTER_MS <= (k + 1) * MAX_JITTER_MS;
    }
  }

  lemma OtherOnGrid(length: int, p: Plan, e: Event)
    requires OnGrid(p, length) && Recording(p) && GridEvent(e) && !e.Packet? && length > 0
    ensures var q := Step(ByGrid, length, p, e); OnGrid(q, length) && Recording(q)
  {}

  /** As long as no more than k packets in a row could not be written, whatever else fails and whatever the
      timestamps are: the hss plan keeps to its grid if its length is at least k + 1 half seconds. */
  lemma {:induction false} HssCutsDoNotDrift(length: int, k: nat, es: seq<Event>)
    requires length >= (k + 1) * MAX_JITTER_MS && OfGrid(es) && LongestSkip(length, es) <= k
    ensures var w := Run(ByGrid, length, es); Follows(w) && OnGrid(w.plan, length) && Recording(w.plan)
    decreases |es|
  {
    hide Follows, OnGrid, Recording, Watch, GridEvent, Run;
    NoGridRun(length);
    if es != [] {
      var front, e := es[..|es| - 1], es[|es| - 1];
      assert e in es && forall x :: x in front ==> x in es;
      HssCutsDoNotDrift(length, k, front);
      var w := Run(ByGrid, length, front);
      assert front + [e] == es;
      RunSnoc(ByGrid, length, front, e);
      LastSkip(length, front);
      GridStep(length, w, e, k);
    }
  }

  lemma GridStep(length: int, w: Watched, e: Event, k: nat)
    requires Follows(w) && OnGrid(w.plan, length) && Recording(w.plan) && GridEvent(e)
    requires length >= (k + 1) * MAX_JITTER_MS && w.skipped <= k
    ensures var v := Watch(ByGrid, length, w, e); Follows(v) && OnGrid(v.plan, length) && Recording(v.plan)
  {
    hide Follows, OnGrid, Recording, Step;
    StepFollows(ByGrid, length, w, e);
    if e.Packet? {
      PacketOnGrid(length, w, e.m, e.io, k);
    } else {
      OtherOnGrid(length, w.plan, e);
    }
  }

  lemma NoGridRun(length: int)
    ensures var w := Run(ByGrid, length, []);
            w == Watched(NEW_PLAN, 0, []) && Follows(w) && OnGrid(w.plan, length) && Recording(w.plan)
  {}

  lemma LastSkip(length: int, es: seq<Event>)
    ensures Run(ByGrid, length, es).skipped <= LongestSkip(length, es)
  {}

  // ---- every shorter grid is overrun

  /** The packets behind time t that cannot be written, each followed by a new publication. */
  function Missed(t: nat, k: nat): seq<Event> {
    if k == 0 then [] else Missed(t, k - 1) + [Tick(t + k * MAX_JITTER_MS, false), PUBLISHED]
  }

  /** A stream of which each time k packets are missed, and the next one is written. */
  function Cycles(k: nat, n: nat): seq<Event> {
    if n == 0 then [PUBLISHED, Tick(0, true)]
    else Cycles(k, n - 1) + Missed((n - 1) * ((k + 1) * MAX_JITTER_MS), k) + [Tick(n * ((k + 1) * MAX_JITTER_MS), true)]
  }

  lemma LongestSnoc(length: int, es: seq<Event>, e: Event)
    ensures Run(ByGrid, length, es + [e]) == Watch(ByGrid, length, Run(ByGrid, length, es), e)
    ensures LongestSkip(length, es + [e])
         == Max(LongestSkip(length, es), Watch(ByGrid, length, Run(ByGrid, length, es), e).skipped)
    ensures OfGrid(es) && GridEvent(e) ==> OfGrid(es + [e])
  {
    hide Watch, GridEvent;
    assert (es + [e])[..|es|] == es;
  }

  lemma {:induction false} MissedRun(length: int, es: seq<Event>, t: nat, k: nat, top: nat)
    requires var p := Run(ByGrid, length, es).plan; p.enabled && p.open && p.jitter == JitterState(t, t)
    requires Run(ByGrid, length, es).skipped == 0 && LongestSkip(length, es) <= top && k <= top && OfGrid(es)
    ensures var w := Run(ByGrid, length, es + Missed(t, k));
            && w.skipped == k
            && w.plan == Run(ByGrid, length, es).plan.(jitter := JitterState(t + k * MAX_JITTER_MS,
                t + k * MAX_JITTER_MS))
    ensures LongestSkip(length, es + Missed(t, k)) <= top && OfGrid(es + Missed(t, k))
    decreases k
  {
    hide Run, LongestSkip, OfGrid;
    if k == 0 {
      assert es + [] == es;
    } else {
      MissedRun(length, es, t, k - 1, top);
      var before, tick := es + Missed(t, k - 1), Tick(t + k * MAX_JITTER_MS, false);
      LongestSnoc(length, before, tick);
      LongestSnoc(length, before + [tick], PUBLISHED);
      assert es + Missed(t, k) == before + [tick] + [PUBLISHED];
    }
  }

  lemma {:induction false} CyclesRun(length: int, k: nat, n: nat)
    requires length > 0
    ensures var w, t := Run(ByGrid, length, Cycles(k, n)), n * ((k + 1) * MAX_JITTER_MS);
            && w.skipped == 0 && w.plan.enabled && w.plan.open && w.plan.jitter == JitterState(t, t)
            && w.plan.segment.previous == t && w.plan.segment.streamDuration == t && w.plan.segment.streamStart == 1
            && 0 < w.plan.reapAt <= 1 + (n + 1) * length
    ensures LongestSkip(length, Cycles(k, n)) <= k && OfGrid(Cycles(k, n))
    decreases n
  {
    hide Run, LongestSkip, OfGrid;
    if n == 0 {
      NoCycles(length);
      assert [PUBLISHED, Tick(0, true)] == [] + [PUBLISHED] + [Tick(0, true)];
      LongestSnoc(length, [], PUBLISHED);
      LongestSnoc(length, [] + [PUBLISHED], Tick(0, true));
    } else {
      CyclesRun(length, k, n - 1);
      var c, t := (k + 1) * MAX_JITTER_MS, (n - 1) * ((k + 1) * MAX_JITTER_MS);
      NextGridPoint(n - 1, length);
      NextCycle(n, c);
      MissedRun(length, Cycles(k, n - 1), t, k, k);
      var es := Cycles(k, n - 1) + Missed(t, k);
      LongestSnoc(length, es, Tick(n * c, true));
      CycleStep(length, Run(ByGrid, length, es), t, k, n);
    }
  }

  lemma NoCycles(length: int)
    ensures Run(ByGrid, length, []) == Watched(NEW_PLAN, 0, []) && LongestSkip(length, []) == 0 && OfGrid([])
  {}

  lemma NextCycle(n: nat, c: nat)
    requires n > 0
    ensures (n - 1) * c + c == n * c
  {}

  /** The packet that is written counts for itself and for those that were missed. */
  lemma CycleStep(length: int, w: Watched, t: nat, k: nat, n: nat)
    requires length > 0 && n > 0
    requires w.plan.enabled && w.plan.open
    requires w.plan.jitter == JitterState(t + k * MAX_JITTER_MS, t + k * MAX_JITTER_MS)
    requires w.plan.segment.previous == t && w.plan.segment.streamDuration == t && w.plan.segment.streamStart == 1
    requires 0 < w.plan.reapAt <= 1 + n * length
    ensures var u := t + (k + 1) * MAX_JITTER_MS;
            var v := Watch(ByGrid, length, w, Tick(u, true));
            && v.skipped == 0 && v.plan.enabled && v.plan.open && v.plan.jitter == JitterState(u, u)
            && v.plan.segment.previous == u && v.plan.segment.streamDuration == u && v.plan.segment.streamStart == 1
            && 0 < v.plan.reapAt <= 1 + (n + 1) * length
  {
    NextGridPoint(n - 1, length);
    var u := t + (k + 1) * MAX_JITTER_MS;
    assert Corrected(w.plan.jitter, Tick(u, true).m, 0, 0) == JitterState(u, u);
  }

  lemma CyclesOverrun(length: int, k: nat)
    requires 0 < length < (k + 1) * MAX_JITTER_MS
    ensures !KeepsUp(Run(ByGrid, length, Cycles(k, length + 1)).plan)
  {
    var c, n := (k + 1) * MAX_JITTER_MS, length + 1;
    CyclesRun(length, k, n);
    Overrun(n, c, length);
  }

  lemma Overrun(n: nat, c: int, length: int)
    requires n == length + 1 && c >= length + 1 && length > 0
    ensures n * c > (n + 1) * length
  {
    assert n * c >= n * (length + 1) == n * length + n;
    assert (n + 1) * length == n * length + length;
  }

  /** For every k, over all streams of which no more than k packets in a row could not be written: the hss
      plan keeps up exactly when its length is at least k + 1 half seconds. */
  lemma HssKeepsUpIff(length: int, k: nat)
    requires length > 0
    ensures length >= (k + 1) * MAX_JITTER_MS
            <==> forall es :: OfGrid(es) && LongestSkip(length, es) <= k ==> KeepsUp(Run(ByGrid, length, es).plan)
  {
    hide Run, LongestSkip, OfGrid;
    if length >= (k + 1) * MAX_JITTER_MS {
      forall es | OfGrid(es) && LongestSkip(length, es) <= k
        ensures KeepsUp(Run(ByGrid, length, es).plan)
      {
        HssCutsDoNotDrift(length, k, es);
      }
    } else {
      CyclesRun(length, k, length + 1);
      CyclesOverrun(length, k);
    }
  }
}
