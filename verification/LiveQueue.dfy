/**
 The live message queue of a player: the timestamp corrector in front of it and the bounded queue
 that drops whole groups of pictures.
 */
module LiveQueue {
  import opened Bytes
  import opened Pieces
  import opened Codec

  const MAX_JITTER_MS := 500
  const DEFAULT_FRAME_MS := 40

  datatype Kind = Audio | Video | Other

  datatype Message = Message(kind: Kind, time: int, payload: seq<byte>)
  {
    predicate IsAv() {
      kind != Other
    }

    predicate IsKeyframe() {
      kind == Video && VideoIsKeyframe(payload)
    }
  }

  // ---------------------------------------------------------------- the timestamp corrector

  datatype JitterState = JitterState(last: int, corrected: int)

  /** Division of a by b > 0 that rounds towards zero. */
  function TruncDiv(a: int, b: int): int
    requires b > 0
  {
    if a >= 0 then a / b else -(-a / b)
  }

  predicate InRange(delta: int) {
    0 <= delta <= MAX_JITTER_MS
  }

  /** The step the corrector makes for a step `delta` of the input. */
  function CorrectDelta(kind: Kind, delta: int, tba: int, tbv: int): (r: int)
    ensures InRange(r)
    ensures InRange(delta) ==> r == delta
  {
    if InRange(delta) then delta
    else
      var guess := if kind == Audio && tba > 0 then TruncDiv(delta * 1000, tba)
                   else if kind == Video && tbv > 0 then TruncDiv(delta, tbv)
                   else DEFAULT_FRAME_MS;
      if InRange(guess) then guess else DEFAULT_FRAME_MS
  }

  function Max(a: int, b: int): int {
    if a > b then a else b
  }

  /** The corrector's state after a message. */
  function Corrected(j: JitterState, m: Message, tba: int, tbv: int): JitterState {
    if !m.IsAv() then j
    else JitterState(m.time, Max(0, j.corrected + CorrectDelta(m.kind, m.time - j.last, tba, tbv)))
  }

  /** The message with its corrected time. */
  function Retimed(j: JitterState, m: Message, tba: int, tbv: int): Message {
    m.(time := if m.IsAv() then Corrected(j, m, tba, tbv).corrected else 0)
  }

  class RtmpJitter {
    var lastPktTime: int
    var lastPktCorrectTime: int

    constructor ()
      ensures State() == JitterState(0, 0)
    {
      lastPktTime, lastPktCorrectTime := 0, 0;
    }

    function State(): JitterState
      reads this
    {
      JitterState(lastPktTime, lastPktCorrectTime)
    }

    method Correct(msg: Message, tba: int, tbv: int) returns (m: Message)
      modifies this
      ensures State() == Corrected(old(State()), msg, tba, tbv)
      ensures m == Retimed(old(State()), msg, tba, tbv)
    {
      m := msg;
      if msg.kind != Video && msg.kind != Audio {
        m := m.(time := 0);
        return;
      }
      var sampleRate, frameRate := tba, tbv;
      var time := msg.time;
      var delta := time - lastPktTime;
      if delta < 0 || delta > MAX_JITTER_MS {
        if msg.kind == Audio && sampleRate > 0 {
          delta := TruncDiv(delta * 1000, sampleRate);
        } else if msg.kind == Video && frameRate > 0 {
          delta := TruncDiv(delta, frameRate);
        } else {
          delta := DEFAULT_FRAME_MS;
        }
        if delta < 0 || delta > MAX_JITTER_MS {
          delta := DEFAULT_FRAME_MS;
        }
      }
      lastPktCorrectTime := Max(0, lastPktCorrectTime + delta);
      m := m.(time := lastPktCorrectTime);
      lastPktTime := time;
    }
  }

  // ---------------------------------------------------------------- the bounded queue

  datatype QueueState = QueueState(msgs: seq<Message>, start: int, end: int, size: int)
  {
    predicate Overflows() {
      end - start > size
    }
  }

  const EMPTY_QUEUE := QueueState([], -1, -1, 0)

  /** How many messages one shrink removes: up to the first keyframe behind the front, or all. */
  function CutFrom(msgs: seq<Message>, i: nat): (r: nat)
    requires i <= |msgs|
    ensures i <= r <= |msgs|
    ensures r < |msgs| ==> msgs[r].IsKeyframe()
    ensures forall k :: i <= k < r ==> !msgs[k].IsKeyframe()
    decreases |msgs| - i
  {
    if i == |msgs| || msgs[i].IsKeyframe() then i else CutFrom(msgs, i + 1)
  }

  function Cut(msgs: seq<Message>): (r: nat)
    ensures r <= |msgs|
    ensures msgs != [] ==> r > 0
  {
    if msgs == [] then 0 else CutFrom(msgs, 1)
  }

  function Shrunk(q: QueueState): QueueState {
    var n := Cut(q.msgs);
    if n < |q.msgs| then q.(msgs := q.msgs[n..], start := q.msgs[n].time)
    else q.(msgs := [], start := -1, end := -1)
  }

  /** A queue whose shrinking comes to an end: for a negative length only a keyframe behind the front
      that is late enough can stop it, because a cleared queue still overflows. */
  ghost predicate CanShrink(q: QueueState) {
    q.size >= 0 || !q.Overflows()
    || exists k :: 1 <= k < |q.msgs| && q.msgs[k].IsKeyframe() && q.end - q.msgs[k].time <= q.size
  }

  lemma ShrinkingGoesOn(q: QueueState)
    requires CanShrink(q) && q.Overflows()
    ensures CanShrink(Shrunk(q)) && (Shrunk(q).Overflows() ==> |Shrunk(q).msgs| < |q.msgs|)
  {
    var n := Cut(q.msgs);
    if q.size < 0 {
      var k :| 1 <= k < |q.msgs| && q.msgs[k].IsKeyframe() && q.end - q.msgs[k].time <= q.size;
      assert n <= k;
      if n < k {
        assert Shrunk(q).msgs[k - n] == q.msgs[k];
      }
    }
  }

  /** Shrinking until the queue no longer overflows. */
  function ShrunkEnough(q: QueueState): (r: QueueState)
    requires CanShrink(q)
    ensures !r.Overflows()
    decreases |q.msgs|, if q.Overflows() then 1 else 0
  {
    if q.Overflows() then
      ShrinkingGoesOn(q);
      ShrunkEnough(Shrunk(q))
    else q
  }

  function Pushed(q: QueueState, m: Message): QueueState {
    QueueState(q.msgs + [m],
               if m.IsAv() && q.start == -1 then m.time else q.start,
               if m.IsAv() then m.time else q.end,
               q.size)
  }

  function Enqueued(q: QueueState, m: Message): QueueState
    requires CanShrink(Pushed(q, m))
  {
    ShrunkEnough(Pushed(q, m))
  }

  /** How many messages a reader gets: at most maxCount, where 0 stands for all. */
  function Take(q: QueueState, maxCount: int): (r: nat)
    ensures r <= |q.msgs|
  {
    if maxCount == 0 || maxCount > |q.msgs| then |q.msgs| else if maxCount < 0 then 0 else maxCount
  }

  function Taken(q: QueueState, maxCount: int): QueueState {
    var n := Take(q, maxCount);
    if n == 0 then q else q.(msgs := q.msgs[n..], start := q.msgs[n - 1].time)
  }

  class MessageQueue {
    var avStartTime: int
    var avEndTime: int
    var queueSizeMs: int
    var msgs: seq<Message>

    constructor ()
      ensures State() == EMPTY_QUEUE
    {
      msgs, avStartTime, avEndTime, queueSizeMs := [], -1, -1, 0;
    }

    function State(): QueueState
      reads this
    {
      QueueState(msgs, avStartTime, avEndTime, queueSizeMs)
    }

    method SetQueueSize(length: int)
      modifies this
      ensures State() == old(State()).(size := length)
    {
      queueSizeMs := length;
    }

    /** Adds a message and drops groups of pictures from the front while the queue is too long. */
    method Enqueue(msg: Message)
      requires CanShrink(Pushed(State(), msg))
      modifies this
      ensures State() == Enqueued(old(State()), msg)
    {
      if msg.kind == Video || msg.kind == Audio {
        if avStartTime == -1 {
          avStartTime := msg.time;
        }
        avEndTime := msg.time;
      }
      msgs := msgs + [msg];
      while avEndTime - avStartTime > queueSizeMs
        invariant queueSizeMs == old(queueSizeMs) && CanShrink(State())
        invariant ShrunkEnough(State()) == Enqueued(old(State()), msg)
        decreases |msgs|, if avEndTime - avStartTime > queueSizeMs then 1 else 0
      {
        ShrinkingGoesOn(State());
        Shrink();
      }
    }

    method GetPackets(maxCount: int) returns (pmsgs: seq<Message>)
      modifies this
      ensures pmsgs == old(msgs[..Take(State(), maxCount)])
      ensures State() == Taken(old(State()), maxCount)
    {
      pmsgs := [];
      if msgs == [] {
        return;
      }
      var count := if maxCount == 0 then |msgs| else if maxCount < |msgs| then maxCount else |msgs|;
      if count <= 0 {
        return;
      }
      for i := 0 to count
        invariant pmsgs == msgs[..i]
      {
        pmsgs := pmsgs + [msgs[i]];
      }
      var last := msgs[count - 1];
      avStartTime := last.time;
      if count == |msgs| {
        msgs := [];
      } else {
        msgs := msgs[count..];
      }
    }

    method Shrink()
      modifies this
      ensures State() == Shrunk(old(State()))
    {
      var iframeIndex := -1;
      var i := 1;
      ghost var cut := Cut(msgs);
      while i < |msgs|
        invariant 1 <= i <= Max(1, |msgs|) && iframeIndex == -1
        invariant msgs == old(msgs) && avStartTime == old(avStartTime) && avEndTime == old(avEndTime)
                  && queueSizeMs == old(queueSizeMs)
        invariant i <= |msgs| ==> cut == CutFrom(msgs, i)
      {
        if msgs[i].kind == Video && VideoIsKeyframe(msgs[i].payload) {
          iframeIndex := i;
          avStartTime := msgs[i].time;
          break;
        }
        i := i + 1;
      }
      if iframeIndex < 0 {
        Clear();
        return;
      }
      msgs := msgs[iframeIndex..];
    }

    method Clear()
      modifies this
      ensures State() == old(State()).(msgs := [], start := -1, end := -1)
    {
      msgs, avStartTime, avEndTime := [], -1, -1;
    }
  }

  // ---------------------------------------------------------------- a player

  /** A player: its corrector, its queue and whether it is paused. */
  datatype ConsumerState = ConsumerState(jitter: JitterState, queue: QueueState, paused: bool)

  function FreshConsumer(size: int): ConsumerState {
    ConsumerState(JitterState(0, 0), EMPTY_QUEUE.(size := size), false)
  }

  /** A message delivered to a player, corrected unless the stream uses absolute time. */
  function Delivered(c: ConsumerState, m: Message, tba: int, tbv: int, atc: bool): ConsumerState
    requires CanShrink(Pushed(c.queue, if atc then m else Retimed(c.jitter, m, tba, tbv)))
  {
    if atc then c.(queue := Enqueued(c.queue, m))
    else c.(jitter := Corrected(c.jitter, m, tba, tbv), queue := Enqueued(c.queue, Retimed(c.jitter, m, tba, tbv)))
  }

  lemma {:induction false} SizeKept(q: QueueState)
    requires CanShrink(q)
    ensures ShrunkEnough(q).size == q.size
    decreases |q.msgs|, if q.Overflows() then 1 else 0
  {
    if q.Overflows() {
      ShrinkingGoesOn(q);
      SizeKept(Shrunk(q));
    }
  }

  lemma DeliveredKeepsSize(c: ConsumerState, m: Message, tba: int, tbv: int, atc: bool)
    requires c.queue.size >= 0
    ensures Delivered(c, m, tba, tbv, atc).queue.size == c.queue.size
  {
    SizeKept(Pushed(c.queue, m));
    SizeKept(Pushed(c.queue, Retimed(c.jitter, m, tba, tbv)));
  }

  class Consumer {
    const jitter: RtmpJitter
    const queue: MessageQueue
    var paused: bool

    constructor ()
      ensures State() == FreshConsumer(0)
      ensures fresh(jitter) && fresh(queue)
    {
      jitter := new RtmpJitter();
      queue := new MessageQueue();
      paused := false;
    }

    function State(): ConsumerState
      reads this, jitter, queue
    {
      ConsumerState(jitter.State(), queue.State(), paused)
    }

    method SetQueueSize(length: int)
      modifies queue
      ensures State() == old(State()).(queue := old(queue.State()).(size := length))
    {
      queue.SetQueueSize(length);
    }

    method Enqueue(msg: Message, tba: int, tbv: int, atc: bool)
      requires CanShrink(Pushed(queue.State(), if atc then msg else Retimed(jitter.State(), msg, tba, tbv)))
      modifies jitter, queue
      ensures State() == Delivered(old(State()), msg, tba, tbv, atc)
    {
      var m := msg;
      if !atc {
        m := jitter.Correct(m, tba, tbv);
      }
      queue.Enqueue(m);
    }

    /** A paused player gets nothing and its queue goes on filling. */
    method GetPackets(maxCount: int) returns (pmsgs: seq<Message>)
      modifies queue
      ensures pmsgs == if paused then [] else old(queue.msgs[..Take(queue.State(), maxCount)])
      ensures State() == if paused then old(State()) else old(State()).(queue := Taken(old(queue.State()), maxCount))
    {
      if paused {
        return [];
      }
      pmsgs := queue.GetPackets(maxCount);
    }

    method OnPlayClientPause(isPause: bool)
      modifies this
      ensures State() == old(State()).(paused := isPause)
    {
      paused := isPause;
    }
  }
}
