/**
The write and read halves of a plain stream (src/sock/stream.c).  What send and
recv answer is left open: every result the system may give is considered.
*/
module Streams {
  import opened Bytes
  import opened Vecs
  import opened MemoryPool
  import opened Options

  /** The bytes a frame in the queue still has to deliver; an end-of-stream frame delivers none. */
  function Payload(kind: Kind, data: FrameData, vecs: seq<Vec>, at: nat): seq<byte> {
    if kind == END_OF_STREAM || !AllInBounds(vecs) || at > |vecs| then []
    else Pending(data, vecs, at)
  }

  ghost function PayloadOf(f: Frame): seq<byte>
    reads f`kind, f`data, f`vecs, f`vecPosition
  {
    Payload(f.kind, f.data, f.vecs, f.vecPosition)
  }

  /** What the source's asserts demand of a frame handed to ft_stream_write: data in every vector left. */
  ghost predicate Sendable(f: Frame)
    reads f`kind, f`data, f`vecs, f`vecPosition
  {
    && f.kind != FREE
    && (f.kind != END_OF_STREAM ==>
          Roomy(f.vecs, f.vecPosition))
  }

  /** The bytes of a queue, front to back. */
  ghost function QueueBytes(fs: seq<Frame>): seq<byte>
    reads fs`kind, fs`data, fs`vecs, fs`vecPosition
  {
    if fs == [] then [] else PayloadOf(fs[0]) + QueueBytes(fs[1..])
  }

  lemma {:induction false} QueueBytesSnoc(fs: seq<Frame>, f: Frame)
    ensures QueueBytes(fs + [f]) == QueueBytes(fs) + PayloadOf(f)
  {
    if fs == [] {
      assert (fs + [f])[1..] == [];
    } else {
      QueueBytesSnoc(fs[1..], f);
      assert (fs + [f])[1..] == fs[1..] + [f];
      assert PayloadOf(fs[0]) + (QueueBytes(fs[1..]) + PayloadOf(f)) == PayloadOf(fs[0]) + QueueBytes(fs[1..])
          + PayloadOf(f);
    }
  }

  /** One answer of send or recv: rc of the bytes offered, none of them, or an error, perhaps EAGAIN. */
  datatype Answer = Answer(offered: nat, rc: int, again: bool)

  /** Everything offered was taken. */
  predicate Whole(a: Answer) {
    a.rc == a.offered
  }

  /** EAGAIN is no error. */
  predicate Fails(a: Answer) {
    a.rc < 0 && !a.again
  }

  /** The bytes the answers have taken. */
  function Total(answers: seq<Answer>): nat {
    if answers == [] then 0
    else Total(answers[..|answers| - 1]) + (if answers[|answers| - 1].rc > 0 then answers[|answers| - 1].rc else 0)
  }

  /** The answers that have come since. */
  function Since(before: seq<Answer>, answers: seq<Answer>): seq<Answer> {
    if before <= answers then answers[|before|..] else []
  }

  lemma SinceSnoc(before: seq<Answer>, answers: seq<Answer>, a: Answer)
    requires before <= answers
    ensures before <= answers + [a] && Since(before, answers + [a]) == Since(before, answers) + [a]
    ensures Total(Since(before, answers) + [a]) == Total(Since(before, answers)) + if a.rc > 0 then a.rc else 0
  {
    var news := Since(before, answers);
    assert (answers + [a])[|before|..] == news + [a];
    assert (news + [a])[..|news|] == news;
  }

  predicate AllWhole(answers: seq<Answer>) {
    forall i :: 0 <= i < |answers| ==> Whole(answers[i])
  }

  /**
  What the answers of one event come to, when was rounds are due and at most limit may be made.
  One round may go to the end of the stream, for which nothing is sent; each other is one send.
  Writing stops before the last round due only at an answer that is not whole, or at the limit.
  */
  predicate Ran(answers: seq<Answer>, limit: nat, was: nat, left: nat, ends: bool, fails: bool) {
    if AllWhole(answers) then
      && left == (if was <= limit then 0 else was - limit)
      && |answers| + (if ends then 1 else 0) == was - left
      && !fails
    else
      var last := answers[|answers| - 1];
      && AllWhole(answers[..|answers| - 1]) && !Whole(last)
      && |answers| <= limit && left == was - (|answers| - 1) && left > 0
      && !ends && (fails <==> Fails(last))
  }

  /** So far every answer was whole, one in each round, and gain bytes have gone over. */
  predicate TookAll(before: seq<Answer>, answers: seq<Answer>, loops: nat, gain: int) {
    && before <= answers
    && var news := Since(before, answers);
      AllWhole(news) && |news| == loops && gain == Total(news)
  }

  /** All answers but the last were whole, and gain bytes have gone over. */
  predicate TookLess(before: seq<Answer>, answers: seq<Answer>, limit: nat, gain: int) {
    && before < answers
    && var news := Since(before, answers);
      && AllWhole(news[..|news| - 1]) && !Whole(news[|news| - 1])
      && |news| <= limit && gain == Total(news)
  }

  lemma TakesMore(before: seq<Answer>, answers: seq<Answer>, a: Answer, loops: nat, limit: nat, gain: int)
    requires TookAll(before, answers, loops, gain) && loops < limit
    ensures var more := gain + (if a.rc > 0 then a.rc else 0);
            if Whole(a) then TookAll(before, answers + [a], loops + 1, more)
            else TookLess(before, answers + [a], limit, more)
  {
    SinceSnoc(before, answers, a);
    var news := Since(before, answers);
    assert (news + [a])[..|news|] == news;
  }

  lemma AllIsNotLess(before: seq<Answer>, answers: seq<Answer>, limit: nat, loops: nat, gain: int)
    requires TookAll(before, answers, loops, gain)
    ensures !TookLess(before, answers, limit, gain) && |answers| == |before| + loops
  {
  }

  /** So far every answer was whole, and each round was one send. */
  predicate Running(before: seq<Answer>, answers: seq<Answer>, loops: nat, was: nat, left: nat, gain: int) {
    TookAll(before, answers, loops, gain) && left + loops == was
  }

  /** What the run has come to in the end. */
  predicate Accounted(before: seq<Answer>, answers: seq<Answer>, limit: nat, was: nat, left: nat, ends: bool,
                      fails: bool, gain: int)
  {
    && before <= answers
    && Ran(Since(before, answers), limit, was, left, ends, fails) && gain == Total(Since(before, answers))
  }

  lemma OneMore(before: seq<Answer>, answers: seq<Answer>, a: Answer, loops: nat, limit: nat, was: nat,
                left: nat, gain: int)
    requires Running(before, answers, loops, was, left, gain) && loops < limit && left > 0
    ensures var more := gain + (if a.rc > 0 then a.rc else 0);
            && (Whole(a) ==> Running(before, answers + [a], loops + 1, was, left - 1, more))
            && (!Whole(a) ==> Accounted(before, answers + [a], limit, was, left, false, Fails(a), more))
  {
    TakesMore(before, answers, a, loops, limit, gain);
    var more := Since(before, answers + [a]);
    assert !Whole(a) ==> !AllWhole(more) by { assert more[|more| - 1] == a; }
  }

  lemma AtEnd(before: seq<Answer>, answers: seq<Answer>, loops: nat, was: nat, left: nat, limit: nat, gain: int)
    requires Running(before, answers, loops, was, left, gain) && loops <= limit
    ensures left == 0 || loops == limit ==> Accounted(before, answers, limit, was, left, false, false, gain)
    ensures left == 1 && loops < limit ==> Accounted(before, answers, limit, was, 0, true, false, gain)
  {
  }

  lemma NoneYet(answers: seq<Answer>, was: nat)
    ensures Running(answers, answers, 0, was, was, 0)
  {
  }

  /** The rounds a frame takes: one for each vector that is left, or one for the end of the stream. */
  ghost function RoundsOf(f: Frame): nat
    reads f`kind, f`vecs, f`vecPosition
  {
    if f.kind == END_OF_STREAM then 1
    else if f.vecPosition <= |f.vecs| then |f.vecs| - f.vecPosition
    else 0
  }

  ghost function Rounds(fs: seq<Frame>): nat
    reads fs`kind, fs`vecs, fs`vecPosition
  {
    if fs == [] then 0 else RoundsOf(fs[0]) + Rounds(fs[1..])
  }

  /** The last frame is an end of stream. */
  ghost predicate EndQueued(fs: seq<Frame>)
    reads fs`kind
  {
    fs != [] && fs[|fs| - 1].kind == END_OF_STREAM
  }

  /** The first frame has data. */
  ghost predicate DataFirst(fs: seq<Frame>)
    reads fs`kind
  {
    fs != [] && fs[0].kind != END_OF_STREAM
  }

  /**
  What an event starts from: the answers so far, the bytes sent, whether the end of the stream has
  been consumed, the rounds the queue takes, whether it ends with an end of stream, and whether it
  starts with data.
  */
  datatype Outset = Outset(answers: seq<Answer>, sent: nat, finished: bool, rounds: nat, ended: bool, data: bool)

  /** What a read event starts from. */
  datatype ReadOutset = ReadOutset(recvs: seq<Answer>, received: nat, failed: bool, told: nat)

  lemma {:induction false} RoundsSnoc(fs: seq<Frame>, f: Frame)
    ensures Rounds(fs + [f]) == Rounds(fs) + RoundsOf(f)
  {
    if fs == [] {
      assert (fs + [f])[1..] == [];
    } else {
      RoundsSnoc(fs[1..], f);
      assert (fs + [f])[1..] == fs[1..] + [f];
    }
  }

  /**
  One call of the delegate's read callback: the frame, its kind, all it has taken in,
  and the bytes among them that were received since the call before.
  */
  datatype Upcall = Upcall(frame: Frame, kind: Kind, orderly: bool, content: seq<byte>, news: seq<byte>)

  /** The bytes received, as the calls have brought them up. */
  function News(told: seq<Upcall>): seq<byte> {
    if told == [] then [] else News(told[..|told| - 1]) + told[|told| - 1].news
  }

  lemma NewsSnoc(told: seq<Upcall>, u: Upcall)
    ensures News(told + [u]) == News(told) + u.news
  {
    assert (told + [u])[..|told|] == told;
  }

  predicate IsSuffix<T(==)>(a: seq<T>, b: seq<T>) {
    |a| <= |b| && b[|b| - |a|..] == a
  }

  lemma SuffixGrows(a: seq<byte>, b: seq<byte>, c: seq<byte>)
    requires IsSuffix(a, b)
    ensures IsSuffix(a + c, b + c)
  {
  }

  /** The call that hands up the end of the stream. */
  predicate IsEnd(u: Upcall) {
    u.kind == END_OF_STREAM && u.content == [] && u.news == []
  }

  /** One more call, which hands up the end of the stream. */
  predicate Ending(before: seq<Upcall>, told: seq<Upcall>) {
    |told| == |before| + 1 && told[..|before|] == before && IsEnd(told[|before|])
  }

  lemma EndingSnoc(before: seq<Upcall>, u: Upcall)
    requires IsEnd(u)
    ensures Ending(before, before + [u])
  {
  }

  /** The calls have brought up all bytes received, in order, but for those still unseen. */
  ghost predicate AllTold(told: seq<Upcall>, unseen: seq<byte>, received: seq<byte>) {
    News(told) + unseen == received && forall u :: u in told ==> Truthful(u)
  }

  /** The bytes still unseen are the last the frame has taken in. */
  ghost predicate Latest(unseen: seq<byte>, orderly: bool, data: FrameData, vecs: seq<Vec>, at: nat) {
    && AllInBounds(vecs) && |unseen| <= SumPositions(vecs)
    && (orderly ==> Orderly(vecs, at) && IsSuffix(unseen, Content(data, vecs)))
  }

  /** The new bytes are the last of the frame, if its vectors do not share memory. */
  predicate Truthful(u: Upcall) {
    |u.news| <= |u.content| && (u.orderly ==> IsSuffix(u.news, u.content))
  }

  class Stream {
    const pool: Pool
    /** sock_est_max_write_loops */
    const maxWriteLoops: nat
    /** The delegate has a frame_return callback, which takes frames instead of the pool. */
    const frameReturn: bool

    var connecting: bool
    var writeShutdown: bool
    var writeOpen: bool
    var writeReady: bool
    /** write_events: WRITE_WANT_WRITE and CONNECT_WANT_WRITE */
    var wantWrite: bool
    var wantConnect: bool
    /** ev_is_active(write_watcher) */
    var watching: bool

    var writeFrames: Frame?
    /** write_frame_last: null stands for &write_frames, a frame f for &f->next. */
    var tail: Frame?
    var queueLength: int
    var writeBytes: nat
    /** sock_est_max_read_loops */
    const maxReadLoops: nat
    const readPartial: bool
    /** The delegate has a get_read_frame callback. */
    const getsFrames: bool
    var readFrame: Frame?
    /** read_events: READ_WANT_READ */
    var wantRead: bool
    var readPauseLevel: int
    var readShutdown: bool
    var readPaused: bool
    var readBytes: nat

    ghost var queue: seq<Frame>
    ghost var sent: seq<byte>
    ghost var accepted: seq<byte>
    /** The end-of-stream frame has been consumed. */
    ghost var finished: bool
    /** _ft_stream_error has been called. */
    ghost var failed: bool
    /** What send has answered, from the first call on. */
    ghost var answers: seq<Answer>
    /** All bytes recv has put into frames, in order, and those of them the delegate has not been handed. */
    ghost var received: seq<byte>
    ghost var unseen: seq<byte>
    /** When the frame of the slot came there its vectors shared no memory, and those ahead were empty. */
    ghost var orderly: bool
    /** The calls of the delegate's read callback, in order. */
    ghost var told: seq<Upcall>
    /** What recv has answered, and whether the delegate has left READ_WANT_READ set in the last of its calls. */
    ghost var recvs: seq<Answer>
    ghost var goesOn: bool

    constructor Accept(pool: Pool, maxWriteLoops: nat, maxReadLoops: nat, frameReturn: bool, readPartial: bool,
        getsFrames: bool)
      ensures this.pool == pool && this.maxWriteLoops == maxWriteLoops && this.frameReturn == frameReturn
          && readFrame == null
      ensures told == [] && received == [] && Reported()
      ensures Valid() && queue == [] && sent == accepted == [] && writeOpen && !connecting && !failed && !finished
    {
      this.pool, this.maxWriteLoops, this.frameReturn := pool, maxWriteLoops, frameReturn;
      this.maxReadLoops, this.readPartial, this.getsFrames := maxReadLoops, readPartial, getsFrames;
      received, unseen, told, orderly, recvs, goesOn := [], [], [], true, [], true;
      readPauseLevel, readShutdown, readPaused, readBytes := 0, false, false, 0;
      connecting, writeShutdown, writeOpen, writeReady := false, false, true, false;
      wantRead, wantWrite, wantConnect, watching := true, true, false, true;
      writeFrames, tail, queueLength, writeBytes, readFrame := null, null, 0, 0, null;
      queue, sent, accepted, finished, failed, answers := [], [], [], false, false, [];
    }

    constructor Connect(pool: Pool, maxWriteLoops: nat, maxReadLoops: nat, frameReturn: bool, readPartial: bool,
        getsFrames: bool)
      ensures this.pool == pool && this.maxWriteLoops == maxWriteLoops && this.frameReturn == frameReturn
          && readFrame == null
      ensures told == [] && received == [] && Reported()
      ensures Valid() && queue == [] && sent == accepted == [] && writeOpen && connecting && !failed && !finished
    {
      this.pool, this.maxWriteLoops, this.frameReturn := pool, maxWriteLoops, frameReturn;
      this.maxReadLoops, this.readPartial, this.getsFrames := maxReadLoops, readPartial, getsFrames;
      received, unseen, told, orderly, recvs, goesOn := [], [], [], true, [], true;
      readPauseLevel, readShutdown, readPaused, readBytes := 0, false, false, 0;
      connecting, writeShutdown, writeOpen, writeReady := true, false, true, false;
      wantRead, wantWrite, wantConnect, watching := false, false, true, true;
      writeFrames, tail, queueLength, writeBytes, readFrame := null, null, 0, 0, null;
      queue, sent, accepted, finished, failed, answers := [], [], [], false, false, [];
    }

    /** The queue is linked through its frames, all of them held by this stream. */
    ghost predicate Queueing()
      reads this`writeFrames, this`queue, queue`next, queue`at, queue`kind, queue`data, queue`vecs, queue`vecPosition
      reads pool`frames, pool`idle
    {
      && Linked(writeFrames, queue)
      && Distinct(queue)
      && (forall f :: f in queue ==> Holds(f))
    }

    ghost predicate Holds(f: Frame)
      reads pool`frames, pool`idle, f`at, f`kind, f`data, f`vecs, f`vecPosition
    {
      f in pool.frames && f !in pool.idle && f.at == Queued(this) && Sendable(f)
    }

    /** The tail pointer is exact until the end of the stream has been consumed. */
    ghost predicate Ended()
      reads this`finished, this`failed, this`tail, this`queue, this`writeOpen, this`queueLength, queue`kind
    {
      && (!finished ==> tail == if queue == [] then null else queue[|queue| - 1])
      && (finished ==> queue == [] && !writeOpen)
      && (failed ==> !writeOpen)
      && (forall i :: 0 <= i < |queue| && queue[i].kind == END_OF_STREAM ==> i == |queue| - 1 && !writeOpen)
      && queueLength == |queue| + (if finished then 1 else 0)
    }

    /** Sent and unsent bytes together are the accepted ones, in order. */
    ghost predicate Delivering()
      reads this`sent, this`accepted, this`writeBytes, this`queue, queue`kind, queue`data, queue`vecs, queue`vecPosition
    {
      sent + QueueBytes(queue) == accepted && writeBytes == |sent|
    }

    ghost predicate Core()
      reads this`writeFrames, this`finished, this`failed, this`tail, this`queue, this`writeOpen, this`queueLength
      reads this`sent, this`accepted, this`writeBytes, this`connecting, this`writeReady
      reads queue`next, queue`at, queue`kind, queue`data, queue`vecs, queue`vecPosition, pool`frames, pool`idle
    {
      Queueing() && Ended() && Delivering() && (connecting ==> !writeReady)
    }

    /** A stream with frames to send waits for an event that will come. */
    ghost predicate Awake()
      reads this`connecting, this`failed, this`wantConnect, this`wantWrite, this`watching, this`writeReady, this`queue
    {
      && (connecting && !failed ==> wantConnect && watching)
      && (!connecting && !failed && queue != [] ==> !writeReady && wantWrite && watching)
    }

    ghost function Slot(): set<Frame>
      reads this`readFrame
    {
      if readFrame == null then {} else {readFrame}
    }

    /** What the source's asserts demand of a frame in the read slot: room in every vector left. */
    ghost predicate Readable(f: Frame)
      reads f`data, f`vecs, f`vecPosition
    {
      Roomy(f.vecs, f.vecPosition)
    }

    /** What the frame has taken in. */
    ghost function ContentOf(f: Frame): seq<byte>
      reads f`data, f`vecs
    {
      if AllInBounds(f.vecs) then Content(f.data, f.vecs) else []
    }

    /** The delegate has been handed all bytes received, in order, but for those still unseen. */
    ghost predicate Logged()
      reads this`told, this`received, this`unseen
    {
      AllTold(told, unseen, received)
    }

    /** The bytes still unseen are the last the frame has taken in. */
    ghost predicate Reportable(f: Frame)
      reads this`unseen, this`orderly, f`data, f`vecs, f`vecPosition
    {
      Latest(unseen, orderly, f.data, f.vecs, f.vecPosition)
    }

    /** What the delegate is told when it is handed the frame. */
    ghost function Report(f: Frame): Upcall
      reads this`unseen, this`orderly, f`kind, f`data, f`vecs
    {
      Upcall(f, f.kind, orderly, ContentOf(f), unseen)
    }

    ghost predicate Reported()
      reads this`readFrame, this`told, this`received, this`unseen, this`orderly
      reads Slot()`data, Slot()`vecs, Slot()`vecPosition
    {
      && Logged()
      && (if readFrame == null then unseen == [] else Reportable(readFrame))
    }

    ghost predicate Reads()
      reads this`readFrame, Slot()`at, Slot()`kind, Slot()`data, Slot()`vecs, Slot()`vecPosition, pool`frames, pool`idle
    {
      readFrame != null ==>
        && readFrame in pool.frames && readFrame !in pool.idle && readFrame.at == Reading(this)
            && readFrame.kind != FREE
        && Readable(readFrame)
    }

    /** This stream holds no frame besides those in its queue and its read slot. */
    ghost predicate Exact()
      reads this`queue, this`readFrame, pool`frames, pool.frames`at
    {
      forall f :: f in pool.frames ==>
          (f.at == Queued(this) ==> f in queue)
          && (f.at == Reading(this) ==> f == readFrame)
    }

    ghost predicate Valid()
      reads this, queue`next, queue`at, queue`kind, queue`data, queue`vecs, queue`vecPosition, pool`frames, pool`idle
      reads Slot()`at, Slot()`kind, Slot()`data, Slot()`vecs, Slot()`vecPosition
    {
      Core() && Awake() && Reads()
    }

    // -------------------------------------------------------------------------
    // Events
    // -------------------------------------------------------------------------

    method SetWantWrite()
      modifies this`wantWrite, this`watching
      ensures wantWrite && watching
    {
      wantWrite := true;
      watching := true;
    }

    method UnsetWantWrite()
      modifies this`wantWrite, this`watching
      ensures !wantWrite && watching == (old(watching) && wantConnect)
    {
      wantWrite := false;
      if !wantConnect {
        watching := false;
      }
    }

    /** _ft_stream_error */
    method Error()
      requires Core()
      modifies this`failed, this`writeOpen, this`writeShutdown, this`watching
      ensures Core() && failed && !writeOpen
    {
      failed := true;
      writeOpen := false;
      writeShutdown := true;
      watching := false;
    }

    // -------------------------------------------------------------------------
    // The write queue
    // -------------------------------------------------------------------------

    /** The frame is hung where the last next pointer of the queue is. */
    method LinkTail(frame: Frame)
      requires Linked(writeFrames, queue) && Distinct(queue) && frame !in queue
      requires tail == if queue == [] then null else queue[|queue| - 1]
      modifies this`writeFrames, this`tail, frame`next, queue`next
      ensures Linked(writeFrames, queue + [frame]) && tail == frame
    {
      ghost var longer := queue + [frame];
      if tail == null {
        writeFrames := frame;
      } else {
        tail.next := frame;
      }
      frame.next := null;
      forall i | 0 <= i < |longer| ensures longer[i].next == After(longer, i) {
        if i + 2 < |longer| {
          assert old(queue[i].next) == After(queue, i);
          assert queue[i] != tail;
        }
      }
      tail := frame;
    }

    /** The part of ft_stream_write that appends to the queue. */
    method Enqueue(frame: Frame)
      requires Core() && writeOpen && pool.Valid()
      requires frame in pool.frames && frame !in pool.idle && frame.at == User && Sendable(frame)
      modifies this`writeOpen, this`writeFrames, this`tail, this`queueLength, this`queue, this`accepted
      modifies frame`next, frame`at, queue`next
      ensures Core() && pool.Valid()
      ensures queue == old(queue) + [frame] && accepted == old(accepted) + old(PayloadOf(frame))
      ensures frame in queue && frame.at == Queued(this) && forall f :: f in old(queue) ==> f in queue
      ensures writeOpen == (frame.kind != END_OF_STREAM)
    {
      hide Sendable, QueueBytes, Pool.Valid, Linked, Payload, Distinct, PayloadOf, Holds;
      QueueHolds(frame);
      LongerQueue(frame);
      LinkTail(frame);
      pool.Note(frame, Queued(this));
      NowHeld(frame);
      CountIn(frame);
    }

    lemma QueueHolds(frame: Frame)
      requires Core() && frame.at == User
      ensures forall f :: f in queue ==> Holds(f) && f !in pool.idle && f != frame
    {
    }

    lemma NowHeld(frame: Frame)
      requires frame in pool.frames && frame !in pool.idle && frame.at == Queued(this) && Sendable(frame)
      ensures Holds(frame)
    {
    }

    /** The bookkeeping behind the pointers. */
    method CountIn(frame: Frame)
      requires tail == frame && Linked(writeFrames, queue + [frame]) && Distinct(queue + [frame])
      requires Holds(frame) && forall f :: f in queue ==> Holds(f)
      requires sent + QueueBytes(queue + [frame]) == accepted + PayloadOf(frame) && writeBytes == |sent|
      requires writeOpen && !finished && !failed && (connecting ==> !writeReady) && queueLength == |queue|
      requires forall f :: f in queue ==> f.kind != END_OF_STREAM
      modifies this`writeOpen, this`queueLength, this`queue, this`accepted
      ensures Core()
      ensures queue == old(queue) + [frame] && accepted == old(accepted) + PayloadOf(frame)
      ensures writeOpen == (frame.kind != END_OF_STREAM)
    {
      hide Sendable, QueueBytes, Linked, Payload, Distinct, PayloadOf;
      if frame.kind == END_OF_STREAM {
        writeOpen := false;
      }
      queueLength := queueLength + 1;
      accepted := accepted + PayloadOf(frame);
      queue := queue + [frame];
      assert forall f :: f in queue ==> Holds(f);
    }

    lemma LongerQueue(frame: Frame)
      requires Delivering() && Distinct(queue) && frame !in queue
      ensures Distinct(queue + [frame])
      ensures sent + QueueBytes(queue + [frame]) == accepted + PayloadOf(frame)
    {
      QueueBytesSnoc(queue, frame);
    }

    /** The queue without its head. */
    method DropHead(frame: Frame)
      requires Linked(writeFrames, queue) && Distinct(queue) && queue != [] && frame == queue[0]
      modifies this`writeFrames, this`queue
      ensures queue == old(queue)[1..] && Linked(writeFrames, queue) && Distinct(queue) && frame !in queue
    {
      assert frame.next == After(queue, 0);
      writeFrames := frame.next;
      ghost var all := queue;
      queue := queue[1..];
      forall i | 0 <= i < |queue| ensures queue[i].next == After(queue, i) {
        assert all[i + 1].next == After(all, i + 1);
      }
    }

    /** Gives a frame that has left the queue to the pool, or to the delegate. */
    method Release(frame: Frame)
      requires Core() && pool.Valid() && frame in pool.frames && frame !in pool.idle && frame.kind != FREE
          && frame !in queue
      modifies pool`framesUsed, pool`log, pool`idle
      modifies frame.zone`available, frame.zone`framesUsed, frame.zone`free, frame.zone`freeOnHb, frame`next,
          frame`kind, frame`at
      ensures Core() && pool.Valid() && (if frameReturn then frame.at == User else frame.at == Free)
      ensures pool.idle == if frameReturn then old(pool.idle) else old(pool.idle) + {frame}
    {
      hide Sendable, QueueBytes, Linked, Payload, Distinct, PayloadOf, Pool.Structured, Pool.Recorded, Pool.Noted;
      assert forall f :: f in queue ==> Holds(f);
      if frameReturn {
        pool.Note(frame, User);
      } else {
        pool.Return(frame);
      }
      assert forall f :: f in queue ==> Holds(f);
    }

    /** Everything but the head of the queue is as Core wants it. */
    lemma BehindHead()
      requires Core() && queue != []
      ensures QueueBytes(queue) == PayloadOf(queue[0]) + QueueBytes(queue[1..])
      ensures Rounds(queue) == RoundsOf(queue[0]) + Rounds(queue[1..])
      ensures forall f :: f in queue[1..] ==> Holds(f)
      ensures queue[0] !in queue[1..]
      ensures queue[0].kind == END_OF_STREAM ==> |queue| == 1 && !writeOpen && PayloadOf(queue[0]) == []
    {
    }

    /**
    Of the frames that were in the queue, those no longer there have been let go; no others have
    come to the pool.
    */
    twostate predicate LetsGo(before: seq<Frame>)
      reads this`queue, pool`idle, before`at
    {
      && (forall f :: f in pool.idle && f !in old(pool.idle) ==> f in before)
      && (forall f :: f in before ==> f in queue || f.at == Free || f.at == User)
    }

    /** No frame has been passed to another stream. */
    twostate predicate MindsOwn()
      reads pool`frames, pool.frames`at
    {
      forall f :: f in pool.frames ==>
        (f in old(pool.frames) && f.at == old(f.at)) || f.at == Free || f.at == User || f.at == Queued(this)
            || f.at == Reading(this)
    }

    ghost function Before(): Outset
      reads this`answers, this`sent, this`queue, this`finished, queue`kind, queue`vecs, queue`vecPosition
    {
      Outset(answers, |sent|, finished, Rounds(queue), EndQueued(queue), DataFirst(queue))
    }

    /** What has been sent since, and how much of the queue that was due is left. */
    ghost predicate Progress(was: Outset)
      reads this`answers, this`sent, this`queue, this`finished, this`failed
      reads queue`kind, queue`vecs, queue`vecPosition
    {
      && Accounted(was.answers, answers, maxWriteLoops + 1, was.rounds, Rounds(queue), finished && !was.finished,
                   failed, |sent| - was.sent)
      && finished == (was.finished || (was.ended && queue == [])) && EndQueued(queue) == (was.ended && queue != [])
      && (was.data ==> |answers| > |was.answers|)
    }

    /** The same, for the frames that were queued; a socket that takes everything leaves none in rounds enough. */
    ghost predicate Wrote(was: Outset, frames: seq<Frame>)
      reads this`answers, this`sent, this`queue, this`finished, this`failed
      reads queue`kind, queue`vecs, queue`vecPosition
    {
      && Progress(was) && IsSuffix(queue, frames)
      && (AllWhole(Since(was.answers, answers)) && was.rounds <= maxWriteLoops + 1 ==> queue == [])
    }

    lemma OpenIsWell()
      requires Core()
      ensures writeOpen ==> !failed && !finished
      ensures connecting ==> !writeReady
    {
    }

    /** Consumes the end-of-stream frame, the last of the queue; the tail pointer is left stale. */
    method Finish()
      requires Core() && pool.Valid() && queue != [] && queue[0].kind == END_OF_STREAM
      modifies this`writeFrames, this`queue, this`finished, this`writeShutdown, this`wantWrite, this`watching
      modifies pool`framesUsed, pool`log, pool`idle
      modifies pool.chain`available, pool.chain`framesUsed, pool.chain`free, pool.chain`freeOnHb, queue`next,
          queue`kind, queue`at
      ensures Core() && pool.Valid()
      ensures queue == [] && finished && !writeOpen && !wantWrite
      ensures LetsGo(old(queue))
    {
      hide Core, Pool.Valid;
      var frame := writeFrames;
      HeadIs(frame);
      TakeEnd(frame);
      PoolOf(frame);
      Release(frame);
      // There are no data frames behind the end of the stream, and no more will come.
      HeadIs(writeFrames);
      assert writeFrames == null && writeOpen == false;
      UnsetWantWrite();
      writeShutdown := true;
    }

    lemma PoolOf(frame: Frame)
      requires pool.Valid() && frame in pool.frames
      ensures frame.zone in pool.chain
    {
      pool.HasHome(frame);
    }

    method TakeEnd(frame: Frame)
      requires Core() && queue != [] && queue[0] == frame && frame.kind == END_OF_STREAM
      modifies this`writeFrames, this`queue, this`finished
      ensures Core() && queue == [] && finished && !writeOpen && writeFrames == null && old(queue) == [frame]
      ensures frame in pool.frames && frame !in pool.idle
    {
      hide Sendable, QueueBytes, Payload, PayloadOf, Distinct;
      BehindHead();
      assert Holds(frame);
      DropHead(frame);
      finished := true;
    }

    lemma HeadIs(frame: Frame?)
      requires Core() && frame == writeFrames
      ensures frame == if queue == [] then null else queue[0]
      ensures frame != null ==> frame.kind != FREE
    {
      if queue != [] { assert Holds(queue[0]); }
    }

    // -------------------------------------------------------------------------
    // Sending
    // -------------------------------------------------------------------------

    /** The head of the queue, opened. */
    ghost predicate Sending(frame: Frame)
      reads frame`kind, frame`data, frame`vecs, frame`vecPosition
    {
      && frame.kind != FREE && frame.kind != END_OF_STREAM
      && Roomy(frame.vecs, frame.vecPosition)
    }

    /** What is left to send of the current vector. */
    ghost function Room(frame: Frame): nat
      requires Sending(frame)
      reads frame`kind, frame`data, frame`vecs, frame`vecPosition
    {
      frame.vecs[frame.vecPosition].limit - frame.vecs[frame.vecPosition].position
    }

    /** Only the head has changed: it still has p to deliver, and w has gone out. */
    lemma Moved(frame: Frame, w: seq<byte>, had: seq<byte>, rest: seq<byte>)
      requires queue != [] && queue[0] == frame && QueueBytes(queue[1..]) == rest
      requires sent + had + rest == accepted && had == w + PayloadOf(frame)
      ensures sent + w + QueueBytes(queue) == accepted
    {
      assert sent + (w + PayloadOf(frame)) + rest == sent + w + (PayloadOf(frame) + rest);
    }

    lemma HeadRounds()
      requires queue != []
      ensures Rounds(queue) == RoundsOf(queue[0]) + Rounds(queue[1..])
    {
    }

    /** rc bytes of the current vector go out and some of it stays. */
    method SentPart(frame: Frame, rc: nat)
      requires Core() && queue != [] && queue[0] == frame && Sending(frame)
      requires 0 < rc < frame.vecs[frame.vecPosition].limit - frame.vecs[frame.vecPosition].position
      modifies this`sent, this`writeBytes, frame`vecs
      ensures Core() && old(sent) <= sent && |sent| == |old(sent)| + rc && Rounds(queue) == old(Rounds(queue))
    {
      hide Linked, QueueBytes, Rounds;
      BehindHead();
      var i := frame.vecPosition;
      var v := frame.vecs[i];
      AdvanceConsumes(frame.data, frame.vecs, i, rc);
      ghost var w, had, rest := Window(frame.data, v)[..rc], PayloadOf(frame), QueueBytes(queue[1..]);
      assert sent + had + rest == sent + (had + rest);
      writeBytes := writeBytes + rc;
      assert frame !in queue[1..];
      frame.vecs := frame.vecs[i := v.(position := v.position + rc)];
      assert Sendable(frame);
      Moved(frame, w, had, rest);
      HeadRounds();
      sent := sent + w;
      assert forall f :: f in queue[1..] ==> Holds(f);
    }

    /** The current vector goes out whole and the frame has another. */
    method SentVector(frame: Frame)
      requires Core() && queue != [] && queue[0] == frame && Sending(frame) && frame.vecPosition + 1 < |frame.vecs|
      modifies this`sent, this`writeBytes, frame`vecs, frame`vecPosition
      ensures Core() && old(sent) <= sent && Sending(frame)
      ensures |sent| == |old(sent)| + old(Room(frame)) && Rounds(queue) == old(Rounds(queue)) - 1
    {
      hide Linked, QueueBytes, Distinct, Ended, Rounds;
      BehindHead();
      assert Holds(frame);
      var i := frame.vecPosition;
      var v := frame.vecs[i];
      VectorOut(frame.data, frame.vecs, i);
      RoomLeft(frame.vecs, i);
      ghost var w, had, rest := Window(frame.data, v), PayloadOf(frame), QueueBytes(queue[1..]);
      assert sent + had + rest == sent + (had + rest);
      writeBytes := writeBytes + (v.limit - v.position);
      frame.vecs := frame.vecs[i := v.(position := v.limit)];
      frame.vecPosition := i + 1;
      assert Roomy(frame.vecs, frame.vecPosition);
      Moved(frame, w, had, rest);
      HeadRounds();
      sent := sent + w;
      assert Sendable(frame);
      assert Holds(frame);
      assert forall f :: f in queue[1..] ==> Holds(f);
    }

    lemma RoomLeft(vecs: seq<Vec>, i: nat)
      requires Roomy(vecs, i) && i + 1 < |vecs|
      ensures Roomy(vecs[i := vecs[i].(position := vecs[i].limit)], i + 1)
    {
    }

    lemma VectorOut(data: FrameData, vecs: seq<Vec>, i: nat)
      requires Roomy(vecs, i)
      ensures var after := vecs[i := vecs[i].(position := vecs[i].limit)];
              && AllInBounds(after)
              && Pending(data, vecs, i) == Window(data, vecs[i]) + Pending(data, after, i + 1)
    {
      var v := vecs[i];
      AdvanceConsumes(data, vecs, i, v.limit - v.position);
      assert Window(data, v)[..v.limit - v.position] == Window(data, v);
      StepOver(data, vecs[i := v.(position := v.limit)], i);
    }

    /** The last vector goes out whole: the frame leaves the queue. */
    method SentFrame(frame: Frame)
      requires Core() && queue != [] && queue[0] == frame && Sending(frame) && frame.vecPosition + 1 == |frame.vecs|
      modifies this`sent, this`writeBytes, this`queueLength, this`writeFrames, this`tail, this`queue, frame`vecs,
          frame`vecPosition
      ensures Core() && old(sent) <= sent && queue == old(queue)[1..] && frame !in queue
      ensures |sent| == |old(sent)| + old(Room(frame)) && Rounds(queue) == old(Rounds(queue)) - 1
    {
      hide Core, Ended, Queueing, Linked, QueueBytes, Distinct, Sendable, Payload, PayloadOf, Rounds;
      BehindHead();
      HeadIs(writeFrames);
      LastVector(frame);
      KindsBehind();
      var i := frame.vecPosition;
      var v := frame.vecs[i];
      ghost var w := Window(frame.data, v);
      assert sent + (w + QueueBytes(queue[1..])) == sent + w + QueueBytes(queue[1..]);
      writeBytes := writeBytes + (v.limit - v.position);
      frame.vecs := frame.vecs[i := v.(position := v.limit)];
      frame.vecPosition := i + 1;
      sent := sent + w;
      assert forall f :: f in queue[1..] ==> Holds(f);
      DropHead(frame);
      CountOut();
    }

    /** The bookkeeping behind the pointers. */
    method CountOut()
      requires Linked(writeFrames, queue) && Distinct(queue) && forall f :: f in queue ==> Holds(f)
      requires Delivering() && !finished && (failed ==> !writeOpen) && (connecting ==> !writeReady)
      requires queueLength == |queue| + 1 && (queue != [] ==> tail == queue[|queue| - 1])
      requires forall i :: 0 <= i < |queue| && queue[i].kind == END_OF_STREAM ==> i == |queue| - 1 && !writeOpen
      modifies this`queueLength, this`tail
      ensures Core()
    {
      hide Sendable, QueueBytes, Payload, Distinct, PayloadOf;
      queueLength := queueLength - 1;
      if writeFrames == null {
        tail := null;
      }
    }

    lemma KindsBehind()
      requires Core() && queue != []
      ensures var rest := queue[1..];
              forall i :: 0 <= i < |rest| && rest[i].kind == END_OF_STREAM ==> i == |rest| - 1 && !writeOpen
      ensures !finished && (failed ==> !writeOpen) && (connecting ==> !writeReady) && queueLength == |queue|
      ensures Linked(writeFrames, queue) && Distinct(queue) && Delivering()
      ensures tail == queue[|queue| - 1]
      ensures |queue[1..]| == |queue| - 1 && (queue[1..] != [] ==> queue[1..][|queue| - 2] == queue[|queue| - 1])
    {
    }

    lemma LastVector(frame: Frame)
      requires Sending(frame) && frame.vecPosition + 1 == |frame.vecs|
      ensures PayloadOf(frame) == Window(frame.data, frame.vecs[frame.vecPosition])
    {
      var w := Window(frame.data, frame.vecs[frame.vecPosition]);
      assert Pending(frame.data, frame.vecs, |frame.vecs|) == [];
      assert w + [] == w;
    }

    lemma Opened(frame: Frame)
      requires Core() && queue != [] && queue[0] == frame && frame.kind != END_OF_STREAM
      ensures Sending(frame) && frame in pool.frames && frame !in pool.idle
    {
      assert Holds(frame);
    }

    /** send(): any count up to the size, or an error; again says whether it was EAGAIN. */
    method Send(size: nat) returns (rc: int, again: bool)
      requires size > 0
      modifies this`answers
      ensures rc <= size && answers == old(answers) + [Answer(size, rc, again)]
    {
      rc :| rc <= size;
      again := *;
      answers := answers + [Answer(size, rc, again)];
    }

    /** Waits for the next write event. */
    method Wait()
      requires Core()
      modifies this`writeReady, this`wantWrite, this`watching
      ensures Core() && !writeReady && wantWrite && watching
    {
      hide Queueing, Ended, Delivering;
      writeReady := false;
      SetWantWrite();
    }

    /** Writing has stopped: the stream has failed or waits for a write event. */
    ghost predicate Stopped()
      reads this`failed, this`writeReady, this`wantWrite, this`watching
    {
      failed || (!writeReady && wantWrite && watching)
    }

    /** The current vector goes out whole, and the frame with its last one. */
    method SentWhole(frame: Frame)
      requires Core() && pool.Valid() && queue != [] && queue[0] == frame && Sending(frame)
      requires frame in pool.frames && frame !in pool.idle && frame.zone in pool.chain
      modifies this`sent, this`writeBytes, this`queueLength, this`writeFrames, this`tail, this`queue
      modifies pool`framesUsed, pool`log, pool`idle
      modifies frame.zone`available, frame.zone`framesUsed, frame.zone`free, frame.zone`freeOnHb
      modifies frame`next, frame`kind, frame`at, frame`vecs, frame`vecPosition
      ensures Core() && pool.Valid() && LetsGo(old(queue))
      ensures old(sent) <= sent && |sent| == |old(sent)| + old(Room(frame)) && Rounds(queue) == old(Rounds(queue)) - 1
      ensures queue == old(queue) || queue == old(queue)[1..]
      ensures EndQueued(queue) == old(EndQueued(queue))
    {
      hide Core, Sendable, Pool.Valid, Rounds;
      if frame.vecPosition + 1 < |frame.vecs| {
        SentVector(frame);
      } else {
        SentFrame(frame);
        Release(frame);
      }
    }

    /** The one answer, to the whole of the current vector: writing goes on exactly when it is whole. */
    twostate predicate Answered(go: bool)
      reads this`answers, this`sent, this`queue, this`failed, queue`kind, queue`vecs, queue`vecPosition
    {
      && |answers| == |old(answers)| + 1 && old(answers) <= answers
      && var a := answers[|old(answers)|];
        && |sent| == |old(sent)| + (if a.rc > 0 then a.rc else 0)
        && (go <==> Whole(a)) && (failed <==> Fails(a))
        && Rounds(queue) == old(Rounds(queue)) - (if go then 1 else 0)
        && (queue == old(queue) || (go && queue == old(queue)[1..]))
        && EndQueued(queue) == old(EndQueued(queue))
    }

    /** What _ft_stream_write_real makes of an answer. */
    method Handle(frame: Frame, rc: int, again: bool) returns (go: bool)
      requires Core() && pool.Valid() && queue != [] && queue[0] == frame && Sending(frame) && writeReady && !failed
      requires frame in pool.frames && frame !in pool.idle && frame.zone in pool.chain && rc <= Room(frame)
      modifies this`sent, this`writeBytes, this`queueLength, this`writeFrames, this`tail, this`queue
      modifies this`writeReady, this`wantWrite, this`watching, this`failed, this`writeOpen, this`writeShutdown
      modifies pool`framesUsed, pool`log, pool`idle
      modifies frame.zone`available, frame.zone`framesUsed, frame.zone`free, frame.zone`freeOnHb
      modifies frame`next, frame`kind, frame`at, frame`vecs, frame`vecPosition
      ensures Core() && pool.Valid()
      ensures old(sent) <= sent && |sent| == |old(sent)| + (if rc > 0 then rc else 0)
      ensures (writeOpen == old(writeOpen) || failed) && (failed <==> rc < 0 && !again)
      ensures go <==> rc == old(Room(frame))
      ensures go ==> writeReady
      ensures !go ==> Stopped()
      ensures Rounds(queue) == old(Rounds(queue)) - (if go then 1 else 0)
      ensures queue == old(queue) || (go && queue == old(queue)[1..])
      ensures EndQueued(queue) == old(EndQueued(queue))
      ensures LetsGo(old(queue))
    {
      hide Core, Sendable, Pool.Valid, Holds, Rounds, EndQueued;
      var v := frame.vecs[frame.vecPosition];
      if rc < 0 && !again {
        Error();
        return false;
      }
      if rc <= 0 {
        Wait();
        return false;
      }
      if v.position + rc < v.limit {
        SentPart(frame, rc);
        Wait();
        return false;
      }
      SentWhole(frame);
      go := true;
    }

    /** One send, and what comes of it. */
    method SendHead() returns (go: bool)
      requires Core() && pool.Valid() && queue != [] && queue[0].kind != END_OF_STREAM && writeReady && !failed
      modifies this`sent, this`writeBytes, this`queueLength, this`writeFrames, this`tail, this`queue, this`answers
      modifies this`writeReady, this`wantWrite, this`watching, this`failed, this`writeOpen, this`writeShutdown
      modifies pool`framesUsed, pool`log, pool`idle
      modifies pool.chain`available, pool.chain`framesUsed, pool.chain`free, pool.chain`freeOnHb
      modifies queue`next, queue`kind, queue`at, queue`vecs, queue`vecPosition
      ensures Core() && pool.Valid()
      ensures old(sent) <= sent && (writeOpen == old(writeOpen) || failed)
      ensures go ==> writeReady && !failed
      ensures !go ==> Stopped()
      ensures forall i :: 0 <= i < |queue| ==> queue[i] in old(queue)
      ensures LetsGo(old(queue))
      ensures Answered(go)
    {
      hide Core, Sendable, Pool.Valid, Holds, Rounds, EndQueued;
      var frame := writeFrames;
      HeadIs(frame);
      Opened(frame);
      PoolOf(frame);
      var v := frame.vecs[frame.vecPosition];
      var rc, again := Send(v.limit - v.position);
      go := Handle(frame, rc, again);
    }

    /** There is a round for every frame of the queue. */
    lemma RoundsDue()
      requires Core()
      ensures Rounds(queue) == 0 <==> queue == []
      ensures EndQueued(queue) || DataFirst(queue) ==> queue != []
      ensures queue != [] && queue[0].kind == END_OF_STREAM ==> EndQueued(queue) && !DataFirst(queue)
      ensures finished ==> queue == []
      ensures IsSuffix(queue, queue) && IsSuffix([], queue)
      ensures queue != [] && queue[0].kind == END_OF_STREAM ==> Rounds(queue) == 1 && queue == [queue[0]]
    {
      if queue != [] {
        assert Holds(queue[0]);
        BehindHead();
      }
    }

    /** The frame that ends the queue stays there to the last. */
    lemma LastStays(frames: seq<Frame>)
      requires IsSuffix(queue, frames) && queue != []
      ensures frames != [] && queue[|queue| - 1] == frames[|frames| - 1]
      ensures IsSuffix(queue[1..], frames)
    {
    }

    /** Writing goes on: loops rounds have been made since start, each of them a send that took everything. */
    ghost predicate Underway(start: Outset, frames: seq<Frame>, loops: nat)
      reads this`answers, this`sent, this`queue, this`finished, queue`kind, queue`vecs, queue`vecPosition
    {
      && Running(start.answers, answers, loops, start.rounds, Rounds(queue), |sent| - start.sent)
      && loops <= |answers| - |start.answers|
      && (loops == 0 ==> DataFirst(queue) == start.data)
      && IsSuffix(queue, frames) && EndQueued(queue) == start.ended && finished == start.finished
    }

    lemma SetOut()
      requires Core()
      ensures Underway(Before(), queue, 0)
    {
      hide Rounds, Running;
      RoundsDue();
      NoneYet(answers, Rounds(queue));
    }

    /** Nothing is left to do, or the limit is reached. */
    lemma RunOut(start: Outset, frames: seq<Frame>, loops: nat)
      requires Core() && Underway(start, frames, loops) && !failed
      requires if queue == [] then loops <= maxWriteLoops + 1 else loops == maxWriteLoops + 1
      ensures Progress(start) && IsSuffix(queue, frames)
    {
      hide Core, Rounds, Running, Accounted, IsSuffix, EndQueued, DataFirst;
      RoundsDue();
      AtEnd(start.answers, answers, loops, start.rounds, Rounds(queue), maxWriteLoops + 1, |sent| - start.sent);
    }

    /** A round that is a send. */
    method SendRound(ghost start: Outset, ghost frames: seq<Frame>, ghost loops: nat) returns (go: bool)
      requires Core() && pool.Valid() && writeReady && !failed
      requires queue != [] && queue[0].kind != END_OF_STREAM
      requires Underway(start, frames, loops) && loops <= maxWriteLoops
      modifies this`sent, this`writeBytes, this`queueLength, this`writeFrames, this`tail, this`queue, this`answers,
          this`finished
      modifies this`writeReady, this`wantWrite, this`watching, this`failed, this`writeOpen, this`writeShutdown
      modifies pool`framesUsed, pool`log, pool`idle
      modifies pool.chain`available, pool.chain`framesUsed, pool.chain`free, pool.chain`freeOnHb
      modifies queue`next, queue`kind, queue`at, queue`vecs, queue`vecPosition
      ensures Core() && pool.Valid()
      ensures old(sent) <= sent && (writeOpen == old(writeOpen) || failed)
      ensures go ==> writeReady && !failed && Underway(start, frames, loops + 1)
      ensures !go ==> Stopped() && Progress(start) && IsSuffix(queue, frames)
      ensures forall i :: 0 <= i < |queue| ==> queue[i] in old(queue)
      ensures LetsGo(old(queue))
    {
      hide Core, Pool.Valid, Rounds, Running, Accounted, LetsGo, Stopped, IsSuffix, EndQueued, DataFirst;
      RoundsDue();
      LastStays(frames);
      ghost var sofar, left, gain := answers, Rounds(queue), |sent| - start.sent;
      go := SendHead();
      OneMore(start.answers, sofar, answers[|sofar|], loops, maxWriteLoops + 1, start.rounds, left, gain);
      assert answers == sofar + [answers[|sofar|]];
      RoundsDue();
    }

    /** The round that consumes the end of the stream. */
    method LastRound(ghost start: Outset, ghost frames: seq<Frame>, ghost loops: nat)
      requires Core() && pool.Valid() && !failed
      requires queue != [] && queue[0].kind == END_OF_STREAM
      requires Underway(start, frames, loops) && loops <= maxWriteLoops
      modifies this`writeFrames, this`queue, this`finished, this`writeShutdown, this`wantWrite, this`watching
      modifies pool`framesUsed, pool`log, pool`idle
      modifies pool.chain`available, pool.chain`framesUsed, pool.chain`free, pool.chain`freeOnHb, queue`next,
          queue`kind, queue`at
      ensures Core() && pool.Valid() && queue == []
      ensures Progress(start) && IsSuffix(queue, frames) && LetsGo(old(queue))
    {
      hide Core, Pool.Valid, LetsGo, IsSuffix, Underway, Progress, Accounted;
      RunEnds(start, frames, loops);
      ghost var gain := |sent| - start.sent;
      Finish();
      Concluded(start, frames, gain);
    }

    lemma RunEnds(start: Outset, frames: seq<Frame>, loops: nat)
      requires Core() && Underway(start, frames, loops) && loops <= maxWriteLoops
      requires queue != [] && queue[0].kind == END_OF_STREAM
      ensures Accounted(start.answers, answers, maxWriteLoops + 1, start.rounds, 0, true, false, |sent| - start.sent)
      ensures !start.finished && start.ended && (start.data ==> |answers| > |start.answers|)
    {
      hide Core, Rounds, Running, Accounted, IsSuffix, EndQueued, DataFirst;
      RoundsDue();
      AtEnd(start.answers, answers, loops, start.rounds, Rounds(queue), maxWriteLoops + 1, |sent| - start.sent);
    }

    lemma Concluded(start: Outset, frames: seq<Frame>, gain: int)
      requires queue == [] && finished && !failed && gain == |sent| - start.sent
      requires Accounted(start.answers, answers, maxWriteLoops + 1, start.rounds, 0, true, false, gain)
      requires !start.finished && start.ended && (start.data ==> |answers| > |start.answers|)
      ensures Progress(start) && IsSuffix(queue, frames)
    {
      hide Accounted;
    }

    /**
    _ft_stream_write_real: sends until the queue is empty, an answer is not whole,
    or maxWriteLoops + 1 rounds have been made.
    */
    method Drain()
      requires Core() && pool.Valid() && writeReady && !failed
      modifies this`sent, this`writeBytes, this`queueLength, this`writeFrames, this`tail, this`queue, this`answers,
          this`finished
      modifies this`writeReady, this`wantWrite, this`watching, this`failed, this`writeOpen, this`writeShutdown
      modifies pool`framesUsed, pool`log, pool`idle
      modifies pool.chain`available, pool.chain`framesUsed, pool.chain`free, pool.chain`freeOnHb
      modifies queue`next, queue`kind, queue`at, queue`vecs, queue`vecPosition
      ensures Core() && pool.Valid()
      ensures old(sent) <= sent && (writeOpen == old(writeOpen) || failed)
      ensures queue != [] ==> Stopped()
      ensures LetsGo(old(queue))
      ensures IsSuffix(queue, old(queue)) && Progress(old(Before()))
    {
      hide Core, Pool.Valid, Underway, Progress, Before, IsSuffix;
      ghost var start, frames := Before(), queue;
      SetOut();
      var loops := 0;
      while writeFrames != null
        invariant Core() && pool.Valid() && writeReady && !failed
        invariant loops <= maxWriteLoops + 1 && Underway(start, frames, loops)
        invariant old(sent) <= sent && writeOpen == old(writeOpen)
        invariant forall i :: 0 <= i < |queue| ==> queue[i] in old(queue)
        invariant LetsGo(old(queue))
        decreases maxWriteLoops + 1 - loops
      {
        HeadIs(writeFrames);
        if loops > maxWriteLoops {
          RunOut(start, frames, loops);
          Wait();
          return;
        }
        assert forall i :: 0 <= i < |queue| ==> queue[i] in old(queue);
        if writeFrames.kind == END_OF_STREAM {
          LastRound(start, frames, loops);
          return;
        }
        var go := SendRound(start, frames, loops);
        if !go {
          return;
        }
        loops := loops + 1;
      }
      HeadIs(writeFrames);
      RunOut(start, frames, loops);
    }

    // -------------------------------------------------------------------------
    // The public face of the write half
    // -------------------------------------------------------------------------

    /** No frame of the read slot is in the queue. */
    lemma SlotApart()
      requires Core() && Reads()
      ensures readFrame != null ==> readFrame !in queue
    {
      assert forall f :: f in queue ==> Holds(f);
    }

    method AcceptFrame(frame: Frame)
      requires Core() && Reads() && Exact() && writeOpen && pool.Valid()
      requires frame in pool.frames && frame !in pool.idle && frame.at == User && Sendable(frame)
      modifies this`writeOpen, this`writeFrames, this`tail, this`queueLength, this`queue, this`accepted
      modifies frame`next, frame`at, queue`next
      ensures Core() && Reads() && Exact() && pool.Valid()
      ensures queue == old(queue) + [frame] && accepted == old(accepted) + old(PayloadOf(frame))
      ensures writeOpen == (frame.kind != END_OF_STREAM) && (frame.kind == END_OF_STREAM ==> EndQueued(queue))
      ensures MindsOwn()
    {
      hide Core, Pool.Valid, Roomy, Payload, PayloadOf;
      SlotApart();
      Enqueue(frame);
    }

    method DrainQueue()
      requires Core() && Reads() && Exact() && pool.Valid() && writeReady && !failed
      modifies this`sent, this`writeBytes, this`queueLength, this`writeFrames, this`tail, this`queue, this`answers,
          this`finished
      modifies this`writeReady, this`wantWrite, this`watching, this`failed, this`writeOpen, this`writeShutdown
      modifies pool`framesUsed, pool`log, pool`idle
      modifies pool.chain`available, pool.chain`framesUsed, pool.chain`free, pool.chain`freeOnHb
      modifies queue`next, queue`kind, queue`at, queue`vecs, queue`vecPosition
      ensures Core() && Reads() && Exact() && pool.Valid()
      ensures old(sent) <= sent && (writeOpen == old(writeOpen) || failed)
      ensures queue != [] ==> Stopped()
      ensures forall f :: f in pool.idle && f !in old(pool.idle) ==> f in old(queue)
      ensures MindsOwn()
      ensures Wrote(old(Before()), old(queue))
    {
      hide Core, Pool.Valid, Roomy, Rounds, Progress, IsSuffix, AllWhole, Since, EndQueued, DataFirst;
      ghost var start := Before();
      SlotApart();
      Drain();
      HeldHere();
      AllOut(start);
    }

    /** A socket that takes everything, and rounds enough: the queue is empty. */
    lemma AllOut(start: Outset)
      requires Core() && Progress(start)
      ensures AllWhole(Since(start.answers, answers)) && start.rounds <= maxWriteLoops + 1 ==> queue == []
    {
      hide Core, AllWhole, Since, Rounds;
      RoundsDue();
    }

    lemma EndStays(start: Outset, frames: seq<Frame>)
      requires Wrote(start, frames)
      ensures start.ended ==> finished || EndQueued(queue)
    {
    }

    lemma ConnectingWaits()
      requires Core()
      ensures connecting ==> !writeReady
    {
    }

    lemma StillAwake()
      requires !connecting && (queue != [] ==> Stopped())
      ensures Awake()
    {
    }

    lemma HeldHere()
      requires Core()
      ensures forall f :: f in queue ==> f.at == Queued(this)
    {
      assert forall f :: f in queue ==> Holds(f);
    }

    /**
    ft_stream_write: accepts the frame exactly when the queue is open.  An accepted
    frame's bytes come behind all bytes accepted before.
    */
    method Write(frame: Frame) returns (ok: bool)
      requires Valid() && pool.Valid() && Exact()
      requires frame in pool.frames && frame !in pool.idle && frame.at == User && Sendable(frame)
      modifies this`sent, this`writeBytes, this`queueLength, this`writeFrames, this`tail, this`queue, this`answers,
          this`finished
      modifies this`writeReady, this`wantWrite, this`watching, this`failed, this`writeOpen, this`writeShutdown,
          this`accepted
      modifies pool`framesUsed, pool`log, pool`idle
      modifies pool.chain`available, pool.chain`framesUsed, pool.chain`free, pool.chain`freeOnHb
      modifies queue`next, queue`kind, queue`at, queue`vecs, queue`vecPosition
      modifies frame`next, frame`kind, frame`at, frame`vecs, frame`vecPosition
      ensures Valid() && pool.Valid() && Exact()
      ensures ok <==> old(writeOpen)
      ensures accepted == old(accepted) + if ok then old(PayloadOf(frame)) else []
      ensures !ok ==> queue == old(queue) && sent == old(sent) && frame.at == User
      ensures ok ==> old(sent) <= sent
      ensures ok && old(writeReady) ==>
          Wrote(Outset(old(answers), |old(sent)|, false, old(RoundsOf(frame)), old(frame.kind) == END_OF_STREAM,
                       old(frame.kind) != END_OF_STREAM), [frame])
      ensures ok && !old(writeReady) ==> queue == old(queue) + [frame] && sent == old(sent)
      ensures !(ok && old(writeReady)) ==> answers == old(answers)
      ensures ok && old(frame.kind) == END_OF_STREAM ==> !writeOpen && (finished || EndQueued(queue))
      ensures forall f :: f in pool.idle && f !in old(pool.idle) ==> f in old(queue) || f == frame
      ensures MindsOwn()
    {
      hide Core, Readable, Exact, Pool.Valid, Sendable, Payload, PayloadOf, Linked, Distinct, Wrote, RoundsOf, Awake,
          EndQueued;
      if !writeOpen {
        return false;
      }
      AwakeNow();
      AcceptFrame(frame);
      assert forall i :: 0 <= i < |queue| ==> queue[i] in old(queue) || queue[i] == frame;
      if writeReady {
        WriteOut(frame);
      } else {
        AwaitWrite();
      }
      ok := true;
    }

    /** An open stream that is ready has nothing queued. */
    lemma AwakeNow()
      requires Core() && Awake() && writeOpen
      ensures !failed && !finished && (connecting ==> !writeReady && wantConnect && watching)
      ensures writeReady ==> queue == []
    {
    }

    method AwaitWrite()
      requires !writeReady && (connecting ==> wantConnect && watching)
      modifies this`wantWrite, this`watching
      ensures Awake()
    {
      if !connecting {
        SetWantWrite();
      }
    }

    /** The stream is ready for the frame, the only one of its queue. */
    method WriteOut(frame: Frame)
      requires Core() && Reads() && Exact() && pool.Valid() && writeReady && !failed && queue == [frame]
      modifies this`sent, this`writeBytes, this`queueLength, this`writeFrames, this`tail, this`queue, this`answers,
          this`finished
      modifies this`writeReady, this`wantWrite, this`watching, this`failed, this`writeOpen, this`writeShutdown
      modifies pool`framesUsed, pool`log, pool`idle
      modifies pool.chain`available, pool.chain`framesUsed, pool.chain`free, pool.chain`freeOnHb
      modifies frame`next, frame`kind, frame`at, frame`vecs, frame`vecPosition
      ensures Core() && Reads() && Exact() && pool.Valid()
      ensures old(sent) <= sent && (writeOpen ==> old(writeOpen)) && Awake()
      ensures old(EndQueued(queue)) ==> finished || EndQueued(queue)
      ensures forall f :: f in pool.idle && f !in old(pool.idle) ==> f == frame
      ensures MindsOwn()
      ensures Wrote(Outset(old(answers), |old(sent)|, false, old(RoundsOf(frame)), old(frame.kind) == END_OF_STREAM,
                           old(frame.kind) != END_OF_STREAM), [frame])
    {
      hide Core, Exact, Readable, Pool.Valid, Wrote, Stopped;
      RoundsDue();
      ConnectingWaits();
      ghost var start := Before();
      DrainQueue();
      StillAwake();
      OpenIsWell();
      EndStays(start, [frame]);
    }

    /** _ft_stream_on_write_event */
    method OnWriteEvent()
      requires Core() && Reads() && pool.Valid() && Exact() && !connecting && !failed
      modifies this`sent, this`writeBytes, this`queueLength, this`writeFrames, this`tail, this`queue, this`answers,
          this`finished
      modifies this`writeReady, this`wantWrite, this`watching, this`failed, this`writeOpen, this`writeShutdown
      modifies pool`framesUsed, pool`log, pool`idle
      modifies pool.chain`available, pool.chain`framesUsed, pool.chain`free, pool.chain`freeOnHb
      modifies queue`next, queue`kind, queue`at, queue`vecs, queue`vecPosition
      ensures Valid() && pool.Valid() && Exact()
      ensures forall f :: f in pool.idle && f !in old(pool.idle) ==> f in old(queue)
      ensures old(sent) <= sent
      ensures MindsOwn()
      ensures Wrote(old(Before()), old(queue))
    {
      hide Core, Readable, Exact, Pool.Valid, Awake, Before, Wrote;
      HeadIs(writeFrames);
      MakeReady();
      if writeFrames != null {
        SendQueue();
      } else {
        UnsetWantWrite();
        NothingToSend();
      }
    }

    /** There is a queue to send; the watcher stays on if some of it is left. */
    method SendQueue()
      requires Core() && Reads() && pool.Valid() && Exact() && !connecting && !failed && writeReady
      modifies this`sent, this`writeBytes, this`queueLength, this`writeFrames, this`tail, this`queue, this`answers,
          this`finished
      modifies this`writeReady, this`wantWrite, this`watching, this`failed, this`writeOpen, this`writeShutdown
      modifies pool`framesUsed, pool`log, pool`idle
      modifies pool.chain`available, pool.chain`framesUsed, pool.chain`free, pool.chain`freeOnHb
      modifies queue`next, queue`kind, queue`at, queue`vecs, queue`vecPosition
      ensures Core() && Awake() && Reads() && pool.Valid() && Exact()
      ensures forall f :: f in pool.idle && f !in old(pool.idle) ==> f in old(queue)
      ensures old(sent) <= sent
      ensures MindsOwn()
      ensures Wrote(old(Before()), old(queue))
    {
      hide Core, Readable, Exact, Pool.Valid, Stopped, Awake, Before, Wrote;
      wantWrite := false;
      DrainQueue();
      StopWatching();
    }

    lemma NothingToSend()
      requires Core() && !connecting && !failed && writeFrames == null
      ensures Awake() && Wrote(Before(), queue) && queue == []
    {
    }

    /** Stops the watcher if no event is wanted. */
    method StopWatching()
      requires !connecting && (queue != [] ==> Stopped())
      modifies this`wantWrite, this`watching
      ensures Awake()
    {
      if !wantWrite && !wantConnect {
        UnsetWantWrite();
      }
    }

    method MakeReady()
      requires Core() && Reads() && Exact() && !connecting
      modifies this`writeReady
      ensures Core() && Reads() && Exact() && writeReady
    {
      hide Queueing, Ended, Delivering;
      writeReady := true;
    }

    /** _ft_stream_on_connect_event; code is what SO_ERROR reports, or None when it cannot be asked for. */
    method OnConnectEvent(code: Option<int>)
      requires Valid() && pool.Valid() && Exact() && connecting && !failed
      modifies this`sent, this`writeBytes, this`queueLength, this`writeFrames, this`tail, this`queue, this`answers,
          this`finished
      modifies this`writeReady, this`wantWrite, this`watching, this`failed, this`writeOpen, this`writeShutdown
      modifies this`connecting, this`wantConnect
      modifies pool`framesUsed, pool`log, pool`idle
      modifies pool.chain`available, pool.chain`framesUsed, pool.chain`free, pool.chain`freeOnHb
      modifies queue`next, queue`kind, queue`at, queue`vecs, queue`vecPosition
      ensures Valid() && pool.Valid() && Exact()
      ensures connecting <==> code != Some(0)
      ensures failed && connecting <==> code.Some? && code.value != 0
      ensures forall f :: f in pool.idle && f !in old(pool.idle) ==> f in old(queue)
      ensures old(sent) <= sent
      ensures MindsOwn()
      ensures code != Some(0) ==> answers == old(answers) && sent == old(sent) && queue == old(queue)
      ensures code == Some(0) ==> Wrote(old(Before()), old(queue))
    {
      hide Pool.Valid, Core, Exact, Readable, Before, Wrote;
      if code.None? {
        return;
      }
      if code.value != 0 {
        Error();
        return;
      }
      Connected();
      OnWriteEvent();
    }

    /** The connection is made: the stream waits to write. */
    method Connected()
      requires Core() && Reads() && pool.Valid() && Exact() && connecting && !failed
      modifies this`connecting, this`wantConnect, this`wantWrite, this`watching
      ensures Core() && Reads() && pool.Valid() && Exact() && !connecting && wantWrite && watching
    {
      hide Pool.Valid, Queueing, Ended, Delivering, Exact, Readable;
      wantConnect := false;
      if !wantWrite {
        watching := false;
      }
      SetWantWrite();
      connecting := false;
    }

    /** Only the frame given, or one lent meanwhile, has come to the pool; the pool has lost none. */
    twostate predicate SlotLetsGo(frame: Frame?)
      reads pool`idle, pool`frames, pool`chain
    {
      && old(pool.frames) <= pool.frames
      && (forall f :: f in pool.idle && f in old(pool.frames) ==> f in old(pool.idle) || f == frame)
      && (forall f :: f in pool.frames && f !in old(pool.frames) ==> fresh(f))
      && (forall z :: z in pool.chain ==> z in old(pool.chain) || fresh(z))
    }

    lemma HeldApart()
      requires Core()
      ensures forall i :: 0 <= i < |queue| ==> Holds(queue[i]) && queue[i] !in pool.idle
    {
      forall i | 0 <= i < |queue| ensures Holds(queue[i]) && queue[i] !in pool.idle {
        assert queue[i] in queue;
      }
    }

    /** The pool can lend nothing: no frame is idle, and there is no new zone. */
    ghost predicate OutOfFrames(maps: bool)
      reads pool`idle, pool`lastZone, pool`chain
    {
      pool.idle == {} && (pool.lastZone || |pool.chain| >= 2 || !maps)
    }

    /** Borrowing is no matter of the stream's. */
    method Borrow(kind: Kind, maps: bool) returns (frame: Frame?)
      requires Valid() && pool.Valid() && Exact() && kind != FREE
      modifies pool, pool.chain, pool.idle
      ensures Valid() && pool.Valid() && Exact()
      ensures frame != null ==>
                && frame in pool.frames && frame !in pool.idle && Handed(frame, kind)
                && frame !in queue && frame !in Slot()
      ensures SlotLetsGo(null)
      ensures frame == null <==> old(OutOfFrames(maps))
      ensures frame == null ==> OutOfFrames(maps)
      ensures frame != null && frame in old(pool.frames) ==> frame in old(pool.idle)
      ensures frame != null && frame !in old(pool.frames) ==> fresh(frame)
      ensures forall z :: z in pool.chain ==> z in old(pool.chain) || fresh(z)
      ensures MindsOwn()
    {
      hide Pool.Valid, Linked, QueueBytes, Distinct, Sendable, Payload, PayloadOf, FirstFree;
      HeldApart();
      frame := pool.Borrow(kind, maps);
      pool.IdleAreFree();
      assert forall i :: 0 <= i < |queue| ==> Holds(queue[i]);
    }

    /** _ft_stream_cntl_write_shutdown: ends the stream with a frame of its own, unless it has ended. */
    method WriteShutdown(maps: bool) returns (ok: bool)
      requires Valid() && pool.Valid() && Exact()
      modifies this`sent, this`writeBytes, this`queueLength, this`writeFrames, this`tail, this`queue, this`answers,
          this`finished
      modifies this`writeReady, this`wantWrite, this`watching, this`failed, this`writeOpen, this`writeShutdown,
          this`accepted
      modifies pool, pool.chain, pool.idle
      modifies queue`next, queue`kind, queue`at, queue`vecs, queue`vecPosition
      ensures Valid() && pool.Valid() && Exact()
      ensures accepted == old(accepted) && old(sent) <= sent
      ensures ok ==> !writeOpen || writeShutdown
      ensures ok && old(writeOpen && !writeShutdown) ==> finished || EndQueued(queue)
      ensures ok <==> old(writeShutdown || !writeOpen) || !old(OutOfFrames(maps))
      ensures old(pool.frames) <= pool.frames
      ensures forall f :: f in pool.frames && f !in old(pool.frames) ==> fresh(f)
      ensures forall f :: f in pool.idle && f in old(pool.frames) ==> f in old(pool.idle) || f in old(queue)
      ensures MindsOwn()
    {
      hide Valid, Pool.Valid;
      if writeShutdown || !writeOpen {
        return true;
      }
      var frame := Borrow(END_OF_STREAM, maps);
      if frame == null {
        return false;
      }
      assert frame in old(pool.idle) || fresh(frame);
      assert forall i :: 0 <= i < |pool.chain| ==> pool.chain[i] in old(pool.chain) || fresh(pool.chain[i]);
      ok := Write(frame);
    }

    // -------------------------------------------------------------------------
    // The read half
    // -------------------------------------------------------------------------

    /**
    The delegate's read callback.  It may keep the frame; one it leaves has room
    for more, perhaps because the delegate has just grown it.
    */
    method Delegate(frame: Frame) returns (up: bool)
      requires pool.Valid() && frame in pool.frames && frame !in pool.idle && frame.at == Reading(this)
      requires Logged() && Reportable(frame)
      modifies frame`at, frame`vecs, frame`vecPosition, this`wantRead, this`told, this`goesOn, this`unseen
      ensures pool.Valid() && Logged() && unseen == [] && told == old(told) + [old(Report(frame))] && goesOn == wantRead
      ensures if up then frame.at == User else frame.at == Reading(this) && Readable(frame)
    {
      hide Pool.Valid;
      Call(frame);
      up := *;
      wantRead := *;
      goesOn := wantRead;
      if up {
        pool.Note(frame, User);
      } else {
        var vecs, at := AnyVecs();
        frame.vecs, frame.vecPosition := vecs, at;
      }
    }

    /** Vectors with room, of any kind. */
    method AnyVecs() returns (vecs: seq<Vec>, at: nat)
      ensures Roomy(vecs, at)
    {
      assert Roomy([Vec(0, 0, 1, 1)], 0);
      vecs, at :| Roomy(vecs, at);
    }

    /** The vectors of a new frame: one for all its memory, or those the delegate gives it. */
    method NewVecs() returns (vecs: seq<Vec>)
      ensures Roomy(vecs, 0) && (!getsFrames ==> vecs == [Vec(0, 0, FRAME_SIZE - VEC_SIZE, FRAME_SIZE - VEC_SIZE)])
    {
      var simple := [Vec(0, 0, FRAME_SIZE - VEC_SIZE, FRAME_SIZE - VEC_SIZE)];
      assert Roomy(simple, 0);
      vecs :| Roomy(vecs, 0) && (!getsFrames ==> vecs == simple);
    }

    /** The record of the call. */
    ghost method Call(frame: Frame)
      requires Logged() && Reportable(frame)
      modifies this`told, this`goesOn, this`unseen
      ensures Logged() && unseen == [] && told == old(told) + [old(Report(frame))]
    {
      NewsSnoc(told, Report(frame));
      assert News(told) + unseen + [] == received;
      told, unseen := told + [Report(frame)], [];
    }

    lemma NothingUnseen(frame: Frame)
      requires unseen == [] && Readable(frame) && orderly == Orderly(frame.vecs, frame.vecPosition)
      ensures Reportable(frame)
    {
    }

    /** The frame in the read slot goes to the delegate and, if it is not kept, back into the slot. */
    method HandUp()
      requires Core() && readFrame != null && pool.Valid() && Exact()
      requires readFrame in pool.frames && readFrame !in pool.idle && readFrame.at == Reading(this)
          && readFrame.kind != FREE
      requires Logged() && Reportable(readFrame)
      modifies this`readFrame, this`wantRead, this`told, this`goesOn, this`unseen, this`orderly
      modifies Slot()`at, Slot()`vecs, Slot()`vecPosition
      ensures Core() && Reads() && pool.Valid() && Exact() && Reported()
      ensures readFrame == null || readFrame == old(readFrame)
      ensures told == old(told) + [old(Report(readFrame))] && unseen == [] && goesOn == wantRead
      ensures MindsOwn()
    {
      hide Pool.Valid, Queueing, Ended, Delivering, Roomy, Report, AllTold, Latest;
      HeldHere();
      var frame := readFrame;
      readFrame := null;
      var up := Delegate(frame);
      if !up {
        readFrame, orderly := frame, Orderly(frame.vecs, frame.vecPosition);
        NothingUnseen(frame);
      }
    }

    /**
    A frame for reading: an empty one from the pool, as ft_frame_format_simple makes it,
    or one the delegate borrows and formats as it likes.
    */
    method FillSlot(maps: bool)
      requires Valid() && Exact() && pool.Valid() && Reported() && readFrame == null
      modifies this`readFrame, this`orderly, pool, pool.chain, pool.idle
      ensures Valid() && Exact() && pool.Valid() && Reported()
      ensures readFrame != null ==> readFrame in old(pool.idle) || fresh(readFrame)
      ensures readFrame == null <==> old(OutOfFrames(maps))
      ensures readFrame == null ==> pool.idle == {}
      ensures SlotLetsGo(null)
      ensures MindsOwn()
    {
      hide Core, Pool.Valid, Exact;
      var frame := Borrow(RAW_DATA, maps);
      if frame != null {
        var vecs := NewVecs();
        Hold(frame, vecs);
      }
    }

    method Hold(frame: Frame, vecs: seq<Vec>)
      requires Core() && Reads() && Exact() && pool.Valid() && Reported() && readFrame == null && Roomy(vecs, 0)
      requires frame in pool.frames && frame !in pool.idle && Handed(frame, RAW_DATA)
      modifies this`readFrame, this`orderly, frame`at, frame`vecs, frame`vecPosition
      ensures Core() && Reads() && Exact() && pool.Valid() && Reported() && readFrame == frame && frame.vecs == vecs
      ensures MindsOwn()
    {
      hide Core, Pool.Valid, AllTold, Latest;
      HeldHere();
      frame.vecs := vecs;
      frame.vecPosition := 0;
      readFrame, orderly := frame, Orderly(vecs, 0);
      NothingUnseen(frame);
      pool.Note(frame, Reading(this));
    }

    /** The frame in the read slot is ours, whatever room it has left. */
    ghost predicate Slotted()
      reads this`readFrame, Slot()`at, Slot()`kind, pool`frames, pool`idle
    {
      readFrame != null && readFrame in pool.frames && readFrame !in pool.idle && readFrame.at == Reading(this)
          && readFrame.kind != FREE
    }

    /** recv() puts the bytes got where the current vector stands, inside the vector, and nowhere else. */
    method Receive(frame: Frame, rc: nat) returns (full: bool, ghost got: seq<byte>)
      requires Readable(frame) && 0 < rc <= frame.vecs[frame.vecPosition].limit - frame.vecs[frame.vecPosition].position
      requires Logged() && Reportable(frame)
      modifies frame`data, frame`vecs, frame`vecPosition, this`readBytes, this`received, this`unseen
      ensures var v := old(frame.vecs[frame.vecPosition]);
              var at := v.offset + v.position;
              && at + rc <= v.offset + v.limit <= FRAME_SIZE && |got| == rc
              && frame.data == Splice(old(frame.data), at, got)
              && full == (v.position + rc == v.limit)
              && frame.vecPosition == old(frame.vecPosition) + (if full then 1 else 0)
      ensures frame.vecPosition < |frame.vecs| ==> Readable(frame)
      ensures |frame.vecs| == |old(frame.vecs)| && readBytes == old(readBytes) + rc
      ensures Logged() && Reportable(frame) && received == old(received) + got && unseen == old(unseen) + got
    {
      hide News, Content, Orderly, Splice, SumPositions;
      var i := frame.vecPosition;
      var v := frame.vecs[i];
      assert |seq<byte>(rc, _ => 0)| == rc;
      var bytes: seq<byte> :| |bytes| == rc;
      got := bytes;
      Extended(frame, got);
      frame.data := Splice(frame.data, v.offset + v.position, bytes);
      readBytes := readBytes + rc;
      frame.vecs := frame.vecs[i := v.(position := v.position + rc)];
      full := v.position + rc == v.limit;
      if full {
        frame.vecPosition := i + 1;
      }
      received, unseen := received + got, unseen + got;
    }

    /** What is received becomes the end of what the frame has taken in. */
    lemma Extended(frame: Frame, got: seq<byte>)
      requires Readable(frame) && Logged() && Reportable(frame)
      requires |got| <= frame.vecs[frame.vecPosition].limit - frame.vecs[frame.vecPosition].position
      ensures var i := frame.vecPosition;
              var v := frame.vecs[i];
              var after := frame.vecs[i := v.(position := v.position + |got|)];
              && News(told) + (unseen + got) == received + got
              && AllInBounds(after) && |unseen + got| <= SumPositions(after)
              && (orderly ==>
                    && Orderly(after, i) && Orderly(after, i + 1)
                    && IsSuffix(unseen + got, Content(Splice(frame.data, v.offset + v.position, got), after)))
    {
      hide News, Content, Orderly, Splice, SumPositions;
      var i := frame.vecPosition;
      var v := frame.vecs[i];
      var after := frame.vecs[i := v.(position := v.position + |got|)];
      assert News(told) + unseen + got == News(told) + (unseen + got);
      ReceiveCounts(frame.vecs, i, |got|);
      if orderly {
        StaysOrderly(frame.vecs, i, |got|);
        ReceiveExtends(frame.data, frame.vecs, i, got);
        SuffixGrows(unseen, Content(frame.data, frame.vecs), got);
      }
    }

    /** A frame for the delegate: it is kept, or it goes back to the pool. */
    method GiveUp(frame: Frame)
      requires Core() && pool.Valid() && frame in pool.frames && frame !in pool.idle && frame.at == Reading(this)
          && frame.kind != FREE
      requires Logged() && Reportable(frame)
      requires forall f :: f in pool.frames ==>
          (f.at == Queued(this) ==> f in queue)
          && (f.at == Reading(this) ==> f == frame)
      modifies this`readFrame, this`wantRead, this`told, this`goesOn, this`unseen
      modifies frame`at, frame`vecs, frame`vecPosition, frame`next, frame`kind
      modifies pool`framesUsed, pool`log, pool`idle
      modifies frame.zone`available, frame.zone`framesUsed, frame.zone`free, frame.zone`freeOnHb
      ensures Core() && Exact() && pool.Valid() && readFrame == null && Reported()
      ensures told == old(told) + [old(Report(frame))]
      ensures SlotLetsGo(frame)
      ensures MindsOwn()
    {
      hide Pool.Valid, Sendable, QueueBytes, Linked, Distinct, Payload, PayloadOf, Roomy, Report, AllTold, Latest;
      HeldApart();
      readFrame := null;
      var up := Delegate(frame);
      if !up {
        Release(frame);
      }
    }

    lemma LittleUnseen(frame: Frame)
      requires Reportable(frame)
      ensures |unseen| <= SumPositions(frame.vecs)
    {
    }

    lemma EndReport(frame: Frame)
      requires unseen == [] && frame.vecs == [] && frame.kind == END_OF_STREAM
      ensures Reportable(frame) && IsEnd(Report(frame)) && Report(frame).frame == frame
    {
    }

    /** A frame of type end-of-stream for the delegate, unless the pool is out of frames. */
    method GiveEnd(maps: bool)
      requires Valid() && Exact() && pool.Valid() && Reported() && readFrame == null
      modifies this`readFrame, this`wantRead, this`readPaused, this`readPauseLevel
      modifies this`told, this`goesOn, this`unseen, this`orderly
      modifies pool, pool.chain, pool.idle
      ensures Valid() && Exact() && pool.Valid() && Reported() && readFrame == null
      ensures if old(OutOfFrames(maps))
              then told == old(told) && OutOfFrames(maps) && readPaused && readPauseLevel == old(readPauseLevel) + 1
              else Ending(old(told), told)
      ensures SlotLetsGo(null)
      ensures MindsOwn()
    {
      hide Pool.Valid, Core, OutOfFrames, Ending, Roomy, Report, AllTold, Latest;
      var frame := Borrow(END_OF_STREAM, maps);
      if frame == null {
        readPaused := true;
        readPauseLevel := readPauseLevel + 1;
        return;
      }
      assert frame in old(pool.idle) || fresh(frame);
      PoolOf(frame);
      assert frame.zone in old(pool.chain) || fresh(frame.zone);
      GiveEndFrame(frame);
    }

    method GiveEndFrame(frame: Frame)
      requires Valid() && Exact() && pool.Valid() && Reported() && readFrame == null
      requires frame in pool.frames && frame !in pool.idle && Handed(frame, END_OF_STREAM)
      modifies this`readFrame, this`wantRead, this`told, this`goesOn, this`unseen, this`orderly
      modifies pool`framesUsed, pool`log, pool`idle
      modifies frame`at, frame`vecs, frame`vecPosition, frame`next, frame`kind
      modifies frame.zone`available, frame.zone`framesUsed, frame.zone`free, frame.zone`freeOnHb
      ensures Valid() && Exact() && pool.Valid() && Reported() && readFrame == null && Ending(old(told), told)
      ensures SlotLetsGo(frame) && MindsOwn()
    {
      hide Pool.Valid, Core, Ending, AllTold, Latest;
      HeldHere();
      pool.Note(frame, Reading(this));
      orderly := true;
      EndReport(frame);
      EndingSnoc(told, Report(frame));
      GiveUp(frame);
    }

    /** There are bytes in the frame of the slot: ft_frame_pos is positive. */
    ghost predicate HasRead()
      reads this`readFrame, Slot()`vecs
    {
      readFrame != null && SumPositions(readFrame.vecs) > 0
    }

    /** What the shutdown tells the delegate of the frame in the slot, before the end. */
    ghost function LastWords(): seq<Upcall>
      reads this`readFrame, this`unseen, this`orderly, Slot()`vecs, Slot()`kind, Slot()`data
    {
      if HasRead() then [Report(readFrame)] else []
    }

    /**
    _ft_stream_read_shutdown: a frame with data in the slot goes up, then an
    end-of-stream frame; an empty frame of the slot becomes that frame.  Only when there
    is no frame to be had the end is not told, and reading is paused.
    */
    method ReadShutdown(maps: bool)
      requires Valid() && Exact() && pool.Valid() && Reported()
      modifies this`readFrame, this`wantRead, this`readShutdown, this`readPaused, this`readPauseLevel
      modifies this`told, this`goesOn, this`unseen, this`orderly
      modifies pool, pool.chain, pool.idle
      modifies Slot()
      ensures Valid() && Exact() && pool.Valid() && Reported() && readFrame == null && readShutdown && unseen == []
      ensures var before := old(told) + old(LastWords());
              if told == before then
                && (old(HasRead()) || old(readFrame) == null)
                && OutOfFrames(maps) && readPaused && readPauseLevel == old(readPauseLevel) + 1
              else
                && Ending(before, told)
                && (old(readFrame) != null && !old(HasRead()) ==> told[|before|].frame == old(readFrame))
      ensures old(readFrame) == null && old(OutOfFrames(maps)) ==> told == old(told)
      ensures SlotLetsGo(old(readFrame))
      ensures MindsOwn()
    {
      hide Pool.Valid, Core, Exact, Roomy, OutOfFrames, Report, IsEnd, AllTold, Latest;
      wantRead := false;
      readShutdown := true;
      if readFrame != null && SumPositions(readFrame.vecs) == 0 {
        ghost var frame := readFrame;
        PoolOf(frame);
        EndInSlot();
      } else {
        EndBehind(maps);
      }
    }

    /** The frame of the slot goes up, if there is one, and then a frame of its own for the end. */
    method EndBehind(maps: bool)
      requires Valid() && Exact() && pool.Valid() && Reported() && (readFrame != null ==> HasRead())
      modifies this`readFrame, this`wantRead, this`readPaused, this`readPauseLevel
      modifies this`told, this`goesOn, this`unseen, this`orderly
      modifies pool, pool.chain, pool.idle
      modifies Slot()
      ensures Valid() && Exact() && pool.Valid() && Reported() && readFrame == null
      ensures var before := old(told) + old(LastWords());
              if told == before then
                OutOfFrames(maps) && readPaused && readPauseLevel == old(readPauseLevel) + 1
              else Ending(before, told)
      ensures old(readFrame) == null && old(OutOfFrames(maps)) ==> told == old(told)
      ensures SlotLetsGo(old(readFrame)) && MindsOwn()
    {
      hide Pool.Valid, Core, Exact, Roomy, OutOfFrames, Report, IsEnd, AllTold, Latest;
      if readFrame != null {
        ghost var frame := readFrame;
        PoolOf(frame);
        GiveSlot();
        pool.IdleAreFree();
      }
      GiveEnd(maps);
    }

    /** The frame of the slot goes up with what it holds. */
    method GiveSlot()
      requires Valid() && Exact() && pool.Valid() && Reported() && HasRead()
      modifies this`readFrame, this`wantRead, this`told, this`goesOn, this`unseen, this`orderly
      modifies pool`framesUsed, pool`log, pool`idle
      modifies Slot()`at, Slot()`vecs, Slot()`vecPosition, Slot()`next, Slot()`kind
      modifies readFrame.zone`available, readFrame.zone`framesUsed, readFrame.zone`free, readFrame.zone`freeOnHb
      ensures Valid() && Exact() && pool.Valid() && Reported() && readFrame == null
      ensures told == old(told) + [old(Report(readFrame))]
      ensures SlotLetsGo(old(readFrame)) && MindsOwn()
    {
      hide Pool.Valid, Core, Exact, Roomy, Report, AllTold, Latest;
      OnlySlot();
      GiveUp(readFrame);
    }

    /** The empty frame of the slot goes up as the end of the stream. */
    method EndInSlot()
      requires Valid() && Exact() && pool.Valid() && Reported() && readFrame != null && !HasRead()
      modifies this`readFrame, this`wantRead, this`told, this`goesOn, this`unseen, this`orderly
      modifies pool`framesUsed, pool`log, pool`idle
      modifies Slot()`at, Slot()`vecs, Slot()`vecPosition, Slot()`next, Slot()`kind
      modifies readFrame.zone`available, readFrame.zone`framesUsed, readFrame.zone`free, readFrame.zone`freeOnHb
      ensures Valid() && Exact() && pool.Valid() && Reported() && readFrame == null
      ensures Ending(old(told), told) && told[|told| - 1].frame == old(readFrame)
      ensures SlotLetsGo(old(readFrame)) && MindsOwn()
    {
      hide Pool.Valid, Core, Exact, Roomy, Report, AllTold, Latest;
      var frame := readFrame;
      OnlySlot();
      SlotApart();
      LittleUnseen(frame);
      frame.vecs, frame.vecPosition := [], 0;
      frame.kind := END_OF_STREAM;
      orderly := true;
      EndReport(frame);
      EndingSnoc(told, Report(frame));
      GiveUp(frame);
    }

    lemma OnlySlot()
      requires Exact() && readFrame != null
      ensures forall f :: f in pool.frames ==>
          (f.at == Queued(this) ==> f in queue)
          && (f.at == Reading(this) ==> f == readFrame)
    {
    }

    /** The peer has closed the connection, or recv has failed. */
    method CloseReads(rc: int)
      requires Valid() && Exact() && pool.Valid() && Reported() && readFrame != null
      modifies this`readFrame, this`wantRead, this`readShutdown, this`readPaused, this`readPauseLevel
      modifies this`failed, this`writeOpen, this`writeShutdown, this`watching
      modifies this`told, this`goesOn, this`unseen, this`orderly
      modifies pool, pool.chain, pool.idle, Slot()
      ensures Valid() && Exact() && pool.Valid() && Reported() && readFrame == null
      ensures old(told) <= told && readShutdown && unseen == [] && failed == (old(failed) || rc < 0)
      ensures SlotLetsGo(old(readFrame)) && MindsOwn()
    {
      hide Core, Pool.Valid, Exact, AllTold, Latest, Report, OutOfFrames, Roomy;
      if rc < 0 {
        Error();
      }
      var maps: bool := *;
      ReadShutdown(maps);
    }

    /** recv(): any count up to the size, or an error; again says whether it was EAGAIN. */
    method Recv(size: nat) returns (rc: int, again: bool)
      requires size > 0
      modifies this`recvs
      ensures rc <= size && recvs == old(recvs) + [Answer(size, rc, again)]
    {
      rc :| rc <= size;
      again := *;
      recvs := recvs + [Answer(size, rc, again)];
    }

    ghost function ReadBefore(): ReadOutset
      reads this`recvs, this`received, this`failed, this`told
    {
      ReadOutset(recvs, |received|, failed, |told|)
    }

    /** Reading goes on: loops rounds have been made since start, and each has filled its vector. */
    ghost predicate ReadUnderway(start: ReadOutset, loops: nat)
      reads this`recvs, this`received, this`failed, this`told, this`unseen
    {
      && TookAll(start.recvs, recvs, loops, |received| - start.received) && failed == start.failed
      && start.told <= |told| && Prompt(start)
    }

    /** With partial reads, whatever is received is handed up at once. */
    ghost predicate Prompt(start: ReadOutset)
      reads this`received, this`unseen
    {
      readPartial && |received| > start.received ==> unseen == []
    }

    /**
    Why reading has stopped: the last answer has not filled its vector, the delegate wants no more,
    no frame is to be had, or the limit is reached.
    */
    ghost predicate ReadOver(start: ReadOutset)
      reads this`recvs, this`received, this`failed, this`told, this`unseen, this`wantRead, this`goesOn,
            this`readShutdown, this`readPaused, this`readFrame, pool`idle
    {
      && Prompt(start)
      && if TookLess(start.recvs, recvs, maxReadLoops, |received| - start.received) then
        var last := recvs[|recvs| - 1];
        && failed == (start.failed || Fails(last))
        && (if last.rc == 0 || Fails(last) then readShutdown && readFrame == null else wantRead)
      else
        && |start.recvs| <= |recvs| <= |start.recvs| + maxReadLoops && failed == start.failed
        && TookAll(start.recvs, recvs, |recvs| - |start.recvs|, |received| - start.received)
        && (|| (|recvs| - |start.recvs| == maxReadLoops && wantRead)
            || (|recvs| > |start.recvs| && |told| > start.told && !wantRead && !goesOn)
            || (readFrame == null && readPaused && pool.idle == {}))
    }

    /** One round of the read loop, with a frame in the slot. */
    method ReadRound(ghost start: ReadOutset, ghost loops: nat) returns (go: bool)
      requires Valid() && Exact() && pool.Valid() && Reported() && readFrame != null
      requires ReadUnderway(start, loops) && loops < maxReadLoops
      modifies this`readFrame, this`wantRead, this`readShutdown, this`readPaused, this`readPauseLevel, this`readBytes
      modifies this`failed, this`writeOpen, this`writeShutdown, this`watching
      modifies this`received, this`told, this`goesOn, this`recvs, this`unseen, this`orderly
      modifies pool, pool.chain, pool.idle, Slot()
      ensures Valid() && Exact() && pool.Valid() && Reported()
      ensures old(received) <= received && old(told) <= told
      ensures SlotLetsGo(old(readFrame)) && (readFrame == null || readFrame == old(readFrame))
      ensures MindsOwn()
      ensures if go then ReadUnderway(start, loops + 1) else ReadOver(start)
    {
      hide Core, Pool.Valid, Exact, Reported, OutOfFrames, TookAll, TookLess;
      var frame := readFrame;
      var v := frame.vecs[frame.vecPosition];
      SlotApart();
      assert v.position < v.limit;
      ghost var sofar, gain := recvs, |received| - start.received;
      var rc, again := Recv(v.limit - v.position);
      TakesMore(start.recvs, sofar, recvs[|sofar|], loops, maxReadLoops, gain);
      if rc < 0 && again {
        wantRead := true;
        return false;
      }
      if rc <= 0 {
        CloseReads(rc);
        return false;
      }
      go := TakeIn(frame, rc);
      if Whole(recvs[|sofar|]) {
        AllIsNotLess(start.recvs, recvs, maxReadLoops, loops + 1, |received| - start.received);
      }
    }

    /** A round of the read loop; the slot is filled first if it is empty. */
    method ReadOnce(ghost start: ReadOutset, ghost loops: nat) returns (go: bool)
      requires Valid() && Exact() && pool.Valid() && Reported()
      requires ReadUnderway(start, loops) && loops < maxReadLoops
      modifies this`readFrame, this`wantRead, this`readShutdown, this`readPaused, this`readPauseLevel, this`readBytes
      modifies this`failed, this`writeOpen, this`writeShutdown, this`watching
      modifies this`received, this`told, this`goesOn, this`recvs, this`unseen, this`orderly
      modifies pool, pool.chain, pool.idle, Slot()
      ensures Valid() && Exact() && pool.Valid() && Reported()
      ensures old(received) <= received && old(told) <= told
      ensures SlotLetsGo(old(readFrame)) && MindsOwn()
      ensures readFrame == null || readFrame in old(Slot()) || readFrame in old(pool.idle) || fresh(readFrame)
      ensures if go then ReadUnderway(start, loops + 1) else ReadOver(start)
    {
      hide Core, Readable, Exact, Pool.Valid, Reported, OutOfFrames, ReadUnderway, ReadOver;
      if readFrame == null {
        var maps: bool := *;
        FillSlot(maps);
        if readFrame == null {
          readPaused := true;
          readPauseLevel := readPauseLevel + 1;
          StarvedOver(start, loops);
          return false;
        }
        pool.IdleAreFree();
        assert forall f :: f in pool.idle ==> f in old(pool.idle) || fresh(f);
        assert forall i :: 0 <= i < |pool.chain| ==> pool.chain[i] in old(pool.chain) || fresh(pool.chain[i]);
      }
      go := ReadRound(start, loops);
    }

    /**
    _ft_stream_on_read_event.  What is received meanwhile has been handed to the
    delegate, in order, but for the last bytes of the frame in the slot; and
    reading goes on as long as there is a reason to.
    */
    method OnReadEvent()
      requires Valid() && Exact() && pool.Valid() && Reported() && !connecting
      modifies this`readFrame, this`wantRead, this`readShutdown, this`readPaused, this`readPauseLevel, this`readBytes
      modifies this`failed, this`writeOpen, this`writeShutdown, this`watching
      modifies this`received, this`told, this`goesOn, this`recvs, this`unseen, this`orderly
      modifies pool, pool.chain, pool.idle, Slot()
      ensures Valid() && Exact() && pool.Valid() && Reported()
      ensures old(received) <= received && old(told) <= told && News(told) + unseen == received
      ensures forall u :: u in told ==> Truthful(u)
      ensures readFrame == null ==> News(told) == received
      ensures readFrame != null && orderly ==> IsSuffix(unseen, ContentOf(readFrame))
      ensures SlotLetsGo(old(readFrame)) && MindsOwn()
      ensures ReadOver(old(ReadBefore()))
    {
      hide Core, Readable, Exact, Pool.Valid, Reported, ReadUnderway, ReadOver, ReadBefore, News, Truthful, ContentOf,
          IsSuffix;
      ghost var start := ReadBefore();
      ReadsOn();
      var loops := 0;
      while loops < maxReadLoops
        invariant Valid() && Exact() && pool.Valid() && Reported()
        invariant loops <= maxReadLoops && ReadUnderway(start, loops)
        invariant old(received) <= received && old(told) <= told
        invariant SlotLetsGo(old(readFrame)) && MindsOwn()
        invariant readFrame == null || readFrame in old(Slot()) || readFrame in old(pool.idle) || fresh(readFrame)
      {
        pool.IdleAreFree();
        assert forall f :: f in pool.idle ==> f in old(pool.idle) || f in old(Slot()) || fresh(f);
        assert forall i :: 0 <= i < |pool.chain| ==> pool.chain[i] in old(pool.chain) || fresh(pool.chain[i]);
        var go := ReadOnce(start, loops);
        if !go {
          AllHandedUp();
          return;
        }
        loops := loops + 1;
      }
      AllHandedUp();
      wantRead := true;
      ReadsEnough(start);
    }

    lemma ReadsOn()
      ensures ReadUnderway(ReadBefore(), 0)
    {
    }

    lemma ReadsEnough(start: ReadOutset)
      requires ReadUnderway(start, maxReadLoops) && wantRead
      ensures ReadOver(start)
    {
      hide TookAll, TookLess;
      AllIsNotLess(start.recvs, recvs, maxReadLoops, maxReadLoops, |received| - start.received);
    }

    lemma StarvedOver(start: ReadOutset, loops: nat)
      requires ReadUnderway(start, loops) && loops < maxReadLoops
      requires readFrame == null && readPaused && pool.idle == {}
      ensures ReadOver(start)
    {
      hide TookAll, TookLess;
      AllIsNotLess(start.recvs, recvs, maxReadLoops, loops, |received| - start.received);
    }

    /** The frame has taken in rc bytes: whether it goes up, and whether reading goes on. */
    method TakeIn(frame: Frame, rc: nat) returns (go: bool)
      requires Valid() && Exact() && pool.Valid() && Reported() && readFrame == frame
      requires 0 < rc <= frame.vecs[frame.vecPosition].limit - frame.vecs[frame.vecPosition].position
      modifies this`readFrame, this`wantRead, this`readBytes
      modifies this`received, this`told, this`goesOn, this`unseen, this`orderly
      modifies frame`at, frame`data, frame`vecs, frame`vecPosition
      ensures Valid() && Exact() && pool.Valid() && Reported()
      ensures old(received) <= received && |received| == |old(received)| + rc && old(told) <= told
      ensures readFrame == null || readFrame == frame
      ensures MindsOwn()
      ensures readPartial ==> unseen == []
      ensures var v := old(frame.vecs[frame.vecPosition]);
              if v.position + rc < v.limit then !go && wantRead
              else !go ==> |told| > |old(told)| && !wantRead && !goesOn
    {
      hide Core, Pool.Valid, Exact, Report, OutOfFrames, AllTold, Latest;
      SlotApart();
      var full, got := Receive(frame, rc);
      if !full {
        if readPartial {
          HandUp();
        }
        wantRead := true;
        return false;
      }
      if frame.vecPosition == |frame.vecs| || readPartial {
        HandUp();
        return wantRead;
      }
      go := true;
    }

    /** What the invariant says of the bytes received. */
    lemma AllHandedUp()
      requires Reported()
      ensures News(told) + unseen == received && forall u :: u in told ==> Truthful(u)
      ensures readFrame == null ==> News(told) == received
      ensures readFrame != null && orderly ==> IsSuffix(unseen, ContentOf(readFrame))
    {
      hide News, Truthful, Orderly, Content, IsSuffix;
      if readFrame == null { assert News(told) + [] == News(told); }
    }

    // -------------------------------------------------------------------------
    // ft_stream_fini
    // -------------------------------------------------------------------------

    /** What is left of the stream's frames while it is torn down: those of the queue, and out. */
    ghost predicate Leftover(out: Frame?)
      reads this`writeFrames, this`queue, queue`next, queue`at, queue`kind, queue`data, queue`vecs, queue`vecPosition
      reads pool`frames, pool`idle, pool.frames`at
    {
      && Linked(writeFrames, queue) && Distinct(queue) && (forall f :: f in queue ==> Holds(f))
      && forall f :: f in pool.frames && f != out ==> (f.at == Queued(this) ==> f in queue) && f.at != Reading(this)
    }

    /** Returns one frame, to the pool or to the delegate. */
    method LetGo(frame: Frame)
      requires Leftover(frame) && pool.Valid() && frame in pool.frames && frame !in pool.idle && frame.kind != FREE
          && frame !in queue
      modifies pool`framesUsed, pool`log, pool`idle
      modifies frame.zone`available, frame.zone`framesUsed, frame.zone`free, frame.zone`freeOnHb, frame`next,
          frame`kind, frame`at
      ensures Leftover(null) && pool.Valid()
      ensures pool.idle <= old(pool.idle) + {frame}
      ensures MindsOwn()
    {
      hide Sendable, Linked, Distinct, Pool.Structured, Pool.Recorded, Pool.Noted;
      if frameReturn {
        pool.Note(frame, User);
      } else {
        pool.Return(frame);
      }
    }

    lemma StartsToFall()
      requires Core() && Reads() && Exact()
      ensures Leftover(readFrame) && (readFrame != null ==> readFrame !in queue)
    {
      SlotApart();
    }

    method DropFirst() returns (frame: Frame)
      requires Leftover(null) && writeFrames != null
      modifies this`writeFrames, this`queue
      ensures Leftover(frame) && frame !in queue && frame in pool.frames && frame !in pool.idle && frame.kind != FREE
      ensures queue == old(queue)[1..] && frame == old(queue)[0]
    {
      hide Linked, Distinct;
      First();
      frame := writeFrames;
      assert Holds(frame) && forall f :: f in queue[1..] ==> Holds(f);
      DropHead(frame);
    }

    lemma First()
      requires Linked(writeFrames, queue)
      ensures writeFrames == if queue == [] then null else queue[0]
    {
    }

    /** Returns the frames of the write queue, front to back. */
    method DropQueue()
      requires Leftover(null) && pool.Valid()
      modifies this`writeFrames, this`queue, pool`framesUsed, pool`log, pool`idle
      modifies pool.chain`available, pool.chain`framesUsed, pool.chain`free, pool.chain`freeOnHb
      modifies queue`next, queue`kind, queue`at
      ensures Leftover(null) && pool.Valid() && writeFrames == null && queue == []
      ensures forall f :: f in pool.idle && f !in old(pool.idle) ==> f in old(queue)
      ensures MindsOwn()
    {
      hide Pool.Valid, Leftover;
      Headed();
      while writeFrames != null
        invariant Leftover(null) && pool.Valid()
        invariant writeFrames == if queue == [] then null else queue[0]
        invariant forall i :: 0 <= i < |queue| ==> queue[i] in old(queue)
        invariant forall f :: f in pool.idle && f !in old(pool.idle) ==> f in old(queue)
        invariant MindsOwn()
        decreases |queue|
      {
        var frame := DropFirst();
        PoolOf(frame);
        LetGo(frame);
        Headed();
      }
    }

    lemma Headed()
      requires Leftover(null)
      ensures writeFrames == if queue == [] then null else queue[0]
    {
      First();
    }

    /** ft_stream_fini: afterwards the stream holds no frame at all. */
    method Fini()
      requires Valid() && Exact() && pool.Valid()
      modifies this`wantRead, this`wantWrite, this`watching, this`readShutdown, this`writeShutdown, this`writeOpen,
          this`writeReady
      modifies this`readFrame, this`writeFrames, this`queue, pool`framesUsed, pool`log, pool`idle
      modifies pool.chain`available, pool.chain`framesUsed, pool.chain`free, pool.chain`freeOnHb
      modifies queue`next, queue`kind, queue`at, Slot()`next, Slot()`kind, Slot()`at
      ensures pool.Valid() && readFrame == null && writeFrames == null && queue == []
      ensures forall f :: f in pool.frames ==> f.at != Queued(this) && f.at != Reading(this)
      ensures forall f :: f in pool.idle && f !in old(pool.idle) ==> f in old(queue) || f == old(readFrame)
      ensures MindsOwn()
    {
      hide Pool.Valid, Leftover, Core, Exact, Readable;
      StartsToFall();
      CloseDown();
      if readFrame != null {
        DropSlot();
      }
      DropQueue();
      NothingLeft();
    }

    method CloseDown()
      requires Leftover(readFrame)
      modifies this`wantRead, this`wantWrite, this`watching, this`readShutdown, this`writeShutdown, this`writeOpen,
          this`writeReady
      ensures Leftover(readFrame)
    {
      hide Leftover;
      wantRead, wantWrite := false, false;
      watching := false;
      readShutdown, writeShutdown := true, true;
      writeOpen, writeReady := false, false;
    }

    method DropSlot()
      requires Slotted() && Leftover(readFrame) && readFrame !in queue && pool.Valid()
      modifies this`readFrame, pool`framesUsed, pool`log, pool`idle
      modifies pool.chain`available, pool.chain`framesUsed, pool.chain`free, pool.chain`freeOnHb
      modifies Slot()`next, Slot()`kind, Slot()`at
      ensures Leftover(null) && pool.Valid() && readFrame == null
      ensures pool.idle <= old(pool.idle) + old(Slot()) && MindsOwn()
    {
      hide Pool.Valid, Leftover;
      var frame := readFrame;
      PoolOf(frame);
      LetGo(frame);
      readFrame := null;
    }

    lemma NothingLeft()
      requires Leftover(null) && queue == []
      ensures forall f :: f in pool.frames ==> f.at != Queued(this) && f.at != Reading(this)
    {
    }
  }
}
