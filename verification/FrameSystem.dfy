/**
A pool and all the streams that use it.  Whatever any of them does, every frame
has exactly one holder.
*/
module FrameSystem {
  import opened Options
  import opened Vecs
  import opened MemoryPool
  import opened Streams

  ghost predicate Consistent(pool: Pool, streams: set<Stream>)
    reads pool, pool.chain, pool.frames, pool.idle, streams
  {
    && pool.Valid()
    && (forall s :: s in streams ==> Member(pool, s))
    && (forall f :: f in pool.frames && f.at.Queued? ==> f.at.stream in streams)
    && (forall f :: f in pool.frames && f.at.Reading? ==> f.at.stream in streams)
  }

  ghost predicate Member(pool: Pool, s: Stream)
    reads s, pool`frames, pool`idle, pool.frames
  {
    && s.pool == pool
    && (forall i :: 0 <= i < |s.queue| ==> s.queue[i] in pool.frames && s.queue[i].at == Queued(s))
    && (s.readFrame != null ==> s.readFrame in pool.frames && s.readFrame.at == Reading(s))
    && s.Valid() && s.Exact() && s.Reported()
  }

  /**
  A frame is on its zone's free list, in one stream's queue, in one stream's read slot, or with
  the user, and nowhere else.
  */
  lemma OneHolder(pool: Pool, streams: set<Stream>, f: Frame)
    requires Consistent(pool, streams) && f in pool.frames
    ensures f.at == Free <==> f in f.zone.free
    ensures forall z :: z in pool.chain && f in z.free ==> z == f.zone
    ensures forall s :: s in streams ==>
        (f in s.queue <==> f.at == Queued(s))
        && (s.readFrame == f <==> f.at == Reading(s))
    ensures f.at == Free || f.at == User
            || (exists s :: s in streams && f.at == Queued(s)) || (exists s :: s in streams && f.at == Reading(s))
  {
    pool.FreeIsIdle(f);
    forall s | s in streams
      ensures (f in s.queue <==> f.at == Queued(s)) && (s.readFrame == f <==> f.at == Reading(s))
    {
      assert Member(pool, s);
      s.HeldHere();
    }
  }

  /** A place in some stream other than s. */
  predicate Foreign(at: Place, s: Stream?) {
    (at.Queued? || at.Reading?) && at.stream != s
  }

  /** A step has touched no frame of a stream other than s and passed none to one. */
  twostate predicate Kept(pool: Pool, s: Stream?)
    reads pool`frames, pool`idle, pool.frames
  {
    && (forall f :: f in old(pool.frames) && Foreign(old(f.at), s) ==>
        f in pool.frames && unchanged(f)
        && f !in pool.idle)
    && (forall f :: f in pool.frames && Foreign(f.at, s) ==> f in old(pool.frames) && f.at == old(f.at))
  }

  lemma MemberNow(pool: Pool, s: Stream)
    requires s.pool == pool && s.Valid() && s.Exact() && s.Reported()
    ensures Member(pool, s)
  {
    s.HeldApart();
    s.HeldHere();
  }

  lemma ForeignIsLent(pool: Pool, s: Stream?)
    requires pool.Valid()
    ensures forall f :: f in pool.frames && Foreign(f.at, s) ==> f !in pool.idle
    ensures forall f :: f in pool.idle ==> f in pool.frames && f.at == Free
  {
    pool.IdleAreFree();
  }

  /** What the program may do next: the user's calls, and the events of the loop. */
  datatype Op =
    | Borrow(kind: Kind, maps: bool)
    | Return(frame: Frame)
    | Heartbeat(now: real)
    | Write(s: Stream, frame: Frame)
    | WriteShutdown(s: Stream, maps: bool)
    | WriteEvent(s: Stream)
    | ConnectEvent(s: Stream, code: Option<int>)
    | ReadEvent(s: Stream)
    | Fini(s: Stream)

  /** What the source's asserts demand of each, and which stream it is about. */
  ghost predicate Allowed(pool: Pool, streams: set<Stream>, op: Op)
    reads pool`frames, pool.frames, streams
  {
    match op
    case Borrow(kind, _) => kind != FREE
    case Return(frame) => frame in pool.frames && frame.at == User && frame.kind != FREE
    case Heartbeat(_) => true
    case Write(s, frame) => s in streams && frame in pool.frames && frame.at == User && Sendable(frame)
    case WriteShutdown(s, _) => s in streams
    case WriteEvent(s) => s in streams && !s.connecting && !s.failed
    case ConnectEvent(s, _) => s in streams && s.connecting && !s.failed
    case ReadEvent(s) => s in streams && !s.connecting
    case Fini(s) => s in streams
  }

  function About(op: Op): Stream? {
    match op
    case Borrow(_, _) => null
    case Return(_) => null
    case Heartbeat(_) => null
    case _ => op.s
  }

  lemma SlotIsApart(s: Stream)
    requires s.Valid()
    ensures s.readFrame != null ==> s.readFrame !in s.queue && s.readFrame.at == Reading(s)
    ensures forall f :: f in s.queue ==> f.at == Queued(s)
  {
    s.SlotApart();
    s.HeldHere();
  }

  /** A stream of the pool, by its own account. */
  ghost predicate Mine(pool: Pool, s: Stream)
    reads s, pool`frames, pool`idle, pool.frames, s.queue, s.Slot()
  {
    s.pool == pool && s.Valid() && s.Exact() && s.Reported()
  }

  method WriteFrame(pool: Pool, s: Stream, frame: Frame) returns (ok: bool)
    requires pool.Valid() && Mine(pool, s)
    requires frame in pool.frames && frame.at == User && Sendable(frame)
    modifies s, pool, pool.chain, s.queue, frame
    ensures pool.Valid() && Mine(pool, s) && Kept(pool, s)
  {
    hide Stream.Valid, Stream.Exact, Pool.Valid, Stream.Reported;
    SlotIsApart(s);
    ForeignIsLent(pool, s);
    assert forall f :: f in pool.frames && Foreign(f.at, s) ==> f !in s.queue && f != frame;
    ok := Accepted(pool, s, frame);
  }

  /** ft_stream_write, as far as it concerns the pool. */
  method Accepted(pool: Pool, s: Stream, frame: Frame) returns (ok: bool)
    requires s.pool == pool && pool.Valid() && s.Valid() && s.Exact() && s.Reported()
    requires frame in pool.frames && frame !in pool.idle && frame.at == User && Sendable(frame)
    modifies s, pool, pool.chain, s.queue, frame
    ensures pool.Valid() && s.Valid() && s.Exact() && s.Reported() && pool.frames == old(pool.frames)
    ensures forall f :: f in pool.idle && f !in old(pool.idle) ==> f in old(s.queue) || f == frame
    ensures s.MindsOwn()
  {
    hide Stream.Valid, Stream.Exact, Pool.Valid, Sendable, AllTold, Latest, Stream.Wrote, RoundsOf, PayloadOf,
        EndQueued;
    SlotIsApart(s);
    ok := s.Write(frame);
  }

  method EndWrites(pool: Pool, s: Stream, maps: bool) returns (ok: bool)
    requires pool.Valid() && Mine(pool, s)
    modifies s, pool, pool.chain, s.queue, pool.idle
    ensures pool.Valid() && Mine(pool, s) && Kept(pool, s)
  {
    hide Stream.Valid, Stream.Exact, Pool.Valid, Sendable, AllTold, Latest;
    SlotIsApart(s);
    ForeignIsLent(pool, s);
    ok := s.WriteShutdown(maps);
    ForeignIsLent(pool, s);
  }

  method OnEvent(pool: Pool, s: Stream)
    requires pool.Valid() && Mine(pool, s) && !s.connecting && !s.failed
    modifies s, pool, pool.chain, s.queue
    ensures pool.Valid() && Mine(pool, s) && Kept(pool, s)
  {
    hide Stream.Exact, Stream.Core, Stream.Reads, Pool.Valid, Stream.Reported;
    SlotIsApart(s);
    ForeignIsLent(pool, s);
    assert forall f :: f in pool.frames && Foreign(f.at, s) ==> f !in s.queue;
    Written(pool, s);
  }

  /** _ft_stream_on_write_event, as far as it concerns the pool. */
  method Written(pool: Pool, s: Stream)
    requires s.pool == pool && pool.Valid() && s.Core() && s.Reads() && s.Exact() && s.Reported()
    requires !s.connecting && !s.failed
    modifies s, pool, pool.chain, s.queue
    ensures pool.Valid() && s.Valid() && s.Exact() && s.Reported() && pool.frames == old(pool.frames)
    ensures forall f :: f in pool.idle && f !in old(pool.idle) ==> f in old(s.queue)
    ensures s.MindsOwn()
  {
    hide Stream.Exact, Stream.Core, Stream.Reads, Pool.Valid, AllTold, Latest, Stream.Wrote, Stream.Before;
    CoreIsApart(s);
    s.OnWriteEvent();
  }

  lemma CoreIsApart(s: Stream)
    requires s.Core() && s.Reads()
    ensures s.readFrame != null ==> s.readFrame !in s.queue && s.readFrame.at == Reading(s)
    ensures forall f :: f in s.queue ==> f.at == Queued(s)
  {
    s.SlotApart();
    s.HeldHere();
  }

  method OnConnect(pool: Pool, s: Stream, code: Option<int>)
    requires pool.Valid() && Mine(pool, s) && s.connecting && !s.failed
    modifies s, pool, pool.chain, s.queue
    ensures pool.Valid() && Mine(pool, s) && Kept(pool, s)
  {
    hide Stream.Exact, Stream.Valid, Pool.Valid, Stream.Reported;
    SlotIsApart(s);
    ForeignIsLent(pool, s);
    assert forall f :: f in pool.frames && Foreign(f.at, s) ==> f !in s.queue;
    Connected(pool, s, code);
  }

  /** _ft_stream_on_connect_event, as far as it concerns the pool. */
  method Connected(pool: Pool, s: Stream, code: Option<int>)
    requires s.pool == pool && pool.Valid() && s.Valid() && s.Exact() && s.Reported() && s.connecting && !s.failed
    modifies s, pool, pool.chain, s.queue
    ensures pool.Valid() && s.Valid() && s.Exact() && s.Reported() && pool.frames == old(pool.frames)
    ensures forall f :: f in pool.idle && f !in old(pool.idle) ==> f in old(s.queue)
    ensures s.MindsOwn()
  {
    hide Stream.Exact, Stream.Valid, Pool.Valid, AllTold, Latest, Stream.Wrote, Stream.Before;
    SlotIsApart(s);
    s.OnConnectEvent(code);
  }

  method OnRead(pool: Pool, s: Stream)
    requires pool.Valid() && Mine(pool, s) && !s.connecting
    modifies s, pool, pool.chain, pool.idle, s.Slot()
    ensures pool.Valid() && Mine(pool, s) && Kept(pool, s)
  {
    hide Stream.Exact, Stream.Valid, Pool.Valid, AllTold, Latest;
    hide Stream.ReadOver, Stream.ReadBefore, News, Truthful, IsSuffix;
    SlotIsApart(s);
    ForeignIsLent(pool, s);
    s.OnReadEvent();
    ForeignIsLent(pool, s);
  }

  method TearDown(pool: Pool, s: Stream)
    requires pool.Valid() && Mine(pool, s)
    modifies s, pool, pool.chain, s.queue, s.Slot()
    ensures pool.Valid() && Kept(pool, s)
    ensures forall f :: f in pool.frames ==> f.at != Queued(s) && f.at != Reading(s)
    ensures s.queue == [] && s.readFrame == null
  {
    hide Stream.Exact, Stream.Valid, Pool.Valid;
    SlotIsApart(s);
    ForeignIsLent(pool, s);
    s.Fini();
  }

  method Lend(pool: Pool, kind: Kind, maps: bool) returns (frame: Frame?)
    requires pool.Valid() && kind != FREE
    modifies pool, pool.chain, pool.idle
    ensures pool.Valid() && Kept(pool, null)
  {
    hide Pool.Valid;
    ForeignIsLent(pool, null);
    frame := pool.Borrow(kind, maps);
    ForeignIsLent(pool, null);
  }

  lemma HasHome(pool: Pool, frame: Frame)
    requires pool.Valid() && frame in pool.frames
    ensures frame.zone in pool.chain
  {
    pool.HasHome(frame);
  }

  method GiveBack(pool: Pool, frame: Frame)
    requires pool.Valid() && frame in pool.frames && frame.at == User && frame.kind != FREE
    modifies pool, pool.chain, frame
    ensures pool.Valid() && Kept(pool, null)
  {
    hide Pool.Valid, Pool.Structured;
    ForeignIsLent(pool, null);
    HasHome(pool, frame);
    pool.Return(frame);
  }

  method Beat(pool: Pool, now: real)
    requires pool.Valid()
    modifies pool, pool.chain
    ensures pool.Valid() && Kept(pool, null)
  {
    hide Pool.Valid;
    ForeignIsLent(pool, null);
    pool.Heartbeat(now);
  }

  /** The streams there are after op. */
  function Survivors(streams: set<Stream>, op: Op): set<Stream> {
    if op.Fini? then streams - {op.s} else streams
  }

  /** A step of the user's, or of the pool's own. */
  method PoolStep(pool: Pool, op: Op)
    requires pool.Valid()
    requires op.Borrow? || op.Return? || op.Heartbeat?
    requires op.Borrow? ==> op.kind != FREE
    requires op.Return? ==> op.frame in pool.frames && op.frame.at == User && op.frame.kind != FREE
    modifies pool, pool.chain, pool.frames
    ensures pool.Valid() && Kept(pool, null)
  {
    pool.IdleAreFree();
    hide Pool.Valid, Kept;
    match op {
      case Borrow(kind, maps) =>
        var _ := Lend(pool, kind, maps);
      case Return(frame) =>
        GiveBack(pool, frame);
      case Heartbeat(now) =>
        Beat(pool, now);
    }
  }

  lemma InFrames(pool: Pool, s: Stream)
    requires Member(pool, s)
    ensures Mine(pool, s)
    ensures forall i :: 0 <= i < |s.queue| ==> s.queue[i] in pool.frames
    ensures s.readFrame != null ==> s.readFrame in pool.frames
  {
  }

  /** A step of stream s. */
  method StreamStep(pool: Pool, s: Stream, op: Op)
    requires pool.Valid() && Member(pool, s) && Allowed(pool, {s}, op) && About(op) == s
    modifies pool, pool.chain, pool.frames, s
    ensures pool.Valid() && Kept(pool, s)
    ensures !op.Fini? ==> Member(pool, s)
    ensures op.Fini? ==> forall f :: f in pool.frames ==> f.at != Queued(s) && f.at != Reading(s)
  {
    pool.IdleAreFree();
    InFrames(pool, s);
    hide Pool.Valid, Stream.Valid, Stream.Exact, Stream.Reported, Kept;
    match op {
      case Write(_, frame) =>
        var _ := WriteFrame(pool, s, frame);
      case WriteShutdown(_, maps) =>
        var _ := EndWrites(pool, s, maps);
      case WriteEvent(_) =>
        OnEvent(pool, s);
      case ConnectEvent(_, code) =>
        OnConnect(pool, s, code);
      case ReadEvent(_) =>
        OnRead(pool, s);
      case Fini(_) =>
        TearDown(pool, s);
    }
    if !op.Fini? { MemberNow(pool, s); }
  }

  /**
  One step of the program.  Whatever it does and whatever the system answers,
  the pool and all its streams stay consistent, so every frame keeps exactly one
  holder; and a stream that has been torn down holds none.
  */
  method Step(pool: Pool, streams: set<Stream>, op: Op)
    requires Consistent(pool, streams) && Allowed(pool, streams, op)
    modifies pool, pool.chain, pool.frames, streams
    ensures Consistent(pool, Survivors(streams, op))
  {
    hide Pool.Valid, Linked, Sendable, Stream.Ended, Stream.Delivering, Stream.Readable, Stream.Awake, Distinct,
        AllTold, Latest;
    var s := About(op);
    if s == null {
      PoolStep(pool, op);
    } else {
      StreamStep(pool, s, op);
    }
    forall t | t in streams && t != s ensures t.Core() && t.Reads() && t.Reported() {
      assert old(Member(pool, t));
      assert forall i :: 0 <= i < |t.queue| ==>
        old(t.Holds(t.queue[i])) && Foreign(old(t.queue[i].at), s) && unchanged(t.queue[i]) && t.Holds(t.queue[i]);
      assert t.readFrame != null ==> Foreign(old(t.readFrame.at), s) && unchanged(t.readFrame);
      assert forall f :: f in t.queue ==> t.Holds(f);
    }
    forall t | t in streams && t != s ensures t.Exact() {
      assert old(Member(pool, t));
    }
    forall t | t in streams && t != s ensures Member(pool, t) {
      assert old(Member(pool, t));
      MemberNow(pool, t);
    }
  }

  /** A stream that has just been made joins the others. */
  lemma NewStream(pool: Pool, streams: set<Stream>, s: Stream)
    requires Consistent(pool, streams) && s !in streams
    requires s.pool == pool && s.Valid() && s.Reported() && s.queue == [] && s.readFrame == null
    ensures Consistent(pool, streams + {s})
  {
    assert s.Exact();
  }

  /** ft_stream_accept and ft_stream_connect: a new stream, that holds no frame yet, beside the others. */
  method Open(pool: Pool, streams: set<Stream>, connects: bool, maxWriteLoops: nat, maxReadLoops: nat,
              frameReturn: bool, readPartial: bool, getsFrames: bool)
    returns (s: Stream)
    requires Consistent(pool, streams)
    ensures fresh(s) && s.connecting == connects && Consistent(pool, streams + {s})
  {
    hide Pool.Valid, Stream.Valid, Member;
    if connects {
      s := new Stream.Connect(pool, maxWriteLoops, maxReadLoops, frameReturn, readPartial, getsFrames);
    } else {
      s := new Stream.Accept(pool, maxWriteLoops, maxReadLoops, frameReturn, readPartial, getsFrames);
    }
    NewStream(pool, streams, s);
  }
}
