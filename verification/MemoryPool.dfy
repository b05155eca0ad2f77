/**
The frame pool (src/mempool, include/ft/mempool): zones of fixed-size frames,
each with a free list threaded through the frames themselves.

Every frame carries a ghost note of who holds it.  The notes are what the
conservation results speak about; no code reads them.
*/
module MemoryPool {
  import opened Bytes
  import opened Vecs

  datatype Kind = FREE | END_OF_STREAM | RAW_DATA | LOG

  /** Who holds a frame: its zone's free list, a stream's write queue or read slot, or the user. */
  datatype Place = Free | User | Queued(stream: object) | Reading(stream: object)

  class Frame {
    var next: Frame?
    const zone: Zone
    var kind: Kind
    var vecPosition: nat
    var vecs: seq<Vec>
    var data: FrameData
    ghost var at: Place

    /** _ft_frame_init */
    constructor (zone: Zone)
      ensures this.zone == zone && kind == FREE && at == Free && next == null
      ensures vecPosition == 0 && vecs == []
    {
      this.zone := zone;
      next, kind, at := null, FREE, Free;
      vecPosition, vecs := 0, [];
      data := seq(FRAME_SIZE, _ => 0);
    }
  }

  /** head leads through the frames fs, in order, to null. */
  ghost predicate Linked(head: Frame?, fs: seq<Frame>)
    reads fs`next
  {
    && head == (if fs == [] then null else fs[0])
    && forall i {:trigger After(fs, i)} :: 0 <= i < |fs| ==> fs[i].next == After(fs, i)
  }

  function After(fs: seq<Frame>, i: nat): Frame?
    requires i < |fs|
  {
    if i + 1 < |fs| then fs[i + 1] else null
  }

  ghost predicate Distinct<T>(ts: seq<T>) {
    forall i, j :: 0 <= i < j < |ts| ==> ts[i] != ts[j]
  }

  /** Distinct elements all drawn from ys are no more than ys has. */
  lemma {:induction false} DistinctFit<T>(xs: seq<T>, ys: seq<T>)
    requires Distinct(xs) && forall x :: x in xs ==> x in ys
    ensures |xs| <= |ys|
  {
    if xs != [] {
      var last := |xs| - 1;
      assert xs[last] in ys;
      var i :| 0 <= i < |ys| && ys[i] == xs[last];
      var rest := ys[..i] + ys[i + 1..];
      forall x | x in xs[..last] ensures x in rest {
        var k :| 0 <= k < last && xs[k] == x;
        assert xs[k] != xs[last];
        assert x in xs;
        var j :| 0 <= j < |ys| && ys[j] == x;
        assert x == if j < i then rest[j] else rest[j - 1];
      }
      DistinctFit(xs[..last], rest);
    }
  }

  lemma {:induction false} SetOfDistinct<T>(xs: seq<T>)
    requires Distinct(xs)
    ensures |set x | x in xs| == |xs|
  {
    if xs == [] {
      assert (set x | x in xs) == {};
    } else {
      var init := xs[..|xs| - 1];
      SetOfDistinct(init);
      assert (set x | x in xs) == (set x | x in init) + {xs[|xs| - 1]};
    }
  }

  class Zone {
    var next: Zone?
    const pool: Pool
    const freeable: bool
    var freeOnHb: bool
    var framesTotal: int
    var framesUsed: int
    var freeAt: real
    var available: Frame?
    var frames: seq<Frame>
    ghost var free: seq<Frame>
    /** Where in the pool's log this zone was last stamped. */
    ghost var stamp: nat

    ghost predicate Valid()
      reads this`framesTotal, this`framesUsed, this`available, this`frames, this`free, free`next, free`kind
    {
      && framesTotal == |frames| > 0
      && Distinct(frames)
      && (forall i :: 0 <= i < |frames| ==> frames[i].zone == this)
      && (forall f :: f in free ==> f in frames && f.kind == FREE)
      && Distinct(free)
      && Linked(available, free)
      && framesUsed == framesTotal - |free| >= 0
    }

    /** ft_poolzone_init: all frames on the free list, in order. */
    constructor (pool: Pool, count: nat, freeable: bool)
      requires count > 0
      ensures Valid() && this.pool == pool && this.freeable == freeable && next == null
      ensures fresh(frames) && |frames| == count && free == frames && framesUsed == 0
      ensures forall f :: f in frames ==> f.at == Free
      ensures !freeOnHb && freeAt == 0.0
    {
      this.pool, this.freeable, next := pool, freeable, null;
      freeOnHb, freeAt, stamp := false, 0.0, 0;
      framesTotal, framesUsed := count, 0;
      available, frames, free := null, [], [];
      new;
      for i := 0 to count
        invariant |frames| == i && fresh(frames)
        invariant forall k :: 0 <= k < i ==>
            frames[k].zone == this && frames[k].at == Free && frames[k].kind == FREE
            && frames[k].next == null
        invariant Distinct(frames)
        invariant pool == this.pool && framesTotal == count && framesUsed == 0 && next == null && !freeOnHb
            && freeAt == 0.0
      {
        var frame := new Frame(this);
        frames := frames + [frame];
      }
      available := frames[0];
      for i := 1 to count
        invariant |frames| == count && fresh(frames) && available == frames[0]
        invariant Distinct(frames)
        invariant forall k :: 0 <= k < count ==>
            frames[k].zone == this && frames[k].at == Free
            && frames[k].kind == FREE
        invariant forall k :: 0 <= k < i - 1 ==> frames[k].next == After(frames, k)
        invariant forall k :: i - 1 <= k < count ==> frames[k].next == null
        invariant framesTotal == count && framesUsed == 0 && next == null && !freeOnHb && freeAt == 0.0
      {
        frames[i - 1].next := frames[i];
      }
      free := frames;
    }

    /** _ft_poolzone_borrow: the head of the free list, reset. */
    method Borrow(kind: Kind) returns (frame: Frame?)
      requires Valid() && kind != FREE
      modifies this`available, this`framesUsed, this`free, if free == [] then {} else {free[0]}
      ensures Valid()
      ensures frame == null <==> old(free) == []
      ensures frame == null ==> available == old(available) && framesUsed == old(framesUsed) && free == old(free)
      ensures frame != null ==>
                && frame == old(free)[0] && free == old(free)[1..] && framesUsed == old(framesUsed) + 1 > 0
                && Handed(frame, kind)
    {
      if available == null {
        return null;
      }
      frame := available;
      assert frame == free[0] && frame in frames && frame.next == After(free, 0);
      available := frame.next;
      frame.next := null;
      frame.kind := kind;
      framesUsed := framesUsed + 1;
      frame.vecPosition := 0;
      frame.vecs := [];
      frame.at := User;
      free := free[1..];
      assert forall i :: 0 <= i < |free| ==> free[i] == old(free)[i + 1];
      assert forall i :: 0 <= i < |free| ==> old(After(free, i + 1)) == After(free, i);
    }

    /** The zone's part of ft_frame_return. */
    method TakeBack(frame: Frame)
      requires Valid() && frame in frames && frame !in free && frame.kind != FREE
      modifies this`available, this`framesUsed, this`free, this`freeOnHb, frame`next, frame`kind, frame`at
      ensures Valid()
      ensures frame.at == Free && free == [frame] + old(free)
      ensures framesUsed == old(framesUsed) - 1 && freeOnHb == (framesUsed == 0)
    {
      assert Distinct([frame] + free);
      DistinctFit([frame] + free, frames);
      frame.kind := FREE;
      frame.next := available;
      available := frame;
      framesUsed := framesUsed - 1;
      freeOnHb := framesUsed == 0;
      frame.at := Free;
      free := [frame] + free;
      forall i | 0 <= i < |free| ensures free[i].next == After(free, i) {
        if i > 0 {
          assert old(free)[i - 1].next == old(After(free, i - 1));
        }
      }
    }
  }

  // ---------------------------------------------------------------------------
  // The pool
  // ---------------------------------------------------------------------------

  /** What has happened to the pool, in order. */
  datatype Event = Lent(zone: Zone) | GivenBack(zone: Zone) | Beat(now: real)

  /** The frames of zone z in use after the events of log. */
  function UsedIn(log: seq<Event>, z: Zone): int {
    if log == [] then 0
    else
      UsedIn(log[..|log| - 1], z)
      + match log[|log| - 1]
        case Lent(y) => if y == z then 1 else 0
        case GivenBack(y) => if y == z then -1 else 0
        case Beat(_) => 0
  }

  /** Event number h was a heartbeat, and no frame of z has been in use at any moment from it on. */
  ghost predicate IdleSince(log: seq<Event>, z: Zone, h: nat) {
    && h < |log|
    && log[h].Beat?
    && forall k {:trigger log[..k]} :: h <= k <= |log| ==> UsedIn(log[..k], z) == 0
  }

  lemma UsedSnoc(log: seq<Event>, e: Event, z: Zone)
    ensures UsedIn(log + [e], z)
         == UsedIn(log, z) + (if e == Lent(z) then 1 else if e == GivenBack(z) then -1 else 0)
  {
    assert (log + [e])[..|log|] == log;
  }

  lemma StaysIdle(log: seq<Event>, e: Event, z: Zone, h: nat)
    requires IdleSince(log, z, h) && e != Lent(z) && e != GivenBack(z)
    ensures IdleSince(log + [e], z, h)
  {
    UsedSnoc(log, e, z);
    forall k | h <= k <= |log| + 1 ensures UsedIn((log + [e])[..k], z) == 0 {
      if k <= |log| {
        assert (log + [e])[..k] == log[..k];
        assert log[..|log|] == log;
      } else {
        assert (log + [e])[..k] == log + [e];
        assert log[..|log|] == log;
      }
    }
  }

  lemma StartsIdle(log: seq<Event>, now: real, z: Zone)
    requires UsedIn(log, z) == 0
    ensures IdleSince(log + [Beat(now)], z, |log|)
  {
    UsedSnoc(log, Beat(now), z);
    assert (log + [Beat(now)])[..|log|] == log;
    assert (log + [Beat(now)])[..|log| + 1] == log + [Beat(now)];
  }

  /** What a zone knows of itself agrees with the log: an idle zone waits for a stamp or bears one. */
  ghost predicate Agrees(log: seq<Event>, timeout: real, z: Zone, used: int, freeOnHb: bool, freeAt: real, stamp: nat) {
    && used == UsedIn(log, z)
    && (used == 0 ==> freeOnHb || (IdleSince(log, z, stamp) && freeAt == log[stamp].now + timeout))
  }

  lemma StillAgrees(log: seq<Event>, e: Event, timeout: real, z: Zone, used: int, freeOnHb: bool, freeAt: real,
      stamp: nat)
    requires Agrees(log, timeout, z, used, freeOnHb, freeAt, stamp) && e != Lent(z) && e != GivenBack(z)
    ensures Agrees(log + [e], timeout, z, used, freeOnHb, freeAt, stamp)
  {
    UsedSnoc(log, e, z);
    if used == 0 && !freeOnHb { StaysIdle(log, e, z, stamp); }
  }

  /** A zone that may be deleted and has been idle since a heartbeat bears the stamp of that one or an earlier one. */
  ghost predicate Stamped(log: seq<Event>, z: Zone, freeable: bool, freeOnHb: bool, stamp: nat) {
    freeable ==> forall h: nat :: IdleSince(log, z, h) ==> !freeOnHb && stamp <= h
  }

  lemma StillStamped(log: seq<Event>, e: Event, z: Zone, freeable: bool, freeOnHb: bool, stamp: nat)
    requires !e.Beat?
    requires e == Lent(z) || e == GivenBack(z) || Stamped(log, z, freeable, freeOnHb, stamp)
    ensures Stamped(log + [e], z, freeable, freeOnHb, stamp)
  {
    forall h: nat | IdleSince(log + [e], z, h)
      ensures IdleSince(log, z, h) && e != Lent(z) && e != GivenBack(z)
    {
      WasIdle(log, e, z, h);
    }
  }

  /** Idle with one event more is idle without it. */
  lemma WasIdle(log: seq<Event>, e: Event, z: Zone, h: nat)
    requires IdleSince(log + [e], z, h) && h < |log|
    ensures IdleSince(log, z, h) && e != Lent(z) && e != GivenBack(z)
  {
    forall k | h <= k <= |log| ensures UsedIn(log[..k], z) == 0 {
      assert (log + [e])[..k] == log[..k];
    }
    UsedSnoc(log, e, z);
    assert (log + [e])[..|log| + 1] == log + [e] && log[..|log|] == log;
  }

  ghost predicate Chained(head: Zone?, zs: seq<Zone>)
    reads zs
  {
    && head == (if zs == [] then null else zs[0])
    && forall i {:trigger Behind(zs, i)} :: 0 <= i < |zs| ==> zs[i].next == Behind(zs, i)
  }

  function Behind(zs: seq<Zone>, i: nat): Zone?
    requires i < |zs|
  {
    if i + 1 < |zs| then zs[i + 1] else null
  }

  /** The used counts of the zones. */
  ghost function Uses(zs: seq<Zone>): (us: seq<int>)
    reads zs
    ensures |us| == |zs| && forall i :: 0 <= i < |zs| ==> us[i] == zs[i].framesUsed
  {
    seq(|zs|, i requires 0 <= i < |zs| reads zs => zs[i].framesUsed)
  }

  function Sum(xs: seq<int>): int {
    if xs == [] then 0 else Sum(xs[..|xs| - 1]) + xs[|xs| - 1]
  }

  lemma SumChanges(xs: seq<int>, ys: seq<int>, i: nat, d: int)
    requires i < |xs| == |ys| && ys[i] == xs[i] + d
    requires forall j :: 0 <= j < |xs| && j != i ==> ys[j] == xs[j]
    ensures Sum(ys) == Sum(xs) + d
  {
    var last := |xs| - 1;
    if i == last {
      assert xs[..last] == ys[..last];
    } else {
      SumChanges(xs[..last], ys[..last], i, d);
    }
  }

  lemma {:induction false} SumConcat(xs: seq<int>, ys: seq<int>)
    ensures Sum(xs + ys) == Sum(xs) + Sum(ys)
  {
    if ys == [] {
      assert xs + ys == xs;
    } else {
      assert (xs + ys)[..|xs + ys| - 1] == xs + ys[..|ys| - 1];
      SumConcat(xs, ys[..|ys| - 1]);
    }
  }

  lemma SumRemove(xs: seq<int>, x: int, ys: seq<int>)
    ensures Sum(xs + ys) == Sum(xs + [x] + ys) - x
  {
    assert Sum([x]) == x;
    SumConcat(xs + [x], ys);
    SumConcat(xs, [x]);
    SumConcat(xs, ys);
  }

  /** What a zone knows of its idleness. */
  datatype Clock = Clock(freeOnHb: bool, freeAt: real, stamp: nat)

  ghost function ClockOf(z: Zone): Clock
    reads z`freeOnHb, z`freeAt, z`stamp
  {
    Clock(z.freeOnHb, z.freeAt, z.stamp)
  }

  /** The clocks of the zones. */
  ghost function Clocks(zs: seq<Zone>): (cs: seq<Clock>)
    reads zs
    ensures |cs| == |zs| && forall i :: 0 <= i < |zs| ==> cs[i] == ClockOf(zs[i])
  {
    seq(|zs|, i requires 0 <= i < |zs| reads zs => ClockOf(zs[i]))
  }

  /** A heartbeat starts the clock of an idle zone that waits for it, and touches no other. */
  ghost predicate Timed(was: Clock, now: Clock, idle: bool, freeAt: real, beat: nat) {
    if idle && was.freeOnHb then now == Clock(false, freeAt, beat) else now == was
  }

  /** May be deleted, and has no frame out. */
  ghost predicate Spare(z: Zone)
    reads z`framesUsed
  {
    z.freeable && z.framesUsed <= 0
  }

  /** A heartbeat deletes the zone. */
  ghost predicate Expires(z: Zone, now: real)
    reads z`framesUsed, z`freeOnHb, z`freeAt
  {
    z.freeable && z.framesUsed <= 0 && !z.freeOnHb && z.freeAt < now
  }

  /** The elements not marked, in their order. */
  function Unmarked<T>(xs: seq<T>, marks: seq<bool>): (r: seq<T>)
    requires |xs| == |marks|
    ensures forall x :: x in r ==> x in xs
  {
    if xs == [] then []
    else
      var last := |xs| - 1;
      Unmarked(xs[..last], marks[..last]) + if marks[last] then [] else [xs[last]]
  }

  lemma {:induction false} UnmarkedAre<T>(xs: seq<T>, marks: seq<bool>, x: T)
    requires |xs| == |marks| && x in Unmarked(xs, marks)
    ensures exists i :: 0 <= i < |xs| && xs[i] == x && !marks[i]
  {
    var last := |xs| - 1;
    if x in Unmarked(xs[..last], marks[..last]) {
      UnmarkedAre(xs[..last], marks[..last], x);
      var i :| 0 <= i < last && xs[..last][i] == x && !marks[..last][i];
      assert xs[i] == x && !marks[i];
    } else {
      assert xs[last] == x && !marks[last];
    }
  }

  lemma {:induction false} UnmarkedStay<T>(xs: seq<T>, marks: seq<bool>, i: nat)
    requires i < |xs| == |marks| && !marks[i]
    ensures xs[i] in Unmarked(xs, marks)
    decreases |xs|
  {
    var last := |xs| - 1;
    if i < last { UnmarkedStay(xs[..last], marks[..last], i); }
  }

  lemma {:induction false} NoneMarked<T>(xs: seq<T>, marks: seq<bool>)
    requires |xs| == |marks|
    ensures |Unmarked(xs, marks)| <= |xs| && (|Unmarked(xs, marks)| == |xs| <==> Unmarked(xs, marks) == xs)
    decreases |xs|
  {
    if xs != [] { NoneMarked(xs[..|xs| - 1], marks[..|xs| - 1]); }
  }

  ghost function Expiring(zs: seq<Zone>, now: real): (marks: seq<bool>)
    reads zs
    ensures |marks| == |zs| && forall i :: 0 <= i < |zs| ==> marks[i] == Expires(zs[i], now)
  {
    seq(|zs|, i requires 0 <= i < |zs| reads zs => Expires(zs[i], now))
  }

  /** The zone has been wholly idle since a heartbeat more than the timeout before now. */
  ghost predicate LongIdle(log: seq<Event>, timeout: real, z: Zone, now: real) {
    exists h: nat :: IdleSince(log, z, h) && log[h].now + timeout < now
  }

  /** The first frame of the first free list that has one. */
  function FirstFree(frees: seq<seq<Frame>>): Frame? {
    if frees == [] then null else if frees[0] != [] then frees[0][0] else FirstFree(frees[1..])
  }

  lemma {:induction false} FirstFreeIs(frees: seq<seq<Frame>>)
    ensures if FirstFree(frees) == null then forall fs :: fs in frees ==> fs == []
            else exists i :: 0 <= i < |frees| && FirstFree(frees) in frees[i]
  {
    if frees != [] && frees[0] == [] {
      FirstFreeIs(frees[1..]);
      assert frees == [frees[0]] + frees[1..];
      if FirstFree(frees) != null {
        var i :| 0 <= i < |frees[1..]| && FirstFree(frees[1..]) in frees[1..][i];
        assert FirstFree(frees) in frees[i + 1];
      }
    }
  }

  /** Empty lists are passed over. */
  lemma FirstFreeSkips(frees: seq<seq<Frame>>)
    ensures forall i :: 0 <= i < |frees| && frees[i] != [] && (forall j :: 0 <= j < i ==> frees[j] == []) ==>
              FirstFree(frees) == frees[i][0]
    ensures (forall j :: 0 <= j < |frees| ==> frees[j] == []) ==> FirstFree(frees) == null
  {
    forall i | 0 <= i < |frees| && frees[i] != [] && (forall j :: 0 <= j < i ==> frees[j] == [])
      ensures FirstFree(frees) == frees[i][0]
    {
      FirstFreeAt(frees, i);
    }
    FirstFreeIs(frees);
  }

  lemma {:induction false} FirstFreeAt(frees: seq<seq<Frame>>, i: nat)
    requires i < |frees| && frees[i] != [] && forall j :: 0 <= j < i ==> frees[j] == []
    ensures FirstFree(frees) == frees[i][0]
    decreases i
  {
    if i > 0 { FirstFreeAt(frees[1..], i - 1); }
  }

  /**
  Who lends: the first zone that has an idle frame; else a new zone, unless the last
  zone was made before, there are two, or mmap refuses.
  */
  ghost predicate Chosen(frame: Frame?, maps: bool, wasLast: bool, was: seq<Zone>, frees: seq<seq<Frame>>, isLast: bool,
                         now: seq<Zone>)
  {
    if FirstFree(frees) != null then frame == FirstFree(frees) && isLast == wasLast && now == was
    else if wasLast || |was| >= 2 || !maps then frame == null && isLast == wasLast && now == was
    else frame != null && isLast == (was != []) && now == was + [frame.zone]
  }

  class Pool {
    var zones: Zone?
    var lastZone: bool
    var framesTotal: int
    var framesUsed: int
    /** fpool_zone_free_timeout */
    const timeout: real
    ghost var chain: seq<Zone>
    ghost var frames: set<Frame>
    /** The frames nobody holds. */
    ghost var idle: set<Frame>
    ghost var log: seq<Event>
    /** How many frames the zones deleted so far had. */
    ghost var gone: nat

    /** The zones and their frames. */
    ghost predicate Structured()
      reads this, chain, idle`next, idle`kind
    {
      && Chained(zones, chain)
      && Distinct(chain)
      && (forall z :: z in chain ==> Houses(z))
      && (forall f :: f in frames ==> f.zone in chain && f in f.zone.frames)
      && (forall f :: f in idle ==> f in frames && f in f.zone.free)
    }

    ghost predicate Houses(z: Zone)
      reads this, z, idle`next, idle`kind
    {
      && z.pool == this
      && (forall f :: f in z.frames ==> f in frames && f.zone == z)
      && (forall f :: f in z.free ==> f in z.frames && f in idle)
      && z.Valid()
    }

    ghost predicate Recorded(z: Zone)
      reads this, z
    {
      Agrees(log, timeout, z, z.framesUsed, z.freeOnHb, z.freeAt, z.stamp)
    }

    /** The notes on the frames say which are idle. */
    ghost predicate Noted()
      reads this`frames, this`idle, frames`at
    {
      forall f :: f in frames ==> (f.at == Free <==> f in idle)
    }

    /** framesTotal still counts the frames of deleted zones. */
    ghost predicate Totalled()
      reads this`framesTotal, this`frames, this`gone
    {
      framesTotal == |frames| + gone
    }

    ghost predicate Sound()
      reads this, chain, frames`at, idle`next, idle`kind
    {
      && Noted()
      && Structured()
      && framesUsed == Sum(Uses(chain))
      && Totalled()
      && forall z :: z in chain ==> Recorded(z)
    }

    /** Whatever has been idle since a heartbeat has been stamped by then. */
    ghost predicate Prompt()
      reads this`log, this`chain, chain`freeOnHb, chain`stamp
    {
      forall z :: z in chain ==> Stamped(log, z, z.freeable, z.freeOnHb, z.stamp)
    }

    ghost predicate Valid()
      reads this, chain, frames`at, idle`next, idle`kind
    {
      Sound() && Prompt()
    }

    /** ft_pool_init */
    constructor (timeout: real)
      ensures Valid() && chain == [] && frames == {} && this.timeout == timeout
    {
      zones, lastZone := null, false;
      framesTotal, framesUsed := 0, 0;
      this.timeout := timeout;
      chain, frames, idle, log, gone := [], {}, {}, [], 0;
    }

    /** Lending from a zone that has a frame to lend. */
    method LendFrom(zone: Zone, kind: Kind) returns (frame: Frame)
      requires Structured() && Noted() && zone in chain && zone.free != [] && kind != FREE
      requires framesUsed == Sum(Uses(chain)) && Totalled()
      requires zone.framesUsed == UsedIn(log, zone)
      requires forall z :: z in chain && z != zone ==> Recorded(z)
      modifies this`framesUsed, this`log, this`idle, zone`available, zone`framesUsed, zone`free, zone.free[0]
      ensures Sound() && log == old(log) + [Lent(zone)] && framesUsed == old(framesUsed) + 1
      ensures idle == old(idle) - {frame} && zone.free == old(zone.free)[1..]
      ensures frame == old(zone.free[0]) && Handed(frame, kind)
    {
      hide Structured, Sum, Zone.Valid, UsedIn, IdleSince, Totalled;
      ghost var before := Uses(chain);
      ghost var i := Position(zone);
      frame := TakeFrom(zone, kind);
      SumChanges(before, Uses(chain), i, 1);
      UsedSnoc(log, Lent(zone), zone);
      forall z | z in chain && z != zone
        ensures Agrees(log + [Lent(zone)], timeout, z, z.framesUsed, z.freeOnHb, z.freeAt, z.stamp)
      {
        assert old(Recorded(z));
        StillAgrees(log, Lent(zone), timeout, z, z.framesUsed, z.freeOnHb, z.freeAt, z.stamp);
      }
      Lend(zone);
    }

    method Lend(zone: Zone)
      modifies this`framesUsed, this`log
      requires Structured()
      ensures Structured() && log == old(log) + [Lent(zone)] && framesUsed == old(framesUsed) + 1
    {
      framesUsed := framesUsed + 1;
      log := log + [Lent(zone)];
    }

    lemma Position(zone: Zone) returns (i: nat)
      requires Structured() && zone in chain
      ensures i < |chain| && chain[i] == zone && forall j :: 0 <= j < |chain| && j != i ==> chain[j] != zone
    {
      i :| 0 <= i < |chain| && chain[i] == zone;
    }

    method TakeFrom(zone: Zone, kind: Kind) returns (frame: Frame)
      requires Structured() && Noted() && zone in chain && zone.free != [] && kind != FREE
      modifies this`idle, zone`available, zone`framesUsed, zone`free, zone.free[0]
      ensures Structured() && Noted() && zone.framesUsed == old(zone.framesUsed) + 1 > 0
      ensures idle == old(idle) - {frame} && zone.free == old(zone.free)[1..]
      ensures frame == old(zone.free[0]) && Handed(frame, kind)
    {
      hide Zone.Valid, Linked;
      assert Houses(zone);
      assert zone.free[0] in zone.frames;
      frame := zone.Borrow(kind);
      idle := idle - {frame};
      forall z | z in chain && z != zone ensures Houses(z) {
        assert old(Houses(z));
        assert frame !in z.frames;
      }
    }

    // -------------------------------------------------------------------------
    // ft_pool_borrow_real_
    // -------------------------------------------------------------------------

    /**
    ft_pool_alloc_default: a first zone of 16 frames for good, then one of 2045, and
    no third; maps says whether mmap succeeds.
    */
    method AllocDefault(maps: bool) returns (zone: Zone?)
      requires Sound()
      modifies this`lastZone
      ensures zone != null <==> maps && |chain| < 2
      ensures zone != null ==>
                && fresh(zone) && fresh(zone.frames) && zone.Valid() && zone.pool == this && zone.next == null
                && zone.free == zone.frames && zone.framesUsed == 0 && forall f :: f in zone.frames ==> f.at == Free
      ensures zone != null ==>
          |zone.frames| == (if chain == [] then 16 else 2045)
          && zone.freeable == (chain != [])
      ensures lastZone == (old(lastZone) || (zone != null && chain != []))
      ensures Sound()
    {
      if chain != [] { assert chain[0].next == Behind(chain, 0); }
      hide Structured, Agrees;
      zone := null;
      if zones == null {
        if maps {
          zone := new Zone(this, 16, false);
        }
      } else if zones.next == null {
        if maps {
          zone := new Zone(this, 2045, true);
          lastZone := true;
        }
      }
    }

    /** The zone is hung at the end of the chain. */
    method SetNext(last: Zone?, zone: Zone)
      requires Chained(zones, chain) && Distinct(chain) && last == (if chain == [] then null else chain[|chain| - 1])
      requires zone.next == null && zone !in chain
      modifies this`zones, chain`next
      ensures Chained(zones, chain + [zone])
    {
      ghost var longer := chain + [zone];
      if last == null {
        zones := zone;
      } else {
        last.next := zone;
      }
      forall i | 0 <= i < |longer| ensures longer[i].next == Behind(longer, i) {
        if i + 2 < |longer| {
          assert old(chain[i].next) == Behind(chain, i);
          assert chain[i] != last;
        }
      }
    }

    method Link(last: Zone?, zone: Zone)
      requires Structured() && last == (if chain == [] then null else chain[|chain| - 1])
      requires zone.Valid() && zone.pool == this && zone.next == null && zone !in chain
      requires zone.free == zone.frames && forall f :: f in zone.frames ==> f !in frames
      modifies this`zones, this`chain, this`frames, this`idle, chain`next
      ensures Structured() && chain == old(chain) + [zone]
      ensures frames == old(frames) + (set f | f in zone.frames) && idle == old(idle) + set f | f in zone.frames
    {
      hide Linked, Chained;
      SetNext(last, zone);
      chain := chain + [zone];
      frames := frames + set f | f in zone.frames;
      idle := idle + set f | f in zone.frames;
      forall z | z in chain && z != zone ensures Houses(z) {
        assert old(Houses(z));
      }
    }

    method LinkCounted(last: Zone?, zone: Zone)
      requires Structured() && last == (if chain == [] then null else chain[|chain| - 1])
      requires zone.Valid() && zone.pool == this && zone.next == null && zone !in chain
      requires zone.free == zone.frames && zone.framesUsed == 0 && forall f :: f in zone.frames ==> f !in frames
      modifies this`zones, this`chain, this`frames, this`idle, chain`next
      ensures Structured() && chain == old(chain) + [zone]
      ensures frames == old(frames) + (set f | f in zone.frames) && idle == old(idle) + set f | f in zone.frames
      ensures Sum(Uses(chain)) == old(Sum(Uses(chain)))
    {
      hide Structured, Houses, Zone.Valid;
      ghost var before := Uses(chain);
      Link(last, zone);
      assert Uses(chain)[..|before|] == before;
    }

    /** Appends a new zone; the caller lends from it at once. */
    method Append(last: Zone?, zone: Zone)
      requires Sound() && last == (if chain == [] then null else chain[|chain| - 1])
      requires zone.Valid() && zone.pool == this && zone.next == null && zone !in chain
      requires zone.free == zone.frames && zone.framesUsed == 0
      requires forall f :: f in zone.frames ==> f !in frames && f.at == Free
      modifies this`zones, this`chain, this`frames, this`idle, this`framesTotal, chain`next
      ensures Structured() && Noted() && framesUsed == Sum(Uses(chain)) && Totalled()
      ensures chain == old(chain) + [zone] && frames == old(frames) + set f | f in zone.frames
      ensures idle == old(idle) + set f | f in zone.frames
      ensures forall z :: z in chain && z != zone ==> Recorded(z)
    {
      hide Structured, Houses, Zone.Valid, Recorded, Sum, Uses, Chained, Distinct, Noted;
      FramesJoin(zone);
      AppendUncounted(last, zone);
    }

    method AppendUncounted(last: Zone?, zone: Zone)
      requires Sound() && last == (if chain == [] then null else chain[|chain| - 1])
      requires zone.Valid() && zone.pool == this && zone.next == null && zone !in chain
      requires zone.free == zone.frames && zone.framesUsed == 0
      requires forall f :: f in zone.frames ==> f !in frames && f.at == Free
      modifies this`zones, this`chain, this`frames, this`idle, this`framesTotal, chain`next
      ensures Structured() && Noted() && framesUsed == Sum(Uses(chain))
      ensures framesTotal == old(framesTotal) + zone.framesTotal
      ensures chain == old(chain) + [zone] && frames == old(frames) + set f | f in zone.frames
      ensures idle == old(idle) + set f | f in zone.frames
      ensures forall z :: z in chain && z != zone ==> Recorded(z)
    {
      hide Structured, Houses, Zone.Valid, Agrees, Sum, Chained, Distinct, Totalled;
      assert forall z :: z in chain ==> Recorded(z);
      LinkCounted(last, zone);
      AddFrames(zone);
    }

    /** The frames of a zone, counted as a set. */
    lemma FramesJoin(zone: Zone)
      requires zone.Valid() && forall f :: f in zone.frames ==> f !in frames
      ensures |frames + (set f | f in zone.frames)| == |frames| + zone.framesTotal
    {
      SetOfDistinct(zone.frames);
      assert frames !! set f | f in zone.frames;
    }

    lemma FramesLeave(zone: Zone)
      requires zone.Valid() && forall f :: f in zone.frames ==> f in frames
      ensures |frames - (set f | f in zone.frames)| == |frames| - |zone.frames| < |frames|
    {
      SetOfDistinct(zone.frames);
      assert (set f | f in zone.frames) <= frames;
    }

    method AddFrames(zone: Zone)
      requires Structured()
      modifies this`framesTotal
      ensures Structured() && framesTotal == old(framesTotal) + zone.framesTotal
    {
      framesTotal := framesTotal + zone.framesTotal;
    }

    lemma NeverLent(log: seq<Event>, zone: Zone)
      requires forall e :: e in log ==> e != Lent(zone) && e != GivenBack(zone)
      ensures UsedIn(log, zone) == 0
    {
      if log != [] {
        var init := log[..|log| - 1];
        assert forall e :: e in init ==> e in log;
        NeverLent(init, zone);
        assert log[|log| - 1] in log;
      }
    }

    /** What a borrower may rely on. */
    twostate predicate Borrowed(new frame: Frame?, kind: Kind)
      reads this, frame
    {
      && old(chain) <= chain && old(frames) <= frames
      && (forall f :: f in frames && f !in old(frames) ==> fresh(f) && (f in idle || f == frame))
      && (forall f :: f in idle ==> f in old(idle) || f !in old(frames))
      && (forall z :: z in chain ==> z in old(chain) || fresh(z))
      && (frame == null ==>
            framesUsed == old(framesUsed) && log == old(log) && frames == old(frames) && idle == old(idle))
      && (frame != null ==>
            && Handed(frame, kind) && frame in frames && (frame in old(frames) ==> frame in old(idle)) && frame !in idle
            && framesUsed == old(framesUsed) + 1 && log == old(log) + [Lent(frame.zone)])
    }

    /** The free lists of the zones. */
    ghost function Frees(): (frees: seq<seq<Frame>>)
      reads this, chain
      ensures |frees| == |chain| && forall i :: 0 <= i < |chain| ==> frees[i] == chain[i].free
    {
      seq(|chain|, i requires 0 <= i < |chain| reads this, chain => chain[i].free)
    }

    /** A new zone has all its frames, but for the one lent, and its size is that of its place. */
    ghost predicate NewZone(zone: Zone, first: bool)
      reads zone
    {
      && |zone.frames| == (if first then 16 else 2045) && zone.free == zone.frames[1..]
      && zone.freeable == !first
    }

    lemma ChainIsWalked()
      requires Structured()
      ensures zones == if chain == [] then null else chain[0]
      ensures forall i :: 0 <= i < |chain| ==> chain[i].next == if i + 1 < |chain| then chain[i + 1] else null
      ensures forall i :: 0 <= i < |chain| ==> (chain[i].available == null <==> chain[i].free == [])
    {
      forall i | 0 <= i < |chain|
        ensures chain[i].next == if i + 1 < |chain| then chain[i + 1] else null
        ensures chain[i].available == null <==> chain[i].free == []
      {
        assert Houses(chain[i]) && chain[i].next == Behind(chain, i);
      }
    }

    /** Some zone has a frame to lend exactly when some frame is idle. */
    lemma FirstIsIdle()
      requires Structured()
      ensures FirstFree(Frees()) != null <==> idle != {}
    {
      FirstFreeIs(Frees());
      if FirstFree(Frees()) != null {
        var i :| 0 <= i < |chain| && FirstFree(Frees()) in Frees()[i];
        assert Houses(chain[i]);
      }
      forall z | z in chain && FirstFree(Frees()) == null ensures z.free == [] {
        var i := Position(z);
        assert Frees()[i] in Frees();
      }
    }

    lemma CanLend(zone: Zone)
      requires Sound() && zone in chain && zone.available != null
      ensures zone.free != [] && zone.free[0].zone == zone && zone.free[0] in idle && zone.free[0] in frames
      ensures zone.framesUsed == UsedIn(log, zone) && forall z :: z in chain ==> Recorded(z)
    {
      hide UsedIn, IdleSince;
      assert Houses(zone) && Recorded(zone);
    }

    method LendNow(zone: Zone, kind: Kind) returns (frame: Frame)
      requires Sound() && zone in chain && zone.available != null && kind != FREE
      modifies this`framesUsed, this`log, this`idle, zone`available, zone`framesUsed, zone`free, idle
      ensures Sound() && Borrowed(frame, kind)
      ensures old(zone.free) != [] && frame == old(zone.free[0])
      ensures forall f :: f in frames && f != frame ==> unchanged(f)
    {
      hide Structured, Houses, Zone.Valid, Recorded, Noted, Sum, Uses, Linked, Chained, Distinct, Totalled, Agrees;
      CanLend(zone);
      frame := LendFrom(zone, kind);
    }

    /** The second half of ft_pool_borrow_real_: no zone has a frame left. */
    method Grow(last: Zone?, kind: Kind, maps: bool) returns (frame: Frame?)
      requires Sound() && kind != FREE && last == (if chain == [] then null else chain[|chain| - 1])
      modifies this, chain`next
      ensures Sound() && Borrowed(frame, kind)
      ensures frame == null <==> old(lastZone) || |old(chain)| >= 2 || !maps
      ensures frame == null ==> lastZone == old(lastZone) && chain == old(chain)
      ensures frame != null ==>
                && fresh(frame.zone) && chain == old(chain) + [frame.zone] && lastZone == (old(chain) != [])
                && NewZone(frame.zone, old(chain) == []) && frame == frame.zone.frames[0]
    {
      hide Structured, Houses, Agrees, Chained, Sum, Uses, Linked, Totalled;
      if lastZone {
        return null;
      }
      var grown := AllocDefault(maps);
      if grown == null {
        return null;
      }
      NeverLent(log, grown);
      assert grown.free[0] in grown.frames && grown.free[0].zone == grown;
      Append(last, grown);
      frame := LendFrom(grown, kind);
    }

    /** ft_pool_borrow_real_: the first zone in the chain with a frame to lend, or a new zone. */
    method Borrow(kind: Kind, maps: bool) returns (frame: Frame?)
      requires Valid() && kind != FREE
      modifies this, chain, idle
      ensures Valid() && Borrowed(frame, kind)
      ensures Chosen(frame, maps, old(lastZone), old(chain), old(Frees()), lastZone, chain)
      ensures frame == null <==> old(idle) == {} && (old(lastZone) || |old(chain)| >= 2 || !maps)
      ensures old(idle) == {} && frame != null ==>
                fresh(frame.zone) && NewZone(frame.zone, old(chain) == []) && frame == frame.zone.frames[0]
      ensures forall f :: f in old(frames) && f != frame ==> unchanged(f)
    {
      hide Sound, NewZone, FirstFree, Handed, Chosen;
      ghost var before := chain;
      frame := Find(kind, maps);
      if frame != null {
        assert forall z :: z in chain && z !in before ==> z == frame.zone;
        StampedAfter(old(log), Lent(frame.zone));
      }
    }

    /** Lending and giving back keep the stamps; a zone that has just been used is not idle. */
    lemma StampedAfter(before: seq<Event>, e: Event)
      requires e.Lent? || e.GivenBack?
      requires log == before + [e]
      requires forall z :: z in chain && z != e.zone ==> Stamped(before, z, z.freeable, z.freeOnHb, z.stamp)
      ensures Prompt()
    {
      hide Stamped;
      forall z | z in chain ensures Stamped(log, z, z.freeable, z.freeOnHb, z.stamp) {
        StillStamped(before, e, z, z.freeable, z.freeOnHb, z.stamp);
      }
    }

    /** The search itself. */
    method Find(kind: Kind, maps: bool) returns (frame: Frame?)
      requires Sound() && kind != FREE
      modifies this, chain, idle
      ensures Sound() && Borrowed(frame, kind)
      ensures forall z :: z in old(chain) ==> z.freeOnHb == old(z.freeOnHb) && z.stamp == old(z.stamp)
      ensures frame != null ==> forall z :: z in chain && z !in old(chain) ==> z == frame.zone
      ensures frame == null ==> chain == old(chain)
      ensures Chosen(frame, maps, old(lastZone), old(chain), old(Frees()), lastZone, chain)
      ensures frame == null <==> old(idle) == {} && (old(lastZone) || |old(chain)| >= 2 || !maps)
      ensures old(idle) == {} && frame != null ==>
                fresh(frame.zone) && NewZone(frame.zone, old(chain) == []) && frame == frame.zone.frames[0]
      ensures forall f :: f in old(frames) && f != frame ==> unchanged(f)
    {
      hide Structured, Houses, Recorded, Noted, Sum, Uses, NewZone, Totalled, Borrowed, FirstFree;
      var zone, last: Zone? := zones, null;
      ghost var i := 0;
      ghost var frees := Frees();
      FirstIsIdle();
      ChainIsWalked();
      FirstFreeSkips(frees);
      while zone != null
        invariant 0 <= i <= |chain|
        invariant zone == (if i < |chain| then chain[i] else null)
        invariant last == (if i == 0 then null else chain[i - 1])
        invariant forall j :: 0 <= j < i ==> frees[j] == []
        decreases |chain| - i
      {
        if zone.available != null {
          frame := LendNow(zone, kind);
          assert frames == old(frames);
          return;
        }
        last := zone;
        zone := zone.next;
        i := i + 1;
      }
      frame := Grow(last, kind, maps);
    }

    // -------------------------------------------------------------------------
    // ft_frame_return
    // -------------------------------------------------------------------------

    /** The zone's part of a return. */
    method PutBack(frame: Frame)
      requires Structured() && Noted() && frame in frames && frame !in idle && frame.kind != FREE
      modifies this`idle, frame.zone`available, frame.zone`framesUsed, frame.zone`free, frame.zone`freeOnHb,
          frame`next, frame`kind, frame`at
      ensures Structured() && Noted() && frame.at == Free && idle == old(idle) + {frame}
      ensures frame.zone.framesUsed == old(frame.zone.framesUsed) - 1
      ensures frame.zone.freeOnHb == (frame.zone.framesUsed == 0)
    {
      hide Zone.Valid, Linked;
      var zone := frame.zone;
      assert Houses(zone);
      zone.TakeBack(frame);
      idle := idle + {frame};
      forall z | z in chain && z != zone ensures Houses(z) {
        assert old(Houses(z));
        assert frame !in z.frames;
      }
    }

    method NoteReturn(zone: Zone)
      modifies this`framesUsed, this`log
      requires Structured()
      ensures Structured() && log == old(log) + [GivenBack(zone)] && framesUsed == old(framesUsed) - 1
    {
      framesUsed := framesUsed - 1;
      log := log + [GivenBack(zone)];
    }

    method PutBackCounted(frame: Frame)
      requires Structured() && Noted() && frame in frames && frame !in idle && frame.kind != FREE
      modifies this`idle, frame.zone`available, frame.zone`framesUsed, frame.zone`free, frame.zone`freeOnHb,
          frame`next, frame`kind, frame`at
      ensures Structured() && Noted() && frame.at == Free && idle == old(idle) + {frame}
      ensures frame.zone.framesUsed == old(frame.zone.framesUsed) - 1
      ensures frame.zone.freeOnHb == (frame.zone.framesUsed == 0)
      ensures Sum(Uses(chain)) == old(Sum(Uses(chain))) - 1
    {
      ghost var before := Uses(chain);
      ghost var i := Position(frame.zone);
      hide Structured, Sum;
      PutBack(frame);
      SumChanges(before, Uses(chain), i, -1);
    }

    /** Idle means on the free list of its own zone. */
    lemma FreeIsIdle(frame: Frame)
      requires Valid() && frame in frames
      ensures frame.at == Free <==> frame in frame.zone.free
      ensures forall z :: z in chain && frame in z.free ==> z == frame.zone
    {
      assert Houses(frame.zone);
      forall z | z in chain && frame in z.free ensures z == frame.zone {
        assert Houses(z);
      }
    }

    lemma IdleAreFree()
      requires Valid()
      ensures forall f :: f in idle ==> f in frames && f.at == Free
    {
    }

    lemma HasHome(frame: Frame)
      requires Structured() && frame in frames
      ensures frame.zone in chain
    {
    }

    /** ft_frame_return */
    method Return(frame: Frame)
      requires Valid() && frame in frames && frame !in idle && frame.kind != FREE
      modifies this`framesUsed, this`log, this`idle
      modifies frame.zone`available, frame.zone`framesUsed, frame.zone`free, frame.zone`freeOnHb, frame`next,
          frame`kind, frame`at
      ensures Valid() && frame.at == Free && idle == old(idle) + {frame}
      ensures framesUsed == old(framesUsed) - 1 && log == old(log) + [GivenBack(frame.zone)]
    {
      hide Sound;
      assert forall z :: z in chain ==> Stamped(log, z, z.freeable, z.freeOnHb, z.stamp);
      TakeIn(frame);
      StampedAfter(old(log), GivenBack(frame.zone));
    }

    method TakeIn(frame: Frame)
      requires Sound() && frame in frames && frame !in idle && frame.kind != FREE
      modifies this`framesUsed, this`log, this`idle
      modifies frame.zone`available, frame.zone`framesUsed, frame.zone`free, frame.zone`freeOnHb, frame`next,
          frame`kind, frame`at
      ensures Sound() && frame.at == Free && idle == old(idle) + {frame}
      ensures framesUsed == old(framesUsed) - 1 && log == old(log) + [GivenBack(frame.zone)]
    {
      hide Structured, Houses, Zone.Valid, Sum, Uses, IdleSince, UsedIn, Chained, Distinct, Linked;
      var zone := frame.zone;
      HasHome(frame);
      PutBackCounted(frame);
      UsedSnoc(log, GivenBack(zone), zone);
      forall z | z in chain && z != zone
        ensures Agrees(log + [GivenBack(zone)], timeout, z, z.framesUsed, z.freeOnHb, z.freeAt, z.stamp)
      {
        assert old(Recorded(z));
        StillAgrees(log, GivenBack(zone), timeout, z, z.framesUsed, z.freeOnHb, z.freeAt, z.stamp);
      }
      NoteReturn(zone);
    }

    // -------------------------------------------------------------------------
    // ft_pool_on_heartbeat
    // -------------------------------------------------------------------------

    method NoteBeat(now: real)
      requires Sound()
      modifies this`log
      ensures Sound() && log == old(log) + [Beat(now)]
    {
      forall z | z in chain
        ensures Agrees(log + [Beat(now)], timeout, z, z.framesUsed, z.freeOnHb, z.freeAt, z.stamp)
      {
        assert Recorded(z);
        StillAgrees(log, Beat(now), timeout, z, z.framesUsed, z.freeOnHb, z.freeAt, z.stamp);
      }
      hide Agrees;
      AddBeat(now);
    }

    method AddBeat(now: real)
      requires Structured()
      modifies this`log
      ensures Structured() && log == old(log) + [Beat(now)]
    {
      log := log + [Beat(now)];
    }

    /** Starts the clock of an idle zone. */
    method Stamp(zone: Zone, now: real)
      requires Sound() && zone in chain && zone.framesUsed == 0
      requires |log| > 0 && log[|log| - 1] == Beat(now)
      modifies zone`freeOnHb, zone`freeAt, zone`stamp
      ensures Sound() && ClockOf(zone) == Clock(false, now + timeout, |log| - 1)
    {
      assert Recorded(zone);
      ghost var earlier := log[..|log| - 1];
      assert log == earlier + [Beat(now)];
      UsedSnoc(earlier, Beat(now), zone);
      StartsIdle(earlier, now, zone);
      ghost var before := Uses(chain);
      hide IdleSince, UsedIn, Structured;
      SetClock(zone, now);
      assert Uses(chain) == before;
    }

    method SetClock(zone: Zone, now: real)
      requires Structured() && zone in chain && |log| > 0
      modifies zone`freeOnHb, zone`freeAt, zone`stamp
      ensures Structured() && !zone.freeOnHb && zone.freeAt == now + timeout && zone.stamp == |log| - 1
    {
      assert Houses(zone);
      zone.freeAt := now + timeout;
      zone.freeOnHb := false;
      zone.stamp := |log| - 1;
      assert zone.Valid();
      hide Zone.Valid, Linked;
      forall z | z in chain && z != zone ensures Houses(z) {
        assert old(Houses(z));
      }
    }

    /** Frames that are out keep their zone busy. */
    lemma LentMeansUsed(frame: Frame)
      requires Structured() && frame in frames && frame !in idle
      ensures frame.zone in chain && frame.zone.framesUsed > 0
    {
      var zone := frame.zone;
      assert Houses(zone);
      DistinctFit([frame] + zone.free, zone.frames);
    }

    /** The zone is cut out of the chain. */
    method CutNext(prev: Zone?, zone: Zone, ghost k: nat)
      requires Chained(zones, chain) && Distinct(chain) && k < |chain| && chain[k] == zone
      requires prev == if k == 0 then null else chain[k - 1]
      modifies this`zones, chain`next
      ensures Chained(zones, chain[..k] + chain[k + 1..])
      ensures forall j :: k <= j < |chain| ==> chain[j].next == old(chain[j].next)
    {
      ghost var shorter := chain[..k] + chain[k + 1..];
      assert zone.next == Behind(chain, k);
      if prev == null {
        zones := zone.next;
      } else {
        prev.next := zone.next;
      }
      forall i | 0 <= i < |shorter| ensures shorter[i].next == Behind(shorter, i) {
        if i < k {
          assert old(chain[i].next) == Behind(chain, i);
          assert i != k - 1 ==> chain[i] != prev;
        } else {
          assert old(chain[i + 1].next) == Behind(chain, i + 1);
          assert k != 0 ==> chain[i + 1] != prev;
        }
      }
    }

    /** Unchains and deletes a zone none of whose frames is out. */
    method Unlink(prev: Zone?, zone: Zone, ghost k: nat)
      requires Structured() && k < |chain| && chain[k] == zone && zone.framesUsed == 0
      requires prev == if k == 0 then null else chain[k - 1]
      modifies this`zones, this`chain, this`frames, this`idle, chain`next, zone`framesTotal
      ensures Structured() && chain == old(chain[..k] + chain[k + 1..])
      ensures frames == old(frames) - old(set f | f in zone.frames) && idle == old(idle) - old(set f | f in zone.frames)
    {
      hide Linked, Chained;
      CutNext(prev, zone, k);
      assert forall j :: 0 <= j < |chain| && j != k ==> chain[j] != zone;
      assert forall z :: z in chain && z != zone ==> exists j :: 0 <= j < |chain| && j != k && chain[j] == z;
      ghost var gone := set f | f in zone.frames;
      chain := chain[..k] + chain[k + 1..];
      frames, idle := frames - gone, idle - gone;
      zone.framesTotal := 0;
      assert old(Houses(zone));
      forall z | z in chain ensures Houses(z) {
        assert old(Houses(z)) && z != zone;
        assert forall f :: f in z.frames ==> f !in gone;
        assert z.Valid();
      }
    }

    method UnlinkCounted(prev: Zone?, zone: Zone, ghost k: nat)
      requires Structured() && k < |chain| && chain[k] == zone && zone.framesUsed == 0
      requires prev == if k == 0 then null else chain[k - 1]
      modifies this`zones, this`chain, this`frames, this`idle, chain`next, zone`framesTotal
      ensures Structured() && chain == old(chain[..k] + chain[k + 1..])
      ensures frames == old(frames) - old(set f | f in zone.frames) && idle == old(idle) - old(set f | f in zone.frames)
      ensures Sum(Uses(chain)) == old(Sum(Uses(chain)))
    {
      ghost var before := Uses(chain);
      hide Structured, Sum;
      Unlink(prev, zone, k);
      SumRemove(before[..k], before[k], before[k + 1..]);
      assert before == before[..k] + [before[k]] + before[k + 1..];
      assert Uses(chain) == before[..k] + before[k + 1..];
    }

    lemma LiveFrames(zone: Zone)
      requires Structured() && zone in chain
      ensures zone.Valid() && forall f :: f in zone.frames ==> f in frames
    {
      assert Houses(zone);
    }

    ghost method Bury(count: nat)
      requires Structured() && Noted() && framesUsed == Sum(Uses(chain)) && forall z :: z in chain ==> Recorded(z)
      requires framesTotal == |frames| + count + gone
      modifies this`gone
      ensures Sound() && gone == old(gone) + count
    {
      hide Sum, Uses, Agrees, Zone.Valid, Linked, Chained;
      gone := gone + count;
    }

    method UnlinkRecorded(prev: Zone?, zone: Zone, ghost k: nat)
      requires Sound() && k < |chain| && chain[k] == zone && zone.framesUsed == 0
      requires prev == if k == 0 then null else chain[k - 1]
      modifies this`zones, this`chain, this`frames, this`idle, chain`next, zone`framesTotal
      ensures Structured() && Noted() && framesUsed == Sum(Uses(chain)) && forall z :: z in chain ==> Recorded(z)
      ensures chain == old(chain[..k] + chain[k + 1..])
      ensures frames == old(frames) - old(set f | f in zone.frames) && idle == old(idle) - old(set f | f in zone.frames)
    {
      hide Structured, Houses, Zone.Valid, Sum, Uses, Agrees, Totalled;
      assert forall z :: z in chain ==> Recorded(z);
      UnlinkCounted(prev, zone, k);
      assert forall z :: z in chain ==> z in old(chain);
    }

    method Delete(prev: Zone?, zone: Zone, ghost k: nat)
      requires Sound() && k < |chain| && chain[k] == zone && zone.framesUsed == 0
      requires prev == if k == 0 then null else chain[k - 1]
      modifies this`zones, this`chain, this`frames, this`idle, this`gone, chain`next, zone`framesTotal
      ensures Sound() && chain == old(chain[..k] + chain[k + 1..]) && gone == old(gone) + |zone.frames| > old(gone)
      ensures frames == old(frames) - old(set f | f in zone.frames) && idle == old(idle) - old(set f | f in zone.frames)
    {
      hide Structured, Houses, Zone.Valid, Sum, Uses, Recorded, Noted;
      LiveFrames(zone);
      FramesLeave(zone);
      UnlinkRecorded(prev, zone, k);
      Bury(|zone.frames|);
    }

    /** Deleting a zone that has expired loses no lent frame, and the zone has long been idle. */
    method Expire(prev: Zone?, zone: Zone, now: real, ghost k: nat)
      requires Sound() && k < |chain| && chain[k] == zone && Expires(zone, now)
      requires prev == if k == 0 then null else chain[k - 1]
      modifies this`zones, this`chain, this`frames, this`idle, this`gone, chain`next, zone`framesTotal
      ensures Sound() && chain == old(chain[..k] + chain[k + 1..]) && gone > old(gone)
      ensures LongIdle(log, timeout, zone, now)
      ensures frames <= old(frames) && forall f :: f in old(frames) && f !in old(idle) ==> f in frames && f !in idle
    {
      hide Structured, Houses, Zone.Valid, Sum, Uses, UsedIn, IdleSince;
      assert Recorded(zone);
      AtZone(k);
      assert IdleSince(log, zone, zone.stamp);
      forall f | f in frames && f !in idle ensures f.zone != zone {
        LentMeansUsed(f);
      }
      Delete(prev, zone, k);
    }

    lemma AtZone(k: nat)
      requires Structured() && k < |chain|
      ensures chain[k].next == Behind(chain, k) && chain[k].framesUsed >= 0
      ensures chain[k].pool == this && forall f :: f in chain[k].frames ==> f.zone == chain[k]
    {
      assert Houses(chain[k]);
    }

    /** One round of the heartbeat loop: done are the zones kept so far, rest those still to come. */
    method Sweep(prev: Zone?, zone: Zone, now: real, ghost done: seq<Zone>, ghost rest: seq<Zone>)
      returns (last: Zone?, next: Zone?, ghost stay: seq<Zone>)
      requires Sound() && |log| > 0 && log[|log| - 1] == Beat(now)
      requires chain == done + rest && rest != [] && zone == rest[0]
      requires prev == if done == [] then null else done[|done| - 1]
      modifies this`zones, this`chain, this`frames, this`idle, this`gone, chain`next, zone`framesTotal,
          zone`freeOnHb, zone`freeAt, zone`stamp
      ensures Sound() && if old(Expires(zone, now)) then gone > old(gone) else gone == old(gone)
      ensures stay == if old(Expires(zone, now)) then done else done + [zone]
      ensures chain == stay + rest[1..]
      ensures last == if stay == [] then null else stay[|stay| - 1]
      ensures next == if |rest| > 1 then rest[1] else null
      ensures old(Expires(zone, now)) ==> LongIdle(log, timeout, zone, now)
      ensures !old(Expires(zone, now)) ==>
          Timed(old(ClockOf(zone)), ClockOf(zone), Spare(zone), now + timeout, |log| - 1)
      ensures frames <= old(frames) && forall f :: f in old(frames) && f !in old(idle) ==> f in frames && f !in idle
    {
      hide Structured, Houses, Zone.Valid, Sum, Uses, UsedIn, IdleSince, LongIdle, Noted, Recorded;
      ghost var k := |done|;
      AtZone(k);
      last, next, stay := zone, zone.next, done + [zone];
      if !zone.freeable || zone.framesUsed > 0 {
      } else if zone.freeOnHb {
        Stamp(zone, now);
      } else if zone.freeAt >= now {
      } else {
        Expire(prev, zone, now, k);
        last, stay := prev, done;
      }
    }

    lemma Head()
      requires Sound()
      ensures zones == if chain == [] then null else chain[0]
    {
    }

    /** Halfway through a heartbeat: the first i of all the zones have met their fate. */
    ghost predicate Sweeping(all: seq<Zone>, marks: seq<bool>, was: seq<Clock>, i: nat, now: real, kept: seq<Zone>)
      reads this, all
    {
      && i <= |all| == |marks| == |was| && Distinct(all)
      && |log| > 0 && log[|log| - 1] == Beat(now)
      && (forall j :: i <= j < |all| ==> ClockOf(all[j]) == was[j])
      && (forall j :: 0 <= j < i && !marks[j] ==>
          Timed(was[j], ClockOf(all[j]), Spare(all[j]), now + timeout, |log| - 1))
      && kept == Unmarked(all[..i], marks[..i])
      && chain == kept + all[i..]
      && (forall j :: i <= j < |all| ==> Expires(all[j], now) == marks[j])
      && (forall j :: 0 <= j < i && marks[j] ==> LongIdle(log, timeout, all[j], now))
    }

    lemma SweepStarts(now: real)
      requires |log| > 0 && log[|log| - 1] == Beat(now) && Distinct(chain)
      ensures Sweeping(chain, Expiring(chain, now), Clocks(chain), 0, now, [])
    {
    }

    lemma SweepEnds(all: seq<Zone>, marks: seq<bool>, was: seq<Clock>, now: real, kept: seq<Zone>)
      requires Sweeping(all, marks, was, |all|, now, kept)
      ensures |marks| == |all| && chain == kept == Unmarked(all, marks)
      ensures forall i :: 0 <= i < |all| && marks[i] ==> LongIdle(log, timeout, all[i], now)
      ensures |was| == |all| && forall i :: 0 <= i < |all| && !marks[i] ==>
          Timed(was[i], ClockOf(all[i]), Spare(all[i]), now + timeout, |log| - 1)
    {
      assert all[..|all|] == all && marks[..|all|] == marks;
    }

    method SweepNext(prev: Zone?, zone: Zone, now: real, ghost all: seq<Zone>, ghost marks: seq<bool>,
        ghost was: seq<Clock>, ghost i: nat, ghost kept: seq<Zone>)
      returns (last: Zone?, next: Zone?, ghost stay: seq<Zone>)
      requires Sound() && Sweeping(all, marks, was, i, now, kept)
      requires i < |all| && zone == all[i] && prev == if kept == [] then null else kept[|kept| - 1]
      modifies this`zones, this`chain, this`frames, this`idle, this`gone, all`next, all`framesTotal, all`freeOnHb,
          all`freeAt, all`stamp
      ensures Sound() && Sweeping(all, marks, was, i + 1, now, stay)
      ensures |stay| == |kept| + (if gone > old(gone) then 0 else 1) && gone >= old(gone)
      ensures next == (if i + 1 < |all| then all[i + 1] else null) && last == if stay == [] then null
          else stay[|stay| - 1]
      ensures frames <= old(frames) && forall f :: f in old(frames) && f !in old(idle) ==> f in frames && f !in idle
    {
      hide Structured, Houses, Zone.Valid, Sum, Uses, UsedIn, IdleSince, LongIdle, Agrees, Unmarked, Timed, Spare,
          Expires, Distinct;
      ghost var rest := all[i..];
      OneMore(all, marks, i);
      AllApart(all, i);
      assert forall j :: 0 <= j < |chain| ==> chain[j] in all;
      last, next, stay := Sweep(prev, zone, now, kept, rest);
    }

    lemma AllApart(all: seq<Zone>, i: nat)
      requires Distinct(all) && i < |all|
      ensures forall j :: 0 <= j < |all| && j != i ==> all[j] != all[i]
      ensures all[i..] != [] && all[i..][1..] == all[i + 1..] && all[i..][0] == all[i]
    {
    }

    lemma OneMore(all: seq<Zone>, marks: seq<bool>, i: nat)
      requires i < |all| == |marks|
      ensures Unmarked(all[..i + 1], marks[..i + 1]) == Unmarked(all[..i], marks[..i]) + if marks[i] then []
          else [all[i]]
      ensures forall z :: z in Unmarked(all[..i], marks[..i]) ==> z in all
    {
      assert all[..i + 1][..i] == all[..i] && marks[..i + 1][..i] == marks[..i];
    }

    /** The heartbeat's loop. */
    method SweepAll(now: real, ghost all: seq<Zone>, ghost marks: seq<bool>, ghost was: seq<Clock>)
      requires Sound() && Sweeping(all, marks, was, 0, now, []) && all == chain
      modifies this`zones, this`chain, this`frames, this`idle, this`gone, all`next, all`framesTotal, all`freeOnHb,
          all`freeAt, all`stamp
      ensures Sound() && |marks| == |all| && chain == Unmarked(all, marks)
      ensures gone >= old(gone) && (gone == old(gone) <==> chain == all)
      ensures forall i :: 0 <= i < |all| && marks[i] ==> LongIdle(log, timeout, all[i], now)
      ensures |was| == |all| && forall i :: 0 <= i < |all| && !marks[i] ==>
          Timed(was[i], ClockOf(all[i]), Spare(all[i]), now + timeout, |log| - 1)
      ensures frames <= old(frames) && forall f :: f in old(frames) && f !in old(idle) ==> f in frames && f !in idle
    {
      hide Structured, Houses, Zone.Valid, LongIdle, Recorded, Unmarked, Sweeping, Totalled, Sound, Expires;
      var prev: Zone?, zone := null, zones;
      ghost var i := 0;
      ghost var kept: seq<Zone> := [];
      Head();
      while zone != null
        invariant 0 <= i <= |all| && Sound() && Sweeping(all, marks, was, i, now, kept)
        invariant frames <= old(frames) && forall f :: f in old(frames) && f !in old(idle) ==> f in frames && f !in idle
        invariant zone == if i < |all| then all[i] else null
        invariant prev == if kept == [] then null else kept[|kept| - 1]
        invariant gone >= old(gone) && |kept| <= i && (gone == old(gone) <==> |kept| == i)
        decreases |all| - i
      {
        prev, zone, kept := SweepNext(prev, zone, now, all, marks, was, i, kept);
        i := i + 1;
      }
      SweepEnds(all, marks, was, now, kept);
      NoneMarked(all, marks);
    }

    /** The clock has not gone back by beat h. */
    ghost predicate Forward(h: nat)
      reads this`log
    {
      && h < |log| && log[h].Beat?
      && forall k {:trigger log[k]} :: 0 <= k < h && log[k].Beat? ==> log[k].now <= log[h].now
    }

    /** The zone may be deleted and has been idle since beat h, more than the timeout ago. */
    ghost predicate Overdue(z: Zone, h: nat, now: real)
      reads this`log
    {
      z.freeable && IdleSince(log, z, h) && Forward(h) && log[h].now + timeout < now
    }

    /** An idle zone is stamped, so it expires once the timeout has gone by. */
    lemma ExpiresInTime(z: Zone, h: nat, now: real)
      requires Valid() && z in chain && Overdue(z, h, now)
      ensures Expires(z, now)
    {
      hide Structured, Noted, Sum, Totalled;
      assert Recorded(z) && Stamped(log, z, z.freeable, z.freeOnHb, z.stamp);
      assert log[..|log|] == log;
      assert log[z.stamp].now <= log[h].now;
    }

    /**
    ft_pool_on_heartbeat.  It deletes exactly the zones that expire and keeps the
    others in order; a deleted zone has been wholly idle at every moment since an
    earlier heartbeat, more than the timeout ago, and no lent frame goes away.  Every idle
    zone that may be deleted has its clock running afterwards; so one that has been idle
    since an earlier heartbeat, more than the timeout ago, is no longer in the chain.
    */
    method Heartbeat(now: real)
      requires Valid()
      modifies this`zones, this`chain, this`frames, this`idle, this`gone, this`log, chain`next, chain`framesTotal,
          chain`freeOnHb, chain`freeAt, chain`stamp
      ensures Valid() && log == old(log) + [Beat(now)]
      ensures chain == Unmarked(old(chain), old(Expiring(chain, now)))
      ensures gone >= old(gone) && (gone == old(gone) <==> chain == old(chain))
      ensures forall i :: 0 <= i < |old(chain)| && old(Expiring(chain, now))[i] ==>
          LongIdle(log, timeout, old(chain)[i], now)
      ensures frames <= old(frames) && forall f :: f in old(frames) && f !in old(idle) ==> f in frames && f !in idle
      ensures forall z :: z in chain ==>
          && z in old(chain)
          && (if z.freeable && z.framesUsed == 0 && old(z.freeOnHb) then !z.freeOnHb && z.freeAt == now + timeout
              else z.freeOnHb == old(z.freeOnHb) && z.freeAt == old(z.freeAt))
      ensures forall z :: z in old(chain) ==> (z in chain <==> !old(Expires(z, now)))
      ensures forall z, h: nat :: z in old(chain) && old(Overdue(z, h, now)) ==> z !in chain
    {
      hide Zone.Valid, LongIdle, Unmarked, Sweeping, Sound, Expires, Stamped, Timed, Overdue;
      ghost var before, all, marks, was := log, chain, Expiring(chain, now), Clocks(chain);
      InTime(now);
      Apart();
      KnowTheLog();
      NoteBeat(now);
      SweepStarts(now);
      SweepAll(now, all, marks, was);
      Survivors(all, marks);
      AfterBeat(before, now, all, marks, was);
      Restarted(all, marks, was, now);
    }

    lemma Apart()
      requires Sound()
      ensures Distinct(chain) && forall z :: z in chain ==> z.framesUsed >= 0
    {
      forall z | z in chain ensures z.framesUsed >= 0 { assert Houses(z); }
    }

    lemma InTime(now: real)
      requires Valid()
      ensures forall z, h: nat :: z in chain && Overdue(z, h, now) ==> Expires(z, now)
    {
      forall z, h: nat | z in chain && Overdue(z, h, now) ensures Expires(z, now) {
        ExpiresInTime(z, h, now);
      }
    }

    /** What the log says of a zone. */
    ghost predicate Known(before: seq<Event>, z: Zone, c: Clock)
      reads z`framesUsed
    {
      && z.framesUsed == UsedIn(before, z)
      && (z.framesUsed == 0 && !c.freeOnHb ==> c.stamp < |before|)
      && Stamped(before, z, z.freeable, c.freeOnHb, c.stamp)
    }

    lemma KnowTheLog()
      requires Valid()
      ensures forall z :: z in chain ==> Known(log, z, ClockOf(z))
    {
      hide UsedIn, Stamped;
      forall z | z in chain ensures Known(log, z, ClockOf(z)) {
        assert Recorded(z);
      }
    }

    lemma AfterBeat(before: seq<Event>, now: real, all: seq<Zone>, marks: seq<bool>, was: seq<Clock>)
      requires |was| == |marks| == |all| && log == before + [Beat(now)]
      requires forall z :: z in chain ==> exists i :: 0 <= i < |all| && all[i] == z && !marks[i]
      requires forall i :: 0 <= i < |all| ==> Known(before, all[i], was[i])
      requires forall i :: 0 <= i < |all| && !marks[i] ==>
          Timed(was[i], ClockOf(all[i]), Spare(all[i]), now + timeout, |log| - 1)
      ensures Prompt()
    {
      hide Timed, Known;
      forall z | z in chain ensures Stamped(log, z, z.freeable, z.freeOnHb, z.stamp) {
        var i :| 0 <= i < |all| && all[i] == z && !marks[i];
        StampedByBeat(before, now, now + timeout, z, was[i]);
      }
    }

    lemma StampedByBeat(before: seq<Event>, now: real, freeAt: real, z: Zone, was: Clock)
      requires Known(before, z, was) && Timed(was, ClockOf(z), Spare(z), freeAt, |before|)
      ensures Stamped(before + [Beat(now)], z, z.freeable, z.freeOnHb, z.stamp)
    {
      hide UsedIn;
      forall h: nat | z.freeable && IdleSince(before + [Beat(now)], z, h) ensures !z.freeOnHb && z.stamp <= h {
        assert (before + [Beat(now)])[..|before|] == before;
        if h < |before| { WasIdle(before, Beat(now), z, h); }
      }
    }

    /** Only the clock of an idle zone that waits for it is started. */
    ghost predicate Restarts(z: Zone, was: Clock, now: real)
      reads z`framesUsed, z`freeOnHb, z`freeAt
    {
      if z.freeable && z.framesUsed == 0 && was.freeOnHb then !z.freeOnHb && z.freeAt == now + timeout
      else z.freeOnHb == was.freeOnHb && z.freeAt == was.freeAt
    }

    /** What is said of the clocks, zone by zone. */
    lemma Restarted(all: seq<Zone>, marks: seq<bool>, was: seq<Clock>, now: real)
      requires |was| == |marks| == |all| && |log| > 0
      requires forall z :: z in chain ==> exists i :: 0 <= i < |all| && all[i] == z && !marks[i]
      requires forall i :: 0 <= i < |all| && !marks[i] ==>
          Timed(was[i], ClockOf(all[i]), Spare(all[i]), now + timeout, |log| - 1)
      requires forall z :: z in all ==> z.framesUsed >= 0
      ensures forall z :: z in chain ==> exists i :: 0 <= i < |all| && all[i] == z && Restarts(z, was[i], now)
    {
      forall z | z in chain
        ensures exists i :: 0 <= i < |all| && all[i] == z && Restarts(z, was[i], now)
      {
        var i :| 0 <= i < |all| && all[i] == z && !marks[i];
        assert Timed(was[i], ClockOf(z), Spare(z), now + timeout, |log| - 1);
      }
    }

    /** The zones that are left are those not marked. */
    lemma Survivors(all: seq<Zone>, marks: seq<bool>)
      requires |marks| == |all| && chain == Unmarked(all, marks) && Distinct(all)
      ensures forall z :: z in chain ==> exists i :: 0 <= i < |all| && all[i] == z && !marks[i]
      ensures forall i :: 0 <= i < |all| ==> (all[i] in chain <==> !marks[i])
    {
      forall i | 0 <= i < |all| && !marks[i] ensures all[i] in chain {
        UnmarkedStay(all, marks, i);
      }
      forall z | z in chain ensures exists i :: 0 <= i < |all| && all[i] == z && !marks[i] {
        UnmarkedAre(all, marks, z);
      }
    }

    /** framesTotal is the number of live frames exactly until the first zone is deleted. */
    lemma TotalIsLive()
      requires Valid()
      ensures framesTotal == |frames| <==> gone == 0
      ensures framesTotal >= |frames|
    {
    }

    // -------------------------------------------------------------------------
    // ft_pool_count_available_frames, ft_pool_fini
    // -------------------------------------------------------------------------

    /** The idle frames of the first i zones. */
    ghost function IdleIn(i: nat): set<Frame>
      requires i <= |chain|
      reads this
    {
      set f | f in idle && f.zone in chain[..i]
    }

    lemma IdleOfZone(i: nat)
      requires Structured() && i < |chain|
      ensures |IdleIn(i + 1)| == |IdleIn(i)| + |chain[i].free|
    {
      var zone := chain[i];
      assert Houses(zone);
      var here := set f | f in zone.free;
      assert IdleIn(i + 1) == IdleIn(i) + here;
      assert IdleIn(i) !! here;
      SetOfDistinct(zone.free);
    }

    /** ft_pool_count_available_frames counts exactly the frames nobody holds. */
    method CountAvailableFrames() returns (count: int)
      requires Valid()
      ensures count == |set f | f in frames && f.at == Free|
    {
      hide Linked, Sum, Uses, Agrees;
      var zone := zones;
      count := 0;
      ghost var i := 0;
      while zone != null
        invariant 0 <= i <= |chain| && zone == if i < |chain| then chain[i] else null
        invariant count == |IdleIn(i)|
        decreases |chain| - i
      {
        assert Houses(zone) && Behind(chain, i) == zone.next;
        IdleOfZone(i);
        count := count + (zone.framesTotal - zone.framesUsed);
        zone := zone.next;
        i := i + 1;
      }
      assert chain[..|chain|] == chain;
      assert IdleIn(i) == set f | f in frames && f.at == Free;
    }

    lemma UsedMeansLent(zone: Zone)
      requires zone.Valid() && zone.framesUsed > 0
      ensures exists f :: f in zone.frames && f !in zone.free
    {
      if forall f :: f in zone.frames ==> f in zone.free {
        DistinctFit(zone.frames, zone.free);
      }
    }

    /** ft_pool_fini deletes the zones and aborts exactly when some frame is still lent. */
    method Fini() returns (aborted: bool)
      requires Valid()
      modifies this`zones, chain`framesTotal
      ensures aborted <==> exists f :: f in frames && f.at != Free
      ensures !aborted ==> zones == null
    {
      hide Linked, Sum, Uses, Agrees;
      ghost var i := 0;
      forall f | f in frames && f !in idle ensures f.zone in chain && f.zone.framesUsed > 0 {
        LentMeansUsed(f);
      }
      while zones != null
        invariant 0 <= i <= |chain| && zones == if i < |chain| then chain[i] else null
        invariant forall j :: i <= j < |chain| ==> unchanged(chain[j])
        invariant forall j :: 0 <= j < i ==> chain[j].framesUsed <= 0
        decreases |chain| - i
      {
        var zone := zones;
        assert old(Houses(zone)) && zone.next == Behind(chain, i);
        zones := zone.next;
        if zone.framesUsed > 0 {
          UsedMeansLent(zone);
          return true;
        }
        zone.framesTotal := 0;
        i := i + 1;
      }
      aborted := false;
    }

    /** Passes a lent frame on: a ghost step that changes the note and nothing else. */
    ghost method Note(frame: Frame, holder: Place)
      requires Valid() && frame in frames && frame !in idle && holder != Free
      modifies frame`at
      ensures Valid() && frame.at == holder
    {
      frame.at := holder;
    }
  }

  /** With the last zone made and no frame idle, the pool is out of frames for good: it never grows again. */
  method OutForGood(pool: Pool, kind: Kind, tries: seq<bool>) returns (frames: seq<Frame?>)
    requires pool.Valid() && pool.lastZone && pool.idle == {} && kind != FREE
    modifies pool, pool.chain, pool.idle
    ensures pool.Valid() && pool.lastZone && pool.idle == {} && pool.chain == old(pool.chain)
    ensures |frames| == |tries| && forall f :: f in frames ==> f == null
  {
    hide Pool.Valid, FirstFree;
    frames := [];
    for i := 0 to |tries|
      invariant pool.Valid() && pool.lastZone && pool.idle == {} && pool.chain == old(pool.chain)
      invariant |frames| == i && forall f :: f in frames ==> f == null
    {
      var frame := pool.Borrow(kind, tries[i]);
      frames := frames + [frame];
    }
  }

  lemma KeepsFirst(a: Zone, b: Zone)
    ensures Unmarked([a, b], [false, true]) == [a]
  {
    assert [a, b][..1] == [a] && [false, true][..1] == [false];
    assert Unmarked([a], [false]) == [a];
  }

  lemma OnlyOneIsFull(pool: Pool)
    requires pool.Valid() && |pool.chain| == 1 && pool.chain[0].free == []
    ensures pool.idle == {}
  {
    pool.FirstIsIdle();
    FirstFreeIs(pool.Frees());
  }

  /**
  The zone of 2045 frames is reclaimed when it has long been idle, and then the pool
  stays at its first 16 frames, although mmap would give it more: lastZone stays set.
  */
  method ShrinksForGood(pool: Pool, now: real, kind: Kind) returns (frame: Frame?)
    requires pool.Valid() && pool.lastZone && |pool.chain| == 2 && kind != FREE
    requires !pool.chain[0].freeable && pool.chain[0].free == [] && Expires(pool.chain[1], now)
    modifies pool, pool.chain, pool.idle
    ensures pool.Valid() && pool.lastZone && pool.chain == [old(pool.chain[0])] && frame == null
  {
    hide Pool.Valid, FirstFree, Unmarked, LongIdle;
    assert Expiring(pool.chain, now) == [false, true];
    assert pool.chain == [pool.chain[0], pool.chain[1]];
    KeepsFirst(pool.chain[0], pool.chain[1]);
    pool.Heartbeat(now);
    OnlyOneIsFull(pool);
    frame := pool.Borrow(kind, true);
  }

  /**
  Two heartbeats more than the timeout apart reclaim a zone that may be deleted and has no
  frame out: the first starts its clock.
  */
  method TwoBeats(pool: Pool, zone: Zone, now: real, later: real)
    requires pool.Valid() && zone in pool.chain && zone.freeable && zone.framesUsed == 0
    requires zone.freeOnHb && now + pool.timeout < later
    modifies pool, pool.chain
    ensures pool.Valid() && zone !in pool.chain
  {
    hide Pool.Valid, LongIdle, Unmarked, Pool.Overdue;
    pool.Heartbeat(now);
    assert zone in pool.chain ==> Expires(zone, later);
    assert forall i :: 0 <= i < |pool.chain| ==> pool.chain[i] in old(pool.chain);
    pool.Heartbeat(later);
  }

  /** A frame fresh from the pool. */
  ghost predicate Handed(frame: Frame, kind: Kind)
    reads frame
  {
    frame.at == User && frame.kind == kind && frame.vecs == [] && frame.vecPosition == 0 && frame.next == null
  }
}
