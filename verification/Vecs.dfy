/**
Vectors of a frame (include/ft/mempool/vec.h): windows on the frame's data with
0 <= position <= limit <= capacity.
*/
module Vecs {
  import opened Bytes
  import opened Options

  const FRAME_SIZE: nat := 5 * 4096
  /** The memory of a frame. */
  type FrameData = s: seq<byte> | |s| == FRAME_SIZE witness seq(FRAME_SIZE, _ => 0)

  /** sizeof(struct ft_vec): the descriptors grow down from the end of the frame. */
  const VEC_SIZE: nat := 16

  datatype Vec = Vec(offset: nat, position: nat, limit: nat, capacity: nat)

  predicate InBounds(v: Vec) {
    v.position <= v.limit <= v.capacity && v.offset + v.capacity <= FRAME_SIZE
  }

  predicate AllInBounds(vecs: seq<Vec>) {
    forall i :: 0 <= i < |vecs| ==> InBounds(vecs[i])
  }

  /** From vector number i on there is one, and none of them is empty. */
  predicate Roomy(vecs: seq<Vec>, i: nat) {
    AllInBounds(vecs) && i < |vecs| && forall j :: i <= j < |vecs| ==> vecs[j].position < vecs[j].limit
  }

  /** Bytes of the data area left over when n descriptors are in use. */
  function Space(n: nat): int { FRAME_SIZE - VEC_SIZE * n }

  /** Each vector ends where the next begins, and the last ends below the descriptors. */
  predicate Appended(vecs: seq<Vec>) {
    && AllInBounds(vecs)
    && (forall i {:trigger Ends(vecs, i)} :: 0 <= i < |vecs| ==> vecs[i].offset == Ends(vecs, i))
    && Ends(vecs, |vecs|) <= Space(|vecs|)
  }

  /** Where vector number i begins when every vector follows its predecessor. */
  function Ends(vecs: seq<Vec>, i: nat): nat
    requires i <= |vecs|
  {
    if i == 0 then 0 else vecs[i - 1].offset + vecs[i - 1].capacity
  }

  function SumPositions(vecs: seq<Vec>): nat {
    if vecs == [] then 0 else SumPositions(vecs[..|vecs| - 1]) + vecs[|vecs| - 1].position
  }

  /** The bytes a vector still holds: those between position and limit. */
  function Window(data: FrameData, v: Vec): (w: seq<byte>)
    requires InBounds(v)
    ensures |w| == v.limit - v.position
  {
    data[v.offset + v.position..v.offset + v.limit]
  }

  /** The bytes of all vectors from number i on. */
  function Pending(data: FrameData, vecs: seq<Vec>, i: nat): seq<byte>
    requires AllInBounds(vecs) && i <= |vecs|
    decreases |vecs| - i
  {
    if i == |vecs| then [] else Window(data, vecs[i]) + Pending(data, vecs, i + 1)
  }

  /** Vectors before number i do not matter to what is pending from there. */
  lemma PendingIgnores(data: FrameData, vecs: seq<Vec>, i: nat, v: Vec, j: nat)
    requires AllInBounds(vecs) && InBounds(v) && i < j <= |vecs|
    ensures AllInBounds(vecs[i := v]) && Pending(data, vecs[i := v], j) == Pending(data, vecs, j)
    decreases |vecs| - j
  {
    if j < |vecs| { PendingIgnores(data, vecs, i, v, j + 1); }
  }

  /** ft_vec_advance consumes a prefix of what is pending. */
  lemma AdvanceConsumes(data: FrameData, vecs: seq<Vec>, i: nat, n: nat)
    requires AllInBounds(vecs) && i < |vecs| && n <= vecs[i].limit - vecs[i].position
    ensures var v := vecs[i].(position := vecs[i].position + n);
            && InBounds(v) && AllInBounds(vecs[i := v])
            && Pending(data, vecs, i) == Window(data, vecs[i])[..n] + Pending(data, vecs[i := v], i)
  {
    hide Window;
    var v := vecs[i].(position := vecs[i].position + n);
    PendingIgnores(data, vecs, i, v, i + 1);
    var w, rest := Window(data, vecs[i]), Pending(data, vecs, i + 1);
    WindowSplits(data, vecs[i], n);
    assert vecs[i := v][i] == v;
    assert w[..n] + Window(data, v) + rest == w[..n] + (Window(data, v) + rest);
  }

  lemma WindowSplits(data: FrameData, u: Vec, n: nat)
    requires InBounds(u) && n <= u.limit - u.position
    ensures InBounds(u.(position := u.position + n))
    ensures Window(data, u) == Window(data, u)[..n] + Window(data, u.(position := u.position + n))
  {
  }

  /** A vector with nothing left may be stepped over. */
  lemma StepOver(data: FrameData, vecs: seq<Vec>, i: nat)
    requires AllInBounds(vecs) && i < |vecs| && vecs[i].position == vecs[i].limit
    ensures Pending(data, vecs, i) == Pending(data, vecs, i + 1)
  {
    assert Window(data, vecs[i]) == [];
  }

  /** A frame grown with ft_frame_append_vec alone never lets data and descriptors overlap. */
  lemma AppendKeepsLayout(vecs: seq<Vec>, capacity: nat)
    requires Appended(vecs) && Ends(vecs, |vecs|) + capacity <= Space(|vecs| + 1)
    ensures Appended(vecs + [Vec(Ends(vecs, |vecs|), 0, capacity, capacity)])
  {
    var v := Vec(Ends(vecs, |vecs|), 0, capacity, capacity);
    var all := vecs + [v];
    forall i | 0 <= i < |all| ensures all[i].offset == Ends(all, i) {
      if i < |vecs| {
        assert vecs[i].offset == Ends(vecs, i);
      }
    }
    assert Ends(all, |all|) == v.offset + v.capacity;
  }

  predicate AboveData(vecs: seq<Vec>) {
    forall i :: 0 <= i < |vecs| ==> vecs[i].offset + vecs[i].capacity <= Space(|vecs|)
  }

  /**
  ft_frame_create_vec checks the new vector only.  The older ones stay clear of
  the new descriptor exactly when they end below it.
  */
  lemma CreateKeepsLayout(vecs: seq<Vec>, v: Vec)
    requires AboveData(vecs) && v.offset + v.capacity <= Space(|vecs| + 1)
    ensures AboveData(vecs + [v]) <==> forall i :: 0 <= i < |vecs| ==>
        vecs[i].offset + vecs[i].capacity <= Space(|vecs| + 1)
  {
    var all := vecs + [v];
    if AboveData(all) {
      forall i | 0 <= i < |vecs| ensures vecs[i].offset + vecs[i].capacity <= Space(|vecs| + 1) {
        assert all[i] == vecs[i];
      }
    }
  }

  /** size_t */
  const SIZE: nat := 0x1_0000_0000_0000_0000
  /** uint16_t, the type of a descriptor's fields. */
  const SHORT: nat := 0x1_0000

  /** A vector is refused, added, or let in where its descriptor has no room, which an assert catches. */
  datatype Placement = Refused | Added(vecs: seq<Vec>) | Aborted

  /** A pointer difference compared with a size_t: a negative one counts as huge. */
  function AsSize(d: int): nat
    requires 0 <= d + SIZE < 2 * SIZE
  {
    if d < 0 then d + SIZE else d
  }

  /** What a request for a vector comes to: the room test alone, on numbers of any size. */
  function RoomFor(vecs: seq<Vec>, offset: nat, capacity: nat): Placement {
    var space := Space(|vecs| + 1);
    if space < offset + capacity && space >= 0 then Refused
    else if space <= 0 then Aborted
    else Added(vecs + [Vec(offset, 0, capacity, capacity)])
  }

  /**
  ft_frame_create_vec: refused when the new vector does not end below its descriptor,
  but let in, and stopped by an assert, when the descriptors fill the frame.  The data
  and the descriptors of the frame stay apart exactly when the older vectors happen to
  end below the new descriptor too.
  */
  method CreateVec(vecs: seq<Vec>, offset: nat, capacity: nat) returns (r: Placement)
    requires AboveData(vecs) && offset + capacity < SIZE - VEC_SIZE * (|vecs| + 1)
    ensures r == RoomFor(vecs, offset, capacity)
    ensures r.Added? ==>
              (AboveData(r.vecs) <==>
                 forall i :: 0 <= i < |vecs| ==> vecs[i].offset + vecs[i].capacity <= Space(|vecs| + 1))
  {
    if AsSize(Space(|vecs| + 1)) < offset + capacity {
      return Refused;
    }
    if Space(|vecs| + 1) <= 0 {
      return Aborted;
    }
    CreateKeepsLayout(vecs, Vec(offset, 0, capacity, capacity));
    assert offset % SHORT == offset && capacity % SHORT == capacity;
    r := Added(vecs + [Vec(offset % SHORT, 0, capacity % SHORT, capacity % SHORT)]);
  }

  /** ft_frame_append_vec: the new vector begins where the last one ends, and all stays apart. */
  method AppendVec(vecs: seq<Vec>, capacity: nat) returns (r: Placement)
    requires Appended(vecs) && capacity < SIZE - FRAME_SIZE
    ensures r == RoomFor(vecs, Ends(vecs, |vecs|), capacity)
    ensures r.Added? ==> Appended(r.vecs)
  {
    var offset := if |vecs| > 0 then vecs[|vecs| - 1].offset + vecs[|vecs| - 1].capacity else 0;
    if AsSize(Space(|vecs| + 1)) < offset + capacity {
      return Refused;
    }
    if Space(|vecs| + 1) <= 0 {
      return Aborted;
    }
    AppendKeepsLayout(vecs, capacity);
    assert offset % SHORT == offset && capacity % SHORT == capacity;
    r := Added(vecs + [Vec(offset % SHORT, 0, capacity % SHORT, capacity % SHORT)]);
  }

  /** A frame full of descriptors of empty vectors: one more is let in, below the start of the frame. */
  lemma FullFrameAborts(vecs: seq<Vec>, capacity: nat)
    requires Space(|vecs| + 1) < 0
    ensures RoomFor(vecs, 0, capacity) == Aborted
  {
  }

  // ---------------------------------------------------------------------------
  // What has been read into a frame
  // ---------------------------------------------------------------------------

  /** The bytes a vector has taken in: those before its position. */
  function Taken(data: FrameData, v: Vec): (t: seq<byte>)
    requires InBounds(v)
    ensures |t| == v.position
  {
    data[v.offset..v.offset + v.position]
  }

  /** All bytes taken in, vector after vector. */
  function Content(data: FrameData, vecs: seq<Vec>): (c: seq<byte>)
    requires AllInBounds(vecs)
    ensures |c| == SumPositions(vecs)
  {
    if vecs == [] then [] else Content(data, vecs[..|vecs| - 1]) + Taken(data, vecs[|vecs| - 1])
  }

  predicate Disjoint(u: Vec, v: Vec) {
    u.offset + u.capacity <= v.offset || v.offset + v.capacity <= u.offset
  }

  /** No two vectors share memory, and those behind number i have taken in nothing yet. */
  predicate Orderly(vecs: seq<Vec>, i: nat) {
    && (forall j, k :: 0 <= j < k < |vecs| ==> Disjoint(vecs[j], vecs[k]))
    && (forall k :: i < k < |vecs| ==> vecs[k].position == 0)
  }

  /** Writing into one vector leaves what another has taken in. */
  lemma TakenApart(data: FrameData, u: Vec, v: Vec, got: seq<byte>)
    requires InBounds(u) && InBounds(v) && Disjoint(u, v) && |got| <= v.limit - v.position
    ensures Taken(Splice(data, v.offset + v.position, got), u) == Taken(data, u)
  {
  }

  lemma TakenMore(data: FrameData, v: Vec, got: seq<byte>)
    requires InBounds(v) && |got| <= v.limit - v.position
    ensures InBounds(v.(position := v.position + |got|))
    ensures Taken(Splice(data, v.offset + v.position, got), v.(position := v.position + |got|)) == Taken(data, v) + got
  {
  }

  /** What is received lands behind all that was taken in before. */
  lemma {:induction false} ReceiveExtends(data: FrameData, vecs: seq<Vec>, i: nat, got: seq<byte>)
    requires AllInBounds(vecs) && i < |vecs| && Orderly(vecs, i) && |got| <= vecs[i].limit - vecs[i].position
    ensures var v := vecs[i].(position := vecs[i].position + |got|);
            && AllInBounds(vecs[i := v])
            && Content(Splice(data, vecs[i].offset + vecs[i].position, got), vecs[i := v]) == Content(data, vecs) + got
    decreases |vecs|
  {
    hide Taken, Splice, Content;
    var v := vecs[i].(position := vecs[i].position + |got|);
    var after: FrameData := Splice(data, vecs[i].offset + vecs[i].position, got);
    var last := |vecs| - 1;
    TakenMore(data, vecs[i], got);
    ContentSnoc(data, vecs);
    ContentSnoc(after, vecs[i := v]);
    if i == last {
      ContentApart(data, vecs[..last], vecs[i], got);
      assert vecs[i := v][..last] == vecs[..last];
      assert Content(data, vecs[..last]) + (Taken(data, vecs[last]) + got)
          == Content(data, vecs[..last]) + Taken(data, vecs[last]) + got;
    } else {
      ReceiveExtends(data, vecs[..last], i, got);
      assert vecs[i := v][..last] == vecs[..last][i := v];
      assert Taken(data, vecs[last]) == [] && Taken(after, vecs[last]) == [];
    }
  }

  lemma ContentSnoc(data: FrameData, vecs: seq<Vec>)
    requires AllInBounds(vecs) && vecs != []
    ensures Content(data, vecs) == Content(data, vecs[..|vecs| - 1]) + Taken(data, vecs[|vecs| - 1])
  {
  }

  lemma {:induction false} ContentApart(data: FrameData, us: seq<Vec>, v: Vec, got: seq<byte>)
    requires AllInBounds(us) && InBounds(v) && |got| <= v.limit - v.position
    requires forall j :: 0 <= j < |us| ==> Disjoint(us[j], v)
    ensures Content(Splice(data, v.offset + v.position, got), us) == Content(data, us)
    decreases |us|
  {
    hide Taken;
    if us != [] {
      ContentApart(data, us[..|us| - 1], v, got);
      TakenApart(data, us[|us| - 1], v, got);
    }
  }

  /** In any frame, that much is taken in. */
  lemma {:induction false} ReceiveCounts(vecs: seq<Vec>, i: nat, n: nat)
    requires i < |vecs|
    ensures SumPositions(vecs[i := vecs[i].(position := vecs[i].position + n)]) == SumPositions(vecs) + n
    decreases |vecs|
  {
    var v, last := vecs[i].(position := vecs[i].position + n), |vecs| - 1;
    if i == last {
      assert vecs[i := v][..last] == vecs[..last];
    } else {
      ReceiveCounts(vecs[..last], i, n);
      assert vecs[i := v][..last] == vecs[..last][i := v];
    }
  }

  lemma StaysOrderly(vecs: seq<Vec>, i: nat, n: nat)
    requires i < |vecs| && Orderly(vecs, i)
    ensures var after := vecs[i := vecs[i].(position := vecs[i].position + n)];
            Orderly(after, i) && Orderly(after, i + 1)
  {
  }

  /** ft_frame_len: the sum over the vectors is the number of bytes the frame still holds. */
  method FrameLength(data: FrameData, vecs: seq<Vec>) returns (length: nat)
    requires AllInBounds(vecs)
    ensures length == |Pending(data, vecs, 0)|
  {
    length := 0;
    for i := 0 to |vecs|
      invariant length + |Pending(data, vecs, i)| == |Pending(data, vecs, 0)|
    {
      length := length + (vecs[i].limit - vecs[i].position);
    }
  }

  /** A second vector, even an empty one, is let into the last bytes of a simple frame. */
  lemma CreateMayOverlap()
    ensures var simple := [Vec(0, 0, FRAME_SIZE - VEC_SIZE, FRAME_SIZE - VEC_SIZE)];
            && AboveData(simple)
            && 0 + 0 <= Space(|simple| + 1)
            && !AboveData(simple + [Vec(0, 0, 0, 0)])
  {
    var simple := [Vec(0, 0, FRAME_SIZE - VEC_SIZE, FRAME_SIZE - VEC_SIZE)];
    assert (simple + [Vec(0, 0, 0, 0)])[0] == simple[0];
  }
}
