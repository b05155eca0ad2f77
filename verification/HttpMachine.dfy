/**
The loop of http_parser_execute: one object that changes its fields while it walks
over a piece of input, with the inner loops over header names and values and the
jumps over values and bodies.
*/
module HttpMachine {
  import opened Options
  import opened HttpSpec
  import opened HttpInvariant
  import opened HttpParser
  import opened HttpLane
  import opened HttpSteps

  /** How the loop over a header value ends. */
  datatype Exit = AtCr | AtLf | AtEnd | Invalid

  /** memchr */
  method Memchr(data: string, from: nat, limit: nat, c: char) returns (r: Option<nat>)
    requires from + limit <= |data|
    ensures r.None? ==> forall k :: from <= k < from + limit ==> data[k] != c
    ensures r.Some? ==> from <= r.value < from + limit && data[r.value] == c && forall k :: from <= k < r.value ==>
        data[k] != c
  {
    var i := from;
    while i < from + limit
      invariant from <= i <= from + limit
      invariant forall k :: from <= k < i ==> data[k] != c
    {
      if data[i] == c { return Some(i); }
      i := i + 1;
    }
    r := None;
  }

  /** The first line end within the size limit, or the end of the piece. */
  method LineEnd(data: string, from: nat) returns (q: nat)
    requires from < |data|
    ensures from <= q <= |data|
    ensures q < |data| ==> (data[q] == CR || data[q] == LF) && q - from < MAX_HEADER_SIZE
    ensures forall k :: from <= k < q && k - from < MAX_HEADER_SIZE ==> data[k] != CR && data[k] != LF
  {
    var limit := if |data| - from < MAX_HEADER_SIZE then |data| - from else MAX_HEADER_SIZE;
    var cr := Memchr(data, from, limit, CR);
    var lf := Memchr(data, from, limit, LF);
    if cr.Some? {
      q := if lf.Some? && cr.value >= lf.value then lf.value else cr.value;
    } else if lf.Some? {
      q := lf.value;
    } else {
      q := |data|;
    }
  }

  predicate AtLineEnd(data: string, p: nat)
    requires p <= |data|
  {
    p == |data| || data[p] == CR || data[p] == LF
  }

  class Machine {
    var it: Parser
    /** nread, a 32-bit counter. */
    var nread: nat
    var errno: Outcome
    /** What the callbacks have been told. */
    var out: seq<Event>

    /** http_parser_init */
    constructor (kind: Kind, lenient: bool)
      ensures it == Init(kind, lenient) && nread == 0 && errno == Fine && out == [] && Valid()
    {
      it := Init(kind, lenient);
      nread := 0;
      errno := Fine;
      out := [];
    }

    /** While there is no error: the asserts' invariant, and a chunk size begins with a fresh count. */
    predicate Valid()
      reads this
    {
      errno == Fine ==> Inv(it) && nread <= MAX_HEADER_SIZE && (it.state.ChunkSizeStart? ==> nread == 0)
    }

    /** COUNT_HEADER_SIZE */
    method CountHeaderSize(v: nat)
      requires errno == Fine
      modifies `nread, `errno
      ensures nread == (old(nread) + v) % WORD
      ensures errno == if nread <= MAX_HEADER_SIZE then Fine else Overflow
    {
      nread := (nread + v) % WORD;
      if nread > MAX_HEADER_SIZE { errno := Overflow; }
    }

    /** The loop of s_header_field. */
    method FieldLoop(data: string, at: nat, ghost b: Lane) returns (p: nat)
      requires Inv(it) && it.state.HeaderField? && at <= |data| && b.p == it && b.mode.Inside?
      modifies `it
      ensures at <= p <= |data| && it.state.HeaderField? && Inv(it)
      ensures Gathers(b, data[at..p], it, HeaderFieldName, Inside)
      ensures p < |data| ==> TokenOf(data[p]) == '\0'
    {
      hide Walk, TokenOf, FieldMatch, DataEvents, Gathers;
      p := at;
      GathersNothing(b, data, at, HeaderFieldName);
      while p < |data| && TokenOf(data[p]) != '\0'
        invariant at <= p <= |data| && it.state.HeaderField? && Inv(it)
        invariant Gathers(b, data[at..p], it, HeaderFieldName, Inside)
      {
        var (h, index) := FieldMatch(it.h, it.index, TokenOf(data[p]), data[p]);
        NameKeeps(it.h, it.index, TokenOf(data[p]), data[p]);
        NameMore(b, data, at, p, it);
        it := it.(h := h, index := index);
        p := p + 1;
      }
    }

    /**
    The loop of s_header_value.  The header state is a local variable while it runs;
    a value that no longer matters is skipped up to its line end.
    */
    method ValueLoop(data: string, at: nat, ghost b: Lane) returns (r: Exit, p: nat, ghost mode: Mode)
      requires Inv(it) && it.state.HeaderValue? && at <= |data| && b.p == it && b.mode.Inside? && b.n > 0
      modifies `it
      ensures at <= p <= |data| && it.state.HeaderValue? && (r.AtEnd? <==> p == |data|)
      ensures !r.Invalid? ==> Inv(it) && !mode.Outside?
      ensures r.AtCr? ==> data[p] == CR
      ensures r.AtLf? ==> data[p] == LF
      ensures r.Invalid? ==> Walk(b, data[at..p + 1]) == Stopped(Failed)
      ensures !r.Invalid? ==>
                Gathers(b, data[at..p], it, HeaderFieldValue, mode)
                || (r.AtEnd? && p - at >= MAX_HEADER_SIZE && Piece(b, data[at..]) == Stopped(Overflow))
    {
      hide Walk, Inv, IsHeaderChar, Lower, DataEvents, ValueMatch, Gathers;
      var h := it.h;
      p := at;
      mode := Inside;
      GathersNothing(b, data, at, HeaderFieldValue);
      assert it == it.(h := h);
      ghost var long := false;
      while p < |data|
        invariant at <= p <= |data| && it.state.HeaderValue? && Inv(it.(h := h))
        invariant mode.Inside? || (mode.Skipping? && AtLineEnd(data, p))
        invariant !long ==> Gathers(b, data[at..p], it.(h := h), HeaderFieldValue, mode)
        invariant long ==> p == |data| && p - at >= MAX_HEADER_SIZE && Piece(b, data[at..]) == Stopped(Overflow)
        decreases |data| - p
      {
        var ch := data[p];
        ghost var now := it.(h := h);
        if ch == CR {
          it := it.(h := h);
          return AtCr, p, mode;
        }
        if ch == LF {
          it := it.(h := h);
          return AtLf, p, mode;
        }
        ValueMore(b, data, at, p, now, mode);
        if !it.lenient && !IsHeaderChar(ch) {
          return Invalid, p, mode;
        }
        if h == General {
          var end := LineEnd(data, p);
          if end == |data| && end - p >= MAX_HEADER_SIZE {
            JumpOverflows(b, data, at, p, now);
            long := true;
          } else {
            JumpGathers(b, data, at, p, end, now);
          }
          mode := Skipping;
          p := end;
        } else {
          var v := ValueMatch(ValueOf(it).(h := h), ch);
          if v.None? {
            it := it.(h := h);
            return Invalid, p, mode;
          }
          ValueKeeps(now, ch);
          it := it.(index := v.value.index, flags := v.value.flags, length := v.value.length);
          h := v.value.h;
          p := p + 1;
        }
      }
      it := it.(h := h);
      r := AtEnd;
    }

    /** The code behind the label reexecute, for the states that look at one byte. */
    method Dispatch(data: string, at: nat, m: Marks) returns (n: Marks)
      requires errno.Fine? && Inv(it) && !IsBulk(it.state) && at < |data| && MarksFit(m, it.state, at)
      requires it.state.ChunkSizeStart? ==> nread == 1
      modifies `it, `nread, `errno, `out
      ensures nread == if Resets(old(it), data[at]) then 0 else old(nread)
      ensures errno == if Byte(old(it), data[at]).Some? then Fine else Failed
      ensures errno.Fine? ==>
                && it == Byte(old(it), data[at]).value.p && Inv(it) && MarksFit(n, it.state, at + 1)
                && (it.state.ChunkSizeStart? ==> nread == 0)
                && out + Pending(n, data, at + 1) == old(out) + Pending(m, data, at)
                    + Byte(old(it), data[at]).value.events
    {
      hide Switch, Byte, Inv, MarksFit, Pending, Marked, Settle, FieldAt, IsBulk, Rank, Resets, ResetsCount;
      var ch := data[at];
      ghost var told: seq<Event> := [];
      n := m;
      assert old(out) + Pending(m, data, at) + told == old(out) + Pending(m, data, at);
      if Byte(it, ch).Some? { assert told + Byte(it, ch).value.events == Byte(it, ch).value.events; }
      while true
        invariant errno.Fine? && Inv(it) && !IsBulk(it.state) && MarksFit(n, it.state, at) && nread == old(nread)
        invariant it.state.ChunkSizeStart? ==> nread == 1
        invariant Byte(old(it), ch) == Then(Step(it, told), Byte(it, ch)) && Resets(old(it), ch) == Resets(it, ch)
        invariant out + Pending(n, data, at) == old(out) + Pending(m, data, at) + told
        decreases Rank(it.state)
      {
        AssertsHold(it);
        Arrivals(it, ch);
        ResetsStep(it, ch);
        match Switch(it, ch)
        case Fail =>
          ByteFails(it, ch);
          errno := Failed;
          return;
        case Again(q, events) =>
          PassAgain(it, ch);
          ThenIsAssociative(Step(it, told), Step(q, events), Byte(q, ch));
          AgainIsUnmarked(it, ch, n, at);
          NoMarksNothingPending(data, at);
          SwitchKeeps(it, ch);
          assert out + [] == out && out + events + [] == out + events;
          assert old(out) + Pending(m, data, at) + (told + events) == out + events;
          told := told + events;
          out := out + events;
          it := q;
        case Done(q, events) =>
          PassEvents(it, ch);
          PassEnds(it, ch, n, data, at);
          SwitchKeeps(it, ch);
          if ResetsCount(it.state) { nread := 0; }
          var report := if FieldAt(it.state).Some? && FieldAt(q.state) == FieldAt(it.state) then []
              else Pending(n, data, at);
          Regroup(out, report, events, Pending(Settle(n, q.state, at), data, at + 1), Pending(n, data, at),
                  events + Marked(q.state, ch), old(out) + Pending(m, data, at), told);
          out := out + report + events;
          n := Settle(n, q.state, at);
          it := q;
          return;
      }
    }

    /** s_header_field */
    method NameTurn(data: string, at: nat, m: Marks, ghost l: Lane) returns (next: nat, n: Marks)
      requires errno.Fine? && Inv(it) && it.state.HeaderField? && at < |data| && MarksFit(m, it.state, at)
      requires nread <= MAX_HEADER_SIZE && Entered(l, it, out + Pending(m, data, at), nread)
      modifies this
      ensures at < next <= |data| && Valid() && nread <= old(nread) + (next - at)
      ensures errno.Overflow? ==> nread > MAX_HEADER_SIZE
      ensures errno.Fine? ==> MarksFit(n, it.state, next)
      ensures Rolls(l, data, at, next, errno, it, out + Pending(n, data, next), nread)
    {
      hide Walk, Begin, Take, Inv, Pending, DataEvents, TokenOf, Rolls, Gathers;
      n := m;
      ghost var b := Begin(l).lane;
      var p := FieldLoop(data, at, b);
      PendingGrows(m, it.state, data, at, p, HeaderFieldName);
      Grouped(out, Pending(m, data, at), DataEvents(HeaderFieldName, data[at..p]));
      CountHeaderSize(p - at);
      next := if p == |data| then p else p + 1;
      ghost var was := it;
      if p == |data| {
        LoopCloses(l, b, data, at, it, HeaderFieldName, Inside, errno, out + Pending(m, data, p), nread);
        return;
      }
      if errno.Fine? {
        PendingIs(m, it.state, data, p);
        if data[p] == ':' {
          it := it.(state := HeaderValueDiscardWs);
          out := out + DataEvents(HeaderFieldName, data[m.field.value..p]);
          n := m.(field := None);
          PendingIs(n, it.state, data, next);
          assert out + [] == out;
          InvAfterLine(was, it);
        } else {
          errno := Failed;
        }
      }
      NameTake(Reached(b, data[at..p], was, HeaderFieldName, Inside), data[p]);
      LoopLeaves(l, b, data, at, p, was, HeaderFieldName, Inside, errno, it, out + Pending(n, data, next), nread);
    }

    /** s_header_value */
    method ValueTurn(data: string, at: nat, m: Marks, ghost l: Lane) returns (next: nat, n: Marks)
      requires errno.Fine? && Inv(it) && it.state.HeaderValue? && at < |data| && MarksFit(m, it.state, at)
      requires 0 < nread <= MAX_HEADER_SIZE && Entered(l, it, out + Pending(m, data, at), nread)
      modifies this
      ensures at < next <= |data| && Valid() && nread <= old(nread) + (next - at)
      ensures errno.Overflow? ==> nread > MAX_HEADER_SIZE
      ensures errno.Fine? ==> MarksFit(n, it.state, next)
      ensures Rolls(l, data, at, next, errno, it, out + Pending(n, data, next), nread)
    {
      hide Walk, Begin, Take, Inv, Pending, DataEvents, Rolls, Gathers;
      n := m;
      ghost var b := Begin(l).lane;
      var r, p, mode := ValueLoop(data, at, b);
      next := if r.AtEnd? then p else p + 1;
      if r.Invalid? {
        errno := Failed;
        LoopFails(l, b, data, at, next, it, out + Pending(n, data, next), nread);
        return;
      }
      ghost var was := it;
      PendingGrows(m, it.state, data, at, p, HeaderFieldValue);
      Grouped(out, Pending(m, data, at), DataEvents(HeaderFieldValue, data[at..p]));
      CountHeaderSize(p - at);
      if r.AtEnd? {
        if Gathers(b, data[at..p], it, HeaderFieldValue, mode) {
          LoopCloses(l, b, data, at, it, HeaderFieldValue, mode, errno, out + Pending(m, data, p), nread);
        } else {
          LongRolls(l, b, data, at, errno, it, out + Pending(n, data, next), old(nread), nread);
        }
        return;
      }
      if errno.Fine? {
        n := EndValue(data, p, m);
      }
      ValueTake(Reached(b, data[at..p], was, HeaderFieldValue, mode), data[p]);
      LoopLeaves(l, b, data, at, p, was, HeaderFieldValue, mode, errno, it, out + Pending(n, data, next), nread);
    }

    /** The line end behind a header value. */
    method EndValue(data: string, p: nat, m: Marks) returns (n: Marks)
      requires errno.Fine? && Inv(it) && it.state.HeaderValue? && p < |data| && MarksFit(m, it.state, p)
      requires data[p] == CR || data[p] == LF
      modifies `it, `nread, `errno, `out
      ensures errno.Fine? && nread == old(nread) && Inv(it) && MarksFit(n, it.state, p + 1)
      ensures it == old(it).(state := if data[p] == CR then HeaderAlmostDone else HeaderValueLws)
      ensures out + Pending(n, data, p + 1) == old(out) + Pending(m, data, p)
    {
      hide Byte, Inv, Pending, DataEvents, Resets, IsHeaderChar;
      PendingIs(m, it.state, data, p);
      InvAfterLine(it, it.(state := HeaderAlmostDone));
      it := it.(state := HeaderAlmostDone);
      out := out + DataEvents(HeaderFieldValue, data[m.value.value..p]);
      n := m.(value := None);
      PendingIs(n, it.state, data, p);
      PendingIs(n, it.state, data, p + 1);
      assert out + [] == out;
      if data[p] == LF {
        LineFeedIsDone(it, data[p]);
        LineFeedNeverResets(it);
        n := Dispatch(data, p, n);
        assert old(out) + Pending(m, data, p) + [] + [] == old(out) + Pending(m, data, p);
      }
    }

    /** s_chunk_data: jump over what the piece holds of the chunk. */
    method ChunkTurn(data: string, at: nat, m: Marks, ghost l: Lane) returns (next: nat, n: Marks)
      requires errno.Fine? && Inv(it) && it.state.ChunkData? && at < |data| && MarksFit(m, it.state, at)
      requires nread <= MAX_HEADER_SIZE && Entered(l, it, out + Pending(m, data, at), nread)
      modifies `it
      ensures at < next <= |data| && Valid() && MarksFit(n, it.state, next)
      ensures Rolls(l, data, at, next, errno, it, out + Pending(n, data, next), nread)
    {
      hide Walk, Pending, DataEvents, Rolls;
      AssertsHold(it);
      var toRead := if it.length < |data| - at then it.length else |data| - at;
      n := Mark(m, it.state, data, at);
      next := at + toRead;
      BodyStretch(l, data, at, next);
      PendingGrows(n, it.state, data, at, next, Body);
      Grouped(out, Pending(n, data, at), DataEvents(Body, data[at..next]));
      it := it.(length := it.length - toRead);
      if it.length == 0 { it := it.(state := ChunkDataAlmostDone); }
      BodyRolls(l, data, at, next, it, out + Pending(n, data, next));
    }

    /** s_body_identity_eof: everything that is left. */
    method EofTurn(data: string, at: nat, m: Marks, ghost l: Lane) returns (next: nat, n: Marks)
      requires errno.Fine? && Inv(it) && it.state.BodyIdentityEof? && at < |data| && MarksFit(m, it.state, at)
      requires nread <= MAX_HEADER_SIZE && Entered(l, it, out + Pending(m, data, at), nread)
      ensures next == |data| && Valid() && MarksFit(n, it.state, next)
      ensures Rolls(l, data, at, next, errno, it, out + Pending(n, data, next), nread)
    {
      hide Walk, Pending, DataEvents, Rolls;
      n := Mark(m, it.state, data, at);
      next := |data|;
      BodyStretch(l, data, at, next);
      PendingGrows(n, it.state, data, at, next, Body);
      Grouped(out, Pending(n, data, at), DataEvents(Body, data[at..next]));
      BodyRolls(l, data, at, next, it, out + Pending(n, data, next));
    }

    /** The last byte of a body of known length is looked at again, to end the message. */
    method EndBody(data: string, last: nat, m: Marks) returns (n: Marks)
      requires errno.Fine? && it.state.BodyIdentity? && it.length == 0 && Inv(it.(length := 1))
      requires last < |data| && MarksFit(m, it.state, last) && m.body.Some?
      modifies this
      ensures nread == old(nread)
      ensures var whole := Byte(old(it).(length := 1), data[last]);
              && errno == (if whole.Some? then Fine else Failed)
              && (errno.Fine? ==>
                   && it == whole.value.p && Inv(it) && MarksFit(n, it.state, last + 1)
                       && (it.state.ChunkSizeStart? ==> nread == 0)
                   && out + Pending(n, data, last + 1) == old(out) + Pending(m, data, last) + whole.value.events)
    {
      hide Byte, Inv, Pending, DataEvents, Resets;
      ghost var mid := it.(length := 1);
      PendingIs(m, it.state, data, last);
      BodyAndOne(data, m.body.value, last);
      it := it.(state := MessageDone);
      ghost var was := it;
      InvAfterBody(mid, it);
      LastAgain(mid, data[last]);
      DoneNeverResets(it, data[last]);
      out := out + DataEvents(Body, data[m.body.value..last + 1]);
      assert out == old(out) + Pending(m, data, last) + [Data(Body, data[last])];
      n := m.(body := None);
      PendingIs(n, it.state, data, last);
      assert out + [] == out;
      n := Dispatch(data, last, n);
      if Byte(was, data[last]).Some? {
        Grouped(old(out) + Pending(m, data, last), [Data(Body, data[last])], Byte(was, data[last]).value.events);
      }
    }

    /** s_body_identity: jump over what the piece holds of the body, whose last byte also ends the message. */
    method IdentityTurn(data: string, at: nat, m: Marks, ghost l: Lane) returns (next: nat, n: Marks)
      requires errno.Fine? && Inv(it) && it.state.BodyIdentity? && at < |data| && MarksFit(m, it.state, at)
      requires nread <= MAX_HEADER_SIZE && Entered(l, it, out + Pending(m, data, at), nread)
      modifies this
      ensures at < next <= |data| && Valid() && nread <= old(nread) && !errno.Overflow?
      ensures errno.Fine? ==> MarksFit(n, it.state, next)
      ensures Rolls(l, data, at, next, errno, it, out + Pending(n, data, next), nread)
    {
      hide Walk, Byte, Pending, DataEvents, Rolls, Resets;
      AssertsHold(it);
      var toRead := if it.length < |data| - at then it.length else |data| - at;
      n := Mark(m, it.state, data, at);
      next := at + toRead;
      ghost var last := if toRead == it.length then next - 1 else next;
      ghost var mid := it.(length := it.length - (last - at));
      BodyStretch(l, data, at, last);
      PendingGrows(n, it.state, data, at, last, Body);
      Grouped(out, Pending(n, data, at), DataEvents(Body, data[at..last]));
      ghost var told := out + Pending(n, data, last);
      it := it.(length := it.length - toRead);
      if it.length == 0 {
        n := EndBody(data, next - 1, n);
        BodyEnds(l, data, at, last, mid, told, errno, it, out + Pending(n, data, next), nread);
      } else {
        BodyRolls(l, data, at, next, it, told);
      }
    }

    /** The states that look at one byte. */
    method ByteTurn(data: string, at: nat, m: Marks, ghost l: Lane) returns (next: nat, n: Marks)
      requires errno.Fine? && Inv(it) && !IsBulk(it.state) && at < |data| && MarksFit(m, it.state, at)
      requires nread <= MAX_HEADER_SIZE && Entered(l, it, out + Pending(m, data, at), nread)
      requires it.state.ChunkSizeStart? ==> nread == 1
      modifies this
      ensures next == at + 1 && Valid() && nread <= old(nread) && !errno.Overflow?
      ensures errno.Fine? ==> MarksFit(n, it.state, next)
      ensures Rolls(l, data, at, next, errno, it, out + Pending(n, data, next), nread)
    {
      hide Walk, Byte, Pending, DataEvents, Inv, MarksFit, Resets, Rolls, Entered;
      next := at + 1;
      n := Dispatch(data, at, m);
      ByteRolls(l, data, at, old(it), old(out) + Pending(m, data, at), old(nread), errno, it,
                out + Pending(n, data, next), nread);
    }

    /** The body states among them. */
    method BodyTurn(data: string, at: nat, m: Marks, ghost l: Lane) returns (next: nat, n: Marks)
      requires errno.Fine? && Inv(it) && IsBody(it.state) && at < |data| && MarksFit(m, it.state, at)
      requires nread <= MAX_HEADER_SIZE && Entered(l, it, out + Pending(m, data, at), nread)
      modifies this
      ensures at < next <= |data| && Valid() && nread <= old(nread) && !errno.Overflow?
      ensures errno.Fine? ==> MarksFit(n, it.state, next)
      ensures Rolls(l, data, at, next, errno, it, out + Pending(n, data, next), nread)
    {
      hide Walk, Byte, Pending, DataEvents, Inv, MarksFit, Valid, Entered, Rolls;
      if it.state.BodyIdentity? {
        next, n := IdentityTurn(data, at, m, l);
      } else if it.state.BodyIdentityEof? {
        next, n := EofTurn(data, at, m, l);
      } else {
        next, n := ChunkTurn(data, at, m, l);
      }
    }

    /** The switch. */
    method Enter(data: string, at: nat, m: Marks, ghost l: Lane) returns (next: nat, n: Marks)
      requires errno.Fine? && Inv(it) && at < |data| && MarksFit(m, it.state, at) && nread <= MAX_HEADER_SIZE
      requires Entered(l, it, out + Pending(m, data, at), nread)
      requires (it.state.ChunkSizeStart? ==> nread == 1) && (ParsingHeader(it.state) ==> nread > 0)
      modifies this
      ensures at < next <= |data| && Valid() && nread <= old(nread) + (next - at)
      ensures errno.Overflow? ==> nread > MAX_HEADER_SIZE
      ensures errno.Fine? ==> MarksFit(n, it.state, next)
      ensures Rolls(l, data, at, next, errno, it, out + Pending(n, data, next), nread)
    {
      hide Walk, Byte, Pending, DataEvents, Inv, MarksFit, Valid, Entered, Rolls;
      if it.state.HeaderField? {
        next, n := NameTurn(data, at, m, l);
      } else if it.state.HeaderValue? {
        next, n := ValueTurn(data, at, m, l);
      } else if IsBulk(it.state) {
        next, n := BodyTurn(data, at, m, l);
      } else {
        next, n := ByteTurn(data, at, m, l);
      }
    }

    /** One round of the outer loop. */
    method Turn(data: string, at: nat, m: Marks) returns (next: nat, n: Marks)
      requires errno.Fine? && Valid() && at < |data| && MarksFit(m, it.state, at)
      modifies this
      ensures at < next <= |data| && Valid() && nread <= old(nread) + 2 * (next - at)
      ensures errno.Overflow? ==> nread > MAX_HEADER_SIZE
      ensures errno.Fine? ==> MarksFit(n, it.state, next)
      ensures Rolls(old(Stand(m, data, at)), data, at, next, errno, it, out + Pending(n, data, next), nread)
    {
      hide Walk, Byte, Pending, DataEvents, Inv, MarksFit, Rolls;
      ghost var l := Stand(m, data, at);
      if ParsingHeader(it.state) {
        CountHeaderSize(1);
        if !errno.Fine? {
          n, next := m, at + 1;
          TopRolls(l, data, at, it, out + Pending(n, data, next), nread);
          return;
        }
      }
      next, n := Enter(data, at, m, l);
    }

    /** The object before byte number at, with the data its marks hold counted as told. */
    ghost function Stand(m: Marks, data: string, at: nat): Lane
      reads this
    {
      Lane(it, out + Pending(m, data, at), nread, Outside)
    }

    /** The object between two pieces. */
    ghost function Now(): Lane
      reads this
    {
      Lane(it, out, nread, Outside)
    }

    /** The object has come to where a walk ends. */
    ghost predicate Is(t: Track)
      reads this
    {
      match t
      case At(l) => errno.Fine? && Now() == l
      case Stopped(e) => errno == e && !e.Fine?
    }

    /**
    http_parser_execute does to a piece what its bytes do one by one, and the end of
    the piece: error, parser, count and all that is told.
    */
    method Execute(data: string)
      requires Valid()
      modifies this
      ensures Valid() && (!old(errno).Fine? ==> unchanged(this))
      ensures old(errno).Fine? && data != [] && |data| + MAX_HEADER_SIZE < WORD ==> Is(Piece(old(Now()), data))
      ensures old(errno).Fine? ==> nread <= old(nread) + 2 * |data|
      ensures old(errno).Fine? && errno.Overflow? ==> nread > MAX_HEADER_SIZE
      ensures old(errno).Fine? && data == [] ==>
                && it == old(it) && out == old(out) + (if it.state.BodyIdentityEof? then [MessageComplete] else [])
                && nread == old(nread) && (errno.Fine? <==> BetweenMessages(it.state)) && !errno.Overflow?
    {
      hide Walk, Byte, Pending, DataEvents, Inv, MarksFit, Rolls, Piece;
      if !errno.Fine? { return; }
      if data == [] {
        if it.state.BodyIdentityEof? { out := out + [MessageComplete]; }
        if !BetweenMessages(it.state) { errno := Failed; }
        return;
      }
      var m := MarksAtStart(it.state);
      var at := 0;
      ghost var first, good := Now(), |data| + MAX_HEADER_SIZE < WORD;
      NothingPending(it.state, data);
      WalkStarts(first, data);
      assert out + [] == out;
      while at < |data|
        invariant at <= |data| && errno.Fine? && Valid() && nread <= old(nread) + 2 * at
        invariant MarksFit(m, it.state, at)
        invariant good && at < |data| ==> Walk(first, data[..at]) == At(Stand(m, data, at))
        invariant good && at == |data| ==> Piece(first, data) == At(Stand(m, data, at))
      {
        ghost var l := Stand(m, data, at);
        var next, n := Turn(data, at, m);
        if good { TurnExtends(first, data, at, next, l, errno, it, out + Pending(n, data, next), nread); }
        if !errno.Fine? { return; }
        at, m := next, n;
      }
      AtMostOneMark(m, it.state, at);
      out := out + Pending(m, data, at);
    }

    /** Piece after piece, as the stream delivers them. */
    method Feed(pieces: seq<string>)
      requires Valid() && errno.Fine? && forall s :: s in pieces ==> s != [] && |s| + MAX_HEADER_SIZE < WORD
      modifies this
      ensures Valid() && Is(Pieces(old(Now()), pieces))
      ensures errno.Overflow? ==> old(nread) + 2 * |Flatten(pieces)| > MAX_HEADER_SIZE
    {
      hide Inv, Piece;
      ghost var first := Now();
      for i := 0 to |pieces|
        invariant Valid() && Is(Pieces(first, pieces[..i]))
        invariant errno.Fine? ==> nread <= old(nread) + 2 * |Flatten(pieces[..i])|
        invariant errno.Overflow? ==> old(nread) + 2 * |Flatten(pieces[..i])| > MAX_HEADER_SIZE
      {
        FlattenAt(pieces, i);
        assert pieces[..i + 1][..i] == pieces[..i];
        Execute(pieces[i]);
      }
      assert pieces[..|pieces|] == pieces;
    }
  }
}
