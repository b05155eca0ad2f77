/**
What one round of the loop of http_parser_execute does to a piece of input, against
what the bytes of the piece do one by one.
*/
module HttpSteps {
  import opened Options
  import opened HttpSpec
  import opened HttpInvariant
  import opened HttpParser
  import opened HttpLane

  /** nread is an unsigned 32-bit number. */
  const WORD: nat := 0x1_0000_0000

  // ---------------------------------------------------------------------------
  // Loops over header bytes
  // ---------------------------------------------------------------------------

  /** Where a loop that began as b stands behind s, all of it data of field f. */
  function Reached(b: Lane, s: string, q: Parser, f: Field, mode: Mode): Lane {
    Lane(q, b.events + DataEvents(f, s), b.n + |s|, mode)
  }

  /** The loop that began as b takes all of s. */
  ghost predicate Gathers(b: Lane, s: string, q: Parser, f: Field, mode: Mode) {
    Walk(b, s) == At(Reached(b, s, q, f, mode))
  }

  lemma GathersNothing(b: Lane, data: string, i: nat, f: Field)
    requires i <= |data|
    ensures Gathers(b, data[i..i], b.p, f, b.mode)
  {
    assert data[i..i] == [] && b.events + [] == b.events;
  }

  lemma GathersMore(b: Lane, data: string, i: nat, j: nat, q: Parser, mode: Mode, r: Parser, next: Mode, f: Field)
    requires i <= j < |data| && Gathers(b, data[i..j], q, f, mode)
    requires var l := Reached(b, data[i..j], q, f, mode);
             Take(l, data[j]) == At(Lane(r, l.events + [Data(f, data[j])], l.n + 1, next))
    ensures Gathers(b, data[i..j + 1], r, f, next)
  {
    hide Take, Walk;
    assert data[i..j + 1] == data[i..j] + [data[j]];
    WalkSnoc(b, data[i..j], data[j]);
    DataSnoc(f, data[i..j], data[j]);
    Grouped(b.events, DataEvents(f, data[i..j]), [Data(f, data[j])]);
  }

  /** One byte of a name, or the byte behind it. */
  lemma NameTake(l: Lane, ch: char)
    requires l.p.state.HeaderField? && l.mode.Inside?
    ensures Take(l, ch) == InName(l, ch)
  {
    hide InName;
  }

  lemma ValueTake(l: Lane, ch: char)
    requires l.p.state.HeaderValue? && !l.mode.Outside?
    ensures Take(l, ch) == InValue(l, ch)
  {
    hide InValue;
  }

  lemma NameMore(b: Lane, data: string, at: nat, i: nat, q: Parser)
    requires at <= i < |data| && Gathers(b, data[at..i], q, HeaderFieldName, Inside)
    requires q.state.HeaderField? && TokenOf(data[i]) != '\0'
    ensures var (h, index) := FieldMatch(q.h, q.index, TokenOf(data[i]), data[i]);
            Gathers(b, data[at..i + 1], q.(h := h, index := index), HeaderFieldName, Inside)
  {
    hide Walk, TokenOf, FieldMatch, DataEvents, Gathers;
    var (h, index) := FieldMatch(q.h, q.index, TokenOf(data[i]), data[i]);
    NameTake(Reached(b, data[at..i], q, HeaderFieldName, Inside), data[i]);
    GathersMore(b, data, at, i, q, Inside, q.(h := h, index := index), Inside, HeaderFieldName);
  }

  /** A byte of a value in the loop that does not end the line. */
  lemma ValueMore(b: Lane, data: string, at: nat, i: nat, q: Parser, mode: Mode)
    requires at <= i < |data| && Gathers(b, data[at..i], q, HeaderFieldValue, mode) && !mode.Outside?
    requires q.state.HeaderValue? && data[i] != CR && data[i] != LF
    ensures var v := ValueMatch(ValueOf(q), data[i]);
            if (!mode.Skipping? && !q.lenient && !IsHeaderChar(data[i])) || v.None?
            then Walk(b, data[at..i + 1]) == Stopped(Failed)
            else Gathers(b, data[at..i + 1], WithValue(q, v.value), HeaderFieldValue,
                         if q.h.General? then Skipping else Inside)
  {
    hide Walk, IsHeaderChar, ValueMatch, DataEvents;
    var l := Reached(b, data[at..i], q, HeaderFieldValue, mode);
    ValueTake(l, data[i]);
    var v := ValueMatch(ValueOf(q), data[i]);
    if (!mode.Skipping? && !q.lenient && !IsHeaderChar(data[i])) || v.None? {
      assert data[at..i + 1] == data[at..i] + [data[i]];
      WalkSnoc(b, data[at..i], data[i]);
    } else {
      GathersMore(b, data, at, i, q, mode, WithValue(q, v.value), if q.h.General? then Skipping else Inside,
                  HeaderFieldValue);
    }
  }

  lemma GeneralMatch(p: Parser, c: char)
    requires p.h.General?
    ensures ValueMatch(ValueOf(p), c) == Some(ValueOf(p)) && WithValue(p, ValueOf(p)) == p
  {
  }

  /** The jump to the end of the line, for bytes that are not looked at but for the first. */
  lemma {:induction false} JumpGathers(b: Lane, data: string, at: nat, i: nat, j: nat, q: Parser)
    requires at <= i < j <= |data| && Gathers(b, data[at..i], q, HeaderFieldValue, Inside)
    requires q.state.HeaderValue? && q.h.General? && (q.lenient || IsHeaderChar(data[i]))
    requires forall k :: i <= k < j ==> data[k] != CR && data[k] != LF
    ensures Gathers(b, data[at..j], q, HeaderFieldValue, Skipping)
    decreases j
  {
    hide Walk, IsHeaderChar, ValueMatch, DataEvents, Gathers;
    GeneralMatch(q, data[j - 1]);
    if j == i + 1 {
      ValueMore(b, data, at, i, q, Inside);
    } else {
      JumpGathers(b, data, at, i, j - 1, q);
      ValueMore(b, data, at, j - 1, q, Skipping);
    }
  }

  /** A jump that began beyond the limit ends there, wherever it ends. */
  lemma {:induction false} LongJump(l: Lane, s: string)
    requires l.mode.Skipping? && l.p.state.HeaderValue? && l.p.h.General? && l.n > MAX_HEADER_SIZE
    ensures match Walk(l, s)
            case At(m) => m.mode.Skipping? && m.p == l.p && m.n > MAX_HEADER_SIZE
            case Stopped(e) => e == Overflow
    decreases |s|
  {
    hide IsHeaderChar, ValueMatch;
    if s != [] {
      LongJump(l, s[..|s| - 1]);
      var before := Walk(l, s[..|s| - 1]);
      if before.At? {
        ValueTake(before.lane, s[|s| - 1]);
        GeneralMatch(l.p, s[|s| - 1]);
      }
    }
  }

  /** The jump leaves the piece although a line end lies beyond the bytes it searched: the header is too long. */
  lemma JumpOverflows(b: Lane, data: string, at: nat, i: nat, q: Parser)
    requires at <= i < |data| && Gathers(b, data[at..i], q, HeaderFieldValue, Inside) && b.n > 0
    requires q.state.HeaderValue? && q.h.General? && (q.lenient || IsHeaderChar(data[i]))
    requires i + MAX_HEADER_SIZE <= |data|
    requires forall k :: i <= k < i + MAX_HEADER_SIZE ==> data[k] != CR && data[k] != LF
    ensures Piece(b, data[at..]) == Stopped(Overflow)
  {
    hide Walk, IsHeaderChar, DataEvents;
    var j := i + MAX_HEADER_SIZE;
    JumpGathers(b, data, at, i, j, q);
    LongJump(Walk(b, data[at..j]).lane, data[j..]);
    assert data[at..] == data[at..j] + data[j..];
    PieceConcat(b, data[at..j], data[j..]);
  }

  // ---------------------------------------------------------------------------
  // Turns of the loop
  // ---------------------------------------------------------------------------

  /** The walk over a part of the piece, which may be its end. */
  function Ends(l: Lane, s: string, last: bool): Track {
    if last then Piece(l, s) else Walk(l, s)
  }

  /** A turn from at to next does what its bytes do one by one, if nread has the room of one piece. */
  ghost predicate Rolls(l: Lane, data: string, at: nat, next: nat, errno: Outcome, q: Parser, told: seq<Event>, n: nat)
    requires at <= next <= |data|
  {
    |data| + MAX_HEADER_SIZE < WORD ==>
      Ends(l, data[at..next], next == |data|) ==
        if errno.Fine? then At(Lane(q, told, n, Outside)) else Stopped(errno)
  }

  /** What the top of the outer loop leaves. */
  ghost predicate Entered(l: Lane, q: Parser, told: seq<Event>, n: nat) {
    l.mode.Outside? && Begin(l) == At(Lane(q, told, n, if InLoop(q.state) then Inside else Outside))
  }

  lemma EndsBegun(l: Lane, b: Lane, s: string, last: bool)
    requires Begin(l) == At(b) && !b.mode.Outside? && s != []
    ensures Ends(l, s, last) == Ends(b, s, last)
  {
    hide Walk, Begin;
    WalkBegun(l, b, s);
  }

  /** A loop over a name or value that reaches the end of the piece. */
  lemma LoopCloses(l: Lane, b: Lane, data: string, at: nat, q: Parser, f: Field, mode: Mode, errno: Outcome,
                   told: seq<Event>, n: nat)
    requires Begin(l) == At(b) && !b.mode.Outside? && at < |data| && !mode.Outside?
    requires Gathers(b, data[at..|data|], q, f, mode)
    requires |data| + MAX_HEADER_SIZE < WORD ==> n == b.n + (|data| - at)
    requires errno == if n > MAX_HEADER_SIZE then Overflow else Fine
    requires told == b.events + DataEvents(f, data[at..|data|])
    ensures Rolls(l, data, at, |data|, errno, q, told, n)
  {
    hide Walk, Begin, DataEvents;
    EndsBegun(l, b, data[at..|data|], true);
  }

  /** A loop over a name or value that ends with a byte of the piece. */
  lemma LoopLeaves(l: Lane, b: Lane, data: string, at: nat, i: nat, was: Parser, f: Field, mode: Mode, errno: Outcome,
                   q: Parser, told: seq<Event>, n: nat)
    requires Begin(l) == At(b) && !b.mode.Outside? && at <= i < |data| && !mode.Outside?
    requires Gathers(b, data[at..i], was, f, mode)
    requires |data| + MAX_HEADER_SIZE < WORD ==>
               Take(Reached(b, data[at..i], was, f, mode), data[i]) ==
                 if errno.Fine? then At(Lane(q, told, n, Outside)) else Stopped(errno)
    ensures Rolls(l, data, at, i + 1, errno, q, told, n)
  {
    hide Walk, Begin, Take, DataEvents;
    assert data[at..i + 1] == data[at..i] + [data[i]];
    WalkSnoc(b, data[at..i], data[i]);
    EndsBegun(l, b, data[at..i + 1], i + 1 == |data|);
  }

  /** A loop over a value that ends at a byte it refuses. */
  lemma LoopFails(l: Lane, b: Lane, data: string, at: nat, next: nat, q: Parser, told: seq<Event>, n: nat)
    requires Begin(l) == At(b) && !b.mode.Outside? && at < next <= |data|
    requires Walk(b, data[at..next]) == Stopped(Failed)
    ensures Rolls(l, data, at, next, Failed, q, told, n)
  {
    hide Walk, Begin;
    EndsBegun(l, b, data[at..next], next == |data|);
  }

  /** A loop over a value that jumped out of the piece beyond the limit. */
  lemma LoopOverflows(l: Lane, b: Lane, data: string, at: nat, q: Parser, told: seq<Event>, n: nat)
    requires Begin(l) == At(b) && !b.mode.Outside? && at < |data|
    requires Piece(b, data[at..]) == Stopped(Overflow)
    ensures Rolls(l, data, at, |data|, Overflow, q, told, n)
  {
    hide Walk, Begin;
    assert data[at..] == data[at..|data|];
    EndsBegun(l, b, data[at..|data|], true);
  }

  lemma LongRolls(l: Lane, b: Lane, data: string, at: nat, errno: Outcome, q: Parser, told: seq<Event>, m: nat, n: nat)
    requires Begin(l) == At(b) && !b.mode.Outside? && at < |data| && 0 < m <= MAX_HEADER_SIZE
    requires |data| - at >= MAX_HEADER_SIZE && Piece(b, data[at..]) == Stopped(Overflow)
    requires n == (m + (|data| - at)) % WORD && errno == if n <= MAX_HEADER_SIZE then Fine else Overflow
    ensures Rolls(l, data, at, |data|, errno, q, told, n)
  {
    hide Walk, Begin, Piece;
    if |data| + MAX_HEADER_SIZE < WORD { LoopOverflows(l, b, data, at, q, told, n); }
  }

  lemma WalkStarts(l: Lane, data: string)
    ensures Walk(l, data[..0]) == At(l)
  {
  }

  /** A turn that looks at one byte. */
  lemma ByteRolls(l: Lane, data: string, at: nat, was: Parser, before: seq<Event>, n: nat, errno: Outcome, q: Parser,
                  told: seq<Event>, m: nat)
    requires at < |data| && Entered(l, was, before, n) && !InLoop(was.state)
    requires errno == if Byte(was, data[at]).Some? then Fine else Failed
    requires errno.Fine? ==> q == Byte(was, data[at]).value.p && told == before + Byte(was, data[at]).value.events
                             && m == if Resets(was, data[at]) then 0 else n
    ensures Rolls(l, data, at, at + 1, errno, q, told, m)
  {
    hide Walk, Begin, Byte, Resets;
    assert data[at..at + 1] == [data[at]];
    WalkOne(l, data[at]);
  }

  /** A turn that the count of its first byte stops. */
  lemma TopRolls(l: Lane, data: string, at: nat, q: Parser, told: seq<Event>, n: nat)
    requires at < |data| && Begin(l) == Stopped(Overflow)
    ensures Rolls(l, data, at, at + 1, Overflow, q, told, n)
  {
    hide Walk, Begin;
    assert data[at..at + 1] == [data[at]];
    WalkOne(l, data[at]);
  }

  /** A turn through bytes that a body takes. */
  lemma BodyRolls(l: Lane, data: string, at: nat, next: nat, q: Parser, told: seq<Event>)
    requires at <= next <= |data| && Walk(l, data[at..next]) == At(Lane(q, told, l.n, Outside))
    ensures Rolls(l, data, at, next, Fine, q, told, l.n)
  {
    hide Walk;
  }

  lemma TurnExtends(first: Lane, data: string, at: nat, next: nat, l: Lane, errno: Outcome, q: Parser,
                    told: seq<Event>, n: nat)
    requires at <= next <= |data| && |data| + MAX_HEADER_SIZE < WORD
    requires Walk(first, data[..at]) == At(l) && Rolls(l, data, at, next, errno, q, told, n)
    ensures errno.Fine? && next < |data| ==> Walk(first, data[..next]) == At(Lane(q, told, n, Outside))
    ensures errno.Fine? && next == |data| ==> Piece(first, data) == At(Lane(q, told, n, Outside))
    ensures !errno.Fine? ==> Piece(first, data) == Stopped(errno)
  {
    hide Walk;
    var a, b := data[..at], data[at..next];
    assert data[..next] == a + b;
    WalkConcat(first, a, b);
    PieceConcat(first, a, b);
    if next == |data| { assert data == a + b; }
    if !errno.Fine? && next < |data| { PieceStops(first, data, next); }
  }

  // ---------------------------------------------------------------------------
  // Bodies
  // ---------------------------------------------------------------------------

  function AfterChunkBytes(p: Parser, n: nat): Parser
    requires n <= p.length
  {
    p.(length := p.length - n, state := if n == p.length && n > 0 then ChunkDataAlmostDone else p.state)
  }

  /** The jump over chunk data. */
  lemma {:induction false} ChunkStretch(p: Parser, data: string, i: nat, j: nat)
    requires p.state.ChunkData? && i <= j <= |data| && j - i <= p.length
    ensures Collects(p, data[i..j], AfterChunkBytes(p, j - i), Body)
    decreases j
  {
    hide Byte, Run, DataEvents;
    if i == j {
      CollectsNothing(p, data, i, Body);
    } else {
      ChunkStretch(p, data, i, j - 1);
      var q := AfterChunkBytes(p, j - 1 - i);
      ChunkByte(q, data[j - 1]);
      CollectsMore(p, data, i, j - 1, q, AfterChunkBytes(p, j - i), Body);
    }
  }

  predicate IsBody(s: S) { s.ChunkData? || s.BodyIdentity? || s.BodyIdentityEof? }

  /** n bytes of a body that are not looked at. */
  function AfterBodyBytes(p: Parser, n: nat): Parser
    requires IsBody(p.state) && (p.state.BodyIdentityEof? || n <= p.length)
  {
    if p.state.ChunkData? then AfterChunkBytes(p, n)
    else if p.state.BodyIdentity? then p.(length := p.length - n)
    else p
  }

  lemma BulkAgain(p: Parser, ch: char)
    requires IsBulk(p.state) && Switch(p, ch).Again?
    ensures var q := Switch(p, ch).p; !Switch(q, ch).Again? && !ResetsCount(q.state)
  {
    hide ValueMatch, FieldMatch, IsHeaderChar, TokenOf;
  }

  lemma BulkNeverResets(p: Parser, ch: char)
    requires IsBulk(p.state)
    ensures !Resets(p, ch)
  {
    hide Switch;
    if Switch(p, ch).Again? { BulkAgain(p, ch); }
  }

  lemma LineFeedNeverResets(p: Parser)
    requires p.state.HeaderAlmostDone?
    ensures !Resets(p, LF)
  {
    hide ActChunk, ActResponse, ActMethod, ActRequest, ActStart, ActBody, ActHeadersDone, ActHeadersAlmostDone;
  }

  lemma DoneNeverResets(p: Parser, ch: char)
    requires p.state.MessageDone?
    ensures !Resets(p, ch)
  {
  }

  lemma BodyTake(l: Lane, ch: char, q: Parser)
    requires l.mode.Outside? && IsBody(l.p.state) && Byte(l.p, ch) == Some(Step(q, [Data(Body, ch)]))
    ensures Take(l, ch) == At(Lane(q, l.events + [Data(Body, ch)], l.n, Outside))
  {
    hide Byte, Resets;
    BulkNeverResets(l.p, ch);
  }

  lemma BodyByte(p: Parser, ch: char)
    requires IsBody(p.state) && (p.state.ChunkData? ==> p.length > 0) && (p.state.BodyIdentity? ==> p.length > 1)
    ensures Byte(p, ch) == Some(Step(
        if p.state.BodyIdentityEof? then p else AfterBodyBytes(p, 1), [Data(Body, ch)]))
  {
    hide Byte;
    if p.state.ChunkData? {
      ChunkByte(p, ch);
    } else if p.state.BodyIdentity? {
      IdentityByte(p, ch);
    } else {
      EofByte(p, ch);
    }
  }

  /** The jumps over bodies: bytes that neither end a body of known length nor go beyond a chunk. */
  lemma {:induction false} BodyStretch(l: Lane, data: string, i: nat, j: nat)
    requires l.mode.Outside? && IsBody(l.p.state) && i <= j <= |data|
    requires (l.p.state.ChunkData? ==> j - i <= l.p.length) && (l.p.state.BodyIdentity? ==> j - i < l.p.length)
    ensures Walk(l, data[i..j]) ==
            At(l.(p := AfterBodyBytes(l.p, j - i), events := l.events + DataEvents(Body, data[i..j])))
    decreases j
  {
    hide Byte, Take, Walk, DataEvents;
    if i == j {
      WalkNothing(l, data, i);
    } else {
      BodyStretch(l, data, i, j - 1);
      var ch, q := data[j - 1], AfterBodyBytes(l.p, j - 1 - i);
      assert data[i..j] == data[i..j - 1] + [ch];
      WalkSnoc(l, data[i..j - 1], ch);
      BodyByte(q, ch);
      BodyTake(Walk(l, data[i..j - 1]).lane, ch, AfterBodyBytes(l.p, j - i));
      DataSnoc(Body, data[i..j - 1], ch);
      Grouped(l.events, DataEvents(Body, data[i..j - 1]), [Data(Body, ch)]);
    }
  }

  lemma WalkNothing(l: Lane, data: string, i: nat)
    requires i <= |data|
    ensures Walk(l, data[i..i]) == At(l.(events := l.events + DataEvents(Body, data[i..i])))
  {
    assert data[i..i] == [] && l.events + [] == l.events;
  }

  /** A body of known length and the byte that ends it. */
  lemma BodyEnds(l: Lane, data: string, at: nat, last: nat, mid: Parser, told: seq<Event>, errno: Outcome, q: Parser,
                 after: seq<Event>, n: nat)
    requires at <= last < |data| && l.mode.Outside? && mid.state.BodyIdentity?
    requires Walk(l, data[at..last]) == At(Lane(mid, told, l.n, Outside))
    requires errno == if Byte(mid, data[last]).Some? then Fine else Failed
    requires errno.Fine? ==>
      q == Byte(mid, data[last]).value.p && after == told + Byte(mid, data[last]).value.events && n == l.n
    ensures Rolls(l, data, at, last + 1, errno, q, after, n)
  {
    hide Walk, Byte, Resets;
    assert data[at..last + 1] == data[at..last] + [data[last]];
    WalkSnoc(l, data[at..last], data[last]);
    BulkNeverResets(mid, data[last]);
  }

  lemma LineFeedIsDone(p: Parser, ch: char)
    requires p.state.HeaderAlmostDone? && ch == LF
    ensures Byte(p, ch) == Some(Step(p.(state := HeaderValueLws), []))
  {
    hide Byte;
    ByteDone(p, ch);
  }

  /** MARK(body) */
  function Mark(m: Marks, s: S, data: string, at: nat): (n: Marks)
    requires MarksFit(m, s, at) && IsBodyState(s) && at <= |data|
    ensures MarksFit(n, s, at) && n.body.Some? && Pending(n, data, at) == Pending(m, data, at)
  {
    assert data[at..at] == [];
    if m.body.None? then m.(body := Some(at)) else m
  }

  /** The last byte of a body of known length is looked at again. */
  lemma LastAgain(p: Parser, ch: char)
    requires p.state.BodyIdentity? && p.length == 1
    ensures Byte(p, ch) == Then(Step(p.(length := 0, state := MessageDone), [Data(Body, ch)]),
        Byte(p.(length := 0, state := MessageDone), ch))
  {
    hide Byte;
    PassAgain(p, ch);
  }

  lemma BodyAndOne(data: string, from: nat, i: nat)
    requires from <= i < |data|
    ensures DataEvents(Body, data[from..i + 1]) == DataEvents(Body, data[from..i]) + [Data(Body, data[i])]
  {
    assert data[from..i + 1] == data[from..i] + [data[i]];
    DataSnoc(Body, data[from..i], data[i]);
  }

  lemma Grouped(a: seq<Event>, b: seq<Event>, c: seq<Event>)
    ensures a + (b + c) == a + b + c
  {
  }

  lemma InvAfterBody(p: Parser, q: Parser)
    requires Inv(p) && q == p.(length := 0, state := MessageDone)
    ensures Inv(q) && !IsBulk(q.state)
  {
  }

  /** The states in which the end of the stream is no error. */
  predicate BetweenMessages(s: S) {
    s.BodyIdentityEof? || s.Dead? || s.StartReqOrRes? || s.StartRes? || s.StartReq?
  }

  function Flatten(pieces: seq<string>): string {
    if pieces == [] then [] else Flatten(pieces[..|pieces| - 1]) + pieces[|pieces| - 1]
  }

  lemma FlattenAt(pieces: seq<string>, i: nat)
    requires i < |pieces|
    ensures Flatten(pieces[..i + 1]) == Flatten(pieces[..i]) + pieces[i]
    ensures Flatten(pieces[..i + 1]) <= Flatten(pieces)
  {
    FlattenSnoc(pieces, i);
    FlattenPrefix(pieces, i + 1);
  }

  lemma FlattenSnoc(pieces: seq<string>, i: nat)
    requires i < |pieces|
    ensures Flatten(pieces[..i + 1]) == Flatten(pieces[..i]) + pieces[i]
  {
    assert pieces[..i + 1][..i] == pieces[..i];
  }

  lemma {:induction false} FlattenPrefix(pieces: seq<string>, i: nat)
    requires i <= |pieces|
    ensures Flatten(pieces[..i]) <= Flatten(pieces)
    decreases |pieces| - i
  {
    hide Flatten;
    if i == |pieces| {
      assert pieces[..i] == pieces;
    } else {
      FlattenSnoc(pieces, i);
      FlattenPrefix(pieces, i + 1);
    }
  }

  lemma InvAfterLine(p: Parser, q: Parser)
    requires Inv(p) && q == p.(state := q.state)
    requires q.state.HeaderValueDiscardWs? || q.state.HeaderAlmostDone?
    ensures Inv(q)
  {
  }

  lemma Regroup(out: seq<Event>, report: seq<Event>, events: seq<Event>, later: seq<Event>, pending: seq<Event>,
                more: seq<Event>, base: seq<Event>, told: seq<Event>)
    requires out + pending == base + told
    requires report + events + later == pending + more
    ensures out + report + events + later == base + (told + more)
  {
    assert out + report + events + later == out + (report + events + later);
    assert out + (pending + more) == (out + pending) + more;
    assert base + (told + more) == (base + told) + more;
  }

  lemma NoMarksNothingPending(data: string, at: nat)
    ensures Pending(NO_MARKS, data, at) == []
  {
  }

  /** The asserts of the switch. */
  lemma AssertsHold(p: Parser)
    requires Inv(p)
    ensures IsChunkState(p.state) || p.state.ChunkData? ==> p.flags.chunked
    ensures p.state.ChunkDataAlmostDone? ==> p.length == 0
    ensures p.state.ChunkData? || p.state.BodyIdentity? ==> p.length != 0 && p.length != NO_LENGTH
  {
  }

  lemma CollectsNothing(p: Parser, data: string, i: nat, f: Field)
    requires i <= |data|
    ensures Collects(p, data[i..i], p, f)
  {
    assert data[i..i] == [];
  }

  // ---------------------------------------------------------------------------
  // Passes through the switch
  // ---------------------------------------------------------------------------

  /** A pass through the switch that asks for another has no mark set. */
  lemma AgainIsUnmarked(p: Parser, ch: char, m: Marks, at: nat)
    requires !IsBulk(p.state) && MarksFit(m, p.state, at) && Switch(p, ch).Again?
    ensures m == NO_MARKS && MarksFit(m, Switch(p, ch).p.state, at)
  {
    hide Switch;
    Arrivals(p, ch);
    if FieldAt(p.state).Some? { MarkedNeverAgain(p, ch); }
    if p.state.ChunkDataAlmostDone? { ChunkNeverAgain(p, ch); }
  }

  lemma ChunkNeverAgain(p: Parser, ch: char)
    requires IsChunkState(p.state)
    ensures !Switch(p, ch).Again?
  {
    hide ActChunk;
  }

  /** What is reported at the end of a pass, and what stays pending. */
  lemma PassEnds(p: Parser, ch: char, m: Marks, data: string, at: nat)
    requires !IsBulk(p.state) && MarksFit(m, p.state, at) && at < |data| && ch == data[at] && Switch(p, ch).Done?
    ensures var act := Switch(p, ch);
            var stays := FieldAt(p.state).Some? && FieldAt(act.p.state) == FieldAt(p.state);
            && MarksFit(Settle(m, act.p.state, at), act.p.state, at + 1)
            && (if stays then [] else Pending(m, data, at)) + act.events
                + Pending(Settle(m, act.p.state, at), data, at + 1)
               == Pending(m, data, at) + (act.events + Marked(act.p.state, ch))
  {
    hide Switch, Pending, MarksFit, Settle;
    var act := Switch(p, ch);
    if FieldAt(p.state).Some? {
      MarkedSwitch(p, ch);
    }
    if FieldAt(p.state).Some? && FieldAt(act.p.state) == FieldAt(p.state) {
      SettleStays(m, p.state, act.p.state, data, at);
      assert [] + Marked(act.p.state, ch) == Marked(act.p.state, ch);
      assert [] + [] + Pending(Settle(m, act.p.state, at), data, at + 1)
          == Pending(Settle(m, act.p.state, at), data, at + 1);
    } else {
      SettleBegins(m, p.state, act.p.state, data, at);
    }
  }

  lemma PassEvents(p: Parser, ch: char)
    requires Switch(p, ch).Done?
    ensures Byte(p, ch) == Some(Step(Switch(p, ch).p, Switch(p, ch).events + Marked(Switch(p, ch).p.state, ch)))
  {
    hide Switch;
  }

  lemma PassAgain(p: Parser, ch: char)
    requires Switch(p, ch).Again?
    ensures Byte(p, ch) == Then(Step(Switch(p, ch).p, Switch(p, ch).events), Byte(Switch(p, ch).p, ch))
    ensures Rank(Switch(p, ch).p.state) < Rank(p.state)
  {
    hide Switch;
    RankFalls(p, ch);
  }

  /** What a pass through the switch means for the reset of the count. */
  lemma ResetsStep(p: Parser, ch: char)
    ensures var act := Switch(p, ch);
            Resets(p, ch) == if act.Fail? then false else if act.Done? then ResetsCount(p.state) else Resets(act.p, ch)
  {
    hide Switch, ResetsCount;
  }
}
