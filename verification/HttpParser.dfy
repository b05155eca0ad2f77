/**
What http_parser_execute is made of: the data of its callbacks, the states that run
through several bytes at once, the marks that collect data, and the passes through
the switch.
*/
module HttpParser {
  import opened Options
  import opened HttpSpec
  import opened HttpInvariant

  /** HTTP_MAX_HEADER_SIZE */
  const MAX_HEADER_SIZE: nat := 80 * 1024

  /** The data of a callback, byte by byte. */
  function DataEvents(f: Field, s: string): (es: seq<Event>)
    ensures |es| == |s|
  {
    if s == [] then [] else DataEvents(f, s[..|s| - 1]) + [Data(f, s[|s| - 1])]
  }

  lemma DataSnoc(f: Field, s: string, c: char)
    ensures DataEvents(f, s + [c]) == DataEvents(f, s) + [Data(f, c)]
  {
    assert (s + [c])[..|s|] == s;
  }

  lemma {:induction false} DataConcat(f: Field, a: string, b: string)
    ensures DataEvents(f, a + b) == DataEvents(f, a) + DataEvents(f, b)
    decreases |b|
  {
    if b == [] {
      assert a + b == a;
    } else {
      assert (a + b)[..|a + b| - 1] == a + b[..|b| - 1];
      DataConcat(f, a, b[..|b| - 1]);
    }
  }

  // ---------------------------------------------------------------------------
  // Runs of accepted bytes
  // ---------------------------------------------------------------------------

  predicate Accepts(p: Parser, s: string) { Run(p, s).Some? }

  /** p becomes q over the bytes s, which are all data of field f. */
  predicate Collects(p: Parser, s: string, q: Parser, f: Field) {
    Run(p, s) == Some(Step(q, DataEvents(f, s)))
  }

  lemma OneByte(p: Parser, c: char)
    ensures Run(p, [c]) == Byte(p, c)
  {
    hide Byte;
    RunSnoc(p, [], c);
    assert [] + [c] == [c];
    if Byte(p, c).Some? { assert [] + Byte(p, c).value.events == Byte(p, c).value.events; }
  }

  /** One more byte of data. */
  lemma CollectsMore(p: Parser, data: string, i: nat, j: nat, q: Parser, r: Parser, f: Field)
    requires i <= j < |data| && Collects(p, data[i..j], q, f)
    requires Byte(q, data[j]) == Some(Step(r, [Data(f, data[j])]))
    ensures Collects(p, data[i..j + 1], r, f)
  {
    hide Byte;
    assert data[i..j + 1] == data[i..j] + [data[j]];
    RunSnoc(p, data[i..j], data[j]);
    DataSnoc(f, data[i..j], data[j]);
  }

  // ---------------------------------------------------------------------------
  // The bulk states, byte by byte
  // ---------------------------------------------------------------------------

  lemma ByteDone(p: Parser, ch: char)
    requires Switch(p, ch).Done?
    ensures var q, events := Switch(p, ch).p, Switch(p, ch).events;
            Byte(p, ch) == Some(Step(q, if FieldAt(q.state).None? then events
                                        else if events == [] then [Data(FieldAt(q.state).value, ch)]
                                        else events + [Data(FieldAt(q.state).value, ch)]))
  {
    hide Switch, FieldAt;
    var events := Switch(p, ch).events;
    assert events + [] == events;
    if FieldAt(Switch(p, ch).p.state).Some? {
      assert [] + Marked(Switch(p, ch).p.state, ch) == Marked(Switch(p, ch).p.state, ch);
    }
  }

  lemma ByteAgain(p: Parser, ch: char)
    requires Switch(p, ch).Again?
    ensures var q, events := Switch(p, ch).p, Switch(p, ch).events;
            Byte(p, ch) == if Byte(q, ch).None? then None
                           else Some(Step(Byte(q, ch).value.p, if events == [] then Byte(q, ch).value.events
                               else events + Byte(q, ch).value.events))
  {
    hide Switch;
    RankFalls(p, ch);
    var q := Switch(p, ch).p;
    if Byte(q, ch).Some? { assert [] + Byte(q, ch).value.events == Byte(q, ch).value.events; }
  }

  lemma ByteFails(p: Parser, ch: char)
    requires Switch(p, ch).Fail?
    ensures Byte(p, ch).None?
  {
  }

  lemma NameByte(p: Parser, ch: char)
    requires p.state.HeaderField? && TokenOf(ch) != '\0'
    ensures var (h, index) := FieldMatch(p.h, p.index, TokenOf(ch), ch);
            Byte(p, ch) == Some(Step(p.(h := h, index := index), [Data(HeaderFieldName, ch)]))
  {
    hide FieldMatch, Byte, TokenOf;
    ByteDone(p, ch);
  }

  lemma NameEnds(p: Parser, ch: char)
    requires p.state.HeaderField? && TokenOf(ch) == '\0'
    ensures Byte(p, ch) == if ch == ':' then Some(Step(p.(state := HeaderValueDiscardWs), [])) else None
  {
    hide Byte, TokenOf;
    if ch == ':' { ByteDone(p, ch); } else { ByteFails(p, ch); }
  }

  lemma ValueByte(p: Parser, ch: char)
    requires p.state.HeaderValue? && ch != CR && ch != LF
    ensures var v := ValueMatch(ValueOf(p), ch);
            Byte(p, ch) == if (!p.lenient && !IsHeaderChar(ch)) || v.None? then None
                           else Some(Step(WithValue(p, v.value), [Data(HeaderFieldValue, ch)]))
  {
    hide ValueMatch, IsHeaderChar, Byte;
    if (!p.lenient && !IsHeaderChar(ch)) || ValueMatch(ValueOf(p), ch).None? {
      ByteFails(p, ch);
    } else {
      ByteDone(p, ch);
    }
  }

  lemma ValueEnds(p: Parser, ch: char)
    requires p.state.HeaderValue? && (ch == CR || ch == LF)
    ensures Byte(p, ch) == Some(Step(p.(state := if ch == CR then HeaderAlmostDone else HeaderValueLws), []))
  {
    hide Byte;
    if ch == CR {
      ByteDone(p, ch);
    } else {
      ByteAgain(p, ch);
      ByteDone(p.(state := HeaderAlmostDone), ch);
    }
  }

  lemma ChunkByte(p: Parser, ch: char)
    requires p.state.ChunkData? && p.length > 0
    ensures Byte(p, ch) == Some(Step(p.(length := p.length - 1, state := if p.length == 1 then ChunkDataAlmostDone
        else ChunkData),
                                     [Data(Body, ch)]))
  {
    hide Byte;
    ByteDone(p, ch);
  }

  lemma EofByte(p: Parser, ch: char)
    requires p.state.BodyIdentityEof?
    ensures Byte(p, ch) == Some(Step(p, [Data(Body, ch)]))
  {
    hide Byte;
    ByteDone(p, ch);
  }

  lemma IdentityByte(p: Parser, ch: char)
    requires p.state.BodyIdentity? && p.length > 1
    ensures Byte(p, ch) == Some(Step(p.(length := p.length - 1), [Data(Body, ch)]))
  {
    hide Byte;
    ByteDone(p, ch);
  }

  // ---------------------------------------------------------------------------
  // Marks
  // ---------------------------------------------------------------------------

  /** The five mark pointers: the offset of the first byte not yet reported, or None. */
  datatype Marks = Marks(field: Option<nat>, value: Option<nat>, url: Option<nat>, body: Option<nat>,
      status: Option<nat>)

  const NO_MARKS: Marks := Marks(None, None, None, None, None)

  function Since(f: Field, mark: Option<nat>, data: string, at: nat): seq<Event> {
    if mark.Some? && mark.value <= at <= |data| then DataEvents(f, data[mark.value..at]) else []
  }

  /** The data still to be reported when the parser stands before byte number at. */
  function Pending(m: Marks, data: string, at: nat): seq<Event> {
    Since(HeaderFieldName, m.field, data, at) + Since(HeaderFieldValue, m.value, data, at) + Since(Url, m.url, data, at)
    + Since(Body, m.body, data, at) + Since(Status, m.status, data, at)
  }

  predicate IsBodyState(s: S) {
    s.ChunkData? || s.ChunkDataAlmostDone? || s.BodyIdentity? || s.BodyIdentityEof?
  }

  /** A mark is set only in the states of its field, and then it lies behind us. */
  predicate MarksFit(m: Marks, s: S, at: nat) {
    && (m.field.Some? <==> s.HeaderField?)
    && (m.value.Some? <==> s.HeaderValue?)
    && (m.url.Some? <==> IsUrlState(s))
    && (m.status.Some? <==> s.ResStatus?)
    && (m.body.Some? ==> IsBodyState(s))
    && (m.field.Some? ==> m.field.value <= at)
    && (m.value.Some? ==> m.value.value <= at)
    && (m.url.Some? ==> m.url.value <= at)
    && (m.body.Some? ==> m.body.value <= at)
    && (m.status.Some? ==> m.status.value <= at)
  }

  function Count(mark: Option<nat>): nat { if mark.Some? then 1 else 0 }

  /** The assert before the leftover callbacks holds: at most one mark is set. */
  lemma AtMostOneMark(m: Marks, s: S, at: nat)
    requires MarksFit(m, s, at)
    ensures Count(m.field) + Count(m.value) + Count(m.url) + Count(m.body) + Count(m.status) <= 1
  {
  }

  /** Where a piece begins, the marks of the state it resumes in are set. */
  function MarksAtStart(s: S): (m: Marks)
    ensures MarksFit(m, s, 0)
  {
    Marks(if s.HeaderField? then Some(0) else None, if s.HeaderValue? then Some(0) else None,
          if IsUrlState(s) then Some(0) else None, None, if s.ResStatus? then Some(0) else None)
  }

  lemma NothingPending(s: S, data: string)
    ensures Pending(MarksAtStart(s), data, 0) == []
  {
    assert data[0..0] == [];
  }

  /** Five parts of which four are empty. */
  lemma Alone(a: seq<Event>, b: seq<Event>, c: seq<Event>, d: seq<Event>, e: seq<Event>)
    ensures b == c == d == e == [] ==> a + b + c + d + e == a
    ensures a == c == d == e == [] ==> a + b + c + d + e == b
    ensures a == b == d == e == [] ==> a + b + c + d + e == c
    ensures a == b == c == e == [] ==> a + b + c + d + e == d
    ensures a == b == c == d == [] ==> a + b + c + d + e == e
  {
  }

  lemma SinceIs(f: Field, mark: Option<nat>, data: string, at: nat)
    requires at <= |data| && (mark.Some? ==> mark.value <= at)
    ensures Since(f, mark, data, at) == if mark.None? then [] else DataEvents(f, data[mark.value..at])
  {
  }

  /** The pending data is that of the one mark that is set. */
  lemma PendingIs(m: Marks, s: S, data: string, at: nat)
    requires MarksFit(m, s, at) && at <= |data|
    ensures s.HeaderField? ==> Pending(m, data, at) == DataEvents(HeaderFieldName, data[m.field.value..at])
    ensures s.HeaderValue? ==> Pending(m, data, at) == DataEvents(HeaderFieldValue, data[m.value.value..at])
    ensures IsUrlState(s) ==> Pending(m, data, at) == DataEvents(Url, data[m.url.value..at])
    ensures s.ResStatus? ==> Pending(m, data, at) == DataEvents(Status, data[m.status.value..at])
    ensures IsBodyState(s) && m.body.Some? ==> Pending(m, data, at) == DataEvents(Body, data[m.body.value..at])
    ensures !s.HeaderField? && !s.HeaderValue? && !IsUrlState(s) && !s.ResStatus? && m.body.None? ==>
        Pending(m, data, at) == []
  {
    hide DataEvents, Since;
    Alone(Since(HeaderFieldName, m.field, data, at), Since(HeaderFieldValue, m.value, data, at),
          Since(Url, m.url, data, at), Since(Body, m.body, data, at), Since(Status, m.status, data, at));
    SinceIs(HeaderFieldName, m.field, data, at);
    SinceIs(HeaderFieldValue, m.value, data, at);
    SinceIs(Url, m.url, data, at);
    SinceIs(Body, m.body, data, at);
    SinceIs(Status, m.status, data, at);
  }

  lemma Joined(data: string, i: nat, j: nat, k: nat)
    requires i <= j <= k <= |data|
    ensures data[i..k] == data[i..j] + data[j..k]
  {
  }

  /** More bytes of the field whose mark is set. */
  lemma PendingGrows(m: Marks, s: S, data: string, at: nat, next: nat, f: Field)
    requires MarksFit(m, s, at) && at <= next <= |data|
    requires (f == HeaderFieldName && s.HeaderField?) || (f == HeaderFieldValue && s.HeaderValue?)
        || (f == Url && IsUrlState(s))
             || (f == Status && s.ResStatus?) || (f == Body && IsBodyState(s) && m.body.Some?)
    ensures Pending(m, data, next) == Pending(m, data, at) + DataEvents(f, data[at..next])
  {
    hide DataEvents;
    PendingIs(m, s, data, at);
    PendingIs(m, s, data, next);
    var mark := match f case HeaderFieldName => m.field.value case HeaderFieldValue => m.value.value
                        case Url => m.url.value case Status => m.status.value case Body => m.body.value;
    Joined(data, mark, at, next);
    DataConcat(f, data[mark..at], data[at..next]);
  }

  // ---------------------------------------------------------------------------
  // Bytes that go through the switch
  // ---------------------------------------------------------------------------

  /** The states whose code runs through several bytes at once. */
  predicate IsBulk(s: S) {
    s.HeaderField? || s.HeaderValue? || s.ChunkData? || s.BodyIdentity? || s.BodyIdentityEof?
  }

  /** The states whose code sets nread to zero. */
  predicate ResetsCount(s: S) { s.HeadersDone? || s.ChunkSizeAlmostDone? || s.ChunkDataDone? }

  /** The reexecute jumps never lead into a bulk state, and a chunk size begins only behind a reset. */
  lemma Arrivals(p: Parser, ch: char)
    requires !IsBulk(p.state)
    ensures Switch(p, ch).Again? ==>
        !IsBulk(Switch(p, ch).p.state) && FieldAt(Switch(p, ch).p.state).None?
        && !ResetsCount(p.state)
    ensures !Switch(p, ch).Fail? && Switch(p, ch).p.state.ChunkSizeStart? ==> ResetsCount(p.state)
  {
    hide ActResponse, ActMethod, ActRequest, ActHeader, ActChunk, ActHeadersAlmostDone, ActHeadersDone, ActStart,
        ActBody;
    if IsHeaderState(p.state) {
      HeaderArrivals(p, ch);
    } else if IsChunkState(p.state) || p.state.HeadersAlmostDone? || p.state.HeadersDone? {
      ChunkArrivals(p, ch);
    } else if !IsLineState(p.state) {
      OtherArrivals(p, ch);
    }
  }

  lemma HeaderArrivals(p: Parser, ch: char)
    requires IsHeaderState(p.state) && !IsBulk(p.state)
    ensures var act := ActHeader(p, ch);
            && (act.Again? ==> !IsBulk(act.p.state) && FieldAt(act.p.state).None?)
            && (!act.Fail? ==> !act.p.state.ChunkSizeStart?)
  {
    hide StartValue, TokenOf, FirstOfField, FlagFor;
  }

  lemma ChunkArrivals(p: Parser, ch: char)
    ensures var act := ActHeadersAlmostDone(p, ch);
            && (act.Again? ==> !IsBulk(act.p.state) && FieldAt(act.p.state).None?)
            && (!act.Fail? ==> !act.p.state.ChunkSizeStart?)
    ensures IsChunkState(p.state) && ActChunk(p, ch).Done? && ActChunk(p, ch).p.state.ChunkSizeStart? ==>
        p.state.ChunkDataDone?
  {
    hide Unhex, ChunkDigit;
    DigitStays(p);
  }

  lemma OtherArrivals(p: Parser, ch: char)
    requires p.state.MessageDone? || p.state.ChunkDataAlmostDone? || p.state.Dead? || p.state.StartReqOrRes?
        || p.state.ResOrRespH?
    ensures var act := if p.state.Dead? || p.state.StartReqOrRes? || p.state.ResOrRespH? then ActStart(p, ch)
        else ActBody(p, ch);
            && (act.Again? ==> !IsBulk(act.p.state) && FieldAt(act.p.state).None?)
            && (!act.Fail? ==> !act.p.state.ChunkSizeStart?)
  {
    hide NeedsEof, ShouldKeepAlive;
  }

  lemma DigitStays(p: Parser)
    ensures forall d: nat :: ChunkDigit(p, d).Done? ==> ChunkDigit(p, d).p.state == p.state
    ensures forall d: nat :: !ChunkDigit(p, d).Again?
  {
  }

  /** A byte behind the first of a marked field tells the callbacks nothing else. */
  lemma MarkedSwitch(p: Parser, ch: char)
    requires FieldAt(p.state).Some? && !IsBulk(p.state) && Switch(p, ch).Done?
    ensures Switch(p, ch).events == []
    ensures FieldAt(Switch(p, ch).p.state).None? || FieldAt(Switch(p, ch).p.state) == FieldAt(p.state)
  {
    hide ActHeader, ActChunk, ActMethod, ActStart, ActBody, ActHeadersDone, ActHeadersAlmostDone, ServerChar,
        IsUrlChar, IsAlpha;
  }

  lemma MarkedNeverAgain(p: Parser, ch: char)
    requires FieldAt(p.state).Some? && !IsBulk(p.state)
    ensures !Switch(p, ch).Again?
  {
    hide ActHeader, ActChunk, ActMethod, ActStart, ActBody, ActHeadersDone, ActHeadersAlmostDone;
  }

  /** CALLBACK_DATA for a mark whose field ends here, MARK for one whose field begins. */
  function Settle(m: Marks, q: S, at: nat): Marks {
    Marks(if q.HeaderField? then (if m.field.Some? then m.field else Some(at)) else None,
          if q.HeaderValue? then (if m.value.Some? then m.value else Some(at)) else None,
          if IsUrlState(q) then (if m.url.Some? then m.url else Some(at)) else None,
          None,
          if q.ResStatus? then (if m.status.Some? then m.status else Some(at)) else None)
  }

  /** A field goes on. */
  lemma SettleStays(m: Marks, s: S, q: S, data: string, at: nat)
    requires MarksFit(m, s, at) && at < |data| && !IsBulk(s) && FieldAt(s).Some? && FieldAt(q) == FieldAt(s)
    ensures MarksFit(Settle(m, q, at), q, at + 1)
    ensures Pending(Settle(m, q, at), data, at + 1) == Pending(m, data, at) + Marked(q, data[at])
  {
    hide DataEvents, Pending;
    assert Settle(m, q, at) == m;
    assert data[at..at + 1] == [data[at]];
    PendingGrows(m, s, data, at, at + 1, FieldAt(s).value);
    OneDatum(FieldAt(s).value, data[at]);
  }

  /** Another field begins, or none. */
  lemma SettleBegins(m: Marks, s: S, q: S, data: string, at: nat)
    requires MarksFit(m, s, at) && at < |data| && !IsBulk(s)
    requires FieldAt(s).None? || FieldAt(q).None?
    ensures MarksFit(Settle(m, q, at), q, at + 1)
    ensures Pending(Settle(m, q, at), data, at + 1) == Marked(q, data[at])
  {
    hide DataEvents, Pending;
    assert data[at..at + 1] == [data[at]];
    PendingIs(Settle(m, q, at), q, data, at + 1);
    if FieldAt(q).Some? { OneDatum(FieldAt(q).value, data[at]); }
  }

  lemma OneDatum(f: Field, c: char)
    ensures DataEvents(f, [c]) == [Data(f, c)]
  {
    assert [c][..0] == [];
  }
}
