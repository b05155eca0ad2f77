/**
Whole messages: how the headers frame the body, when the connection is kept, and
requests and responses from their first line to the end of their body.
*/
module HttpMessages {
  import opened Options
  import opened HttpSpec
  import opened HttpInvariant
  import opened HttpParser
  import opened HttpRuns
  import opened HttpNames
  import opened HttpValues
  import opened HttpMethods
  import opened HttpTargets
  import opened HttpLines
  import opened HttpHeaders
  import HttpLength

  // ---------------------------------------------------------------------------
  // Framing
  // ---------------------------------------------------------------------------

  /** What follows the headers: an error, another protocol, a body of one of three kinds, or nothing. */
  datatype Framing = Refused | Upgraded | Chunks | Counted(n: nat) | UntilClose | Nothing

  /** Upgrade and Connection agree on another protocol, or the method asks for a tunnel. */
  predicate Leaves(verb: string, flags: Flags) {
    (flags.upgrade && flags.connUpgrade) || verb == "CONNECT"
  }

  function FramingOf(kind: Kind, verb: string, status: nat, m: Memory): Framing {
    var none := m.length == 0xffff_ffff_ffff_ffff;
    if m.flags.chunked && m.flags.contentLength then Refused
    else if verb == "CONNECT" || (Leaves(verb, m.flags) && !m.flags.chunked && (none || m.length == 0)) then Upgraded
    else if m.flags.chunked then Chunks
    else if m.length == 0 then Nothing
    else if !none then Counted(m.length)
    else if kind == Request || 100 <= status < 200 || status == 204 || status == 304 then Nothing
    else UntilClose
  }

  /** The connection stays: from version 1.1 on unless it says close, before that only if it says keep-alive. */
  predicate Persists(major: nat, minor: nat, flags: Flags) {
    if major >= 1 && minor >= 1 then !flags.close else flags.keepAlive
  }

  /** The state a message is followed by. */
  function NextState(p: Parser, flags: Flags): S {
    if !Persists(p.major, p.minor, flags) then Dead else if p.kind == Request then StartReq else StartRes
  }

  function StateFor(p: Parser, m: Memory): S {
    match FramingOf(p.kind, p.verb, p.status, m)
    case Chunks => ChunkSizeStart
    case Counted(_) => BodyIdentity
    case UntilClose => BodyIdentityEof
    case _ => NextState(p, m.flags)
  }

  /** p behind its headers. */
  predicate Framed(p: Parser, m: Memory, q: Parser) {
    q == p.(state := StateFor(p, m), flags := m.flags, length := m.length, upgrade := Leaves(p.verb, m.flags),
            h := q.h, index := q.index)
  }

  function EndEvents(f: Framing): seq<Event> {
    if f.Nothing? then [HeadersComplete, MessageComplete] else [HeadersComplete]
  }

  lemma KeepsAlive(p: Parser)
    requires !NeedsEof(p)
    ensures NewMessage(p) == NextState(p, p.flags)
  {
  }

  lemma EofIs(p: Parser)
    ensures NeedsEof(p) <==>
            p.kind != Request && !(100 <= p.status < 200) && p.status != 204 && p.status != 304
            && !p.flags.chunked && p.length == NO_LENGTH
  {
  }

  /** The decision at the empty line. */
  lemma Decides(p: Parser)
    requires p.state.HeadersDone? && p.upgrade == Leaves(p.verb, p.flags)
    requires !(p.flags.chunked && p.flags.contentLength)
    ensures var m, act := MemoryOf(p), ActHeadersDone(p, LF);
            var f := FramingOf(p.kind, p.verb, p.status, m);
            && !f.Refused?
            && (f.Upgraded? <==> act.Fail?)
            && (!f.Upgraded? ==>
                  act == Done(p.(state := StateFor(p, m)), if f.Nothing? then [MessageComplete] else []))
  {
    hide NeedsEof, NewMessage, NextState;
    EofIs(p);
    if !NeedsEof(p) { KeepsAlive(p); }
  }

  lemma EmptyLineRun(p: Parser)
    requires p.state.HeaderFieldStart? && !p.flags.trailing
    ensures var m := MemoryOf(p);
            var f := FramingOf(p.kind, p.verb, p.status, m);
            if f.Refused? || f.Upgraded? then Run(p, "\r\n").None?
            else Goes(p, "\r\n", p.(state := StateFor(p, m), upgrade := Leaves(p.verb, p.flags)), EndEvents(f))
  {
    hide Run, Byte, ActHeadersDone, Persists;
    HeaderByte(p, CR);
    var q := p.(state := HeadersAlmostDone);
    HeadEnds(q);
    if !(p.flags.chunked && p.flags.contentLength) { Decides(Headed(q)); }
    assert [] + Marked(HeadersAlmostDone, CR) == [];
    OneByte(p, CR);
    RunSnoc(p, [CR], LF);
    assert [CR] + [LF] == "\r\n";
    assert [HeadersComplete] + [] == [HeadersComplete];
    assert [HeadersComplete] + [MessageComplete] == [HeadersComplete, MessageComplete];
    if Byte(q, LF).Some? { Quiet(Byte(q, LF).value.events); }
  }

  /**
  A header block, of any headers: it is refused if one of them is; else its headers alone decide what
  follows, and where the parser stands behind it.
  */
  lemma BlockRun(p: Parser, xs: seq<Header>)
    requires p.state.HeaderFieldStart? && !p.flags.trailing && forall x :: x in xs ==> HttpHeaders.WellFormed(x)
    ensures Effects(MemoryOf(p), xs).None? ==> Run(p, Block(xs)).None?
    ensures Effects(MemoryOf(p), xs).Some? ==>
        var m := Effects(MemoryOf(p), xs).value;
        var f := FramingOf(p.kind, p.verb, p.status, m);
        if f.Refused? || f.Upgraded? then Run(p, Block(xs)).None?
        else Run(p, Block(xs)).Some? && Framed(p, m, Run(p, Block(xs)).value.p)
             && Run(p, Block(xs)).value.events == BlockEvents(xs) + EndEvents(f)
  {
    hide Run, Byte, Effects, Block, BlockEvents, StateFor, Leaves, FramingOf;
    EffectsKeepTrailing(MemoryOf(p), xs);
    var q := LinesRun(p, xs);
    if Effects(MemoryOf(p), xs).Some? {
      var m := Effects(MemoryOf(p), xs).value;
      EmptyLineRun(q);
      SameFraming(p, m, q);
    }
  }

  lemma SameFraming(p: Parser, m: Memory, q: Parser)
    requires Remembers(p, m, q)
    ensures FramingOf(q.kind, q.verb, q.status, m) == FramingOf(p.kind, p.verb, p.status, m)
    ensures StateFor(q, m) == StateFor(p, m) && MemoryOf(q) == m
  {
  }

  /** No header sets the mark of a trailer. */
  lemma EffectKeepsTrailing(m: Memory, x: Header)
    ensures Effect(m, x).Some? ==> Effect(m, x).value.flags.trailing == m.flags.trailing
  {
    hide HttpConnection.Elements, Lowered;
    ListKeeps(HttpConnection.Elements(x.value), HttpConnection.First, m.flags);
  }

  lemma {:induction false} EffectsKeepTrailing(m: Memory, xs: seq<Header>)
    ensures Effects(m, xs).Some? ==> Effects(m, xs).value.flags.trailing == m.flags.trailing
    decreases |xs|
  {
    hide Effect;
    if xs != [] {
      EffectKeepsTrailing(m, xs[0]);
      if Effect(m, xs[0]).Some? { EffectsKeepTrailing(Effect(m, xs[0]).value, xs[1..]); }
    }
  }

  /** The headers behind a chunked body: they end the message, whatever they say of its framing. */
  lemma TrailerRun(p: Parser, xs: seq<Header>)
    requires p.state.HeaderFieldStart? && p.flags.trailing && !p.upgrade
    requires forall x :: x in xs ==> HttpHeaders.WellFormed(x)
    ensures var m, r := Effects(MemoryOf(p), xs), Run(p, Block(xs));
            if m.None? then r.None?
            else
              && r.Some? && r.value.events == BlockEvents(xs) + [ChunkComplete, MessageComplete]
              && (m.value.flags.chunked ==> r.value.p.state == NextState(p, m.value.flags))
  {
    hide Run, Byte, Effects, Block, BlockEvents, NextState, NewMessage;
    EffectsKeepTrailing(MemoryOf(p), xs);
    var q := LinesRun(p, xs);
    if Effects(MemoryOf(p), xs).Some? {
      EmptyTrailer(q);
      NextIsSame(p, Effects(MemoryOf(p), xs).value, q);
    }
  }

  lemma NextIsSame(p: Parser, m: Memory, q: Parser)
    requires Remembers(p, m, q)
    ensures NextState(q, q.flags) == NextState(p, m.flags)
  {
  }

  lemma EmptyTrailer(p: Parser)
    requires p.state.HeaderFieldStart? && p.flags.trailing && !p.upgrade
    ensures Run(p, "\r\n").Some? && Run(p, "\r\n").value.events == [ChunkComplete, MessageComplete]
    ensures p.flags.chunked ==> Run(p, "\r\n").value.p.state == NextState(p, p.flags)
  {
    hide Run, Byte, NewMessage, Persists;
    HeaderByte(p, CR);
    var q := p.(state := HeadersAlmostDone);
    TrailerEnds(q);
    EofIs(q.(state := MessageDone));
    if p.flags.chunked { KeepsAlive(q.(state := MessageDone)); }
    assert [] + Marked(HeadersAlmostDone, CR) == [];
    OneByte(p, CR);
    RunSnoc(p, [CR], LF);
    assert [CR] + [LF] == "\r\n";
    Quiet([ChunkComplete, MessageComplete]);
  }

  // ---------------------------------------------------------------------------
  // Bodies that are counted
  // ---------------------------------------------------------------------------

  lemma BodySwitches(p: Parser, c: char)
    requires p.state.BodyIdentity? && p.length == 1 && !p.upgrade
    ensures var q := p.(length := 0, state := MessageDone);
            && Switch(p, c) == Again(q, [Data(Body, c)])
            && Switch(q, c) == Done(q.(state := NewMessage(q)), [MessageComplete])
  {
    hide ActHeader, ActChunk, ActHeadersAlmostDone, ActHeadersDone, ActResponse, ActMethod, ActRequest, ActStart,
        NewMessage;
  }

  lemma LastOfBody(p: Parser, c: char)
    requires p.state.BodyIdentity? && p.length == 1 && !p.upgrade
    ensures Byte(p, c) == Some(Step(p.(length := 0, state := NextState(p, p.flags)), [Data(Body, c), MessageComplete]))
  {
    hide Byte, NewMessage, Switch, Persists;
    var q := p.(length := 0, state := MessageDone);
    BodySwitches(p, c);
    ByteAgain(p, c);
    NoFieldBehind(q);
    ByteDone(q, c);
    EofIs(q);
    KeepsAlive(q);
    assert [Data(Body, c)] + [MessageComplete] == [Data(Body, c), MessageComplete];
  }

  lemma {:induction false} CountedRun(p: Parser, s: string, k: nat)
    requires p.state.BodyIdentity? && p.length == |s| && k < |s|
    ensures Goes(p, s[..k], p.(length := |s| - k), DataEvents(Body, s[..k]))
    decreases k
  {
    hide Byte, Goes;
    if k == 0 {
      GoesNowhere(p);
      assert s[..0] == [];
    } else {
      CountedRun(p, s, k - 1);
      var q := p.(length := |s| - (k - 1));
      IdentityByte(q, s[k - 1]);
      GoesMore(p, s[..k - 1], q, DataEvents(Body, s[..k - 1]), s[k - 1], p.(length := |s| - k), [Data(Body, s[k - 1])]);
      assert s[..k - 1] + [s[k - 1]] == s[..k];
      DataSnoc(Body, s[..k - 1], s[k - 1]);
    }
  }

  /** A counted body: all of its bytes are told, and then the end of the message. */
  lemma BodyRun(p: Parser, s: string)
    requires p.state.BodyIdentity? && p.length == |s| > 0 && !p.upgrade
    ensures Goes(p, s, p.(length := 0, state := NextState(p, p.flags)), DataEvents(Body, s) + [MessageComplete])
  {
    hide Byte, Goes, Persists;
    var k := |s| - 1;
    CountedRun(p, s, k);
    LastOfBody(p.(length := 1), s[k]);
    GoesMore(p, s[..k], p.(length := 1), DataEvents(Body, s[..k]), s[k],
             p.(length := 0, state := NextState(p, p.flags)), [Data(Body, s[k]), MessageComplete]);
    assert s[..k] + [s[k]] == s;
    DataSnoc(Body, s[..k], s[k]);
    assert DataEvents(Body, s[..k]) + [Data(Body, s[k]), MessageComplete]
        == DataEvents(Body, s[..k]) + [Data(Body, s[k])] + [MessageComplete];
  }

  // ---------------------------------------------------------------------------
  // Messages
  // ---------------------------------------------------------------------------

  /** The parser behind the line of a request or response, before any header. */
  const BARE: Memory := Memory(NO_FLAGS, 0xffff_ffff_ffff_ffff)

  predicate IsRequest(m: string, u: string, major: string, minor: string, xs: seq<Header>) {
    && IsMethod(m) && Unbroken(u) && IsTarget(u, m == "CONNECT") && IsVersion(major, minor)
    && forall x :: x in xs ==> HttpHeaders.WellFormed(x)
  }

  /**
  A request up to the end of its headers: what the parser tells, what it remembers, and where it stands,
  in terms of the request alone.
  */
  lemma RequestRun(p: Parser, m: string, u: string, major: string, minor: string, xs: seq<Header>)
    requires p.state.StartReq? && p.kind == Request && IsRequest(m, u, major, minor, xs)
    ensures NumberOf(major) >= 0 && NumberOf(minor) >= 0
    ensures Effects(BARE, xs).None? ==> Run(p, RequestLine(m, u, major, minor) + Block(xs)).None?
    ensures Effects(BARE, xs).Some? ==>
        var memory := Effects(BARE, xs).value;
        var f := FramingOf(Request, m, p.status, memory);
        var r := Run(p, RequestLine(m, u, major, minor) + Block(xs));
        if f.Refused? || f.Upgraded? then r.None?
        else r.Some? && Framed(AtHeaders(p, m, NumberOf(major), NumberOf(minor)), memory, r.value.p)
             && r.value.events == [MessageBegin] + DataEvents(Url, u) + (BlockEvents(xs) + EndEvents(f))
  {
    hide Run, Byte, RequestLine, Block, BlockEvents, Effects, FramingOf, Framed, IsMethod, IsTarget, Unbroken,
        EndEvents;
    RequestLineRun(p, m, u, major, minor);
    var q := AtHeaders(p, m, NumberOf(major), NumberOf(minor));
    BlockRun(q, xs);
    RunConcat(p, RequestLine(m, u, major, minor), Block(xs));
  }

  /** A request with a body of the length it announces. */
  lemma RequestWithBody(p: Parser, m: string, u: string, major: string, minor: string, xs: seq<Header>, body: string)
    requires p.state.StartReq? && p.kind == Request && IsRequest(m, u, major, minor, xs) && body != []
    requires Effects(BARE, xs).Some?
    requires var memory := Effects(BARE, xs).value;
             FramingOf(Request, m, p.status, memory) == Counted(|body|) && !Leaves(m, memory.flags)
    ensures NumberOf(major) >= 0 && NumberOf(minor) >= 0
    ensures var r := Run(p, RequestLine(m, u, major, minor) + Block(xs) + body);
            && r.Some?
            && r.value.events == [MessageBegin] + DataEvents(Url, u) + (BlockEvents(xs) + [HeadersComplete])
                                 + (DataEvents(Body, body) + [MessageComplete])
            && r.value.p.state
               == (if Persists(NumberOf(major), NumberOf(minor), Effects(BARE, xs).value.flags) then StartReq else Dead)
  {
    hide Run, Byte, RequestLine, Block, BlockEvents, Effects, IsMethod, IsTarget, Unbroken, DataEvents, Persists;
    RequestRun(p, m, u, major, minor, xs);
    var head := RequestLine(m, u, major, minor) + Block(xs);
    var q := Run(p, head).value.p;
    CountedState(AtHeaders(p, m, NumberOf(major), NumberOf(minor)), Effects(BARE, xs).value, q, |body|);
    BodyRun(q, body);
    RunConcat(p, head, body);
  }

  lemma CountedState(p: Parser, m: Memory, q: Parser, n: nat)
    requires Framed(p, m, q) && FramingOf(p.kind, p.verb, p.status, m) == Counted(n) && !Leaves(p.verb, m.flags)
    ensures q.state.BodyIdentity? && q.length == n && !q.upgrade && q.flags == m.flags
    ensures q.major == p.major && q.minor == p.minor && q.kind == p.kind
  {
  }

  predicate IsResponse(major: string, minor: string, code: string, reason: string, xs: seq<Header>) {
    IsStatus(major, minor, code, reason) && forall x :: x in xs ==> HttpHeaders.WellFormed(x)
  }

  /** A response up to the end of its headers. */
  lemma ResponseRun(p: Parser, major: string, minor: string, code: string, reason: string, xs: seq<Header>)
    requires p.state.StartRes? && IsResponse(major, minor, code, reason, xs)
    ensures NumberOf(major) >= 0 && NumberOf(minor) >= 0 && NumberOf(code) >= 0
    ensures Effects(BARE, xs).None? ==> Run(p, StatusLine(major, minor, code, reason) + Block(xs)).None?
    ensures Effects(BARE, xs).Some? ==>
        var memory := Effects(BARE, xs).value;
        var f := FramingOf(p.kind, p.verb, NumberOf(code), memory);
        var index := if reason == [] then p.index else 0;
        var r := Run(p, StatusLine(major, minor, code, reason) + Block(xs));
        if f.Refused? || f.Upgraded? then r.None?
        else r.Some?
             && Framed(Answering(p, index, NumberOf(major), NumberOf(minor), NumberOf(code)), memory, r.value.p)
             && r.value.events == [MessageBegin] + DataEvents(Status, reason) + (BlockEvents(xs) + EndEvents(f))
  {
    hide Run, Byte, StatusLine, Block, BlockEvents, Effects, FramingOf, Framed, EndEvents;
    StatusLineRun(p, major, minor, code, reason);
    var q := Answering(p, if reason == [] then p.index else 0, NumberOf(major), NumberOf(minor), NumberOf(code));
    BlockRun(q, xs);
    RunConcat(p, StatusLine(major, minor, code, reason), Block(xs));
  }

  // ---------------------------------------------------------------------------
  // Framing in words
  // ---------------------------------------------------------------------------

  /**
  A length frames the body as that many bytes, chunked as chunks, both are refused; with neither a request
  ends, and a response goes on to the end of the connection if its code allows a body.
  */
  lemma HeadersFrame(kind: Kind, verb: string, status: nat, xs: seq<Header>)
    requires Effects(BARE, xs).Some? && !Leaves(verb, Effects(BARE, xs).value.flags)
    ensures var f := FramingOf(kind, verb, status, Effects(BARE, xs).value);
            var length, chunks := exists x :: x in xs && GivesLength(x), exists x :: x in xs && GivesChunks(x);
            && (f.Refused? <==> length && chunks)
            && (f.Chunks? <==> chunks && !length)
            && (forall x :: x in xs && GivesLength(x) && !chunks ==>
                  f == if HttpLength.DecimalValue(x.value) == 0 then Nothing
                       else Counted(HttpLength.DecimalValue(x.value)))
            && (!length && !chunks ==>
                  f == if kind == Request || 100 <= status < 200 || status == 204 || status == 304 then Nothing
                       else UntilClose)
  {
    hide GivesLength, GivesChunks, HttpLength.DecimalValue, Effects;
    EffectsSay(BARE, xs);
    LengthsAreSmall(xs);
  }

  lemma LengthsAreSmall(xs: seq<Header>)
    requires Effects(BARE, xs).Some?
    ensures forall x :: x in xs && GivesLength(x) ==> HttpLength.DecimalValue(x.value) < 0xffff_ffff_ffff_ffff
  {
    hide GivesLength, HttpLength.DecimalValue, HttpLength.IsLength, Effects;
    EffectsRefuse(BARE, xs);
    forall x | x in xs && GivesLength(x) ensures HttpLength.DecimalValue(x.value) < 0xffff_ffff_ffff_ffff {
      var i :| 0 <= i < |xs| && xs[i] == x;
      assert GoodLength(xs[i]);
    }
  }

  /** The connection stays as the lists of the Connection headers say. */
  lemma HeadersPersist(major: nat, minor: nat, xs: seq<Header>)
    requires Effects(BARE, xs).Some? && RegularLists(xs)
    ensures Persists(major, minor, Effects(BARE, xs).value.flags) <==>
            if major >= 1 && minor >= 1 then !exists x :: x in xs && Lists(x, "close")
            else exists x :: x in xs && Lists(x, "keep-alive")
  {
    hide Lists, Effects;
    EffectsList(BARE, xs);
  }
}
