/** Header blocks: what each line changes, and what the empty line behind them decides. */
module HttpHeaders {
  import opened Options
  import opened HttpSpec
  import opened HttpParser
  import opened HttpLength
  import opened HttpRuns
  import opened HttpNames
  import opened HttpValues
  import opened HttpConnection
  import HttpLines

  /** A header: its name, the blanks behind the colon, and its value. */
  datatype Header = Header(name: string, blanks: string, value: string)

  predicate AllBlank(s: string) { forall i :: 0 <= i < |s| ==> Blank(s[i]) }

  /** A name of token characters, and a value without control characters. */
  predicate WellFormed(x: Header) {
    IsName(x.name) && AllBlank(x.blanks) && IsValue(x.value) && (x.value != [] ==> !Blank(x.value[0]))
  }

  function Line(x: Header): string { x.name + ":" + (x.blanks + x.value + "\r\n") }

  function LineEvents(x: Header): seq<Event> {
    DataEvents(HeaderFieldName, x.name) + DataEvents(HeaderFieldValue, x.value)
  }

  /** What the parser remembers of the headers. */
  datatype Memory = Memory(flags: Flags, length: nat)

  /** What a header changes; None refuses it. */
  function Effect(m: Memory, x: Header): Option<Memory> {
    var name := Lowered(x.name);
    if x.value == [] then Some(m)
    else if name == "content-length" then
      if m.flags.contentLength || !IsLength(x.value) || DecimalValue(x.value) > 0xffff_ffff_ffff_fff9 then None
      else Some(Memory(m.flags.(contentLength := true), DecimalValue(x.value)))
    else if name == "transfer-encoding" then
      Some(if IsWord(x.value, "chunked") then m.(flags := m.flags.(chunked := true)) else m)
    else if name == "connection" || name == "proxy-connection" then
      Some(m.(flags := ListFlags(Elements(x.value), First, m.flags)))
    else if name == "upgrade" then Some(m.(flags := m.flags.(upgrade := true)))
    else Some(m)
  }

  function Effects(m: Memory, xs: seq<Header>): Option<Memory>
    decreases |xs|
  {
    if xs == [] then Some(m)
    else
      var next := Effect(m, xs[0]);
      if next.None? then None else Effects(next.value, xs[1..])
  }

  function MemoryOf(p: Parser): Memory { Memory(p.flags, p.length) }

  /** p with another memory; the matcher's own state may be any. */
  predicate Remembers(p: Parser, m: Memory, q: Parser) {
    q == p.(flags := m.flags, length := m.length, h := q.h, index := q.index)
  }

  // ---------------------------------------------------------------------------
  // Up to the value
  // ---------------------------------------------------------------------------

  lemma {:induction false} BlanksRun(p: Parser, s: string)
    requires p.state.HeaderValueDiscardWs? && AllBlank(s)
    ensures Goes(p, s, p, [])
    decreases |s|
  {
    hide Run, Byte, Goes;
    if s == [] {
      GoesNowhere(p);
    } else {
      var front, c := s[..|s| - 1], s[|s| - 1];
      BlanksRun(p, front);
      BlankByte(p, c);
      GoesMore(p, front, p, [], c, p, []);
      assert s == front + [c];
      HttpLines.Quiet([]);
    }
  }

  lemma BlankByte(p: Parser, c: char)
    requires p.state.HeaderValueDiscardWs? && Blank(c)
    ensures Byte(p, c) == Some(Step(p, []))
  {
    hide Byte;
    HeaderByte(p, c);
    assert [] + Marked(HeaderValueDiscardWs, c) == [];
  }

  /** The parser in front of the value of header x. */
  predicate AtValue(p: Parser, x: Header, q: Parser) {
    Named(p, x.name, q) && NotMatching(q.h)
  }

  lemma NameAndBlanks(p: Parser, x: Header) returns (q: Parser)
    requires p.state.HeaderFieldStart? && WellFormed(x)
    ensures AtValue(p, x, q) && Goes(p, x.name + ":" + x.blanks, q, DataEvents(HeaderFieldName, x.name))
  {
    hide Run, Byte, Goes, Named, NotMatching, IsName, AllBlank, IsValue;
    ColonRun(p, x.name);
    q :| Named(p, x.name, q) && NotMatching(q.h)
         && Goes(p, x.name + ":", q, DataEvents(HeaderFieldName, x.name));
    InDiscard(p, x.name, q);
    BlanksRun(q, x.blanks);
    GoesOn(p, x.name + ":", q, DataEvents(HeaderFieldName, x.name), x.blanks, q, []);
    HttpLines.Quiet(DataEvents(HeaderFieldName, x.name));
  }

  lemma InDiscard(p: Parser, s: string, q: Parser)
    requires Named(p, s, q)
    ensures q.state.HeaderValueDiscardWs?
  {
  }

  // ---------------------------------------------------------------------------
  // The value
  // ---------------------------------------------------------------------------

  /** Behind the value v of header x, the flags of its line already counted. */
  predicate ValueDone(p: Parser, v: string, m: Option<Memory>) {
    && (Run(p, v).Some? <==> m.Some?)
    && (m.Some? ==>
          var q := Run(p, v).value.p;
          && q == p.(state := HeaderValue, h := q.h, index := q.index, flags := q.flags, length := m.value.length)
          && FlagsAt(ValueOf(q)) == m.value.flags
          && Run(p, v).value.events == DataEvents(HeaderFieldValue, v))
  }

  lemma EncodingValue(p: Parser, v: string)
    requires p.state.HeaderValueDiscardWs? && p.h.TransferEncoding? && IsValue(v) && v != [] && !Blank(v[0])
    ensures ValueDone(p, v, Some(if IsWord(v, "chunked") then MemoryOf(p).(flags := p.flags.(chunked := true))
                                 else MemoryOf(p)))
  {
    hide Run, Byte, InEncoding, FlagsAt, IsWord, Folded, IsValueChar, Lower;
    var c, rest := v[0], v[1..];
    assert v == [c] + rest;
    StartRun(p, c);
    var q := StartValue(p, c).p;
    RunConcat(p, [c], rest);
    ValueRun(q, rest);
    EncodingStarts(p, c);
    EncodingFolds([c], rest, ValueOf(q));
    EncodingSays(v, Folded(ValueOf(q), rest).value);
    OneDatum(HeaderFieldValue, c);
    DataConcat(HeaderFieldValue, [c], rest);
  }

  lemma EncodingStarts(p: Parser, c: char)
    requires p.h.TransferEncoding? && IsValueChar(c)
    ensures StartValue(p, c).Done?
    ensures var q := StartValue(p, c).p;
            q == p.(state := HeaderValue, index := 0, h := q.h) && InEncoding([c], ValueOf(q))
  {
    hide Lower, Matched, IsValueChar;
    ChunkedChars();
    FirstMatched(c, "chunked", MatchingChunked, Chunked, General);
  }

  lemma ConnectionValue(p: Parser, v: string)
    requires p.state.HeaderValueDiscardWs? && p.h.Connection? && IsValue(v) && v != [] && !Blank(v[0])
    ensures ValueDone(p, v, Some(MemoryOf(p).(flags := ListFlags(Elements(v), First, p.flags))))
  {
    hide Run, ListFlags, Elements, IsValueChar, FlagsAt;
    ConnectionRun(p, v);
  }

  /** A value that means nothing is passed over. */
  lemma {:induction false} GeneralFolds(v: Value, s: string)
    requires v.h.General?
    ensures Folded(v, s) == Some(v)
    decreases |s|
  {
    if s != [] { GeneralFolds(v, s[1..]); }
  }

  lemma GeneralValue(p: Parser, v: string)
    requires p.state.HeaderValueDiscardWs? && IsValue(v) && v != [] && !Blank(v[0])
    requires !p.h.TransferEncoding? && !p.h.Connection? && !p.h.ContentLength? && NotMatching(p.h)
    ensures ValueDone(p, v, Some(MemoryOf(p).(flags := if p.h.Upgrade? then p.flags.(upgrade := true) else p.flags)))
  {
    hide Run, Byte, Folded, IsValueChar, Lower;
    var c, rest := v[0], v[1..];
    assert v == [c] + rest;
    StartRun(p, c);
    var q := StartValue(p, c).p;
    RunConcat(p, [c], rest);
    ValueRun(q, rest);
    GeneralFolds(ValueOf(q), rest);
    OneDatum(HeaderFieldValue, c);
    DataConcat(HeaderFieldValue, [c], rest);
  }

  /** All of a value is read as one, if it is not refused. */
  lemma StaysInValue(p: Parser, v: string)
    requires p.state.HeaderValueDiscardWs? && IsValue(v) && v != [] && !Blank(v[0])
    ensures Run(p, v).Some? ==> Run(p, v).value.p.state.HeaderValue?
  {
    hide Run, Byte, Folded, IsValueChar, StartValue;
    var c, rest := v[0], v[1..];
    assert v == [c] + rest;
    StartRun(p, c);
    RunConcat(p, [c], rest);
    if StartValue(p, c).Done? {
      StartsValue(p, c);
      ValueRun(StartValue(p, c).p, rest);
    }
  }

  lemma StartsValue(p: Parser, c: char)
    ensures StartValue(p, c).Done? ==> StartValue(p, c).p.state.HeaderValue?
  {
    hide Lower;
  }

  lemma LengthValue(p: Parser, v: string)
    requires p.state.HeaderValueDiscardWs? && p.h.ContentLength? && IsValue(v) && v != [] && !Blank(v[0])
    ensures ValueDone(p, v,
                      if p.flags.contentLength || !IsLength(v) || DecimalValue(v) > 0xffff_ffff_ffff_fff9 then None
                      else Some(Memory(p.flags.(contentLength := true), DecimalValue(v))))
  {
    hide Run, Byte, IsLength, DecimalValue, IsValueChar;
    LengthExactly(p, v);
    if !ReadAsLength(p, v) {
      var k :| 0 < k <= |v| && !(Run(p, v[..k]).Some? && Run(p, v[..k]).value.p.state.HeaderValue?);
      StaysInValue(p, v[..k]);
      assert v == v[..k] + v[k..];
      RefusedBefore(p, v[..k], v[k..]);
    }
  }

  lemma HeaderValues(p: Parser, x: Header, q: Parser)
    requires AtValue(p, x, q) && WellFormed(x) && x.value != []
    ensures ValueDone(q, x.value, Effect(MemoryOf(p), x))
  {
    hide ValueDone, IsName, AllBlank, IsValue, IsLength, DecimalValue, IsWord, ListFlags, Elements, Lowered;
    Distinct(Lowered(x.name));
    if q.h.ContentLength? {
      LengthValue(q, x.value);
    } else if q.h.TransferEncoding? {
      EncodingValue(q, x.value);
    } else if q.h.Connection? {
      ConnectionValue(q, x.value);
    } else {
      GeneralValue(q, x.value);
    }
  }

  lemma Distinct(l: string)
    ensures l == "content-length" ==> l != "transfer-encoding" && l != "connection" && l != "proxy-connection"
    ensures l == "content-length" ==> l != "upgrade"
    ensures l == "transfer-encoding" ==> l != "connection" && l != "proxy-connection" && l != "upgrade"
    ensures l == "connection" || l == "proxy-connection" ==> l != "upgrade"
  {
    assert |"content-length"| == 14 && |"transfer-encoding"| == 17 && |"connection"| == 10;
    assert |"proxy-connection"| == 16 && |"upgrade"| == 7;
  }

  // ---------------------------------------------------------------------------
  // The end of a line
  // ---------------------------------------------------------------------------

  /** Behind a line: what comes next, if it is not folded into the line, is read as by q, at the start of a line. */
  ghost predicate Settled(r: Parser, q: Parser) {
    q.state.HeaderFieldStart? && forall c: char :: !Blank(c) ==> Byte(r, c) == Byte(q, c)
  }

  lemma SettledRun(r: Parser, q: Parser, s: string)
    requires Settled(r, q) && s != [] && !Blank(s[0])
    ensures Run(r, s) == Run(q, s)
  {
    hide Run, Byte;
    assert s == [s[0]] + s[1..];
    OneByte(r, s[0]);
    OneByte(q, s[0]);
    RunConcat(r, [s[0]], s[1..]);
    RunConcat(q, [s[0]], s[1..]);
  }

  /** The start of the next line, with the flags of this one set. */
  function NextLine(p: Parser): Parser {
    p.(state := HeaderFieldStart, flags := FlagsAt(ValueOf(p)))
  }

  lemma ValueSettles(p: Parser)
    requires p.state.HeaderValue?
    ensures Goes(p, "\r\n", p.(state := HeaderValueLws), [])
    ensures Settled(p.(state := HeaderValueLws), NextLine(p))
  {
    hide Run, Byte, Goes, FlagsAt;
    ValueEnds(p, CR);
    var q := p.(state := HeaderAlmostDone);
    HeaderByte(q, LF);
    assert [] + Marked(HeaderValueLws, LF) == [];
    Two(p, CR, q, [], LF, p.(state := HeaderValueLws), []);
    HttpLines.Quiet([]);
    assert [CR, LF] == "\r\n";
    var r := p.(state := HeaderValueLws);
    forall c: char | !Blank(c) ensures Byte(r, c) == Byte(NextLine(p), c) {
      FinishedIs(r);
      HeaderAgain(r, c);
    }
  }

  lemma FinishedIs(p: Parser)
    ensures Finished(p) == p.(flags := FlagsAt(ValueOf(p)))
  {
  }

  /** A line without a value sets no flag. */
  lemma EmptySettles(p: Parser)
    requires p.state.HeaderValueDiscardWs? && NotMatching(p.h)
    ensures Goes(p, "\r\n", p.(state := HeaderValueDiscardLws), [])
    ensures Settled(p.(state := HeaderValueDiscardLws), p.(state := HeaderFieldStart))
  {
    hide Run, Byte, Goes;
    HeaderByte(p, CR);
    var q := p.(state := HeaderValueDiscardWsAlmostDone);
    HeaderByte(q, LF);
    var none: seq<Event> := [];
    assert none + Marked(HeaderValueDiscardLws, LF) == none && none + Marked(q.state, CR) == none;
    Two(p, CR, q, [], LF, p.(state := HeaderValueDiscardLws), []);
    HttpLines.Quiet([]);
    assert [CR, LF] == "\r\n";
    var r := p.(state := HeaderValueDiscardLws);
    forall c: char | !Blank(c) ensures Byte(r, c) == Byte(p.(state := HeaderFieldStart), c) {
      FinishedIs(r);
      HeaderAgain(r, c);
    }
  }

  /** The parser r behind the line of x: settled as the start of a line with memory m. */
  ghost predicate LineDone(p: Parser, x: Header, m: Memory, r: Parser, q: Parser) {
    && Goes(p, Line(x), r, LineEvents(x))
    && Settled(r, q) && Remembers(p, m, q)
  }

  lemma LineSplit(x: Header)
    ensures Line(x) == x.name + ":" + x.blanks + (x.value + "\r\n")
    ensures Line(x) == x.name + ":" + x.blanks + x.value + "\r\n"
  {
  }

  lemma EmptyLine(p: Parser, x: Header) returns (r: Parser, q: Parser)
    requires p.state.HeaderFieldStart? && WellFormed(x) && x.value == []
    ensures LineDone(p, x, MemoryOf(p), r, q)
  {
    hide Run, Byte, Goes, Settled, WellFormed, Named, NotMatching;
    var a := NameAndBlanks(p, x);
    InDiscard(p, x.name, a);
    EmptySettles(a);
    r, q := a.(state := HeaderValueDiscardLws), a.(state := HeaderFieldStart);
    LineSplit(x);
    GoesOn(p, x.name + ":" + x.blanks, a, DataEvents(HeaderFieldName, x.name), "\r\n", r, []);
    assert x.name + ":" + x.blanks + x.value == x.name + ":" + x.blanks;
    HttpLines.Quiet(DataEvents(HeaderFieldName, x.name));
    NamedKeeps(p, x.name, a);
  }

  lemma NamedKeeps(p: Parser, s: string, a: Parser)
    requires Named(p, s, a)
    ensures a == p.(state := HeaderValueDiscardWs, h := a.h, index := a.index)
  {
  }

  lemma FullLine(p: Parser, x: Header, m: Memory) returns (r: Parser, q: Parser)
    requires p.state.HeaderFieldStart? && WellFormed(x) && x.value != [] && Effect(MemoryOf(p), x) == Some(m)
    ensures LineDone(p, x, m, r, q)
  {
    hide Run, Byte, Settled, WellFormed, Named, NotMatching, Effect, FlagsAt, DataEvents;
    var a := NameAndBlanks(p, x);
    HeaderValues(p, x, a);
    NamedKeeps(p, x.name, a);
    var b := Run(a, x.value).value.p;
    ValueSettles(b);
    r, q := b.(state := HeaderValueLws), NextLine(b);
    LineSplit(x);
    var es := DataEvents(HeaderFieldName, x.name);
    GoesOn(p, x.name + ":" + x.blanks, a, es, x.value, b, DataEvents(HeaderFieldValue, x.value));
    GoesOn(p, x.name + ":" + x.blanks + x.value, b, LineEvents(x), "\r\n", r, []);
    HttpLines.Quiet(LineEvents(x));
  }

  lemma LineRefused(p: Parser, x: Header)
    requires p.state.HeaderFieldStart? && WellFormed(x) && Effect(MemoryOf(p), x).None?
    ensures Run(p, Line(x)).None?
  {
    hide Run, Byte, WellFormed, Named, NotMatching, DataEvents;
    var a := NameAndBlanks(p, x);
    HeaderValues(p, x, a);
    LineSplit(x);
    var front := x.name + ":" + x.blanks;
    RefusedBehind(p, front, a, DataEvents(HeaderFieldName, x.name), x.value);
    RefusedBefore(p, front + x.value, "\r\n");
  }

  /** A header line: it is refused, or it changes what the parser remembers as its name and value say. */
  lemma LineRun(p: Parser, x: Header) returns (r: Parser, q: Parser)
    requires p.state.HeaderFieldStart? && WellFormed(x)
    ensures var m := Effect(MemoryOf(p), x);
            if m.None? then Run(p, Line(x)).None? else LineDone(p, x, m.value, r, q)
  {
    hide Run, WellFormed, LineDone, Line;
    r, q := p, p;
    if Effect(MemoryOf(p), x).None? {
      LineRefused(p, x);
    } else if x.value == [] {
      r, q := EmptyLine(p, x);
    } else {
      r, q := FullLine(p, x, Effect(MemoryOf(p), x).value);
    }
  }

  // ---------------------------------------------------------------------------
  // Blocks
  // ---------------------------------------------------------------------------

  function Block(xs: seq<Header>): string
    decreases |xs|
  {
    if xs == [] then "\r\n" else Line(xs[0]) + Block(xs[1..])
  }

  function BlockEvents(xs: seq<Header>): seq<Event>
    decreases |xs|
  {
    if xs == [] then [] else LineEvents(xs[0]) + BlockEvents(xs[1..])
  }

  lemma BlockBegins(xs: seq<Header>)
    requires forall x :: x in xs ==> WellFormed(x)
    ensures Block(xs) != [] && !Blank(Block(xs)[0])
  {
    if xs != [] {
      assert WellFormed(xs[0]);
      assert Block(xs)[0] == xs[0].name[0];
      TokenIs(xs[0].name[0]);
    }
  }

  /** Behind the headers: the empty line is all that is left. */
  lemma {:induction false} LinesRun(p: Parser, xs: seq<Header>) returns (q: Parser)
    requires p.state.HeaderFieldStart? && forall x :: x in xs ==> WellFormed(x)
    ensures Effects(MemoryOf(p), xs).None? ==> Run(p, Block(xs)).None?
    ensures Effects(MemoryOf(p), xs).Some? ==>
        && Remembers(p, Effects(MemoryOf(p), xs).value, q)
        && Run(p, Block(xs)) == Then(Step(q, BlockEvents(xs)), Run(q, "\r\n"))
    decreases |xs|
  {
    hide Run, Byte, WellFormed, Effect, Line, LineEvents, Settled;
    q := p;
    if xs == [] {
      if Run(p, "\r\n").Some? { HttpLines.Quiet(Run(p, "\r\n").value.events); }
    } else {
      var x, rest := xs[0], xs[1..];
      assert WellFormed(x);
      var r, next := LineRun(p, x);
      RunConcat(p, Line(x), Block(rest));
      var m := Effect(MemoryOf(p), x);
      if m.Some? {
        BlockBegins(rest);
        StartsLine(r, next);
        SettledRun(r, next, Block(rest));
        q := LinesRun(next, rest);
        if Effects(MemoryOf(p), xs).Some? {
          ThenIsAssociative(Step(next, LineEvents(x)), Step(q, BlockEvents(rest)), Run(q, "\r\n"));
        }
      }
    }
  }

  lemma StartsLine(r: Parser, q: Parser)
    requires Settled(r, q)
    ensures q.state.HeaderFieldStart?
  {
  }

  // ---------------------------------------------------------------------------
  // What a block says, whatever the order of its headers
  // ---------------------------------------------------------------------------

  /** A header with this name, in any letter case, and a value. */
  predicate Gives(x: Header, w: string) { Lowered(x.name) == w && x.value != [] }

  predicate GivesLength(x: Header) { Gives(x, "content-length") }

  predicate GivesChunks(x: Header) { Gives(x, "transfer-encoding") && IsWord(x.value, "chunked") }

  predicate GivesConnection(x: Header) { Gives(x, "connection") || Gives(x, "proxy-connection") }

  /** A length that can be read. */
  predicate GoodLength(x: Header) { IsLength(x.value) && DecimalValue(x.value) <= 0xffff_ffff_ffff_fff9 }

  lemma EffectSays(m: Memory, x: Header)
    ensures Effect(m, x).None? <==> GivesLength(x) && (m.flags.contentLength || !GoodLength(x))
    ensures Effect(m, x).Some? ==>
        var r := Effect(m, x).value;
        && (r.flags.contentLength <==> m.flags.contentLength || GivesLength(x))
        && (r.flags.chunked <==> m.flags.chunked || GivesChunks(x))
        && (r.flags.upgrade <==> m.flags.upgrade || Gives(x, "upgrade"))
        && r.length == if GivesLength(x) then DecimalValue(x.value) else m.length
  {
    hide Lowered, IsLength, DecimalValue, IsWord, Elements;
    Distinct(Lowered(x.name));
    ListKeeps(Elements(x.value), First, m.flags);
  }

  /** A Connection header touches no flag of the others. */
  lemma {:induction false} ListKeeps(es: seq<string>, mood: Mood, f: Flags)
    ensures var g := ListFlags(es, mood, f);
            && g.chunked == f.chunked && g.contentLength == f.contentLength && g.upgrade == f.upgrade
            && g.trailing == f.trailing
    decreases |es|
  {
    hide NextMood, Flagged, Begins;
    if es != [] {
      FlaggedKeeps(es[0], f);
      ListKeeps(es[1..], NextMood(mood, es[0]),
                if mood.First? || (mood.Fresh? && Begins(es[0])) then Flagged(es[0], f) else f);
    }
  }

  lemma FlaggedKeeps(e: string, f: Flags)
    ensures var g := Flagged(e, f);
            && g.chunked == f.chunked && g.contentLength == f.contentLength && g.upgrade == f.upgrade
            && g.trailing == f.trailing
  {
    hide Says;
  }

  /** A block is refused exactly when it gives a second length, or one that is none or too large. */
  predicate Refuses(m: Memory, xs: seq<Header>) {
    || (exists i :: 0 <= i < |xs| && GivesLength(xs[i]) && (m.flags.contentLength || !GoodLength(xs[i])))
    || (exists i, j :: 0 <= i < j < |xs| && GivesLength(xs[i]) && GivesLength(xs[j]))
  }

  lemma {:induction false} EffectsRefuse(m: Memory, xs: seq<Header>)
    ensures Effects(m, xs).None? <==> Refuses(m, xs)
    decreases |xs|
  {
    hide Effect, GivesLength, GoodLength;
    if xs != [] {
      var x, rest := xs[0], xs[1..];
      assert xs == [x] + rest;
      EffectSays(m, x);
      if Effect(m, x).Some? {
        EffectsRefuse(Effect(m, x).value, rest);
        RefusesCons(m, x, rest, Effect(m, x).value);
      } else {
        assert GivesLength(xs[0]) && (m.flags.contentLength || !GoodLength(xs[0]));
      }
    }
  }

  lemma RefusesCons(m: Memory, x: Header, rest: seq<Header>, r: Memory)
    requires !(GivesLength(x) && (m.flags.contentLength || !GoodLength(x)))
    requires r.flags.contentLength <==> m.flags.contentLength || GivesLength(x)
    ensures Refuses(m, [x] + rest) <==> Refuses(r, rest)
  {
    hide GivesLength, GoodLength;
    var xs := [x] + rest;
    assert xs[0] == x && forall i :: 0 <= i < |rest| ==> xs[i + 1] == rest[i];
    if Refuses(m, xs) {
      if i :| 0 <= i < |xs| && GivesLength(xs[i]) && (m.flags.contentLength || !GoodLength(xs[i])) {
        assert rest[i - 1] == xs[i];
      } else {
        var i, j :| 0 <= i < j < |xs| && GivesLength(xs[i]) && GivesLength(xs[j]);
        assert rest[j - 1] == xs[j];
        if i > 0 { assert rest[i - 1] == xs[i]; }
      }
    }
    if Refuses(r, rest) {
      if i :| 0 <= i < |rest| && GivesLength(rest[i]) && (r.flags.contentLength || !GoodLength(rest[i])) {
        assert xs[i + 1] == rest[i];
        if GivesLength(x) { assert GivesLength(xs[0]) && GivesLength(xs[i + 1]); }
      } else {
        var i, j :| 0 <= i < j < |rest| && GivesLength(rest[i]) && GivesLength(rest[j]);
        assert xs[i + 1] == rest[i] && xs[j + 1] == rest[j];
      }
    }
  }

  /** What a block that is not refused says of the length, the encoding and the protocol. */
  lemma {:induction false} EffectsSay(m: Memory, xs: seq<Header>)
    requires Effects(m, xs).Some?
    ensures var r := Effects(m, xs).value;
            && (r.flags.contentLength <==> m.flags.contentLength || exists x :: x in xs && GivesLength(x))
            && (r.flags.chunked <==> m.flags.chunked || exists x :: x in xs && GivesChunks(x))
            && (r.flags.upgrade <==> m.flags.upgrade || exists x :: x in xs && Gives(x, "upgrade"))
            && (forall x :: x in xs && GivesLength(x) ==> r.length == DecimalValue(x.value))
            && ((forall x :: x in xs ==> !GivesLength(x)) ==> r.length == m.length)
    decreases |xs|
  {
    hide Effect, GivesLength, GivesChunks, Gives, GoodLength, DecimalValue;
    if xs != [] {
      var x, rest := xs[0], xs[1..];
      assert xs == [x] + rest;
      var r := Effect(m, x).value;
      EffectSays(m, x);
      EffectsSay(r, rest);
      if GivesLength(x) { SecondRefused(r, rest); }
    }
  }

  lemma SecondRefused(m: Memory, xs: seq<Header>)
    requires Effects(m, xs).Some? && m.flags.contentLength
    ensures forall x :: x in xs ==> !GivesLength(x)
  {
    hide GivesLength, GoodLength;
    EffectsRefuse(m, xs);
  }

  // ---------------------------------------------------------------------------
  // What a block says of the connection
  // ---------------------------------------------------------------------------

  /** The lists of the Connection headers hold no surprises. */
  predicate RegularLists(xs: seq<Header>) {
    forall x :: x in xs && GivesConnection(x) ==> Regular(Elements(x.value))
  }

  /** An element of a Connection header is the word w. */
  predicate Lists(x: Header, w: string) {
    GivesConnection(x) && exists e :: e in Elements(x.value) && Says(e, w)
  }

  lemma EffectLists(m: Memory, x: Header)
    requires Effect(m, x).Some? && (GivesConnection(x) ==> Regular(Elements(x.value)))
    ensures var r := Effect(m, x).value;
            && (r.flags.keepAlive <==> m.flags.keepAlive || Lists(x, KEEP_ALIVE))
            && (r.flags.close <==> m.flags.close || Lists(x, CLOSE))
            && (r.flags.connUpgrade <==> m.flags.connUpgrade || Lists(x, UPGRADE))
  {
    hide Lowered, IsLength, DecimalValue, IsWord, Elements, Regular, ListFlags, Says;
    Distinct(Lowered(x.name));
    if GivesConnection(x) { RegularList(x.value, m.flags); }
  }

  /** A word of a Connection header sets its flag exactly when one of the lists holds it. */
  lemma {:induction false} EffectsList(m: Memory, xs: seq<Header>)
    requires Effects(m, xs).Some? && RegularLists(xs)
    ensures var r := Effects(m, xs).value;
            && (r.flags.keepAlive <==> m.flags.keepAlive || exists x :: x in xs && Lists(x, KEEP_ALIVE))
            && (r.flags.close <==> m.flags.close || exists x :: x in xs && Lists(x, CLOSE))
            && (r.flags.connUpgrade <==> m.flags.connUpgrade || exists x :: x in xs && Lists(x, UPGRADE))
    decreases |xs|
  {
    hide Effect, Lists, GivesConnection, Regular, Elements;
    if xs != [] {
      var x, rest := xs[0], xs[1..];
      assert xs == [x] + rest;
      EffectLists(m, x);
      EffectsList(Effect(m, x).value, rest);
    }
  }
}
