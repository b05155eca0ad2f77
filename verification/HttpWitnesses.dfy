/** Whole requests, from http_parser_init on, that the loop and the byte-wise parser treat differently. */
module HttpWitnesses {
  import opened Options
  import opened HttpSpec
  import opened HttpInvariant
  import opened HttpParser
  import opened HttpLane
  import opened HttpSteps
  import opened HttpCount
  import opened HttpMachine

  const LINE: string := "GET / HTTP/1.1\r\n"

  /** The parser in the request line and behind it. */
  function InRequest(s: S, index: nat, major: nat, minor: nat): Parser {
    Parser(Request, s, General, index, NO_FLAGS, NO_LENGTH, major, minor, 0, "GET", false, false)
  }

  function InHeader(s: S, index: nat): Parser { InRequest(s, index, 1, 1) }

  /** Over s the parser p becomes q. */
  ghost predicate Leads(p: Parser, s: string, q: Parser) { Run(p, s).Some? && Run(p, s).value.p == q }

  lemma LeadsOn(p: Parser, s: string, q: Parser, t: string, r: Parser)
    requires Leads(p, s, q) && Leads(q, t, r)
    ensures Leads(p, s + t, r)
  {
    hide Byte, Run;
    RunConcat(p, s, t);
  }

  lemma LeadsByte(p: Parser, ch: char)
    requires Switch(p, ch).Done?
    ensures Leads(p, [ch], Switch(p, ch).p)
  {
    hide Byte, Run, Switch;
    ByteDone(p, ch);
    OneByte(p, ch);
  }

  lemma Two(p: Parser, a: char, q: Parser, b: char, r: Parser)
    requires Leads(p, [a], q) && Leads(q, [b], r)
    ensures Leads(p, [a, b], r)
  {
    hide Leads;
    assert [a, b] == [a] + [b];
    LeadsOn(p, [a], q, [b], r);
  }

  lemma GeLeads()
    ensures Leads(Init(Request, false), "GE", InRequest(ReqMethod, 2, 0, 0))
  {
    hide Leads;
    MethodByteLeads(Init(Request, false), 'G');
    MethodByteLeads(InRequest(ReqMethod, 1, 0, 0), 'E');
    Two(Init(Request, false), 'G', InRequest(ReqMethod, 1, 0, 0), 'E', InRequest(ReqMethod, 2, 0, 0));
  }

  lemma TSpaceLeads()
    ensures Leads(InRequest(ReqMethod, 2, 0, 0), "T ", InRequest(ReqSpacesBeforeUrl, 3, 0, 0))
  {
    hide Leads;
    MethodByteLeads(InRequest(ReqMethod, 2, 0, 0), 'T');
    MethodByteLeads(InRequest(ReqMethod, 3, 0, 0), ' ');
    Two(InRequest(ReqMethod, 2, 0, 0), 'T', InRequest(ReqMethod, 3, 0, 0), ' ', InRequest(ReqSpacesBeforeUrl, 3, 0, 0));
  }

  lemma MethodLeads()
    ensures Leads(Init(Request, false), "GET ", InRequest(ReqSpacesBeforeUrl, 3, 0, 0))
  {
    hide Leads, Init, InRequest;
    GeLeads();
    TSpaceLeads();
    LeadsOn(Init(Request, false), "GE", InRequest(ReqMethod, 2, 0, 0), "T ", InRequest(ReqSpacesBeforeUrl, 3, 0, 0));
    assert "GE" + "T " == "GET ";
  }

  lemma MethodByteLeads(p: Parser, ch: char)
    requires (p.state.StartReq? || p.state.ReqMethod?) && ActMethod(p, ch).Done?
    ensures Leads(p, [ch], ActMethod(p, ch).p)
  {
    hide ActHeader, ActChunk, ActHeadersAlmostDone, ActHeadersDone, ActResponse, ActMethod, ActRequest, ActStart,
        ActBody, Leads;
    LeadsByte(p, ch);
  }

  lemma HeaderByteLeads(p: Parser, ch: char)
    requires IsHeaderState(p.state) && ActHeader(p, ch).Done?
    ensures Leads(p, [ch], ActHeader(p, ch).p)
  {
    hide ActHeader, ActChunk, ActHeadersAlmostDone, ActHeadersDone, ActResponse, ActMethod, ActRequest, ActStart,
        ActBody, Leads;
    LeadsByte(p, ch);
  }

  /** A byte of the request line behind the method. */
  lemma LineByteLeads(p: Parser, ch: char)
    requires IsRequestState(p.state) && !p.state.StartReq? && !p.state.ReqMethod? && ActRequest(p, ch).Done?
    ensures Leads(p, [ch], ActRequest(p, ch).p)
  {
    hide ActHeader, ActChunk, ActHeadersAlmostDone, ActHeadersDone, ActResponse, ActMethod, ActRequest, ActStart,
        ActBody, Leads;
    LeadsByte(p, ch);
  }

  lemma UrlLeads()
    ensures Leads(InRequest(ReqSpacesBeforeUrl, 3, 0, 0), "/ ", InRequest(ReqHttpStart, 3, 0, 0))
  {
    hide Leads;
    var a := InRequest(ReqSpacesBeforeUrl, 3, 0, 0);
    LineByteLeads(a, '/');
    LineByteLeads(InRequest(ReqPath, 3, 0, 0), ' ');
    Two(a, '/', InRequest(ReqPath, 3, 0, 0), ' ', InRequest(ReqHttpStart, 3, 0, 0));
  }

  lemma HtLeads()
    ensures Leads(InRequest(ReqHttpStart, 3, 0, 0), "HT", InRequest(ReqHttpHT, 3, 0, 0))
  {
    hide Leads;
    LineByteLeads(InRequest(ReqHttpStart, 3, 0, 0), 'H');
    LineByteLeads(InRequest(ReqHttpH, 3, 0, 0), 'T');
    Two(InRequest(ReqHttpStart, 3, 0, 0), 'H', InRequest(ReqHttpH, 3, 0, 0), 'T', InRequest(ReqHttpHT, 3, 0, 0));
  }

  lemma TpLeads()
    ensures Leads(InRequest(ReqHttpHT, 3, 0, 0), "TP", InRequest(ReqHttpHTTP, 3, 0, 0))
  {
    hide Leads;
    LineByteLeads(InRequest(ReqHttpHT, 3, 0, 0), 'T');
    LineByteLeads(InRequest(ReqHttpHTT, 3, 0, 0), 'P');
    Two(InRequest(ReqHttpHT, 3, 0, 0), 'T', InRequest(ReqHttpHTT, 3, 0, 0), 'P', InRequest(ReqHttpHTTP, 3, 0, 0));
  }

  lemma MajorLeads()
    ensures Leads(InRequest(ReqHttpHTTP, 3, 0, 0), "/1", InRequest(ReqMajor, 3, 1, 0))
  {
    hide Leads;
    LineByteLeads(InRequest(ReqHttpHTTP, 3, 0, 0), '/');
    LineByteLeads(InRequest(ReqFirstMajor, 3, 0, 0), '1');
    Two(InRequest(ReqHttpHTTP, 3, 0, 0), '/', InRequest(ReqFirstMajor, 3, 0, 0), '1', InRequest(ReqMajor, 3, 1, 0));
  }

  lemma MinorLeads()
    ensures Leads(InRequest(ReqMajor, 3, 1, 0), ".1", InHeader(ReqMinor, 3))
  {
    hide Leads;
    LineByteLeads(InRequest(ReqMajor, 3, 1, 0), '.');
    LineByteLeads(InRequest(ReqFirstMinor, 3, 1, 0), '1');
    Two(InRequest(ReqMajor, 3, 1, 0), '.', InRequest(ReqFirstMinor, 3, 1, 0), '1', InHeader(ReqMinor, 3));
  }

  lemma LineEndLeads()
    ensures Leads(InHeader(ReqMinor, 3), "\r\n", InHeader(HeaderFieldStart, 3))
  {
    hide Leads;
    LineByteLeads(InHeader(ReqMinor, 3), CR);
    LineByteLeads(InHeader(ReqLineAlmostDone, 3), LF);
    Two(InHeader(ReqMinor, 3), CR, InHeader(ReqLineAlmostDone, 3), LF, InHeader(HeaderFieldStart, 3));
  }

  lemma ProtocolLeads()
    ensures Leads(InRequest(ReqHttpStart, 3, 0, 0), "HTTP/1", InRequest(ReqMajor, 3, 1, 0))
  {
    hide Leads, InRequest;
    HtLeads();
    TpLeads();
    MajorLeads();
    var a, b, c := InRequest(ReqHttpStart, 3, 0, 0), InRequest(ReqHttpHT, 3, 0, 0), InRequest(ReqHttpHTTP, 3, 0, 0);
    LeadsOn(a, "HT", b, "TP", c);
    LeadsOn(a, "HT" + "TP", c, "/1", InRequest(ReqMajor, 3, 1, 0));
    assert "HT" + "TP" + "/1" == "HTTP/1";
  }

  lemma VersionLeads()
    ensures Leads(InRequest(ReqMajor, 3, 1, 0), ".1\r\n", InHeader(HeaderFieldStart, 3))
  {
    hide Leads, InRequest;
    MinorLeads();
    LineEndLeads();
    LeadsOn(InRequest(ReqMajor, 3, 1, 0), ".1", InHeader(ReqMinor, 3), "\r\n", InHeader(HeaderFieldStart, 3));
    assert ".1" + "\r\n" == ".1\r\n";
  }

  lemma LineLeads()
    ensures Leads(Init(Request, false), LINE, InHeader(HeaderFieldStart, 3))
  {
    hide Leads, Init, InRequest;
    MethodLeads();
    UrlLeads();
    ProtocolLeads();
    VersionLeads();
    var p, a := Init(Request, false), InRequest(ReqSpacesBeforeUrl, 3, 0, 0);
    var b, c := InRequest(ReqHttpStart, 3, 0, 0), InRequest(ReqMajor, 3, 1, 0);
    LeadsOn(p, "GET ", a, "/ ", b);
    LeadsOn(p, "GET " + "/ ", b, "HTTP/1", c);
    LeadsOn(p, "GET " + "/ " + "HTTP/1", c, ".1\r\n", InHeader(HeaderFieldStart, 3));
    assert "GET " + "/ " + "HTTP/1" + ".1\r\n" == LINE;
  }

  /** The name of a header whose value means nothing to the parser begins. */
  lemma NameLeads(ch: char)
    requires ch == 'A' || ch == 'X'
    ensures Leads(InHeader(HeaderFieldStart, 3), [ch], InHeader(HeaderField, 0))
  {
    hide Leads;
    HeaderByteLeads(InHeader(HeaderFieldStart, 3), ch);
  }

  lemma ColonLeads()
    ensures Leads(InHeader(HeaderField, 0), ":", InHeader(HeaderValueDiscardWs, 0))
  {
    hide Leads;
    HeaderByteLeads(InHeader(HeaderField, 0), ':');
  }

  lemma LeadsAgain(p: Parser, ch: char, q: Parser)
    requires Switch(p, ch).Again? && Leads(Switch(p, ch).p, [ch], q)
    ensures Leads(p, [ch], q)
  {
    hide Byte, Run, Switch;
    ByteAgain(p, ch);
    OneByte(p, ch);
    OneByte(Switch(p, ch).p, ch);
  }

  lemma EmptyLineFirst(index: nat)
    ensures Leads(InHeader(HeaderFieldStart, index), [CR], InHeader(HeadersAlmostDone, index))
  {
    hide Leads;
    HeaderByteLeads(InHeader(HeaderFieldStart, index), CR);
  }

  lemma EmptyLineSecond(index: nat)
    ensures Leads(InHeader(HeadersAlmostDone, index), [LF], InHeader(StartReq, index))
  {
    hide Leads;
    LeadsByte(InHeader(HeadersDone, index), LF);
    LeadsAgain(InHeader(HeadersAlmostDone, index), LF, InHeader(StartReq, index));
  }

  // ---------------------------------------------------------------------------
  // A control character that is not looked at
  // ---------------------------------------------------------------------------

  const HIDING: string := LINE + "A: b" + "b\U{0001}\r" + "\n\r\n"

  lemma HidingStarts()
    ensures Leads(Init(Request, false), LINE + "A: b", InHeader(HeaderValue, 0))
  {
    hide Leads, Init;
    var p := Init(Request, false);
    LineLeads();
    NameLeads('A');
    ColonLeads();
    HeaderByteLeads(InHeader(HeaderValueDiscardWs, 0), ' ');
    HeaderByteLeads(InHeader(HeaderValueDiscardWs, 0), 'b');
    Two(InHeader(HeaderField, 0), ':', InHeader(HeaderValueDiscardWs, 0), ' ', InHeader(HeaderValueDiscardWs, 0));
    LeadsOn(InHeader(HeaderFieldStart, 3), "A", InHeader(HeaderField, 0), ": ", InHeader(HeaderValueDiscardWs, 0));
    assert "A" + ": " == "A: " && "A: " + "b" == "A: b";
    LeadsOn(InHeader(HeaderFieldStart, 3), "A: ", InHeader(HeaderValueDiscardWs, 0), "b", InHeader(HeaderValue, 0));
    LeadsOn(p, LINE, InHeader(HeaderFieldStart, 3), "A: b", InHeader(HeaderValue, 0));
  }

  /** The empty line behind the headers of a request without a body ends the message. */
  lemma EmptyLineLeads(s: S)
    requires s == HeaderValueLws || s == HeaderValueDiscardLws
    ensures Leads(InHeader(s, 0), "\r\n", InHeader(StartReq, 0))
  {
    hide Leads;
    EmptyLineFirst(0);
    LeadsAgain(InHeader(s, 0), CR, InHeader(HeadersAlmostDone, 0));
    EmptyLineSecond(0);
    Two(InHeader(s, 0), CR, InHeader(HeadersAlmostDone, 0), LF, InHeader(StartReq, 0));
  }

  lemma HidingEnds()
    ensures Leads(InHeader(HeaderAlmostDone, 0), "\n\r\n", InHeader(StartReq, 0))
  {
    hide Leads;
    HeaderByteLeads(InHeader(HeaderAlmostDone, 0), LF);
    EmptyLineLeads(HeaderValueLws);
    LeadsOn(InHeader(HeaderAlmostDone, 0), "\n", InHeader(HeaderValueLws, 0), "\r\n", InHeader(StartReq, 0));
    assert "\n" + "\r\n" == "\n\r\n";
  }

  /** A walk that an accepted part of the input leads to, outside of the inner loops. */
  lemma WalkLeads(p: Parser, s: string, q: Parser)
    requires Leads(p, s, q) && |s| < MAX_HEADER_SIZE && !EndsInside(p, s)
    ensures Walk(Lane(p, [], 0, Outside), s).At?
    ensures var m := Walk(Lane(p, [], 0, Outside), s).lane; m.p == q && m.mode.Outside? && m.n <= |s|
  {
    hide Run, Walk, EndsInside, Tally, AllLimits, LimitAt;
    WalkCounts(p, s, [], 0);
    AcceptedWalk(Lane(p, [], 0, Outside), s);
    ShortFits(p, s, 0);
    assert AllLimits(p, s, 0) by { FitsLimits(p, s, 0); }
    TallyAtMost(p, s, 0);
  }

  lemma FitsLimits(p: Parser, s: string, n: nat)
    requires Fits(p, s, n)
    ensures AllLimits(p, s, n)
  {
    hide LimitAt;
  }

  /** The first byte of a value is no byte of the inner loop. */
  lemma ValueStartsOutside()
    ensures !EndsInside(Init(Request, false), LINE + "A: b")
  {
    hide Leads, Init, Lingers, Run, Byte;
    var p := Init(Request, false);
    LineLeads();
    NameLeads('A');
    ColonLeads();
    HeaderByteLeads(InHeader(HeaderValueDiscardWs, 0), ' ');
    Two(InHeader(HeaderField, 0), ':', InHeader(HeaderValueDiscardWs, 0), ' ', InHeader(HeaderValueDiscardWs, 0));
    LeadsOn(InHeader(HeaderFieldStart, 3), "A", InHeader(HeaderField, 0), ": ", InHeader(HeaderValueDiscardWs, 0));
    assert "A" + ": " == "A: ";
    LeadsOn(p, LINE, InHeader(HeaderFieldStart, 3), "A: ", InHeader(HeaderValueDiscardWs, 0));
    assert (LINE + "A: b")[..|LINE + "A: b"| - 1] == LINE + "A: ";
    NoLoopNoLinger(p, LINE + "A: ", InHeader(HeaderValueDiscardWs, 0), 'b');
  }

  lemma NoLoopNoLinger(p: Parser, s: string, q: Parser, ch: char)
    requires Leads(p, s, q) && !InLoop(q.state)
    ensures !Lingers(Run(p, s).value.p, ch)
  {
    hide Run, Byte;
  }

  /** The inner loop checks the b, and then skips the control character. */
  lemma SkippedWalk(l: Lane)
    requires l.p == InHeader(HeaderValue, 0) && l.mode.Outside? && l.n < 100
    ensures Walk(l, "b\U{0001}\r").At?
    ensures var m := Walk(l, "b\U{0001}\r").lane;
            m.p == InHeader(HeaderAlmostDone, 0) && m.mode.Outside? && m.n < 104
  {
    hide Walk, Take;
    var c := '\U{0001}';
    TakeFirst(l);
    var a := Take(l, 'b').lane;
    WalkOne(l, 'b');
    TakeSkipped(a, c);
    var b := Take(a, c).lane;
    WalkSnoc(l, ['b'], c);
    ValueTake(b, CR);
    WalkSnoc(l, ['b'] + [c], CR);
    assert "b\U{0001}\r" == ['b'] + [c] + [CR];
  }

  lemma TakeFirst(l: Lane)
    requires l.p == InHeader(HeaderValue, 0) && l.mode.Outside? && l.n < 100
    ensures Take(l, 'b').At?
    ensures var m := Take(l, 'b').lane; m.p == l.p && m.mode.Skipping? && m.n == l.n + 2
  {
    hide ValueMatch;
    GeneralMatch(l.p, 'b');
  }

  lemma TakeSkipped(l: Lane, c: char)
    requires l.p.state.HeaderValue? && l.p.h.General? && l.mode.Skipping? && c != CR && c != LF
    ensures Take(l, c).At?
    ensures var m := Take(l, c).lane; m.p == l.p && m.mode.Skipping? && m.n == l.n + 1
  {
    hide ValueMatch, IsHeaderChar;
    ValueTake(l, c);
    GeneralMatch(l.p, c);
  }

  lemma HidingIsRefused()
    ensures !Accepts(Init(Request, false), HIDING)
  {
    hide Run, Byte, Init;
    var p, s, t := Init(Request, false), LINE + "A: b", "b\U{0001}";
    HidingStarts();
    var q := InHeader(HeaderValue, 0);
    ValueByte(q, 'b');
    GeneralMatch(q, 'b');
    OneByte(q, 'b');
    ValueByte(q, '\U{0001}');
    assert t == ['b'] + ['\U{0001}'];
    RunSnoc(q, ['b'], '\U{0001}');
    assert HIDING == s + (t + "\r" + "\n\r\n");
    RunConcat(q, t, "\r" + "\n\r\n");
    assert t + ("\r" + "\n\r\n") == t + "\r" + "\n\r\n";
    RunConcat(p, s, t + "\r" + "\n\r\n");
  }

  lemma HidingPasses()
    ensures Piece(Lane(Init(Request, false), [], 0, Outside), HIDING).At?
  {
    hide Run, Walk, Init, Piece, Leads, EndsInside;
    var p, s, t, u := Init(Request, false), LINE + "A: b", "b\U{0001}\r", "\n\r\n";
    var l := Lane(p, [], 0, Outside);
    HidingStarts();
    ValueStartsOutside();
    WalkLeads(p, s, InHeader(HeaderValue, 0));
    var m := Walk(l, s).lane;
    SkippedWalk(m);
    var k := Walk(m, t).lane;
    HidingEnds();
    EndPasses(k, u);
    PieceConcat(m, t, u);
    PieceConcat(l, s, t + u);
    assert HIDING == s + (t + u);
  }

  lemma EndPasses(l: Lane, s: string)
    requires l.mode.Outside? && l.n + |s| < MAX_HEADER_SIZE && Leads(l.p, s, InHeader(StartReq, 0))
    ensures Piece(l, s).At?
  {
    hide Run, Piece, Fits;
    ShortFits(l.p, s, l.n);
    PieceExactly(l.p, s, l.events, l.n);
  }

  /**
  The loop accepts a whole request that the byte-wise parser refuses: behind the first
  byte of a value that no longer matters, a control character is skipped unseen.
  */
  method SkipsControl() returns (m: Machine)
    ensures m.errno.Fine? && !Accepts(Init(Request, false), HIDING)
  {
    hide Run, Init, Piece;
    m := new Machine(Request, false);
    HidingIsRefused();
    HidingPasses();
    m.Execute(HIDING);
  }

  // ---------------------------------------------------------------------------
  // A header that is too long only when it is cut
  // ---------------------------------------------------------------------------

  function As(k: nat): (s: string)
    ensures |s| == k
  {
    if k == 0 then [] else As(k - 1) + ['a']
  }

  /** A request with one header, whose name is long and whose value is empty. */
  function LongName(k: nat): string { LINE + "X" + As(k) + ":" + "\r\n" + "\r\n" }

  lemma {:induction false} NameStays(k: nat)
    ensures Leads(InHeader(HeaderField, 0), As(k), InHeader(HeaderField, 0))
  {
    hide Leads;
    var q := InHeader(HeaderField, 0);
    if k == 0 {
      LeadsNothing(q);
    } else {
      NameStays(k - 1);
      HeaderByteLeads(q, 'a');
      LeadsOn(q, As(k - 1), q, ['a'], q);
    }
  }

  lemma LeadsNothing(p: Parser)
    ensures Leads(p, [], p)
  {
  }

  lemma EmptyValueLeads()
    ensures Leads(InHeader(HeaderValueDiscardWs, 0), "\r\n", InHeader(HeaderValueDiscardLws, 0))
  {
    hide Leads;
    HeaderByteLeads(InHeader(HeaderValueDiscardWs, 0), CR);
    HeaderByteLeads(InHeader(HeaderValueDiscardWsAlmostDone, 0), LF);
    Two(InHeader(HeaderValueDiscardWs, 0), CR, InHeader(HeaderValueDiscardWsAlmostDone, 0), LF,
        InHeader(HeaderValueDiscardLws, 0));
  }

  lemma NameBegun()
    ensures Leads(Init(Request, false), LINE + "X", InHeader(HeaderField, 0))
  {
    hide Leads, Init;
    LineLeads();
    NameLeads('X');
    LeadsOn(Init(Request, false), LINE, InHeader(HeaderFieldStart, 3), "X", InHeader(HeaderField, 0));
  }

  lemma LongNameLeads(k: nat)
    ensures Leads(Init(Request, false), LongName(k), InHeader(StartReq, 0))
  {
    hide Leads, Init, As;
    var p, q := Init(Request, false), InHeader(HeaderField, 0);
    NameBegun();
    NameStays(k);
    ColonLeads();
    EmptyValueLeads();
    EmptyLineLeads(HeaderValueDiscardLws);
    LeadsOn(p, LINE + "X", q, As(k), q);
    LeadsOn(p, LINE + "X" + As(k), q, ":", InHeader(HeaderValueDiscardWs, 0));
    LeadsOn(p, LINE + "X" + As(k) + ":", InHeader(HeaderValueDiscardWs, 0), "\r\n", InHeader(HeaderValueDiscardLws, 0));
    LeadsOn(p, LINE + "X" + As(k) + ":" + "\r\n", InHeader(HeaderValueDiscardLws, 0), "\r\n", InHeader(StartReq, 0));
  }

  lemma NameByteCosts()
    ensures Cost(InHeader(HeaderField, 0), 'a') == 2 && !Resets(InHeader(HeaderField, 0), 'a')
  {
    hide Byte;
    NameByte(InHeader(HeaderField, 0), 'a');
  }

  lemma {:induction false} NameWorst(k: nat, n: nat)
    ensures Worst(InHeader(HeaderField, 0), As(k), n) == n + 2 * k
  {
    hide Run, Worst, Cost, Resets;
    var q := InHeader(HeaderField, 0);
    if k == 0 {
      WorstNothing(q, n);
    } else {
      NameWorst(k - 1, n);
      NameStays(k - 1);
      NameByteCosts();
      WorstSnoc(q, As(k - 1), 'a', n);
    }
  }

  /** Its bytes have no room when each of them counts twice. */
  lemma NameTooLong(k: nat, n: nat)
    requires 2 * k > MAX_HEADER_SIZE
    ensures !WorstFits(InHeader(HeaderField, 0), As(k), n)
  {
    hide Run, Worst, WorstFits, Cost;
    NameWorst(k - 1, n);
    NameStays(k - 1);
    NameByteCosts();
    WorstFitsSnoc(InHeader(HeaderField, 0), As(k - 1), 'a', n);
  }

  lemma LongNameIsWorse(k: nat)
    requires 2 * k > MAX_HEADER_SIZE
    ensures !WorstFits(Init(Request, false), LongName(k), 0)
  {
    hide Run, Worst, WorstFits, Init, As;
    var p, q, rest := Init(Request, false), InHeader(HeaderField, 0), ":" + "\r\n" + "\r\n";
    var n := Worst(p, LINE + "X", 0);
    NameBegun();
    NameStays(k);
    NameTooLong(k, n);
    WorstFitsConcat(q, As(k), rest, n);
    WorstFitsConcat(p, LINE + "X", As(k) + rest, 0);
    assert LongName(k) == LINE + "X" + (As(k) + rest);
  }

  /**
  The same request, whose header name has between 40 and 80 KiB, comes through in one
  piece and is too long byte by byte.
  */
  method CutMatters(k: nat) returns (whole: Machine, finely: Machine)
    requires MAX_HEADER_SIZE / 2 < k < MAX_HEADER_SIZE - 22
    ensures whole.errno.Fine? && finely.errno.Overflow?
    ensures Accepts(Init(Request, false), LongName(k)) && Flatten(Singles(LongName(k))) == LongName(k)
  {
    hide Run, Init, Piece, Pieces, LongName, Singles, Flatten, Fits, CutFits, CutLeft, WorstFits;
    var s := LongName(k);
    ghost var p := Init(Request, false);
    LongNameLength(k);
    LongNameLeads(k);
    ShortFits(p, s, 0);
    PieceExactly(p, s, [], 0);
    whole := new Machine(Request, false);
    whole.Execute(s);
    LongNameIsWorse(k);
    EveryCut(p, s, 0);
    SinglesFlatten(s);
    PiecesExactly(p, Singles(s), [], 0);
    finely := new Machine(Request, false);
    finely.Feed(Singles(s));
  }

  lemma LongNameLength(k: nat)
    ensures |LongName(k)| == k + 22
  {
  }
}
