/** The first lines of requests and responses. */
module HttpLines {
  import opened Options
  import opened HttpSpec
  import opened HttpParser
  import opened HttpRuns
  import opened HttpMethods
  import opened HttpTargets

  const CRLF: string := "\r\n"

  // ---------------------------------------------------------------------------
  // Numbers
  // ---------------------------------------------------------------------------

  predicate IsDigits(s: string) { s != [] && forall i :: 0 <= i < |s| ==> '0' <= s[i] <= '9' }

  function NumberOf(s: string): int {
    if s == [] then 0 else 10 * NumberOf(s[..|s| - 1]) + (s[|s| - 1] as int - '0' as int)
  }

  /** Where a number stands: the versions of requests and responses, and the status code. */
  datatype Place = RequestMajor | RequestMinor | ResponseMajor | ResponseMinor | Code

  function Before(at: Place): S {
    match at
    case RequestMajor => ReqFirstMajor
    case RequestMinor => ReqFirstMinor
    case ResponseMajor => ResFirstMajor
    case ResponseMinor => ResFirstMinor
    case Code => ResFirstStatusCode
  }

  function In(at: Place): S {
    match at
    case RequestMajor => ReqMajor
    case RequestMinor => ReqMinor
    case ResponseMajor => ResMajor
    case ResponseMinor => ResMinor
    case Code => ResStatusCode
  }

  function With(p: Parser, at: Place, n: nat): Parser {
    match at
    case RequestMajor => p.(state := ReqMajor, major := n)
    case RequestMinor => p.(state := ReqMinor, minor := n)
    case ResponseMajor => p.(state := ResMajor, major := n)
    case ResponseMinor => p.(state := ResMinor, minor := n)
    case Code => p.(state := ResStatusCode, status := n)
  }

  lemma FirstDigit(p: Parser, at: Place, c: char)
    requires p.state == Before(at) && '0' <= c <= '9' && (at.RequestMajor? ==> c != '0')
    ensures Byte(p, c) == Some(Step(With(p, at, c as int - '0' as int), []))
  {
    hide Byte;
    if at.RequestMajor? || at.RequestMinor? { FirstOfRequest(p, at, c); } else { FirstOfResponse(p, at, c); }
  }

  lemma FirstOfRequest(p: Parser, at: Place, c: char)
    requires p.state == Before(at) && '0' <= c <= '9' && (at.RequestMajor? ==> c != '0')
    requires at.RequestMajor? || at.RequestMinor?
    ensures Byte(p, c) == Some(Step(With(p, at, c as int - '0' as int), []))
  {
    hide Byte;
    LineByte(p, c);
    assert [] + Marked(In(at), c) == [];
  }

  lemma FirstOfResponse(p: Parser, at: Place, c: char)
    requires p.state == Before(at) && '0' <= c <= '9' && !at.RequestMajor? && !at.RequestMinor?
    ensures Byte(p, c) == Some(Step(With(p, at, c as int - '0' as int), []))
  {
    hide Byte;
    StatusByte(p, c);
    assert [] + Marked(In(at), c) == [];
  }

  lemma NextDigit(p: Parser, at: Place, n: nat, c: char)
    requires '0' <= c <= '9'
    ensures var m := 10 * n + (c as int - '0' as int);
            Byte(With(p, at, n), c) == if m > 999 then None else Some(Step(With(p, at, m), []))
  {
    hide Byte;
    if at.RequestMajor? || at.RequestMinor? { LineByte(With(p, at, n), c); } else { StatusByte(With(p, at, n), c); }
    assert [] + Marked(In(at), c) == [];
  }

  /** A number is read for what its digits say, up to 999. */
  lemma {:induction false} DigitsRun(p: Parser, at: Place, s: string)
    requires p.state == Before(at) && IsDigits(s) && (at.RequestMajor? ==> s[0] != '0')
    ensures NumberOf(s) >= 0
    ensures Run(p, s) == if NumberOf(s) > 999 then None else Some(Step(With(p, at, NumberOf(s)), []))
    decreases |s|
  {
    hide Run, Byte, With;
    var c := s[|s| - 1];
    if |s| == 1 {
      assert s == [c] && NumberOf(s[..0]) == 0;
      OneByte(p, c);
      FirstDigit(p, at, c);
    } else {
      var front := s[..|s| - 1];
      assert s == front + [c];
      DigitsRun(p, at, front);
      RunSnoc(p, front, c);
      Quiet([]);
      if NumberOf(front) <= 999 { NextDigit(p, at, NumberOf(front), c); }
    }
  }

  // ---------------------------------------------------------------------------
  // Fixed bytes
  // ---------------------------------------------------------------------------

  /** A byte that only moves the parser on. */
  predicate Moves(p: Parser, c: char, s: S) { Byte(p, c) == Some(Step(p.(state := s), [])) }

  lemma Moved(p: Parser, s: string, t: S, c: char, u: S)
    requires Goes(p, s, p.(state := t), []) && Moves(p.(state := t), c, u)
    ensures Goes(p, s + [c], p.(state := u), [])
  {
    hide Run, Byte;
    GoesMore(p, s, p.(state := t), [], c, p.(state := u), []);
    var none: seq<Event> := [];
    assert none + none == none;
  }

  lemma MovedFirst(p: Parser, c: char, u: S)
    requires Moves(p, c, u)
    ensures Goes(p, [c], p.(state := u), [])
  {
    hide Run, Byte;
    GoesByte(p, c, p.(state := u), []);
  }

  lemma RequestMoves(p: Parser, c: char, s: S)
    requires IsRequestState(p.state) && !p.state.StartReq? && !p.state.ReqMethod? && FieldAt(s).None?
    requires ActRequest(p, c) == To(p, s)
    ensures Moves(p, c, s)
  {
    hide Byte, ActRequest;
    LineByte(p, c);
    assert [] + Marked(s, c) == [];
  }

  lemma ResponseMoves(p: Parser, c: char, s: S)
    requires IsResponseState(p.state) && FieldAt(s).None?
    requires ActResponse(p, c) == To(p, s)
    ensures Moves(p, c, s)
  {
    hide Byte, ActResponse;
    StatusByte(p, c);
    assert [] + Marked(s, c) == [];
  }

  /** The state in front of byte i of a word, which leads through the states ts. */
  function Ahead(p: Parser, ts: seq<S>, i: nat): Parser
    requires i <= |ts|
  {
    if i == 0 then p else p.(state := ts[i - 1])
  }

  lemma {:induction false} WordRun(p: Parser, w: string, ts: seq<S>, k: nat)
    requires |w| == |ts| && 0 < k <= |w| && forall i :: 0 <= i < |w| ==> Moves(Ahead(p, ts, i), w[i], ts[i])
    ensures Goes(p, w[..k], p.(state := ts[k - 1]), [])
    decreases k
  {
    hide Moves, Goes;
    assert Moves(Ahead(p, ts, k - 1), w[k - 1], ts[k - 1]);
    if k == 1 {
      MovedFirst(p, w[0], ts[0]);
      assert w[..1] == [w[0]];
    } else {
      WordRun(p, w, ts, k - 1);
      Moved(p, w[..k - 1], ts[k - 2], w[k - 1], ts[k - 1]);
      assert w[..k - 1] + [w[k - 1]] == w[..k];
    }
  }

  lemma ProtocolMoves(p: Parser, i: nat)
    requires p.state.ReqHttpStart? && i < 5
    ensures var ts := [ReqHttpH, ReqHttpHT, ReqHttpHTT, ReqHttpHTTP, ReqFirstMajor];
            Moves(Ahead(p, ts, i), "HTTP/"[i], ts[i])
  {
    hide Moves;
    var ts := [ReqHttpH, ReqHttpHT, ReqHttpHTT, ReqHttpHTTP, ReqFirstMajor];
    RequestMoves(Ahead(p, ts, i), "HTTP/"[i], ts[i]);
  }

  /** The name of the protocol in a request line. */
  lemma ProtocolRun(p: Parser)
    requires p.state.ReqHttpStart?
    ensures Goes(p, "HTTP/", p.(state := ReqFirstMajor), [])
  {
    hide Moves, Goes;
    var w, ts := "HTTP/", [ReqHttpH, ReqHttpHT, ReqHttpHTT, ReqHttpHTTP, ReqFirstMajor];
    forall i | 0 <= i < |w| ensures Moves(Ahead(p, ts, i), w[i], ts[i]) { ProtocolMoves(p, i); }
    WordRun(p, w, ts, 5);
    assert w[..5] == w;
  }

  lemma StatusMoves(p: Parser, i: nat)
    requires p.state.ResH? && i < 4
    ensures var ts := [ResHT, ResHTT, ResHTTP, ResFirstMajor];
            Moves(Ahead(p, ts, i), "TTP/"[i], ts[i])
  {
    hide Moves;
    var ts := [ResHT, ResHTT, ResHTTP, ResFirstMajor];
    ResponseMoves(Ahead(p, ts, i), "TTP/"[i], ts[i]);
  }

  lemma StatusFirst(p: Parser)
    requires p.state.StartRes?
    ensures Goes(p, "H", p.(state := ResH, flags := NO_FLAGS, length := NO_LENGTH), [MessageBegin])
  {
    hide Run, Byte;
    StatusByte(p, 'H');
    assert [MessageBegin] + Marked(ResH, 'H') == [MessageBegin];
    GoesByte(p, 'H', p.(state := ResH, flags := NO_FLAGS, length := NO_LENGTH), [MessageBegin]);
  }

  /** The same in a status line; the message begins. */
  lemma StatusProtocolRun(p: Parser)
    requires p.state.StartRes?
    ensures Goes(p, "HTTP/", p.(state := ResFirstMajor, flags := NO_FLAGS, length := NO_LENGTH), [MessageBegin])
  {
    hide Moves, Goes;
    var q := p.(state := ResH, flags := NO_FLAGS, length := NO_LENGTH);
    StatusFirst(p);
    var w, ts := "TTP/", [ResHT, ResHTT, ResHTTP, ResFirstMajor];
    forall i | 0 <= i < |w| ensures Moves(Ahead(q, ts, i), w[i], ts[i]) { StatusMoves(q, i); }
    WordRun(q, w, ts, 4);
    assert w[..4] == w;
    GoesOn(p, "H", q, [MessageBegin], w, q.(state := ResFirstMajor), []);
    assert "H" + "TTP/" == "HTTP/";
    Quiet([MessageBegin]);
  }

  // ---------------------------------------------------------------------------
  // The request line
  // ---------------------------------------------------------------------------

  /** A version: a major number that does not begin with zero, and a minor one. */
  predicate IsVersion(major: string, minor: string) {
    IsDigits(major) && IsDigits(minor) && major[0] != '0' && NumberOf(major) <= 999 && NumberOf(minor) <= 999
  }

  lemma LineEnds(p: Parser)
    requires p.state.ReqMinor?
    ensures Goes(p, CRLF, p.(state := HeaderFieldStart), [])
  {
    hide Run, Byte, Moves;
    RequestMoves(p, CR, ReqLineAlmostDone);
    RequestMoves(p.(state := ReqLineAlmostDone), LF, HeaderFieldStart);
    MovedFirst(p, CR, ReqLineAlmostDone);
    Moved(p, [CR], ReqLineAlmostDone, LF, HeaderFieldStart);
    assert [CR] + [LF] == CRLF;
  }

  lemma Quiet(es: seq<Event>)
    ensures es + [] == es && [] + es == es
  {
  }

  lemma VersionRun(p: Parser, major: string, minor: string)
    requires p.state.ReqHttpStart? && IsVersion(major, minor)
    ensures NumberOf(major) >= 0 && NumberOf(minor) >= 0
    ensures Goes(p, "HTTP/" + major + "." + minor + CRLF,
                 p.(state := HeaderFieldStart, major := NumberOf(major), minor := NumberOf(minor)), [])
  {
    hide Run, Byte, Moves;
    ProtocolRun(p);
    var a := p.(state := ReqFirstMajor);
    DigitsRun(a, RequestMajor, major);
    var b := With(a, RequestMajor, NumberOf(major));
    RequestMoves(b, '.', ReqFirstMinor);
    MovedFirst(b, '.', ReqFirstMinor);
    var c := b.(state := ReqFirstMinor);
    DigitsRun(c, RequestMinor, minor);
    var d := With(c, RequestMinor, NumberOf(minor));
    LineEnds(d);
    Quiet([]);
    GoesOn(p, "HTTP/", a, [], major, b, []);
    GoesOn(p, "HTTP/" + major, b, [], ".", c, []);
    GoesOn(p, "HTTP/" + major + ".", c, [], minor, d, []);
    GoesOn(p, "HTTP/" + major + "." + minor, d, [], CRLF, d.(state := HeaderFieldStart), []);
  }

  function RequestLine(m: string, u: string, major: string, minor: string): string {
    m + " " + (u + " ") + ("HTTP/" + major + "." + minor + CRLF)
  }

  /** The parser behind a request line. */
  function AtHeaders(p: Parser, m: string, major: nat, minor: nat): Parser {
    p.(state := HeaderFieldStart, flags := NO_FLAGS, length := NO_LENGTH, verb := m, index := |m|,
       major := major, minor := minor)
  }

  /** A request line, of any method, target and version: the parser knows the method and the version. */
  lemma RequestLineRun(p: Parser, m: string, u: string, major: string, minor: string)
    requires p.state.StartReq? && IsMethod(m) && Unbroken(u) && IsTarget(u, m == "CONNECT") && IsVersion(major, minor)
    ensures NumberOf(major) >= 0 && NumberOf(minor) >= 0
    ensures Goes(p, RequestLine(m, u, major, minor), AtHeaders(p, m, NumberOf(major), NumberOf(minor)),
                 [MessageBegin] + DataEvents(Url, u))
  {
    hide Run, Byte, IsMethod, IsTarget, Unbroken, DataEvents;
    MethodPlain(m);
    TargetNotEmpty(u, m == "CONNECT");
    MethodExactly(p, m);
    var a := WithMethod(p, m);
    TargetExactly(a, u);
    var b := a.(state := ReqHttpStart);
    VersionRun(b, major, minor);
    var v := "HTTP/" + major + "." + minor + CRLF;
    GoesOn(p, m + " ", a, [MessageBegin], u + " ", b, DataEvents(Url, u));
    GoesOn(p, m + " " + (u + " "), b, [MessageBegin] + DataEvents(Url, u), v,
           AtHeaders(p, m, NumberOf(major), NumberOf(minor)), []);
    Quiet([MessageBegin] + DataEvents(Url, u));
  }

  lemma TargetNotEmpty(u: string, connect: bool)
    requires IsTarget(u, connect)
    ensures u != []
  {
  }

  lemma MethodPlain(m: string)
    requires IsMethod(m)
    ensures m != [] && m[0] != CR && m[0] != LF && ' ' !in m
  {
  }

  // ---------------------------------------------------------------------------
  // The status line
  // ---------------------------------------------------------------------------

  predicate IsReason(s: string) { forall i :: 0 <= i < |s| ==> s[i] != CR && s[i] != LF }

  lemma ReasonByte(p: Parser, c: char)
    requires (p.state.ResStatusStart? || p.state.ResStatus?) && c != CR && c != LF
    ensures var q := if p.state.ResStatusStart? then p.(state := ResStatus, index := 0) else p;
            Byte(p, c) == Some(Step(q, [Data(Status, c)]))
  {
    hide Byte;
    StatusByte(p, c);
    assert [] + Marked(ResStatus, c) == [Data(Status, c)];
  }

  lemma {:induction false} ReasonRun(p: Parser, s: string)
    requires p.state.ResStatusStart? && s != [] && IsReason(s)
    ensures Goes(p, s, p.(state := ResStatus, index := 0), DataEvents(Status, s))
    decreases |s|
  {
    hide Run, Byte;
    var c := s[|s| - 1];
    if |s| == 1 {
      assert s == [c];
      ReasonByte(p, c);
      OneDatum(Status, c);
      GoesByte(p, c, p.(state := ResStatus, index := 0), [Data(Status, c)]);
    } else {
      var front, q := s[..|s| - 1], p.(state := ResStatus, index := 0);
      ReasonRun(p, front);
      ReasonByte(q, c);
      DataSnoc(Status, front, c);
      assert s == front + [c];
      GoesMore(p, front, q, DataEvents(Status, front), c, q, [Data(Status, c)]);
    }
  }

  lemma StatusEnds(p: Parser)
    requires p.state.ResStatusStart? || p.state.ResStatus?
    ensures Goes(p, CRLF, p.(state := HeaderFieldStart), [])
  {
    hide Run, Byte, Moves;
    ResponseMoves(p, CR, ResLineAlmostDone);
    ResponseMoves(p.(state := ResLineAlmostDone), LF, HeaderFieldStart);
    MovedFirst(p, CR, ResLineAlmostDone);
    Moved(p, [CR], ResLineAlmostDone, LF, HeaderFieldStart);
    assert [CR] + [LF] == CRLF;
  }

  predicate IsStatus(major: string, minor: string, code: string, reason: string) {
    && IsDigits(major) && IsDigits(minor) && IsDigits(code) && IsReason(reason)
    && NumberOf(major) <= 999 && NumberOf(minor) <= 999 && NumberOf(code) <= 999
  }

  function StatusLine(major: string, minor: string, code: string, reason: string): string {
    "HTTP/" + major + "." + minor + " " + code + " " + reason + CRLF
  }

  /** The parser behind a status line. */
  function Answering(p: Parser, index: nat, major: nat, minor: nat, code: nat): Parser {
    p.(state := HeaderFieldStart, flags := NO_FLAGS, length := NO_LENGTH, index := index,
       major := major, minor := minor, status := code)
  }

  /** A number and the byte behind it. */
  lemma NumberThen(p: Parser, at: Place, s: string, c: char, t: S)
    requires p.state == Before(at) && IsDigits(s) && NumberOf(s) <= 999 && (at.RequestMajor? ==> s[0] != '0')
    requires NumberOf(s) >= 0 && Moves(With(p, at, NumberOf(s)), c, t)
    ensures Goes(p, s + [c], With(p, at, NumberOf(s)).(state := t), [])
  {
    hide Run, Byte, With, Moves;
    var q := With(p, at, NumberOf(s));
    DigitsRun(p, at, s);
    MovedFirst(q, c, t);
    GoesOn(p, s, q, [], [c], q.(state := t), []);
    Quiet([]);
  }

  lemma {:induction false} NotNegative(s: string)
    requires forall i :: 0 <= i < |s| ==> '0' <= s[i] <= '9'
    ensures NumberOf(s) >= 0
  {
    if s != [] { NotNegative(s[..|s| - 1]); }
  }

  lemma NumbersRun(p: Parser, major: string, minor: string, code: string)
    requires p.state.StartRes? && IsStatus(major, minor, code, "")
    ensures NumberOf(major) >= 0 && NumberOf(minor) >= 0 && NumberOf(code) >= 0
    ensures Goes(p, "HTTP/" + major + "." + minor + " " + code + " ",
                 Answering(p, p.index, NumberOf(major), NumberOf(minor), NumberOf(code)).(state := ResStatusStart),
                 [MessageBegin])
  {
    hide Run, Byte, Moves, Goes, ActResponse;
    NotNegative(major);
    NotNegative(minor);
    NotNegative(code);
    StatusProtocolRun(p);
    var a := p.(state := ResFirstMajor, flags := NO_FLAGS, length := NO_LENGTH);
    var b := a.(state := ResFirstMinor, major := NumberOf(major));
    var c := b.(state := ResFirstStatusCode, minor := NumberOf(minor));
    var d := c.(state := ResStatusStart, status := NumberOf(code));
    NumberEnds(With(a, ResponseMajor, NumberOf(major)));
    NumberThen(a, ResponseMajor, major, '.', ResFirstMinor);
    NumberEnds(With(b, ResponseMinor, NumberOf(minor)));
    NumberThen(b, ResponseMinor, minor, ' ', ResFirstStatusCode);
    NumberEnds(With(c, Code, NumberOf(code)));
    NumberThen(c, Code, code, ' ', ResStatusStart);
    Quiet([MessageBegin]);
    GoesOn(p, "HTTP/", a, [MessageBegin], major + ".", b, []);
    GoesOn(p, "HTTP/" + (major + "."), b, [MessageBegin], minor + " ", c, []);
    GoesOn(p, "HTTP/" + (major + ".") + (minor + " "), c, [MessageBegin], code + " ", d, []);
    assert "HTTP/" + (major + ".") + (minor + " ") + (code + " ")
        == "HTTP/" + major + "." + minor + " " + code + " ";
  }

  /** What ends the numbers of a status line. */
  lemma NumberEnds(p: Parser)
    ensures p.state.ResMajor? ==> Moves(p, '.', ResFirstMinor)
    ensures p.state.ResMinor? ==> Moves(p, ' ', ResFirstStatusCode)
    ensures p.state.ResStatusCode? ==> Moves(p, ' ', ResStatusStart)
  {
    hide Moves;
    if p.state.ResMajor? { ResponseMoves(p, '.', ResFirstMinor); }
    if p.state.ResMinor? { ResponseMoves(p, ' ', ResFirstStatusCode); }
    if p.state.ResStatusCode? { ResponseMoves(p, ' ', ResStatusStart); }
  }

  /** A status line: the parser knows the version and the code, and has told the reason. */
  lemma StatusLineRun(p: Parser, major: string, minor: string, code: string, reason: string)
    requires p.state.StartRes? && IsStatus(major, minor, code, reason)
    ensures NumberOf(major) >= 0 && NumberOf(minor) >= 0 && NumberOf(code) >= 0
    ensures Goes(p, StatusLine(major, minor, code, reason),
                 Answering(p, if reason == [] then p.index else 0, NumberOf(major), NumberOf(minor), NumberOf(code)),
                 [MessageBegin] + DataEvents(Status, reason))
  {
    hide Run, Byte;
    NumbersRun(p, major, minor, code);
    var head := "HTTP/" + major + "." + minor + " " + code + " ";
    var a := Answering(p, p.index, NumberOf(major), NumberOf(minor), NumberOf(code)).(state := ResStatusStart);
    Quiet([MessageBegin] + DataEvents(Status, reason));
    if reason == [] {
      StatusEnds(a);
      GoesOn(p, head, a, [MessageBegin], CRLF, a.(state := HeaderFieldStart), []);
      assert head + [] == head && [MessageBegin] + [] == [MessageBegin];
    } else {
      ReasonRun(a, reason);
      var b := a.(state := ResStatus, index := 0);
      StatusEnds(b);
      GoesOn(p, head, a, [MessageBegin], reason, b, DataEvents(Status, reason));
      GoesOn(p, head + reason, b, [MessageBegin] + DataEvents(Status, reason), CRLF, b.(state := HeaderFieldStart), []);
    }
  }

  // ---------------------------------------------------------------------------
  // Other beginnings
  // ---------------------------------------------------------------------------

  /** A parser for either kind takes what begins like the name of the protocol for a response. */
  lemma EitherIsResponse(p: Parser)
    requires p.state.StartReqOrRes?
    ensures Goes(p, "HT", p.(kind := Response, state := ResHT, flags := NO_FLAGS, length := NO_LENGTH), [MessageBegin])
  {
    hide Run, Byte;
    var q := p.(state := ResOrRespH, flags := NO_FLAGS, length := NO_LENGTH);
    EitherFirst(p, 'H');
    EitherSecond(q, 'T');
    Two(p, 'H', q, [MessageBegin], 'T', q.(kind := Response, state := ResHT), []);
    Quiet([MessageBegin]);
    assert ['H', 'T'] == "HT";
  }

  /** ... what begins like HEAD for that ... */
  lemma EitherIsHead(p: Parser)
    requires p.state.StartReqOrRes?
    ensures Goes(p, "HE", HttpMethods.At(p.(kind := Request), "HEAD", 2), [MessageBegin])
  {
    hide Run, Byte;
    var q := p.(state := ResOrRespH, flags := NO_FLAGS, length := NO_LENGTH);
    EitherFirst(p, 'H');
    EitherSecond(q, 'E');
    Two(p, 'H', q, [MessageBegin], 'E', HttpMethods.At(p.(kind := Request), "HEAD", 2), []);
    Quiet([MessageBegin]);
    assert ['H', 'E'] == "HE";
  }

  /** ... and anything else for a request. */
  lemma EitherIsRequest(p: Parser, c: char)
    requires p.state.StartReqOrRes? && c != 'H' && c != CR && c != LF
    ensures Byte(p, c) == Byte(p.(kind := Request, state := StartReq, flags := NO_FLAGS, length := NO_LENGTH), c)
  {
    hide Byte;
    StartSwitch(p, c);
    ByteAgain(p, c);
  }

  lemma StartSwitch(p: Parser, c: char)
    requires p.state.StartReqOrRes? || p.state.ResOrRespH? || p.state.Dead?
    ensures Switch(p, c) == ActStart(p, c)
  {
    hide ActHeader, ActChunk, ActHeadersAlmostDone, ActHeadersDone, ActResponse, ActMethod, ActRequest, ActStart,
        ActBody;
  }

  lemma EitherFirst(p: Parser, c: char)
    requires p.state.StartReqOrRes? && c == 'H'
    ensures Byte(p, c) == Some(Step(p.(state := ResOrRespH, flags := NO_FLAGS, length := NO_LENGTH), [MessageBegin]))
  {
    hide Byte, Switch;
    StartSwitch(p, c);
    ByteDone(p, c);
  }

  lemma EitherSecond(p: Parser, c: char)
    requires p.state.ResOrRespH?
    ensures c == 'T' ==> Byte(p, c) == Some(Step(p.(kind := Response, state := ResHT), []))
    ensures c == 'E' ==>
        Byte(p, c) == Some(Step(p.(kind := Request, verb := "HEAD", index := 2, state := ReqMethod), []))
    ensures c != 'T' && c != 'E' ==> Byte(p, c).None?
  {
    hide Byte, Switch;
    StartSwitch(p, c);
    if c == 'T' || c == 'E' { ByteDone(p, c); } else { ByteFails(p, c); }
  }

  /** A connection that is not kept takes line ends and nothing else. */
  lemma DeadTakes(p: Parser, c: char)
    requires p.state.Dead?
    ensures Byte(p, c) == if c == CR || c == LF then Some(Step(p, [])) else None
  {
    hide Byte, Switch;
    StartSwitch(p, c);
    if c == CR || c == LF { ByteDone(p, c); } else { ByteFails(p, c); }
  }

  /** A request line without a version is one of version 0.9. */
  lemma OldRequest(p: Parser)
    requires IsUrlState(p.state) && MayEnd(p.state)
    ensures Goes(p, CRLF, p.(state := HeaderFieldStart, major := 0, minor := 9), [])
  {
    hide Run, Byte, Moves, ActRequest;
    OldEnds(p);
    var q := p.(state := ReqLineAlmostDone, major := 0, minor := 9);
    LastOfLine(q);
    Unmoved(q, LF, HeaderFieldStart);
    Two(p, CR, q, [], LF, q.(state := HeaderFieldStart), []);
    Quiet([]);
    assert [CR, LF] == CRLF;
  }

  lemma OldEnds(p: Parser)
    requires IsUrlState(p.state) && MayEnd(p.state)
    ensures Byte(p, CR) == Some(Step(p.(state := ReqLineAlmostDone, major := 0, minor := 9), []))
  {
    hide Byte;
    LineByte(p, CR);
    assert [] + Marked(ReqLineAlmostDone, CR) == [];
  }

  lemma LastOfLine(p: Parser)
    requires p.state.ReqLineAlmostDone?
    ensures Moves(p, LF, HeaderFieldStart)
  {
    hide Byte, Moves;
    RequestMoves(p, LF, HeaderFieldStart);
  }

  lemma Unmoved(p: Parser, c: char, s: S)
    requires Moves(p, c, s)
    ensures Byte(p, c) == Some(Step(p.(state := s), []))
  {
  }
}
