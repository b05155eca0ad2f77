/** Whole requests through the parser object, however the input is cut. */
module HttpExchanges {
  import opened Options
  import opened HttpSpec
  import opened HttpInvariant
  import opened HttpParser
  import opened HttpLane
  import opened HttpSteps
  import opened HttpCount
  import opened HttpMachine
  import opened HttpRuns
  import opened HttpMethods
  import opened HttpTargets
  import opened HttpLines
  import opened HttpHeaders
  import opened HttpMessages
  import HttpLength
  import HttpNames

  // ---------------------------------------------------------------------------
  // What the header limit lets through
  // ---------------------------------------------------------------------------

  lemma {:induction false} WorstAtMost(p: Parser, s: string, n: nat)
    ensures Worst(p, s, n) <= n + 2 * |s|
    decreases |s|
  {
    hide Run, Byte, Resets, Cost;
    if s != [] {
      WorstAtMost(p, s[..|s| - 1], n);
      if Run(p, s[..|s| - 1]).Some? { CostAtMost(Run(p, s[..|s| - 1]).value.p, s[|s| - 1]); }
    }
  }

  lemma CostAtMost(p: Parser, ch: char)
    ensures Cost(p, ch) <= 2
  {
  }

  /** Half of the limit is room for any cut. */
  lemma ShortWorst(p: Parser, s: string, n: nat)
    requires n + 2 * |s| <= MAX_HEADER_SIZE
    ensures WorstFits(p, s, n)
  {
    hide Run, Worst, Cost;
    forall i | 0 <= i < |s| ensures WorstAt(p, s, n, i) {
      WorstAtMost(p, s[..i], n);
      if Run(p, s[..i]).Some? { CostAtMost(Run(p, s[..i]).value.p, s[i]); }
    }
  }

  /** The bytes of a counted body are not held against the limit. */
  lemma BodyWorst(p: Parser, s: string, n: nat)
    requires p.state.BodyIdentity? && p.length == |s| > 0
    ensures WorstFits(p, s, n)
  {
    hide Run, Worst, Cost;
    forall i | 0 <= i < |s| ensures WorstAt(p, s, n, i) {
      CountedRun(p, s, i);
    }
  }

  // ---------------------------------------------------------------------------
  // Requests
  // ---------------------------------------------------------------------------

  /** What a request with a counted body tells. */
  function Told(u: string, xs: seq<Header>, body: string): seq<Event> {
    [MessageBegin] + DataEvents(Url, u) + (BlockEvents(xs) + [HeadersComplete])
    + (DataEvents(Body, body) + [MessageComplete])
  }

  lemma RequestFits(p: Parser, m: string, u: string, major: string, minor: string, xs: seq<Header>, body: string)
    requires p.state.StartReq? && p.kind == Request && IsRequest(m, u, major, minor, xs) && body != []
    requires Effects(BARE, xs).Some?
    requires var memory := Effects(BARE, xs).value;
             FramingOf(Request, m, p.status, memory) == Counted(|body|) && !Leaves(m, memory.flags)
    requires 2 * |RequestLine(m, u, major, minor) + Block(xs)| <= MAX_HEADER_SIZE
    ensures WorstFits(p, RequestLine(m, u, major, minor) + Block(xs) + body, 0)
  {
    hide Run, Byte, Worst, WorstFits, RequestLine, Block, BlockEvents, Effects, IsMethod, IsTarget, Unbroken, Persists;
    var head := RequestLine(m, u, major, minor) + Block(xs);
    RequestRun(p, m, u, major, minor, xs);
    var q := Run(p, head).value.p;
    CountedState(AtHeaders(p, m, NumberOf(major), NumberOf(minor)), Effects(BARE, xs).value, q, |body|);
    ShortWorst(p, head, 0);
    BodyWorst(q, body, Worst(p, head, 0));
    WorstFitsConcat(p, head, body, 0);
  }

  /**
  A request with a body as long as its headers say, however it is cut: everything is told in
  order, and the parser is ready for the next request, or is done, as the headers ask.
  */
  method ReceiveRequest(machine: Machine, pieces: seq<string>, ghost m: string, ghost u: string, ghost major: string,
                        ghost minor: string, ghost xs: seq<Header>, ghost body: string)
    requires machine.Valid() && machine.errno.Fine? && machine.it.state.StartReq? && machine.it.kind == Request
    requires machine.nread == 0
    requires forall s :: s in pieces ==> s != [] && |s| + MAX_HEADER_SIZE < WORD
    requires IsRequest(m, u, major, minor, xs) && body != [] && Effects(BARE, xs).Some?
    requires var memory := Effects(BARE, xs).value;
             FramingOf(Request, m, machine.it.status, memory) == Counted(|body|) && !Leaves(m, memory.flags)
    requires 2 * |RequestLine(m, u, major, minor) + Block(xs)| <= MAX_HEADER_SIZE
    requires Flatten(pieces) == RequestLine(m, u, major, minor) + Block(xs) + body
    modifies machine
    ensures machine.errno.Fine? && machine.Valid()
    ensures machine.out == old(machine.out) + Told(u, xs, body)
    ensures NumberOf(major) >= 0 && NumberOf(minor) >= 0
    ensures machine.it.state
         == if Persists(NumberOf(major), NumberOf(minor), Effects(BARE, xs).value.flags) then StartReq else Dead
  {
    hide Byte, Run, RequestLine, Block, BlockEvents, Effects, IsMethod, IsTarget, Unbroken, WorstFits, Pieces, CutFits,
        CutLeft, Persists, FramingOf, Leaves, Flatten;
    RequestWithBody(machine.it, m, u, major, minor, xs, body);
    RequestFits(machine.it, m, u, major, minor, xs, body);
    CutWithin(machine.it, pieces, 0);
    PiecesExactly(machine.it, pieces, machine.out, 0);
    machine.Feed(pieces);
  }

  // ---------------------------------------------------------------------------
  // One such request
  // ---------------------------------------------------------------------------

  const POST: string := "POST / HTTP/1.1\r\n" + "Content-Length: 5\r\n" + "\r\n" + "hello"

  const FIVE: Header := Header("Content-Length", " ", "5")

  lemma PostLineIs()
    ensures RequestLine("POST", "/", "1", "1") == "POST / HTTP/1.1\r\n"
  {
    assert "POST" + " " == "POST ";
    assert "/" + " " == "/ ";
    assert "POST " + "/ " == "POST / ";
    assert "HTTP/" + "1" == "HTTP/1";
    assert "HTTP/1" + "." == "HTTP/1.";
    assert "HTTP/1." + "1" == "HTTP/1.1";
    assert "HTTP/1.1" + "\r\n" == "HTTP/1.1\r\n";
    assert "POST / " + "HTTP/1.1\r\n" == "POST / HTTP/1.1\r\n";
  }

  lemma LengthLineIs()
    ensures Line(FIVE) == "Content-Length: 5\r\n"
  {
    assert "Content-Length" + ":" == "Content-Length:";
    assert " " + "5" == " 5";
    assert " 5" + "\r\n" == " 5\r\n";
    assert "Content-Length:" + " 5\r\n" == "Content-Length: 5\r\n";
  }

  lemma PostIs()
    ensures POST == RequestLine("POST", "/", "1", "1") + Block([FIVE]) + "hello"
  {
    hide RequestLine, Line;
    PostLineIs();
    LengthLineIs();
    assert [FIVE][1..] == [];
    assert Block([]) == "\r\n";
    assert Block([FIVE]) == Line(FIVE) + "\r\n";
    Regrouped(RequestLine("POST", "/", "1", "1"), Line(FIVE), "\r\n");
  }

  lemma Regrouped(a: string, b: string, c: string)
    ensures a + b + c == a + (b + c)
  {
  }

  lemma NameIs()
    ensures HttpNames.Lowered("Content-Length") == "content-length"
  {
  }

  lemma FiveIs()
    ensures HttpHeaders.WellFormed(FIVE) && HttpNames.Lowered("Content-Length") == "content-length"
    ensures HttpLength.IsLength("5") && HttpLength.DecimalValue("5") == 5
  {
    NameIs();
    IsAName();
    assert HttpLength.DecimalValue("5"[..0]) == 0;
    hide HttpNames.IsName;
  }

  lemma IsAName()
    ensures HttpNames.IsName("Content-Length")
  {
  }

  lemma PostEffect()
    ensures Effects(BARE, [FIVE]) == Some(Memory(NO_FLAGS.(contentLength := true), 5))
  {
    FiveIs();
    assert [FIVE][1..] == [];
    hide HttpNames.Lowered, HttpLength.IsLength, HttpLength.DecimalValue;
    assert Effect(BARE, FIVE) == Some(Memory(NO_FLAGS.(contentLength := true), 5));
  }

  lemma PostIsRequest()
    ensures IsRequest("POST", "/", "1", "1", [FIVE]) && NumberOf("1") == 1
    ensures |RequestLine("POST", "/", "1", "1") + Block([FIVE])| == |POST| - 5 && |POST| < 100
  {
    FiveIs();
    PostIs();
    assert NumberOf("1"[..0]) == 0;
    hide HttpHeaders.WellFormed;
    assert Visible("/");
  }

  /** The five bytes that Content-Length announces are the body, and a further request may follow. */
  method Post(pieces: seq<string>) returns (machine: Machine)
    requires Flatten(pieces) == POST && forall s :: s in pieces ==> s != [] && |s| < 100
    ensures machine.errno.Fine? && machine.it.state.StartReq?
    ensures machine.out
         == [MessageBegin] + [Data(Url, '/')]
            + (DataEvents(HeaderFieldName, "Content-Length") + DataEvents(HeaderFieldValue, "5") + [HeadersComplete])
            + (DataEvents(Body, "hello") + [MessageComplete])
  {
    hide RequestLine, Block, Effects, IsRequest, Flatten;
    PostIs();
    PostEffect();
    PostIsRequest();
    PostTold();
    machine := new Machine(Request, false);
    ReceiveRequest(machine, pieces, "POST", "/", "1", "1", [FIVE], "hello");
  }

  lemma PostTold()
    ensures Told("/", [FIVE], "hello")
         == [MessageBegin] + [Data(Url, '/')]
            + (DataEvents(HeaderFieldName, "Content-Length") + DataEvents(HeaderFieldValue, "5") + [HeadersComplete])
            + (DataEvents(Body, "hello") + [MessageComplete])
  {
    hide DataEvents;
    OneDatum(Url, '/');
    assert [FIVE][1..] == [];
    assert BlockEvents([FIVE]) == LineEvents(FIVE) + [];
    assert LineEvents(FIVE) + [] == LineEvents(FIVE);
  }
}
