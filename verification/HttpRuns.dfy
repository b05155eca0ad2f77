/** Runs over several pieces, with what they tell. */
module HttpRuns {
  import opened Options
  import opened HttpSpec
  import opened HttpParser

  /** Over s the parser p becomes q and tells es. */
  ghost predicate Goes(p: Parser, s: string, q: Parser, es: seq<Event>) {
    Run(p, s) == Some(Step(q, es))
  }

  lemma GoesOn(p: Parser, s: string, q: Parser, es: seq<Event>, t: string, r: Parser, fs: seq<Event>)
    requires Goes(p, s, q, es) && Goes(q, t, r, fs)
    ensures Goes(p, s + t, r, es + fs)
  {
    hide Byte, Run;
    RunConcat(p, s, t);
  }

  /** What is refused in the middle is refused. */
  lemma RefusedBehind(p: Parser, s: string, q: Parser, es: seq<Event>, t: string)
    requires Goes(p, s, q, es) && Run(q, t).None?
    ensures Run(p, s + t).None?
  {
    hide Byte, Run;
    RunConcat(p, s, t);
  }

  lemma RefusedBefore(p: Parser, s: string, t: string)
    requires Run(p, s).None?
    ensures Run(p, s + t).None?
  {
    hide Byte, Run;
    RunConcat(p, s, t);
  }

  lemma GoesNowhere(p: Parser)
    ensures Goes(p, [], p, [])
  {
  }

  lemma GoesByte(p: Parser, ch: char, q: Parser, es: seq<Event>)
    requires Byte(p, ch) == Some(Step(q, es))
    ensures Goes(p, [ch], q, es)
  {
    hide Byte, Run;
    OneByte(p, ch);
  }

  /** One byte more. */
  lemma GoesMore(p: Parser, s: string, q: Parser, es: seq<Event>, ch: char, r: Parser, fs: seq<Event>)
    requires Goes(p, s, q, es) && Byte(q, ch) == Some(Step(r, fs))
    ensures Goes(p, s + [ch], r, es + fs)
  {
    hide Byte, Run;
    RunSnoc(p, s, ch);
  }

  lemma Two(p: Parser, a: char, q: Parser, es: seq<Event>, b: char, r: Parser, fs: seq<Event>)
    requires Byte(p, a) == Some(Step(q, es)) && Byte(q, b) == Some(Step(r, fs))
    ensures Goes(p, [a, b], r, es + fs)
  {
    hide Byte, Run;
    GoesByte(p, a, q, es);
    GoesMore(p, [a], q, es, b, r, fs);
    assert [a] + [b] == [a, b];
  }

  // ---------------------------------------------------------------------------
  // Bytes of the parts of a message
  // ---------------------------------------------------------------------------

  lemma HeaderByte(p: Parser, ch: char)
    requires IsHeaderState(p.state) && ActHeader(p, ch).Done?
    ensures var q := ActHeader(p, ch).p;
            Byte(p, ch) == Some(Step(q, ActHeader(p, ch).events + Marked(q.state, ch)))
  {
    hide ActHeader, ActChunk, ActHeadersAlmostDone, ActHeadersDone, ActResponse, ActMethod, ActRequest, ActStart,
        ActBody, Marked;
    ByteDone(p, ch);
  }

  lemma HeaderRefuses(p: Parser, ch: char)
    requires IsHeaderState(p.state) && ActHeader(p, ch).Fail?
    ensures Byte(p, ch).None?
  {
    hide ActHeader, ActChunk, ActHeadersAlmostDone, ActHeadersDone, ActResponse, ActMethod, ActRequest, ActStart,
        ActBody;
    ByteFails(p, ch);
  }

  lemma HeaderAgain(p: Parser, ch: char)
    requires IsHeaderState(p.state) && ActHeader(p, ch).Again? && ActHeader(p, ch).events == []
    ensures Byte(p, ch) == Byte(ActHeader(p, ch).p, ch)
  {
    hide ActHeader, ActChunk, ActHeadersAlmostDone, ActHeadersDone, ActResponse, ActMethod, ActRequest, ActStart,
        ActBody, Byte;
    ByteAgain(p, ch);
  }

  lemma MethodByte(p: Parser, ch: char)
    requires p.state.StartReq? || p.state.ReqMethod?
    ensures ActMethod(p, ch).Fail? ==> Byte(p, ch).None?
    ensures ActMethod(p, ch).Done? ==>
        Byte(p, ch) == Some(Step(ActMethod(p, ch).p, ActMethod(p, ch).events + Marked(ActMethod(p, ch).p.state, ch)))
  {
    hide ActHeader, ActChunk, ActHeadersAlmostDone, ActHeadersDone, ActResponse, ActMethod, ActRequest, ActStart,
        ActBody, Marked;
    if ActMethod(p, ch).Fail? { ByteFails(p, ch); } else { ByteDone(p, ch); }
  }

  lemma LineByte(p: Parser, ch: char)
    requires IsRequestState(p.state) && !p.state.StartReq? && !p.state.ReqMethod?
    ensures ActRequest(p, ch).Fail? ==> Byte(p, ch).None?
    ensures ActRequest(p, ch).Done? ==>
        Byte(p, ch) == Some(Step(ActRequest(p, ch).p, ActRequest(p, ch).events + Marked(ActRequest(p, ch).p.state, ch)))
  {
    hide ActHeader, ActChunk, ActHeadersAlmostDone, ActHeadersDone, ActResponse, ActMethod, ActRequest, ActStart,
        ActBody, Marked;
    if ActRequest(p, ch).Fail? { ByteFails(p, ch); } else { ByteDone(p, ch); }
  }

  lemma StatusByte(p: Parser, ch: char)
    requires IsResponseState(p.state)
    ensures ActResponse(p, ch).Fail? ==> Byte(p, ch).None?
    ensures ActResponse(p, ch).Done? ==>
        Byte(p, ch)
        == Some(Step(ActResponse(p, ch).p, ActResponse(p, ch).events + Marked(ActResponse(p, ch).p.state, ch)))
  {
    hide ActHeader, ActChunk, ActHeadersAlmostDone, ActHeadersDone, ActResponse, ActMethod, ActRequest, ActStart,
        ActBody, Marked;
    if ActResponse(p, ch).Fail? { ByteFails(p, ch); } else { ByteDone(p, ch); }
  }

  /** The parser with all headers read. */
  function Headed(p: Parser): Parser {
    p.(state := HeadersDone, upgrade := (p.flags.upgrade && p.flags.connUpgrade) || p.verb == "CONNECT")
  }

  lemma NoFieldBehind(p: Parser)
    ensures ActHeadersDone(p, LF).Done? ==> FieldAt(ActHeadersDone(p, LF).p.state).None?
    ensures FieldAt(NewMessage(p)).None?
  {
    hide NeedsEof, ShouldKeepAlive;
  }

  /** The line feed of the empty line. */
  lemma HeadEnds(p: Parser)
    requires p.state.HeadersAlmostDone? && !p.flags.trailing
    ensures p.flags.chunked && p.flags.contentLength ==> Byte(p, LF).None?
    ensures !(p.flags.chunked && p.flags.contentLength) ==>
        var act := ActHeadersDone(Headed(p), LF);
        Byte(p, LF) == if act.Fail? then None else Some(Step(act.p, [HeadersComplete] + act.events))
  {
    hide Byte, ActHeadersDone;
    if p.flags.chunked && p.flags.contentLength {
      ByteFails(p, LF);
    } else {
      var q := Headed(p);
      NoFieldBehind(q);
      ByteAgain(p, LF);
      HeadersDoneSwitch(q);
      var act := ActHeadersDone(q, LF);
      if act.Fail? {
        ByteFails(q, LF);
      } else {
        ByteDone(q, LF);
        if act.events == [] { assert [HeadersComplete] + [] == [HeadersComplete]; }
      }
    }
  }

  lemma HeadersDoneSwitch(p: Parser)
    requires p.state.HeadersDone?
    ensures Switch(p, LF) == ActHeadersDone(p, LF) && !ActHeadersDone(p, LF).Again?
  {
  }

  lemma TrailerSwitches(p: Parser)
    requires p.state.HeadersAlmostDone? && p.flags.trailing
    ensures var q := p.(state := MessageDone);
            && Switch(p, LF) == Again(q, [ChunkComplete])
            && Switch(q, LF) == if p.upgrade then Fail else Done(q.(state := NewMessage(q)), [MessageComplete])
  {
    hide ActHeader, ActChunk, ActHeadersDone, ActResponse, ActMethod, ActRequest, ActStart, NewMessage;
  }

  /** The line feed behind the trailer of a chunked body. */
  lemma TrailerEnds(p: Parser)
    requires p.state.HeadersAlmostDone? && p.flags.trailing
    ensures var q := p.(state := MessageDone);
            Byte(p, LF) == if p.upgrade then None
                           else Some(Step(q.(state := NewMessage(q)), [ChunkComplete, MessageComplete]))
  {
    hide Byte, NewMessage, Switch;
    var q := p.(state := MessageDone);
    NoFieldBehind(q);
    TrailerSwitches(p);
    ByteAgain(p, LF);
    if p.upgrade { ByteFails(q, LF); } else { ByteDone(q, LF); }
    assert [ChunkComplete] + [MessageComplete] == [ChunkComplete, MessageComplete];
  }
}
