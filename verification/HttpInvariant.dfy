/** What the asserts of http_parser_execute claim, kept by every byte. */
module HttpInvariant {
  import opened Options
  import opened HttpSpec

  /** The header states the name matcher moves between. */
  predicate NameState(h: H) {
    h.General? || h.C? || h.CO? || h.CON? || h.MatchingConnection? || h.MatchingProxyConnection?
        || h.MatchingContentLength?
    || h.MatchingTransferEncoding? || h.MatchingUpgrade? || h.Connection? || h.ContentLength? || h.TransferEncoding?
        || h.Upgrade?
  }

  /**
  Chunk states belong to chunked messages; a body that is being counted has bytes
  left and its length is never the sentinel; the header matchers stand in states
  their switches know.
  */
  predicate Inv(p: Parser) {
    && p.length <= NO_LENGTH
    && (IsChunkState(p.state) || p.state.ChunkData? ==> p.flags.chunked)
    && (p.state.ChunkSize? || p.state.ChunkParameters? || p.state.ChunkSizeAlmostDone? ==> p.length < NO_LENGTH)
    && (p.state.ChunkData? || p.state.BodyIdentity? ==> 0 < p.length < NO_LENGTH)
    && (p.state.ChunkDataAlmostDone? ==> p.length == 0)
    && (p.state.HeaderField? ==> NameState(p.h))
    && (p.state.HeaderValue? ==> !p.h.Connection? && !p.h.TransferEncoding?)
    && (p.state.HeaderValue? && p.h.ContentLength? ==> p.length < NO_LENGTH)
  }

  /** http_parser_init */
  function Init(kind: Kind, lenient: bool): (p: Parser)
    ensures Inv(p)
  {
    Parser(kind, if kind == Request then StartReq else if kind == Response then StartRes else StartReqOrRes,
           General, 0, NO_FLAGS, 0, 0, 0, 0, "DELETE", false, lenient)
  }

  /** The accumulators hold the true number: the conservative limits leave no room to wrap or to meet the sentinel. */
  lemma DigitFits(length: nat, base: nat, d: nat)
    requires (base == 16 && length <= (NO_LENGTH - 16) / 16) || (base == 10 && length <= (NO_LENGTH - 10) / 10)
    requires d < base
    ensures (length * base + d) % (NO_LENGTH + 1) == length * base + d < NO_LENGTH
  {
    assert length * base + d < NO_LENGTH;
  }

  lemma ValueKeeps(p: Parser, ch: char)
    requires Inv(p) && p.state.HeaderValue? && ValueMatch(ValueOf(p), ch).Some?
    ensures Inv(WithValue(p, ValueMatch(ValueOf(p), ch).value))
  {
    if p.h.ContentLength? && IsNum(ch) && !((NO_LENGTH - 10) / 10 < p.length) {
      DigitFits(p.length, 10, Digit(ch));
    }
    hide TokenOf, Lower, IsNum;
  }

  lemma StartKeeps(p: Parser, ch: char)
    requires Inv(p) && StartValue(p, ch).Done?
    ensures Inv(StartValue(p, ch).p)
  {
    hide Lower;
  }

  lemma HeaderKeeps(p: Parser, ch: char)
    requires Inv(p) && IsHeaderState(p.state) && !ActHeader(p, ch).Fail?
    ensures Inv(ActHeader(p, ch).p)
  {
    hide ActHeader, Inv;
    match p.state
    case HeaderValue => HeaderValueKeeps(p, ch);
    case HeaderValueStart => WhitespaceKeeps(p, ch);
    case HeaderValueDiscardWs => WhitespaceKeeps(p, ch);
    case HeaderField => HeaderFieldKeeps(p, ch);
    case HeaderFieldStart => HeaderStartKeeps(p, ch);
    case _ => LineEndKeeps(p, ch);
  }

  lemma HeaderValueKeeps(p: Parser, ch: char)
    requires Inv(p) && p.state.HeaderValue? && !ActHeader(p, ch).Fail?
    ensures Inv(ActHeader(p, ch).p)
  {
    hide ValueMatch, IsHeaderChar, WithValue;
    if ch != CR && ch != LF && ValueMatch(ValueOf(p), ch).Some? { ValueKeeps(p, ch); }
  }

  lemma WhitespaceKeeps(p: Parser, ch: char)
    requires Inv(p) && (p.state.HeaderValueStart? || p.state.HeaderValueDiscardWs?) && !ActHeader(p, ch).Fail?
    ensures Inv(ActHeader(p, ch).p)
  {
    hide StartValue;
    if StartValue(p, ch).Done? { StartKeeps(p, ch); }
  }

  lemma HeaderFieldKeeps(p: Parser, ch: char)
    requires Inv(p) && p.state.HeaderField? && !ActHeader(p, ch).Fail?
    ensures Inv(ActHeader(p, ch).p)
  {
    hide TokenOf, FieldMatch, NameState;
    NameKeeps(p.h, p.index, TokenOf(ch), ch);
  }

  lemma HeaderStartKeeps(p: Parser, ch: char)
    requires Inv(p) && p.state.HeaderFieldStart? && !ActHeader(p, ch).Fail?
    ensures Inv(ActHeader(p, ch).p)
  {
    hide ActHeader, FirstOfField, NameState, TokenOf;
    HeaderStarts(p, ch);
    NameBegins(TokenOf(ch));
  }

  lemma HeaderStarts(p: Parser, ch: char)
    requires p.state.HeaderFieldStart? && !ActHeader(p, ch).Fail?
    ensures ActHeader(p, ch).p == p.(state := HeadersAlmostDone)
         || ActHeader(p, ch).p == p.(index := 0, h := FirstOfField(TokenOf(ch)), state := HeaderField)
  {
    hide FirstOfField, TokenOf, StartValue, FieldMatch, ValueMatch, FlagFor;
  }

  lemma LineEndKeeps(p: Parser, ch: char)
    requires Inv(p) && !ActHeader(p, ch).Fail?
    requires p.state.HeaderValueDiscardWsAlmostDone? || p.state.HeaderValueDiscardLws? || p.state.HeaderAlmostDone?
        || p.state.HeaderValueLws?
    ensures Inv(ActHeader(p, ch).p)
  {
    hide FlagFor;
  }

  lemma NameKeeps(h: H, index: nat, c: char, ch: char)
    requires NameState(h)
    ensures NameState(FieldMatch(h, index, c, ch).0)
  {
  }

  lemma NameBegins(c: char)
    ensures NameState(FirstOfField(c))
  {
  }

  lemma ChunkKeeps(p: Parser, ch: char)
    requires Inv(p) && IsChunkState(p.state) && !ActChunk(p, ch).Fail?
    ensures Inv(ActChunk(p, ch).p)
  {
    if p.state.ChunkSize? && Unhex(ch).Some? && !((NO_LENGTH - 16) / 16 < p.length) {
      DigitFits(p.length, 16, Unhex(ch).value);
    }
  }

  lemma LineKeeps(p: Parser)
    requires IsLineState(p.state) && p.length <= NO_LENGTH
    ensures Inv(p)
  {
  }

  lemma StartKeepsInv(p: Parser, ch: char)
    requires Inv(p) && !ActStart(p, ch).Fail?
    ensures Inv(ActStart(p, ch).p)
  {
  }

  lemma HeadersKeep(p: Parser, ch: char)
    requires Inv(p)
    ensures !ActHeadersAlmostDone(p, ch).Fail? ==> Inv(ActHeadersAlmostDone(p, ch).p)
    ensures !ActHeadersDone(p, ch).Fail? ==> Inv(ActHeadersDone(p, ch).p)
  {
    hide NeedsEof, ShouldKeepAlive;
  }

  lemma BodyKeeps(p: Parser, ch: char)
    requires Inv(p) && !ActBody(p, ch).Fail?
    ensures Inv(ActBody(p, ch).p)
  {
    hide NeedsEof, ShouldKeepAlive;
  }

  lemma SwitchKeeps(p: Parser, ch: char)
    requires Inv(p) && !Switch(p, ch).Fail?
    ensures Inv(Switch(p, ch).p)
  {
    hide ActHeader, ActChunk, ActResponse, ActRequest, ActMethod, ActStart, ActHeadersAlmostDone, ActHeadersDone,
        ActBody;
    if IsHeaderState(p.state) {
      HeaderKeeps(p, ch);
    } else if IsChunkState(p.state) {
      ChunkKeeps(p, ch);
    } else if p.state.HeadersAlmostDone? || p.state.HeadersDone? {
      HeadersKeep(p, ch);
    } else if IsLineState(p.state) {
      LineKeeps(Switch(p, ch).p);
    } else if p.state.Dead? || p.state.StartReqOrRes? || p.state.ResOrRespH? {
      StartKeepsInv(p, ch);
    } else {
      BodyKeeps(p, ch);
    }
  }

  lemma {:induction false} ByteKeeps(p: Parser, ch: char)
    requires Inv(p) && Byte(p, ch).Some?
    ensures Inv(Byte(p, ch).value.p)
    decreases Rank(p.state)
  {
    hide Switch, Inv;
    SwitchKeeps(p, ch);
    if Switch(p, ch).Again? {
      RankFalls(p, ch);
      ByteKeeps(Switch(p, ch).p, ch);
    }
  }

  /** The invariant holds wherever a run can lead. */
  lemma {:induction false} RunKeeps(p: Parser, bytes: string)
    requires Inv(p) && Run(p, bytes).Some?
    ensures Inv(Run(p, bytes).value.p)
  {
    hide Byte, Inv;
    if bytes != [] {
      RunKeeps(p, bytes[..|bytes| - 1]);
      ByteKeeps(Run(p, bytes[..|bytes| - 1]).value.p, bytes[|bytes| - 1]);
    }
  }
}
