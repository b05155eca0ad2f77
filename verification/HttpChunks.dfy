/** Chunked bodies (section 3.6.1 of RFC 2616): what the parser makes of an encoded body is that body. */
module HttpChunks {
  import opened Options
  import opened HttpSpec
  import opened HttpInvariant
  import opened HttpParser
  import opened HttpLane
  import opened HttpSteps
  import opened HttpCount
  import opened HttpMachine

  /** The largest size the accumulator takes. */
  const MAX_CHUNK: nat := NO_LENGTH - 16

  predicate IsHex(c: char) { IsNum(c) || 'a' <= c <= 'f' || 'A' <= c <= 'F' }

  predicate AllHex(s: string) { forall i :: 0 <= i < |s| ==> IsHex(s[i]) }

  predicate IsNumeral(s: string) { s != [] && AllHex(s) }

  /** A hexadecimal digit; any other byte counts as 0. */
  function HexDigit(c: char): (d: nat)
    ensures d < 16 && (IsHex(c) ==> Unhex(c) == Some(d))
  {
    if IsHex(c) then Unhex(c).value else 0
  }

  /** The number a hexadecimal numeral stands for. */
  function HexValue(s: string): nat {
    if s == [] then 0 else HexValue(s[..|s| - 1]) * 16 + HexDigit(s[|s| - 1])
  }

  /** The bytes the parser takes for digits: the hexadecimal ones, and all that are no ASCII. */
  predicate PassesAsDigit(c: char) { IsHex(c) || c >= '\U{080}' }

  /** One chunk as written: any numeral for its size, any extension, its data. */
  datatype Chunk = Chunk(size: string, extension: string, data: string)

  predicate IsExtension(s: string)
  {
    s == [] || ((s[0] == ';' || s[0] == ' ') && forall i :: 0 <= i < |s| ==> s[i] != CR)
  }

  predicate WellFormed(c: Chunk) {
    IsNumeral(c.size) && IsExtension(c.extension) && HexValue(c.size) == |c.data| <= MAX_CHUNK
  }

  function Line(c: Chunk): string { c.size + (c.extension + [CR, LF]) }

  function EncodeChunk(c: Chunk): string { Line(c) + (c.data + [CR, LF]) }

  function EncodeChunks(cs: seq<Chunk>): string {
    if cs == [] then [] else EncodeChunk(cs[0]) + EncodeChunks(cs[1..])
  }

  /** The chunks, the last chunk, whose size is zero, and the empty line. */
  function Encode(cs: seq<Chunk>, last: Chunk): string { EncodeChunks(cs) + (Line(last) + [CR, LF]) }

  function ToldOf(c: Chunk): seq<Event> { [ChunkHeader(|c.data|)] + DataEvents(Body, c.data) + [ChunkComplete] }

  /** What the callbacks should be told about a chunked body. */
  function Told(cs: seq<Chunk>): seq<Event> {
    if cs == [] then [ChunkHeader(0), ChunkComplete, MessageComplete] else ToldOf(cs[0]) + Told(cs[1..])
  }

  function BodyOf(cs: seq<Chunk>): string {
    if cs == [] then [] else cs[0].data + BodyOf(cs[1..])
  }

  // ---------------------------------------------------------------------------
  // One chunk
  // ---------------------------------------------------------------------------

  lemma UnhexIsDigit(c: char)
    ensures Unhex(c) == if PassesAsDigit(c) then Some(HexDigit(c)) else None
  {
  }

  lemma FirstDigit(p: Parser, c: char)
    requires p.state.ChunkSizeStart?
    ensures Byte(p, c) ==
            if PassesAsDigit(c) then Some(Step(p.(length := HexDigit(c), state := ChunkSize), [])) else None
  {
    hide Byte, Unhex, PassesAsDigit, HexDigit;
    UnhexIsDigit(c);
    if PassesAsDigit(c) { ByteDone(p, c); } else { ByteFails(p, c); }
  }

  lemma NextDigit(p: Parser, c: char)
    requires p.state.ChunkSize? && PassesAsDigit(c)
    ensures Byte(p, c) == if p.length * 16 + HexDigit(c) > MAX_CHUNK then None
                          else Some(Step(p.(length := p.length * 16 + HexDigit(c)), []))
  {
    hide Byte, Unhex;
    assert c != CR by { assert !PassesAsDigit(CR); }
    UnhexIsDigit(c);
    if p.length <= (NO_LENGTH - 16) / 16 { DigitFits(p.length, 16, HexDigit(c)); }
    if ActChunk(p, c).Done? { ByteDone(p, c); } else { ByteFails(p, c); }
  }

  lemma NoDigit(p: Parser, c: char)
    requires p.state.ChunkSize? && !PassesAsDigit(c)
    ensures Byte(p, c).Some? ==> !Byte(p, c).value.p.state.ChunkSize?
  {
    hide Byte, Unhex, PassesAsDigit, HexDigit;
    UnhexIsDigit(c);
    if ActChunk(p, c).Done? { ByteDone(p, c); } else { ByteFails(p, c); }
  }

  lemma ParameterByte(p: Parser, c: char)
    requires p.state.ChunkSize? || p.state.ChunkParameters?
    requires c == CR || p.state.ChunkParameters? || c == ';' || c == ' '
    ensures Byte(p, c) == Some(Step(p.(state := if c == CR then ChunkSizeAlmostDone else ChunkParameters), []))
  {
    hide Byte;
    ByteDone(p, c);
  }

  lemma LineByte(p: Parser)
    requires p.state.ChunkSizeAlmostDone?
    ensures Byte(p, LF) == Some(Step(AfterLine(p, p.length), [ChunkHeader(p.length)]))
  {
    hide Byte;
    ByteDone(p, LF);
  }

  lemma ChunkEndBytes(p: Parser)
    ensures p.state.ChunkDataAlmostDone? ==> Byte(p, CR) == Some(Step(p.(state := ChunkDataDone), []))
    ensures p.state.ChunkDataDone? ==> Byte(p, LF) == Some(Step(p.(state := ChunkSizeStart), [ChunkComplete]))
  {
    hide Byte;
    if p.state.ChunkDataAlmostDone? { ByteDone(p, CR); }
    if p.state.ChunkDataDone? { ByteDone(p, LF); }
  }

  lemma TrailerEnds(p: Parser)
    requires p.state.HeaderFieldStart?
    ensures Byte(p, CR) == Some(Step(p.(state := HeadersAlmostDone), []))
  {
    hide Byte;
    ByteDone(p, CR);
  }

  lemma LastByteOfAll(p: Parser)
    requires p.flags.trailing && !p.upgrade && p.state.HeadersAlmostDone?
    ensures var q := p.(state := MessageDone);
            Byte(p, LF) == Some(Step(q.(state := NewMessage(q)), [ChunkComplete, MessageComplete]))
  {
    hide Byte, NewMessage, Switch, FieldAt;
    var q := p.(state := MessageDone);
    LastPasses(p);
    NewMessageIsUnmarked(q);
    ByteAgain(p, LF);
    ByteDone(q, LF);
    assert [ChunkComplete] + [MessageComplete] == [ChunkComplete, MessageComplete];
  }

  lemma LastPasses(p: Parser)
    requires p.flags.trailing && !p.upgrade && p.state.HeadersAlmostDone?
    ensures var q := p.(state := MessageDone);
            Switch(p, LF) == Again(q, [ChunkComplete])
                && Switch(q, LF) == Done(q.(state := NewMessage(q)), [MessageComplete])
  {
    hide NewMessage;
  }

  lemma NewMessageIsUnmarked(p: Parser)
    ensures FieldAt(NewMessage(p)).None?
  {
  }

  predicate AllPass(s: string) { forall i :: 0 <= i < |s| ==> PassesAsDigit(s[i]) }

  /** The accumulator holds the true value of what passes as a numeral, or it is refused. */
  lemma {:induction false} SizeRun(p: Parser, s: string)
    requires p.state.ChunkSizeStart? && s != [] && AllPass(s)
    ensures Run(p, s) == if HexValue(s) > MAX_CHUNK then None
        else Some(Step(p.(length := HexValue(s), state := ChunkSize), []))
    decreases |s|
  {
    hide Byte, PassesAsDigit, HexDigit;
    var last := s[|s| - 1];
    if |s| == 1 {
      OneByte(p, last);
      assert s == [last] && HexValue(s[..0]) == 0;
      FirstDigit(p, last);
    } else {
      SizeRun(p, s[..|s| - 1]);
      NextDigit(p.(length := HexValue(s[..|s| - 1]), state := ChunkSize), last);
    }
  }

  /** All of s is taken for a chunk size. */
  ghost predicate ReadAsSize(p: Parser, s: string) {
    forall k :: 0 < k <= |s| ==> Run(p, s[..k]).Some? && Run(p, s[..k]).value.p.state.ChunkSize?
  }

  lemma {:induction false} ValueGrows(s: string, k: nat)
    requires k <= |s|
    ensures HexValue(s[..k]) <= HexValue(s)
    decreases |s|
  {
    if k == |s| {
      assert s[..k] == s;
    } else {
      assert s[..|s| - 1][..k] == s[..k];
      ValueGrows(s[..|s| - 1], k);
    }
  }

  lemma SizeByte(p: Parser, s: string, i: nat)
    requires p.state.ChunkSizeStart? && i < |s| && ReadAsSize(p, s)
    ensures PassesAsDigit(s[i])
  {
    hide Run, Byte, PassesAsDigit, HexDigit;
    assert s[..i + 1] == s[..i] + [s[i]];
    RunSnoc(p, s[..i], s[i]);
    if i == 0 {
      RunNothing(p);
      FirstDigit(p, s[i]);
    } else {
      assert Run(p, s[..i]).value.p.state.ChunkSize?;
      if !PassesAsDigit(s[i]) { NoDigit(Run(p, s[..i]).value.p, s[i]); }
    }
  }

  /**
  What is taken for a chunk size, of all strings: hexadecimal digits and bytes that
  are no ASCII, which count as 0, up to the limit.
  */
  lemma SizeExactly(p: Parser, s: string)
    requires p.state.ChunkSizeStart? && s != []
    ensures ReadAsSize(p, s) <==> AllPass(s) && HexValue(s) <= MAX_CHUNK
    ensures ReadAsSize(p, s) ==> Run(p, s) == Some(Step(p.(length := HexValue(s), state := ChunkSize), []))
  {
    hide Run, Byte, PassesAsDigit, HexValue;
    if ReadAsSize(p, s) {
      forall i | 0 <= i < |s| ensures PassesAsDigit(s[i]) { SizeByte(p, s, i); }
      assert s[..|s|] == s;
    }
    if AllPass(s) {
      SizeRun(p, s);
      forall k | 0 < k <= |s| && HexValue(s) <= MAX_CHUNK
        ensures Run(p, s[..k]).Some? && Run(p, s[..k]).value.p.state.ChunkSize?
      {
        ValueGrows(s, k);
        SizeRun(p, s[..k]);
      }
    }
  }

  /** A byte that is no digit of any kind passes as one: the size line 1 and 0x80 announces sixteen bytes. */
  lemma HighByteIsDigit(p: Parser)
    requires p.state.ChunkSizeStart?
    ensures !IsNumeral("1\U{0080}")
    ensures Run(p, "1\U{0080}\r\n") == Some(Step(p.(length := 16, state := ChunkData), [ChunkHeader(16)]))
  {
    hide Run, Byte;
    var s := "1\U{0080}";
    assert !IsHex(s[1]) && AllPass(s);
    assert s[..1] == ['1'] && HexValue(s[..1]) == 1;
    assert HexValue(s) == 16;
    SizeRun(p, s);
    var q := p.(length := 16, state := ChunkSize);
    ParameterByte(q, CR);
    LineByte(q.(state := ChunkSizeAlmostDone));
    CrLf(q, q.(state := ChunkSizeAlmostDone), p.(length := 16, state := ChunkData), [ChunkHeader(16)]);
    assert "1\U{0080}\r\n" == s + [CR, LF];
    RunConcat(p, s, [CR, LF]);
    assert [] + [ChunkHeader(16)] == [ChunkHeader(16)];
  }

  lemma {:induction false} ParametersRun(p: Parser, s: string)
    requires p.state.ChunkParameters? && forall i :: 0 <= i < |s| ==> s[i] != CR
    ensures Run(p, s) == Some(Step(p, []))
    decreases |s|
  {
    hide Byte;
    if s == [] {
      assert Run(p, s) == Some(Step(p, []));
    } else {
      ParametersRun(p, s[..|s| - 1]);
      ParameterByte(p, s[|s| - 1]);
      assert Byte(p, s[|s| - 1]) == Some(Step(p, [])) by { assert p.(state := ChunkParameters) == p; }
      assert Run(p, s).value.events == [] + [];
    }
  }

  lemma ExtensionRun(p: Parser, s: string)
    requires p.state.ChunkSize? && IsExtension(s)
    ensures exists q :: (q == p || q == p.(state := ChunkParameters)) && Run(p, s) == Some(Step(q, []))
  {
    hide Byte;
    if s != [] {
      var q := p.(state := ChunkParameters);
      assert s == [s[0]] + s[1..];
      OneByte(p, s[0]);
      ParameterByte(p, s[0]);
      ParametersRun(q, s[1..]);
      RunConcat(p, [s[0]], s[1..]);
      assert Run(p, s) == Some(Step(q, []));
    } else {
      assert Run(p, s) == Some(Step(p, []));
    }
  }

  lemma CrLf(p: Parser, q: Parser, r: Parser, e: seq<Event>)
    requires Byte(p, CR) == Some(Step(q, [])) && Byte(q, LF) == Some(Step(r, e))
    ensures Run(p, [CR, LF]) == Some(Step(r, e))
  {
    hide Byte;
    OneByte(p, CR);
    OneByte(q, LF);
    assert [CR, LF] == [CR] + [LF];
    RunConcat(p, [CR], [LF]);
    assert [] + e == e;
  }

  function AfterLine(p: Parser, n: nat): Parser {
    if n == 0 then p.(length := 0, state := HeaderFieldStart, flags := p.flags.(trailing := true))
        else p.(length := n, state := ChunkData)
  }

  lemma ExtensionEnds(p: Parser, s: string)
    requires p.state.ChunkSize? && IsExtension(s)
    ensures Run(p, s + [CR]) == Some(Step(p.(state := ChunkSizeAlmostDone), []))
  {
    hide Byte, Run, IsExtension;
    ExtensionRun(p, s);
    var q :| (q == p || q == p.(state := ChunkParameters)) && Run(p, s) == Some(Step(q, []));
    ParameterByte(q, CR);
    RunSnoc(p, s, CR);
    QuietThen(q, Byte(q, CR).value);
  }

  lemma QuietThen(p: Parser, s: Step)
    ensures Then(Step(p, []), Some(s)) == Some(s)
  {
    assert [] + s.events == s.events;
  }

  /** A chunk line up to its line feed. */
  lemma LineBefore(p: Parser, c: Chunk)
    requires p.state.ChunkSizeStart? && WellFormed(c)
    ensures Run(p, c.size + (c.extension + [CR]))
        == Some(Step(p.(length := |c.data|, state := ChunkSizeAlmostDone), []))
  {
    hide Byte, Run, HexValue, IsHex, IsExtension;
    SizeRun(p, c.size);
    ExtensionEnds(p.(length := |c.data|, state := ChunkSize), c.extension);
    RunConcat(p, c.size, c.extension + [CR]);
    QuietThen(p, Step(p.(length := |c.data|, state := ChunkSizeAlmostDone), []));
  }

  lemma LineRun(p: Parser, c: Chunk)
    requires p.state.ChunkSizeStart? && WellFormed(c)
    ensures Run(p, Line(c)) == Some(Step(AfterLine(p, |c.data|), [ChunkHeader(|c.data|)]))
  {
    hide Byte, Run, WellFormed;
    LineBefore(p, c);
    var d := p.(length := |c.data|, state := ChunkSizeAlmostDone);
    LineByte(d);
    assert Line(c) == c.size + (c.extension + [CR]) + [LF];
    RunSnoc(p, c.size + (c.extension + [CR]), LF);
    assert [] + [ChunkHeader(|c.data|)] == [ChunkHeader(|c.data|)];
  }

  lemma ChunkRun(p: Parser, c: Chunk)
    requires p.state.ChunkSizeStart? && WellFormed(c) && c.data != []
    ensures Run(p, EncodeChunk(c)) == Some(Step(p.(length := 0), ToldOf(c)))
  {
    hide Byte, Run, DataEvents, WellFormed, Line;
    LineRun(p, c);
    var a := AfterLine(p, |c.data|);
    ChunkStretch(a, c.data, 0, |c.data|);
    assert c.data[0..|c.data|] == c.data;
    var b := a.(length := 0, state := ChunkDataAlmostDone);
    var d := b.(state := ChunkDataDone);
    ChunkEndBytes(b);
    ChunkEndBytes(d);
    CrLf(b, d, p.(length := 0), [ChunkComplete]);
    RunConcat(a, c.data, [CR, LF]);
    RunConcat(p, Line(c), c.data + [CR, LF]);
    assert [ChunkHeader(|c.data|)] + (DataEvents(Body, c.data) + [ChunkComplete]) == ToldOf(c);
  }

  /** The last chunk and the empty line behind it end the message. */
  lemma EndRun(p: Parser, last: Chunk)
    requires p.state.ChunkSizeStart? && WellFormed(last) && last.data == [] && !p.upgrade
    ensures var q := p.(length := 0, flags := p.flags.(trailing := true), state := MessageDone);
            Run(p, Line(last) + [CR, LF]) == Some(Step(q.(state := NewMessage(q)), Told([])))
  {
    hide Byte, Run, NewMessage, WellFormed, Line;
    LineRun(p, last);
    var a := AfterLine(p, 0);
    var b := a.(state := HeadersAlmostDone);
    var q := a.(state := MessageDone);
    TrailerEnds(a);
    LastByteOfAll(b);
    CrLf(a, b, q.(state := NewMessage(q)), [ChunkComplete, MessageComplete]);
    RunConcat(p, Line(last), [CR, LF]);
    assert [ChunkHeader(0)] + [ChunkComplete, MessageComplete] == Told([]);
  }

  // ---------------------------------------------------------------------------
  // Whole bodies
  // ---------------------------------------------------------------------------

  /** Decoding undoes encoding: one header and one completion for each chunk, its bytes between them, and one end. */
  lemma {:induction false} ChunkedBody(p: Parser, cs: seq<Chunk>, last: Chunk)
    requires p.state.ChunkSizeStart? && !p.upgrade
    requires forall c :: c in cs ==> WellFormed(c) && c.data != []
    requires WellFormed(last) && last.data == []
    ensures var q := p.(length := 0, flags := p.flags.(trailing := true), state := MessageDone);
            Run(p, Encode(cs, last)) == Some(Step(q.(state := NewMessage(q)), Told(cs)))
    decreases |cs|
  {
    hide Byte, Run, NewMessage, WellFormed;
    if cs == [] {
      EndRun(p, last);
      assert Encode(cs, last) == Line(last) + [CR, LF];
    } else {
      ChunkRun(p, cs[0]);
      ChunkedBody(p.(length := 0), cs[1..], last);
      assert Encode(cs, last) == EncodeChunk(cs[0]) + Encode(cs[1..], last);
      RunConcat(p, EncodeChunk(cs[0]), Encode(cs[1..], last));
    }
  }

  /** The body bytes among what the callbacks were told. */
  function BodyBytes(es: seq<Event>): string {
    if es == [] then []
    else (if es[0].Data? && es[0].field == Body then [es[0].byte] else []) + BodyBytes(es[1..])
  }

  lemma {:induction false} BodyBytesConcat(a: seq<Event>, b: seq<Event>)
    ensures BodyBytes(a + b) == BodyBytes(a) + BodyBytes(b)
    decreases |a|
  {
    if a == [] {
      assert a + b == b;
    } else {
      assert (a + b)[1..] == a[1..] + b;
      BodyBytesConcat(a[1..], b);
    }
  }

  lemma {:induction false} BodyBytesOfData(s: string)
    ensures BodyBytes(DataEvents(Body, s)) == s
    decreases |s|
  {
    if s != [] {
      BodyBytesOfData(s[..|s| - 1]);
      BodyBytesConcat(DataEvents(Body, s[..|s| - 1]), [Data(Body, s[|s| - 1])]);
      assert BodyBytes([Data(Body, s[|s| - 1])]) == [s[|s| - 1]] + BodyBytes([]);
    }
  }

  lemma NoBody(e: Event)
    requires !e.Data?
    ensures BodyBytes([e]) == []
  {
    assert [e][1..] == [];
  }

  lemma EndHasNoBody()
    ensures BodyBytes(Told([])) == []
  {
    NoBody(ChunkHeader(0));
    NoBody(ChunkComplete);
    NoBody(MessageComplete);
    BodyBytesConcat([ChunkHeader(0)], [ChunkComplete]);
    BodyBytesConcat([ChunkHeader(0)] + [ChunkComplete], [MessageComplete]);
    assert [ChunkHeader(0)] + [ChunkComplete] + [MessageComplete] == Told([]);
  }

  /** The body callbacks concatenate to the body. */
  lemma {:induction false} BodyIsDelivered(cs: seq<Chunk>)
    ensures BodyBytes(Told(cs)) == BodyOf(cs)
    decreases |cs|
  {
    hide DataEvents, BodyBytes;
    if cs == [] {
      EndHasNoBody();
    } else {
      var c := cs[0];
      BodyIsDelivered(cs[1..]);
      BodyBytesConcat(ToldOf(c), Told(cs[1..]));
      BodyBytesConcat([ChunkHeader(|c.data|)] + DataEvents(Body, c.data), [ChunkComplete]);
      BodyBytesConcat([ChunkHeader(|c.data|)], DataEvents(Body, c.data));
      BodyBytesOfData(c.data);
      NoBody(ChunkHeader(|c.data|));
      NoBody(ChunkComplete);
    }
  }

  // ---------------------------------------------------------------------------
  // The count of header bytes
  // ---------------------------------------------------------------------------

  /** The byte at i is counted once, and nothing is reset. */
  ghost predicate PlainAt(p: Parser, s: string, i: nat)
    requires i < |s|
  {
    Accepts(p, s[..i]) &&
    (var q := Run(p, s[..i]).value.p;
     ParsingHeader(q.state) && !InLoop(q.state) && (i < |s| - 1 ==> !Resets(q, s[i])))
  }

  lemma {:induction false} PlainWorst(p: Parser, s: string, n: nat, i: nat)
    requires i < |s| && forall k :: 0 <= k < |s| ==> PlainAt(p, s, k)
    ensures Worst(p, s[..i], n) == n + i
    ensures WorstAt(p, s, n, i) <==> n + i < MAX_HEADER_SIZE
    decreases i
  {
    hide Run, Byte, Resets, Worst, PlainAt;
    if i == 0 {
      assert s[..0] == [];
      WorstNothing(p, n);
    } else {
      PlainWorst(p, s, n, i - 1);
      assert s[..i] == s[..i - 1] + [s[i - 1]];
      PlainStep(p, s, i - 1);
      WorstSnoc(p, s[..i - 1], s[i - 1], n);
    }
    PlainStep(p, s, i);
  }

  lemma PlainStep(p: Parser, s: string, i: nat)
    requires i < |s| && PlainAt(p, s, i)
    ensures Accepts(p, s[..i])
    ensures var q := Run(p, s[..i]).value.p;
            ParsingHeader(q.state) && Cost(q, s[i]) == 1 && (i < |s| - 1 ==> !Resets(q, s[i]))
  {
    hide Run, Byte, Resets;
  }

  lemma PlainFits(p: Parser, s: string, n: nat)
    requires s != [] && n <= MAX_HEADER_SIZE && forall k :: 0 <= k < |s| ==> PlainAt(p, s, k)
    ensures WorstFits(p, s, n) <==> n + |s| <= MAX_HEADER_SIZE
  {
    hide PlainAt, WorstAt;
    forall i | 0 <= i < |s| ensures WorstAt(p, s, n, i) <==> n + i < MAX_HEADER_SIZE { PlainWorst(p, s, n, i); }
    if WorstFits(p, s, n) { assert WorstAt(p, s, n, |s| - 1); }
  }

  predicate InChunkLine(s: S) {
    s.ChunkSizeStart? || s.ChunkSize? || s.ChunkParameters? || s.ChunkSizeAlmostDone?
  }

  lemma NoReset(p: Parser, ch: char)
    requires IsChunkState(p.state) && !ResetsCount(p.state)
    ensures !Resets(p, ch)
  {
    hide ActChunk;
  }

  lemma LineFeedResets(p: Parser)
    requires p.state.ChunkSizeAlmostDone? || p.state.ChunkDataDone?
    ensures Resets(p, LF)
  {
  }

  /** Until its line feed a chunk line stays in the states of chunk lines. */
  lemma LineState(p: Parser, c: Chunk, i: nat)
    requires p.state.ChunkSizeStart? && WellFormed(c) && i < |Line(c)|
    ensures Accepts(p, Line(c)[..i])
    ensures var q := Run(p, Line(c)[..i]).value.p;
            InChunkLine(q.state) && (i < |Line(c)| - 1 ==> !q.state.ChunkSizeAlmostDone?)
  {
    hide Run, Byte, HexValue, IsHex;
    if i <= |c.size| {
      assert Line(c)[..i] == c.size[..i];
      SizeState(p, c.size, i);
    } else if i <= |c.size| + |c.extension| {
      var k := i - |c.size|;
      SizeState(p, c.size, |c.size|);
      assert c.size[..|c.size|] == c.size;
      var q := Run(p, c.size).value.p;
      ExtensionRun(q, c.extension[..k]);
      assert Line(c)[..i] == c.size + c.extension[..k];
      RunConcat(p, c.size, c.extension[..k]);
    } else {
      assert Line(c)[..i] == c.size + (c.extension + [CR]);
      LineBefore(p, c);
    }
  }

  lemma SizeState(p: Parser, s: string, i: nat)
    requires p.state.ChunkSizeStart? && IsNumeral(s) && HexValue(s) <= MAX_CHUNK && i <= |s|
    ensures Accepts(p, s[..i])
    ensures var q := Run(p, s[..i]).value.p;
            if i == 0 then q == p else q.state.ChunkSize?
  {
    hide Run, Byte, HexValue, IsHex;
    if i == 0 {
      RunNothing(p);
    } else {
      ValueGrows(s, i);
      SizeRun(p, s[..i]);
    }
  }

  lemma LinePlain(p: Parser, c: Chunk, i: nat)
    requires p.state.ChunkSizeStart? && WellFormed(c) && i < |Line(c)|
    ensures PlainAt(p, Line(c), i)
  {
    hide Run, WellFormed, Line, Resets;
    LineState(p, c, i);
    var q := Run(p, Line(c)[..i]).value.p;
    if i < |Line(c)| - 1 { NoReset(q, Line(c)[i]); }
  }

  /**
  A chunk line fits however it is cut exactly when it is no longer than the limit; the
  count starts afresh behind it.
  */
  lemma LineFits(p: Parser, c: Chunk)
    requires p.state.ChunkSizeStart? && WellFormed(c)
    ensures WorstFits(p, Line(c), 0) <==> |Line(c)| <= MAX_HEADER_SIZE
    ensures Worst(p, Line(c), 0) == 0
  {
    hide Byte, Run, WellFormed, WorstFits, Resets, PlainAt, Worst;
    forall k | 0 <= k < |Line(c)| ensures PlainAt(p, Line(c), k) { LinePlain(p, c, k); }
    PlainFits(p, Line(c), 0);
    LineBefore(p, c);
    LineFeedResets(p.(length := |c.data|, state := ChunkSizeAlmostDone));
    assert Line(c) == c.size + (c.extension + [CR]) + [LF];
    WorstSnoc(p, c.size + (c.extension + [CR]), LF, 0);
  }

  lemma DataState(p: Parser, s: string, i: nat)
    requires p.state.ChunkData? && p.length == |s| > 0 && i < |s| + 2
    ensures var before := Run(p, (s + [CR, LF])[..i]);
            before.Some? && !ParsingHeader(before.value.p.state)
                && (i == |s| + 1 ==> before.value.p.state.ChunkDataDone?)
  {
    hide Byte, Run, DataEvents;
    var all := s + [CR, LF];
    if i <= |s| {
      ChunkStretch(p, all, 0, i);
      assert all[0..i] == all[..i];
    } else {
      ChunkStretch(p, all, 0, |s|);
      assert all[0..|s|] == s;
      var q := AfterChunkBytes(p, |s|);
      ChunkEndBytes(q);
      assert all[..i] == s + [CR];
      RunSnoc(p, s, CR);
    }
  }

  /** Chunk data is not counted, whatever its length. */
  lemma DataFits(p: Parser, s: string)
    requires p.state.ChunkData? && p.length == |s| > 0
    ensures WorstFits(p, s + [CR, LF], 0) && Worst(p, s + [CR, LF], 0) == 0
  {
    hide Byte, Run, Resets, Worst, DataEvents, Cost;
    var all := s + [CR, LF];
    forall i | 0 <= i < |all| ensures WorstAt(p, all, 0, i) { DataState(p, s, i); }
    DataState(p, s, |s| + 1);
    LineFeedResets(Run(p, all[..|s| + 1]).value.p);
    assert all == all[..|s| + 1] + [LF];
    WorstSnoc(p, all[..|s| + 1], LF, 0);
  }

  lemma ChunkFits(p: Parser, c: Chunk)
    requires p.state.ChunkSizeStart? && WellFormed(c) && c.data != []
    ensures WorstFits(p, EncodeChunk(c), 0) <==> |Line(c)| <= MAX_HEADER_SIZE
    ensures Worst(p, EncodeChunk(c), 0) == 0
  {
    hide Byte, Run, Worst, WorstFits, WellFormed, Line;
    LineRun(p, c);
    LineFits(p, c);
    DataFits(AfterLine(p, |c.data|), c.data);
    WorstFitsConcat(p, Line(c), c.data + [CR, LF], 0);
    WorstConcat(p, Line(c), c.data + [CR, LF], 0);
  }

  /** The empty line behind the last chunk line. */
  lemma TailFits(p: Parser)
    requires p.state.HeaderFieldStart?
    ensures WorstFits(p, [CR, LF], 0)
  {
    hide Byte, Run, Worst, Resets;
    TrailerEnds(p);
    OneByte(p, CR);
    var s := [CR, LF];
    forall i | 0 <= i < |s| ensures WorstAt(p, s, 0, i) {
      if i == 0 {
        assert s[..0] == [];
        WorstNothing(p, 0);
        RunNothing(p);
      } else {
        assert s[..1] == [] + [CR];
        RunNothing(p);
        RunSnoc(p, [], CR);
        WorstNothing(p, 0);
        WorstSnoc(p, [], CR, 0);
      }
    }
  }

  /**
  However long the body, its encoding comes through every cut exactly when no chunk
  line is longer than the limit.
  */
  lemma {:induction false} BodyFits(p: Parser, cs: seq<Chunk>, last: Chunk)
    requires p.state.ChunkSizeStart? && !p.upgrade
    requires forall c :: c in cs ==> WellFormed(c) && c.data != []
    requires WellFormed(last) && last.data == []
    ensures WorstFits(p, Encode(cs, last), 0) <==>
            (forall c :: c in cs ==> |Line(c)| <= MAX_HEADER_SIZE) && |Line(last)| <= MAX_HEADER_SIZE
    decreases |cs|
  {
    hide Byte, Run, Worst, WorstFits, WellFormed, Line, EncodeChunk;
    if cs == [] {
      assert Encode(cs, last) == Line(last) + [CR, LF];
      LineRun(p, last);
      LineFits(p, last);
      TailFits(AfterLine(p, 0));
      WorstFitsConcat(p, Line(last), [CR, LF], 0);
    } else {
      ChunkRun(p, cs[0]);
      ChunkFits(p, cs[0]);
      BodyFits(p.(length := 0), cs[1..], last);
      assert Encode(cs, last) == EncodeChunk(cs[0]) + Encode(cs[1..], last);
      WorstFitsConcat(p, EncodeChunk(cs[0]), Encode(cs[1..], last), 0);
      assert forall c :: c in cs <==> c == cs[0] || c in cs[1..];
    }
  }

  /**
  However an encoded body is chopped, and however long it is, the parser object
  delivers it, when no chunk line is longer than the header limit.
  */
  method ReceiveBody(m: Machine, pieces: seq<string>, ghost cs: seq<Chunk>, ghost last: Chunk)
    requires m.Valid() && m.errno.Fine? && m.it.state.ChunkSizeStart? && !m.it.upgrade
    requires forall s :: s in pieces ==> s != [] && |s| + MAX_HEADER_SIZE < WORD
    requires forall c :: c in cs ==> WellFormed(c) && c.data != [] && |Line(c)| <= MAX_HEADER_SIZE
    requires WellFormed(last) && last.data == [] && |Line(last)| <= MAX_HEADER_SIZE
    requires Flatten(pieces) == Encode(cs, last)
    modifies m
    ensures m.errno.Fine? && m.Valid()
    ensures m.out == old(m.out) + Told(cs) && BodyBytes(Told(cs)) == BodyOf(cs)
    ensures m.it.state == NewMessage(m.it) && m.it.length == 0
  {
    hide Byte, Run, WellFormed, BodyBytes, Told, Encode, WorstFits, Line, Pieces, CutFits, CutLeft;
    ChunkedBody(m.it, cs, last);
    BodyIsDelivered(cs);
    BodyFits(m.it, cs, last);
    CutWithin(m.it, pieces, 0);
    PiecesExactly(m.it, pieces, m.out, 0);
    m.Feed(pieces);
  }
}
