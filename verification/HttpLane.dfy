/**
http_parser_execute one byte at a time, with what a byte-wise parser does not know:
the count of header bytes, and whether the loop over a header name or value is
running, which is where the count is only checked at the end and where the rest of
a value is no longer looked at.
*/
module HttpLane {
  import opened Options
  import opened HttpSpec
  import opened HttpParser

  /** The error number: none, any error but one, HPE_HEADER_OVERFLOW. */
  datatype Outcome = Fine | Failed | Overflow

  /** PARSING_HEADER() */
  predicate ParsingHeader(s: S) {
    !(s.ChunkData? || s.ChunkDataAlmostDone? || s.ChunkDataDone? || s.BodyIdentity? || s.BodyIdentityEof?
        || s.MessageDone?)
  }

  /** The states with a loop of their own over header bytes. */
  predicate InLoop(s: S) { s.HeaderField? || s.HeaderValue? }

  /** The byte is taken by one of the states that set nread to zero. */
  predicate Resets(p: Parser, ch: char)
    decreases Rank(p.state)
  {
    match Switch(p, ch)
    case Fail => false
    case Done(_, _) => ResetsCount(p.state)
    case Again(q, _) =>
      RankFalls(p, ch);
      Resets(q, ch)
  }

  /** No inner loop is running, one is, or it runs and jumps to the end of the line. */
  datatype Mode = Outside | Inside | Skipping

  /** The parser, what it has told, its nread, and its inner loop. */
  datatype Lane = Lane(p: Parser, events: seq<Event>, n: nat, mode: Mode)

  datatype Track = At(lane: Lane) | Stopped(errno: Outcome)

  /** The count at the top of the outer loop: once for each byte that no inner loop takes. */
  function Begin(l: Lane): Track {
    if !l.mode.Outside? || !ParsingHeader(l.p.state) then At(l)
    else if l.n + 1 > MAX_HEADER_SIZE then Stopped(Overflow)
    else At(l.(n := l.n + 1, mode := if InLoop(l.p.state) then Inside else Outside))
  }

  /** A byte in the loop over a name; the bytes of the loop are held against the limit where it ends. */
  function InName(l: Lane, ch: char): Track {
    if TokenOf(ch) != '\0' then
      var (h, index) := FieldMatch(l.p.h, l.p.index, TokenOf(ch), ch);
      At(Lane(l.p.(h := h, index := index), l.events + [Data(HeaderFieldName, ch)], l.n + 1, Inside))
    else if l.n > MAX_HEADER_SIZE then Stopped(Overflow)
    else if ch == ':' then At(l.(p := l.p.(state := HeaderValueDiscardWs), mode := Outside))
    else Stopped(Failed)
  }

  /** A byte in the loop over a value: behind the first of a value that no longer matters there is no check. */
  function InValue(l: Lane, ch: char): Track {
    if ch == CR || ch == LF then
      if l.n > MAX_HEADER_SIZE then Stopped(Overflow)
      else At(l.(p := l.p.(state := if ch == CR then HeaderAlmostDone else HeaderValueLws), mode := Outside))
    else if !l.mode.Skipping? && !l.p.lenient && !IsHeaderChar(ch) then Stopped(Failed)
    else
      var v := ValueMatch(ValueOf(l.p), ch);
      if v.None? then Stopped(Failed)
      else At(Lane(WithValue(l.p, v.value), l.events + [Data(HeaderFieldValue, ch)], l.n + 1,
                   if l.p.h.General? then Skipping else Inside))
  }

  function Through(l: Lane, ch: char): Track {
    if l.p.state.HeaderField? then InName(l, ch)
    else if l.p.state.HeaderValue? then InValue(l, ch)
    else
      match Byte(l.p, ch)
      case None => Stopped(Failed)
      case Some(s) => At(Lane(s.p, l.events + s.events, if Resets(l.p, ch) then 0 else l.n, Outside))
  }

  function Take(l: Lane, ch: char): Track {
    match Begin(l)
    case At(b) => Through(b, ch)
    case Stopped(e) => Stopped(e)
  }

  function Walk(l: Lane, s: string): Track {
    if s == [] then At(l)
    else
      match Walk(l, s[..|s| - 1])
      case At(m) => Take(m, s[|s| - 1])
      case Stopped(e) => Stopped(e)
  }

  /** The end of the piece ends an inner loop. */
  function Close(l: Lane): Track {
    if !l.mode.Outside? && l.n > MAX_HEADER_SIZE then Stopped(Overflow) else At(l.(mode := Outside))
  }

  /** One call of http_parser_execute. */
  function Piece(l: Lane, s: string): Track {
    match Walk(l, s)
    case At(m) => Close(m)
    case Stopped(e) => Stopped(e)
  }

  /** One call for each piece. */
  function Pieces(l: Lane, pieces: seq<string>): Track {
    if pieces == [] then At(l)
    else
      match Pieces(l, pieces[..|pieces| - 1])
      case At(m) => Piece(m, pieces[|pieces| - 1])
      case Stopped(e) => Stopped(e)
  }

  lemma WalkSnoc(l: Lane, s: string, ch: char)
    ensures Walk(l, s + [ch]) == if Walk(l, s).At? then Take(Walk(l, s).lane, ch) else Walk(l, s)
  {
    hide Take;
    assert (s + [ch])[..|s|] == s;
  }

  lemma {:induction false} WalkConcat(l: Lane, a: string, b: string)
    ensures Walk(l, a + b) == if Walk(l, a).At? then Walk(Walk(l, a).lane, b) else Walk(l, a)
    decreases |b|
  {
    hide Take;
    if b == [] {
      assert a + b == a;
    } else {
      var last := |b| - 1;
      assert (a + b)[..|a + b| - 1] == a + b[..last] && (a + b)[|a + b| - 1] == b[last];
      WalkConcat(l, a, b[..last]);
    }
  }

  lemma WalkOne(l: Lane, ch: char)
    ensures Walk(l, [ch]) == Take(l, ch)
  {
    hide Take;
    assert [ch][..0] == [];
    assert Walk(l, [ch][..0]) == At(l);
  }

  /** Entering a loop before its first byte changes nothing. */
  lemma WalkBegun(l: Lane, b: Lane, s: string)
    requires Begin(l) == At(b) && !b.mode.Outside? && s != []
    ensures Walk(l, s) == Walk(b, s)
  {
    hide Through;
    assert s == [s[0]] + s[1..];
    WalkOne(l, s[0]);
    WalkOne(b, s[0]);
    WalkConcat(l, [s[0]], s[1..]);
    WalkConcat(b, [s[0]], s[1..]);
  }

  /** What stops within a piece stops the piece. */
  lemma PieceStops(l: Lane, s: string, i: nat)
    requires i <= |s| && Walk(l, s[..i]).Stopped?
    ensures Piece(l, s) == Walk(l, s[..i])
  {
    hide Walk;
    assert s == s[..i] + s[i..];
    WalkConcat(l, s[..i], s[i..]);
  }

  lemma PieceConcat(l: Lane, a: string, b: string)
    ensures Piece(l, a + b) == if Walk(l, a).At? then Piece(Walk(l, a).lane, b) else Walk(l, a)
  {
    hide Walk;
    WalkConcat(l, a, b);
  }
}
