/**
What http_parser_execute accepts beyond, and refuses within, what the byte-wise parser
accepts: bytes of a value it does not look at, and headers that its count finds too
long, which depends on where the input is cut.
*/
module HttpCount {
  import opened Options
  import opened HttpSpec
  import opened HttpParser
  import opened HttpLane
  import opened HttpSteps

  // ---------------------------------------------------------------------------
  // Bytes the loop and the byte-wise parser disagree on
  // ---------------------------------------------------------------------------

  /** The byte is not looked at, and would be refused. */
  predicate Hides(l: Lane, ch: char) {
    l.mode.Skipping? && ch != CR && ch != LF && !l.p.lenient && !IsHeaderChar(ch)
  }

  /** The parser stays inside the loop of a header name or value. */
  predicate Lingers(p: Parser, ch: char) {
    InLoop(p.state) && Byte(p, ch).Some? && Byte(p, ch).value.p.state == p.state
  }

  /** The inner loop runs in its own states, with one byte counted in advance. */
  predicate Sound(l: Lane) {
    && (!l.mode.Outside? ==> InLoop(l.p.state) && l.n > 0)
    && (l.mode.Skipping? ==> l.p.state.HeaderValue? && l.p.h.General?)
  }

  /** The bytes counted so far. */
  function Counted(l: Lane): nat
    requires Sound(l)
  {
    if l.mode.Outside? then l.n else l.n - 1
  }

  /** What Take does where the byte-wise parser accepts, and where it does not. */
  ghost predicate Agrees(l: Lane, ch: char)
    requires Sound(l)
  {
    && (Byte(l.p, ch).Some? ==>
          match Take(l, ch)
          case At(m) => m.p == Byte(l.p, ch).value.p && m.events == l.events + Byte(l.p, ch).value.events
          case Stopped(e) => e == Overflow && ParsingHeader(l.p.state) && Counted(l) + 1 > MAX_HEADER_SIZE)
    && (Take(l, ch).At? ==> Sound(Take(l, ch).lane) && (Byte(l.p, ch).Some? <==> !Hides(l, ch)))
    && (Take(l, ch).At? && Byte(l.p, ch).Some? ==>
          && Counted(Take(l, ch).lane)
               == (if Resets(l.p, ch) then 0 else Counted(l) + if ParsingHeader(l.p.state) then 1 else 0)
          && (Take(l, ch).lane.mode.Outside? <==> !Lingers(l.p, ch)))
    && (Take(l, ch).At? && ParsingHeader(l.p.state) && (l.mode.Outside? || Take(l, ch).lane.mode.Outside?) ==>
          Counted(l) + 1 <= MAX_HEADER_SIZE)
  }

  lemma NameAgrees(l: Lane, ch: char)
    requires Sound(l) && l.p.state.HeaderField?
    ensures Agrees(l, ch)
  {
    hide Byte, TokenOf, FieldMatch, Resets, IsHeaderChar;
    BulkNeverResets(l.p, ch);
    if TokenOf(ch) != '\0' { NameByte(l.p, ch); } else { NameEnds(l.p, ch); assert l.events + [] == l.events; }
  }

  lemma ValueAgrees(l: Lane, ch: char)
    requires Sound(l) && l.p.state.HeaderValue?
    ensures Agrees(l, ch)
  {
    hide Byte, IsHeaderChar, ValueMatch, Resets;
    BulkNeverResets(l.p, ch);
    GeneralIsKept(l.p, ch);
    if ch == CR || ch == LF {
      ValueEnds(l.p, ch);
      assert l.events + [] == l.events;
    } else {
      ValueByte(l.p, ch);
    }
  }

  lemma GeneralIsKept(p: Parser, ch: char)
    ensures p.h.General? ==> ValueMatch(ValueOf(p), ch) == Some(ValueOf(p)) && WithValue(p, ValueOf(p)) == p
  {
    hide Lower;
  }

  lemma TakeAgrees(l: Lane, ch: char)
    requires Sound(l)
    ensures Agrees(l, ch)
  {
    hide Byte, Resets, IsHeaderChar, InName, InValue;
    if l.p.state.HeaderField? {
      NameAgrees(l, ch);
    } else if l.p.state.HeaderValue? {
      ValueAgrees(l, ch);
    }
  }

  /** The byte at i of s is not looked at, and would be refused. */
  ghost predicate HiddenAt(l: Lane, s: string, i: nat)
    requires i < |s|
  {
    Walk(l, s[..i]).At? && Hides(Walk(l, s[..i]).lane, s[i])
  }

  ghost predicate Hidden(l: Lane, s: string) {
    exists i :: 0 <= i < |s| && HiddenAt(l, s, i)
  }

  lemma {:induction false} WalkIsSound(l: Lane, s: string)
    requires Sound(l) && Walk(l, s).At?
    ensures Sound(Walk(l, s).lane)
    decreases |s|
  {
    hide Take, Byte, Agrees;
    if s != [] {
      WalkIsSound(l, s[..|s| - 1]);
      TakeIsSound(Walk(l, s[..|s| - 1]).lane, s[|s| - 1]);
    }
  }

  lemma TakeIsSound(l: Lane, ch: char)
    requires Sound(l) && Take(l, ch).At?
    ensures Sound(Take(l, ch).lane)
  {
    hide Take, Byte, Resets;
    TakeAgrees(l, ch);
  }

  /** What the byte-wise parser accepts is at most found too long. */
  lemma {:induction false} AcceptedWalk(l: Lane, s: string)
    requires Sound(l) && Accepts(l.p, s)
    ensures match Walk(l, s)
            case At(m) => Sound(m) && m.p == Run(l.p, s).value.p && m.events == l.events + Run(l.p, s).value.events
            case Stopped(e) => e == Overflow
    decreases |s|
  {
    hide Take, Byte, Resets;
    if s == [] {
      assert l.events + [] == l.events;
    } else {
      var init, last := s[..|s| - 1], s[|s| - 1];
      AcceptedWalk(l, init);
      if Walk(l, init).At? {
        TakeAgrees(Walk(l, init).lane, last);
        var q := Run(l.p, init).value;
        Grouped(l.events, q.events, Byte(q.p, last).value.events);
      }
    }
  }

  lemma HiddenInit(l: Lane, s: string, ch: char)
    ensures Hidden(l, s + [ch]) <==> Hidden(l, s) || (Walk(l, s).At? && Hides(Walk(l, s).lane, ch))
  {
    hide Walk, Hides;
    var t := s + [ch];
    forall i | 0 <= i < |s| ensures HiddenAt(l, t, i) <==> HiddenAt(l, s, i) { assert t[..i] == s[..i]; }
    assert t[..|s|] == s && t[|s|] == ch;
    if Hidden(l, s) {
      var i :| 0 <= i < |s| && HiddenAt(l, s, i);
      assert HiddenAt(l, t, i);
    }
    if Walk(l, s).At? && Hides(Walk(l, s).lane, ch) { assert HiddenAt(l, t, |s|); }
  }

  /** Where the loop gets through a piece, the byte-wise parser does so exactly when no byte of it was hidden. */
  lemma {:induction false} WalkExactly(l: Lane, s: string)
    requires Sound(l) && Walk(l, s).At?
    ensures Accepts(l.p, s) <==> !Hidden(l, s)
    decreases |s|
  {
    hide Take, Byte, Resets, Hides, Hidden;
    if s == [] {
      NothingHidden(l);
    } else {
      var init, last := s[..|s| - 1], s[|s| - 1];
      WalkExactly(l, init);
      assert s == init + [last];
      HiddenInit(l, init, last);
      if Accepts(l.p, init) {
        AcceptedWalk(l, init);
        TakeAgrees(Walk(l, init).lane, last);
      }
    }
  }

  lemma NothingHidden(l: Lane)
    ensures !Hidden(l, [])
  {
  }

  lemma AcceptsPrefix(p: Parser, s: string, i: nat)
    requires Accepts(p, s) && i <= |s|
    ensures Accepts(p, s[..i])
  {
    hide Byte;
    assert s == s[..i] + s[i..];
    RunConcat(p, s[..i], s[i..]);
  }

  /** No byte of accepted input is hidden. */
  lemma AcceptedHidesNothing(l: Lane, s: string)
    requires Sound(l) && Accepts(l.p, s)
    ensures !Hidden(l, s)
  {
    hide Byte, Run, Walk, Hides, Take, Resets;
    forall i | 0 <= i < |s| ensures !HiddenAt(l, s, i) {
      AcceptsPrefix(l.p, s, i);
      AcceptsPrefix(l.p, s, i + 1);
      assert s[..i + 1] == s[..i] + [s[i]];
      RunSnoc(l.p, s[..i], s[i]);
      AcceptedWalk(l, s[..i]);
      if HiddenAt(l, s, i) { HiddenIsRefused(Walk(l, s[..i]).lane, s[i]); }
    }
  }

  lemma HiddenIsRefused(l: Lane, ch: char)
    requires Sound(l) && Hides(l, ch)
    ensures Byte(l.p, ch).None?
  {
    hide Byte, IsHeaderChar;
    ValueByte(l.p, ch);
  }

  /** Input that no byte of which can be hidden: header characters only. */
  lemma ValidHidesNothing(l: Lane, s: string)
    requires forall i :: 0 <= i < |s| ==> IsHeaderChar(s[i])
    ensures !Hidden(l, s)
  {
    hide Walk, IsHeaderChar;
  }

  lemma HeaderKeepsLenient(p: Parser, ch: char)
    requires IsHeaderState(p.state)
    ensures !ActHeader(p, ch).Fail? ==> ActHeader(p, ch).p.lenient == p.lenient
  {
    hide ValueMatch, FieldMatch, TokenOf, FirstOfField, FlagFor, IsHeaderChar, Lower, IsNum;
  }

  lemma ResponseKeepsLenient(p: Parser, ch: char)
    ensures IsResponseState(p.state) && ActResponse(p, ch).Done? ==> ActResponse(p, ch).p.lenient == p.lenient
  {
    hide IsNum, Grow;
  }

  lemma RequestKeepsLenient(p: Parser, ch: char)
    ensures IsRequestState(p.state) && ActRequest(p, ch).Done? ==> ActRequest(p, ch).p.lenient == p.lenient
  {
    hide ParseUrlChar, IsNum, Grow;
  }

  lemma LineKeepsLenient(p: Parser, ch: char)
    ensures IsResponseState(p.state) && ActResponse(p, ch).Done? ==> ActResponse(p, ch).p.lenient == p.lenient
    ensures (p.state.StartReq? || p.state.ReqMethod?) && ActMethod(p, ch).Done? ==>
              ActMethod(p, ch).p.lenient == p.lenient
    ensures IsRequestState(p.state) && ActRequest(p, ch).Done? ==> ActRequest(p, ch).p.lenient == p.lenient
  {
    hide ActResponse, ActRequest, FirstMethod, OtherMethod;
    ResponseKeepsLenient(p, ch);
    RequestKeepsLenient(p, ch);
  }

  lemma BodyKeepsLenient(p: Parser, ch: char)
    ensures !ActChunk(p, ch).Fail? ==> ActChunk(p, ch).p.lenient == p.lenient
    ensures !ActHeadersAlmostDone(p, ch).Fail? ==> ActHeadersAlmostDone(p, ch).p.lenient == p.lenient
    ensures !ActHeadersDone(p, ch).Fail? ==> ActHeadersDone(p, ch).p.lenient == p.lenient
    ensures !ActStart(p, ch).Fail? ==> ActStart(p, ch).p.lenient == p.lenient
    ensures !ActBody(p, ch).Fail? ==> ActBody(p, ch).p.lenient == p.lenient
  {
    hide NewMessage, NeedsEof, Unhex;
  }

  lemma {:induction false} ByteKeepsLenient(p: Parser, ch: char)
    requires Byte(p, ch).Some?
    ensures Byte(p, ch).value.p.lenient == p.lenient
    decreases Rank(p.state)
  {
    hide ActHeader, ActChunk, ActHeadersAlmostDone, ActHeadersDone, ActResponse, ActMethod, ActRequest, ActStart,
        ActBody;
    if IsHeaderState(p.state) { HeaderKeepsLenient(p, ch); }
    LineKeepsLenient(p, ch);
    BodyKeepsLenient(p, ch);
    if Switch(p, ch).Again? {
      RankFalls(p, ch);
      ByteKeepsLenient(Switch(p, ch).p, ch);
    }
  }

  lemma TakeKeepsLenient(l: Lane, ch: char)
    requires Take(l, ch).At?
    ensures Take(l, ch).lane.p.lenient == l.p.lenient
  {
    hide Byte, FieldMatch, ValueMatch, TokenOf, IsHeaderChar, Resets;
    if !InLoop(l.p.state) && Byte(l.p, ch).Some? { ByteKeepsLenient(l.p, ch); }
  }

  /** A lenient parser hides nothing: it checks nothing. */
  lemma {:induction false} LenientHidesNothing(l: Lane, s: string)
    requires l.p.lenient
    ensures !Hidden(l, s)
    ensures Walk(l, s).At? ==> Walk(l, s).lane.p.lenient
    decreases |s|
  {
    hide Take, Hidden;
    if s == [] {
      NothingHidden(l);
    } else {
      var init, last := s[..|s| - 1], s[|s| - 1];
      LenientHidesNothing(l, init);
      assert s == init + [last];
      HiddenInit(l, init, last);
      if Walk(l, s).At? { TakeKeepsLenient(Walk(l, init).lane, last); }
    }
  }

  // ---------------------------------------------------------------------------
  // The count of one piece
  // ---------------------------------------------------------------------------

  /** The header bytes of s since the last reset, n of them before it. */
  function Tally(p: Parser, s: string, n: nat): nat {
    if s == [] then n
    else
      var before := Run(p, s[..|s| - 1]);
      var m := Tally(p, s[..|s| - 1], n);
      if before.None? then m
      else if Resets(before.value.p, s[|s| - 1]) then 0
      else if ParsingHeader(before.value.p.state) then m + 1
      else m
  }

  /** The header byte at i has its place within the limit. */
  ghost predicate LimitAt(p: Parser, s: string, n: nat, i: nat)
    requires i < |s|
  {
    var before := Run(p, s[..i]);
    before.Some? && ParsingHeader(before.value.p.state) ==> Tally(p, s[..i], n) + 1 <= MAX_HEADER_SIZE
  }

  /** The last byte leaves the parser inside a loop. */
  predicate EndsInside(p: Parser, s: string) {
    s != [] && Run(p, s[..|s| - 1]).Some? && Lingers(Run(p, s[..|s| - 1]).value.p, s[|s| - 1])
  }

  /** nread behind a piece: one too high when the piece ends inside a loop. */
  function Left(p: Parser, s: string, n: nat): nat {
    Tally(p, s, n) + if EndsInside(p, s) then 1 else 0
  }

  /** A piece is not too long: every header byte has its place, and one more when the piece ends inside a loop. */
  ghost predicate Fits(p: Parser, s: string, n: nat) {
    && (forall i :: 0 <= i < |s| ==> LimitAt(p, s, n, i))
    && (EndsInside(p, s) ==> Tally(p, s, n) + 1 <= MAX_HEADER_SIZE)
  }

  ghost predicate AllLimits(p: Parser, s: string, n: nat) { forall i :: 0 <= i < |s| ==> LimitAt(p, s, n, i) }

  lemma LimitsSnoc(p: Parser, s: string, ch: char, n: nat)
    requires Accepts(p, s)
    ensures AllLimits(p, s + [ch], n) <==>
            AllLimits(p, s, n) && (ParsingHeader(Run(p, s).value.p.state) ==> Tally(p, s, n) + 1 <= MAX_HEADER_SIZE)
  {
    hide Run, Tally;
    var t := s + [ch];
    forall i | 0 <= i < |s| ensures LimitAt(p, t, n, i) <==> LimitAt(p, s, n, i) { assert t[..i] == s[..i]; }
    assert t[..|s|] == s;
    if AllLimits(p, t, n) {
      assert LimitAt(p, t, n, |s|);
      forall i | 0 <= i < |s| ensures LimitAt(p, s, n, i) { assert LimitAt(p, t, n, i); }
    }
  }

  lemma TallySnoc(p: Parser, s: string, ch: char, n: nat)
    requires Accepts(p, s)
    ensures var q, m := Run(p, s).value.p, Tally(p, s, n);
            Tally(p, s + [ch], n) == if Resets(q, ch) then 0 else m + if ParsingHeader(q.state) then 1 else 0
    ensures EndsInside(p, s + [ch]) <==> Lingers(Run(p, s).value.p, ch)
  {
    hide Run, Resets, Lingers;
    assert (s + [ch])[..|s|] == s;
  }

  /** How the walk and the count of the bytes go together. */
  ghost predicate Counts(p: Parser, s: string, n: nat, t: Track) {
    match t
    case At(m) =>
      && Sound(m) && Counted(m) == Tally(p, s, n) && (m.mode.Outside? <==> !EndsInside(p, s))
      && (m.mode.Outside? || m.n <= MAX_HEADER_SIZE ==> AllLimits(p, s, n))
    case Stopped(e) => !AllLimits(p, s, n)
  }

  lemma {:induction false} WalkCounts(p: Parser, s: string, events: seq<Event>, n: nat)
    requires Accepts(p, s)
    ensures Counts(p, s, n, Walk(Lane(p, events, n, Outside), s))
    decreases |s|
  {
    hide Take, Byte, Resets, Tally, AllLimits, EndsInside, Lingers, Agrees;
    var l := Lane(p, events, n, Outside);
    if s == [] {
      CountsNothing(p, l);
    } else {
      var init, last := s[..|s| - 1], s[|s| - 1];
      WalkCounts(p, init, events, n);
      AcceptedWalk(l, init);
      assert s == init + [last];
      if Walk(l, init).At? {
        CountsMore(p, init, last, n, Walk(l, init).lane);
      } else {
        LimitsSnoc(p, init, last, n);
      }
    }
  }

  lemma CountsNothing(p: Parser, l: Lane)
    requires l.p == p && l.mode.Outside?
    ensures Counts(p, [], l.n, At(l))
  {
  }

  lemma CountsMore(p: Parser, s: string, ch: char, n: nat, m: Lane)
    requires Accepts(p, s) && Accepts(p, s + [ch]) && m.p == Run(p, s).value.p && Counts(p, s, n, At(m))
    ensures Counts(p, s + [ch], n, Take(m, ch))
  {
    hide Take, Byte, Run, Resets, Tally, AllLimits, EndsInside, Lingers;
    TallySnoc(p, s, ch, n);
    LimitsSnoc(p, s, ch, n);
    RunSnoc(p, s, ch);
    TakeAgrees(m, ch);
    LoopsAreHeaders(m.p, ch);
  }

  lemma LoopsAreHeaders(p: Parser, ch: char)
    ensures InLoop(p.state) ==> ParsingHeader(p.state) && !Resets(p, ch)
  {
    hide Resets;
    if InLoop(p.state) { BulkNeverResets(p, ch); }
  }

  /** On accepted input a call of http_parser_execute fails exactly when the piece is too long, and leaves the count. */
  lemma PieceExactly(p: Parser, s: string, events: seq<Event>, n: nat)
    requires Accepts(p, s)
    ensures Piece(Lane(p, events, n, Outside), s) ==
            if Fits(p, s, n) then
              At(Lane(Run(p, s).value.p, events + Run(p, s).value.events, Left(p, s, n), Outside))
            else Stopped(Overflow)
  {
    hide Walk, Run, Tally, EndsInside, LimitAt;
    WalkCounts(p, s, events, n);
    AcceptedWalk(Lane(p, events, n, Outside), s);
  }

  lemma {:induction false} TallyAtMost(p: Parser, s: string, n: nat)
    ensures Tally(p, s, n) <= n + |s|
    decreases |s|
  {
    hide Run, Resets;
    if s != [] { TallyAtMost(p, s[..|s| - 1], n); }
  }

  /** A piece with room for its bytes and one more is not too long. */
  lemma ShortFits(p: Parser, s: string, n: nat)
    requires n + |s| < MAX_HEADER_SIZE
    ensures Fits(p, s, n)
  {
    hide Run, Tally, EndsInside;
    TallyAtMost(p, s, n);
    forall i | 0 <= i < |s| ensures LimitAt(p, s, n, i) { TallyAtMost(p, s[..i], n); }
  }

  // ---------------------------------------------------------------------------
  // The count of many pieces
  // ---------------------------------------------------------------------------

  /** nread behind all pieces. */
  function CutLeft(p: Parser, pieces: seq<string>, n: nat): nat {
    if pieces == [] then n
    else
      var before := Run(p, Flatten(pieces[..|pieces| - 1]));
      var m := CutLeft(p, pieces[..|pieces| - 1], n);
      if before.None? then m else Left(before.value.p, pieces[|pieces| - 1], m)
  }

  /** No piece is too long. */
  ghost predicate CutFits(p: Parser, pieces: seq<string>, n: nat) {
    pieces == [] ||
    (var init := pieces[..|pieces| - 1];
     CutFits(p, init, n) && (Run(p, Flatten(init)).Some? ==>
       Fits(Run(p, Flatten(init)).value.p, pieces[|pieces| - 1], CutLeft(p, init, n))))
  }

  /** On accepted input, however it is cut, the calls fail exactly when one of the pieces is too long. */
  lemma {:induction false} PiecesExactly(p: Parser, pieces: seq<string>, events: seq<Event>, n: nat)
    requires Accepts(p, Flatten(pieces))
    ensures var all := Run(p, Flatten(pieces)).value;
            Pieces(Lane(p, events, n, Outside), pieces) ==
            if CutFits(p, pieces, n) then At(Lane(all.p, events + all.events, CutLeft(p, pieces, n), Outside))
            else Stopped(Overflow)
    decreases |pieces|
  {
    hide Run, Byte, Fits, Left, Piece;
    if pieces == [] {
      RunNothing(p);
      assert events + [] == events;
    } else {
      var init, last := pieces[..|pieces| - 1], pieces[|pieces| - 1];
      assert Flatten(pieces) == Flatten(init) + last;
      RunConcat(p, Flatten(init), last);
      PiecesExactly(p, init, events, n);
      var before := Run(p, Flatten(init)).value;
      PieceExactly(before.p, last, events + before.events, CutLeft(p, init, n));
      Grouped(events, before.events, Run(before.p, last).value.events);
    }
  }

  lemma RunNothing(p: Parser)
    ensures Run(p, []) == Some(Step(p, []))
  {
  }

  // ---------------------------------------------------------------------------
  // Every cut
  // ---------------------------------------------------------------------------

  /** The most a byte can add to nread: one, and one more for a cut behind it. */
  function Cost(p: Parser, ch: char): nat {
    if !ParsingHeader(p.state) then 0 else if Lingers(p, ch) then 2 else 1
  }

  function Worst(p: Parser, s: string, n: nat): nat {
    if s == [] then n
    else
      var before := Run(p, s[..|s| - 1]);
      var m := Worst(p, s[..|s| - 1], n);
      if before.None? then m
      else if Resets(before.value.p, s[|s| - 1]) then 0
      else m + Cost(before.value.p, s[|s| - 1])
  }

  ghost predicate WorstAt(p: Parser, s: string, n: nat, i: nat)
    requires i < |s|
  {
    var before := Run(p, s[..i]);
    before.Some? && ParsingHeader(before.value.p.state) ==>
      Worst(p, s[..i], n) + Cost(before.value.p, s[i]) <= MAX_HEADER_SIZE
  }

  /** However the input is cut, no piece is too long. */
  ghost predicate WorstFits(p: Parser, s: string, n: nat) {
    forall i :: 0 <= i < |s| ==> WorstAt(p, s, n, i)
  }

  lemma {:induction false} WorstConcat(p: Parser, a: string, b: string, n: nat)
    requires Accepts(p, a)
    ensures Worst(p, a + b, n) == Worst(Run(p, a).value.p, b, Worst(p, a, n))
    decreases |b|
  {
    hide Run, Byte, Resets, Cost;
    if b == [] {
      assert a + b == a;
    } else {
      var init, last := b[..|b| - 1], b[|b| - 1];
      assert (a + b)[..|a + b| - 1] == a + init && (a + b)[|a + b| - 1] == last;
      WorstConcat(p, a, init, n);
      RunConcat(p, a, init);
    }
  }

  lemma WorstSame(p: Parser, a: string, b: string, n: nat, i: nat)
    requires i < |a| <= |b| && a <= b
    ensures WorstAt(p, b, n, i) <==> WorstAt(p, a, n, i)
  {
    assert b[..i] == a[..i];
  }

  lemma WorstBehind(p: Parser, a: string, b: string, n: nat, i: nat)
    requires Accepts(p, a) && i < |b|
    ensures WorstAt(p, a + b, n, |a| + i) <==> WorstAt(Run(p, a).value.p, b, Worst(p, a, n), i)
  {
    hide Run, Worst, Cost;
    assert (a + b)[..|a| + i] == a + b[..i];
    WorstConcat(p, a, b[..i], n);
    RunConcat(p, a, b[..i]);
  }

  /** Whether every cut fits is checked part by part. */
  lemma WorstFitsConcat(p: Parser, a: string, b: string, n: nat)
    requires Accepts(p, a)
    ensures WorstFits(p, a + b, n) <==> WorstFits(p, a, n) && WorstFits(Run(p, a).value.p, b, Worst(p, a, n))
  {
    hide Run, Worst, WorstAt;
    forall i | 0 <= i < |a| ensures WorstAt(p, a + b, n, i) <==> WorstAt(p, a, n, i) {
      WorstSame(p, a, a + b, n, i);
    }
    var q, m := Run(p, a).value.p, Worst(p, a, n);
    forall i | 0 <= i < |b| ensures WorstAt(p, a + b, n, |a| + i) <==> WorstAt(q, b, m, i) {
      WorstBehind(p, a, b, n, i);
    }
    assert forall i :: |a| <= i < |a + b| ==> (WorstAt(p, a + b, n, i) <==> WorstAt(q, b, m, i - |a|));
  }

  /** Worst is the worst. */
  lemma {:induction false} TallyBelow(p: Parser, s: string, m: nat, n: nat)
    requires m <= n
    ensures Tally(p, s, m) <= Worst(p, s, n)
    decreases |s|
  {
    hide Run, Resets, Lingers;
    if s != [] { TallyBelow(p, s[..|s| - 1], m, n); }
  }

  lemma LeftBelow(p: Parser, s: string, m: nat, n: nat)
    requires m <= n && Accepts(p, s)
    ensures Left(p, s, m) <= Worst(p, s, n)
  {
    hide Run, Resets, Lingers, Tally, Worst;
    TallyBelow(p, s, m, n);
    if EndsInside(p, s) {
      var init, last := s[..|s| - 1], s[|s| - 1];
      TallyBelow(p, init, m, n);
      AcceptsPrefix(p, s, |s| - 1);
      assert s == init + [last];
      TallySnoc(p, init, last, m);
      WorstSnoc(p, init, last, n);
      LingersInLoop(Run(p, init).value.p, last);
    }
  }

  lemma WorstSnoc(p: Parser, s: string, ch: char, n: nat)
    requires Accepts(p, s)
    ensures var q, m := Run(p, s).value.p, Worst(p, s, n);
            Worst(p, s + [ch], n) == if Resets(q, ch) then 0 else m + Cost(q, ch)
  {
    hide Run, Resets, Cost;
    assert (s + [ch])[..|s|] == s;
  }

  lemma LingersInLoop(p: Parser, ch: char)
    requires Lingers(p, ch)
    ensures ParsingHeader(p.state) && !Resets(p, ch)
  {
    hide Resets, Byte;
    LoopsAreHeaders(p, ch);
  }

  lemma FitsBelow(p: Parser, s: string, m: nat, n: nat)
    requires m <= n && Accepts(p, s) && WorstFits(p, s, n)
    ensures Fits(p, s, m)
  {
    hide Run, Resets, Lingers, Tally, Worst;
    forall i | 0 <= i < |s| ensures LimitAt(p, s, m, i) {
      TallyBelow(p, s[..i], m, n);
      assert WorstAt(p, s, n, i);
    }
    if EndsInside(p, s) {
      var init, last := s[..|s| - 1], s[|s| - 1];
      assert WorstAt(p, s, n, |s| - 1) && s == init + [last];
      LeftBelow(p, s, m, n);
      WorstSnoc(p, init, last, n);
      LingersInLoop(Run(p, init).value.p, last);
    }
  }

  /** When the worst case fits, every cut does. */
  lemma {:induction false} CutWithin(p: Parser, pieces: seq<string>, n: nat)
    requires Accepts(p, Flatten(pieces)) && WorstFits(p, Flatten(pieces), n)
    ensures CutFits(p, pieces, n) && CutLeft(p, pieces, n) <= Worst(p, Flatten(pieces), n)
    decreases |pieces|
  {
    hide Run, Byte, Fits, Left, Worst, WorstFits;
    if pieces == [] {
      WorstNothing(p, n);
    } else {
      var init, last := pieces[..|pieces| - 1], pieces[|pieces| - 1];
      assert Flatten(pieces) == Flatten(init) + last;
      RunConcat(p, Flatten(init), last);
      WorstFitsConcat(p, Flatten(init), last, n);
      WorstConcat(p, Flatten(init), last, n);
      CutWithin(p, init, n);
      var q := Run(p, Flatten(init)).value.p;
      FitsBelow(q, last, CutLeft(p, init, n), Worst(p, Flatten(init), n));
      LeftBelow(q, last, CutLeft(p, init, n), Worst(p, Flatten(init), n));
    }
  }

  lemma WorstNothing(p: Parser, n: nat)
    ensures Worst(p, [], n) == n
  {
  }

  /** The finest cut. */
  function Singles(s: string): seq<string> {
    if s == [] then [] else Singles(s[..|s| - 1]) + [[s[|s| - 1]]]
  }

  lemma {:induction false} SinglesFlatten(s: string)
    ensures Flatten(Singles(s)) == s && forall t :: t in Singles(s) ==> |t| == 1
    decreases |s|
  {
    hide Singles, Flatten;
    if s == [] {
      NoSingles();
    } else {
      SinglesFlatten(s[..|s| - 1]);
      SinglesSnoc(s);
      FlattenLast(Singles(s));
      assert s[..|s| - 1] + [s[|s| - 1]] == s;
    }
  }

  lemma NoSingles()
    ensures Singles([]) == [] && Flatten([]) == []
  {
  }

  lemma FlattenLast(pieces: seq<string>)
    requires pieces != []
    ensures Flatten(pieces) == Flatten(pieces[..|pieces| - 1]) + pieces[|pieces| - 1]
  {
  }

  lemma OneByteFits(p: Parser, ch: char, n: nat)
    requires Byte(p, ch).Some?
    ensures Fits(p, [ch], n) <==> (ParsingHeader(p.state) ==> n + Cost(p, ch) <= MAX_HEADER_SIZE)
    ensures Left(p, [ch], n) == if Resets(p, ch) then 0 else n + Cost(p, ch)
  {
    hide Byte, Resets, Lingers;
    assert [ch][..0] == [] && [] + [ch] == [ch];
    RunNothing(p);
    TallySnoc(p, [], ch, n);
    LimitsSnoc(p, [], ch, n);
    assert Fits(p, [ch], n) <==>
           AllLimits(p, [ch], n) && (EndsInside(p, [ch]) ==> Tally(p, [ch], n) + 1 <= MAX_HEADER_SIZE);
    if Lingers(p, ch) { LingersInLoop(p, ch); }
  }

  lemma WorstFitsSnoc(p: Parser, s: string, ch: char, n: nat)
    requires Accepts(p, s)
    ensures WorstFits(p, s + [ch], n) <==>
            WorstFits(p, s, n) && (ParsingHeader(Run(p, s).value.p.state) ==>
              Worst(p, s, n) + Cost(Run(p, s).value.p, ch) <= MAX_HEADER_SIZE)
  {
    hide Run, Worst, Cost;
    WorstFitsConcat(p, s, [ch], n);
    var q, m := Run(p, s).value.p, Worst(p, s, n);
    assert [ch][..0] == [];
    RunNothing(q);
    WorstNothing(q, m);
    assert WorstFits(q, [ch], m) <==> WorstAt(q, [ch], m, 0);
  }

  /** The finest cut is the worst case. */
  lemma {:induction false} SinglesAreWorst(p: Parser, s: string, n: nat)
    requires Accepts(p, s)
    ensures CutFits(p, Singles(s), n) <==> WorstFits(p, s, n)
    ensures CutLeft(p, Singles(s), n) == Worst(p, s, n)
    decreases |s|
  {
    hide Run, Byte, Fits, Left, Cost, Worst, WorstFits, Resets, Singles, Flatten;
    if s == [] {
      NothingFits(p, n);
      NoSingles();
      WorstNothing(p, n);
    } else {
      var init, last := s[..|s| - 1], s[|s| - 1];
      assert s == init + [last];
      SinglesSnoc(s);
      SinglesFlatten(init);
      RunSnoc(p, init, last);
      WorstSnoc(p, init, last, n);
      SinglesAreWorst(p, init, n);
      OneByteFits(Run(p, init).value.p, last, Worst(p, init, n));
      WorstFitsSnoc(p, init, last, n);
    }
  }

  lemma NothingFits(p: Parser, n: nat)
    ensures WorstFits(p, [], n)
  {
  }

  lemma SinglesSnoc(s: string)
    requires s != []
    ensures var init, all := s[..|s| - 1], Singles(s);
            && all == Singles(init) + [[s[|s| - 1]]] && |all| == |Singles(init)| + 1
            && all[..|all| - 1] == Singles(init) && all[|all| - 1] == [s[|s| - 1]]
  {
  }

  /**
  Accepted input comes through however it is cut exactly when it comes through cut
  byte by byte, exactly when its worst count fits.
  */
  lemma EveryCut(p: Parser, s: string, n: nat)
    requires Accepts(p, s)
    ensures (forall pieces :: Flatten(pieces) == s ==> CutFits(p, pieces, n)) <==> WorstFits(p, s, n)
    ensures CutFits(p, Singles(s), n) <==> WorstFits(p, s, n)
  {
    hide Run, CutFits, WorstFits, Flatten, Singles;
    SinglesAreWorst(p, s, n);
    SinglesFlatten(s);
    if WorstFits(p, s, n) {
      forall pieces | Flatten(pieces) == s ensures CutFits(p, pieces, n) { CutWithin(p, pieces, n); }
    } else {
      assert Flatten(Singles(s)) == s;
    }
  }

  // ---------------------------------------------------------------------------
  // All input
  // ---------------------------------------------------------------------------

  /** No byte of any piece is hidden. */
  ghost predicate ShowsAll(l: Lane, pieces: seq<string>) {
    pieces == [] ||
    (var init := pieces[..|pieces| - 1];
     ShowsAll(l, init) && (Pieces(l, init).At? ==> !Hidden(Pieces(l, init).lane, pieces[|pieces| - 1])))
  }

  lemma PieceStands(l: Lane, s: string)
    requires Sound(l) && Piece(l, s).At?
    ensures Sound(Piece(l, s).lane) && Piece(l, s).lane.mode.Outside?
    ensures Accepts(l.p, s) <==> !Hidden(l, s)
    ensures Accepts(l.p, s) ==> Piece(l, s).lane.p == Run(l.p, s).value.p
  {
    hide Walk, Run, Hidden;
    WalkIsSound(l, s);
    WalkExactly(l, s);
    if Accepts(l.p, s) { AcceptedWalk(l, s); }
  }

  lemma {:induction false} PiecesAccept(l: Lane, pieces: seq<string>)
    requires l.mode.Outside? && Pieces(l, pieces).At? && ShowsAll(l, pieces)
    ensures Accepts(l.p, Flatten(pieces)) && Pieces(l, pieces).lane.p == Run(l.p, Flatten(pieces)).value.p
    ensures Sound(Pieces(l, pieces).lane)
    decreases |pieces|
  {
    hide Run, Byte, Piece, Hidden;
    if pieces == [] {
      RunNothing(l.p);
    } else {
      var init, last := pieces[..|pieces| - 1], pieces[|pieces| - 1];
      PiecesAccept(l, init);
      PieceStands(Pieces(l, init).lane, last);
      FlattenLast(pieces);
      RunConcat(l.p, Flatten(init), last);
    }
  }

  lemma {:induction false} AcceptedShowsAll(p: Parser, pieces: seq<string>, events: seq<Event>, n: nat)
    requires Accepts(p, Flatten(pieces))
    ensures ShowsAll(Lane(p, events, n, Outside), pieces)
    decreases |pieces|
  {
    hide Run, Byte, Piece, Hidden, CutFits, CutLeft;
    if pieces != [] {
      var init, last := pieces[..|pieces| - 1], pieces[|pieces| - 1];
      FlattenLast(pieces);
      RunConcat(p, Flatten(init), last);
      AcceptedShowsAll(p, init, events, n);
      PiecesExactly(p, init, events, n);
      if Pieces(Lane(p, events, n, Outside), init).At? {
        AcceptedHidesNothing(Pieces(Lane(p, events, n, Outside), init).lane, last);
      }
    }
  }

  /**
  All input, in any pieces: all calls succeed without hiding a byte exactly when the
  byte-wise parser accepts the whole and no piece is too long.
  */
  lemma FeedExactly(p: Parser, pieces: seq<string>, events: seq<Event>, n: nat)
    ensures var l := Lane(p, events, n, Outside);
            Pieces(l, pieces).At? && ShowsAll(l, pieces) <==> Accepts(p, Flatten(pieces)) && CutFits(p, pieces, n)
  {
    hide Run, Piece, Hidden, CutFits, CutLeft, ShowsAll, Pieces;
    var l := Lane(p, events, n, Outside);
    if Pieces(l, pieces).At? && ShowsAll(l, pieces) { PiecesAccept(l, pieces); }
    if Accepts(p, Flatten(pieces)) {
      PiecesExactly(p, pieces, events, n);
      AcceptedShowsAll(p, pieces, events, n);
    }
  }
}
