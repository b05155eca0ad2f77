/** Which header names the parser recognises, of all names and in any letter case. */
module HttpNames {
  import opened Options
  import opened HttpSpec
  import opened HttpParser
  import opened HttpRuns

  /** The token characters of section 3.2.6 of RFC 7230. */
  predicate IsTokenChar(c: char) {
    'a' <= c <= 'z' || 'A' <= c <= 'Z' || '0' <= c <= '9' || c in "!#$%&'*+-.^_`|~"
  }

  predicate IsName(s: string) {
    s != [] && forall i :: 0 <= i < |s| ==> IsTokenChar(s[i])
  }

  function LowerCase(c: char): char {
    if 'A' <= c <= 'Z' then 'a' + (c - 'A') else c
  }

  /** s in lower case. */
  function Lowered(s: string): (l: string)
    ensures |l| == |s| && forall i :: 0 <= i < |s| ==> l[i] == LowerCase(s[i])
  {
    seq(|s|, i requires 0 <= i < |s| => LowerCase(s[i]))
  }

  lemma LoweredSnoc(s: string, c: char)
    ensures Lowered(s + [c]) == Lowered(s) + [LowerCase(c)]
  {
  }

  lemma TokenIs(c: char)
    ensures IsTokenChar(c) ==> TokenOf(c) == LowerCase(c) && c != ' '
    ensures TokenOf(c) != '\0' <==> IsTokenChar(c)
  {
  }

  // ---------------------------------------------------------------------------
  // The matcher
  // ---------------------------------------------------------------------------

  /** l is a start of w of at least n letters, and not all of it. */
  predicate Under(l: string, w: string, n: nat) {
    n <= |l| < |w| && l <= w
  }

  /** Where the matcher stands behind the letters l of a name. */
  function Standing(l: string): H {
    if l == "c" then C
    else if l == "co" then CO
    else if l == "con" then CON
    else if Under(l, "connection", 4) then MatchingConnection
    else if Under(l, "content-length", 4) then MatchingContentLength
    else if Under(l, "proxy-connection", 1) then MatchingProxyConnection
    else if Under(l, "transfer-encoding", 1) then MatchingTransferEncoding
    else if Under(l, "upgrade", 1) then MatchingUpgrade
    else Whole(l)
  }

  /** What a whole name is. */
  function Whole(l: string): H {
    if l == "connection" || l == "proxy-connection" then Connection
    else if l == "content-length" then ContentLength
    else if l == "transfer-encoding" then TransferEncoding
    else if l == "upgrade" then Upgrade
    else General
  }

  predicate Counted(h: H) {
    h.C? || h.CO? || h.CON? || h.MatchingConnection? || h.MatchingContentLength? || h.MatchingProxyConnection?
    || h.MatchingTransferEncoding? || h.MatchingUpgrade?
  }

  lemma UnderSnoc(l: string, c: char, w: string)
    requires l <= w && |l| < |w|
    ensures l + [c] <= w <==> c == w[|l|]
    ensures l + [c] == w <==> c == w[|l|] && |l| == |w| - 1
  {
    if l + [c] <= w { assert (l + [c])[|l|] == w[|l|]; }
    if c == w[|l|] { assert w[..|l| + 1] == l + [c]; }
  }

  /** A start of w that is longer begins with a shorter one. */
  lemma Shorter(l: string, c: char, w: string)
    ensures l + [c] <= w ==> l <= w
  {
    assert (l + [c])[..|l|] == l;
  }

  /** Matching a word: the next letter, the last letter, or another one. */
  lemma WordStep(l: string, c: char, w: string, same: H, good: H)
    requires l != [] && l <= w && |l| < |w|
    ensures Match(w, |l|, c, same, good, General)
         == if l + [c] == w then good else if l + [c] <= w then same else General
  {
    UnderSnoc(l, c, w);
  }

  /** The letters that tell the words apart. */
  lemma Letters(l: string)
    requires l != []
    ensures l <= "connection" && |l| >= 4 ==> l[0] == 'c' && l[3] == 'n'
    ensures l <= "content-length" && |l| >= 4 ==> l[0] == 'c' && l[3] == 't'
    ensures l <= "proxy-connection" ==> l[0] == 'p'
    ensures l <= "transfer-encoding" ==> l[0] == 't'
    ensures l <= "upgrade" ==> l[0] == 'u'
  {
  }

  /** One letter more, while no word has been left yet. */
  ghost predicate Follows(l: string, index: nat, c: char, ch: char) {
    var (h, i) := FieldMatch(Standing(l), index, c, ch);
    h == Standing(l + [c]) && (Counted(h) ==> i == |l|)
  }

  lemma ShortFollows(l: string, c: char, ch: char)
    requires l == "c" || l == "co" || l == "con"
    ensures Follows(l, |l| - 1, c, ch)
  {
    var m := l + [c];
    Letters(m);
    if l == "c" {
      assert m == ['c', c];
    } else if l == "co" {
      assert m == ['c', 'o', c];
    } else {
      assert m == ['c', 'o', 'n', c];
      if c == 'n' { assert m == "conn"; }
      if c == 't' { assert m == "cont"; }
    }
  }

  lemma ConnectionFollows(l: string, c: char, ch: char)
    requires Under(l, "connection", 4)
    ensures Follows(l, |l| - 1, c, ch)
  {
    Letters(l);
    Letters(l + [c]);
    WordStep(l, c, "connection", MatchingConnection, Connection);
  }

  lemma LengthFollows(l: string, c: char, ch: char)
    requires Under(l, "content-length", 4)
    ensures Follows(l, |l| - 1, c, ch)
  {
    Letters(l);
    Letters(l + [c]);
    WordStep(l, c, "content-length", MatchingContentLength, ContentLength);
  }

  lemma ProxyFollows(l: string, c: char, ch: char)
    requires Under(l, "proxy-connection", 1)
    ensures Follows(l, |l| - 1, c, ch)
  {
    Letters(l);
    Letters(l + [c]);
    WordStep(l, c, "proxy-connection", MatchingProxyConnection, Connection);
  }

  lemma EncodingFollows(l: string, c: char, ch: char)
    requires Under(l, "transfer-encoding", 1)
    ensures Follows(l, |l| - 1, c, ch)
  {
    Letters(l);
    Letters(l + [c]);
    WordStep(l, c, "transfer-encoding", MatchingTransferEncoding, TransferEncoding);
  }

  lemma UpgradeFollows(l: string, c: char, ch: char)
    requires Under(l, "upgrade", 1)
    ensures Follows(l, |l| - 1, c, ch)
  {
    Letters(l);
    Letters(l + [c]);
    WordStep(l, c, "upgrade", MatchingUpgrade, Upgrade);
  }

  /** Behind a whole name, or one that is no start of a word, there is no word. */
  lemma OtherFollows(l: string, index: nat, c: char, ch: char)
    requires l != [] && Standing(l) == Whole(l) && ch != ' '
    ensures Follows(l, index, c, ch)
  {
    hide Under;
    var m := l + [c];
    NoUnder(l, c);
    assert m[..|l|] == l;
    assert m != "c" && (m == "co" ==> l == "c") && (m == "con" ==> l == "co");
  }

  lemma NoUnder(l: string, c: char)
    requires l != [] && Standing(l) == Whole(l)
    ensures var m := l + [c];
            && !Under(m, "connection", 4) && !Under(m, "content-length", 4) && !Under(m, "proxy-connection", 1)
            && !Under(m, "transfer-encoding", 1) && !Under(m, "upgrade", 1) && Whole(m) == General
  {
    var m := l + [c];
    Letters(m);
    Shorter(l, c, "connection");
    Shorter(l, c, "content-length");
    Shorter(l, c, "proxy-connection");
    Shorter(l, c, "transfer-encoding");
    Shorter(l, c, "upgrade");
    assert m[..|l|] == l;
    assert m != "c" && (m == "co" ==> l == "c") && (m == "con" ==> l == "co");
  }

  lemma StandingFollows(l: string, index: nat, c: char, ch: char)
    requires l != [] && (Counted(Standing(l)) ==> index == |l| - 1) && ch != ' '
    ensures Follows(l, index, c, ch)
  {
    hide Follows;
    if l == "c" || l == "co" || l == "con" {
      ShortFollows(l, c, ch);
    } else if Under(l, "connection", 4) {
      ConnectionFollows(l, c, ch);
    } else if Under(l, "content-length", 4) {
      LengthFollows(l, c, ch);
    } else if Under(l, "proxy-connection", 1) {
      ProxyFollows(l, c, ch);
    } else if Under(l, "transfer-encoding", 1) {
      EncodingFollows(l, c, ch);
    } else if Under(l, "upgrade", 1) {
      UpgradeFollows(l, c, ch);
    } else {
      OtherFollows(l, index, c, ch);
    }
  }

  // ---------------------------------------------------------------------------
  // Running over a name
  // ---------------------------------------------------------------------------

  lemma FirstLetter(p: Parser, ch: char)
    requires p.state.HeaderFieldStart? && IsTokenChar(ch)
    ensures Goes(p, [ch], p.(state := HeaderField, h := Standing([LowerCase(ch)]), index := 0),
                 [Data(HeaderFieldName, ch)])
  {
    hide Run, Byte, TokenOf;
    TokenIs(ch);
    TokensEndNoLine(ch);
    HeaderByte(p, ch);
    FirstIs(LowerCase(ch));
    assert [] + Marked(HeaderField, ch) == [Data(HeaderFieldName, ch)];
    GoesByte(p, ch, p.(state := HeaderField, h := Standing([LowerCase(ch)]), index := 0), [Data(HeaderFieldName, ch)]);
  }

  lemma TokensEndNoLine(ch: char)
    ensures IsTokenChar(ch) ==> ch != CR && ch != LF && ch != ':' && ch != '\0'
  {
  }

  lemma FirstIs(c: char)
    ensures Standing([c]) == FirstOfField(c)
  {
    var l := [c];
    Letters(l);
    assert l[0] == c;
  }

  /** Over a name: all of it is told, and the parser stands where its letters lead. */
  lemma {:induction false} NameRun(p: Parser, s: string)
    requires p.state.HeaderFieldStart? && IsName(s)
    ensures Run(p, s).Some?
    ensures var q := Run(p, s).value.p;
            && q == p.(state := HeaderField, h := Standing(Lowered(s)), index := q.index)
            && Run(p, s).value.events == DataEvents(HeaderFieldName, s)
            && (Counted(q.h) ==> q.index == |s| - 1)
    decreases |s|
  {
    hide Run, Byte, TokenOf, FieldMatch, Standing, IsTokenChar, DataEvents, LowerCase;
    var ch := s[|s| - 1];
    if |s| == 1 {
      assert s == [ch] && Lowered(s) == [LowerCase(ch)];
      FirstLetter(p, ch);
      OneDatum(HeaderFieldName, ch);
    } else {
      var front := s[..|s| - 1];
      assert s == front + [ch];
      NameRun(p, front);
      NextLetter(p, front, ch);
    }
  }

  lemma NextLetter(p: Parser, front: string, ch: char)
    requires Run(p, front).Some? && front != [] && IsTokenChar(ch)
    requires var q := Run(p, front).value.p;
             && q == p.(state := HeaderField, h := Standing(Lowered(front)), index := q.index)
             && Run(p, front).value.events == DataEvents(HeaderFieldName, front)
             && (Counted(q.h) ==> q.index == |front| - 1)
    ensures Run(p, front + [ch]).Some?
    ensures var q := Run(p, front + [ch]).value.p;
            && q == p.(state := HeaderField, h := Standing(Lowered(front + [ch])), index := q.index)
            && Run(p, front + [ch]).value.events == DataEvents(HeaderFieldName, front + [ch])
            && (Counted(q.h) ==> q.index == |front|)
  {
    hide Run, Byte, TokenOf, FieldMatch, Standing, IsTokenChar, DataEvents, LowerCase;
    var q := Run(p, front).value.p;
    TokenIs(ch);
    NameByte(q, ch);
    LoweredSnoc(front, ch);
    StandingFollows(Lowered(front), q.index, LowerCase(ch), ch);
    DataSnoc(HeaderFieldName, front, ch);
    RunSnoc(p, front, ch);
  }

  lemma StandingSays(l: string)
    ensures Standing(l).ContentLength? <==> l == "content-length"
    ensures Standing(l).TransferEncoding? <==> l == "transfer-encoding"
    ensures Standing(l).Connection? <==> l == "connection" || l == "proxy-connection"
    ensures Standing(l).Upgrade? <==> l == "upgrade"
  {
    if l != [] { Letters(l); }
    var a, b, c, d, e := "connection", "content-length", "proxy-connection", "transfer-encoding", "upgrade";
    assert a[0] == b[0] == 'c' && a[3] == 'n' && b[3] == 't' && c[0] == 'p' && d[0] == 't' && e[0] == 'u';
  }

  /** The parser behind a name and the colon; only what it takes the header for has changed, and index. */
  predicate Named(p: Parser, s: string, q: Parser) {
    && q == p.(state := HeaderValueDiscardWs, h := q.h, index := q.index)
    && (q.h.ContentLength? <==> Lowered(s) == "content-length")
    && (q.h.TransferEncoding? <==> Lowered(s) == "transfer-encoding")
    && (q.h.Connection? <==> Lowered(s) == "connection" || Lowered(s) == "proxy-connection")
    && (q.h.Upgrade? <==> Lowered(s) == "upgrade")
  }

  /**
  A header name, in any letter case, is taken for Content-Length, Transfer-Encoding,
  Connection or Upgrade exactly when it is that word, or Proxy-Connection.
  */
  lemma NameMeans(p: Parser, s: string)
    requires p.state.HeaderFieldStart? && IsName(s)
    ensures Run(p, s).Some? && Run(p, s).value.p.state.HeaderField?
    ensures var h := Run(p, s).value.p.h;
            && (h.ContentLength? <==> Lowered(s) == "content-length")
            && (h.TransferEncoding? <==> Lowered(s) == "transfer-encoding")
            && (h.Connection? <==> Lowered(s) == "connection" || Lowered(s) == "proxy-connection")
            && (h.Upgrade? <==> Lowered(s) == "upgrade")
  {
    hide Run, Standing;
    NameRun(p, s);
    StandingSays(Lowered(s));
  }

  lemma ColonRun(p: Parser, s: string)
    requires p.state.HeaderFieldStart? && IsName(s)
    ensures exists q :: Named(p, s, q) && NotMatching(q.h) && Goes(p, s + ":", q, DataEvents(HeaderFieldName, s))
  {
    hide Run, Byte, Standing, Whole, TokenOf;
    NameRun(p, s);
    var r := Run(p, s).value.p;
    StandingSays(Lowered(s));
    NotAToken();
    NameEnds(r, ':');
    var q := r.(state := HeaderValueDiscardWs);
    GoesMore(p, s, r, DataEvents(HeaderFieldName, s), ':', q, []);
    assert DataEvents(HeaderFieldName, s) + [] == DataEvents(HeaderFieldName, s);
    StandingNames(Lowered(s));
    assert Named(p, s, q);
  }

  /** No state of the value matchers. */
  predicate NotMatching(h: H) {
    !h.TokenStart? && !h.Chunked? && !h.KeepAlive? && !h.Close? && !h.ConnUpgrade?
  }

  lemma StandingNames(l: string)
    ensures NotMatching(Standing(l))
  {
  }

  lemma NotAToken()
    ensures TokenOf(':') == '\0'
  {
  }

  /** All of s is taken for a header name, byte by byte. */
  ghost predicate ReadAsName(p: Parser, s: string) {
    forall k :: 0 < k <= |s| ==> Run(p, s[..k]).Some? && Run(p, s[..k]).value.p.state.HeaderField?
  }

  lemma NoNameByte(p: Parser, ch: char)
    requires (p.state.HeaderFieldStart? || p.state.HeaderField?) && !IsTokenChar(ch)
    ensures Byte(p, ch).Some? ==> !Byte(p, ch).value.p.state.HeaderField?
  {
    hide Byte, TokenOf;
    TokenIs(ch);
    if p.state.HeaderField? {
      NameEnds(p, ch);
    } else if ch == LF {
      LineFeedFirst(p);
    } else if ch == CR {
      HeaderByte(p, ch);
    } else {
      HeaderRefuses(p, ch);
    }
  }

  lemma LineFeedFirst(p: Parser)
    requires p.state.HeaderFieldStart?
    ensures Byte(p, LF).Some? ==> !Byte(p, LF).value.p.state.HeaderField?
  {
    hide Byte, ActHeadersDone, NewMessage;
    var q := p.(state := HeadersAlmostDone);
    HeaderAgain(p, LF);
    NewIsNoName(q.(state := MessageDone));
    DoneIsNoName(Headed(q));
    if q.flags.trailing { TrailerEnds(q); } else { HeadEnds(q); }
  }

  lemma DoneIsNoName(p: Parser)
    ensures ActHeadersDone(p, LF).Done? ==> !ActHeadersDone(p, LF).p.state.HeaderField?
  {
    hide NeedsEof, ShouldKeepAlive;
  }

  lemma NewIsNoName(p: Parser)
    ensures !NewMessage(p).HeaderField?
  {
  }

  /** A string is taken for a header name exactly when it consists of token characters. */
  lemma NameExactly(p: Parser, s: string)
    requires p.state.HeaderFieldStart? && s != []
    ensures ReadAsName(p, s) <==> IsName(s)
  {
    hide Run, Byte, IsTokenChar;
    if ReadAsName(p, s) {
      forall i | 0 <= i < |s| ensures IsTokenChar(s[i]) {
        NameSoFar(p, s, i);
      }
    }
    if IsName(s) {
      forall k | 0 < k <= |s| ensures Run(p, s[..k]).Some? && Run(p, s[..k]).value.p.state.HeaderField? {
        assert IsName(s[..k]);
        NameRun(p, s[..k]);
      }
    }
  }

  lemma NameSoFar(p: Parser, s: string, i: nat)
    requires p.state.HeaderFieldStart? && i < |s| && ReadAsName(p, s)
    ensures IsTokenChar(s[i])
  {
    hide Run, Byte, IsTokenChar;
    assert s[..i + 1] == s[..i] + [s[i]];
    RunSnoc(p, s[..i], s[i]);
    if i == 0 {
      GoesNowhere(p);
      assert s[..0] == [];
      if !IsTokenChar(s[0]) { NoNameByte(p, s[0]); }
    } else {
      if !IsTokenChar(s[i]) { NoNameByte(Run(p, s[..i]).value.p, s[i]); }
    }
  }
}
