/** The targets of a request line: exactly which strings the parser takes for one. */
module HttpTargets {
  import opened Options
  import opened HttpSpec
  import opened HttpParser
  import opened HttpRuns

  // ---------------------------------------------------------------------------
  // Targets
  // ---------------------------------------------------------------------------

  /** The visible characters of ASCII. */
  predicate Visible(s: string) { forall i :: 0 <= i < |s| ==> '!' <= s[i] <= '~' }

  predicate IsLetter(c: char) { 'a' <= c <= 'z' || 'A' <= c <= 'Z' }

  /** A character of a server part, with its user and port. */
  predicate ServerLetter(c: char) {
    IsLetter(c) || '0' <= c <= '9' || c in "-_.!~*'()%;:&=+$,[]@"
  }

  /** Where the server part ends: at the first slash or question mark. */
  function ServerEnd(a: string): (k: nat)
    ensures k <= |a|
  {
    if a == [] || a[0] == '/' || a[0] == '?' then 0 else 1 + ServerEnd(a[1..])
  }

  /** A server part without two at-signs in a row, and anything visible behind it; not both empty. */
  predicate IsAuthority(a: string) {
    var k := ServerEnd(a);
    a != [] && IsServer(a[..k]) && Visible(a[k..])
  }

  /** The characters of a server part, without two at-signs in a row. */
  predicate IsServer(a: string) {
    && (forall i :: 0 <= i < |a| ==> ServerLetter(a[i]))
    && (forall i :: 0 < i < |a| ==> a[i - 1] != '@' || a[i] != '@')
  }

  /** Where the letters in front end. */
  function SchemeEnd(u: string): (i: nat)
    ensures i <= |u|
  {
    if u == [] || !IsLetter(u[0]) then 0 else 1 + SchemeEnd(u[1..])
  }

  /** A path, an asterisk, a URL with a scheme; for CONNECT a server. */
  predicate IsTarget(u: string, connect: bool) {
    if connect then IsAuthority(u)
    else if u == [] then false
    else if u[0] == '/' || u[0] == '*' then Visible(u)
    else
      var i := SchemeEnd(u);
      i > 0 && i + 3 <= |u| && u[i..i + 3] == "://" && IsAuthority(u[i + 3..])
  }

  // ---------------------------------------------------------------------------
  // The automaton
  // ---------------------------------------------------------------------------

  function Fold(s: S, u: string): S
    decreases |u|
  {
    if u == [] then s
    else
      var next := ParseUrlChar(s, u[0]);
      if next == Dead then Dead else Fold(next, u[1..])
  }

  /** The states behind the server part. */
  predicate InPath(s: S) {
    s.ReqPath? || s.ReqQueryStringStart? || s.ReqQueryString? || s.ReqFragmentStart? || s.ReqFragment?
  }

  predicate InServer(s: S) { s.ReqServerStart? || s.ReqServer? || s.ReqServerWithAt? }

  /** The states in which a target may end. */
  predicate MayEnd(s: S) { InPath(s) || s.ReqServer? || s.ReqServerWithAt? }

  lemma PathStep(s: S, c: char)
    requires InPath(s)
    ensures if '!' <= c <= '~' then InPath(ParseUrlChar(s, c)) else ParseUrlChar(s, c) == Dead
  {
  }

  lemma {:induction false} PathFolds(s: S, t: string)
    requires InPath(s)
    ensures Fold(s, t) != Dead <==> Visible(t)
    ensures Fold(s, t) != Dead ==> InPath(Fold(s, t))
    decreases |t|
  {
    hide ParseUrlChar;
    if t != [] {
      PathStep(s, t[0]);
      assert t == [t[0]] + t[1..];
      if '!' <= t[0] <= '~' { PathFolds(ParseUrlChar(s, t[0]), t[1..]); }
    }
  }

  lemma ServerStep(s: S, c: char)
    requires InServer(s)
    ensures ParseUrlChar(s, c) ==
        if c == '/' then ReqPath
        else if c == '?' then ReqQueryStringStart
        else if c == '@' then if s.ReqServerWithAt? then Dead else ReqServerWithAt
        else if ServerLetter(c) then ReqServer
        else Dead
  {
  }

  /** The rest of a server part, behind an at-sign or not, and what follows it. */
  predicate Rest(a: string, at: bool) {
    var k := ServerEnd(a);
    IsServer(a[..k]) && (at && k > 0 ==> a[0] != '@') && Visible(a[k..])
  }

  lemma ServerCons(c: char, b: string)
    ensures IsServer([c] + b) <==> ServerLetter(c) && IsServer(b) && (b != [] && c == '@' ==> b[0] != '@')
  {
    hide ServerLetter;
    var a := [c] + b;
    assert a[0] == c && forall i :: 0 <= i < |b| ==> a[i + 1] == b[i];
    if IsServer(a) {
      forall i | 0 <= i < |b| ensures ServerLetter(b[i]) { assert a[i + 1] == b[i]; }
      forall i | 0 < i < |b| ensures b[i - 1] != '@' || b[i] != '@' { assert a[i] == b[i - 1] && a[i + 1] == b[i]; }
    }
  }

  lemma RestCons(a: string, at: bool)
    requires a != []
    ensures Rest(a, at) <==>
            if a[0] == '/' || a[0] == '?' then Visible(a[1..])
            else ServerLetter(a[0]) && !(at && a[0] == '@') && Rest(a[1..], a[0] == '@')
  {
    hide ServerLetter, IsServer, Visible;
    var b := a[1..];
    if a[0] == '/' || a[0] == '?' {
      SlashRest(a);
    } else {
      var k := ServerEnd(b);
      assert a[k + 1..] == b[k..] && a[..k + 1] == [a[0]] + b[..k];
      ServerCons(a[0], b[..k]);
    }
  }

  lemma SlashRest(a: string)
    requires a != [] && (a[0] == '/' || a[0] == '?')
    ensures ServerEnd(a) == 0 && IsServer(a[..0]) && a[0..] == a
    ensures Visible(a) <==> Visible(a[1..])
  {
    assert a == [a[0]] + a[1..];
  }

  lemma {:induction false} ServerFolds(s: S, a: string)
    requires InServer(s)
    ensures Fold(s, a) != Dead <==> Rest(a, s.ReqServerWithAt?)
    ensures Fold(s, a) != Dead ==> (MayEnd(Fold(s, a)) <==> a != [] || !s.ReqServerStart?)
    ensures Fold(s, a) != Dead ==> InServer(Fold(s, a)) || InPath(Fold(s, a))
    decreases |a|
  {
    hide ParseUrlChar, ServerLetter, Rest;
    if a == [] {
      EmptyRest(s.ReqServerWithAt?);
    } else {
      RestCons(a, s.ReqServerWithAt?);
      ServerStep(s, a[0]);
      AtIsLetter();
      var next := ParseUrlChar(s, a[0]);
      if a[0] == '/' || a[0] == '?' {
        PathFolds(next, a[1..]);
      } else if next != Dead {
        ServerFolds(next, a[1..]);
      }
    }
  }

  lemma EmptyRest(at: bool)
    ensures Rest([], at)
  {
  }

  lemma AtIsLetter()
    ensures ServerLetter('@') && !ServerLetter('/') && !ServerLetter('?')
  {
  }

  lemma AuthorityFolds(a: string)
    ensures Fold(ReqServerStart, a) != Dead && MayEnd(Fold(ReqServerStart, a)) <==> IsAuthority(a)
  {
    hide Fold;
    ServerFolds(ReqServerStart, a);
  }

  /** Where the scheme is being read. */
  predicate InScheme(s: S) { s.ReqSchema? || s.ReqSchemaSlash? || s.ReqSchemaSlashSlash? }

  lemma SchemeStep(s: S, c: char)
    requires InScheme(s)
    ensures ParseUrlChar(s, c) ==
        if s.ReqSchema? && IsLetter(c) then ReqSchema
        else if s.ReqSchema? && c == ':' then ReqSchemaSlash
        else if s.ReqSchemaSlash? && c == '/' then ReqSchemaSlashSlash
        else if s.ReqSchemaSlashSlash? && c == '/' then ReqServerStart
        else Dead
  {
  }

  /** The rest of a scheme, and a server behind it. */
  predicate SchemeRest(s: S, u: string) {
    if s.ReqSchema? then
      var i := SchemeEnd(u); i + 3 <= |u| && u[i..i + 3] == "://" && IsAuthority(u[i + 3..])
    else if s.ReqSchemaSlash? then |u| >= 2 && u[..2] == "//" && IsAuthority(u[2..])
    else |u| >= 1 && u[0] == '/' && IsAuthority(u[1..])
  }

  lemma SchemeCons(u: string)
    requires u != []
    ensures SchemeRest(ReqSchema, u) <==>
            if IsLetter(u[0]) then SchemeRest(ReqSchema, u[1..]) else u[0] == ':' && SchemeRest(ReqSchemaSlash, u[1..])
    ensures SchemeRest(ReqSchemaSlash, u) <==> u[0] == '/' && SchemeRest(ReqSchemaSlashSlash, u[1..])
  {
    hide IsAuthority, IsLetter;
    if IsLetter(u[0]) { LetterCons(u); } else { ColonCons(u); }
    SlashCons(u);
  }

  lemma LetterCons(u: string)
    requires u != [] && IsLetter(u[0])
    ensures SchemeRest(ReqSchema, u) <==> SchemeRest(ReqSchema, u[1..])
  {
    hide IsAuthority, IsLetter;
    var t := u[1..];
    var i := SchemeEnd(t);
    if i + 3 <= |t| { assert u[i + 1..i + 4] == t[i..i + 3] && u[i + 4..] == t[i + 3..]; }
  }

  lemma ColonCons(u: string)
    requires u != [] && !IsLetter(u[0])
    ensures SchemeRest(ReqSchema, u) <==> u[0] == ':' && SchemeRest(ReqSchemaSlash, u[1..])
  {
    hide IsAuthority, IsLetter;
    var t := u[1..];
    if |u| >= 3 {
      assert u[0..3] == [u[0], u[1], u[2]] && t[..2] == [u[1], u[2]] && u[3..] == t[2..];
    }
  }

  lemma SlashCons(u: string)
    requires u != []
    ensures SchemeRest(ReqSchemaSlash, u) <==> u[0] == '/' && SchemeRest(ReqSchemaSlashSlash, u[1..])
  {
    hide IsAuthority;
    var t := u[1..];
    if |u| >= 2 { assert u[..2] == [u[0], u[1]] && u[2..] == t[1..]; }
  }

  lemma {:induction false} SchemeFolds(s: S, u: string)
    requires InScheme(s)
    ensures Fold(s, u) != Dead && MayEnd(Fold(s, u)) <==> SchemeRest(s, u)
    decreases |u|
  {
    hide ParseUrlChar, IsAuthority, IsLetter, SchemeRest;
    if u == [] {
      NoSchemeRest(s);
    } else {
      SchemeStep(s, u[0]);
      SchemeCons(u);
      LastSlash(u);
      LettersAlone(u[0]);
      var next := ParseUrlChar(s, u[0]);
      if next.ReqServerStart? {
        AuthorityFolds(u[1..]);
      } else if next != Dead {
        SchemeFolds(next, u[1..]);
      }
    }
  }

  lemma NoSchemeRest(s: S)
    requires InScheme(s)
    ensures !SchemeRest(s, [])
  {
  }

  lemma LastSlash(u: string)
    requires u != []
    ensures SchemeRest(ReqSchemaSlashSlash, u) <==> u[0] == '/' && IsAuthority(u[1..])
  {
  }

  lemma LettersAlone(c: char)
    ensures IsLetter(c) ==> c != ':' && c != '/' && c != '*'
  {
  }

  /** The state the target starts from. */
  function StartOf(connect: bool): S { if connect then ReqServerStart else ReqSpacesBeforeUrl }

  lemma TargetFolds(u: string, connect: bool)
    requires u != []
    ensures Fold(StartOf(connect), u) != Dead && MayEnd(Fold(StartOf(connect), u)) <==> IsTarget(u, connect)
  {
    hide IsAuthority, ParseUrlChar, IsLetter;
    if connect {
      AuthorityFolds(u);
    } else {
      TargetStep(u[0]);
      LettersAlone(u[0]);
      var rest := u[1..];
      if u[0] == '/' || u[0] == '*' {
        PathFolds(ReqPath, rest);
        assert u == [u[0]] + rest;
      } else if IsLetter(u[0]) {
        SchemeFolds(ReqSchema, rest);
        SchemeCons(u);
      }
    }
  }

  lemma TargetStep(c: char)
    ensures ParseUrlChar(ReqSpacesBeforeUrl, c) ==
        if c == '/' || c == '*' then ReqPath else if IsLetter(c) then ReqSchema else Dead
  {
  }

  // ---------------------------------------------------------------------------
  // Running over a target
  // ---------------------------------------------------------------------------

  /** No byte that ends a target. */
  predicate Unbroken(u: string) { forall i :: 0 <= i < |u| ==> u[i] != ' ' && u[i] != CR && u[i] != LF }

  lemma UrlByte(p: Parser, c: char)
    requires (IsUrlState(p.state) || p.state.ReqSpacesBeforeUrl?) && c != ' ' && c != CR && c != LF
    ensures var s := if p.state.ReqSpacesBeforeUrl? then StartOf(p.verb == "CONNECT") else p.state;
            Byte(p, c) == if ParseUrlChar(s, c) == Dead then None
                          else Some(Step(p.(state := ParseUrlChar(s, c)), [Data(Url, c)]))
  {
    hide Byte, ParseUrlChar;
    LineByte(p, c);
    var s := if p.state.ReqSpacesBeforeUrl? then StartOf(p.verb == "CONNECT") else p.state;
    if ParseUrlChar(s, c) != Dead { assert [] + Marked(ParseUrlChar(s, c), c) == [Data(Url, c)]; }
  }

  lemma {:induction false} UrlRun(p: Parser, u: string)
    requires IsUrlState(p.state) && Unbroken(u)
    ensures Run(p, u) == if Fold(p.state, u) == Dead then None
                         else Some(Step(p.(state := Fold(p.state, u)), DataEvents(Url, u)))
    decreases |u|
  {
    hide Run, Byte, ParseUrlChar;
    if u == [] {
      GoesNowhere(p);
    } else {
      var c, rest := u[0], u[1..];
      assert u == [c] + rest;
      UrlByte(p, c);
      OneByte(p, c);
      RunConcat(p, [c], rest);
      if ParseUrlChar(p.state, c) != Dead {
        UrlRun(p.(state := ParseUrlChar(p.state, c)), rest);
        OneDatum(Url, c);
        DataConcat(Url, [c], rest);
      }
    }
  }

  lemma TargetRun(p: Parser, u: string)
    requires p.state.ReqSpacesBeforeUrl? && u != [] && Unbroken(u)
    ensures var s := Fold(StartOf(p.verb == "CONNECT"), u);
            Run(p, u) == if s == Dead then None else Some(Step(p.(state := s), DataEvents(Url, u)))
  {
    hide Run, Byte, ParseUrlChar;
    var c, rest := u[0], u[1..];
    assert u == [c] + rest;
    UrlByte(p, c);
    OneByte(p, c);
    RunConcat(p, [c], rest);
    var next := ParseUrlChar(StartOf(p.verb == "CONNECT"), c);
    if next != Dead {
      UrlRun(p.(state := next), rest);
      OneDatum(Url, c);
      DataConcat(Url, [c], rest);
    }
  }

  lemma SpaceEnds(p: Parser)
    requires IsUrlState(p.state)
    ensures Byte(p, ' ') == if MayEnd(p.state) then Some(Step(p.(state := ReqHttpStart), [])) else None
  {
    hide Byte;
    LineByte(p, ' ');
    assert [] + Marked(ReqHttpStart, ' ') == [];
  }

  lemma {:induction false} FoldStays(s: S, u: string)
    requires IsUrlState(s)
    ensures Fold(s, u) == Dead || IsUrlState(Fold(s, u))
    decreases |u|
  {
    hide ParseUrlChar;
    if u != [] && ParseUrlChar(s, u[0]) != Dead { FoldStays(ParseUrlChar(s, u[0]), u[1..]); }
  }

  lemma StartStays(u: string, connect: bool)
    requires u != []
    ensures Fold(StartOf(connect), u) == Dead || IsUrlState(Fold(StartOf(connect), u))
  {
    hide ParseUrlChar;
    var next := ParseUrlChar(StartOf(connect), u[0]);
    if next != Dead { FoldStays(next, u[1..]); }
  }

  /** Of all strings without a space or a line end, and in front of a space, exactly the targets are let through. */
  lemma TargetExactly(p: Parser, u: string)
    requires p.state.ReqSpacesBeforeUrl? && u != [] && Unbroken(u)
    ensures Run(p, u + " ").Some? <==> IsTarget(u, p.verb == "CONNECT")
    ensures IsTarget(u, p.verb == "CONNECT") ==> Goes(p, u + " ", p.(state := ReqHttpStart), DataEvents(Url, u))
  {
    hide Run, Byte, Fold, IsTarget;
    var connect := p.verb == "CONNECT";
    TargetRun(p, u);
    TargetFolds(u, connect);
    StartStays(u, connect);
    RunSnoc(p, u, ' ');
    var s := Fold(StartOf(connect), u);
    if s != Dead { SpaceEnds(p.(state := s)); }
    assert DataEvents(Url, u) + [] == DataEvents(Url, u);
  }
}
