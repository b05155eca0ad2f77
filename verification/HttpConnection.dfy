/**
Connection headers: which of the words keep-alive, close and upgrade the parser finds
in a list, of all values.  A comma is passed over where the word before it broke off
in the middle, and an element that begins with no letter ends the search.
*/
module HttpConnection {
  import opened Options
  import opened HttpSpec
  import opened HttpParser
  import opened HttpNames
  import opened HttpValues

  // ---------------------------------------------------------------------------
  // The list
  // ---------------------------------------------------------------------------

  /** What stands between the commas. */
  function Elements(s: string): (es: seq<string>)
    ensures es != []
    decreases |s|
  {
    if s == [] then [""]
    else
      var rest := Elements(s[1..]);
      if s[0] == ',' then [""] + rest else [[s[0]] + rest[0]] + rest[1..]
  }

  /** The element without the spaces in front. */
  function Stripped(e: string): (t: string)
    ensures t != [] ==> t[0] != ' '
    ensures |t| <= |e|
  {
    if e != [] && e[0] == ' ' then Stripped(e[1..]) else e
  }

  const KEEP_ALIVE: string := "keep-alive"
  const CLOSE: string := "close"
  const UPGRADE: string := "upgrade"

  /** The element is the word, with spaces around it. */
  predicate Says(e: string, w: string) { IsWord(Stripped(e), w) }

  /** The element is a start of a word that breaks off before its end. */
  predicate BreaksOff(e: string) {
    var l := Lowered(Stripped(e));
    Under(l, KEEP_ALIVE, 1) || Under(l, CLOSE, 1) || Under(l, UPGRADE, 1)
  }

  /** The characters an element may begin with: the tokens but the underscore, and two more. */
  predicate Opens(c: char) { (IsTokenChar(c) && c != '_') || c == '@' || c == '\\' }

  predicate Begins(e: string) { Stripped(e) != [] && Opens(Stripped(e)[0]) }

  /** How an element is read: the first one, one behind a comma, one whose comma is lost, or not at all. */
  datatype Mood = First | Fresh | Eaten | Stopped

  function Flagged(e: string, f: Flags): Flags {
    if Says(e, KEEP_ALIVE) then f.(keepAlive := true)
    else if Says(e, CLOSE) then f.(close := true)
    else if Says(e, UPGRADE) then f.(connUpgrade := true)
    else f
  }

  /** How the element behind e is read. */
  function NextMood(mood: Mood, e: string): Mood {
    match mood
    case Stopped => Stopped
    case Eaten => Fresh
    case First => if BreaksOff(e) || e == "" then Eaten else Fresh
    case Fresh => if !Begins(e) then Stopped else if BreaksOff(e) then Eaten else Fresh
  }

  /** The flags that a list leaves. */
  function ListFlags(es: seq<string>, mood: Mood, f: Flags): Flags
    decreases |es|
  {
    if es == [] then f
    else
      ListFlags(es[1..], NextMood(mood, es[0]),
                if mood.First? || (mood.Fresh? && Begins(es[0])) then Flagged(es[0], f) else f)
  }

  // ---------------------------------------------------------------------------
  // The matcher within an element
  // ---------------------------------------------------------------------------

  /** Where the matcher stands behind t, which begins an element. */
  function Reading(t: string): H {
    if Under(Lowered(t), KEEP_ALIVE, 1) then MatchingKeepAlive
    else if Under(Lowered(t), CLOSE, 1) then MatchingClose
    else if Under(Lowered(t), UPGRADE, 1) then MatchingConnUpgrade
    else if IsWord(t, KEEP_ALIVE) then KeepAlive
    else if IsWord(t, CLOSE) then Close
    else if IsWord(t, UPGRADE) then ConnUpgrade
    else Token
  }

  function Position(mood: Mood, e: string): H {
    match mood
    case Stopped => General
    case Eaten => Token
    case First => Reading(Stripped(e))
    case Fresh =>
      if Stripped(e) == [] then TokenStart else if !Opens(Stripped(e)[0]) then General else Reading(Stripped(e))
  }

  predicate Partial(h: H) { h.MatchingKeepAlive? || h.MatchingClose? || h.MatchingConnUpgrade? }

  predicate Within(mood: Mood, e: string, v: Value) {
    && v.h == Position(mood, e)
    && (Partial(v.h) ==> v.index == |Stripped(e)| - 1)
    && (v.h.TokenStart? ==> v.index == 0)
    && (mood.First? ==> Stripped(e) != [])
  }

  lemma Words()
    ensures AllWordChars(KEEP_ALIVE) && AllWordChars(CLOSE) && AllWordChars(UPGRADE)
    ensures KEEP_ALIVE[0] == 'k' && CLOSE[0] == 'c' && UPGRADE[0] == 'u'
    ensures |KEEP_ALIVE| == 10 && |CLOSE| == 5 && |UPGRADE| == 7
  {
  }

  lemma StrippedSnoc(e: string, c: char)
    ensures Stripped(e + [c]) == if Stripped(e) == [] && c == ' ' then [] else Stripped(e) + [c]
  {
    if e == [] {
      assert [c][1..] == [];
    } else {
      assert (e + [c])[0] == e[0] && (e + [c])[1..] == e[1..] + [c];
      if e[0] == ' ' { StrippedSnoc(e[1..], c); }
    }
  }

  /** The first letter tells the words apart. */
  lemma Initials(t: string)
    requires t != []
    ensures Under(Lowered(t), KEEP_ALIVE, 1) || IsWord(t, KEEP_ALIVE) ==> LowerCase(t[0]) == 'k'
    ensures Under(Lowered(t), CLOSE, 1) || IsWord(t, CLOSE) ==> LowerCase(t[0]) == 'c'
    ensures Under(Lowered(t), UPGRADE, 1) || IsWord(t, UPGRADE) ==> LowerCase(t[0]) == 'u'
  {
    Words();
    Initial(t, KEEP_ALIVE);
    Initial(t, CLOSE);
    Initial(t, UPGRADE);
  }

  lemma Initial(t: string, w: string)
    requires t != [] && w != []
    ensures Under(Lowered(t), w, 1) || IsWord(t, w) ==> LowerCase(t[0]) == w[0]
  {
    if IsWord(t, w) { assert Lowered(t[..|w|])[0] == LowerCase(t[0]); }
  }

  /** Opens is what the token table says of a character with bit 0x20 set. */
  lemma OpensIs(c: char)
    requires IsValueChar(c)
    ensures TokenOf(Lower(c)) != '\0' <==> Opens(c)
    ensures Lower(c) == 'k' || Lower(c) == 'c' || Lower(c) == 'u' ==> Opens(c)
    ensures (Lower(c) == ' ' <==> c == ' ') && (c == ' ' ==> !Opens(c))
    ensures Lower(c) != '\t'
  {
  }

  lemma FirstReads(c: char)
    requires IsValueChar(c)
    ensures Reading([c]) == if Lower(c) == 'k' then MatchingKeepAlive else if Lower(c) == 'c' then MatchingClose
                            else if Lower(c) == 'u' then MatchingConnUpgrade else Token
  {
    hide Lower, IsWord, Under;
    Words();
    OneLetter(c, KEEP_ALIVE);
    OneLetter(c, CLOSE);
    OneLetter(c, UPGRADE);
    LowerIs(c, 'k');
    LowerIs(c, 'c');
    LowerIs(c, 'u');
  }

  /** One more character of a word that has matched so far. */
  lemma PartialStep(t: string, c: char, w: string, some: H, all: H)
    requires (w == KEEP_ALIVE && some == MatchingKeepAlive && all == KeepAlive)
          || (w == CLOSE && some == MatchingClose && all == Close)
          || (w == UPGRADE && some == MatchingConnUpgrade && all == ConnUpgrade)
    requires Under(Lowered(t), w, 1) && IsValueChar(c)
    ensures Reading(t + [c]) == Match(w, |t|, Lower(c), some, all, Token)
  {
    hide IsWord, Under, Lower, IsValueChar;
    Words();
    MatchesMore(t, c, w, some, all, Token);
    NotEmpty(t, w);
    Initials(t);
    Initials(t + [c]);
  }

  lemma NotEmpty(t: string, w: string)
    requires Under(Lowered(t), w, 1)
    ensures t != []
  {
  }

  /** One more character behind a whole word, or behind what is none. */
  lemma WholeStep(t: string, c: char)
    requires t != [] && !Partial(Reading(t))
    ensures Reading(t + [c]) == if c == ' ' then Reading(t) else Token
  {
    hide IsWord, Under;
    Words();
    MatchedStays(t, c, KEEP_ALIVE, MatchingKeepAlive, KeepAlive, Token);
    MatchedStays(t, c, CLOSE, MatchingClose, Close, Token);
    MatchedStays(t, c, UPGRADE, MatchingConnUpgrade, ConnUpgrade, Token);
    Initials(t);
    Initials(t + [c]);
  }

  /** A character of the element that is no comma. */
  lemma ReadingStep(t: string, c: char, v: Value)
    requires t != [] && v.h == Reading(t) && (Partial(v.h) ==> v.index == |t| - 1)
    requires IsValueChar(c) && c != ','
    ensures ValueMatch(v, c).Some?
    ensures var n := ValueMatch(v, c).value;
            && n.h == Reading(t + [c]) && (Partial(n.h) ==> n.index == |t|)
            && n.flags == v.flags && n.length == v.length
  {
    hide IsWord, Under, Lower, IsValueChar, Match;
    if Under(Lowered(t), KEEP_ALIVE, 1) {
      PartialStep(t, c, KEEP_ALIVE, MatchingKeepAlive, KeepAlive);
    } else if Under(Lowered(t), CLOSE, 1) {
      PartialStep(t, c, CLOSE, MatchingClose, Close);
    } else if Under(Lowered(t), UPGRADE, 1) {
      PartialStep(t, c, UPGRADE, MatchingConnUpgrade, ConnUpgrade);
    } else {
      WholeStep(t, c);
      WholeIsNotPartial(t, c);
    }
  }

  lemma WholeIsNotPartial(t: string, c: char)
    requires t != [] && !Partial(Reading(t))
    ensures !Partial(Reading(t + [c]))
  {
    hide IsWord, Under;
    WholeStep(t, c);
  }

  lemma ElementStep(mood: Mood, e: string, c: char, v: Value)
    requires Within(mood, e, v) && IsValueChar(c) && c != ','
    ensures ValueMatch(v, c).Some?
    ensures var n := ValueMatch(v, c).value;
            Within(mood, e + [c], n) && n.flags == v.flags && n.length == v.length
  {
    hide Reading, Opens, Lower, IsValueChar, Stripped, TokenOf;
    StrippedSnoc(e, c);
    var t := Stripped(e);
    match mood
    case Stopped =>
    case Eaten =>
    case First => ReadingStep(t, c, v);
    case Fresh =>
      if t == [] {
        OpensIs(c);
        FirstReads(c);
        StrippedFirst(e, c);
      } else if Opens(t[0]) {
        ReadingStep(t, c, v);
      }
  }

  lemma StrippedFirst(e: string, c: char)
    requires Stripped(e) == []
    ensures Stripped(e + [c]) == if c == ' ' then [] else [c]
  {
    StrippedSnoc(e, c);
    assert [] + [c] == [c];
  }

  /** The comma behind an element. */
  lemma CommaStep(mood: Mood, e: string, v: Value)
    requires Within(mood, e, v)
    ensures ValueMatch(v, ',').Some?
    ensures var n := ValueMatch(v, ',').value;
            && Within(NextMood(mood, e), "", n) && n.length == v.length
            && n.flags == if mood.First? || (mood.Fresh? && Begins(e)) then Flagged(e, v.flags) else v.flags
  {
    hide Stripped, Opens;
    NothingStripped();
    CommaLower();
    if mood.First? || (mood.Fresh? && Begins(e)) {
      CommaReads(Stripped(e), v);
      SaysReading(e);
      NotEmptyElement(e);
    }
  }

  lemma NothingStripped()
    ensures Stripped("") == []
  {
  }

  lemma NotEmptyElement(e: string)
    ensures Stripped(e) != [] ==> e != ""
  {
  }

  lemma CommaLower()
    ensures Lower(',') == ',' && TokenOf(',') == '\0'
  {
  }

  lemma SaysReading(e: string)
    requires Stripped(e) != []
    ensures BreaksOff(e) <==> Partial(Reading(Stripped(e)))
    ensures forall f :: Flagged(e, f) == FlagFor(Reading(Stripped(e)), f)
  {
    hide IsWord, Under;
    Initials(Stripped(e));
    PartialIsNoWord(Stripped(e), KEEP_ALIVE);
    PartialIsNoWord(Stripped(e), CLOSE);
    PartialIsNoWord(Stripped(e), UPGRADE);
  }

  lemma PartialIsNoWord(t: string, w: string)
    ensures Under(Lowered(t), w, 1) ==> !IsWord(t, w)
  {
  }

  lemma CommaReads(t: string, v: Value)
    requires t != [] && v.h == Reading(t) && (Partial(v.h) ==> v.index == |t| - 1)
    ensures ValueMatch(v, ',').Some?
    ensures var n := ValueMatch(v, ',').value;
            && n.length == v.length && n.flags == FlagFor(v.h, v.flags)
            && n.h == (if Partial(v.h) then Token else TokenStart)
            && (n.h.TokenStart? ==> n.index == 0)
  {
    hide IsWord, Under;
    CommaLower();
    NoCommas();
  }

  lemma NoCommas()
    ensures ',' !in KEEP_ALIVE && ',' !in CLOSE && ',' !in UPGRADE
  {
  }

  // ---------------------------------------------------------------------------
  // The whole list
  // ---------------------------------------------------------------------------

  predicate NoComma(e: string) { forall i :: 0 <= i < |e| ==> e[i] != ',' }

  lemma {:induction false} ElementsOne(e: string)
    requires NoComma(e)
    ensures Elements(e) == [e]
  {
    if e != [] {
      ElementsOne(e[1..]);
      assert e == [e[0]] + e[1..];
    }
  }

  lemma {:induction false} ElementsComma(e: string, s: string)
    requires NoComma(e)
    ensures Elements(e + "," + s) == [e] + Elements(s)
    decreases |e|
  {
    var all := e + "," + s;
    if e == [] {
      assert all[0] == ',' && all[1..] == s;
    } else {
      assert all[0] == e[0] && all[1..] == e[1..] + "," + s;
      ElementsComma(e[1..], s);
      assert e == [e[0]] + e[1..];
    }
  }

  lemma LastElement(mood: Mood, e: string, v: Value)
    requires Within(mood, e, v)
    ensures FlagsAt(v) == ListFlags([e], mood, v.flags)
  {
    hide Stripped, Opens, Reading, BreaksOff, Flagged;
    assert [e][1..] == [];
    if mood.First? || (mood.Fresh? && Begins(e)) {
      SaysReading(e);
      NoChunks(Stripped(e));
    }
  }

  lemma NoChunks(t: string)
    ensures !Reading(t).Chunked?
  {
    hide IsWord, Under;
  }

  /** The rest s of a list, behind the start e of an element. */
  lemma {:induction false} ListFolds(mood: Mood, e: string, s: string, v: Value)
    requires Within(mood, e, v) && NoComma(e) && IsValue(s)
    ensures Folded(v, s).Some?
    ensures var n := Folded(v, s).value;
            FlagsAt(n) == ListFlags(Elements(e + s), mood, v.flags) && n.length == v.length
    decreases |s|
  {
    hide Within, ValueMatch, IsValueChar, FlagsAt, NextMood, Flagged, Begins, Elements;
    if s == [] {
      assert e + s == e;
      ElementsOne(e);
      LastElement(mood, e, v);
    } else if s[0] == ',' {
      var rest := s[1..];
      assert s == "," + rest && e + s == e + "," + rest && "" + rest == rest;
      ElementsComma(e, rest);
      CommaStep(mood, e, v);
      ListFolds(NextMood(mood, e), "", rest, ValueMatch(v, ',').value);
      assert ([e] + Elements(rest))[1..] == Elements(rest);
    } else {
      ElementStep(mood, e, s[0], v);
      ListFolds(mood, e + [s[0]], s[1..], ValueMatch(v, s[0]).value);
      assert e + [s[0]] + s[1..] == e + s;
    }
  }

  /** The first character of a Connection header. */
  lemma ListStarts(p: Parser, c: char)
    requires p.state.HeaderValueDiscardWs? && p.h.Connection? && IsValueChar(c) && !Blank(c)
    ensures StartValue(p, c).Done?
    ensures var q := StartValue(p, c).p;
            && q == p.(state := HeaderValue, index := 0, h := q.h)
            && (c == ',' ==> Within(Eaten, "", ValueOf(q))) && (c != ',' ==> Within(First, [c], ValueOf(q)))
  {
    hide Lower, Reading;
    CommaLower();
    NothingStripped();
    assert Stripped([c]) == [c];
    FirstReads(c);
    OpensIs(c);
  }

  /**
  A Connection header leaves the flags that its list of elements gives, and nothing else
  but the matcher's own state changes.
  */
  lemma ConnectionRun(p: Parser, s: string)
    requires p.state.HeaderValueDiscardWs? && p.h.Connection? && IsValue(s) && s != [] && !Blank(s[0])
    ensures Run(p, s).Some?
    ensures var q := Run(p, s).value.p;
            && q == p.(state := HeaderValue, h := q.h, index := q.index, flags := q.flags)
            && Run(p, s).value.events == DataEvents(HeaderFieldValue, s)
            && FlagsAt(ValueOf(q)) == ListFlags(Elements(s), First, p.flags)
  {
    hide Run, StartValue, FlagsAt, IsValueChar, Within, Folded, ListFlags;
    var c, rest := s[0], s[1..];
    assert s == [c] + rest;
    StartRun(p, c);
    ListStarts(p, c);
    var q := StartValue(p, c).p;
    RunConcat(p, [c], rest);
    ValueRun(q, rest);
    if c == ',' {
      ListFolds(Eaten, "", rest, ValueOf(q));
      FirstComma(s, p.flags);
    } else {
      ListFolds(First, [c], rest, ValueOf(q));
    }
    OneDatum(HeaderFieldValue, c);
    DataConcat(HeaderFieldValue, [c], rest);
  }

  lemma FirstComma(s: string, f: Flags)
    requires s != [] && s[0] == ','
    ensures "" + s[1..] == s[1..]
    ensures ListFlags(Elements(s), First, f) == ListFlags(Elements(s[1..]), Eaten, f)
  {
    NothingStripped();
    var rest := Elements(s[1..]);
    assert ([""] + rest)[1..] == rest;
    EmptyIsNoWord();
  }

  lemma EmptyIsNoWord()
    ensures forall f :: Flagged("", f) == f
  {
    NothingStripped();
    Words();
  }

  // ---------------------------------------------------------------------------
  // Lists without surprises, and with
  // ---------------------------------------------------------------------------

  /** Every element begins with a letter, and none is a word that breaks off. */
  predicate Regular(es: seq<string>) {
    forall e :: e in es ==> Begins(e) && !BreaksOff(e)
  }

  lemma {:induction false} RegularFlags(es: seq<string>, f: Flags)
    requires Regular(es)
    ensures var g := ListFlags(es, Fresh, f);
            && (g.keepAlive <==> f.keepAlive || exists e :: e in es && Says(e, KEEP_ALIVE))
            && (g.close <==> f.close || exists e :: e in es && Says(e, CLOSE))
            && (g.connUpgrade <==> f.connUpgrade || exists e :: e in es && Says(e, UPGRADE))
            && g == f.(keepAlive := g.keepAlive, close := g.close, connUpgrade := g.connUpgrade)
    decreases |es|
  {
    hide Says, Begins, BreaksOff;
    if es != [] {
      var e, rest := es[0], es[1..];
      assert es == [e] + rest;
      OneWord(e);
      RegularFlags(rest, Flagged(e, f));
    }
  }

  lemma OneWord(e: string)
    requires Begins(e)
    ensures Says(e, KEEP_ALIVE) ==> !Says(e, CLOSE) && !Says(e, UPGRADE)
    ensures Says(e, CLOSE) ==> !Says(e, UPGRADE)
  {
    hide IsWord, Under;
    Initials(Stripped(e));
  }

  /**
  In a list all of whose elements begin with a letter, and none of which is a word that breaks
  off, a word is found exactly when it is one of the elements.
  */
  lemma RegularList(s: string, f: Flags)
    requires Regular(Elements(s))
    ensures var g := ListFlags(Elements(s), First, f);
            && (g.keepAlive <==> f.keepAlive || exists e :: e in Elements(s) && Says(e, KEEP_ALIVE))
            && (g.close <==> f.close || exists e :: e in Elements(s) && Says(e, CLOSE))
            && (g.connUpgrade <==> f.connUpgrade || exists e :: e in Elements(s) && Says(e, UPGRADE))
            && g == f.(keepAlive := g.keepAlive, close := g.close, connUpgrade := g.connUpgrade)
  {
    hide Says, Elements, Flagged;
    RegularFlags(Elements(s), f);
    var es := Elements(s);
    assert Begins(es[0]);
    FirstIsFresh(es, f);
  }

  lemma FirstIsFresh(es: seq<string>, f: Flags)
    requires es != [] && Begins(es[0])
    ensures ListFlags(es, First, f) == ListFlags(es, Fresh, f)
  {
    hide BreaksOff, Flagged, Opens;
    NothingStripped();
  }

  lemma TwoElements(a: string, b: string, f: Flags)
    requires NoComma(a) && NoComma(b)
    ensures Elements(a + "," + b) == [a, b]
    ensures ListFlags([a, b], First, f) == ListFlags([b], NextMood(First, a), Flagged(a, f))
  {
    hide Flagged, NextMood;
    ElementsComma(a, b);
    ElementsOne(b);
    assert [a, b][1..] == [b];
  }

  lemma LastFlags(b: string, mood: Mood, f: Flags)
    requires mood.Eaten? || (mood.Fresh? && !Begins(b))
    ensures ListFlags([b], mood, f) == f
  {
    hide Flagged, Begins;
    assert [b][1..] == [];
  }

  /** An element of one letter is no word. */
  lemma NoWordYet(e: string, f: Flags)
    requires |Stripped(e)| == 1
    ensures Flagged(e, f) == f
  {
  }

  /** "c,close" has the element close, which is not found: the comma goes to the word that breaks off before it. */
  lemma CommaIsLost(f: Flags)
    ensures Elements("c" + "," + "close") == ["c", "close"] && Says("close", CLOSE)
    ensures ListFlags(Elements("c" + "," + "close"), First, f) == f
  {
    hide ListFlags, Flagged, Elements;
    assert Stripped("close") == "close" && Stripped("c") == "c";
    assert Lowered("close") == "close" && "close"[..5] == "close";
    assert Lowered("c") == "c" && "c" <= CLOSE;
    TwoElements("c", "close", f);
    NoWordYet("c", f);
    LastFlags("close", Eaten, f);
  }

  /** Behind a comma and a tab nothing is found any more. */
  lemma TabStops(f: Flags)
    ensures Elements("x" + "," + "\tclose") == ["x", "\tclose"]
    ensures ListFlags(Elements("x" + "," + "\tclose"), First, f) == f
  {
    hide ListFlags, Flagged, Elements;
    assert Stripped("\tclose") == "\tclose" && Stripped("x") == "x";
    assert Lowered("x")[0] == 'x';
    TwoElements("x", "\tclose", f);
    NoWordYet("x", f);
    LastFlags("\tclose", Fresh, f);
  }
}
