/**
What the values of the headers that matter say: the word chunked, and the list of
words of a Connection header.
*/
module HttpValues {
  import opened Options
  import opened HttpSpec
  import opened HttpParser
  import opened HttpRuns
  import opened HttpNames

  /** A byte that may stand in a header value: no control character but the tab. */
  predicate IsValueChar(c: char) { c == '\t' || (c >= ' ' && c != '\U{07f}') }

  predicate IsValue(s: string) { forall i :: 0 <= i < |s| ==> IsValueChar(s[i]) }

  predicate Blank(c: char) { c == ' ' || c == '\t' }

  lemma ValueCharIs(c: char)
    ensures IsValueChar(c) ==> IsHeaderChar(c) && c != CR && c != LF
  {
  }

  // ---------------------------------------------------------------------------
  // Running over a value
  // ---------------------------------------------------------------------------

  /** The matcher over s. */
  function Folded(v: Value, s: string): Option<Value>
    decreases |s|
  {
    if s == [] then Some(v)
    else
      var next := ValueMatch(v, s[0]);
      if next.None? then None else Folded(next.value, s[1..])
  }

  lemma {:induction false} ValueRun(p: Parser, s: string)
    requires p.state.HeaderValue? && IsValue(s)
    ensures Run(p, s) == var v := Folded(ValueOf(p), s);
                         if v.None? then None else Some(Step(WithValue(p, v.value), DataEvents(HeaderFieldValue, s)))
    decreases |s|
  {
    hide Run, Byte, ValueMatch, IsHeaderChar;
    if s == [] {
      GoesNowhere(p);
    } else {
      var c, rest := s[0], s[1..];
      assert s == [c] + rest;
      ValueCharIs(c);
      ValueByte(p, c);
      OneByte(p, c);
      RunConcat(p, [c], rest);
      var next := ValueMatch(ValueOf(p), c);
      if next.Some? {
        ValueRun(WithValue(p, next.value), rest);
        DataConcat(HeaderFieldValue, [c], rest);
        OneDatum(HeaderFieldValue, c);
      }
    }
  }

  /** The first byte of a value. */
  lemma StartRun(p: Parser, c: char)
    requires p.state.HeaderValueDiscardWs? && IsValueChar(c) && !Blank(c)
    ensures Run(p, [c]) == var act := StartValue(p, c);
                           if act.Fail? then None else Some(Step(act.p, [Data(HeaderFieldValue, c)]))
  {
    hide Run, Byte, StartValue;
    OneByte(p, c);
    if StartValue(p, c).Fail? {
      HeaderRefuses(p, c);
    } else {
      HeaderByte(p, c);
      assert [] + Marked(HeaderValue, c) == [Data(HeaderFieldValue, c)];
    }
  }

  /** The flags once the line has ended. */
  function FlagsAt(v: Value): Flags {
    if v.h.Chunked? then v.flags.(chunked := true) else FlagFor(v.h, v.flags)
  }

  // ---------------------------------------------------------------------------
  // Letters
  // ---------------------------------------------------------------------------

  /** A letter, or the hyphen. */
  predicate WordChar(w: char) { 'a' <= w <= 'z' || w == '-' }

  lemma LowerIs(c: char, w: char)
    requires IsValueChar(c) && WordChar(w)
    ensures Lower(c) == w <==> LowerCase(c) == w
  {
  }

  /** s, in any letter case, is the word w and then nothing but spaces. */
  predicate IsWord(s: string, w: string) {
    && |s| >= |w| && Lowered(s[..|w|]) == w
    && forall i :: |w| <= i < |s| ==> s[i] == ' '
  }

  lemma IsWordSnoc(s: string, c: char, w: string)
    ensures |s| >= |w| ==> (IsWord(s + [c], w) <==> IsWord(s, w) && c == ' ')
    ensures |s| + 1 == |w| ==> (IsWord(s + [c], w) <==> Lowered(s) + [LowerCase(c)] == w)
    ensures |s| + 1 < |w| ==> !IsWord(s + [c], w)
  {
    LoweredSnoc(s, c);
    var m := s + [c];
    if |s| >= |w| {
      assert m[..|w|] == s[..|w|] && m[|s|] == c;
      assert forall i :: |w| <= i < |s| ==> m[i] == s[i];
    }
    if |s| + 1 == |w| { assert (s + [c])[..|w|] == s + [c]; }
  }

  /** How far s has matched w: a start of it, the whole of it, or not at all. */
  function Matched(s: string, w: string, some: H, all: H, none: H): H {
    if Under(Lowered(s), w, 1) then some else if IsWord(s, w) then all else none
  }

  predicate AllWordChars(w: string) { forall i :: 0 <= i < |w| ==> WordChar(w[i]) }

  /** One letter more of a word that has matched so far. */
  lemma MatchesMore(s: string, c: char, w: string, some: H, all: H, none: H)
    requires Under(Lowered(s), w, 1) && IsValueChar(c) && AllWordChars(w)
    ensures Match(w, |s|, Lower(c), some, all, none) == Matched(s + [c], w, some, all, none)
  {
    var l := Lowered(s);
    LoweredSnoc(s, c);
    UnderSnoc(l, LowerCase(c), w);
    LowerIs(c, w[|s|]);
    IsWordSnoc(s, c, w);
  }

  /** Behind a word, or what is none. */
  lemma MatchedStays(s: string, c: char, w: string, some: H, all: H, none: H)
    requires !Under(Lowered(s), w, 1) && s != [] && w != []
    ensures Matched(s + [c], w, some, all, none) == if IsWord(s, w) && c == ' ' then all else none
  {
    var l := Lowered(s);
    LoweredSnoc(s, c);
    Shorter(l, LowerCase(c), w);
    IsWordSnoc(s, c, w);
  }

  // ---------------------------------------------------------------------------
  // chunked
  // ---------------------------------------------------------------------------

  lemma ChunkedChars()
    ensures AllWordChars("chunked") && |"chunked"| == 7 && "chunked"[0] == 'c'
  {
  }

  lemma FirstMatched(c: char, w: string, some: H, all: H, none: H)
    requires IsValueChar(c) && |w| > 1 && AllWordChars(w)
    ensures Matched([c], w, some, all, none) == if Lower(c) == w[0] then some else none
  {
    hide IsWord, Lower, AllWordChars, IsValueChar;
    assert WordChar(w[0]) by { FirstOfWord(w); }
    LowerIs(c, w[0]);
    OneLetter(c, w);
  }

  lemma FirstOfWord(w: string)
    requires w != [] && AllWordChars(w)
    ensures WordChar(w[0])
  {
  }

  lemma OneLetter(c: char, w: string)
    requires |w| > 1
    ensures Under(Lowered([c]), w, 1) <==> LowerCase(c) == w[0]
    ensures !IsWord([c], w)
  {
    var l := Lowered([c]);
    assert l == [LowerCase(c)];
    if LowerCase(c) == w[0] { assert l == w[..1]; }
    if l <= w { assert l[0] == w[0]; }
  }

  /** Where the matcher stands behind the start s of a Transfer-Encoding. */
  predicate InEncoding(s: string, v: Value) {
    && v.h == Matched(s, "chunked", MatchingChunked, Chunked, General)
    && (v.h.MatchingChunked? ==> v.index == |s| - 1)
  }

  lemma EncodingStep(s: string, c: char, v: Value)
    requires s != [] && InEncoding(s, v) && IsValueChar(c)
    ensures ValueMatch(v, c).Some?
    ensures var n := ValueMatch(v, c).value; InEncoding(s + [c], n) && n.flags == v.flags && n.length == v.length
  {
    hide Lower, IsWord, Under, IsValueChar;
    ChunkedChars();
    if Under(Lowered(s), "chunked", 1) {
      MatchesMore(s, c, "chunked", MatchingChunked, Chunked, General);
    } else {
      MatchedStays(s, c, "chunked", MatchingChunked, Chunked, General);
    }
  }

  lemma {:induction false} EncodingFolds(s: string, t: string, v: Value)
    requires s != [] && InEncoding(s, v) && IsValue(t)
    ensures Folded(v, t).Some?
    ensures var n := Folded(v, t).value; InEncoding(s + t, n) && n.flags == v.flags && n.length == v.length
    decreases |t|
  {
    hide InEncoding, ValueMatch, IsValueChar;
    if t == [] {
      assert s + t == s;
    } else {
      EncodingStep(s, t[0], v);
      EncodingFolds(s + [t[0]], t[1..], ValueMatch(v, t[0]).value);
      assert s + [t[0]] + t[1..] == s + t;
    }
  }

  lemma EncodingSays(s: string, v: Value)
    requires InEncoding(s, v)
    ensures FlagsAt(v) == if IsWord(s, "chunked") then v.flags.(chunked := true) else v.flags
  {
  }

  // ---------------------------------------------------------------------------
  // Other bytes
  // ---------------------------------------------------------------------------

  /** Within a value, control characters are refused, unless the parser is lenient. */
  lemma ControlRefused(p: Parser, c: char)
    requires p.state.HeaderValue? && c != CR && c != LF && !p.lenient
    ensures !IsValueChar(c) ==> Byte(p, c).None?
    ensures IsValueChar(c) ==> (Byte(p, c).Some? <==> ValueMatch(ValueOf(p), c).Some?)
  {
    hide Byte, ValueMatch;
    ValueByte(p, c);
    ValueCharIs(c);
    ControlIs(c);
  }

  lemma ControlIs(c: char)
    ensures !IsValueChar(c) && c != CR && c != LF ==> !IsHeaderChar(c)
  {
  }

  /**
  A line that is folded goes on with the value; of what its first part was taken for only the place
  behind a comma is kept, and a length may not be folded at all.
  */
  lemma FoldedLine(p: Parser, c: char)
    requires p.state.HeaderValueLws? && Blank(c)
    requires !p.h.Connection? && !p.h.TransferEncoding? && !p.h.Upgrade?
    ensures Byte(p, c) ==
        if p.h.ContentLength? then None
        else Some(Step(p.(state := HeaderValue, index := 0, h := if p.h.TokenStart? then TokenStart else General),
                       [Data(HeaderFieldValue, c)]))
  {
    hide Byte, Lower;
    HeaderAgain(p, c);
    var q := p.(state := HeaderValueStart);
    if p.h.ContentLength? {
      HeaderRefuses(q, c);
    } else {
      HeaderByte(q, c);
      assert [] + Marked(HeaderValue, c) == [Data(HeaderFieldValue, c)];
    }
  }
}
