/**
The methods of a request line: the parser guesses one by its first letter, and changes
its mind at some of the letters behind; it arrives at exactly the methods there are.
*/
module HttpMethods {
  import opened Options
  import opened HttpSpec
  import opened HttpParser
  import opened HttpRuns

  /** The methods of http_parser.h, in its order. */
  predicate IsMethod(m: string) {
    || m == "DELETE" || m == "GET" || m == "HEAD" || m == "POST" || m == "PUT" || m == "CONNECT" || m == "OPTIONS"
    || m == "TRACE" || m == "COPY" || m == "LOCK" || m == "MKCOL" || m == "MOVE" || m == "PROPFIND" || m == "PROPPATCH"
    || m == "SEARCH" || m == "UNLOCK" || m == "BIND" || m == "REBIND" || m == "UNBIND" || m == "ACL" || m == "REPORT"
    || m == "MKACTIVITY" || m == "CHECKOUT" || m == "MERGE" || m == "M-SEARCH" || m == "NOTIFY" || m == "SUBSCRIBE"
    || m == "UNSUBSCRIBE" || m == "PATCH" || m == "PURGE" || m == "MKCALENDAR" || m == "LINK" || m == "UNLINK"
  }

  /** The parser of a request with k letters of the method m read. */
  function At(p: Parser, m: string, k: nat): Parser {
    p.(flags := NO_FLAGS, length := NO_LENGTH, verb := m, index := k, state := ReqMethod)
  }

  lemma FirstGuess(c: char)
    requires FirstMethod(c).Some?
    ensures IsMethod(FirstMethod(c).value) && FirstMethod(c).value[0] == c
  {
  }

  /** A change of mind keeps the letters read, and the new method goes on with the next. */
  lemma OtherGuess(m: string, k: nat, c: char)
    requires OtherMethod(m, k, c).Some?
    ensures var w := OtherMethod(m, k, c).value;
            IsMethod(w) && k < |w| && k < |m| && w[..k] == m[..k] && w[k] == c
  {
    OtherIsMethod(m, k, c);
    OtherLetters(m, k, c);
    hide OtherMethod;
    var w := OtherMethod(m, k, c).value;
    assert forall i :: 0 <= i < k ==> w[i] == m[i];
  }

  lemma OtherIsMethod(m: string, k: nat, c: char)
    requires OtherMethod(m, k, c).Some?
    ensures IsMethod(OtherMethod(m, k, c).value)
  {
  }

  lemma OtherLetters(m: string, k: nat, c: char)
    requires OtherMethod(m, k, c).Some?
    ensures var w := OtherMethod(m, k, c).value;
            && 0 < k < 5 && k < |w| && k < |m| && w[k] == c
            && w[0] == m[0] && (k > 1 ==> w[1] == m[1]) && (k > 2 ==> w[2] == m[2]) && (k > 3 ==> w[3] == m[3])
  {
  }

  // ---------------------------------------------------------------------------
  // What is arrived at is a method
  // ---------------------------------------------------------------------------

  /** The letters read so far begin the method that is guessed. */
  predicate Guessing(p: Parser, s: string, q: Parser) {
    && IsMethod(q.verb) && 0 < |s| <= |q.verb| && s == q.verb[..|s|] && q == At(p, q.verb, |s|)
  }

  lemma FirstLetter(p: Parser, c: char)
    requires p.state.StartReq? && c != CR && c != LF && Byte(p, c).Some?
    ensures FirstMethod(c).Some? && Byte(p, c) == Some(Step(At(p, FirstMethod(c).value, 1), [MessageBegin]))
    ensures Guessing(p, [c], Byte(p, c).value.p)
  {
    hide Byte, IsMethod, FirstMethod;
    MethodByte(p, c);
    FirstGuess(c);
    assert [MessageBegin] + Marked(ReqMethod, c) == [MessageBegin];
    var m := FirstMethod(c).value;
    assert [c] == m[..1];
  }

  lemma SliceNext(m: string, k: nat)
    requires k < |m|
    ensures m[..k + 1] == m[..k] + [m[k]]
  {
  }

  lemma NextLetter(p: Parser, s: string, q: Parser, c: char)
    requires Guessing(p, s, q) && c != ' ' && Byte(q, c).Some?
    ensures Byte(q, c).value.events == [] && Guessing(p, s + [c], Byte(q, c).value.p)
  {
    hide Byte, IsMethod, OtherMethod;
    MethodByte(q, c);
    assert [] + Marked(ReqMethod, c) == [];
    var k := |s|;
    if k < |q.verb| && c == q.verb[k] {
      SliceNext(q.verb, k);
    } else {
      OtherGuess(q.verb, k, c);
      SliceNext(OtherMethod(q.verb, k, c).value, k);
    }
  }

  lemma {:induction false} GuessRun(p: Parser, s: string)
    requires p.state.StartReq? && s != [] && s[0] != CR && s[0] != LF && ' ' !in s && Run(p, s).Some?
    ensures Guessing(p, s, Run(p, s).value.p) && Run(p, s).value.events == [MessageBegin]
    decreases |s|
  {
    hide Byte, Run, Guessing;
    var c := s[|s| - 1];
    if |s| == 1 {
      assert s == [c];
      OneByte(p, c);
      FirstLetter(p, c);
    } else {
      var front := s[..|s| - 1];
      assert s == front + [c] && front[0] == s[0];
      RunSnoc(p, front, c);
      GuessRun(p, front);
      NextLetter(p, front, Run(p, front).value.p, c);
      assert [MessageBegin] + [] == [MessageBegin];
    }
  }

  // ---------------------------------------------------------------------------
  // Every method is arrived at
  // ---------------------------------------------------------------------------

  predicate Plain(c: char) { 'A' <= c <= 'Z' || c == '-' }

  lemma Begins(p: Parser, m: string)
    requires p.state.StartReq? && m != [] && FirstMethod(m[0]) == Some(m) && Plain(m[0])
    ensures Goes(p, m[..1], At(p, m, 1), [MessageBegin])
  {
    hide Byte, Run, FirstMethod;
    MethodByte(p, m[0]);
    assert [MessageBegin] + Marked(ReqMethod, m[0]) == [MessageBegin];
    assert m[..1] == [m[0]];
    GoesByte(p, m[0], At(p, m, 1), [MessageBegin]);
  }

  predicate AllPlain(m: string) { forall i :: 0 <= i < |m| ==> Plain(m[i]) }

  lemma PlainByte(p: Parser, m: string, k: nat)
    requires k < |m| && Plain(m[k])
    ensures Byte(At(p, m, k), m[k]) == Some(Step(At(p, m, k + 1), []))
  {
    hide Byte;
    MethodByte(At(p, m, k), m[k]);
    assert [] + Marked(ReqMethod, m[k]) == [];
  }

  lemma {:induction false} Along(p: Parser, m: string, i: nat, j: nat)
    requires i <= j <= |m| && AllPlain(m)
    ensures Goes(At(p, m, i), m[i..j], At(p, m, j), [])
    decreases j
  {
    hide Byte, Goes, At, Plain;
    if i == j {
      GoesNowhere(At(p, m, i));
      assert m[i..j] == [];
    } else {
      Along(p, m, i, j - 1);
      PlainByte(p, m, j - 1);
      GoesMore(At(p, m, i), m[i..j - 1], At(p, m, j - 1), [], m[j - 1], At(p, m, j), []);
      assert m[i..j - 1] + [m[j - 1]] == m[i..j];
      var none: seq<Event> := [];
      assert none + none == none;
    }
  }

  lemma TurnByte(p: Parser, m: string, i: nat, w: string)
    requires i < |w| && OtherMethod(m, i, w[i]) == Some(w) && i < |m| && m[i] != w[i] && Plain(w[i])
    ensures Byte(At(p, m, i), w[i]) == Some(Step(At(p, w, i + 1), []))
  {
    hide Byte, OtherMethod;
    MethodByte(At(p, m, i), w[i]);
    assert [] + Marked(ReqMethod, w[i]) == [];
  }

  /** A change of mind at letter i. */
  lemma Turns(p: Parser, s: string, m: string, i: nat, w: string, es: seq<Event>)
    requires i < |w| && OtherMethod(m, i, w[i]) == Some(w) && i < |m| && m[i] != w[i] && AllPlain(w)
    requires Goes(p, s, At(p, m, i), es) && s == w[..i]
    ensures Goes(p, w, At(p, w, |w|), es)
  {
    hide Byte, Goes, At, Plain, OtherMethod;
    TurnByte(p, m, i, w);
    GoesMore(p, s, At(p, m, i), es, w[i], At(p, w, i + 1), []);
    SliceNext(w, i);
    assert es + [] == es;
    Along(p, w, i + 1, |w|);
    GoesOn(p, w[..i + 1], At(p, w, i + 1), es, w[i + 1..|w|], At(p, w, |w|), []);
    Rejoined(w, i + 1, |w|);
    assert w[..|w|] == w;
  }

  /** A method whose first letter suggests it. */
  lemma Direct(p: Parser, m: string, k: nat)
    requires p.state.StartReq? && 0 < k <= |m| && FirstMethod(m[0]) == Some(m) && AllPlain(m)
    ensures Goes(p, m[..k], At(p, m, k), [MessageBegin])
  {
    hide Byte, Run, FirstMethod;
    Begins(p, m);
    Along(p, m, 1, k);
    GoesOn(p, m[..1], At(p, m, 1), [MessageBegin], m[1..k], At(p, m, k), []);
    assert m[..1] + m[1..k] == m[..k] && [MessageBegin] + [] == [MessageBegin];
  }

  /** A method that its letter i turns to. */
  lemma Via(p: Parser, m: string, i: nat, w: string)
    requires p.state.StartReq? && 0 < i < |m| && i < |w| && FirstMethod(m[0]) == Some(m) && AllPlain(m) && AllPlain(w)
    requires OtherMethod(m, i, w[i]) == Some(w) && m[i] != w[i]
    ensures Goes(p, w, At(p, w, |w|), [MessageBegin])
  {
    hide Byte, Run, FirstMethod, OtherMethod;
    Direct(p, m, i);
    OtherGuess(m, i, w[i]);
    Turns(p, m[..i], m, i, w, [MessageBegin]);
  }

  /** A method that one turned to turns to in its turn. */
  lemma Twice(p: Parser, m: string, i: nat, n: string, j: nat, w: string)
    requires p.state.StartReq? && 0 < i < |m| && i < j < |n| && j < |w| && FirstMethod(m[0]) == Some(m)
    requires AllPlain(m) && AllPlain(n) && AllPlain(w)
    requires OtherMethod(m, i, n[i]) == Some(n) && m[i] != n[i]
    requires OtherMethod(n, j, w[j]) == Some(w) && n[j] != w[j]
    ensures Goes(p, w, At(p, w, |w|), [MessageBegin])
  {
    hide Byte, Goes, At, Plain, FirstMethod, OtherMethod;
    Direct(p, m, i);
    OtherGuess(m, i, n[i]);
    TurnByte(p, m, i, n);
    SliceNext(n, i);
    GoesMore(p, m[..i], At(p, m, i), [MessageBegin], n[i], At(p, n, i + 1), []);
    assert [MessageBegin] + [] == [MessageBegin];
    Along(p, n, i + 1, j);
    GoesOn(p, n[..i + 1], At(p, n, i + 1), [MessageBegin], n[i + 1..j], At(p, n, j), []);
    Rejoined(n, i + 1, j);
    OtherGuess(n, j, w[j]);
    Turns(p, n[..j], n, j, w, [MessageBegin]);
  }

  lemma Rejoined(m: string, i: nat, j: nat)
    requires i <= j <= |m|
    ensures m[..i] + m[i..j] == m[..j]
  {
  }

  predicate Suggested(m: string) {
    || m == "ACL" || m == "BIND" || m == "CONNECT" || m == "DELETE" || m == "GET" || m == "HEAD" || m == "LOCK"
    || m == "MKCOL" || m == "NOTIFY" || m == "OPTIONS" || m == "POST" || m == "REPORT" || m == "SUBSCRIBE"
    || m == "TRACE" || m == "UNLOCK"
  }

  lemma SuggestedIs(m: string)
    requires Suggested(m)
    ensures |m| >= 3 && FirstMethod(m[0]) == Some(m) && AllPlain(m)
  {
  }

  /** The method that turns to w, and the letter where it does. */
  function Source(w: string): (string, nat) {
    match w
    case "PUT" => ("POST", 1)
    case "PATCH" => ("POST", 1)
    case "PROPFIND" => ("POST", 1)
    case "CHECKOUT" => ("CONNECT", 1)
    case "COPY" => ("CONNECT", 2)
    case "MOVE" => ("MKCOL", 1)
    case "MERGE" => ("MKCOL", 1)
    case "M-SEARCH" => ("MKCOL", 1)
    case "MKACTIVITY" => ("MKCOL", 2)
    case "MKCALENDAR" => ("MKCOL", 3)
    case "SEARCH" => ("SUBSCRIBE", 1)
    case "REBIND" => ("REPORT", 2)
    case "LINK" => ("LOCK", 1)
    case "UNSUBSCRIBE" => ("UNLOCK", 2)
    case "UNBIND" => ("UNLOCK", 2)
    case _ => ("UNLOCK", 3)
  }

  /** It does so. */
  ghost predicate TurnsTo(w: string) {
    var (m, i) := Source(w);
    && 0 < i < |m| && i < |w| && FirstMethod(m[0]) == Some(m) && AllPlain(m) && AllPlain(w)
    && OtherMethod(m, i, w[i]) == Some(w) && m[i] != w[i]
  }

  lemma SourceIs(w: string)
    requires IsMethod(w) && !Suggested(w) && w != "PROPPATCH" && w != "PURGE"
    ensures TurnsTo(w)
  {
    hide TurnsTo;
    if w == "PUT" || w == "PATCH" || w == "PROPFIND" {
      FromPost(w);
    } else if w == "CHECKOUT" || w == "COPY" || w == "SEARCH" || w == "REBIND" || w == "LINK" {
      FromOthers(w);
    } else if w == "UNSUBSCRIBE" || w == "UNBIND" || w == "UNLINK" {
      FromUnlock(w);
    } else {
      FromMkcol(w);
    }
  }

  lemma FromPost(w: string)
    requires w == "PUT" || w == "PATCH" || w == "PROPFIND"
    ensures TurnsTo(w)
  {
  }

  lemma FromOthers(w: string)
    requires w == "CHECKOUT" || w == "COPY" || w == "SEARCH" || w == "REBIND" || w == "LINK"
    ensures TurnsTo(w)
  {
  }

  lemma FromUnlock(w: string)
    requires w == "UNSUBSCRIBE" || w == "UNBIND" || w == "UNLINK"
    ensures TurnsTo(w)
  {
  }

  lemma FromMkcol(w: string)
    requires w == "MOVE" || w == "MERGE" || w == "M-SEARCH" || w == "MKACTIVITY" || w == "MKCALENDAR"
    ensures TurnsTo(w)
  {
  }

  lemma Arrives(p: Parser, w: string)
    requires p.state.StartReq? && IsMethod(w)
    ensures Goes(p, w, At(p, w, |w|), [MessageBegin])
  {
    hide Run, Byte, IsMethod, Suggested, FirstMethod, OtherMethod, Source;
    if Suggested(w) {
      SuggestedIs(w);
      Direct(p, w, |w|);
      assert w[..|w|] == w;
    } else if w == "PROPPATCH" {
      Proppatch(p);
    } else if w == "PURGE" {
      Purge(p);
    } else {
      SourceIs(w);
      var (m, i) := Source(w);
      Via(p, m, i, w);
    }
  }

  lemma Proppatch(p: Parser)
    requires p.state.StartReq?
    ensures Goes(p, "PROPPATCH", At(p, "PROPPATCH", 9), [MessageBegin])
  {
    hide Run, Byte;
    Twice(p, "POST", 1, "PROPFIND", 4, "PROPPATCH");
  }

  lemma Purge(p: Parser)
    requires p.state.StartReq?
    ensures Goes(p, "PURGE", At(p, "PURGE", 5), [MessageBegin])
  {
    hide Run, Byte;
    Twice(p, "POST", 1, "PUT", 2, "PURGE");
  }

  /** The space behind the method. */
  lemma MethodEnds(p: Parser, s: string, q: Parser)
    requires Guessing(p, s, q)
    ensures s == q.verb ==> Byte(q, ' ') == Some(Step(q.(state := ReqSpacesBeforeUrl), []))
    ensures s != q.verb ==> Byte(q, ' ').None?
  {
    hide Byte, IsMethod;
    MethodByte(q, ' ');
    assert [] + Marked(ReqSpacesBeforeUrl, ' ') == [];
    if |s| == |q.verb| { assert q.verb[..|s|] == q.verb; }
    NoSpaces(q.verb, |s|);
  }

  lemma NoSpaces(m: string, k: nat)
    requires IsMethod(m)
    ensures k < |m| ==> m[k] != ' '
    ensures OtherMethod(m, k, ' ').None?
  {
  }

  /** Over a method and a space the parser comes to the target, and knows the method. */
  function WithMethod(p: Parser, m: string): Parser {
    p.(flags := NO_FLAGS, length := NO_LENGTH, verb := m, index := |m|, state := ReqSpacesBeforeUrl)
  }

  /**
  Of all strings without a space, and in front of one, exactly the methods lead to the
  target; and the method found is the one that was sent.
  */
  lemma MethodExactly(p: Parser, s: string)
    requires p.state.StartReq? && s != [] && s[0] != CR && s[0] != LF && ' ' !in s
    ensures Run(p, s + " ").Some? <==> IsMethod(s)
    ensures IsMethod(s) ==> Goes(p, s + " ", WithMethod(p, s), [MessageBegin])
  {
    hide Run, Byte, IsMethod, Guessing;
    RunSnoc(p, s, ' ');
    assert [MessageBegin] + [] == [MessageBegin];
    if Run(p, s).Some? {
      GuessRun(p, s);
      var q := Run(p, s).value.p;
      MethodEnds(p, s, q);
      GuessIs(p, s, q);
    }
    if IsMethod(s) { Arrives(p, s); }
  }

  lemma GuessIs(p: Parser, s: string, q: Parser)
    requires Guessing(p, s, q)
    ensures s == q.verb ==> IsMethod(s) && q.(state := ReqSpacesBeforeUrl) == WithMethod(p, s)
    ensures q.verb == s || !IsMethod(s) || q != At(p, s, |s|)
  {
    hide IsMethod;
  }
}
