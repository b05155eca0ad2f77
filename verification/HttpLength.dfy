/** Content-Length: the accumulator holds the true value of the header, or the header is refused. */
module HttpLength {
  import opened Options
  import opened HttpSpec
  import opened HttpInvariant
  import opened HttpParser

  /** The largest length the conservative overflow test lets through. */
  const MAX_CONTENT_LENGTH: nat := NO_LENGTH - 6

  /** Digits and blanks, the first a digit. */
  predicate IsLength(s: string) {
    s != [] && IsNum(s[0]) && forall i :: 0 <= i < |s| ==> IsNum(s[i]) || s[i] == ' '
  }

  /** The number the digits stand for; the parser skips blanks wherever they are. */
  function DecimalValue(s: string): nat {
    if s == [] then 0
    else
      var v, c := DecimalValue(s[..|s| - 1]), s[|s| - 1];
      if IsNum(c) then v * 10 + Digit(c) else v
  }

  function WithLength(p: Parser, n: nat): Parser {
    p.(state := HeaderValue, index := 0, flags := p.flags.(contentLength := true), length := n)
  }

  lemma FirstDigit(p: Parser, c: char)
    requires p.state.HeaderValueStart? || p.state.HeaderValueDiscardWs?
    requires p.h.ContentLength? && !p.flags.contentLength && IsNum(c)
    ensures Byte(p, c) == Some(Step(WithLength(p, Digit(c)), [Data(HeaderFieldValue, c)]))
  {
    hide Byte;
    ByteDone(p, c);
  }

  lemma NoFirstDigit(p: Parser, c: char)
    requires p.state.HeaderValueStart? || p.state.HeaderValueDiscardWs?
    requires p.h.ContentLength? && (p.flags.contentLength || !IsNum(c))
    ensures Byte(p, c).Some? ==> !Byte(p, c).value.p.state.HeaderValue?
  {
    hide Byte;
    if Switch(p, c).Done? { ByteDone(p, c); } else { ByteFails(p, c); }
  }

  lemma NoNextByte(p: Parser, c: char)
    requires p.state.HeaderValue? && p.h.ContentLength? && !IsNum(c) && c != ' '
    ensures Byte(p, c).Some? ==> !Byte(p, c).value.p.state.HeaderValue?
  {
    hide Byte, IsHeaderChar;
    if c == CR || c == LF { ValueEnds(p, c); } else { ValueByte(p, c); }
  }

  lemma NextByte(p: Parser, c: char)
    requires p.state.HeaderValue? && p.h.ContentLength? && (IsNum(c) || c == ' ')
    ensures Byte(p, c) == if IsNum(c) && p.length * 10 > MAX_CONTENT_LENGTH then None
                          else Some(Step(p.(length := if IsNum(c) then p.length * 10 + Digit(c) else p.length),
                                         [Data(HeaderFieldValue, c)]))
  {
    hide Byte, ValueMatch, IsHeaderChar;
    DigitsAreValid(c);
    ValueByte(p, c);
    LengthMatch(p, c);
  }

  lemma DigitsAreValid(c: char)
    requires IsNum(c) || c == ' '
    ensures IsHeaderChar(c) && c != CR && c != LF
  {
  }

  lemma LengthMatch(p: Parser, c: char)
    requires p.h.ContentLength? && (IsNum(c) || c == ' ')
    ensures var v := ValueMatch(ValueOf(p), c);
            var n := if IsNum(c) then p.length * 10 + Digit(c) else p.length;
            if IsNum(c) && p.length * 10 > MAX_CONTENT_LENGTH then v.None?
            else v.Some? && WithValue(p, v.value) == p.(length := n)
  {
    hide Lower;
    if IsNum(c) && p.length <= (NO_LENGTH - 10) / 10 { DigitFits(p.length, 10, Digit(c)); }
  }

  /**
  The header value s is read as the number it stands for, with all its bytes handed
  to the callback, exactly when that number does not exceed the limit.
  */
  lemma {:induction false} LengthRun(p: Parser, s: string)
    requires p.state.HeaderValueStart? || p.state.HeaderValueDiscardWs?
    requires p.h.ContentLength? && !p.flags.contentLength && IsLength(s)
    ensures Run(p, s) == if DecimalValue(s) > MAX_CONTENT_LENGTH then None
                         else Some(Step(WithLength(p, DecimalValue(s)), DataEvents(HeaderFieldValue, s)))
    decreases |s|
  {
    hide Byte, IsNum, Digit;
    var c := s[|s| - 1];
    if |s| == 1 {
      assert s == [c] && s[..0] == [];
      OneByte(p, c);
      FirstDigit(p, c);
      SmallDigit(c);
      OneDatum(HeaderFieldValue, c);
    } else {
      var init := s[..|s| - 1];
      LengthRun(p, init);
      assert s == init + [c];
      SmallDigit(c);
      DataSnoc(HeaderFieldValue, init, c);
      NextByte(WithLength(p, DecimalValue(init)), c);
    }
  }

  lemma SmallDigit(c: char)
    ensures IsNum(c) ==> Digit(c) <= 9
  {
  }

  /** All of s is taken for the value of the header. */
  ghost predicate ReadAsLength(p: Parser, s: string) {
    forall k :: 0 < k <= |s| ==> Run(p, s[..k]).Some? && Run(p, s[..k]).value.p.state.HeaderValue?
  }

  lemma {:induction false} DecimalGrows(s: string, k: nat)
    requires k <= |s|
    ensures DecimalValue(s[..k]) <= DecimalValue(s)
    decreases |s|
  {
    if k == |s| {
      assert s[..k] == s;
    } else {
      assert s[..|s| - 1][..k] == s[..k];
      DecimalGrows(s[..|s| - 1], k);
    }
  }

  /** Up to its byte number i, s reads as a length. */
  lemma {:induction false} LengthSoFar(p: Parser, s: string, i: nat)
    requires p.state.HeaderValueStart? || p.state.HeaderValueDiscardWs?
    requires p.h.ContentLength? && i < |s| && ReadAsLength(p, s)
    ensures !p.flags.contentLength && IsLength(s[..i + 1])
    decreases i
  {
    hide Run, Byte, IsNum, Digit;
    assert s[..i + 1] == s[..i] + [s[i]];
    RunSnoc(p, s[..i], s[i]);
    if i == 0 {
      RunStarts(p);
      if p.flags.contentLength || !IsNum(s[0]) { NoFirstDigit(p, s[0]); }
    } else {
      LengthSoFar(p, s, i - 1);
      LengthRun(p, s[..i]);
      var q := WithLength(p, DecimalValue(s[..i]));
      if !IsNum(s[i]) && s[i] != ' ' { NoNextByte(q, s[i]); }
    }
  }

  lemma RunStarts(p: Parser)
    ensures Run(p, []) == Some(Step(p, []))
  {
  }

  /**
  What is taken for a Content-Length, of all strings: the first of the message, digits
  and blanks that begin with a digit, up to the limit.
  */
  lemma LengthExactly(p: Parser, s: string)
    requires p.state.HeaderValueStart? || p.state.HeaderValueDiscardWs?
    requires p.h.ContentLength? && s != []
    ensures ReadAsLength(p, s) <==>
            !p.flags.contentLength && IsLength(s) && DecimalValue(s) <= MAX_CONTENT_LENGTH
    ensures ReadAsLength(p, s) ==>
              Run(p, s) == Some(Step(WithLength(p, DecimalValue(s)), DataEvents(HeaderFieldValue, s)))
  {
    hide Run, Byte, IsNum, Digit, DecimalValue;
    assert s[..|s|] == s;
    if ReadAsLength(p, s) { LengthSoFar(p, s, |s| - 1); }
    if !p.flags.contentLength && IsLength(s) {
      LengthRun(p, s);
      forall k | 0 < k <= |s| && DecimalValue(s) <= MAX_CONTENT_LENGTH
        ensures Run(p, s[..k]).Some? && Run(p, s[..k]).value.p.state.HeaderValue?
      {
        DecimalGrows(s, k);
        LengthRun(p, s[..k]);
      }
    }
  }
}
