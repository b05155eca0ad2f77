/** Bytes, and writing a run of bytes into the middle of a buffer. */
module Bytes {
  type byte = b: int | 0 <= b < 256 witness 0

  /** s with the bytes b written at position at. */
  function Splice(s: seq<byte>, at: nat, b: seq<byte>): (r: seq<byte>)
    requires at + |b| <= |s|
    ensures |r| == |s|
  {
    s[..at] + b + s[at + |b|..]
  }

  /** Writing a and then b right behind it is writing a + b. */
  lemma SpliceSplice(s: seq<byte>, at: nat, a: seq<byte>, b: seq<byte>)
    requires at + |a| + |b| <= |s|
    ensures Splice(Splice(s, at, a), at + |a|, b) == Splice(s, at, a + b)
  {
    var t := Splice(s, at, a);
    assert t[..at + |a|] == s[..at] + a;
    assert t[at + |a| + |b|..] == s[at + |a| + |b|..];
    assert s[..at] + a + b == s[..at] + (a + b);
  }

  /** memmove: the source and destination ranges may overlap. */
  method Memmove(out: array<byte>, to: nat, from: nat, n: nat)
    requires to + n <= out.Length && from + n <= out.Length
    modifies out
    ensures out[..] == Splice(old(out[..]), to, old(out[from..from + n]))
  {
    ghost var source := out[from..from + n];
    if to <= from {
      for i := 0 to n
        invariant forall k :: to <= k < to + i ==> out[k] == source[k - to]
        invariant forall k :: 0 <= k < to || to + i <= k < out.Length ==> out[k] == old(out[k])
      {
        out[to + i] := out[from + i];
      }
    } else {
      for i := n downto 0
        invariant forall k :: to + i <= k < to + n ==> out[k] == source[k - to]
        invariant forall k :: 0 <= k < to + i || to + n <= k < out.Length ==> out[k] == old(out[k])
      {
        out[to + i] := out[from + i];
      }
    }
    SpliceByIndex(out[..], old(out[..]), to, source);
  }

  lemma SpliceByIndex(r: seq<byte>, s: seq<byte>, at: nat, b: seq<byte>)
    requires at + |b| <= |s| == |r|
    requires forall k :: 0 <= k < at ==> r[k] == s[k]
    requires forall k :: at <= k < at + |b| ==> r[k] == b[k - at]
    requires forall k :: at + |b| <= k < |s| ==> r[k] == s[k]
    ensures r == Splice(s, at, b)
  {
  }

  /** memcpy into the buffer. */
  method Copy(out: array<byte>, at: nat, b: seq<byte>)
    requires at + |b| <= out.Length
    modifies out
    ensures out[..] == Splice(old(out[..]), at, b)
  {
    for i := 0 to |b|
      invariant forall k :: at <= k < at + i ==> out[k] == b[k - at]
      invariant forall k :: 0 <= k < at || at + i <= k < out.Length ==> out[k] == old(out[k])
    {
      out[at + i] := b[i];
    }
    SpliceByIndex(out[..], old(out[..]), at, b);
  }

  /** The n bytes of v, least significant first. */
  function LittleEndian(n: nat, v: nat): (b: seq<byte>)
    ensures |b| == n
  {
    if n == 0 then [] else [v % 256] + LittleEndian(n - 1, v / 256)
  }

  /** The number whose bytes, least significant first, are b. */
  function FromLittleEndian(b: seq<byte>): nat {
    if b == [] then 0 else b[0] + 256 * FromLittleEndian(b[1..])
  }

  function Pow256(n: nat): nat {
    if n == 0 then 1 else 256 * Pow256(n - 1)
  }

  lemma {:induction false} LittleEndianInverse(n: nat, v: nat)
    requires v < Pow256(n)
    ensures FromLittleEndian(LittleEndian(n, v)) == v
  {
    if n != 0 {
      LittleEndianInverse(n - 1, v / 256);
      assert LittleEndian(n, v)[1..] == LittleEndian(n - 1, v / 256);
    }
  }
}
