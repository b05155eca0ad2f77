/**
Base-128 varints and zigzag (examples/protobuf/protobuf-c/protobuf-c.c): the
plain definition of the encoding, and the C code's size, pack, scan and parse
routines, each related to it.

The C code joins disjoint bit fields with |, masks with & 0x7f and shifts; on
the numbers below these are +, % 128, and multiplication or division by powers
of two.
*/
module Varints {
  import opened Bytes

  const TWO28 := 0x1000_0000
  const TWO32 := 0x1_0000_0000
  const TWO64 := 0x1_0000_0000_0000_0000

  /** The varint of v: groups of seven bits, least significant first, all but the last marked. */
  function Varint(v: nat): (b: seq<byte>)
    ensures |b| >= 1
  {
    if v < 128 then [v] else [v % 128 + 128] + Varint(v / 128)
  }

  /** The seven bits of a group. */
  function Seven(b: byte): nat { b % 128 }

  /** The number a string of groups stands for; the marks are ignored. */
  function Groups(b: seq<byte>): nat {
    if b == [] then 0 else Seven(b[0]) + 128 * Groups(b[1..])
  }

  /** The length of the varint at the start of b, if it ends within its first max bytes; else 0. */
  function VarintLength(b: seq<byte>, max: nat): (n: nat)
    ensures n <= |b| && n <= max
    ensures n > 0 ==> b[n - 1] < 128 && forall i :: 0 <= i < n - 1 ==> b[i] >= 128
    ensures n == 0 ==> forall i :: 0 <= i < |b| && i < max ==> b[i] >= 128
  {
    if b == [] || max == 0 then 0
    else if b[0] < 128 then 1
    else
      var n := VarintLength(b[1..], max - 1);
      if n == 0 then 0 else n + 1
  }

  lemma {:induction false} VarintInverse(v: nat)
    ensures Groups(Varint(v)) == v
  {
    if v >= 128 {
      VarintInverse(v / 128);
      assert Varint(v)[1..] == Varint(v / 128);
    } else {
      assert Varint(v)[1..] == [];
    }
  }

  /** A varint delimits itself. */
  lemma {:induction false} VarintDelimited(v: nat, rest: seq<byte>, max: nat)
    requires |Varint(v)| <= max
    ensures VarintLength(Varint(v) + rest, max) == |Varint(v)|
  {
    if v >= 128 {
      VarintDelimited(v / 128, rest, max - 1);
      assert (Varint(v) + rest)[1..] == Varint(v / 128) + rest;
    }
  }

  /** What ends within a string ends there whatever follows. */
  lemma {:induction false} VarintLengthStable(b: seq<byte>, rest: seq<byte>, max: nat)
    requires VarintLength(b, max) > 0
    ensures VarintLength(b + rest, max) == VarintLength(b, max)
  {
    assert (b + rest)[0] == b[0];
    if b[0] >= 128 {
      VarintLengthStable(b[1..], rest, max - 1);
      assert (b + rest)[1..] == b[1..] + rest;
    }
  }

  // ---------------------------------------------------------------------------
  // Sizes
  // ---------------------------------------------------------------------------

  /** uint32_size */
  function Uint32Size(v: nat): nat {
    if v < 0x80 then 1 else if v < 0x4000 then 2 else if v < 0x20_0000 then 3 else if v < TWO28 then 4 else 5
  }

  /** uint64_size */
  function Uint64Size(v: nat): nat {
    var upper := v / TWO32;
    if upper == 0 then Uint32Size(v)
    else if upper < 8 then 5
    else if upper < 0x400 then 6
    else if upper < 0x2_0000 then 7
    else if upper < 0x100_0000 then 8
    else if upper < 0x8000_0000 then 9
    else 10
  }

  /** get_tag_size */
  function TagSize(number: nat): nat {
    if number < 0x10 then 1 else if number < 0x800 then 2 else if number < 0x4_0000 then 3
    else if number < 0x200_0000 then 4 else 5
  }

  function Pow128(n: nat): nat {
    if n == 0 then 1 else 128 * Pow128(n - 1)
  }

  /** The varint of v has at most n bytes exactly when v has at most n groups. */
  lemma {:induction false} VarintBound(v: nat, n: nat)
    requires n >= 1
    ensures |Varint(v)| <= n <==> v < Pow128(n)
  {
    if v >= 128 {
      if n == 1 {
        assert |Varint(v / 128)| >= 1;
      } else {
        VarintBound(v / 128, n - 1);
        assert v / 128 < Pow128(n - 1) <==> v < 128 * Pow128(n - 1);
      }
    } else {
      Pow128Positive(n - 1);
    }
  }

  lemma {:induction false} Pow128Positive(n: nat)
    ensures Pow128(n) >= 1
  {
    if n != 0 { Pow128Positive(n - 1); }
  }

  lemma Pow128Values()
    ensures Pow128(1) == 0x80 && Pow128(2) == 0x4000 && Pow128(3) == 0x20_0000 && Pow128(4) == TWO28
    ensures Pow128(5) == 8 * TWO32 && Pow128(6) == 0x400 * TWO32 && Pow128(7) == 0x2_0000 * TWO32
    ensures Pow128(8) == 0x100_0000 * TWO32 && Pow128(9) == 0x8000_0000 * TWO32 && Pow128(10) == 0x40_0000_0000 * TWO32
  {
    assert Pow128(1) == 128 * Pow128(0);
    assert Pow128(2) == 128 * Pow128(1);
    assert Pow128(3) == 128 * Pow128(2);
    assert Pow128(4) == 128 * Pow128(3);
    assert Pow128(5) == 128 * Pow128(4);
    assert Pow128(6) == 128 * Pow128(5);
    assert Pow128(7) == 128 * Pow128(6);
    assert Pow128(8) == 128 * Pow128(7);
    assert Pow128(9) == 128 * Pow128(8);
  }

  /** uint32_size is the length of the varint it predicts. */
  lemma Uint32SizeIsLength(v: nat)
    requires v < TWO32
    ensures Uint32Size(v) == |Varint(v)|
  {
    Pow128Values();
    VarintBound(v, 1);
    VarintBound(v, 2);
    VarintBound(v, 3);
    VarintBound(v, 4);
    VarintBound(v, 5);
  }

  /** uint64_size is the length of the varint it predicts. */
  lemma Uint64SizeIsLength(v: nat)
    requires v < TWO64
    ensures Uint64Size(v) == |Varint(v)| <= 10
  {
    Pow128Values();
    VarintBound(v, 5);
    VarintBound(v, 6);
    VarintBound(v, 7);
    VarintBound(v, 8);
    VarintBound(v, 9);
    VarintBound(v, 10);
    if v < TWO32 {
      Uint32SizeIsLength(v);
    } else {
      VarintBound(v, 4);
    }
  }

  /** get_tag_size is the length of the varint of the tag, whatever wire type is added to it. */
  lemma TagSizeIsLength(number: nat, wire: nat)
    requires number < TWO32 && wire < 8
    ensures TagSize(number) == |Varint(8 * number + wire)|
  {
    Pow128Values();
    VarintBound(8 * number + wire, 1);
    VarintBound(8 * number + wire, 2);
    VarintBound(8 * number + wire, 3);
    VarintBound(8 * number + wire, 4);
    VarintBound(8 * number + wire, 5);
  }

  // ---------------------------------------------------------------------------
  // Packing
  // ---------------------------------------------------------------------------

  /** One more group written behind the groups already written. */
  lemma WroteGroup(v: nat, done: seq<byte>, value: nat, base: seq<byte>, before: seq<byte>, after: seq<byte>, at: nat)
    requires Varint(v) == done + Varint(value) && at + |Varint(v)| <= |base|
    requires before == Splice(base, at, done)
    requires after == before[at + |done| := if value < 128 then value else value % 128 + 128]
    ensures value >= 128 ==> Varint(v) == done + [value % 128 + 128] + Varint(value / 128)
    ensures value >= 128 ==> after == Splice(base, at, done + [value % 128 + 128])
    ensures value < 128 ==> after == Splice(base, at, Varint(v)) && |Varint(v)| == |done| + 1
  {
    var b := if value < 128 then value else value % 128 + 128;
    assert done + Varint(value) == if value < 128 then done + [b] else done + [b] + Varint(value / 128);
    assert after == Splice(base, at, done + [b]);
  }

  /** uint32_pack: the chain of nested tests writes the varint. */
  method Uint32Pack(v: nat, out: array<byte>, at: nat) returns (rv: nat)
    requires v < TWO32 && at + |Varint(v)| <= out.Length
    modifies out
    ensures rv == |Varint(v)| && out[..] == Splice(old(out[..]), at, Varint(v))
  {
    hide Varint, Splice;
    rv := 0;
    var value := v;
    ghost var done: seq<byte> := [];
    SpliceNothing(out[..], at);
    assert Varint(v) == done + Varint(value);
    if value >= 0x80 {
      value, done := PutGroup(v, value, out, at, rv, done, old(out[..]));
      rv := rv + 1;
      if value >= 0x80 {
        value, done := PutGroup(v, value, out, at, rv, done, old(out[..]));
        rv := rv + 1;
        if value >= 0x80 {
          value, done := PutGroup(v, value, out, at, rv, done, old(out[..]));
          rv := rv + 1;
          if value >= 0x80 {
            value, done := PutGroup(v, value, out, at, rv, done, old(out[..]));
            rv := rv + 1;
          }
        }
      }
    }
    FourGroups(v);
    ghost var before := out[..];
    out[at + rv] := value;
    WroteGroup(v, done, value, old(out[..]), before, out[..], at);
    rv := rv + 1;
  }

  lemma SpliceNothing(s: seq<byte>, at: nat)
    requires at <= |s|
    ensures Splice(s, at, []) == s
  {
  }

  lemma FourGroups(v: nat)
    requires v < TWO32
    ensures v / 128 / 128 / 128 / 128 < 128
  {
  }

  /** One group of seven bits, marked as having a successor, and on to the next group. */
  method PutGroup(ghost v: nat, value: nat, out: array<byte>, at: nat, rv: nat, ghost done: seq<byte>,
      ghost base: seq<byte>)
    returns (value': nat, ghost done': seq<byte>)
    requires value >= 0x80 && rv == |done| && Varint(v) == done + Varint(value)
    requires |base| == out.Length && at + |Varint(v)| <= out.Length && out[..] == Splice(base, at, done)
    modifies out
    ensures value' == value / 128 && |done'| == |done| + 1
    ensures Varint(v) == done' + Varint(value') && out[..] == Splice(base, at, done')
  {
    ghost var before := out[..];
    out[at + rv] := value % 128 + 128;
    WroteGroup(v, done, value, base, before, out[..], at);
    value', done' := value / 128, done + [value % 128 + 128];
  }

  lemma HighAndLow(v: nat, hi: nat, lo: nat)
    requires hi == v / TWO32 && lo == v % TWO32
    ensures v % 128 == lo % 128
    ensures v / 128 % 128 == lo / 128 % 128
    ensures v / 128 / 128 % 128 == lo / 0x4000 % 128
    ensures v / 128 / 128 / 128 % 128 == lo / 0x20_0000 % 128
    ensures v / 128 / 128 / 128 / 128 == hi * 16 + lo / TWO28
    ensures v / 128 / 128 / 128 / 128 % 128 == hi % 8 * 16 + lo / TWO28
    ensures v / 128 / 128 / 128 / 128 / 128 == hi / 8
  {
    ShiftSeven(hi * 0x200_0000, lo);
    ShiftSeven(hi * 0x4_0000, lo / 128);
    ShiftSeven(hi * 0x800, lo / 128 / 128);
    ShiftSeven(hi * 16, lo / 128 / 128 / 128);
    SevenSevens(lo);
    Straddle(hi, lo / TWO28);
  }

  lemma ShiftSeven(high: nat, low: nat)
    ensures (128 * high + low) / 128 == high + low / 128
    ensures (128 * high + low) % 128 == low % 128
  {
  }

  lemma SevenSevens(lo: nat)
    requires lo < TWO32
    ensures lo / 128 / 128 == lo / 0x4000
    ensures lo / 128 / 128 / 128 == lo / 0x20_0000
    ensures lo / 128 / 128 / 128 / 128 == lo / TWO28 < 16
  {
  }

  /** The bits of the high half beside the four of the low half. */
  lemma Straddle(hi: nat, four: nat)
    requires four < 16
    ensures (hi * 16 + four) % 128 == hi % 8 * 16 + four
    ensures (hi * 16 + four) / 128 == hi / 8
  {
    assert hi == hi / 8 * 8 + hi % 8;
  }

  /** uint64_pack: two 32-bit halves, the bits that straddle them, and a loop for the rest. */
  method Uint64Pack(v: nat, out: array<byte>, at: nat) returns (rv: nat)
    requires v < TWO64 && at + |Varint(v)| <= out.Length
    modifies out
    ensures rv == |Varint(v)| && out[..] == Splice(old(out[..]), at, Varint(v))
  {
    hide Varint, Splice;
    var hi := v / TWO32;
    var lo := v % TWO32;
    if hi == 0 {
      rv := Uint32Pack(lo, out, at);
      return;
    }
    var b4 := if hi < 8 then hi * 16 + lo / TWO28 else hi % 8 * 16 + lo / TWO28 + 128;
    HeadOf64(v, hi, lo, b4);
    out[at] := lo % 128 + 128;
    out[at + 1] := lo / 128 % 128 + 128;
    out[at + 2] := lo / 0x4000 % 128 + 128;
    out[at + 3] := lo / 0x20_0000 % 128 + 128;
    out[at + 4] := b4;
    ghost var done := [lo % 128 + 128, lo / 128 % 128 + 128, lo / 0x4000 % 128 + 128, lo / 0x20_0000 % 128 + 128, b4];
    SpliceByIndex(out[..], old(out[..]), at, done);
    if hi < 8 {
      assert done + [] == done;
      return 5;
    }
    rv := PutRest(v, hi / 8, out, at, 5, done, old(out[..]));
  }

  method PutRest(ghost v: nat, value: nat, out: array<byte>, at: nat, written: nat, ghost head: seq<byte>,
      ghost base: seq<byte>)
    returns (rv: nat)
    requires written == |head| && Varint(v) == head + Varint(value)
    requires |base| == out.Length && at + |Varint(v)| <= out.Length && out[..] == Splice(base, at, head)
    modifies out
    ensures rv == |Varint(v)| && out[..] == Splice(base, at, Varint(v))
  {
    rv := written;
    var hi := value;
    ghost var done := head;
    while hi >= 128
      invariant rv == |done| && Varint(v) == done + Varint(hi)
      invariant out[..] == Splice(base, at, done)
    {
      hi, done := PutGroup(v, hi, out, at, rv, done, base);
      rv := rv + 1;
    }
    ghost var before := out[..];
    out[at + rv] := hi;
    WroteGroup(v, done, hi, base, before, out[..], at);
    rv := rv + 1;
  }

  /** The five bytes uint64_pack writes first. */
  lemma HeadOf64(v: nat, hi: nat, lo: nat, b4: nat)
    requires hi == v / TWO32 && lo == v % TWO32 && hi > 0
    requires b4 == if hi < 8 then hi * 16 + lo / TWO28 else hi % 8 * 16 + lo / TWO28 + 128
    ensures b4 < 256
    ensures var head := [lo % 128 + 128, lo / 128 % 128 + 128, lo / 0x4000 % 128 + 128, lo / 0x20_0000 % 128 + 128, b4];
            Varint(v) == head + if hi < 8 then [] else Varint(hi / 8)
  {
    hide Varint;
    HighAndLow(v, hi, lo);
    var a := v / 128;
    var b := a / 128;
    var c := b / 128;
    var d := c / 128;
    assert d == hi * 16 + lo / TWO28 >= 16;
    VarintUnroll(v);
    VarintUnroll(a);
    VarintUnroll(b);
    VarintUnroll(c);
    VarintUnroll(d);
    assert Varint(v) == [v % 128 + 128] + ([a % 128 + 128] + ([b % 128 + 128] + ([c % 128 + 128] + Varint(d))));
  }

  lemma VarintUnroll(v: nat)
    ensures Varint(v) == if v < 128 then [v] else [v % 128 + 128] + Varint(v / 128)
  {
  }

  /** Two's complement in the given width. */
  function Wrap(v: int, two: nat): nat
    requires two > 0
  {
    v % two
  }

  /** int32_pack: a negative value is written as a 64-bit one, ten bytes long. */
  method Int32Pack(v: int, out: array<byte>, at: nat) returns (rv: nat)
    requires -0x8000_0000 <= v < 0x8000_0000 && at + |Varint(Wrap(v, TWO64))| <= out.Length
    modifies out
    ensures rv == |Varint(Wrap(v, TWO64))| && out[..] == Splice(old(out[..]), at, Varint(Wrap(v, TWO64)))
  {
    hide Varint, Splice;
    if v < 0 {
      NegativeInt32(v);
      out[at] := v % 128 + 128;
      out[at + 1] := v / 0x80 % 128 + 128;
      out[at + 2] := v / 0x4000 % 128 + 128;
      out[at + 3] := v / 0x20_0000 % 128 + 128;
      out[at + 4] := v / TWO28 % 128 + 128;
      out[at + 5], out[at + 6], out[at + 7], out[at + 8] := 0xff, 0xff, 0xff, 0xff;
      out[at + 9] := 0x01;
      SpliceByIndex(out[..], old(out[..]), at, Varint(Wrap(v, TWO64)));
      return 10;
    } else {
      rv := Uint32Pack(v, out, at);
    }
  }

  lemma NegativeInt32(v: int)
    requires -0x8000_0000 <= v < 0
    ensures Varint(Wrap(v, TWO64))
         == [v % 128 + 128, v / 0x80 % 128 + 128, v / 0x4000 % 128 + 128, v / 0x20_0000 % 128 + 128,
             v / TWO28 % 128 + 128, 0xff, 0xff, 0xff, 0xff, 0x01]
  {
    var w := v + TWO64;
    var a := w / 128;
    var b := a / 128;
    var c := b / 128;
    var d := c / 128;
    NegativeGroups(v, w);
    TopGroups();
    assert Varint(d) == [d % 128 + 128] + Varint(0x1fff_ffff);
    assert Varint(c) == [c % 128 + 128] + Varint(d);
    assert Varint(b) == [b % 128 + 128] + Varint(c);
    assert Varint(a) == [a % 128 + 128] + Varint(b);
    assert Varint(w) == [w % 128 + 128] + Varint(a);
  }

  lemma NegativeGroups(v: int, w: nat)
    requires -0x8000_0000 <= v < 0 && w == v + TWO64
    ensures Wrap(v, TWO64) == w
    ensures w % 128 == v % 128 && w / 128 % 128 == v / 0x80 % 128
    ensures w / 128 / 128 % 128 == v / 0x4000 % 128 && w / 128 / 128 / 128 % 128 == v / 0x20_0000 % 128
    ensures w / 128 / 128 / 128 / 128 % 128 == v / TWO28 % 128
    ensures w / 128 / 128 / 128 / 128 / 128 == 0x1fff_ffff
  {
    assert w / 128 == v / 0x80 + 0x200_0000_0000_0000;
    assert w / 128 / 128 == v / 0x4000 + 0x4_0000_0000_0000;
    assert w / 128 / 128 / 128 == v / 0x20_0000 + 0x800_0000_0000;
    assert w / 128 / 128 / 128 / 128 == v / TWO28 + 0x10_0000_0000;
    assert -8 <= v / TWO28 < 0;
  }

  lemma TopGroups()
    ensures Varint(0x1fff_ffff) == [0xff, 0xff, 0xff, 0xff, 0x01]
  {
    assert Varint(0xff) == [0xff] + Varint(1);
    assert Varint(0x7fff) == [0xff] + Varint(0xff);
    assert Varint(0x3f_ffff) == [0xff] + Varint(0x7fff);
    assert Varint(0x1fff_ffff) == [0xff] + Varint(0x3f_ffff);
  }

  // ---------------------------------------------------------------------------
  // Zigzag
  // ---------------------------------------------------------------------------

  /** zigzag32 and zigzag64, in the unsigned arithmetic of the width. */
  function Zigzag(v: int, two: nat): nat
    requires two > 0
  {
    if v < 0 then ((-v) % two * 2 - 1) % two else v * 2 % two
  }

  /** unzigzag32 and unzigzag64; the unsigned result is converted to the signed type of the width. */
  function Unzigzag(v: nat, two: nat): int
    requires two > 0
  {
    Signed(if v % 2 == 1 then (-(v / 2) - 1) % two else v / 2, two)
  }

  function Signed(v: nat, two: nat): int {
    if v < two / 2 then v else v - two
  }

  /** Zigzag loses nothing, on all signed values of a width, the most negative one included. */
  lemma ZigzagInverse(v: int, two: nat)
    requires two == TWO32 || two == TWO64
    requires -(two / 2) <= v < two / 2
    ensures Zigzag(v, two) < two && Unzigzag(Zigzag(v, two), two) == v
  {
    if v < 0 {
      var z := -v * 2 - 1;
      BelowModulus(-v, two);
      BelowModulus(z, two);
      assert z % 2 == 1 && z / 2 == -v - 1;
      NegativeModulus(-v, two);
    } else {
      BelowModulus(v * 2, two);
    }
  }

  lemma BelowModulus(v: int, two: nat)
    requires 0 <= v < two
    ensures v % two == v
  {
  }

  lemma NegativeModulus(v: int, two: nat)
    requires 0 < v < two
    ensures -v % two == two - v
  {
  }

  lemma WrapInverse(v: int, two: nat)
    requires two == TWO32 || two == TWO64
    requires -(two / 2) <= v < two / 2
    ensures Signed(Wrap(v, two), two) == v
  {
  }

  // ---------------------------------------------------------------------------
  // Parsing
  // ---------------------------------------------------------------------------

  /** parse_uint32: at most five bytes count, and the last of them keeps only the bits that fit. */
  function ParseUint32(b: seq<byte>): nat
    requires |b| > 0
  {
    b[0] % 128
    + (if |b| > 1 then Seven(b[1]) * 0x80 else 0)
    + (if |b| > 2 then Seven(b[2]) * 0x4000 else 0)
    + (if |b| > 3 then Seven(b[3]) * 0x20_0000 else 0)
    + (if |b| > 4 then (b[4] as int) * TWO28 % TWO32 else 0)
  }

  lemma {:induction false} GroupsUnroll(b: seq<byte>, k: nat)
    requires k <= |b|
    ensures Groups(b) == Groups(b[..k]) + Pow128(k) * Groups(b[k..])
  {
    if k == 0 {
      assert b[k..] == b && b[..k] == [];
    } else {
      GroupsUnroll(b[1..], k - 1);
      assert b[..k][1..] == b[1..][..k - 1] && b[1..][k - 1..] == b[k..];
      Distribute(Groups(b[1..][..k - 1]), Pow128(k - 1), Groups(b[k..]));
    }
  }

  lemma Distribute(x: int, p: int, g: int)
    ensures 128 * (x + p * g) == 128 * x + (128 * p) * g
  {
  }

  /** parse_uint32 reads the number modulo 2^32, however long the varint. */
  lemma ParseUint32IsGroups(b: seq<byte>)
    requires |b| > 0
    ensures ParseUint32(b) == Groups(b) % TWO32
  {
    hide Groups, ParseUint32, Seven;
    if |b| <= 4 {
      UpToFour(b);
      SmallModulo(Groups(b));
    } else {
      LongParse(b);
      LongGroups(b);
      KeepFour(Groups(b[..4]), b[4], Groups(b[5..]));
    }
  }

  lemma SmallModulo(v: nat)
    requires v < TWO32
    ensures v % TWO32 == v
  {
  }

  lemma LongGroups(b: seq<byte>)
    requires |b| > 4
    ensures Groups(b) == Groups(b[..4]) + TWO28 * (Seven(b[4]) + 128 * Groups(b[5..]))
  {
    GroupsUnroll(b, 4);
    Pow128Values();
    assert b[4..][0] == b[4] && b[4..][1..] == b[5..];
  }

  lemma LongParse(b: seq<byte>)
    requires |b| > 4
    ensures Groups(b[..4]) < TWO28
    ensures ParseUint32(b) == Groups(b[..4]) + (b[4] as int) * TWO28 % TWO32
  {
    FirstFour(b);
  }

  lemma KeepFour(low: nat, x: byte, rest: nat)
    requires low < TWO28
    ensures low + (x as int) * TWO28 % TWO32 == (low + TWO28 * (Seven(x) + 128 * rest)) % TWO32
  {
    hide Seven;
    LowNibble(x, rest);
    TopFour(0, x);
    TopFour(low, Seven(x) + 128 * rest);
  }

  lemma LowNibble(x: byte, rest: nat)
    ensures (Seven(x) + 128 * rest) % 16 == x as int % 16
  {
    var seven: nat := Seven(x);
    assert x as int == seven || x as int == seven + 16 * 8;
    SixteensDrop(seven, 8 * rest);
    SixteensDrop(seven, 8);
  }

  lemma SixteensDrop(low: nat, high: nat)
    ensures (low + 16 * high) % 16 == low % 16
  {
  }

  /** Of a number shifted left by 28, a 32-bit word keeps four bits. */
  lemma TopFour(low: nat, high: nat)
    requires low < TWO28
    ensures (low + TWO28 * high) % TWO32 == low + high % 16 * TWO28
  {
    var q, r := high / 16, high % 16;
    assert high == 16 * q + r;
    assert low + TWO28 * high == TWO32 * q + (low + r * TWO28);
    ModuloOf(q, low + r * TWO28);
  }

  lemma ModuloOf(q: nat, r: nat)
    requires r < TWO32
    ensures (TWO32 * q + r) % TWO32 == r
  {
  }

  lemma UpToFour(b: seq<byte>)
    requires 0 < |b| <= 4
    ensures ParseUint32(b) == Groups(b) < TWO28
  {
    assert Groups(b) == Seven(b[0]) + 128 * Groups(b[1..]);
    if |b| > 1 {
      assert b[1..][1..] == b[2..];
      assert Groups(b[1..]) == Seven(b[1]) + 128 * Groups(b[2..]);
    }
    if |b| > 2 {
      assert b[2..][1..] == b[3..];
      assert Groups(b[2..]) == Seven(b[2]) + 128 * Groups(b[3..]);
    }
    if |b| > 3 {
      assert b[3..][1..] == b[4..];
      assert Groups(b[3..]) == Seven(b[3]) + 128 * Groups(b[4..]);
    }
  }

  /** parse_uint64: the loop shifts each group into its place; what does not fit 64 bits is lost. */
  method ParseUint64(b: seq<byte>) returns (rv: nat)
    requires 0 < |b| <= 10
    ensures rv == Groups(b) % TWO64
  {
    hide Groups, Seven, AddModulo;
    if |b| < 5 {
      UpToFour(b);
      return ParseUint32(b);
    }
    FirstFour(b);
    rv := Seven(b[0]) + Seven(b[1]) * 0x80 + Seven(b[2]) * 0x4000 + Seven(b[3]) * 0x20_0000;
    var scale := TWO28;
    for i := 4 to |b|
      invariant scale == Pow128(i) && rv == Groups(b[..i]) % TWO64
    {
      NextGroup(b, i);
      rv := AddModulo(rv, Seven(b[i]) * scale, Groups(b[..i]));
      scale := scale * 128;
    }
    assert b[..|b|] == b;
  }

  function AddModulo(rv: nat, more: nat, ghost sum: nat): (r: nat)
    requires rv == sum % TWO64
    ensures r == (sum + more) % TWO64
  {
    (rv + more % TWO64) % TWO64
  }

  lemma FirstFour(b: seq<byte>)
    requires |b| >= 4
    ensures Groups(b[..4]) == Seven(b[0]) + Seven(b[1]) * 0x80 + Seven(b[2]) * 0x4000 + Seven(b[3]) * 0x20_0000 < TWO28
    ensures Pow128(4) == TWO28
  {
    Pow128Values();
    var c := b[..4];
    assert c[1..][1..] == c[2..] && c[2..][1..] == c[3..] && c[3..][1..] == [];
    assert Groups(c[3..]) == c[3] % 128;
    assert Groups(c[2..]) == c[2] % 128 + 128 * Groups(c[3..]);
    assert Groups(c[1..]) == c[1] % 128 + 128 * Groups(c[2..]);
  }

  lemma NextGroup(b: seq<byte>, i: nat)
    requires i < |b|
    ensures Groups(b[..i + 1]) == Groups(b[..i]) + Seven(b[i]) * Pow128(i)
    ensures Pow128(i + 1) == Pow128(i) * 128
  {
    GroupsUnroll(b[..i + 1], i);
    assert b[..i + 1][..i] == b[..i] && b[..i + 1][i..] == [b[i]];
    assert Groups([b[i]]) == Seven(b[i]);
  }
}
