/**
Reading the texts of addresses back: the numbers between the dots of a version 4
address, and the bytes between the colons of a version 6 one.
*/
module SocksAddresses {
  import opened Bytes
  import opened SocksSpec

  // ---------------------------------------------------------------------------
  // Pieces between separators
  // ---------------------------------------------------------------------------

  /** What stands before, between and after the separators of s. */
  function Split(s: seq<byte>, sep: byte): (pieces: seq<seq<byte>>)
    ensures pieces != []
  {
    if s == [] then [[]]
    else
      var rest := Split(s[1..], sep);
      if s[0] == sep then [[]] + rest else [[s[0]] + rest[0]] + rest[1..]
  }

  lemma {:induction false} SplitWhole(s: seq<byte>, sep: byte)
    requires sep !in s
    ensures Split(s, sep) == [s]
  {
    if s != [] {
      SplitWhole(s[1..], sep);
      assert s == [s[0]] + s[1..];
    }
  }

  /** A separator ends a piece and begins another. */
  lemma {:induction false} SplitConcat(a: seq<byte>, b: seq<byte>, sep: byte)
    ensures Split(a + [sep] + b, sep) == Split(a, sep) + Split(b, sep)
  {
    var s := a + [sep] + b;
    if a == [] {
      assert s[0] == sep && s[1..] == b;
    } else {
      assert s[0] == a[0] && s[1..] == a[1..] + [sep] + b;
      SplitConcat(a[1..], b, sep);
      var left, right := Split(a[1..], sep), Split(b, sep);
      Regrouped([a[0]] + left[0], left, right);
      Regrouped([], left, right);
    }
  }

  lemma Regrouped<T>(x: T, left: seq<T>, right: seq<T>)
    requires left != []
    ensures (left + right)[0] == left[0] && [x] + (left + right)[1..] == [x] + left[1..] + right
    ensures [x] + (left + right) == [x] + left + right
  {
  }

  // ---------------------------------------------------------------------------
  // Numbers between dots
  // ---------------------------------------------------------------------------

  predicate IsDigit(c: byte) { 48 <= c <= 57 }

  /** The number its decimal digits give. */
  function Number(s: seq<byte>): int {
    if s == [] then 0 else 10 * Number(s[..|s| - 1]) + (s[|s| - 1] as int - 48)
  }

  /** A decimal number as it is usually written: digits, and no zero in front. */
  predicate Numeral(s: seq<byte>) {
    && s != [] && (forall c :: c in s ==> IsDigit(c))
    && (s[0] == 48 ==> |s| == 1)
  }

  /** The numbers between the dots. */
  function Numbers(s: seq<byte>): seq<int> {
    seq(|Split(s, 46)|, i requires 0 <= i < |Split(s, 46)| => Number(Split(s, 46)[i]))
  }

  predicate Numerals(s: seq<byte>) {
    forall p :: p in Split(s, 46) ==> Numeral(p)
  }

  lemma {:induction false} DecimalReads(n: nat)
    ensures Numeral(Decimal(n)) && Number(Decimal(n)) == n && (n > 0 ==> Decimal(n)[0] != 48)
  {
    if n >= 10 {
      DecimalReads(n / 10);
      var s := Decimal(n);
      assert s[..|s| - 1] == Decimal(n / 10);
      assert s[0] == Decimal(n / 10)[0];
    } else {
      assert [48 + n][..0] == [];
    }
  }

  /** The text of a version 4 address gives its four octets back. */
  lemma DottedReads(octets: seq<byte>)
    requires |octets| == 4
    ensures Numbers(Dotted(BigEndian(octets))) == octets && Numerals(Dotted(BigEndian(octets)))
  {
    hide Decimal, Number, Numeral, Split, BigEndian;
    OctetsOf(octets);
    var p, q, r, t := Decimal(octets[0]), Decimal(octets[1]), Decimal(octets[2]), Decimal(octets[3]);
    DecimalReads(octets[0]);
    DecimalReads(octets[1]);
    DecimalReads(octets[2]);
    DecimalReads(octets[3]);
    FourPieces(p, q, r, t);
    assert Dotted(BigEndian(octets)) == p + [46] + q + [46] + r + [46] + t;
  }

  lemma FourPieces(p: seq<byte>, q: seq<byte>, r: seq<byte>, t: seq<byte>)
    requires Numeral(p) && Numeral(q) && Numeral(r) && Numeral(t)
    ensures Split(p + [46] + q + [46] + r + [46] + t, 46) == [p, q, r, t]
  {
    hide Numeral, Split;
    NoDots(p);
    NoDots(q);
    NoDots(r);
    NoDots(t);
    SplitConcat(p, q, 46);
    SplitConcat(p + [46] + q, r, 46);
    SplitConcat(p + [46] + q + [46] + r, t, 46);
  }

  lemma NoDots(s: seq<byte>)
    requires Numeral(s)
    ensures Split(s, 46) == [s]
  {
    SplitWhole(s, 46);
  }

  lemma LastByte(x: nat, b: byte)
    ensures (x * 256 + b as int) / 256 == x && (x * 256 + b as int) % 256 == b as int
  {
  }

  lemma Shifts(x: nat)
    ensures x / 0x1_0000 == x / 0x100 / 0x100 && x / 0x100_0000 == x / 0x100 / 0x100 / 0x100
  {
  }

  lemma BigEndianSnoc(b: seq<byte>, c: byte)
    ensures BigEndian(b + [c]) == BigEndian(b) * 256 + c as int
  {
    assert (b + [c])[..|b|] == b;
  }

  /** Shifts and masks take the octets apart. */
  lemma OctetsOf(octets: seq<byte>)
    requires |octets| == 4
    ensures var ip := BigEndian(octets);
            && ip == ((octets[0] as int * 256 + octets[1] as int) * 256 + octets[2] as int) * 256 + octets[3] as int
            && ip / 0x100_0000 % 256 == octets[0] && ip / 0x1_0000 % 256 == octets[1]
            && ip / 0x100 % 256 == octets[2] && ip % 256 == octets[3]
  {
    var a, b, c, d := octets[0], octets[1], octets[2], octets[3];
    assert octets == [] + [a] + [b] + [c] + [d] && BigEndian([]) == 0;
    hide BigEndian;
    BigEndianSnoc([], a);
    BigEndianSnoc([] + [a], b);
    BigEndianSnoc([] + [a] + [b], c);
    BigEndianSnoc([] + [a] + [b] + [c], d);
    var two: nat := a as int * 256 + b as int;
    var three: nat := two * 256 + c as int;
    Shifts(three * 256 + d as int);
    LastByte(0, a);
    LastByte(a, b);
    LastByte(two, c);
    LastByte(three, d);
  }

  // ---------------------------------------------------------------------------
  // Bytes between colons
  // ---------------------------------------------------------------------------

  /** The value of a hexadecimal digit. */
  function HexDigit(c: byte): int {
    if 48 <= c <= 57 then c as int - 48 else if 97 <= c <= 102 then c as int - 87 else -1
  }

  /** Four hexadecimal digits. */
  predicate Group(s: seq<byte>) {
    |s| == 4 && forall i :: 0 <= i < 4 ==> HexDigit(s[i]) >= 0
  }

  /** The two bytes such a group stands for. */
  function GroupBytes(g: seq<byte>): seq<int>
    requires Group(g)
  {
    [16 * HexDigit(g[0]) + HexDigit(g[1]), 16 * HexDigit(g[2]) + HexDigit(g[3])]
  }

  /** The bytes of all groups; what is no group stands for none. */
  function AllBytes(groups: seq<seq<byte>>): seq<int> {
    if groups == [] then []
    else
      var g := groups[|groups| - 1];
      AllBytes(groups[..|groups| - 1]) + if Group(g) then GroupBytes(g) else []
  }

  lemma AllBytesSnoc(groups: seq<seq<byte>>, g: seq<byte>)
    requires Group(g)
    ensures AllBytes(groups + [g]) == AllBytes(groups) + GroupBytes(g)
  {
    assert (groups + [g])[..|groups|] == groups;
  }

  predicate Groups(s: seq<byte>) {
    forall g :: g in Split(s, 58) ==> Group(g)
  }

  lemma HexReads(b: byte)
    ensures |Hex2(b)| == 2 && 16 * HexDigit(Hex2(b)[0]) + HexDigit(Hex2(b)[1]) == b
    ensures HexDigit(Hex2(b)[0]) >= 0 && HexDigit(Hex2(b)[1]) >= 0 && 58 !in Hex2(b)
  {
  }

  lemma GroupReads(a: byte, b: byte)
    ensures var g := Hex2(a) + Hex2(b); Group(g) && GroupBytes(g) == [a, b] && Split(g, 58) == [g]
  {
    hide Hex2, HexDigit;
    var g := Hex2(a) + Hex2(b);
    HexReads(a);
    HexReads(b);
    SplitWhole(g, 58);
    assert g[0] == Hex2(a)[0] && g[1] == Hex2(a)[1] && g[2] == Hex2(b)[0] && g[3] == Hex2(b)[1];
  }

  lemma ColonsSnoc(b: seq<byte>)
    requires |b| % 2 == 0 && b != []
    ensures var n, g := |b|, Hex2(b[|b| - 2]) + Hex2(b[|b| - 1]);
            Colons(b) == if n == 2 then g else Colons(b[..n - 2]) + [58] + g
  {
    hide Hex2;
    var g := Hex2(b[|b| - 2]) + Hex2(b[|b| - 1]);
    assert [] + g == g;
  }

  lemma GroupBehind(front: seq<byte>, g: seq<byte>)
    requires Groups(front) && Group(g) && Split(g, 58) == [g]
    ensures Groups(front + [58] + g) && Split(front + [58] + g, 58) == Split(front, 58) + [g]
    ensures AllBytes(Split(front + [58] + g, 58)) == AllBytes(Split(front, 58)) + GroupBytes(g)
  {
    hide Group, GroupBytes, Split, AllBytes;
    SplitConcat(front, g, 58);
    AllBytesSnoc(Split(front, 58), g);
  }

  /** The text of a version 6 address gives its bytes back, two for each group of four digits. */
  lemma {:induction false} ColonsReads(b: seq<byte>)
    requires |b| % 2 == 0 && b != []
    ensures Groups(Colons(b)) && AllBytes(Split(Colons(b), 58)) == b && |Split(Colons(b), 58)| == |b| / 2
  {
    hide Hex2, Group, GroupBytes, Split, Colons, AllBytes;
    var n := |b|;
    var g := Hex2(b[n - 2]) + Hex2(b[n - 1]);
    GroupReads(b[n - 2], b[n - 1]);
    ColonsSnoc(b);
    if n == 2 {
      OneGroup(g);
      assert b == [b[0], b[1]];
    } else {
      ColonsReads(b[..n - 2]);
      GroupBehind(Colons(b[..n - 2]), g);
      assert b == b[..n - 2] + [b[n - 2], b[n - 1]];
    }
  }

  lemma OneGroup(g: seq<byte>)
    requires Group(g)
    ensures AllBytes([g]) == GroupBytes(g)
  {
    AllBytesSnoc([], g);
    assert [] + [g] == [g] && [] + GroupBytes(g) == GroupBytes(g);
  }

  // ---------------------------------------------------------------------------
  // Names
  // ---------------------------------------------------------------------------

  /** A C string is the longest start of b that holds no NUL and fits. */
  lemma {:induction false} CStringIs(b: seq<byte>, max: nat)
    ensures var s := CString(b, max);
            && s <= b && 0 !in s && |s| <= max
            && (|s| == max || |s| == |b| || b[|s|] == 0)
  {
    if b != [] && max != 0 && b[0] != 0 {
      CStringIs(b[1..], max - 1);
      assert b == [b[0]] + b[1..];
      var s := CString(b[1..], max - 1);
      assert b[..1 + |s|] == [b[0]] + b[1..][..|s|];
    }
  }

  // ---------------------------------------------------------------------------
  // What a request comes to
  // ---------------------------------------------------------------------------

  /** The bytes that refuse a request, after which the connection is closed for writing. */
  const REFUSED: seq<Event> := [Reply([0, 91, 0, 0, 0, 0, 0, 0]), WriteShutdown]

  /** A request to connect is handed to the delegate, which may refuse it; any other is refused. */
  function Outcome(cd: byte, typ: char, host: seq<byte>, port: nat, accept: bool): seq<Event> {
    if cd != 1 then REFUSED
    else if accept then [Connect(typ, host, port)]
    else [Connect(typ, host, port)] + REFUSED
  }

  lemma RequestComesTo(cd: byte, typ: char, host: seq<byte>, port: nat, accept: bool)
    ensures host != [] ==> Request(cd, typ, host, port, accept) == Outcome(cd, typ, host, port, accept)
    ensures host == [] ==> Request(cd, typ, host, port, accept) == REFUSED
  {
    assert [Connect(typ, host, port)] + [] == [Connect(typ, host, port)];
  }

  lemma {:induction false} ToBigEndianInverse(b: seq<byte>)
    ensures ToBigEndian(|b|, BigEndian(b)) == b
  {
    if b != [] {
      ToBigEndianInverse(b[..|b| - 1]);
      assert b == b[..|b| - 1] + [b[|b| - 1]];
    }
  }

  /** The first bytes of a version 4 request, in words. */
  lemma HeadIs(cd: byte, hi: byte, lo: byte, octets: seq<byte>)
    requires |octets| == 4
    ensures Head4Bytes(cd, 256 * hi as int + lo as int, BigEndian(octets)) == [4, cd, hi, lo] + octets
    ensures BigEndian(octets) < 0x1_0000_0000
    ensures Is4A(BigEndian(octets)) <==> octets[..3] == [0, 0, 0] && octets[3] != 0
  {
    hide BigEndian, ToBigEndian;
    TwoBytes(hi, lo);
    ToBigEndianInverse(octets);
    OctetsOf(octets);
    assert octets[..3] == [octets[0], octets[1], octets[2]];
  }

  lemma TwoBytes(hi: byte, lo: byte)
    ensures BigEndian([hi, lo]) == 256 * hi as int + lo as int
    ensures ToBigEndian(2, 256 * hi as int + lo as int) == [hi, lo]
  {
    assert BigEndian([]) == 0 && [hi, lo] == [] + [hi] + [lo];
    hide BigEndian, ToBigEndian;
    BigEndianSnoc([], hi);
    BigEndianSnoc([] + [hi], lo);
    ToBigEndianInverse([hi, lo]);
  }
}
