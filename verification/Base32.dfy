/** The unrolled Base32 encoder (src/base32.c), without padding (section 6 of RFC 4648). */
module Base32 {
  import opened Options

  // ---------------------------------------------------------------------------
  // Bits
  // ---------------------------------------------------------------------------

  /** Bit t of a byte, the most significant first. */
  predicate Bit(x: bv8, t: nat) {
    match t
    case 0 => x & 0x80 != 0
    case 1 => x & 0x40 != 0
    case 2 => x & 0x20 != 0
    case 3 => x & 0x10 != 0
    case 4 => x & 0x08 != 0
    case 5 => x & 0x04 != 0
    case 6 => x & 0x02 != 0
    case _ => x & 0x01 != 0
  }

  /** Bit i of the data, which zeros follow. */
  predicate DataBit(data: seq<bv8>, i: nat) {
    i / 8 < |data| && Bit(data[i / 8], i % 8)
  }

  function Weight(b: bool, w: bv8): bv8 { if b then w else 0 }

  /** Five bits as a number. */
  function Five(a: bool, b: bool, c: bool, d: bool, e: bool): bv8 {
    Weight(a, 16) | Weight(b, 8) | Weight(c, 4) | Weight(d, 2) | Weight(e, 1)
  }

  /** The k-th group of five bits. */
  function Group(data: seq<bv8>, k: nat): bv8 {
    Five(DataBit(data, 5 * k), DataBit(data, 5 * k + 1), DataBit(data, 5 * k + 2), DataBit(data, 5 * k + 3),
        DataBit(data, 5 * k + 4))
  }

  /** base32_cb32 */
  function Letter(v: bv8): char {
    match v
    case 0 => 'A' case 1 => 'B' case 2 => 'C' case 3 => 'D' case 4 => 'E' case 5 => 'F' case 6 => 'G' case 7 => 'H'
    case 8 => 'I' case 9 => 'J' case 10 => 'K' case 11 => 'L' case 12 => 'M' case 13 => 'N' case 14 => 'O'
        case 15 => 'P'
    case 16 => 'Q' case 17 => 'R' case 18 => 'S' case 19 => 'T' case 20 => 'U' case 21 => 'V' case 22 => 'W'
        case 23 => 'X'
    case 24 => 'Y' case 25 => 'Z' case 26 => '2' case 27 => '3' case 28 => '4' case 29 => '5' case 30 => '6'
        case _ => '7'
  }

  /** The alphabet of section 6 of RFC 4648: the letters, and then the digits from 2 to 7. */
  lemma AlphabetIs(v: bv8)
    ensures v < 26 ==> Letter(v) == 'A' + v as char
    ensures 26 <= v < 32 ==> Letter(v) == '2' + (v - 26) as char
  {
  }

  // ---------------------------------------------------------------------------
  // Decoding
  // ---------------------------------------------------------------------------

  /** The value of a letter of the alphabet. */
  function Value(c: char): Option<bv8> {
    match c
    case 'A' => Some(0) case 'B' => Some(1) case 'C' => Some(2) case 'D' => Some(3) case 'E' => Some(4)
        case 'F' => Some(5)
    case 'G' => Some(6) case 'H' => Some(7) case 'I' => Some(8) case 'J' => Some(9) case 'K' => Some(10)
        case 'L' => Some(11)
    case 'M' => Some(12) case 'N' => Some(13) case 'O' => Some(14) case 'P' => Some(15) case 'Q' => Some(16)
        case 'R' => Some(17)
    case 'S' => Some(18) case 'T' => Some(19) case 'U' => Some(20) case 'V' => Some(21) case 'W' => Some(22)
        case 'X' => Some(23)
    case 'Y' => Some(24) case 'Z' => Some(25) case '2' => Some(26) case '3' => Some(27) case '4' => Some(28)
        case '5' => Some(29)
    case '6' => Some(30) case '7' => Some(31)
    case _ => None
  }

  /** Bit i of a text, five bits a letter. */
  predicate TextBit(text: string, i: nat) {
    i / 5 < |text| && Value(text[i / 5]).Some? && Bit(Value(text[i / 5]).value, 3 + i % 5)
  }

  function Eight(a: bool, b: bool, c: bool, d: bool, e: bool, f: bool, g: bool, h: bool): bv8 {
    Weight(a, 128) | Weight(b, 64) | Weight(c, 32) | Five(d, e, f, g, h)
  }

  /** The j-th byte a text stands for. */
  function TextByte(text: string, j: nat): bv8 {
    Eight(TextBit(text, 8 * j), TextBit(text, 8 * j + 1), TextBit(text, 8 * j + 2), TextBit(text, 8 * j + 3),
          TextBit(text, 8 * j + 4), TextBit(text, 8 * j + 5), TextBit(text, 8 * j + 6), TextBit(text, 8 * j + 7))
  }

  /** The whole bytes of a text. */
  function Decode(text: string): seq<bv8> {
    seq(5 * |text| / 8, j requires j >= 0 => TextByte(text, j))
  }

  // ---------------------------------------------------------------------------
  // Decoding undoes encoding
  // ---------------------------------------------------------------------------

  /** The text shows the data's groups, one a letter. */
  ghost predicate Shows(text: string, data: seq<bv8>) {
    forall k :: 0 <= k < |text| ==> text[k] == Letter(Group(data, k))
  }

  lemma LetterValue(v: bv8)
    requires v < 32
    ensures Value(Letter(v)) == Some(v)
  {
  }

  lemma FiveBits(a: bool, b: bool, c: bool, d: bool, e: bool)
    ensures var v := Five(a, b, c, d, e);
            v < 32 && Bit(v, 3) == a && Bit(v, 4) == b && Bit(v, 5) == c && Bit(v, 6) == d && Bit(v, 7) == e
  {
  }

  lemma GroupBits(data: seq<bv8>, i: nat)
    ensures Group(data, i / 5) < 32
    ensures Bit(Group(data, i / 5), 3 + i % 5) == DataBit(data, i)
  {
    hide Bit, Five, DataBit;
    var k := i / 5;
    FiveBits(DataBit(data, 5 * k), DataBit(data, 5 * k + 1), DataBit(data, 5 * k + 2), DataBit(data, 5 * k + 3),
        DataBit(data, 5 * k + 4));
    assert i % 5 == 0 || i % 5 == 1 || i % 5 == 2 || i % 5 == 3 || i % 5 == 4;
  }

  lemma TextBits(text: string, data: seq<bv8>, i: nat)
    requires Shows(text, data) && i / 5 < |text|
    ensures TextBit(text, i) == DataBit(data, i)
  {
    hide Bit, Group, DataBit, Value, Letter;
    GroupBits(data, i);
    LetterValue(Group(data, i / 5));
  }

  lemma EightBits(x: bv8)
    ensures Eight(Bit(x, 0), Bit(x, 1), Bit(x, 2), Bit(x, 3), Bit(x, 4), Bit(x, 5), Bit(x, 6), Bit(x, 7)) == x
  {
  }

  lemma DataBits(data: seq<bv8>, j: nat, t: nat)
    requires j < |data| && t < 8
    ensures DataBit(data, 8 * j + t) == Bit(data[j], t)
  {
    assert (8 * j + t) / 8 == j && (8 * j + t) % 8 == t;
  }

  lemma ByteRestored(text: string, data: seq<bv8>, j: nat)
    requires Shows(text, data) && 8 * j + 8 <= 5 * |text| && j < |data|
    ensures TextByte(text, j) == data[j]
  {
    hide Bit, DataBit, TextBit, Eight, Shows;
    TextBits(text, data, 8 * j); DataBits(data, j, 0);
    TextBits(text, data, 8 * j + 1); DataBits(data, j, 1);
    TextBits(text, data, 8 * j + 2); DataBits(data, j, 2);
    TextBits(text, data, 8 * j + 3); DataBits(data, j, 3);
    TextBits(text, data, 8 * j + 4); DataBits(data, j, 4);
    TextBits(text, data, 8 * j + 5); DataBits(data, j, 5);
    TextBits(text, data, 8 * j + 6); DataBits(data, j, 6);
    TextBits(text, data, 8 * j + 7); DataBits(data, j, 7);
    EightBits(data[j]);
  }

  /** Decoding what the encoder wrote gives the bytes it consumed. */
  lemma DecodeEncoded(text: string, data: seq<bv8>, n: nat)
    requires Shows(text, data) && n <= |data| && |text| == (8 * n + 4) / 5
    ensures Decode(text) == data[..n]
  {
    hide Shows, TextByte;
    assert 5 * |text| / 8 == n;
    forall j | 0 <= j < n ensures Decode(text)[j] == data[j] {
      ByteRestored(text, data, j);
    }
  }

  /** "foobar" of section 10 of RFC 4648, without its padding. */
  lemma Foobar(text: string)
    requires Shows(text, [0x66, 0x6f, 0x6f, 0x62, 0x61, 0x72]) && |text| == 10
    ensures text == "MZXW6YTBOI"
  {
    hide Group;
    var data: seq<bv8> := [0x66, 0x6f, 0x6f, 0x62, 0x61, 0x72];
    FirstGroups(data);
    LastGroups(data);
    assert forall k :: 0 <= k < 10 ==> text[k] == Letter(Group(data, k));
    assert text == [text[0], text[1], text[2], text[3], text[4], text[5], text[6], text[7], text[8], text[9]];
  }

  lemma FirstGroups(data: seq<bv8>)
    requires data == [0x66, 0x6f, 0x6f, 0x62, 0x61, 0x72]
    ensures Group(data, 0) == 12 && Group(data, 1) == 25 && Group(data, 2) == 23 && Group(data, 3) == 22
    ensures Group(data, 4) == 30
  {
  }

  lemma LastGroups(data: seq<bv8>)
    requires data == [0x66, 0x6f, 0x6f, 0x62, 0x61, 0x72]
    ensures Group(data, 5) == 24 && Group(data, 6) == 19 && Group(data, 7) == 1 && Group(data, 8) == 14
    ensures Group(data, 9) == 8
  {
  }

  // ---------------------------------------------------------------------------
  // The encoder
  // ---------------------------------------------------------------------------

  function ByteAt(data: seq<bv8>, i: nat): bv8 { if i < |data| then data[i] else 0 }

  /** A bit of byte i or of the byte behind it. */
  lemma BitAt(data: seq<bv8>, i: nat, t: nat)
    requires t < 16
    ensures DataBit(data, 8 * i + t) == if t < 8 then Bit(ByteAt(data, i), t) else Bit(ByteAt(data, i + 1), t - 8)
  {
    if t < 8 {
      assert (8 * i + t) / 8 == i && (8 * i + t) % 8 == t;
    } else {
      assert (8 * i + t) / 8 == i + 1 && (8 * i + t) % 8 == t - 8;
    }
  }

  /** Five bits that begin with bit t of a byte x, which y follows. */
  function Window(x: bv8, y: bv8, t: nat): bv8
    requires t < 8
  {
    match t
    case 0 => Five(Bit(x, 0), Bit(x, 1), Bit(x, 2), Bit(x, 3), Bit(x, 4))
    case 1 => Five(Bit(x, 1), Bit(x, 2), Bit(x, 3), Bit(x, 4), Bit(x, 5))
    case 2 => Five(Bit(x, 2), Bit(x, 3), Bit(x, 4), Bit(x, 5), Bit(x, 6))
    case 3 => Five(Bit(x, 3), Bit(x, 4), Bit(x, 5), Bit(x, 6), Bit(x, 7))
    case 4 => Five(Bit(x, 4), Bit(x, 5), Bit(x, 6), Bit(x, 7), Bit(y, 0))
    case 5 => Five(Bit(x, 5), Bit(x, 6), Bit(x, 7), Bit(y, 0), Bit(y, 1))
    case 6 => Five(Bit(x, 6), Bit(x, 7), Bit(y, 0), Bit(y, 1), Bit(y, 2))
    case 7 => Five(Bit(x, 7), Bit(y, 0), Bit(y, 1), Bit(y, 2), Bit(y, 3))
  }

  /** The masks and shifts of the eight stages cut out such windows. */
  lemma MasksInside(x: bv8, y: bv8)
    ensures Window(x, y, 0) == (x & 0xf8) >> 3
    ensures Window(x, y, 2) == (x & 0x3e) >> 1
    ensures Window(x, y, 1) == (x & 0x7c) >> 2
    ensures Window(x, y, 3) == x & 0x1f
  {
  }

  lemma MasksAcross5(x: bv8, y: bv8)
    ensures Window(x, y, 5) == ((x & 0x07) << 2) | ((y & 0xc0) >> 6)
  {
  }

  lemma MasksAcross7(x: bv8, y: bv8)
    ensures Window(x, y, 7) == ((x & 0x01) << 4) | ((y & 0xf0) >> 4)
  {
  }

  lemma MasksAcross4(x: bv8, y: bv8)
    ensures Window(x, y, 4) == ((x & 0x0f) << 1) | ((y & 0x80) >> 7)
  {
  }

  lemma MasksAcross6(x: bv8, y: bv8)
    ensures Window(x, y, 6) == ((x & 0x03) << 3) | ((y & 0xe0) >> 5)
  {
  }

  /** Group k begins with bit t of byte i. */
  lemma GroupIs(data: seq<bv8>, k: nat, i: nat, t: nat)
    requires 5 * k == 8 * i + t && t < 8
    ensures Group(data, k) == Window(ByteAt(data, i), ByteAt(data, i + 1), t)
  {
    hide Bit, Five, DataBit, ByteAt;
    BitAt(data, i, t);
    BitAt(data, i, t + 1);
    BitAt(data, i, t + 2);
    BitAt(data, i, t + 3);
    BitAt(data, i, t + 4);
    assert t == 0 || t == 1 || t == 2 || t == 3 || t == 4 || t == 5 || t == 6 || t == 7;
  }

  /** The first letters are written, everything behind them is as before. */
  ghost predicate Written(buf: string, before: string, data: seq<bv8>, iout: nat)
    requires iout <= |buf| == |before|
  {
    Shows(buf[..iout], data) && buf[iout..] == before[iout..]
  }

  method Put(buf: array<char>, iout: nat, v: bv8, ghost before: string, ghost data: seq<bv8>)
    requires iout < buf.Length == |before| && Written(buf[..], before, data, iout) && v == Group(data, iout)
    modifies buf
    ensures Written(buf[..], before, data, iout + 1)
  {
    hide Group, Letter;
    ghost var was := buf[..];
    buf[iout] := Letter(v);
    assert buf[..][..iout] == was[..iout];
    assert buf[..][iout + 1..] == was[iout..][1..];
  }

  /** A letter that is taken back lies in the way of nothing. */
  lemma Leave(buf: string, before: string, data: seq<bv8>, written: nat, iout: nat)
    requires written < |buf| == |before| && Written(buf, before, data, written) && iout <= written <= iout + 1
    ensures Shows(buf[..iout], data) && buf[iout + 1..] == before[iout + 1..]
  {
    hide Group, Letter;
    assert buf[..iout] == buf[..written][..iout];
    assert buf[iout + 1..] == buf[written..][iout + 1 - written..];
    assert before[iout + 1..] == before[written..][iout + 1 - written..];
  }

  /** As many bytes as fit and as many letters as they need. */
  predicate Complete(iout: nat, iin: nat, buflen: nat, size: nat) {
    iin == (if size < 5 * buflen / 8 then size else 5 * buflen / 8) && iout == (8 * iin + 4) / 5
  }

  /** The exits of the eight stages; q rounds are complete. */
  lemma Ends(iout: nat, iin: nat, buflen: nat, size: nat, q: nat)
    requires iin <= size && iout <= buflen
    requires iout == buflen || iin == size
        || (iout + 1 == buflen && (iout == 8 * q || iout == 8 * q + 2 || iout == 8 * q + 5))
    requires (iout == 8 * q && iin == 5 * q) || (iout == 8 * q + 2 && iin == 5 * q + 1)
        || (iout == 8 * q + 4 && iin == 5 * q + 2)
             || (iout == 8 * q + 5 && iin == 5 * q + 3) || (iout == 8 * q + 7 && iin == 5 * q + 4)
    ensures Complete(iout, iin, buflen, size)
  {
  }

  /**
  The body of the loop: eight stages, which write eight letters for five bytes unless the buffer
  or the data ends.
  */
  method Round(buf: array<char>, iout0: nat, iin0: nat, buflen: nat, data: seq<bv8>, ghost before: string, ghost q: nat)
    returns (iout: nat, iin: nat, more: bool)
    requires iout0 == 8 * q <= buflen < buf.Length == |before| && iin0 == 5 * q <= |data|
    requires Written(buf[..], before, data, iout0)
    modifies buf
    ensures iout <= buflen && iin <= |data|
    ensures more ==> iout == 8 * (q + 1) && iin == 5 * (q + 1) && Written(buf[..], before, data, iout)
    ensures !more ==> Complete(iout, iin, buflen, |data|)
    ensures !more ==> Shows(buf[..iout], data) && buf[iout + 1..] == before[iout + 1..]
  {
    hide Group, Letter, Window, Shows, Written;
    iout, iin, more := iout0, iin0, false;
    if iout >= buflen || iin >= |data| {
      Leave(buf[..], before, data, iout, iout);
      Ends(iout, iin, buflen, |data|, q);
      return;
    }
    GroupIs(data, iout, iin, 0);
    MasksInside(data[iin], ByteAt(data, iin + 1));
    Put(buf, iout, (data[iin] & 0xf8) >> 3, before, data);
    iout := iout + 1;

    if iout >= buflen || iin >= |data| {
      Leave(buf[..], before, data, iout, iout - 1);
      iout := iout - 1;
      Ends(iout, iin, buflen, |data|, q);
      return;
    }
    GroupIs(data, iout, iin, 5);
    MasksAcross5(data[iin], ByteAt(data, iin + 1));
    Put(buf, iout, ((data[iin] & 0x07) << 2) | (if iin + 1 < |data| then (data[iin + 1] & 0xc0) >> 6 else 0), before,
        data);
    iin := iin + 1;
    iout := iout + 1;

    if iout >= buflen || iin >= |data| {
      Leave(buf[..], before, data, iout, iout);
      Ends(iout, iin, buflen, |data|, q);
      return;
    }
    GroupIs(data, iout, iin, 2);
    MasksInside(data[iin], ByteAt(data, iin + 1));
    Put(buf, iout, (data[iin] & 0x3e) >> 1, before, data);
    iout := iout + 1;

    if iout >= buflen || iin >= |data| {
      Leave(buf[..], before, data, iout, iout - 1);
      iout := iout - 1;
      Ends(iout, iin, buflen, |data|, q);
      return;
    }
    GroupIs(data, iout, iin, 7);
    MasksAcross7(data[iin], ByteAt(data, iin + 1));
    Put(buf, iout, ((data[iin] & 0x01) << 4) | (if iin + 1 < |data| then (data[iin + 1] & 0xf0) >> 4 else 0), before,
        data);
    iin := iin + 1;
    iout := iout + 1;

    if iout >= buflen || iin >= |data| {
      Leave(buf[..], before, data, iout, iout);
      Ends(iout, iin, buflen, |data|, q);
      return;
    }
    GroupIs(data, iout, iin, 4);
    MasksAcross4(data[iin], ByteAt(data, iin + 1));
    Put(buf, iout, ((data[iin] & 0x0f) << 1) | (if iin + 1 < |data| then (data[iin + 1] & 0x80) >> 7 else 0), before,
        data);
    iin := iin + 1;
    iout := iout + 1;

    if iout >= buflen || iin >= |data| {
      Leave(buf[..], before, data, iout, iout);
      Ends(iout, iin, buflen, |data|, q);
      return;
    }
    GroupIs(data, iout, iin, 1);
    MasksInside(data[iin], ByteAt(data, iin + 1));
    Put(buf, iout, (data[iin] & 0x7c) >> 2, before, data);
    iout := iout + 1;

    if iout >= buflen || iin >= |data| {
      Leave(buf[..], before, data, iout, iout - 1);
      iout := iout - 1;
      Ends(iout, iin, buflen, |data|, q);
      return;
    }
    GroupIs(data, iout, iin, 6);
    MasksAcross6(data[iin], ByteAt(data, iin + 1));
    Put(buf, iout, ((data[iin] & 0x03) << 3) | (if iin + 1 < |data| then (data[iin + 1] & 0xe0) >> 5 else 0), before,
        data);
    iin := iin + 1;
    iout := iout + 1;

    if iout >= buflen || iin >= |data| {
      Leave(buf[..], before, data, iout, iout);
      Ends(iout, iin, buflen, |data|, q);
      return;
    }
    GroupIs(data, iout, iin, 3);
    MasksInside(data[iin], ByteAt(data, iin + 1));
    Put(buf, iout, data[iin] & 0x1f, before, data);
    iin := iin + 1;
    iout := iout + 1;
    more := true;
  }

  /**
  ft_base32_encode.  It consumes min(size, 5 * buflen / 8) bytes whatever the buffer
  size, and writes the letters they need and a terminating NUL.
  */
  method Encode(buf: array<char>, buflen: nat, data: seq<bv8>) returns (iout: nat, iin: nat)
    requires buflen < buf.Length
    modifies buf
    ensures iin == if |data| < 5 * buflen / 8 then |data| else 5 * buflen / 8
    ensures iout == (8 * iin + 4) / 5 <= buflen
    ensures buf[iout] == '\0' && buf[iout + 1..] == old(buf[iout + 1..])
    ensures Shows(buf[..iout], data) && Decode(buf[..iout]) == data[..iin]
  {
    hide Group, Letter, Window, Shows, Decode, ByteAt;
    ghost var before := buf[..];
    ghost var q := 0;
    iout, iin := 0, 0;
    var more := true;
    NothingWritten(before, data);
    while more
      invariant iout <= buflen && iin <= |data|
      invariant more ==> iout == 8 * q && iin == 5 * q && Written(buf[..], before, data, iout)
      invariant !more ==> Complete(iout, iin, buflen, |data|)
      invariant !more ==> Shows(buf[..iout], data) && buf[iout + 1..] == before[iout + 1..]
      decreases more, buflen - iout
    {
      iout, iin, more := Round(buf, iout, iin, buflen, data, before, q);
      q := q + 1;
    }
    ghost var text := buf[..iout];
    buf[iout] := '\0';
    assert buf[..iout] == text;
    DecodeEncoded(text, data, iin);
  }

  lemma NothingWritten(before: string, data: seq<bv8>)
    ensures Written(before, before, data, 0)
  {
  }
}
