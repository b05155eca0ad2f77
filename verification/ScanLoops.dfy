/**
The loops of the scan pass of protobuf_c_message_unpack, each against the
function of module Unpacking it computes.
*/
module ScanLoops {
  import opened Options
  import opened Bytes
  import opened Varints
  import opened RangeLookup
  import opened Messages
  import opened Unpacking
  import Slabs

  // ---------------------------------------------------------------------------
  // Delimiting
  // ---------------------------------------------------------------------------

  /** parse_tag_and_wiretype: the tag is assembled without its three wire-type bits. */
  method ParseTagAndWiretype(b: seq<byte>) returns (used: nat, tag: nat, wire: nat)
    requires b != []
    ensures used == VarintLength(b, 5)
    ensures used > 0 ==> tag == Groups(b[..used]) / 8 && wire == Groups(b[..used]) % 8
  {
    var max := if |b| > 5 then 5 else |b|;
    tag, wire := Seven(b[0]) / 8, b[0] as int % 8;
    assert b[..1] == [b[0]] && Groups([b[0]]) == Seven(b[0]);
    if b[0] < 128 {
      return 1, tag, wire;
    }
    var scale := 16;
    used := 1;
    while used < max
      invariant 1 <= used <= max && 8 * scale == Pow128(used)
      invariant 8 * tag + wire == Groups(b[..used]) && wire < 8
      invariant forall i :: 0 <= i < used ==> b[i] >= 128
    {
      TagStep(b, used, tag, wire, scale);
      if b[used] >= 128 {
        tag := tag + Seven(b[used]) * scale;
        scale := scale * 128;
      } else {
        tag := tag + Seven(b[used]) * scale;
        return used + 1, tag, wire;
      }
      used := used + 1;
    }
    return 0, tag, wire;
  }

  lemma TagStep(b: seq<byte>, used: nat, tag: nat, wire: nat, scale: nat)
    requires used < |b| && 8 * scale == Pow128(used) && 8 * tag + wire == Groups(b[..used])
    ensures 8 * (tag + Seven(b[used]) * scale) + wire == Groups(b[..used + 1])
    ensures 8 * (scale * 128) == Pow128(used + 1)
  {
    NextGroup(b, used);
    assert 8 * (Seven(b[used]) * scale) == Seven(b[used]) * (8 * scale);
  }

  /** scan_varint */
  method ScanVarint(b: seq<byte>) returns (n: nat)
    ensures n == VarintLength(b, 10)
  {
    var len := if |b| > 10 then 10 else |b|;
    var i := 0;
    while i < len
      invariant 0 <= i <= len && forall j :: 0 <= j < i ==> b[j] >= 128
    {
      if b[i] < 128 { break; }
      i := i + 1;
    }
    if i == len {
      return 0;
    }
    return i + 1;
  }

  /** The sum of a length prefix and the length it declares stays below 2^32. */
  predicate LengthFits(b: seq<byte>) {
    var prefix := VarintLength(b, 5);
    prefix > 0 ==> prefix + Groups(b[..prefix]) % TWO32 < TWO32
  }

  /** What scan_length_prefixed_data makes of a prefix: the sum with the length it declares is 32 bits wide. */
  function WrappedScan(b: seq<byte>): nat {
    var prefix := VarintLength(b, 5);
    if prefix == 0 then 0
    else
      var n := (prefix + Groups(b[..prefix]) % TWO32) % TWO32;
      if n > |b| then 0 else n
  }

  /** The sum wraps to something else than an error exactly for these lengths; then it ends inside the prefix. */
  lemma WrapMatters(b: seq<byte>)
    requires |b| < TWO32
    ensures var prefix := VarintLength(b, 5);
            WrappedScan(b) != ScanPrefixed(b) <==> prefix > 0 && prefix + Groups(b[..prefix]) % TWO32 > TWO32
    ensures WrappedScan(b) != ScanPrefixed(b) ==> 0 < WrappedScan(b) < VarintLength(b, 5) && ScanPrefixed(b) == 0
  {
    hide VarintLength, Groups;
  }

  lemma FittingScan(b: seq<byte>)
    requires LengthFits(b)
    ensures WrappedScan(b) == ScanPrefixed(b)
  {
    hide VarintLength, Groups;
  }

  /** Five bytes that declare 2^32 - 1 more, and are taken for a member of four bytes in all. */
  lemma WrappedInput()
    ensures var b: seq<byte> := [255, 255, 255, 255, 15];
            VarintLength(b, 5) == 5 && WrappedScan(b) == 4 && ScanPrefixed(b) == 0
  {
    hide VarintLength, Groups, Varint;
    var b: seq<byte> := [255, 255, 255, 255, 15];
    LargestVarint();
    VarintInverse(0xffff_ffff);
    PrefixEnds(b, 4);
    assert b[..5] == b;
  }

  lemma LargestVarint()
    ensures Varint(0xffff_ffff) == [255, 255, 255, 255, 15]
  {
    assert Varint(0xf) == [15];
    assert Varint(0x7ff) == [255] + Varint(0xf);
    assert Varint(0x3_ffff) == [255] + Varint(0x7ff);
    assert Varint(0x1ff_ffff) == [255] + Varint(0x3_ffff);
  }

  lemma NoGroups(b: seq<byte>)
    ensures Groups(b[..0]) == 0
  {
  }

  lemma PrefixEnds(b: seq<byte>, i: nat)
    requires i < |b| && i < 5 && b[i] < 128 && forall j :: 0 <= j < i ==> b[j] >= 128
    ensures VarintLength(b, 5) == i + 1
  {
    hide VarintLength;
  }

  /** scan_length_prefixed_data */
  method ScanLengthPrefixedData(b: seq<byte>) returns (n: nat, prefix: nat)
    ensures n == WrappedScan(b) && (LengthFits(b) ==> n == ScanPrefixed(b))
    ensures n > 0 ==> prefix == VarintLength(b, 5)
  {
    hide VarintLength, Groups, LengthFits, ScanPrefixed;
    if LengthFits(b) { FittingScan(b); }
    NoGroups(b);
    var max := if |b| < 5 then |b| else 5;
    var val, scale := 0, 1;
    var i := 0;
    while i < max
      invariant 0 <= i <= max && scale == Pow128(i) && val == Groups(b[..i])
      invariant forall j :: 0 <= j < i ==> b[j] >= 128
    {
      NextGroup(b, i);
      val := val + Seven(b[i]) * scale;
      scale := scale * 128;
      if b[i] < 128 { break; }
      i := i + 1;
    }
    if i == max {
      return 0, 0;
    }
    PrefixEnds(b, i);
    prefix := i + 1;
    n := (prefix + val % TWO32) % TWO32;
    if n > |b| {
      return 0, prefix;
    }
  }

  /** max_b128_numbers */
  method MaxB128Numbers(b: seq<byte>) returns (rv: nat)
    ensures rv == Terminators(b)
  {
    rv := 0;
    for i := 0 to |b|
      invariant rv + Terminators(b[i..]) == Terminators(b)
    {
      assert b[i..][0] == b[i] && b[i..][1..] == b[i + 1..];
      if b[i] < 128 {
        rv := rv + 1;
      }
    }
    assert b[|b|..] == [];
  }

  /** count_packed_elements */
  method CountPackedElements(t: Type, b: seq<byte>) returns (count: Option<nat>)
    ensures count == CountPacked(t, b)
  {
    match t {
      case SFIXED32 => return if |b| % 4 != 0 then None else Some(|b| / 4);
      case FIXED32 => return if |b| % 4 != 0 then None else Some(|b| / 4);
      case FLOAT => return if |b| % 4 != 0 then None else Some(|b| / 4);
      case SFIXED64 => return if |b| % 8 != 0 then None else Some(|b| / 8);
      case FIXED64 => return if |b| % 8 != 0 then None else Some(|b| / 8);
      case DOUBLE => return if |b| % 8 != 0 then None else Some(|b| / 8);
      case BOOL => return Some(|b|);
      case STRING => return None;
      case BYTES => return None;
      case MESSAGE(_) => return None;
      case _ =>
        var n := MaxB128Numbers(b);
        return Some(n);
    }
  }

  // ---------------------------------------------------------------------------
  // One member
  // ---------------------------------------------------------------------------

  /** The declared length of the member at the start of b, if it has one, fits. */
  predicate HeadFits(b: seq<byte>) {
    var used := VarintLength(b, 5);
    used > 0 && Groups(b[..used]) % 8 == PREFIXED ==> LengthFits(b[used..])
  }

  /** No declared length that the scan of b meets wraps. */
  ghost predicate ScanFits(fields: seq<Field>, b: seq<byte>) {
    b == [] ||
    (&& HeadFits(b)
     && (FirstMember(fields, b).Some? ==> ScanFits(fields, b[FirstMember(fields, b).value.1..])))
  }

  /** A scan that succeeds met no length that wraps. */
  lemma {:induction false} ScannedFits(fields: seq<Field>, b: seq<byte>)
    requires |b| < TWO32 && Scan(fields, b).Some?
    ensures ScanFits(fields, b)
  {
    if b != [] {
      ScannedFits(fields, b[FirstMember(fields, b).value.1..]);
    }
  }

  /** The member length and prefix by wire type, as the switch in the scan computes them. */
  method DelimitData(wire: nat, b: seq<byte>) returns (n: nat, prefix: nat)
    requires wire == PREFIXED ==> LengthFits(b)
    ensures n == MemberLength(wire, b)
    ensures n > 0 ==> prefix == PrefixLength(wire, b)
  {
    prefix := 0;
    if wire == VARINT {
      var max := if |b| < 10 then |b| else 10;
      var i := 0;
      while i < max
        invariant 0 <= i <= max && forall j :: 0 <= j < i ==> b[j] >= 128
      {
        if b[i] < 128 { break; }
        i := i + 1;
      }
      if i == max {
        return 0, 0;
      }
      n := i + 1;
    } else if wire == BITS64 {
      n := if |b| < 8 then 0 else 8;
    } else if wire == PREFIXED {
      n, prefix := ScanLengthPrefixedData(b);
    } else if wire == BITS32 {
      n := if |b| < 4 then 0 else 4;
    } else {
      n := 0;
    }
  }

  /** Field numbers are below 2^29, so the lookup may treat the tag as signed. */
  lemma SignedLookup(ids: seq<int>, tag: nat)
    requires tag < TWO32 && forall i :: 0 <= i < |ids| ==> 0 < ids[i] < 0x2000_0000
    ensures IndexOf(ids, Signed(tag, TWO32)) == IndexOf(ids, tag)
  {
    if tag >= 0x8000_0000 {
      assert tag !in ids && Signed(tag, TWO32) !in ids;
    }
  }

  /** The field a tag belongs to; the last field found is tried first. */
  method LookUp(schema: Schema, d: nat, tag: nat, last: int) returns (index: int, newLast: int)
    requires ValidSchema(schema) && d < |schema| && tag < TWO32
    requires -1 <= last < |schema[d].fields|
    ensures index == IndexOf(Ids(schema[d].fields), tag)
    ensures -1 <= newLast < |schema[d].fields| && (index >= 0 ==> newLast == index)
  {
    var fields := schema[d].fields;
    assert ValidDescriptor(schema, schema[d]);
    if last == -1 || fields[last].id != tag {
      SignedLookup(Ids(fields), tag);
      index := IntRangeLookup(schema[d].nRanges, schema[d].ranges, Signed(tag, TWO32), Ids(fields));
      newLast := if index < 0 then last else index;
    } else {
      IndexOfIs(Ids(fields), tag, last);
      index, newLast := last, last;
    }
  }

  // ---------------------------------------------------------------------------
  // The counts the scan keeps
  // ---------------------------------------------------------------------------

  /** What one member adds to the count of a repeated field. */
  function CountOf(fields: seq<Field>, mem: Member, i: nat): nat
    requires GoodMember(fields, mem)
  {
    if mem.field == i then Count(fields, mem).value else 0
  }

  /** The elements the scan counts for field i in ms. */
  function TotalCount(fields: seq<Field>, ms: seq<Member>, i: nat): nat
    requires forall k :: 0 <= k < |ms| ==> GoodMember(fields, ms[k])
  {
    if ms == [] then 0
    else TotalCount(fields, ms[..|ms| - 1], i) + CountOf(fields, ms[|ms| - 1], i)
  }

  function UnknownCount(ms: seq<Member>): (n: nat)
    ensures n <= |ms|
  {
    if ms == [] then 0
    else UnknownCount(ms[..|ms| - 1]) + if ms[|ms| - 1].field < 0 then 1 else 0
  }

  lemma CountsSnoc(fields: seq<Field>, ms: seq<Member>, mem: Member, i: nat)
    requires GoodMember(fields, mem) && forall k :: 0 <= k < |ms| ==> GoodMember(fields, ms[k])
    ensures TotalCount(fields, ms + [mem], i) == TotalCount(fields, ms, i) + CountOf(fields, mem, i)
    ensures UnknownCount(ms + [mem]) == UnknownCount(ms) + if mem.field < 0 then 1 else 0
    ensures Mentions(ms + [mem], i) <==> Mentions(ms, i) || mem.field == i
  {
    var all := ms + [mem];
    assert all[..|all| - 1] == ms && all[|ms|] == mem;
    if Mentions(ms, i) {
      var k :| 0 <= k < |ms| && ms[k].field == i;
      assert all[k].field == i;
    }
  }

  lemma {:induction false} CountsGrow(fields: seq<Field>, ms: seq<Member>, k: nat, i: nat)
    requires k <= |ms| && forall j :: 0 <= j < |ms| ==> GoodMember(fields, ms[j])
    ensures TotalCount(fields, ms[..k], i) <= TotalCount(fields, ms, i)
    ensures UnknownCount(ms[..k]) <= UnknownCount(ms)
  {
    if k < |ms| {
      CountsGrow(fields, ms[..|ms| - 1], k, i);
      assert ms[..|ms| - 1][..k] == ms[..k];
    } else {
      assert ms[..k] == ms;
    }
  }

  // ---------------------------------------------------------------------------
  // The scan
  // ---------------------------------------------------------------------------

  const NO_MEMBER: Member := Member(0, 0, 0, [], -1)

  /** Everything the scan knows after the members ms. */
  ghost predicate Counted(fields: seq<Field>, ms: seq<Member>, counts: seq<nat>, seen: seq<bool>, nUnknown: nat) {
    && |counts| == |seen| == |fields|
    && (forall k :: 0 <= k < |ms| ==> GoodMember(fields, ms[k]))
    && (forall i :: 0 <= i < |fields| ==> counts[i] == TotalCount(fields, ms, i))
    && (forall i :: 0 <= i < |fields| ==> (seen[i] <==> fields[i].rule.REQUIRED? && Mentions(ms, i)))
    && nUnknown == UnknownCount(ms)
  }

  /** Counting one more member. */
  method CountMember(fields: seq<Field>, ghost ms: seq<Member>, mem: Member, counts: seq<nat>, seen: seq<bool>,
      nUnknown: nat)
      returns (ok: bool, newCounts: seq<nat>, newSeen: seq<bool>, more: nat)
    requires Counted(fields, ms, counts, seen, nUnknown)
    requires -1 <= mem.field < |fields| && mem.prefix <= |mem.data|
    requires Count(fields, mem).Some? ==> GoodMember(fields, mem)
    ensures ok <==> Count(fields, mem).Some?
    ensures ok ==> Counted(fields, ms + [mem], newCounts, newSeen, more)
  {
    newCounts, newSeen, more := counts, seen, nUnknown;
    if mem.field < 0 {
      more := more + 1;
    } else {
      var f := fields[mem.field];
      if f.rule.REQUIRED? {
        newSeen := newSeen[mem.field := true];
      }
      if f.rule.REPEATED? {
        if ComesPacked(f, mem.wire) {
          var count := CountPackedElements(f.typ, mem.data[mem.prefix..]);
          if count.None? {
            return false, newCounts, newSeen, more;
          }
          newCounts := newCounts[mem.field := newCounts[mem.field] + count.value];
        } else {
          newCounts := newCounts[mem.field := newCounts[mem.field] + 1];
        }
      }
    }
    forall i | 0 <= i < |fields|
      ensures newCounts[i] == TotalCount(fields, ms + [mem], i)
      ensures newSeen[i] <==> fields[i].rule.REQUIRED? && Mentions(ms + [mem], i)
    {
      CountsSnoc(fields, ms, mem, i);
    }
    CountsSnoc(fields, ms, mem, 0);
    ok := true;
  }

  lemma {:induction false} GroupsBound(b: seq<byte>)
    ensures Groups(b) < Pow128(|b|)
  {
    if b != [] { GroupsBound(b[1..]); }
  }

  lemma TagBound(b: seq<byte>)
    requires |b| <= 5
    ensures Groups(b) / 8 < TWO32
  {
    GroupsBound(b);
    Pow128Values();
    Pow128Increases(|b|, 5);
  }

  lemma {:induction false} Pow128Increases(m: nat, n: nat)
    requires m <= n
    ensures Pow128(m) <= Pow128(n)
  {
    if m < n { Pow128Increases(m, n - 1); }
  }

  /** The member at the start of b, before its elements are counted. */
  method DelimitMember(schema: Schema, d: nat, b: seq<byte>, last: int) returns (used: nat, mem: Member, newLast: int)
    requires ValidSchema(schema) && d < |schema| && -1 <= last < |schema[d].fields|
    requires b != [] && HeadFits(b)
    ensures -1 <= newLast < |schema[d].fields|
    ensures used == 0 ==> FirstMember(schema[d].fields, b).None?
    ensures used > 0 ==>
              && -1 <= mem.field < |schema[d].fields| && mem.prefix <= |mem.data| && 0 < |mem.data|
              && used + |mem.data| <= |b|
              && FirstMember(schema[d].fields, b)
                 == if Count(schema[d].fields, mem).None? then None else Some((mem, used + |mem.data|))
  {
    hide ValidSchema, VarintLength, Groups, LengthFits, MemberLength, PrefixLength, Count;
    var tag, wire;
    newLast := last;
    mem := NO_MEMBER;
    used, tag, wire := ParseTagAndWiretype(b);
    if used == 0 {
      return;
    }
    TagBound(b[..used]);
    var index;
    index, newLast := LookUp(schema, d, tag, last);
    var n, prefix := DelimitData(wire, b[used..]);
    if n == 0 {
      return 0, mem, newLast;
    }
    PrefixInside(wire, b[used..]);
    mem := Member(tag, wire, prefix, b[used..][..n], index);
  }

  /** whole is the scan of the message: it found ms so far, and the rest still stands to be scanned. */
  ghost predicate ScannedTo(fields: seq<Field>, whole: Option<seq<Member>>, ms: seq<Member>, rest: seq<byte>) {
    ScanFits(fields, rest) && whole == Prepend(ms, Scan(fields, rest))
  }

  ghost predicate Fails(whole: Option<seq<Member>>) {
    whole.None? || |whole.value| > SLAB_CAPACITY
  }

  /** A round that fails makes the whole scan fail, and so does a member more than the slabs hold. */
  lemma RoundFails(fields: seq<Field>, whole: Option<seq<Member>>, ms: seq<Member>, rest: seq<byte>)
    requires ScannedTo(fields, whole, ms, rest) && rest != []
    requires FirstMember(fields, rest).None? || |ms| >= SLAB_CAPACITY
    ensures Fails(whole)
  {
  }

  lemma RoundSucceeds(fields: seq<Field>, whole: Option<seq<Member>>, ms: seq<Member>, rest: seq<byte>, mem: Member,
      n: nat)
    requires ScannedTo(fields, whole, ms, rest) && rest != [] && FirstMember(fields, rest) == Some((mem, n))
    ensures 0 < n <= |rest| && GoodMember(fields, mem)
    ensures ScannedTo(fields, whole, ms + [mem], rest[n..])
  {
    PrependTwice(ms, [mem], Scan(fields, rest[n..]));
  }

  /** One round of the scan. */
  method ScanMember(schema: Schema, d: nat, ghost whole: Option<seq<Member>>, rest: seq<byte>, last: int,
                    slabs: Slabs.SlabList<Member>, counts: seq<nat>, seen: seq<bool>, nUnknown: nat)
      returns (ok: bool, n: nat, newLast: int, newCounts: seq<nat>, newSeen: seq<bool>, more: nat)
    requires ValidSchema(schema) && d < |schema| && -1 <= last < |schema[d].fields|
    requires slabs.Valid() && |slabs.members| <= SLAB_CAPACITY
    requires rest != [] && HeadFits(rest) && ScannedTo(schema[d].fields, whole, slabs.members, rest)
    requires Counted(schema[d].fields, slabs.members, counts, seen, nUnknown)
    modifies slabs, slabs.slabs
    ensures slabs.Valid() && fresh(set a | a in slabs.slabs && a !in old(slabs.slabs))
    ensures !ok ==> Fails(whole)
    ensures ok ==>
              && -1 <= newLast < |schema[d].fields| && 0 < n <= |rest|
              && |slabs.members| <= SLAB_CAPACITY
              && ScannedTo(schema[d].fields, whole, slabs.members, rest[n..])
              && Counted(schema[d].fields, slabs.members, newCounts, newSeen, more)
  {
    hide FirstMember, Scan, ScanFits;
    ghost var ms := slabs.members;
    newCounts, newSeen, more := counts, seen, nUnknown;
    var used, mem;
    used, mem, newLast := DelimitMember(schema, d, rest, last);
    n := used + |mem.data|;
    if used == 0 {
      RoundFails(schema[d].fields, whole, ms, rest);
      return false, n, newLast, newCounts, newSeen, more;
    }
    ok := slabs.Push(mem, NO_MEMBER);
    if !ok {
      RoundFails(schema[d].fields, whole, ms, rest);
      return;
    }
    ok, newCounts, newSeen, more := CountMember(schema[d].fields, ms, mem, counts, seen, nUnknown);
    if ok {
      RoundSucceeds(schema[d].fields, whole, ms, rest, mem, n);
    } else {
      RoundFails(schema[d].fields, whole, ms, rest);
    }
  }

  /**
  The first pass of protobuf_c_message_unpack.  On success the slabs hold the
  members in order, and the counts say how many elements each repeated field is
  to get.
  */
  method ScanMembers(schema: Schema, d: nat, b: seq<byte>, slabs: Slabs.SlabList<Member>)
      returns (ok: bool, counts: seq<nat>, seen: seq<bool>, nUnknown: nat)
    requires ValidSchema(schema) && d < |schema| && ScanFits(schema[d].fields, b)
    requires slabs.Valid() && slabs.members == []
    modifies slabs, slabs.slabs
    ensures slabs.Valid() && fresh(set a | a in slabs.slabs && a !in old(slabs.slabs))
    ensures ok <==> !Fails(Scan(schema[d].fields, b))
    ensures ok ==> Scan(schema[d].fields, b) == Some(slabs.members)
    ensures ok ==> Counted(schema[d].fields, slabs.members, counts, seen, nUnknown)
  {
    hide FirstMember, IndexOf, VarintLength, Groups;
    var fields := schema[d].fields;
    ghost var whole := Scan(fields, b);
    var rest, last := b, if fields == [] then -1 else 0;
    counts, seen, nUnknown := seq(|fields|, _ => 0), seq(|fields|, _ => false), 0;
    PrependTwice([], [], whole);
    while rest != []
      invariant -1 <= last < |fields|
      invariant slabs.Valid() && fresh(set a | a in slabs.slabs && a !in old(slabs.slabs))
      invariant |slabs.members| <= SLAB_CAPACITY
      invariant ScannedTo(fields, whole, slabs.members, rest)
      invariant Counted(fields, slabs.members, counts, seen, nUnknown)
      decreases |rest|
    {
      var n;
      ok, n, last, counts, seen, nUnknown := ScanMember(schema, d, whole, rest, last, slabs, counts, seen, nUnknown);
      if !ok {
        return;
      }
      rest := rest[n..];
    }
    assert slabs.members + [] == slabs.members;
    ok := true;
  }
}
