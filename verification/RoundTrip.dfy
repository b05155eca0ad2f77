/** Unpacking undoes packing, for every schema and every well-formed message. */
module RoundTrip {
  import opened Options
  import opened Bytes
  import opened Varints
  import opened RangeLookup
  import opened Messages
  import opened Unpacking

  // ---------------------------------------------------------------------------
  // Numbers and packed payloads
  // ---------------------------------------------------------------------------

  lemma Pow256Values()
    ensures Pow256(4) == TWO32 && Pow256(8) == TWO64
  {
    assert Pow256(2) == 256 * Pow256(1);
    assert Pow256(4) == 256 * 256 * Pow256(2);
    assert Pow256(6) == 256 * 256 * Pow256(4);
    assert Pow256(8) == 256 * 256 * Pow256(6);
  }

  /** Every numeric type parses back what it packs. */
  lemma NumberRoundTrip(t: Type, n: int)
    requires InRange(t, n)
    ensures |NumberBytes(t, n)| > 0
    ensures ParseNumber(t, NumberBytes(t, n)) == n
  {
    if Is32(t) || Is64(t) {
      FixedRoundTrip(t, n);
    } else {
      VarintRoundTrip(t, n);
    }
  }

  lemma FixedRoundTrip(t: Type, n: int)
    requires InRange(t, n) && (Is32(t) || Is64(t))
    ensures ParseNumber(t, NumberBytes(t, n)) == n
  {
    Pow256Values();
    if Is32(t) {
      LittleEndianInverse(4, Wrap(n, TWO32));
      if t.SFIXED32? { WrapInverse(n, TWO32); }
    } else {
      LittleEndianInverse(8, Wrap(n, TWO64));
      if t.SFIXED64? { WrapInverse(n, TWO64); }
    }
  }

  lemma VarintRoundTrip(t: Type, n: int)
    requires InRange(t, n) && WireOf(t) == VARINT
    ensures ParseNumber(t, NumberBytes(t, n)) == n
  {
    if t.BOOL? {
      BoolRoundTrip(n);
    } else if t.INT64? || t.UINT64? || t.SINT64? {
      WideRoundTrip(t, n);
    } else {
      NarrowRoundTrip(t, n);
    }
  }

  lemma BoolRoundTrip(n: int)
    requires 0 <= n <= 1
    ensures ParseNumber(BOOL, NumberBytes(BOOL, n)) == n
  {
    assert AnyBits([n]) <==> [n][0] % 128 != 0;
  }

  lemma WideRoundTrip(t: Type, n: int)
    requires InRange(t, n) && (t.INT64? || t.UINT64? || t.SINT64?)
    ensures ParseNumber(t, NumberBytes(t, n)) == n
  {
    var v := VarintOf(t, n);
    VarintInverse(v);
    VarintOfBound(t, n);
    assert Groups(NumberBytes(t, n)) % TWO64 == v by { SmallMod(v, TWO64); }
    match t
    case INT64 => WrapInverse(n, TWO64);
    case SINT64 => ZigzagInverse(n, TWO64);
    case UINT64 => SmallMod(n, TWO64);
  }

  lemma SmallMod(v: nat, m: nat)
    requires v < m
    ensures v % m == v
  {
  }

  lemma NarrowRoundTrip(t: Type, n: int)
    requires InRange(t, n) && (t.INT32? || t.ENUM? || t.UINT32? || t.SINT32?)
    ensures ParseNumber(t, NumberBytes(t, n)) == n
  {
    hide Wrap, Signed, Varint, Groups;
    var b := NumberBytes(t, n);
    VarintOfBound(t, n);
    VarintInverse(VarintOf(t, n));
    Uint64SizeIsLength(VarintOf(t, n));
    ParseUint32IsGroups(b);
    match t
    case SINT32 => ZigzagInverse(n, TWO32);
    case UINT32 => UnsignedVarint(n);
    case _ => NarrowWrap(n);
  }

  lemma UnsignedVarint(n: int)
    requires InRange(UINT32, n)
    ensures VarintOf(UINT32, n) == n
  {
  }

  /** The low 32 bits of the 64-bit form of an int32. */
  lemma NarrowWrap(n: int)
    requires -0x8000_0000 <= n < 0x8000_0000
    ensures Signed(Wrap(n, TWO64) % TWO32, TWO32) == n
  {
  }

  lemma ElementDelimited(t: Type, n: int, rest: seq<byte>)
    requires InRange(t, n)
    ensures |NumberBytes(t, n)| > 0
    ensures ElementLength(t, NumberBytes(t, n) + rest) == |NumberBytes(t, n)|
  {
    if WireOf(t) == VARINT {
      VarintOfBound(t, n);
      Uint64SizeIsLength(VarintOf(t, n));
      VarintDelimited(VarintOf(t, n), rest, 10);
    }
  }

  lemma {:induction false} PackedRoundTrip(schema: Schema, t: Type, vs: seq<Value>, k: nat, b: seq<byte>)
    requires Packable(t) && k <= |vs|
    requires forall i :: 0 <= i < |vs| ==> ValidValue(schema, t, vs[i])
    ensures ParsePacked(t, PackedBytes(schema, t, vs, k) + b) == Prepend(vs[..k], ParsePacked(t, b))
  {
    hide ParsePacked, ValueBytes, ValidValue;
    PrependTwice([], [], ParsePacked(t, b));
    if k == 0 {
      assert PackedBytes(schema, t, vs, 0) + b == b && vs[..0] == [];
    } else {
      var e := ValueBytes(schema, t, vs[k - 1]);
      PackedRoundTrip(schema, t, vs, k - 1, e + b);
      assert PackedBytes(schema, t, vs, k) + b == PackedBytes(schema, t, vs, k - 1) + (e + b);
      FirstElement(schema, t, vs[k - 1], b);
      PrependTwice(vs[..k - 1], [vs[k - 1]], ParsePacked(t, b));
      assert vs[..k] == vs[..k - 1] + [vs[k - 1]];
    }
  }

  lemma FirstElement(schema: Schema, t: Type, v: Value, b: seq<byte>)
    requires Packable(t) && ValidValue(schema, t, v)
    ensures ParsePacked(t, ValueBytes(schema, t, v) + b) == Prepend([v], ParsePacked(t, b))
  {
    var e := NumberBytes(t, v.n);
    ElementDelimited(t, v.n, b);
    NumberRoundTrip(t, v.n);
    assert (e + b)[..|e|] == e && (e + b)[|e|..] == b;
  }

  // ---------------------------------------------------------------------------
  // The members a message is written as
  // ---------------------------------------------------------------------------

  function MemberFor(index: int, id: nat, wire: nat, data: seq<byte>): Member {
    Member(id, wire, PrefixLength(wire, data), data, index)
  }

  /** The first k elements of a repeated field. */
  function ElementMembers(schema: Schema, f: Field, index: int, vs: seq<Value>, k: nat): (ms: seq<Member>)
    requires k <= |vs|
    ensures |ms| == k
  {
    if k == 0 then []
    else ElementMembers(schema, f, index, vs, k - 1)
         + [MemberFor(index, f.id, WireOf(f.typ), ValueBytes(schema, f.typ, vs[k - 1]))]
  }

  function FieldMembers(schema: Schema, f: Field, index: int, slot: Slot): (ms: seq<Member>)
    ensures |ms| == RecordCount(f, slot)
  {
    match slot
    case One(None) => []
    case One(Some(v)) => [MemberFor(index, f.id, WireOf(f.typ), ValueBytes(schema, f.typ, v))]
    case Many(vs) =>
      if !f.packed then ElementMembers(schema, f, index, vs, |vs|)
      else if vs == [] then []
      else [MemberFor(index, f.id, PREFIXED, Prefixed(PackedBytes(schema, f.typ, vs, |vs|)))]
  }

  function FieldsMembers(schema: Schema, m: Message, k: nat): (ms: seq<Member>)
    requires k <= |m.slots| && k <= |FieldsOf(schema, m)|
    ensures |ms| == RecordCounts(schema, m, k)
  {
    if k == 0 then []
    else FieldsMembers(schema, m, k - 1) + FieldMembers(schema, FieldsOf(schema, m)[k - 1], k - 1, m.slots[k - 1])
  }

  function UnknownMembers(us: seq<Unknown>, k: nat): (ms: seq<Member>)
    requires k <= |us|
    ensures |ms| == k
  {
    if k == 0 then []
    else UnknownMembers(us, k - 1) + [MemberFor(-1, us[k - 1].tag, us[k - 1].wire, us[k - 1].data)]
  }

  function MessageMembers(schema: Schema, m: Message): seq<Member> {
    FieldsMembers(schema, m, FieldCount(schema, m)) + UnknownMembers(m.unknown, |m.unknown|)
  }

  // ---------------------------------------------------------------------------
  // The scan finds them
  // ---------------------------------------------------------------------------

  /** Whatever follows, the scan of x begins with the members ms. */
  ghost predicate ScansAs(fields: seq<Field>, x: seq<byte>, ms: seq<Member>) {
    forall b: seq<byte> {:trigger Scan(fields, b)} :: Scan(fields, x + b) == Prepend(ms, Scan(fields, b))
  }

  lemma ScansNothing(fields: seq<Field>)
    ensures ScansAs(fields, [], [])
  {
    hide Scan;
    forall b: seq<byte> ensures Scan(fields, [] + b) == Prepend([], Scan(fields, b)) {
      assert [] + b == b;
      PrependTwice([], [], Scan(fields, b));
    }
  }

  lemma ScansBoth(fields: seq<Field>, x: seq<byte>, ms: seq<Member>, y: seq<byte>, ns: seq<Member>)
    requires ScansAs(fields, x, ms) && ScansAs(fields, y, ns)
    ensures ScansAs(fields, x + y, ms + ns)
  {
    hide Scan;
    forall b: seq<byte> ensures Scan(fields, x + y + b) == Prepend(ms + ns, Scan(fields, b)) {
      assert x + y + b == x + (y + b);
      assert Scan(fields, x + (y + b)) == Prepend(ms, Scan(fields, y + b));
      PrependTwice(ms, ns, Scan(fields, b));
    }
  }

  lemma ScansOne(fields: seq<Field>, index: int, id: nat, wire: nat, data: seq<byte>)
    requires id < TWO32 && wire < 8 && index == IndexOf(Ids(fields), id)
    requires MemberLength(wire, data) == |data| > 0
    requires GoodMember(fields, MemberFor(index, id, wire, data))
    ensures ScansAs(fields, TagBytes(id, wire) + data, [MemberFor(index, id, wire, data)])
  {
    forall b: seq<byte> ensures Scan(fields, TagBytes(id, wire) + data + b)
        == Prepend([MemberFor(index, id, wire, data)], Scan(fields, b)) {
      FirstIs(fields, index, id, wire, data, b);
      var x := TagBytes(id, wire) + data + b;
      assert x[|TagBytes(id, wire)| + |data|..] == b;
    }
  }

  lemma FirstIs(fields: seq<Field>, index: int, id: nat, wire: nat, data: seq<byte>, b: seq<byte>)
    requires id < TWO32 && wire < 8 && index == IndexOf(Ids(fields), id)
    requires MemberLength(wire, data) == |data| > 0
    requires GoodMember(fields, MemberFor(index, id, wire, data))
    ensures FirstMember(fields, TagBytes(id, wire) + data + b)
         == Some((MemberFor(index, id, wire, data), |TagBytes(id, wire)| + |data|))
  {
    hide TagBytes, VarintLength, Groups, MemberLength, PrefixLength, IndexOf, Count;
    var tag := TagBytes(id, wire);
    assert tag + data + b == tag + (data + b);
    TagParses(id, wire, data + b);
    MemberLengthStable(wire, data, b);
    PrefixStable(wire, data, b);
    assert (data + b)[..|data|] == data;
  }

  /** parse_tag_and_wiretype undoes tag_pack, whatever follows. */
  lemma TagParses(id: nat, wire: nat, rest: seq<byte>)
    requires id < TWO32 && wire < 8
    ensures var x := TagBytes(id, wire) + rest; var n := |TagBytes(id, wire)|;
            && VarintLength(x, 5) == n > 0 && x[n..] == rest
            && Groups(x[..n]) / 8 == id && Groups(x[..n]) % 8 == wire
  {
    var tag := TagBytes(id, wire);
    assert (tag + rest)[..|tag|] == tag && (tag + rest)[|tag|..] == rest;
    TagSizeIsLength(id, wire);
    VarintDelimited(8 * id + wire, rest, 5);
    VarintInverse(8 * id + wire);
  }

  lemma PrefixStable(wire: nat, data: seq<byte>, b: seq<byte>)
    requires MemberLength(wire, data) == |data| > 0
    ensures PrefixLength(wire, data + b) == PrefixLength(wire, data) <= |data|
  {
    if wire == PREFIXED { VarintLengthStable(data, b, 5); }
  }

  lemma FieldAt(schema: Schema, d: nat, i: nat)
    requires ValidSchema(schema) && d < |schema| && i < |schema[d].fields|
    ensures ValidField(schema, schema[d].fields[i])
    ensures IndexOf(Ids(schema[d].fields), schema[d].fields[i].id) == i
  {
    assert ValidDescriptor(schema, schema[d]);
    IndexOfIs(Ids(schema[d].fields), schema[d].fields[i].id, i);
  }

  lemma ValueMemberIsGood(schema: Schema, fields: seq<Field>, index: nat, v: Value)
    requires index < |fields| && ValidField(schema, fields[index]) && ValidValue(schema, fields[index].typ, v)
    ensures var f := fields[index];
            GoodMember(fields, MemberFor(index, f.id, WireOf(f.typ), ValueBytes(schema, f.typ, v)))
  {
    var f := fields[index];
    ValueDelimited(schema, f.typ, v);
    PrefixInside(WireOf(f.typ), ValueBytes(schema, f.typ, v));
  }

  lemma ScansElements(schema: Schema, d: nat, i: nat, vs: seq<Value>, k: nat)
    requires ValidSchema(schema) && d < |schema| && i < |schema[d].fields| && k <= |vs|
    requires forall j :: 0 <= j < |vs| ==> ValidValue(schema, schema[d].fields[i].typ, vs[j])
    ensures var f := schema[d].fields[i];
            ScansAs(schema[d].fields, RepeatedBytes(schema, f, vs, k), ElementMembers(schema, f, i, vs, k))
  {
    var fields := schema[d].fields;
    var f := fields[i];
    if k == 0 {
      ScansNothing(fields);
    } else {
      ScansElements(schema, d, i, vs, k - 1);
      ScansValue(schema, d, i, vs[k - 1]);
      ScansBoth(fields, RepeatedBytes(schema, f, vs, k - 1), ElementMembers(schema, f, i, vs, k - 1),
                TagBytes(f.id, WireOf(f.typ)) + ValueBytes(schema, f.typ, vs[k - 1]),
                [MemberFor(i, f.id, WireOf(f.typ), ValueBytes(schema, f.typ, vs[k - 1]))]);
    }
  }

  lemma ScansValue(schema: Schema, d: nat, i: nat, v: Value)
    requires ValidSchema(schema) && d < |schema| && i < |schema[d].fields|
    requires ValidValue(schema, schema[d].fields[i].typ, v)
    ensures var f := schema[d].fields[i];
            var data := ValueBytes(schema, f.typ, v);
            ScansAs(schema[d].fields, TagBytes(f.id, WireOf(f.typ)) + data, [MemberFor(i, f.id, WireOf(f.typ), data)])
  {
    var f := schema[d].fields[i];
    FieldAt(schema, d, i);
    ValueDelimited(schema, f.typ, v);
    ValueMemberIsGood(schema, schema[d].fields, i, v);
    ScansOne(schema[d].fields, i, f.id, WireOf(f.typ), ValueBytes(schema, f.typ, v));
  }

  lemma ScansPacked(schema: Schema, d: nat, i: nat, vs: seq<Value>)
    requires ValidSchema(schema) && d < |schema| && i < |schema[d].fields|
    requires ValidSlot(schema, schema[d].fields[i], Many(vs)) && schema[d].fields[i].packed
    ensures var f := schema[d].fields[i];
            var data := Prefixed(PackedBytes(schema, f.typ, vs, |vs|));
            ScansAs(schema[d].fields, TagBytes(f.id, PREFIXED) + data, [MemberFor(i, f.id, PREFIXED, data)])
  {
    var f := schema[d].fields[i];
    FieldAt(schema, d, i);
    PackedMemberIsGood(schema, schema[d].fields, i, vs);
    PrefixedDelimited(PackedBytes(schema, f.typ, vs, |vs|));
    ScansOne(schema[d].fields, i, f.id, PREFIXED, Prefixed(PackedBytes(schema, f.typ, vs, |vs|)));
  }

  lemma PackedMemberIsGood(schema: Schema, fields: seq<Field>, i: nat, vs: seq<Value>)
    requires i < |fields| && ValidField(schema, fields[i])
    requires ValidSlot(schema, fields[i], Many(vs)) && fields[i].packed
    ensures var f := fields[i];
            GoodMember(fields, MemberFor(i, f.id, PREFIXED, Prefixed(PackedBytes(schema, f.typ, vs, |vs|))))
  {
    var payload := PackedBytes(schema, fields[i].typ, vs, |vs|);
    PrefixedDelimited(payload);
    assert Prefixed(payload)[|Varint(|payload|)|..] == payload;
    PackedIsCounted(schema, fields[i].typ, vs);
  }

  lemma PackedIsCounted(schema: Schema, t: Type, vs: seq<Value>)
    requires Packable(t) && forall j :: 0 <= j < |vs| ==> ValidValue(schema, t, vs[j])
    ensures CountPacked(t, PackedBytes(schema, t, vs, |vs|)).Some?
  {
    PackedLength(schema, t, vs, |vs|);
  }

  /** A packed payload passes the scan's count. */
  lemma PackedLength(schema: Schema, t: Type, vs: seq<Value>, k: nat)
    requires Packable(t) && k <= |vs| && forall j :: 0 <= j < |vs| ==> ValidValue(schema, t, vs[j])
    ensures Is32(t) ==> |PackedBytes(schema, t, vs, k)| == 4 * k
    ensures Is64(t) ==> |PackedBytes(schema, t, vs, k)| == 8 * k
  {
  }

  lemma ScansField(schema: Schema, d: nat, i: nat, slot: Slot)
    requires ValidSchema(schema) && d < |schema| && i < |schema[d].fields|
    requires ValidSlot(schema, schema[d].fields[i], slot)
    ensures var f := schema[d].fields[i];
            ScansAs(schema[d].fields, FieldBytes(schema, f, slot), FieldMembers(schema, f, i, slot))
  {
    var f := schema[d].fields[i];
    match slot
    case One(None) => ScansNothing(schema[d].fields);
    case One(Some(v)) => ScansValue(schema, d, i, v);
    case Many(vs) =>
      if !f.packed {
        ScansElements(schema, d, i, vs, |vs|);
      } else if vs == [] {
        ScansNothing(schema[d].fields);
      } else {
        ScansPacked(schema, d, i, vs);
      }
  }

  lemma ScansFields(schema: Schema, m: Message, k: nat)
    requires ValidSchema(schema) && ValidMessage(schema, m) && k <= |m.slots|
    ensures ScansAs(schema[m.desc].fields, FieldsBytes(schema, m, k), FieldsMembers(schema, m, k))
  {
    var fields := schema[m.desc].fields;
    if k == 0 {
      ScansNothing(fields);
    } else {
      ScansFields(schema, m, k - 1);
      ScansField(schema, m.desc, k - 1, m.slots[k - 1]);
      ScansBoth(fields, FieldsBytes(schema, m, k - 1), FieldsMembers(schema, m, k - 1),
                FieldBytes(schema, fields[k - 1], m.slots[k - 1]),
                    FieldMembers(schema, fields[k - 1], k - 1, m.slots[k - 1]));
    }
  }

  lemma ScansUnknown(fields: seq<Field>, us: seq<Unknown>, k: nat)
    requires k <= |us| && forall i :: 0 <= i < |us| ==> ValidUnknown(fields, us[i])
    ensures ScansAs(fields, UnknownBytes(us, k), UnknownMembers(us, k))
  {
    if k == 0 {
      ScansNothing(fields);
    } else {
      var u := us[k - 1];
      ScansUnknown(fields, us, k - 1);
      UnknownIsGood(fields, u);
      ScansOne(fields, -1, u.tag, u.wire, u.data);
      ScansBoth(fields, UnknownBytes(us, k - 1), UnknownMembers(us, k - 1), TagBytes(u.tag, u.wire) + u.data,
                [MemberFor(-1, u.tag, u.wire, u.data)]);
    }
  }

  lemma UnknownIsGood(fields: seq<Field>, u: Unknown)
    requires ValidUnknown(fields, u)
    ensures u.wire < 8 && IndexOf(Ids(fields), u.tag) == -1
    ensures GoodMember(fields, MemberFor(-1, u.tag, u.wire, u.data))
  {
    PrefixInside(u.wire, u.data);
  }

  /** The scan of a packed message finds its members, in order. */
  lemma ScanFindsMembers(schema: Schema, m: Message)
    requires ValidSchema(schema) && ValidMessage(schema, m)
    ensures Scan(schema[m.desc].fields, MessageBytes(schema, m)) == Some(MessageMembers(schema, m))
  {
    var fields := schema[m.desc].fields;
    ScansFields(schema, m, |m.slots|);
    ScansUnknown(fields, m.unknown, |m.unknown|);
    ScansBoth(fields, FieldsBytes(schema, m, |m.slots|), FieldsMembers(schema, m, |m.slots|),
              UnknownBytes(m.unknown, |m.unknown|), UnknownMembers(m.unknown, |m.unknown|));
    assert MessageBytes(schema, m) + [] == MessageBytes(schema, m);
    assert Scan(fields, []) == Some([]);
    assert MessageMembers(schema, m) + [] == MessageMembers(schema, m);
  }

  // ---------------------------------------------------------------------------
  // The parse rebuilds the message
  // ---------------------------------------------------------------------------

  lemma {:induction false} ParseAppend(schema: Schema, ms: seq<Member>, ns: seq<Member>, m: Message, bound: nat,
      merge: Merge)
    requires Shaped(schema, m) && GoodMembers(schema[m.desc].fields, ms + ns, bound)
    ensures GoodMembers(schema[m.desc].fields, ms, bound) && GoodMembers(schema[m.desc].fields, ns, bound)
    ensures Parse(schema, ms + ns, m, bound, merge)
         == var mid := Parse(schema, ms, m, bound, merge);
            if mid.None? then None else Parse(schema, ns, mid.value, bound, merge)
    decreases |ns|
  {
    assert forall i :: 0 <= i < |ms| ==> (ms + ns)[i] == ms[i];
    assert forall i :: 0 <= i < |ns| ==> (ms + ns)[|ms| + i] == ns[i];
    if ns == [] {
      assert ms + ns == ms;
    } else {
      var init := ns[..|ns| - 1];
      assert (ms + ns)[..|ms + ns| - 1] == ms + init;
      assert (ms + ns)[|ms + ns| - 1] == ns[|ns| - 1];
      ParseAppend(schema, ms, init, m, bound, merge);
    }
  }

  lemma ParseNothing(schema: Schema, m: Message, bound: nat, merge: Merge)
    requires Shaped(schema, m)
    ensures Parse(schema, [], m, bound, merge) == Some(m)
  {
  }

  lemma ParseSnoc(schema: Schema, ms: seq<Member>, mem: Member, m: Message, bound: nat, merge: Merge)
    requires Shaped(schema, m) && GoodMembers(schema[m.desc].fields, ms + [mem], bound)
    ensures GoodMembers(schema[m.desc].fields, ms, bound) && GoodMember(schema[m.desc].fields, mem)
    ensures Parse(schema, ms + [mem], m, bound, merge)
         == var mid := Parse(schema, ms, m, bound, merge);
            if mid.None? then None else ParseMember(schema, mem, mid.value, merge)
  {
    assert (ms + [mem])[..|ms + [mem]| - 1] == ms;
    assert (ms + [mem])[|ms|] == mem;
    assert forall i :: 0 <= i < |ms| ==> (ms + [mem])[i] == ms[i];
  }

  /** The message after its first k fields have been parsed. */
  function Mid(schema: Schema, m: Message, k: nat): (r: Message)
    requires m.desc < |schema| && |m.slots| == |schema[m.desc].fields|
    ensures |r.slots| == |m.slots| && r.desc == m.desc && r.unknown == []
    ensures forall j :: 0 <= j < |m.slots| ==> r.slots[j] == if j < k then m.slots[j]
        else InitSlot(schema[m.desc].fields[j])
  {
    var fields := schema[m.desc].fields;
    Message(m.desc, seq(|m.slots|, j requires 0 <= j < |m.slots| => if j < k then m.slots[j]
        else InitSlot(fields[j])), [])
  }

  lemma MidShaped(schema: Schema, m: Message, k: nat)
    requires ValidMessage(schema, m)
    ensures Shaped(schema, Mid(schema, m, k))
  {
    forall i | 0 <= i < |m.slots| ensures m.slots[i].Many? <==> schema[m.desc].fields[i].rule.REPEATED? {
      assert ValidSlot(schema, schema[m.desc].fields[i], m.slots[i]);
    }
  }

  /** A value parses back from its own member; nested messages by induction. */
  lemma {:induction false} ValueRoundTrip(schema: Schema, t: Type, v: Value, mem: Member, held: Option<Value>,
      merge: Merge)
    requires ValidSchema(schema) && ValidValue(schema, t, v)
    requires mem.wire == WireOf(t) && mem.data == ValueBytes(schema, t, v)
        && mem.prefix == PrefixLength(mem.wire, mem.data)
    requires t.MESSAGE? ==> held.None?
    ensures mem.prefix <= |mem.data| && 0 < |mem.data|
    ensures ParseValue(schema, t, mem, held, merge) == Some(v)
    decreases v, 0
  {
    hide ValidSchema, ValidMessage, MessageBytes, NumberBytes, ParseNumber, Prefixed, Unpack, InRange, MemberLength,
        FitsSlabs;
    ValueDelimited(schema, t, v);
    PrefixInside(WireOf(t), ValueBytes(schema, t, v));
    match v
    case Number(n) =>
      NumberRoundTrip(t, n);
      NumberIsPackable(t, n);
    case Text(s) => PayloadBehindPrefix(s);
    case Data(b) => PayloadBehindPrefix(b);
    case Nested(m) =>
      PayloadBehindPrefix(MessageBytes(schema, m));
      MessageRoundTrip(schema, m, merge);
  }

  lemma NumberIsPackable(t: Type, n: int)
    requires InRange(t, n)
    ensures Packable(t)
  {
  }

  lemma PayloadBehindPrefix(b: seq<byte>)
    requires |b| <= MAX_LENGTH
    ensures PrefixLength(PREFIXED, Prefixed(b)) <= |Prefixed(b)|
    ensures Prefixed(b)[PrefixLength(PREFIXED, Prefixed(b))..] == b
  {
    PrefixedDelimited(b);
  }

  /** The message with the elements vs in slot i. */
  function Holding(m: Message, i: nat, vs: seq<Value>): (r: Message)
    requires i < |m.slots|
    ensures r.desc == m.desc && r.unknown == m.unknown && |r.slots| == |m.slots|
    ensures r.slots[i] == Many(vs) && forall j :: 0 <= j < |m.slots| && j != i ==> r.slots[j] == m.slots[j]
  {
    m.(slots := m.slots[i := Many(vs)])
  }

  /** Parsing one element appends it to the array of its field. */
  lemma {:induction false} ElementParse(schema: Schema, m: Message, i: nat, vs: seq<Value>, v: Value, mem: Member,
      merge: Merge)
    requires ValidSchema(schema) && Shaped(schema, m) && i < |m.slots|
    requires schema[m.desc].fields[i].rule.REPEATED? && !schema[m.desc].fields[i].packed
    requires ValidValue(schema, schema[m.desc].fields[i].typ, v)
    requires mem == MemberFor(i, schema[m.desc].fields[i].id, WireOf(schema[m.desc].fields[i].typ),
                              ValueBytes(schema, schema[m.desc].fields[i].typ, v))
    requires GoodMember(schema[m.desc].fields, mem)
    ensures Shaped(schema, Holding(m, i, vs))
    ensures ParseMember(schema, mem, Holding(m, i, vs), merge) == Some(Holding(m, i, vs + [v]))
    decreases v, 1
  {
    hide ValidSchema, ValidValue, ValueBytes, PrefixLength, ParseValue, Count;
    var f := schema[m.desc].fields[i];
    ValueRoundTrip(schema, f.typ, v, mem, None, merge);
    assert !ComesPacked(f, mem.wire);
    assert m.slots[i := Many(vs)][i := Many(vs + [v])] == m.slots[i := Many(vs + [v])];
  }

  lemma {:induction false} ElementsParse(schema: Schema, into: Message, i: nat, vs: seq<Value>, k: nat, bound: nat,
      merge: Merge)
    requires ValidSchema(schema) && Shaped(schema, into) && i < |into.slots| && into.slots[i] == Many([])
    requires ValidSlot(schema, schema[into.desc].fields[i], Many(vs)) && !schema[into.desc].fields[i].packed
        && k <= |vs|
    requires GoodMembers(schema[into.desc].fields, ElementMembers(schema, schema[into.desc].fields[i], i, vs, k), bound)
    ensures Parse(schema, ElementMembers(schema, schema[into.desc].fields[i], i, vs, k), into, bound, merge)
         == Some(Holding(into, i, vs[..k]))
    decreases Many(vs), 1, k
  {
    hide ValidSchema, ValidValue, ValueBytes, GoodMember, ParseMember, WireOf, PrefixLength, Count, Parse;
    var f := schema[into.desc].fields[i];
    if k == 0 {
      ParseNothing(schema, into, bound, merge);
      assert into.slots[i := Many(vs[..0])] == into.slots;
    } else {
      var mem := MemberFor(i, f.id, WireOf(f.typ), ValueBytes(schema, f.typ, vs[k - 1]));
      ParseSnoc(schema, ElementMembers(schema, f, i, vs, k - 1), mem, into, bound, merge);
      ElementsParse(schema, into, i, vs, k - 1, bound, merge);
      ElementParse(schema, into, i, vs[..k - 1], vs[k - 1], mem, merge);
      assert vs[..k - 1] + [vs[k - 1]] == vs[..k];
    }
  }

  lemma PackedParse(schema: Schema, m: Message, i: nat, merge: Merge)
    requires ValidSchema(schema) && ValidMessage(schema, m) && i < |m.slots|
    requires m.slots[i].Many? && schema[m.desc].fields[i].packed
    ensures var f := schema[m.desc].fields[i];
            var mem := MemberFor(i, f.id, PREFIXED,
                Prefixed(PackedBytes(schema, f.typ, m.slots[i].vs, |m.slots[i].vs|)));
            && mem.prefix <= |mem.data| && 0 < |mem.data|
            && ParseElements(schema, f, mem, merge) == Some(m.slots[i].vs)
  {
    var f := schema[m.desc].fields[i];
    var vs := m.slots[i].vs;
    FieldAt(schema, m.desc, i);
    assert ValidSlot(schema, f, m.slots[i]);
    var payload := PackedBytes(schema, f.typ, vs, |vs|);
    PayloadBehindPrefix(payload);
    PackedRoundTrip(schema, f.typ, vs, |vs|, []);
    assert payload + [] == payload && vs[..|vs|] + [] == vs;
  }

  /** Parsing the members of field i takes the message from Mid(i) to Mid(i + 1). */
  lemma {:induction false} FieldParse(schema: Schema, m: Message, i: nat, bound: nat, merge: Merge)
    requires ValidSchema(schema) && ValidMessage(schema, m) && i < |m.slots|
    requires GoodMembers(schema[m.desc].fields, FieldMembers(schema, schema[m.desc].fields[i], i, m.slots[i]), bound)
    ensures Shaped(schema, Mid(schema, m, i))
    ensures Parse(schema, FieldMembers(schema, schema[m.desc].fields[i], i, m.slots[i]), Mid(schema, m, i), bound,
        merge)
         == Some(Mid(schema, m, i + 1))
    decreases m.slots[i], 2
  {
    var mid, next := Mid(schema, m, i), Mid(schema, m, i + 1);
    MidShaped(schema, m, i);
    assert ValidSlot(schema, schema[m.desc].fields[i], m.slots[i]);
    assert next.slots == mid.slots[i := m.slots[i]];
    match m.slots[i]
    case One(None) =>
      FieldAt(schema, m.desc, i);
      assert next.slots == mid.slots;
    case One(Some(v)) =>
      SingleParse(schema, m, i, v, bound, merge);
    case Many(vs) =>
      FieldAt(schema, m.desc, i);
      if !schema[m.desc].fields[i].packed {
        ElementsParse(schema, mid, i, vs, |vs|, bound, merge);
        assert vs[..|vs|] == vs;
      } else if vs == [] {
        assert next.slots == mid.slots;
      } else {
        PackedFieldParse(schema, m, i, bound, merge);
      }
  }

  lemma {:induction false} SingleParse(schema: Schema, m: Message, i: nat, v: Value, bound: nat, merge: Merge)
    requires ValidSchema(schema) && ValidMessage(schema, m) && i < |m.slots| && m.slots[i] == One(Some(v))
    requires GoodMembers(schema[m.desc].fields, FieldMembers(schema, schema[m.desc].fields[i], i, m.slots[i]), bound)
    ensures Shaped(schema, Mid(schema, m, i))
    ensures Parse(schema, FieldMembers(schema, schema[m.desc].fields[i], i, m.slots[i]), Mid(schema, m, i), bound,
        merge)
         == Some(Mid(schema, m, i + 1))
    decreases m.slots[i], 1
  {
    hide ValidSchema, ValidValue, ValueBytes, GoodMember, ParseValue, WireOf, PrefixLength, ClearGroup, Exclusive,
        Parse;
    var f := schema[m.desc].fields[i];
    var mid, next := Mid(schema, m, i), Mid(schema, m, i + 1);
    MidShaped(schema, m, i);
    FieldAt(schema, m.desc, i);
    assert ValidSlot(schema, f, m.slots[i]);
    var mem := MemberFor(i, f.id, WireOf(f.typ), ValueBytes(schema, f.typ, v));
    ParseSnoc(schema, [], mem, mid, bound, merge);
    assert [] + [mem] == [mem];
    ParseNothing(schema, mid, bound, merge);
    ValueRoundTrip(schema, f.typ, v, mem, if f.rule.ONEOF? then None else mid.slots[i].v, merge);
    if f.rule.ONEOF? {
      OneofStaysExclusive(schema, m, i);
    } else {
      assert next.slots == mid.slots[i := m.slots[i]];
    }
  }

  lemma PackedFieldParse(schema: Schema, m: Message, i: nat, bound: nat, merge: Merge)
    requires ValidSchema(schema) && ValidMessage(schema, m) && i < |m.slots|
    requires m.slots[i].Many? && schema[m.desc].fields[i].packed && m.slots[i].vs != []
    requires GoodMembers(schema[m.desc].fields, FieldMembers(schema, schema[m.desc].fields[i], i, m.slots[i]), bound)
    ensures Shaped(schema, Mid(schema, m, i))
    ensures Parse(schema, FieldMembers(schema, schema[m.desc].fields[i], i, m.slots[i]), Mid(schema, m, i), bound,
        merge)
         == Some(Mid(schema, m, i + 1))
  {
    hide ValidSchema, ValidValue, PackedBytes, Prefixed, GoodMember, ParseElements, PrefixLength, ParsePacked,
        Exclusive, Parse;
    var f := schema[m.desc].fields[i];
    var vs := m.slots[i].vs;
    var mid, next := Mid(schema, m, i), Mid(schema, m, i + 1);
    MidShaped(schema, m, i);
    FieldAt(schema, m.desc, i);
    assert ValidSlot(schema, f, m.slots[i]);
    var mem := MemberFor(i, f.id, PREFIXED, Prefixed(PackedBytes(schema, f.typ, vs, |vs|)));
    ParseSnoc(schema, [], mem, mid, bound, merge);
    assert [] + [mem] == [mem];
    ParseNothing(schema, mid, bound, merge);
    PackedParse(schema, m, i, merge);
    assert [] + vs == vs;
    assert next.slots == mid.slots[i := m.slots[i]];
  }

  lemma OneofStaysExclusive(schema: Schema, m: Message, i: nat)
    requires ValidSchema(schema) && ValidMessage(schema, m) && i < |m.slots|
    requires schema[m.desc].fields[i].rule.ONEOF? && m.slots[i] != One(None)
    ensures var fields := schema[m.desc].fields;
            ClearGroup(fields, Mid(schema, m, i).slots, fields[i].rule.group)[i := m.slots[i]]
                == Mid(schema, m, i + 1).slots
  {
    var fields := schema[m.desc].fields;
    forall j | 0 <= j < |fields| && j != i && fields[j].rule == fields[i].rule
      ensures Mid(schema, m, i).slots[j] == One(None)
    {
      FieldAt(schema, m.desc, j);
      if j < i {
        assert fields[j].rule == fields[i].rule;
      }
    }
  }

  lemma {:induction false} FieldsParse(schema: Schema, m: Message, k: nat, bound: nat, merge: Merge)
    requires ValidSchema(schema) && ValidMessage(schema, m) && k <= |m.slots|
    requires GoodMembers(schema[m.desc].fields, FieldsMembers(schema, m, k), bound)
    ensures Parse(schema, FieldsMembers(schema, m, k), Init(schema, m.desc), bound, merge) == Some(Mid(schema, m, k))
    decreases m, 0, k
  {
    hide ValidSchema, ValidSlot, FieldMembers, GoodMember, Exclusive, Parse;
    if k == 0 {
      ParseNothing(schema, Init(schema, m.desc), bound, merge);
      assert Init(schema, m.desc).slots == Mid(schema, m, 0).slots;
    } else {
      var last := FieldMembers(schema, schema[m.desc].fields[k - 1], k - 1, m.slots[k - 1]);
      ParseAppend(schema, FieldsMembers(schema, m, k - 1), last, Init(schema, m.desc), bound, merge);
      FieldsParse(schema, m, k - 1, bound, merge);
      FieldParse(schema, m, k - 1, bound, merge);
    }
  }

  lemma {:induction false} UnknownParse(schema: Schema, m: Message, us: seq<Unknown>, k: nat, bound: nat, merge: Merge)
    requires Shaped(schema, m) && m.unknown == [] && k <= |us|
    requires GoodMembers(schema[m.desc].fields, UnknownMembers(us, k), bound)
    ensures Parse(schema, UnknownMembers(us, k), m, bound, merge) == Some(m.(unknown := us[..k]))
  {
    if k == 0 {
      assert us[..0] == [];
    } else {
      var u := us[k - 1];
      ParseSnoc(schema, UnknownMembers(us, k - 1), MemberFor(-1, u.tag, u.wire, u.data), m, bound, merge);
      UnknownParse(schema, m, us, k - 1, bound, merge);
      assert us[..k] == us[..k - 1] + [u];
    }
  }

  lemma RequiredIsSet(schema: Schema, m: Message, i: nat)
    requires ValidMessage(schema, m) && i < |m.slots| && schema[m.desc].fields[i].rule.REQUIRED?
    ensures var ms := FieldMembers(schema, schema[m.desc].fields[i], i, m.slots[i]); |ms| > 0 && ms[0].field == i
  {
    hide ValidValue, ValueBytes, PrefixLength, Exclusive;
    assert ValidSlot(schema, schema[m.desc].fields[i], m.slots[i]);
  }

  lemma {:induction false} RequiredAreMentioned(schema: Schema, m: Message, k: nat, i: nat)
    requires ValidSchema(schema) && ValidMessage(schema, m) && i < k <= |m.slots|
    requires schema[m.desc].fields[i].rule.REQUIRED?
    ensures Mentions(FieldsMembers(schema, m, k), i)
  {
    hide ValidSchema, ValidSlot, Exclusive, FieldMembers;
    var before := FieldsMembers(schema, m, k - 1);
    var last := FieldMembers(schema, schema[m.desc].fields[k - 1], k - 1, m.slots[k - 1]);
    if i < k - 1 {
      RequiredAreMentioned(schema, m, k - 1, i);
      var j :| 0 <= j < |before| && before[j].field == i;
      assert (before + last)[j].field == i;
    } else {
      RequiredIsSet(schema, m, i);
      assert (before + last)[|before|].field == i;
    }
  }

  lemma NothingMissing(schema: Schema, m: Message)
    requires ValidSchema(schema) && ValidMessage(schema, m)
    ensures !Missing(schema[m.desc].fields, MessageMembers(schema, m))
  {
    forall i | 0 <= i < |m.slots| && schema[m.desc].fields[i].rule.REQUIRED?
      ensures Mentions(MessageMembers(schema, m), i)
    {
      RequiredAreMentioned(schema, m, |m.slots|, i);
      var ms := FieldsMembers(schema, m, |m.slots|);
      var j :| 0 <= j < |ms| && ms[j].field == i;
      assert MessageMembers(schema, m)[j].field == i;
    }
  }

  /**
  Unpacking undoes packing.  The bytes of a well-formed message unpack to that
  message exactly when its members fit the slabs of the scan; otherwise the
  unpacker gives up.
  */
  lemma {:induction false} MessageRoundTrip(schema: Schema, m: Message, merge: Merge)
    requires ValidSchema(schema) && ValidMessage(schema, m)
    ensures Unpack(schema, m.desc, MessageBytes(schema, m), merge) == if FitsSlabs(schema, m) then Some(m) else None
    decreases m, 1
  {
    hide ValidSchema, ValidSlot, MessageBytes, Scan, Parse, Exclusive, GoodMember, Missing, FieldsMembers,
        UnknownMembers;
    var ms := MessageMembers(schema, m);
    var bytes := MessageBytes(schema, m);
    ScanFindsMembers(schema, m);
    NothingMissing(schema, m);
    assert |ms| == RecordCounts(schema, m, |m.slots|) + |m.unknown|;
    if FitsSlabs(schema, m) {
      ParseAppend(schema, FieldsMembers(schema, m, |m.slots|), UnknownMembers(m.unknown, |m.unknown|),
          Init(schema, m.desc), |bytes|, merge);
      FieldsParse(schema, m, |m.slots|, |bytes|, merge);
      MidShaped(schema, m, |m.slots|);
      UnknownParse(schema, Mid(schema, m, |m.slots|), m.unknown, |m.unknown|, |bytes|, merge);
      assert m.unknown[..|m.unknown|] == m.unknown;
      assert Mid(schema, m, |m.slots|).slots == m.slots;
    }
  }

  /** A well-formed message with more unknown fields than the slabs hold: packed, it does not unpack. */
  lemma TooManyMembers(schema: Schema, m: Message, u: Unknown, n: nat, merge: Merge)
    requires ValidSchema(schema) && ValidMessage(schema, m) && ValidUnknown(schema[m.desc].fields, u)
    requires n > SLAB_CAPACITY
    ensures var big := m.(unknown := seq(n, _ => u));
            ValidMessage(schema, big) && Unpack(schema, m.desc, MessageBytes(schema, big), merge) == None
  {
    hide ValidSlot, ValidUnknown, MessageBytes, Unpack;
    var big := m.(unknown := seq(n, _ => u));
    assert forall i :: 0 <= i < |big.unknown| ==> big.unknown[i] == u;
    MessageRoundTrip(schema, big, merge);
  }

  /** The least such number, of one-byte fields, for a message type without fields. */
  lemma OneTooMany(merge: Merge)
    ensures var schema, u := [Descriptor([], 0, [])], Unknown(1, VARINT, [0]);
            var big := Message(0, [], seq(0x7ff_fff1, _ => u));
            && ValidSchema(schema) && ValidMessage(schema, big) && !FitsSlabs(schema, big)
            && Unpack(schema, 0, MessageBytes(schema, big), merge) == None
  {
    hide Unpack, MessageBytes;
    var schema, u, m := [Descriptor([], 0, [])], Unknown(1, VARINT, [0]), Message(0, [], []);
    assert Ids(schema[0].fields) == [];
    assert ValidDescriptor(schema, schema[0]);
    assert ValidMessage(schema, m);
    TooManyMembers(schema, m, u, 0x7ff_fff1, merge);
  }
}
