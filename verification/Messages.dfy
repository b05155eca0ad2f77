/**
Descriptors, messages and their encoding (protobuf-c.c, protobuf-c.h): what
protobuf_c_message_pack writes, and what the size functions predict.

A message slot holds what the C struct holds for the field: a value or nothing
for singular fields (has_ flag, oneof case or non-default pointer), an array for
repeated ones.  Descriptors refer to one another by index, so message types may
be recursive.
*/
module Messages {
  import opened Options
  import opened Bytes
  import opened Varints
  import opened RangeLookup

  const VARINT: nat := 0
  const BITS64: nat := 1
  const PREFIXED: nat := 2
  const BITS32: nat := 5

  /** The longest declared length for which the 32-bit sum of prefix and payload does not wrap. */
  const MAX_LENGTH: nat := TWO32 - 6

  /** How many members the slabs of a scan hold: 16, 32, ... doubling up to slab number 22. */
  const SLAB_CAPACITY: nat := 0x7ff_fff0

  datatype Type =
    | INT32 | SINT32 | SFIXED32 | INT64 | SINT64 | SFIXED64
    | UINT32 | FIXED32 | UINT64 | FIXED64 | FLOAT | DOUBLE
    | BOOL | ENUM | STRING | BYTES | MESSAGE(desc: nat)

  datatype Label = REQUIRED | OPTIONAL | ONEOF(group: nat) | REPEATED

  datatype Field = Field(id: nat, rule: Label, typ: Type, packed: bool, default: Option<Value>)

  datatype Descriptor = Descriptor(fields: seq<Field>, nRanges: nat, ranges: seq<IntRange>)

  type Schema = seq<Descriptor>

  datatype Value =
    | Number(n: int)
    | Text(s: seq<byte>)
    | Data(b: seq<byte>)
    | Nested(m: Message)

  datatype Slot = One(v: Option<Value>) | Many(vs: seq<Value>)

  datatype Unknown = Unknown(tag: nat, wire: nat, data: seq<byte>)

  datatype Message = Message(desc: nat, slots: seq<Slot>, unknown: seq<Unknown>)

  /** is_packable_type */
  predicate Packable(t: Type) {
    !t.STRING? && !t.BYTES? && !t.MESSAGE?
  }

  predicate Is32(t: Type) { t.SFIXED32? || t.FIXED32? || t.FLOAT? }

  predicate Is64(t: Type) { t.SFIXED64? || t.FIXED64? || t.DOUBLE? }

  function WireOf(t: Type): nat {
    if Is32(t) then BITS32 else if Is64(t) then BITS64 else if Packable(t) then VARINT else PREFIXED
  }

  function Ids(fields: seq<Field>): (ids: seq<int>)
    ensures |ids| == |fields| && forall i :: 0 <= i < |ids| ==> ids[i] == fields[i].id
  {
    seq(|fields|, i requires 0 <= i < |fields| => fields[i].id)
  }

  function FieldsOf(schema: Schema, m: Message): seq<Field> {
    if m.desc < |schema| then schema[m.desc].fields else []
  }

  // ---------------------------------------------------------------------------
  // The encoding
  // ---------------------------------------------------------------------------

  /** The unsigned number whose varint encodes n. */
  function VarintOf(t: Type, n: int): nat {
    match t
    case SINT32 => Zigzag(n, TWO32)
    case SINT64 => Zigzag(n, TWO64)
    case UINT32 => Wrap(n, TWO32)
    case BOOL => if n != 0 then 1 else 0
    case _ => Wrap(n, TWO64)
  }

  function NumberBytes(t: Type, n: int): seq<byte> {
    if Is32(t) then LittleEndian(4, Wrap(n, TWO32))
    else if Is64(t) then LittleEndian(8, Wrap(n, TWO64))
    else Varint(VarintOf(t, n))
  }

  function Prefixed(b: seq<byte>): seq<byte> {
    Varint(|b|) + b
  }

  function TagBytes(id: nat, wire: nat): seq<byte> {
    Varint(8 * id + wire)
  }

  function ValueBytes(schema: Schema, t: Type, v: Value): seq<byte>
    decreases v, 0
  {
    match v
    case Number(n) => NumberBytes(t, n)
    case Text(s) => Prefixed(s)
    case Data(b) => Prefixed(b)
    case Nested(m) => Prefixed(MessageBytes(schema, m))
  }

  /** The first k elements of a packed field, one after the other. */
  function PackedBytes(schema: Schema, t: Type, vs: seq<Value>, k: nat): seq<byte>
    requires k <= |vs|
    decreases vs, k
  {
    if k == 0 then [] else PackedBytes(schema, t, vs, k - 1) + ValueBytes(schema, t, vs[k - 1])
  }

  /** The first k elements of a repeated field that is not packed, each under its own tag. */
  function RepeatedBytes(schema: Schema, f: Field, vs: seq<Value>, k: nat): seq<byte>
    requires k <= |vs|
    decreases vs, k
  {
    if k == 0 then []
    else RepeatedBytes(schema, f, vs, k - 1) + (TagBytes(f.id, WireOf(f.typ)) + ValueBytes(schema, f.typ, vs[k - 1]))
  }

  function FieldBytes(schema: Schema, f: Field, slot: Slot): seq<byte>
    decreases slot, 0
  {
    match slot
    case One(None) => []
    case One(Some(v)) => TagBytes(f.id, WireOf(f.typ)) + ValueBytes(schema, f.typ, v)
    case Many(vs) =>
      if !f.packed then RepeatedBytes(schema, f, vs, |vs|)
      else if vs == [] then []
      else TagBytes(f.id, PREFIXED) + Prefixed(PackedBytes(schema, f.typ, vs, |vs|))
  }

  /** The first k fields of a message. */
  function FieldsBytes(schema: Schema, m: Message, k: nat): seq<byte>
    requires k <= |m.slots| && k <= |FieldsOf(schema, m)|
    decreases m, k
  {
    if k == 0 then []
    else FieldsBytes(schema, m, k - 1) + FieldBytes(schema, FieldsOf(schema, m)[k - 1], m.slots[k - 1])
  }

  function UnknownBytes(us: seq<Unknown>, k: nat): seq<byte>
    requires k <= |us|
  {
    if k == 0 then [] else UnknownBytes(us, k - 1) + (TagBytes(us[k - 1].tag, us[k - 1].wire) + us[k - 1].data)
  }

  function MessageBytes(schema: Schema, m: Message): seq<byte>
    decreases m, |m.slots| + 1
  {
    FieldsBytes(schema, m, FieldCount(schema, m)) + UnknownBytes(m.unknown, |m.unknown|)
  }

  function FieldCount(schema: Schema, m: Message): (n: nat)
    ensures n <= |m.slots| && n <= |FieldsOf(schema, m)|
  {
    if |m.slots| <= |FieldsOf(schema, m)| then |m.slots| else |FieldsOf(schema, m)|
  }

  // ---------------------------------------------------------------------------
  // Well-formed messages
  // ---------------------------------------------------------------------------

  predicate InRange(t: Type, n: int) {
    match t
    case INT32 => -0x8000_0000 <= n < 0x8000_0000
    case SINT32 => -0x8000_0000 <= n < 0x8000_0000
    case SFIXED32 => -0x8000_0000 <= n < 0x8000_0000
    case ENUM => -0x8000_0000 <= n < 0x8000_0000
    case UINT32 => 0 <= n < TWO32
    case FIXED32 => 0 <= n < TWO32
    case FLOAT => 0 <= n < TWO32
    case INT64 => -0x8000_0000_0000_0000 <= n < 0x8000_0000_0000_0000
    case SINT64 => -0x8000_0000_0000_0000 <= n < 0x8000_0000_0000_0000
    case SFIXED64 => -0x8000_0000_0000_0000 <= n < 0x8000_0000_0000_0000
    case UINT64 => 0 <= n < TWO64
    case FIXED64 => 0 <= n < TWO64
    case DOUBLE => 0 <= n < TWO64
    case BOOL => 0 <= n <= 1
    case _ => false
  }

  ghost predicate ValidSchema(schema: Schema) {
    forall d :: 0 <= d < |schema| ==> ValidDescriptor(schema, schema[d])
  }

  ghost predicate ValidDescriptor(schema: Schema, d: Descriptor) {
    && Describes(d.nRanges, d.ranges, Ids(d.fields))
    && forall i :: 0 <= i < |d.fields| ==> ValidField(schema, d.fields[i])
  }

  predicate ValidField(schema: Schema, f: Field) {
    && 0 < f.id < 0x2000_0000
    && (f.typ.MESSAGE? ==> f.typ.desc < |schema|)
    && (f.packed ==> f.rule.REPEATED? && Packable(f.typ))
    && (f.default.Some? ==> f.rule.REQUIRED? && !f.typ.MESSAGE?)
  }

  /** A number, string or message that fits the field type, with no length that would wrap. */
  ghost predicate ValidValue(schema: Schema, t: Type, v: Value)
    decreases v, 0
  {
    match v
    case Number(n) => InRange(t, n)
    case Text(s) => t.STRING? && 0 !in s && |s| <= MAX_LENGTH
    case Data(b) => t.BYTES? && |b| <= MAX_LENGTH
    case Nested(m) =>
      && t.MESSAGE?
      && m.desc == t.desc
      && ValidMessage(schema, m)
      && |MessageBytes(schema, m)| <= MAX_LENGTH
      && FitsSlabs(schema, m)
  }

  /** The value or values of a field; the counters of the packers are 32 bits wide. */
  ghost predicate ValidSlot(schema: Schema, f: Field, slot: Slot)
    decreases slot, 0
  {
    match slot
    case One(None) => f.rule.OPTIONAL? || f.rule.ONEOF?
    case One(Some(v)) => !f.rule.REPEATED? && ValidValue(schema, f.typ, v)
    case Many(vs) =>
      && f.rule.REPEATED? && |vs| < TWO32
      && (forall i :: 0 <= i < |vs| ==> ValidValue(schema, f.typ, vs[i]))
      && (f.packed ==> |PackedBytes(schema, f.typ, vs, |vs|)| <= MAX_LENGTH)
  }

  /** At most one member of a oneof is set. */
  predicate Exclusive(fields: seq<Field>, slots: seq<Slot>)
    requires |fields| == |slots|
  {
    forall i, j :: 0 <= i < j < |fields| && fields[i].rule.ONEOF? && fields[i].rule == fields[j].rule ==>
                     slots[i] == One(None) || slots[j] == One(None)
  }

  /** The number of tagged records a field is written as. */
  function RecordCount(f: Field, slot: Slot): nat {
    match slot
    case One(None) => 0
    case One(Some(_)) => 1
    case Many(vs) => if f.packed && |vs| > 1 then 1 else |vs|
  }

  function RecordCounts(schema: Schema, m: Message, k: nat): nat
    requires k <= |m.slots| && k <= |FieldsOf(schema, m)|
  {
    if k == 0 then 0
    else RecordCounts(schema, m, k - 1) + RecordCount(FieldsOf(schema, m)[k - 1], m.slots[k - 1])
  }

  /** The members of the message fit the slabs of a scan. */
  predicate FitsSlabs(schema: Schema, m: Message) {
    RecordCounts(schema, m, FieldCount(schema, m)) + |m.unknown| <= SLAB_CAPACITY
  }

  ghost predicate ValidMessage(schema: Schema, m: Message)
    decreases m, |m.slots| + 1
  {
    && m.desc < |schema|
    && |m.slots| == |schema[m.desc].fields|
    && (forall i :: 0 <= i < |m.slots| ==> ValidSlot(schema, schema[m.desc].fields[i], m.slots[i]))
    && Exclusive(schema[m.desc].fields, m.slots)
    && (forall i :: 0 <= i < |m.unknown| ==> ValidUnknown(schema[m.desc].fields, m.unknown[i]))
  }

  /** An unknown field has a number the descriptor lacks and a payload its wire type delimits. */
  predicate ValidUnknown(fields: seq<Field>, u: Unknown) {
    && u.tag < TWO32
    && u.tag !in Ids(fields)
    && MemberLength(u.wire, u.data) == |u.data| > 0
  }

  // ---------------------------------------------------------------------------
  // Delimiting a member on the wire
  // ---------------------------------------------------------------------------

  /** scan_length_prefixed_data, on lengths whose sum with the prefix does not wrap 32 bits; 0 is an error. */
  function ScanPrefixed(b: seq<byte>): (n: nat)
    ensures n <= |b|
  {
    var prefix := VarintLength(b, 5);
    if prefix == 0 then 0
    else
      var n := prefix + Groups(b[..prefix]) % TWO32;
      if n > |b| then 0 else n
  }

  /** The length of the member at the start of b, prefix included; 0 is an error. */
  function MemberLength(wire: nat, b: seq<byte>): (n: nat)
    ensures n <= |b|
  {
    if wire == VARINT then VarintLength(b, 10)
    else if wire == BITS64 then (if |b| < 8 then 0 else 8)
    else if wire == PREFIXED then ScanPrefixed(b)
    else if wire == BITS32 then (if |b| < 4 then 0 else 4)
    else 0
  }

  /** A member delimits itself whatever follows. */
  lemma MemberLengthStable(wire: nat, b: seq<byte>, rest: seq<byte>)
    requires MemberLength(wire, b) == |b| > 0
    ensures MemberLength(wire, b + rest) == |b|
  {
    if wire == VARINT {
      VarintLengthStable(b, rest, 10);
    } else if wire == PREFIXED {
      VarintLengthStable(b, rest, 5);
      assert (b + rest)[..VarintLength(b, 5)] == b[..VarintLength(b, 5)];
    }
  }

  lemma PrefixedDelimited(b: seq<byte>)
    requires |b| <= MAX_LENGTH
    ensures VarintLength(Prefixed(b), 5) == |Varint(|b|)|
    ensures MemberLength(PREFIXED, Prefixed(b)) == |Prefixed(b)| > 0
  {
    Uint32SizeIsLength(|b|);
    VarintDelimited(|b|, b, 5);
    VarintInverse(|b|);
    assert Prefixed(b)[..|Varint(|b|)|] == Varint(|b|);
  }

  lemma VarintOfBound(t: Type, n: int)
    requires InRange(t, n) && WireOf(t) == VARINT
    ensures VarintOf(t, n) < TWO64
    ensures !t.INT32? && !t.ENUM? && !t.INT64? && !t.UINT64? && !t.SINT64? ==> VarintOf(t, n) < TWO32
  {
    if t.SINT32? { ZigzagInverse(n, TWO32); }
    if t.SINT64? { ZigzagInverse(n, TWO64); }
  }

  lemma NumberDelimited(t: Type, n: int)
    requires InRange(t, n)
    ensures MemberLength(WireOf(t), NumberBytes(t, n)) == |NumberBytes(t, n)| > 0
  {
    hide InRange, VarintOf, Varint, Wrap, LittleEndian;
    if WireOf(t) == VARINT {
      VarintOfBound(t, n);
      Uint64SizeIsLength(VarintOf(t, n));
      VarintDelimited(VarintOf(t, n), [], 10);
      assert Varint(VarintOf(t, n)) + [] == Varint(VarintOf(t, n));
    }
    NumbersAreWired(t, n);
  }

  lemma NumbersAreWired(t: Type, n: int)
    requires InRange(t, n)
    ensures WireOf(t) == VARINT || WireOf(t) == BITS32 || WireOf(t) == BITS64
  {
  }

  /** Every value is delimited by the wire type its tag announces. */
  lemma ValueDelimited(schema: Schema, t: Type, v: Value)
    requires ValidValue(schema, t, v)
    ensures MemberLength(WireOf(t), ValueBytes(schema, t, v)) == |ValueBytes(schema, t, v)| > 0
  {
    hide MemberLength, NumberBytes, InRange, Prefixed, ValidMessage, MessageBytes;
    match v
    case Number(n) => NumberDelimited(t, n);
    case Text(s) => PrefixedDelimited(s);
    case Data(b) => PrefixedDelimited(b);
    case Nested(m) => PrefixedDelimited(MessageBytes(schema, m));
  }

  // ---------------------------------------------------------------------------
  // protobuf_c_message_get_packed_size
  // ---------------------------------------------------------------------------

  /** int32_size, sint32_size, ... by field type. */
  function NumberSize(t: Type, n: int): nat {
    match t
    case SINT32 => Uint32Size(Zigzag(n, TWO32))
    case ENUM => if n < 0 then 10 else Uint32Size(n)
    case INT32 => if n < 0 then 10 else Uint32Size(n)
    case UINT32 => Uint32Size(Wrap(n, TWO32))
    case SINT64 => Uint64Size(Zigzag(n, TWO64))
    case INT64 => Uint64Size(Wrap(n, TWO64))
    case UINT64 => Uint64Size(Wrap(n, TWO64))
    case BOOL => 1
    case _ => if Is32(t) then 4 else 8
  }

  /** The value part of required_field_get_packed_size. */
  function ValueSize(schema: Schema, t: Type, v: Value): nat
    decreases v, 0
  {
    match v
    case Number(n) => NumberSize(t, n)
    case Text(s) => Uint32Size(|s|) + |s|
    case Data(b) => Uint32Size(|b|) + |b|
    case Nested(m) => var n := MessageSize(schema, m); Uint32Size(n) + n
  }

  function ElementsSize(schema: Schema, t: Type, vs: seq<Value>, k: nat): nat
    requires k <= |vs|
    decreases vs, k
  {
    if k == 0 then 0 else ElementsSize(schema, t, vs, k - 1) + ValueSize(schema, t, vs[k - 1])
  }

  /** required_, optional_, oneof_ and repeated_field_get_packed_size. */
  function FieldSize(schema: Schema, f: Field, slot: Slot): nat
    decreases slot, 0
  {
    match slot
    case One(None) => 0
    case One(Some(v)) => TagSize(f.id) + ValueSize(schema, f.typ, v)
    case Many(vs) =>
      if vs == [] then 0
      else
        var rv := ElementsSize(schema, f.typ, vs, |vs|);
        (if f.packed then TagSize(f.id) + Uint32Size(rv) else TagSize(f.id) * |vs|) + rv
  }

  function FieldsSize(schema: Schema, m: Message, k: nat): nat
    requires k <= |m.slots| && k <= |FieldsOf(schema, m)|
    decreases m, k
  {
    if k == 0 then 0
    else FieldsSize(schema, m, k - 1) + FieldSize(schema, FieldsOf(schema, m)[k - 1], m.slots[k - 1])
  }

  function UnknownSize(us: seq<Unknown>, k: nat): nat
    requires k <= |us|
  {
    if k == 0 then 0 else UnknownSize(us, k - 1) + (TagSize(us[k - 1].tag) + |us[k - 1].data|)
  }

  /** protobuf_c_message_get_packed_size */
  function MessageSize(schema: Schema, m: Message): nat
    decreases m, |m.slots| + 1
  {
    FieldsSize(schema, m, FieldCount(schema, m)) + UnknownSize(m.unknown, |m.unknown|)
  }

  lemma NumberSizeIsLength(t: Type, n: int)
    requires InRange(t, n)
    ensures NumberSize(t, n) == |NumberBytes(t, n)| <= 10
  {
    hide Varint, Zigzag, Wrap, LittleEndian, Uint32Size, Uint64Size;
    if t.BOOL? {
      BoolSize(n);
    } else if WireOf(t) == VARINT {
      VarintOfBound(t, n);
      Uint64SizeIsLength(VarintOf(t, n));
      if (t.INT32? || t.ENUM?) && n < 0 {
        NegativeInt32(n);
      } else if VarintOf(t, n) < TWO32 {
        Uint32SizeIsLength(VarintOf(t, n));
      }
      if (t.INT32? || t.ENUM?) && n >= 0 { WrapSmall(n); }
    }
  }

  lemma BoolSize(n: int)
    requires 0 <= n <= 1
    ensures |NumberBytes(BOOL, n)| == 1
  {
  }

  lemma WrapSmall(n: int)
    requires 0 <= n < 0x8000_0000
    ensures Wrap(n, TWO64) == n && |Varint(n)| == Uint32Size(n)
  {
    Uint32SizeIsLength(n);
  }

  lemma {:induction false} ValueSizeIsLength(schema: Schema, t: Type, v: Value)
    requires ValidSchema(schema) && ValidValue(schema, t, v)
    ensures ValueSize(schema, t, v) == |ValueBytes(schema, t, v)|
    decreases v, 0
  {
    match v
    case Number(n) => NumberSizeIsLength(t, n);
    case Text(s) => Uint32SizeIsLength(|s|);
    case Data(b) => Uint32SizeIsLength(|b|);
    case Nested(m) =>
      MessageSizeIsLength(schema, m);
      Uint32SizeIsLength(MessageSize(schema, m));
  }

  lemma {:induction false} ElementsSizeIsLength(schema: Schema, f: Field, vs: seq<Value>, k: nat)
    requires ValidSchema(schema) && ValidField(schema, f) && k <= |vs|
    requires forall i :: 0 <= i < |vs| ==> ValidValue(schema, f.typ, vs[i])
    ensures ElementsSize(schema, f.typ, vs, k) == |PackedBytes(schema, f.typ, vs, k)|
    ensures TagSize(f.id) * k + ElementsSize(schema, f.typ, vs, k) == |RepeatedBytes(schema, f, vs, k)|
    decreases vs, k
  {
    hide ValueSize, ValueBytes, TagSize, ValidValue, ValidSchema;
    if k != 0 {
      ElementsSizeIsLength(schema, f, vs, k - 1);
      ValueSizeIsLength(schema, f.typ, vs[k - 1]);
      TagSizeIsLength(f.id, WireOf(f.typ));
    }
  }

  lemma {:induction false} FieldSizeIsLength(schema: Schema, f: Field, slot: Slot)
    requires ValidSchema(schema) && ValidField(schema, f) && ValidSlot(schema, f, slot)
    ensures FieldSize(schema, f, slot) == |FieldBytes(schema, f, slot)|
    decreases slot, 0
  {
    match slot
    case One(None) =>
    case One(Some(v)) =>
      ValueSizeIsLength(schema, f.typ, v);
      TagSizeIsLength(f.id, WireOf(f.typ));
    case Many(vs) =>
      ElementsSizeIsLength(schema, f, vs, |vs|);
      TagSizeIsLength(f.id, PREFIXED);
      if f.packed {
        Uint32SizeIsLength(ElementsSize(schema, f.typ, vs, |vs|));
      }
  }

  lemma {:induction false} FieldsSizeIsLength(schema: Schema, m: Message, k: nat)
    requires ValidSchema(schema) && ValidMessage(schema, m) && k <= |m.slots|
    ensures FieldsSize(schema, m, k) == |FieldsBytes(schema, m, k)|
    decreases m, k
  {
    if k != 0 {
      FieldsSizeIsLength(schema, m, k - 1);
      assert ValidDescriptor(schema, schema[m.desc]);
      FieldSizeIsLength(schema, schema[m.desc].fields[k - 1], m.slots[k - 1]);
    }
  }

  lemma UnknownSizeIsLength(fields: seq<Field>, us: seq<Unknown>, k: nat)
    requires k <= |us| && forall i :: 0 <= i < |us| ==> ValidUnknown(fields, us[i])
    ensures UnknownSize(us, k) == |UnknownBytes(us, k)|
  {
    hide TagSize, VarintLength, ScanPrefixed;
    if k != 0 {
      UnknownSizeIsLength(fields, us, k - 1);
      assert ValidUnknown(fields, us[k - 1]);
      TagSizeIsLength(us[k - 1].tag, us[k - 1].wire);
    }
  }

  /** The predicted size is the number of bytes written. */
  lemma {:induction false} MessageSizeIsLength(schema: Schema, m: Message)
    requires ValidSchema(schema) && ValidMessage(schema, m)
    ensures MessageSize(schema, m) == |MessageBytes(schema, m)|
    decreases m, |m.slots| + 1
  {
    FieldsSizeIsLength(schema, m, |m.slots|);
    UnknownSizeIsLength(schema[m.desc].fields, m.unknown, |m.unknown|);
  }
}
