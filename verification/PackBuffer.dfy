/**
protobuf_c_message_pack_to_buffer: the second packer, which appends pieces to a
growing buffer and counts the payload of a packed field before writing it.
*/
module PackBuffer {
  import opened Options
  import opened Bytes
  import opened Varints
  import opened Messages
  import opened PackArray

  /** ProtobufCBufferSimple */
  class SimpleBuffer {
    var data: array<byte>
    var len: nat

    ghost predicate Valid()
      reads this
    {
      len <= data.Length && data.Length > 0
    }

    function Contents(): seq<byte>
      requires Valid()
      reads this, data
    {
      data[..len]
    }

    constructor (scratch: nat)
      requires scratch > 0
      ensures Valid() && fresh(data) && Contents() == []
    {
      data := new byte[scratch];
      len := 0;
    }

    /** protobuf_c_buffer_simple_append: doubles until the new bytes fit. */
    method Append(b: seq<byte>)
      requires Valid()
      modifies this, data
      ensures Valid() && (data == old(data) || fresh(data))
      ensures Contents() == old(Contents()) + b
    {
      var newLen := len + |b|;
      if newLen > data.Length {
        var newAlloced := data.Length * 2;
        while newAlloced < newLen
          invariant newAlloced > 0
        {
          newAlloced := newAlloced + newAlloced;
        }
        var newData := new byte[newAlloced];
        Copy(newData, 0, data[..len]);
        assert newData[..len] == data[..len];
        data := newData;
      }
      ghost var before := data[..];
      Copy(data, len, b);
      assert Splice(before, len, b)[..newLen] == before[..len] + b;
      len := newLen;
    }
  }

  /** A tag and a number, put together in the scratch array and appended. */
  method NumberToBuffer(f: Field, n: int, buffer: SimpleBuffer) returns (rv: nat)
    requires f.id < TWO32 && InRange(f.typ, n) && buffer.Valid()
    modifies buffer, buffer.data
    ensures buffer.Valid() && (buffer.data == old(buffer.data) || fresh(buffer.data))
    ensures buffer.Contents() == old(buffer.Contents()) + (TagBytes(f.id, WireOf(f.typ)) + NumberBytes(f.typ, n))
    ensures rv == |TagBytes(f.id, WireOf(f.typ)) + NumberBytes(f.typ, n)|
  {
    TagSizeIsLength(f.id, WireOf(f.typ));
    NumberSizeIsLength(f.typ, n);
    var scratch := new byte[20];
    ghost var blank := scratch[..];
    rv := TagPack(f.id, WireOf(f.typ), scratch, 0);
    var more := NumberPack(f.typ, n, scratch, rv);
    SpliceSplice(blank, 0, TagBytes(f.id, WireOf(f.typ)), NumberBytes(f.typ, n));
    rv := rv + more;
    SpliceRead(blank, 0, TagBytes(f.id, WireOf(f.typ)) + NumberBytes(f.typ, n));
    assert scratch[0..rv] == scratch[..rv];
    buffer.Append(scratch[..rv]);
  }

  /** A tag and a length, then the payload. */
  method PrefixedToBuffer(id: nat, payload: seq<byte>, buffer: SimpleBuffer) returns (rv: nat)
    requires id < TWO32 && |payload| <= MAX_LENGTH && buffer.Valid()
    modifies buffer, buffer.data
    ensures buffer.Valid() && (buffer.data == old(buffer.data) || fresh(buffer.data))
    ensures buffer.Contents() == old(buffer.Contents()) + (TagBytes(id, PREFIXED) + Prefixed(payload))
    ensures rv == |TagBytes(id, PREFIXED) + Prefixed(payload)|
  {
    rv := HeaderToBuffer(id, |payload|, buffer);
    ghost var before := buffer.Contents();
    buffer.Append(payload);
    assert old(buffer.Contents()) + (TagBytes(id, PREFIXED) + Varint(|payload|)) + payload
        == old(buffer.Contents()) + (TagBytes(id, PREFIXED) + (Varint(|payload|) + payload));
    rv := rv + |payload|;
  }

  method HeaderToBuffer(id: nat, n: nat, buffer: SimpleBuffer) returns (rv: nat)
    requires id < TWO32 && n < TWO32 && buffer.Valid()
    modifies buffer, buffer.data
    ensures buffer.Valid() && (buffer.data == old(buffer.data) || fresh(buffer.data))
    ensures buffer.Contents() == old(buffer.Contents()) + (TagBytes(id, PREFIXED) + Varint(n))
    ensures rv == |TagBytes(id, PREFIXED) + Varint(n)|
  {
    TagSizeIsLength(id, PREFIXED);
    Uint32SizeIsLength(n);
    var scratch := new byte[20];
    ghost var blank := scratch[..];
    rv := TagPack(id, PREFIXED, scratch, 0);
    var more := Uint32Pack(n, scratch, rv);
    SpliceSplice(blank, 0, TagBytes(id, PREFIXED), Varint(n));
    rv := rv + more;
    SpliceRead(blank, 0, TagBytes(id, PREFIXED) + Varint(n));
    assert scratch[0..rv] == scratch[..rv];
    buffer.Append(scratch[..rv]);
  }

  /** required_field_pack_to_buffer; a nested message goes through a buffer of its own. */
  method RequiredToBuffer(schema: Schema, f: Field, v: Value, buffer: SimpleBuffer) returns (rv: nat)
    requires ValidSchema(schema) && ValidField(schema, f) && ValidValue(schema, f.typ, v)
    requires buffer.Valid()
    modifies buffer, buffer.data
    ensures buffer.Valid() && (buffer.data == old(buffer.data) || fresh(buffer.data))
    ensures buffer.Contents() == old(buffer.Contents()) + (TagBytes(f.id, WireOf(f.typ)) + ValueBytes(schema, f.typ, v))
    ensures rv == |TagBytes(f.id, WireOf(f.typ)) + ValueBytes(schema, f.typ, v)|
    decreases v, 1
  {
    match v {
      case Number(n) => rv := NumberToBuffer(f, n, buffer);
      case Text(s) => rv := PrefixedToBuffer(f.id, s, buffer);
      case Data(b) => rv := PrefixedToBuffer(f.id, b, buffer);
      case Nested(m) => rv := NestedToBuffer(schema, f, m, buffer);
    }
  }

  lemma SumWraps(a: nat, b: nat)
    ensures (a % TWO32 + b) % TWO32 == (a + b) % TWO32
  {
  }

  /**
  The bytes a field is said to have added: those it has, but for a repeated field that
  is not packed, whose sum is 32 bits wide.
  */
  function Announced(schema: Schema, f: Field, slot: Slot): nat {
    var n := |FieldBytes(schema, f, slot)|;
    if slot.Many? && !f.packed then n % TWO32 else n
  }

  function AnnouncedFields(schema: Schema, m: Message, k: nat): nat
    requires k <= |m.slots| && k <= |FieldsOf(schema, m)|
  {
    if k == 0 then 0
    else AnnouncedFields(schema, m, k - 1) + Announced(schema, FieldsOf(schema, m)[k - 1], m.slots[k - 1])
  }

  /** What a message is said to have added is what it has added exactly when no such sum wraps. */
  lemma {:induction false} AnnouncedIsLength(schema: Schema, m: Message, k: nat)
    requires k <= |m.slots| && k <= |FieldsOf(schema, m)|
    ensures AnnouncedFields(schema, m, k) <= |FieldsBytes(schema, m, k)|
    ensures AnnouncedFields(schema, m, k) == |FieldsBytes(schema, m, k)| <==>
            forall i :: 0 <= i < k ==> SumFits(schema, FieldsOf(schema, m)[i], m.slots[i])
  {
    hide FieldBytes;
    if k > 0 {
      AnnouncedIsLength(schema, m, k - 1);
      var f, slot := FieldsOf(schema, m)[k - 1], m.slots[k - 1];
      assert Announced(schema, f, slot) <= |FieldBytes(schema, f, slot)|;
      assert Announced(schema, f, slot) == |FieldBytes(schema, f, slot)| <==> SumFits(schema, f, slot);
    }
  }

  predicate SumFits(schema: Schema, f: Field, slot: Slot) {
    slot.Many? && !f.packed ==> |FieldBytes(schema, f, slot)| < TWO32
  }

  /** A message that fits 32 bits is announced as it is. */
  lemma AnnouncedWhole(schema: Schema, m: Message)
    requires ValidMessage(schema, m) && |MessageBytes(schema, m)| < TWO32
    ensures AnnouncedFields(schema, m, |m.slots|) + |UnknownBytes(m.unknown, |m.unknown|)| == |MessageBytes(schema, m)|
  {
    hide FieldBytes, UnknownBytes;
    AnnouncedIsLength(schema, m, |m.slots|);
    forall i | 0 <= i < |m.slots| ensures SumFits(schema, FieldsOf(schema, m)[i], m.slots[i]) {
      FieldInside(schema, m, i, |m.slots|);
    }
  }

  lemma {:induction false} FieldInside(schema: Schema, m: Message, i: nat, k: nat)
    requires i < k <= |m.slots| && k <= |FieldsOf(schema, m)|
    ensures |FieldBytes(schema, FieldsOf(schema, m)[i], m.slots[i])| <= |FieldsBytes(schema, m, k)|
  {
    hide FieldBytes;
    if i < k - 1 { FieldInside(schema, m, i, k - 1); }
  }

  method NestedToBuffer(schema: Schema, f: Field, m: Message, buffer: SimpleBuffer) returns (rv: nat)
    requires ValidSchema(schema) && f.id < TWO32 && f.typ.MESSAGE? && ValidMessage(schema, m)
    requires |MessageBytes(schema, m)| <= MAX_LENGTH && buffer.Valid()
    modifies buffer, buffer.data
    ensures buffer.Valid() && (buffer.data == old(buffer.data) || fresh(buffer.data))
    ensures buffer.Contents() == old(buffer.Contents()) + (TagBytes(f.id, PREFIXED) + Prefixed(MessageBytes(schema, m)))
    ensures rv == |TagBytes(f.id, PREFIXED) + Prefixed(MessageBytes(schema, m))|
    decreases m, 2
  {
    hide ValidSchema, ValidMessage, MessageBytes, AnnouncedFields, UnknownBytes, TagBytes, Varint;
    var simple := new SimpleBuffer(256);
    var sublen := MessageToBuffer(schema, m, simple);
    AnnouncedWhole(schema, m);
    assert [] + MessageBytes(schema, m) == MessageBytes(schema, m);
    assert simple.Contents()[..sublen] == MessageBytes(schema, m);
    rv := PrefixedToBuffer(f.id, simple.Contents()[..sublen], buffer);
  }

  lemma Regrouped(a: seq<byte>, b: seq<byte>, c: seq<byte>)
    ensures a + b + c == a + (b + c)
  {
  }

  /** get_packed_payload_length */
  method PayloadLength(schema: Schema, t: Type, vs: seq<Value>) returns (rv: nat)
    requires Packable(t) && forall i :: 0 <= i < |vs| ==> ValidValue(schema, t, vs[i])
    ensures rv == |PackedBytes(schema, t, vs, |vs|)|
  {
    if Is32(t) {
      PackedBounds(schema, t, vs, |vs|);
      return |vs| * 4;
    }
    if Is64(t) {
      PackedBounds(schema, t, vs, |vs|);
      return |vs| * 8;
    }
    rv := 0;
    for i := 0 to |vs|
      invariant rv == |PackedBytes(schema, t, vs, i)|
    {
      PackableIsNumber(schema, t, vs[i]);
      NumberSizeIsLength(t, vs[i].n);
      rv := rv + NumberSize(t, vs[i].n);
    }
  }

  /** pack_buffer_packed_payload */
  method PayloadToBuffer(schema: Schema, t: Type, vs: seq<Value>, buffer: SimpleBuffer) returns (rv: nat)
    requires Packable(t) && forall i :: 0 <= i < |vs| ==> ValidValue(schema, t, vs[i])
    requires buffer.Valid()
    modifies buffer, buffer.data
    ensures buffer.Valid() && (buffer.data == old(buffer.data) || fresh(buffer.data))
    ensures buffer.Contents() == old(buffer.Contents()) + PackedBytes(schema, t, vs, |vs|)
    ensures rv == |PackedBytes(schema, t, vs, |vs|)|
  {
    hide NumberBytes, ValidValue, InRange;
    rv := 0;
    for i := 0 to |vs|
      invariant buffer.Valid() && (buffer.data == old(buffer.data) || fresh(buffer.data))
      invariant buffer.Contents() == old(buffer.Contents()) + PackedBytes(schema, t, vs, i)
      invariant rv == |PackedBytes(schema, t, vs, i)|
    {
      PackableIsNumber(schema, t, vs[i]);
      var n := ElementToBuffer(t, vs[i].n, buffer);
      Regrouped(old(buffer.Contents()), PackedBytes(schema, t, vs, i), NumberBytes(t, vs[i].n));
      rv := rv + n;
    }
  }

  method ElementToBuffer(t: Type, n: int, buffer: SimpleBuffer) returns (rv: nat)
    requires InRange(t, n) && buffer.Valid()
    modifies buffer, buffer.data
    ensures buffer.Valid() && (buffer.data == old(buffer.data) || fresh(buffer.data))
    ensures buffer.Contents() == old(buffer.Contents()) + NumberBytes(t, n)
    ensures rv == |NumberBytes(t, n)|
  {
    NumberSizeIsLength(t, n);
    var scratch := new byte[16];
    ghost var blank := scratch[..];
    rv := NumberPack(t, n, scratch, 0);
    SpliceRead(blank, 0, NumberBytes(t, n));
    assert scratch[0..rv] == scratch[..rv];
    buffer.Append(scratch[..rv]);
  }

  /** repeated_field_pack_to_buffer; the length announced for a packed field is the length written. */
  method RepeatedToBuffer(schema: Schema, f: Field, vs: seq<Value>, buffer: SimpleBuffer) returns (rv: nat)
    requires ValidSchema(schema) && ValidField(schema, f) && ValidSlot(schema, f, Many(vs))
    requires buffer.Valid()
    modifies buffer, buffer.data
    ensures buffer.Valid() && (buffer.data == old(buffer.data) || fresh(buffer.data))
    ensures buffer.Contents() == old(buffer.Contents()) + FieldBytes(schema, f, Many(vs))
    ensures rv == Announced(schema, f, Many(vs))
    decreases vs, 0
  {
    hide ValidValue, ValueBytes, TagBytes, Varint;
    rv := 0;
    if vs == [] {
      assert FieldBytes(schema, f, Many(vs)) == [];
    } else if f.packed {
      var payloadLen := PayloadLength(schema, f.typ, vs);
      rv := HeaderToBuffer(f.id, payloadLen, buffer);
      var tmp := PayloadToBuffer(schema, f.typ, vs, buffer);
      assert tmp == payloadLen;
      ghost var payload := PackedBytes(schema, f.typ, vs, |vs|);
      assert old(buffer.Contents()) + (TagBytes(f.id, PREFIXED) + Varint(|payload|)) + payload
          == old(buffer.Contents()) + (TagBytes(f.id, PREFIXED) + (Varint(|payload|) + payload));
      rv := rv + payloadLen;
    } else {
      for i := 0 to |vs|
        invariant buffer.Valid() && (buffer.data == old(buffer.data) || fresh(buffer.data))
        invariant buffer.Contents() == old(buffer.Contents()) + RepeatedBytes(schema, f, vs, i)
        invariant rv == |RepeatedBytes(schema, f, vs, i)| % TWO32
      {
        var n := RequiredToBuffer(schema, f, vs[i], buffer);
        Regrouped(old(buffer.Contents()), RepeatedBytes(schema, f, vs, i),
                  TagBytes(f.id, WireOf(f.typ)) + ValueBytes(schema, f.typ, vs[i]));
        SumWraps(|RepeatedBytes(schema, f, vs, i)|, n);
        rv := (rv + n) % TWO32;
      }
    }
  }

  method FieldToBuffer(schema: Schema, f: Field, slot: Slot, buffer: SimpleBuffer) returns (rv: nat)
    requires ValidSchema(schema) && ValidField(schema, f) && ValidSlot(schema, f, slot)
    requires buffer.Valid()
    modifies buffer, buffer.data
    ensures buffer.Valid() && (buffer.data == old(buffer.data) || fresh(buffer.data))
    ensures buffer.Contents() == old(buffer.Contents()) + FieldBytes(schema, f, slot)
    ensures rv == Announced(schema, f, slot)
    decreases slot, 0
  {
    match slot {
      case One(None) => rv := 0;
      case One(Some(v)) => rv := RequiredToBuffer(schema, f, v, buffer);
      case Many(vs) => rv := RepeatedToBuffer(schema, f, vs, buffer);
    }
  }

  method FieldsToBuffer(schema: Schema, m: Message, buffer: SimpleBuffer) returns (rv: nat)
    requires ValidSchema(schema) && ValidMessage(schema, m)
    requires buffer.Valid()
    modifies buffer, buffer.data
    ensures buffer.Valid() && (buffer.data == old(buffer.data) || fresh(buffer.data))
    ensures buffer.Contents() == old(buffer.Contents()) + FieldsBytes(schema, m, |m.slots|)
    ensures rv == AnnouncedFields(schema, m, |m.slots|)
    decreases m, 0
  {
    rv := 0;
    var fields := schema[m.desc].fields;
    assert ValidDescriptor(schema, schema[m.desc]);
    for i := 0 to |fields|
      invariant buffer.Valid() && (buffer.data == old(buffer.data) || fresh(buffer.data))
      invariant buffer.Contents() == old(buffer.Contents()) + FieldsBytes(schema, m, i)
      invariant rv == AnnouncedFields(schema, m, i)
    {
      var n := FieldToBuffer(schema, fields[i], m.slots[i], buffer);
      Regrouped(old(buffer.Contents()), FieldsBytes(schema, m, i), FieldBytes(schema, fields[i], m.slots[i]));
      rv := rv + n;
    }
  }

  method UnknownToBuffer(fields: seq<Field>, us: seq<Unknown>, buffer: SimpleBuffer) returns (rv: nat)
    requires AllValid(fields, us) && buffer.Valid()
    modifies buffer, buffer.data
    ensures buffer.Valid() && (buffer.data == old(buffer.data) || fresh(buffer.data))
    ensures buffer.Contents() == old(buffer.Contents()) + UnknownBytes(us, |us|)
    ensures rv == |UnknownBytes(us, |us|)|
  {
    hide TagBytes, ValidUnknown;
    rv := 0;
    for i := 0 to |us|
      invariant buffer.Valid() && (buffer.data == old(buffer.data) || fresh(buffer.data))
      invariant buffer.Contents() == old(buffer.Contents()) + UnknownBytes(us, i)
      invariant rv == |UnknownBytes(us, i)|
    {
      UnknownIsValid(fields, us, i);
      var n := UnknownFieldToBuffer(fields, us[i], buffer);
      Regrouped(old(buffer.Contents()), UnknownBytes(us, i), TagBytes(us[i].tag, us[i].wire) + us[i].data);
      rv := rv + n;
    }
  }

  method UnknownFieldToBuffer(fields: seq<Field>, u: Unknown, buffer: SimpleBuffer) returns (rv: nat)
    requires ValidUnknown(fields, u) && buffer.Valid()
    modifies buffer, buffer.data
    ensures buffer.Valid() && (buffer.data == old(buffer.data) || fresh(buffer.data))
    ensures buffer.Contents() == old(buffer.Contents()) + (TagBytes(u.tag, u.wire) + u.data)
    ensures rv == |TagBytes(u.tag, u.wire) + u.data|
  {
    TagSizeIsLength(u.tag, u.wire);
    var header := new byte[10];
    ghost var blank := header[..];
    rv := TagPack(u.tag, u.wire, header, 0);
    SpliceRead(blank, 0, TagBytes(u.tag, u.wire));
    assert header[0..rv] == header[..rv];
    buffer.Append(header[..rv]);
    buffer.Append(u.data);
    Regrouped(old(buffer.Contents()), TagBytes(u.tag, u.wire), u.data);
    rv := rv + |u.data|;
  }

  /** protobuf_c_message_pack_to_buffer appends exactly the bytes protobuf_c_message_pack writes. */
  method MessageToBuffer(schema: Schema, m: Message, buffer: SimpleBuffer) returns (rv: nat)
    requires ValidSchema(schema) && ValidMessage(schema, m)
    requires buffer.Valid()
    modifies buffer, buffer.data
    ensures buffer.Valid() && (buffer.data == old(buffer.data) || fresh(buffer.data))
    ensures buffer.Contents() == old(buffer.Contents()) + MessageBytes(schema, m)
    ensures rv == AnnouncedFields(schema, m, |m.slots|) + |UnknownBytes(m.unknown, |m.unknown|)|
    ensures |MessageBytes(schema, m)| < TWO32 ==> rv == |MessageBytes(schema, m)|
    decreases m, 1
  {
    hide FieldsBytes, UnknownBytes, ValidSlot, Exclusive;
    rv := FieldsToBuffer(schema, m, buffer);
    var n := UnknownToBuffer(schema[m.desc].fields, m.unknown, buffer);
    assert old(buffer.Contents()) + MessageBytes(schema, m)
        == old(buffer.Contents()) + FieldsBytes(schema, m, |m.slots|) + UnknownBytes(m.unknown, |m.unknown|);
    rv := rv + n;
    if |MessageBytes(schema, m)| < TWO32 { AnnouncedWhole(schema, m); }
  }
}
