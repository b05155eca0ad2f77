/**
protobuf_c_message_pack into a buffer, in place: tags whose wire type is or-ed in
afterwards, nested messages written one byte ahead and moved once their length is
known, and packed fields whose length prefix is guessed and corrected.
*/
module PackArray {
  import opened Options
  import opened Bytes
  import opened Varints
  import opened Messages

  /** Everything from at on is overwritten by what comes last. */
  lemma SpliceCovers(s: seq<byte>, at: nat, b: seq<byte>, inner: nat, c: seq<byte>)
    requires at <= inner && inner + |c| <= at + |b| <= |s|
    ensures Splice(Splice(s, inner, c), at, b) == Splice(s, at, b)
  {
  }

  /** A payload moved behind its length prefix. */
  lemma SplicePrefix(s: seq<byte>, at: nat, a: seq<byte>, b: seq<byte>)
    requires at + |a| + |b| <= |s|
    ensures Splice(Splice(s, at + |a|, b), at, a) == Splice(s, at, a + b)
  {
  }

  /** Or-ing the wire type into the first byte of the packed field number. */
  lemma TagByte(id: nat, wire: nat)
    requires wire < 8
    ensures Varint(8 * id)[0] + wire < 256
    ensures TagBytes(id, wire) == Varint(8 * id)[0 := Varint(8 * id)[0] + wire]
  {
    hide Varint;
    ThreeBits(id, wire);
    VarintUnroll(8 * id);
    VarintUnroll(8 * id + wire);
  }

  /** The low three bits of 8 * id are free. */
  lemma ThreeBits(id: nat, wire: nat)
    requires wire < 8
    ensures (8 * id + wire) % 128 == 8 * id % 128 + wire < 128
    ensures (8 * id + wire) / 128 == 8 * id / 128
    ensures 8 * id < 128 <==> 8 * id + wire < 128
  {
    var q, r := id / 16, id % 16;
    assert 8 * id == 128 * q + 8 * r;
    ShiftSeven(q, 8 * r);
    ShiftSeven(q, 8 * r + wire);
  }

  /** tag_pack; the wire type is added to the first byte afterwards. */
  method TagPack(id: nat, wire: nat, out: array<byte>, at: nat) returns (rv: nat)
    requires id < TWO32 && wire < 8 && at + |TagBytes(id, wire)| <= out.Length
    modifies out
    ensures rv == |TagBytes(id, wire)| && out[..] == Splice(old(out[..]), at, TagBytes(id, wire))
  {
    TagByte(id, wire);
    if id < 0x2000_0000 {
      rv := Uint32Pack(8 * id, out, at);
    } else {
      rv := Uint64Pack(8 * id, out, at);
    }
    out[at] := out[at] + wire;
  }

  /** The pack function of a numeric type. */
  method NumberPack(t: Type, n: int, out: array<byte>, at: nat) returns (rv: nat)
    requires InRange(t, n) && at + |NumberBytes(t, n)| <= out.Length
    modifies out
    ensures rv == |NumberBytes(t, n)| && out[..] == Splice(old(out[..]), at, NumberBytes(t, n))
  {
    if t.INT32? || t.ENUM? {
      rv := Int32Pack(n, out, at);
    } else if t.BOOL? {
      out[at] := if n != 0 then 1 else 0;
      rv := 1;
    } else if Is32(t) || Is64(t) {
      Copy(out, at, NumberBytes(t, n));
      rv := if Is32(t) then 4 else 8;
    } else {
      VarintOfBound(t, n);
      if t.UINT32? || t.SINT32? {
        rv := Uint32Pack(VarintOf(t, n), out, at);
      } else {
        rv := Uint64Pack(VarintOf(t, n), out, at);
      }
    }
  }

  /** string_pack and binary_data_pack */
  method PrefixedPack(b: seq<byte>, out: array<byte>, at: nat) returns (rv: nat)
    requires |b| <= MAX_LENGTH && at + |Prefixed(b)| <= out.Length
    modifies out
    ensures rv == |Prefixed(b)| && out[..] == Splice(old(out[..]), at, Prefixed(b))
  {
    rv := Uint32Pack(|b|, out, at);
    ghost var before := out[..];
    Copy(out, at + rv, b);
    SpliceSplice(old(out[..]), at, Varint(|b|), b);
    rv := rv + |b|;
  }

  /** The value part of required_field_pack, prefixed_message_pack included. */
  method ValuePack(schema: Schema, t: Type, v: Value, out: array<byte>, at: nat) returns (rv: nat)
    requires ValidSchema(schema) && ValidValue(schema, t, v)
    requires at + |ValueBytes(schema, t, v)| <= out.Length
    modifies out
    ensures rv == |ValueBytes(schema, t, v)|
    ensures out[..] == Splice(old(out[..]), at, ValueBytes(schema, t, v))
    decreases v, 0
  {
    match v {
      case Number(n) => rv := NumberPack(t, n, out, at);
      case Text(s) => rv := PrefixedPack(s, out, at);
      case Data(b) => rv := PrefixedPack(b, out, at);
      case Nested(m) =>
        var n := MessagePack(schema, m, out, at + 1);
        rv := InsertLength(out, at, 1, n, old(out[..]), MessageBytes(schema, m));
        rv := rv + n;
    }
  }

  /**
  A payload of n bytes stands guess bytes behind at; move it if its length needs
  another number of bytes, and write the length in front of it.
  */
  method InsertLength(out: array<byte>, at: nat, guess: nat, n: nat, ghost base: seq<byte>, ghost payload: seq<byte>)
    returns (size: nat)
    requires |base| == out.Length && n == |payload| <= MAX_LENGTH
    requires guess <= |Varint(n)| && at + |Prefixed(payload)| <= out.Length
    requires out[..] == Splice(base, at + guess, payload)
    modifies out
    ensures size == |Varint(n)| && out[..] == Splice(base, at, Prefixed(payload))
  {
    hide Varint, Uint32Size, Splice;
    Uint32SizeIsLength(n);
    size := Uint32Size(n);
    ghost var ahead := out[..];
    SpliceRead(base, at + guess, payload);
    if size != guess {
      Memmove(out, at + size, at + guess, n);
    }
    ghost var moved := out[..];
    var written := Uint32Pack(n, out, at);
    LengthInserted(base, at, guess, Varint(n), payload);
  }

  /** What was spliced in is read back, and splicing it in again changes nothing. */
  lemma SpliceRead(s: seq<byte>, at: nat, b: seq<byte>)
    requires at + |b| <= |s|
    ensures Splice(s, at, b)[at..at + |b|] == b
    ensures Splice(Splice(s, at, b), at, b) == Splice(s, at, b)
  {
    assert Splice(s, at, b)[..at] == s[..at];
    assert Splice(s, at, b)[at + |b|..] == s[at + |b|..];
  }

  lemma LengthInserted(base: seq<byte>, at: nat, guess: nat, length: seq<byte>, payload: seq<byte>)
    requires guess <= |length| && at + |length| + |payload| <= |base|
    ensures Splice(Splice(Splice(base, at + guess, payload), at + |length|, payload), at, length)
        == Splice(base, at, length + payload)
  {
    SplicePrefix(Splice(base, at + guess, payload), at, length, payload);
    SpliceCovers(base, at, length + payload, at + guess, payload);
  }

  /** required_field_pack */
  method RequiredPack(schema: Schema, f: Field, v: Value, out: array<byte>, at: nat) returns (rv: nat)
    requires ValidSchema(schema) && ValidField(schema, f) && ValidValue(schema, f.typ, v)
    requires at + |TagBytes(f.id, WireOf(f.typ)) + ValueBytes(schema, f.typ, v)| <= out.Length
    modifies out
    ensures rv == |TagBytes(f.id, WireOf(f.typ)) + ValueBytes(schema, f.typ, v)|
    ensures out[..] == Splice(old(out[..]), at, TagBytes(f.id, WireOf(f.typ)) + ValueBytes(schema, f.typ, v))
    decreases v, 1
  {
    rv := TagPack(f.id, WireOf(f.typ), out, at);
    var n := ValuePack(schema, f.typ, v, out, at + rv);
    SpliceSplice(old(out[..]), at, TagBytes(f.id, WireOf(f.typ)), ValueBytes(schema, f.typ, v));
    rv := rv + n;
  }

  // ---------------------------------------------------------------------------
  // Packed fields
  // ---------------------------------------------------------------------------

  /** get_type_min_size */
  function MinSize(t: Type): nat {
    if Is32(t) then 4 else if Is64(t) then 8 else 1
  }

  lemma {:induction false} PackedBounds(schema: Schema, t: Type, vs: seq<Value>, k: nat)
    requires k <= |vs| && Packable(t)
    requires forall i :: 0 <= i < |vs| ==> ValidValue(schema, t, vs[i])
    ensures MinSize(t) * k <= |PackedBytes(schema, t, vs, k)|
    ensures MinSize(t) > 1 ==> |PackedBytes(schema, t, vs, k)| == MinSize(t) * k
    ensures |PackedBytes(schema, t, vs, k)| <= 10 * k
  {
    if k != 0 {
      PackedBounds(schema, t, vs, k - 1);
      NumberSizeIsLength(t, vs[k - 1].n);
    }
  }

  /** Ten times as many bytes need at most one more group in their count. */
  lemma TenTimes(least: nat, most: nat)
    requires least <= most <= 10 * least && most < TWO32
    ensures Uint32Size(least) <= Uint32Size(most) <= Uint32Size(least) + 1
  {
  }

  /**
  The length prefix of a packed field is right or one byte short when guessed
  from the least possible payload: the assertion in repeated_field_pack holds.
  */
  lemma GuessIsCloseEnough(schema: Schema, f: Field, vs: seq<Value>)
    requires ValidSlot(schema, f, Many(vs)) && f.packed && Packable(f.typ)
    ensures var payload := |PackedBytes(schema, f.typ, vs, |vs|)|;
            var guess := Uint32Size(MinSize(f.typ) * |vs|);
            MinSize(f.typ) * |vs| < TWO32 && (Uint32Size(payload) == guess || Uint32Size(payload) == guess + 1)
  {
    PackedBounds(schema, f.typ, vs, |vs|);
    if MinSize(f.typ) == 1 {
      TenTimes(|vs|, |PackedBytes(schema, f.typ, vs, |vs|)|);
    }
  }

  /** The elements one after the other. */
  method PayloadPack(schema: Schema, t: Type, vs: seq<Value>, out: array<byte>, at: nat) returns (end: nat)
    requires Packable(t) && at + |PackedBytes(schema, t, vs, |vs|)| <= out.Length
    requires forall i :: 0 <= i < |vs| ==> ValidValue(schema, t, vs[i])
    modifies out
    ensures end == at + |PackedBytes(schema, t, vs, |vs|)|
    ensures out[..] == Splice(old(out[..]), at, PackedBytes(schema, t, vs, |vs|))
  {
    hide Splice, NumberBytes, ValueBytes, ValidValue, InRange;
    SpliceNothing(out[..], at);
    end := at;
    for i := 0 to |vs|
      invariant |PackedBytes(schema, t, vs, i)| <= |PackedBytes(schema, t, vs, |vs|)|
      invariant end == at + |PackedBytes(schema, t, vs, i)|
      invariant out[..] == Splice(old(out[..]), at, PackedBytes(schema, t, vs, i))
    {
      PackedGrows(schema, t, vs, i + 1);
      PackableIsNumber(schema, t, vs[i]);
      var n := NumberPack(t, vs[i].n, out, end);
      SpliceSplice(old(out[..]), at, PackedBytes(schema, t, vs, i), ValueBytes(schema, t, vs[i]));
      end := end + n;
    }
  }

  lemma PackableIsNumber(schema: Schema, t: Type, v: Value)
    requires Packable(t) && ValidValue(schema, t, v)
    ensures v.Number? && InRange(t, v.n) && ValueBytes(schema, t, v) == NumberBytes(t, v.n)
  {
  }

  lemma PackedGrows(schema: Schema, t: Type, vs: seq<Value>, k: nat)
    requires k <= |vs|
    ensures |PackedBytes(schema, t, vs, k)| <= |PackedBytes(schema, t, vs, |vs|)|
    decreases |vs| - k
  {
    if k < |vs| { PackedGrows(schema, t, vs, k + 1); }
  }

  /**
  The packed case of repeated_field_pack: guess the prefix, write the payload behind it, shift by
  one if the guess was short.
  */
  method PackedPack(schema: Schema, f: Field, vs: seq<Value>, out: array<byte>, at: nat) returns (rv: nat)
    requires ValidField(schema, f) && f.packed && ValidSlot(schema, f, Many(vs))
    requires at + |FieldBytes(schema, f, Many(vs))| <= out.Length
    modifies out
    ensures rv == |FieldBytes(schema, f, Many(vs))|
    ensures out[..] == Splice(old(out[..]), at, FieldBytes(schema, f, Many(vs)))
  {
    hide Splice, PackedBytes, Varint, ValidValue, MinSize, Uint32Size;
    SpliceNothing(out[..], at);
    if vs == [] {
      return 0;
    }
    ghost var payload := PackedBytes(schema, f.typ, vs, |vs|);
    GuessIsCloseEnough(schema, f, vs);
    Uint32SizeIsLength(|payload|);
    var headerLen := TagPack(f.id, PREFIXED, out, at);
    var lenStart := headerLen;
    ghost var tagged := out[..];
    var lengthSizeMin := Uint32Size(MinSize(f.typ) * |vs|);
    headerLen := headerLen + lengthSizeMin;
    var end := PayloadPack(schema, f.typ, vs, out, at + headerLen);
    var payloadLen := end - (at + headerLen);
    assert Uint32Size(payloadLen) != lengthSizeMin ==> Uint32Size(payloadLen) == lengthSizeMin + 1;
    var actualLengthSize := InsertLength(out, at + lenStart, lengthSizeMin, payloadLen, tagged, payload);
    SpliceSplice(old(out[..]), at, TagBytes(f.id, PREFIXED), Prefixed(payload));
    rv := lenStart + actualLengthSize + payloadLen;
  }

  // ---------------------------------------------------------------------------
  // Fields and messages
  // ---------------------------------------------------------------------------

  lemma RepeatedGrows(schema: Schema, f: Field, vs: seq<Value>, k: nat)
    requires k <= |vs|
    ensures |RepeatedBytes(schema, f, vs, k)| <= |RepeatedBytes(schema, f, vs, |vs|)|
    decreases |vs| - k
  {
    if k < |vs| { RepeatedGrows(schema, f, vs, k + 1); }
  }

  /** repeated_field_pack, not packed. */
  method RepeatedPack(schema: Schema, f: Field, vs: seq<Value>, out: array<byte>, at: nat) returns (rv: nat)
    requires ValidSchema(schema) && ValidField(schema, f) && !f.packed
    requires forall i :: 0 <= i < |vs| ==> ValidValue(schema, f.typ, vs[i])
    requires at + |RepeatedBytes(schema, f, vs, |vs|)| <= out.Length
    modifies out
    ensures rv == |RepeatedBytes(schema, f, vs, |vs|)|
    ensures out[..] == Splice(old(out[..]), at, RepeatedBytes(schema, f, vs, |vs|))
    decreases vs, 0
  {
    hide Splice, ValueBytes, ValidValue, TagBytes;
    SpliceNothing(out[..], at);
    rv := 0;
    for i := 0 to |vs|
      invariant |RepeatedBytes(schema, f, vs, i)| <= |RepeatedBytes(schema, f, vs, |vs|)|
      invariant rv == |RepeatedBytes(schema, f, vs, i)|
      invariant out[..] == Splice(old(out[..]), at, RepeatedBytes(schema, f, vs, i))
    {
      RepeatedGrows(schema, f, vs, i + 1);
      var n := RequiredPack(schema, f, vs[i], out, at + rv);
      SpliceSplice(old(out[..]), at, RepeatedBytes(schema, f, vs, i),
                   TagBytes(f.id, WireOf(f.typ)) + ValueBytes(schema, f.typ, vs[i]));
      rv := rv + n;
    }
  }

  method FieldPack(schema: Schema, f: Field, slot: Slot, out: array<byte>, at: nat) returns (rv: nat)
    requires ValidSchema(schema) && ValidField(schema, f) && ValidSlot(schema, f, slot)
    requires at + |FieldBytes(schema, f, slot)| <= out.Length
    modifies out
    ensures rv == |FieldBytes(schema, f, slot)|
    ensures out[..] == Splice(old(out[..]), at, FieldBytes(schema, f, slot))
    decreases slot, 0
  {
    match slot {
      case One(None) => rv := 0;
      case One(Some(v)) => rv := RequiredPack(schema, f, v, out, at);
      case Many(vs) =>
        if f.packed {
          rv := PackedPack(schema, f, vs, out, at);
        } else {
          rv := RepeatedPack(schema, f, vs, out, at);
        }
    }
  }

  lemma FieldsGrow(schema: Schema, m: Message, k: nat)
    requires k <= FieldCount(schema, m)
    ensures |FieldsBytes(schema, m, k)| <= |FieldsBytes(schema, m, FieldCount(schema, m))|
    decreases FieldCount(schema, m) - k
  {
    if k < FieldCount(schema, m) { FieldsGrow(schema, m, k + 1); }
  }

  lemma UnknownGrows(us: seq<Unknown>, k: nat)
    requires k <= |us|
    ensures |UnknownBytes(us, k)| <= |UnknownBytes(us, |us|)|
    decreases |us| - k
  {
    if k < |us| { UnknownGrows(us, k + 1); }
  }

  method FieldsPack(schema: Schema, m: Message, out: array<byte>, at: nat) returns (rv: nat)
    requires ValidSchema(schema) && ValidMessage(schema, m)
    requires at + |FieldsBytes(schema, m, |m.slots|)| <= out.Length
    modifies out
    ensures rv == |FieldsBytes(schema, m, |m.slots|)|
    ensures out[..] == Splice(old(out[..]), at, FieldsBytes(schema, m, |m.slots|))
    decreases m, 0
  {
    hide Splice, FieldBytes, ValidSlot, Exclusive, ValidField;
    SpliceNothing(out[..], at);
    rv := 0;
    var fields := schema[m.desc].fields;
    assert ValidDescriptor(schema, schema[m.desc]);
    for i := 0 to |fields|
      invariant |FieldsBytes(schema, m, i)| <= |FieldsBytes(schema, m, |m.slots|)|
      invariant rv == |FieldsBytes(schema, m, i)|
      invariant out[..] == Splice(old(out[..]), at, FieldsBytes(schema, m, i))
    {
      FieldsGrow(schema, m, i + 1);
      var n := FieldPack(schema, fields[i], m.slots[i], out, at + rv);
      SpliceSplice(old(out[..]), at, FieldsBytes(schema, m, i), FieldBytes(schema, fields[i], m.slots[i]));
      rv := rv + n;
    }
  }

  method UnknownPack(fields: seq<Field>, us: seq<Unknown>, out: array<byte>, at: nat) returns (rv: nat)
    requires AllValid(fields, us)
    requires at + |UnknownBytes(us, |us|)| <= out.Length
    modifies out
    ensures rv == |UnknownBytes(us, |us|)|
    ensures out[..] == Splice(old(out[..]), at, UnknownBytes(us, |us|))
  {
    hide Splice, TagBytes, ValidUnknown;
    SpliceNothing(out[..], at);
    rv := 0;
    for i := 0 to |us|
      invariant rv == |UnknownBytes(us, i)| <= |UnknownBytes(us, |us|)|
      invariant out[..] == Splice(old(out[..]), at, UnknownBytes(us, i))
    {
      UnknownGrows(us, i + 1);
      UnknownIsValid(fields, us, i);
      var n := UnknownFieldPack(fields, us[i], out, at + rv);
      SpliceSplice(old(out[..]), at, UnknownBytes(us, i), TagBytes(us[i].tag, us[i].wire) + us[i].data);
      rv := rv + n;
    }
  }

  predicate AllValid(fields: seq<Field>, us: seq<Unknown>) {
    forall i :: 0 <= i < |us| ==> ValidUnknown(fields, us[i])
  }

  lemma UnknownIsValid(fields: seq<Field>, us: seq<Unknown>, i: nat)
    requires AllValid(fields, us) && i < |us|
    ensures ValidUnknown(fields, us[i])
  {
  }

  /** unknown_field_pack */
  method UnknownFieldPack(fields: seq<Field>, u: Unknown, out: array<byte>, at: nat) returns (rv: nat)
    requires ValidUnknown(fields, u) && at + |TagBytes(u.tag, u.wire) + u.data| <= out.Length
    modifies out
    ensures rv == |TagBytes(u.tag, u.wire) + u.data|
    ensures out[..] == Splice(old(out[..]), at, TagBytes(u.tag, u.wire) + u.data)
  {
    rv := TagPack(u.tag, u.wire, out, at);
    Copy(out, at + rv, u.data);
    SpliceSplice(old(out[..]), at, TagBytes(u.tag, u.wire), u.data);
    rv := rv + |u.data|;
  }

  /** protobuf_c_message_pack writes exactly the encoding, and nothing else. */
  method MessagePack(schema: Schema, m: Message, out: array<byte>, at: nat) returns (rv: nat)
    requires ValidSchema(schema) && ValidMessage(schema, m)
    requires at + |MessageBytes(schema, m)| <= out.Length
    modifies out
    ensures rv == |MessageBytes(schema, m)|
    ensures out[..] == Splice(old(out[..]), at, MessageBytes(schema, m))
    decreases m, 1
  {
    rv := FieldsPack(schema, m, out, at);
    var n := UnknownPack(schema[m.desc].fields, m.unknown, out, at + rv);
    SpliceSplice(old(out[..]), at, FieldsBytes(schema, m, |m.slots|), UnknownBytes(m.unknown, |m.unknown|));
    rv := rv + n;
  }
}
