/**
The wire format in concrete bytes: groups of seven bits, fixed numbers least
significant byte first, zigzag, keys, and short messages written out.
*/
module WireFormat {
  import opened Options
  import opened Bytes
  import opened Varints
  import opened RangeLookup
  import opened Messages

  // ---------------------------------------------------------------------------
  // Numbers
  // ---------------------------------------------------------------------------

  /** Each byte of a varint adds its low seven bits, the first ones lowest. */
  lemma GroupsAre(b: seq<byte>)
    ensures b == [] ==> Groups(b) == 0
    ensures b != [] ==> Groups(b) == (if b[0] >= 128 then b[0] - 128 else b[0]) + 128 * Groups(b[1..])
  {
  }

  /** A varint has as few bytes as its number allows: the last is zero only if it is the only one. */
  lemma {:induction false} VarintIsShort(v: nat)
    ensures var b := Varint(v);
            && b[|b| - 1] < 128 && (forall i :: 0 <= i < |b| - 1 ==> b[i] >= 128)
            && (b[|b| - 1] == 0 ==> b == [0])
  {
    if v >= 128 {
      VarintIsShort(v / 128);
      var rest := Varint(v / 128);
      assert Varint(v) == [v % 128 + 128] + rest;
    }
  }

  lemma FourLittle(a: byte, b: byte, c: byte, d: byte)
    ensures FromLittleEndian([a, b, c, d])
         == a as int + 0x100 * b as int + 0x1_0000 * c as int + 0x100_0000 * d as int
  {
    assert [a, b, c, d][1..] == [b, c, d] && [b, c, d][1..] == [c, d] && [c, d][1..] == [d] && [d][1..] == [];
    assert FromLittleEndian([]) == 0;
    assert FromLittleEndian([d]) == d as int;
    assert FromLittleEndian([c, d]) == c as int + 0x100 * d as int;
    assert FromLittleEndian([b, c, d]) == b as int + 0x100 * c as int + 0x1_0000 * d as int;
  }

  lemma EightLittle(b: seq<byte>)
    requires |b| == 8
    ensures FromLittleEndian(b) == FromLittleEndian(b[..4]) + 0x1_0000_0000 * FromLittleEndian(b[4..])
  {
    LittleConcat(b[..4], b[4..]);
    assert b == b[..4] + b[4..];
    assert Pow256(2) == 0x1_0000 && Pow256(4) == 0x100 * (0x100 * Pow256(2));
  }

  lemma {:induction false} LittleConcat(a: seq<byte>, b: seq<byte>)
    ensures FromLittleEndian(a + b) == FromLittleEndian(a) + Pow256(|a|) * FromLittleEndian(b)
  {
    if a == [] {
      assert a + b == b;
    } else {
      assert (a + b)[1..] == a[1..] + b;
      LittleConcat(a[1..], b);
      Scale(FromLittleEndian(a[1..]), Pow256(|a| - 1), FromLittleEndian(b));
    }
  }

  lemma Scale(x: int, p: int, y: int)
    ensures 256 * (x + p * y) == 256 * x + 256 * p * y
  {
  }

  /** 0, -1, 1, -2, ... become 0, 1, 2, 3, ... */
  lemma ZigzagIs(v: int, two: nat)
    requires (two == TWO32 || two == TWO64) && -(two / 2) <= v < two / 2
    ensures Zigzag(v, two) == if v >= 0 then 2 * v else -2 * v - 1
  {
    if two == TWO32 { Zigzag32(v); } else { Zigzag64(v); }
  }

  lemma Zigzag32(v: int)
    requires -0x8000_0000 <= v < 0x8000_0000
    ensures Zigzag(v, TWO32) == if v >= 0 then 2 * v else -2 * v - 1
  {
    if v < 0 { BelowModulus(-v, TWO32); }
  }

  lemma Zigzag64(v: int)
    requires -0x8000_0000_0000_0000 <= v < 0x8000_0000_0000_0000
    ensures Zigzag(v, TWO64) == if v >= 0 then 2 * v else -2 * v - 1
  {
    if v < 0 { BelowModulus(-v, TWO64); }
  }

  /** The key of a field: its number, and three bits that say what follows. */
  lemma KeyIs(f: Field, v: Value, schema: Schema)
    ensures FieldBytes(schema, f, One(Some(v)))
         == Varint(8 * f.id + (match f.typ
                               case SFIXED32 | FIXED32 | FLOAT => 5
                               case SFIXED64 | FIXED64 | DOUBLE => 1
                               case STRING | BYTES | MESSAGE(_) => 2
                               case _ => 0))
            + ValueBytes(schema, f.typ, v)
  {
  }

  // ---------------------------------------------------------------------------
  // Messages
  // ---------------------------------------------------------------------------

  function Plain(id: nat, rule: Label, t: Type): Field {
    Field(id, rule, t, false, None)
  }

  /** A number, a text, a nested message and a packed array of numbers. */
  function Sample(): Schema {
    [Descriptor([Plain(1, OPTIONAL, INT32), Plain(2, OPTIONAL, STRING), Plain(3, OPTIONAL, MESSAGE(1)),
                 Field(4, REPEATED, INT32, true, None)], 1, [IntRange(1, 0), IntRange(0, 4)]),
     Descriptor([Plain(1, OPTIONAL, INT32)], 1, [IntRange(1, 0), IntRange(0, 1)])]
  }

  function Number150(): Slot { One(Some(Number(150))) }

  lemma Varint150()
    ensures Varint(150) == [0x96, 0x01] && Varint(270) == [0x8e, 0x02] && Varint(86942) == [0x9e, 0xa7, 0x05]
  {
    assert Varint(1) == [1] && Varint(2) == [2] && Varint(5) == [5];
    assert Varint(679) == [679 % 128 + 128] + Varint(5);
    assert Varint(86942) == [86942 % 128 + 128] + Varint(679);
  }

  lemma NumberField(schema: Schema)
    ensures FieldBytes(schema, Plain(1, OPTIONAL, INT32), Number150()) == [0x08, 0x96, 0x01]
  {
    Varint150();
    assert Wrap(150, TWO64) == 150;
    assert Varint(8) == [8];
  }

  lemma TextField(schema: Schema)
    ensures FieldBytes(schema, Plain(2, OPTIONAL, STRING), One(Some(Text([116, 101, 115, 116, 105, 110, 103]))))
         == [0x12, 0x07, 116, 101, 115, 116, 105, 110, 103]
  {
    assert Varint(18) == [18] && Varint(7) == [7];
  }

  lemma NestedBytes()
    ensures MessageBytes(Sample(), Message(1, [Number150()], [])) == [0x08, 0x96, 0x01]
  {
    var schema, m := Sample(), Message(1, [Number150()], []);
    NumberField(schema);
    assert FieldsOf(schema, m) == [Plain(1, OPTIONAL, INT32)];
    hide FieldBytes;
    assert FieldsBytes(schema, m, 0) == [] && UnknownBytes([], 0) == [];
    assert FieldsBytes(schema, m, 1) == [] + [0x08, 0x96, 0x01] == [0x08, 0x96, 0x01];
    assert MessageBytes(schema, m) == [0x08, 0x96, 0x01] + [] == [0x08, 0x96, 0x01];
  }

  lemma NestedField()
    ensures FieldBytes(Sample(), Plain(3, OPTIONAL, MESSAGE(1)), One(Some(Nested(Message(1, [Number150()], [])))))
         == [0x1a, 0x03, 0x08, 0x96, 0x01]
  {
    NestedBytes();
    hide MessageBytes, Sample;
    assert Varint(26) == [26] && Varint(3) == [3];
  }

  lemma PackedField(schema: Schema)
    ensures FieldBytes(schema, Field(4, REPEATED, INT32, true, None), Many([Number(3), Number(270), Number(86942)]))
         == [0x22, 0x06, 0x03, 0x8e, 0x02, 0x9e, 0xa7, 0x05]
  {
    Varint150();
    var vs := [Number(3), Number(270), Number(86942)];
    assert Varint(3) == [3] && Varint(34) == [34] && Varint(6) == [6];
    assert Wrap(3, TWO64) == 3 && Wrap(270, TWO64) == 270 && Wrap(86942, TWO64) == 86942;
    hide Varint;
    assert PackedBytes(schema, INT32, vs, 0) == [];
    assert PackedBytes(schema, INT32, vs, 1) == [] + [3] == [3];
    assert PackedBytes(schema, INT32, vs, 2) == [3] + [0x8e, 0x02] == [3, 0x8e, 0x02];
    assert PackedBytes(schema, INT32, vs, 3) == [3, 0x8e, 0x02] + [0x9e, 0xa7, 0x05]
        == [3, 0x8e, 0x02, 0x9e, 0xa7, 0x05];
  }

  /** The bytes of a whole message, field by field in the order of the descriptor. */
  lemma SampleBytes()
    ensures var m := Message(0, [Number150(), One(Some(Text([116, 101, 115, 116, 105, 110, 103]))),
                                 One(Some(Nested(Message(1, [Number150()], [])))),
                                 Many([Number(3), Number(270), Number(86942)])], [Unknown(5, 5, [1, 2, 3, 4])]);
            MessageBytes(Sample(), m)
            == [0x08, 0x96, 0x01] + [0x12, 0x07, 116, 101, 115, 116, 105, 110, 103] + [0x1a, 0x03, 0x08, 0x96, 0x01]
               + [0x22, 0x06, 0x03, 0x8e, 0x02, 0x9e, 0xa7, 0x05] + [0x2d, 1, 2, 3, 4]
  {
    var schema := Sample();
    var m := Message(0, [Number150(), One(Some(Text([116, 101, 115, 116, 105, 110, 103]))),
                         One(Some(Nested(Message(1, [Number150()], [])))),
                         Many([Number(3), Number(270), Number(86942)])], [Unknown(5, 5, [1, 2, 3, 4])]);
    var a, b: seq<byte> := [0x08, 0x96, 0x01], [0x12, 0x07, 116, 101, 115, 116, 105, 110, 103];
    var c, d: seq<byte> := [0x1a, 0x03, 0x08, 0x96, 0x01], [0x22, 0x06, 0x03, 0x8e, 0x02, 0x9e, 0xa7, 0x05];
    NumberField(schema);
    TextField(schema);
    NestedField();
    PackedField(schema);
    UnknownRecord();
    assert FieldsOf(schema, m) == schema[0].fields && FieldCount(schema, m) == 4;
    hide FieldBytes, UnknownBytes, Number150;
    assert FieldsBytes(schema, m, 0) == [];
    assert FieldsBytes(schema, m, 1) == [] + a == a;
    assert FieldsBytes(schema, m, 2) == a + b;
    assert FieldsBytes(schema, m, 3) == a + b + c;
    assert FieldsBytes(schema, m, 4) == a + b + c + d;
  }

  lemma UnknownRecord()
    ensures UnknownBytes([Unknown(5, 5, [1, 2, 3, 4])], 1) == [0x2d, 1, 2, 3, 4]
  {
    assert Varint(45) == [45];
    assert UnknownBytes([Unknown(5, 5, [1, 2, 3, 4])], 0) == [];
    assert [] + ([45] + [1, 2, 3, 4]) == [45, 1, 2, 3, 4];
  }
}
