/**
What unpacking means, field by field: each slot depends only on the members that
carry its field, or its oneof, whatever stands between them.  The parse replays
the members one after the other; the two agree on every input.
*/
module ByField {
  import opened Options
  import opened Bytes
  import opened Varints
  import opened RangeLookup
  import opened Messages
  import opened Unpacking

  // ---------------------------------------------------------------------------
  // The value of one member
  // ---------------------------------------------------------------------------

  /** The wire type that a number of each type comes under. */
  function WireNeeded(t: Type): nat {
    match t
    case SFIXED32 | FIXED32 | FLOAT => 5
    case SFIXED64 | FIXED64 | DOUBLE => 1
    case _ => 0
  }

  /** The bytes behind the length prefix. */
  function Payload(mem: Member): seq<byte>
    requires mem.prefix <= |mem.data|
  {
    mem.data[mem.prefix..]
  }

  predicate SomeBit(b: seq<byte>) {
    exists i :: 0 <= i < |b| && b[i] != 0 && b[i] != 128
  }

  /** What a member holds by itself; a bool is read from any wire type, all others from their own only. */
  ghost function OneValue(schema: Schema, t: Type, mem: Member, merge: Merge): Option<Value>
    requires mem.prefix <= |mem.data| && 0 < |mem.data|
  {
    match t
    case BOOL => Some(Number(if SomeBit(mem.data) then 1 else 0))
    case STRING => if mem.wire == 2 then Some(Text(Payload(mem))) else None
    case BYTES => if mem.wire == 2 then Some(Data(Payload(mem))) else None
    case MESSAGE(d) =>
      if mem.wire == 2 && d < |schema| && Unpack(schema, d, Payload(mem), merge).Some?
      then Some(Nested(Unpack(schema, d, Payload(mem), merge).value))
      else None
    case _ => if mem.wire == WireNeeded(t) then Some(Number(ParseNumber(t, mem.data))) else None
  }

  lemma ValueIsOne(schema: Schema, t: Type, mem: Member, held: Option<Value>, merge: Merge)
    requires mem.prefix <= |mem.data| && 0 < |mem.data|
    ensures !t.MESSAGE? || held.None? ==> ParseValue(schema, t, mem, held, merge) == OneValue(schema, t, mem, merge)
    ensures OneValue(schema, t, mem, merge).None? ==> ParseValue(schema, t, mem, held, merge).None?
  {
    hide Unpack, ParseNumber;
    if t.BOOL? { assert SomeBit(mem.data) <==> AnyBits(mem.data); BoolIs(mem.data); }
  }

  lemma BoolIs(b: seq<byte>)
    requires |b| > 0
    ensures ParseNumber(BOOL, b) == if SomeBit(b) then 1 else 0
  {
    assert forall i :: 0 <= i < |b| ==> (b[i] % 128 != 0 <==> b[i] != 0 && b[i] != 128);
    if AnyBits(b) {
      var i :| 0 <= i < |b| && b[i] % 128 != 0;
      assert b[i] != 0 && b[i] != 128;
    }
  }

  /** The number that the bytes of a member stand for, by type. */
  lemma NumberReads(t: Type, b: seq<byte>)
    requires |b| > 0
    ensures t.INT32? || t.ENUM? ==>
        -0x8000_0000 <= ParseNumber(t, b) < 0x8000_0000 && (ParseNumber(t, b) - Groups(b)) % 0x1_0000_0000 == 0
    ensures t.UINT32? ==> 0 <= ParseNumber(t, b) < 0x1_0000_0000 && (ParseNumber(t, b) - Groups(b)) % 0x1_0000_0000 == 0
    ensures t.INT64? ==>
        && -0x8000_0000_0000_0000 <= ParseNumber(t, b) < 0x8000_0000_0000_0000
        && (ParseNumber(t, b) - Groups(b)) % 0x1_0000_0000_0000_0000 == 0
    ensures t.UINT64? ==>
        && 0 <= ParseNumber(t, b) < 0x1_0000_0000_0000_0000
        && (ParseNumber(t, b) - Groups(b)) % 0x1_0000_0000_0000_0000 == 0
    ensures t.SINT32? ==>
        var n := Groups(b) % 0x1_0000_0000;
        ParseNumber(t, b) == if n % 2 == 0 then n / 2 else -(n + 1) / 2
    ensures t.SINT64? ==>
        var n := Groups(b) % 0x1_0000_0000_0000_0000;
        ParseNumber(t, b) == if n % 2 == 0 then n / 2 else -(n + 1) / 2
  {
    hide Groups, ParseUint32, Signed, Unzigzag;
    ParseUint32IsGroups(b);
    SignedReads(Groups(b), TWO32);
    SignedReads(Groups(b), TWO64);
    Remainder(Groups(b), TWO32);
    Remainder(Groups(b), TWO64);
    UnzigzagReads(Groups(b) % TWO32, TWO32);
    UnzigzagReads(Groups(b) % TWO64, TWO64);
  }

  lemma Remainder(n: nat, two: nat)
    requires two == TWO32 || two == TWO64
    ensures 0 <= n % two < two && (n % two - n) % two == 0
  {
    if two == TWO32 {
      assert n == n / TWO32 * TWO32 + n % TWO32;
    } else {
      assert n == n / TWO64 * TWO64 + n % TWO64;
    }
  }

  /** Two's complement. */
  lemma SignedReads(n: nat, two: nat)
    requires two == TWO32 || two == TWO64
    ensures var v := Signed(n % two, two); -(two / 2) <= v < two / 2 && (v - n) % two == 0
  {
    Remainder(n, two);
    var v := Signed(n % two, two);
    assert v == n % two || v == n % two - two;
  }

  lemma UnzigzagReads(n: nat, two: nat)
    requires (two == TWO32 || two == TWO64) && n < two
    ensures Unzigzag(n, two) == if n % 2 == 0 then n / 2 else -(n + 1) / 2
  {
  }

  // ---------------------------------------------------------------------------
  // Packed payloads
  // ---------------------------------------------------------------------------

  /** b cut behind every byte below 128; the last piece may be unfinished. */
  function Pieces(b: seq<byte>): seq<seq<byte>> {
    if b == [] then []
    else
      var rest := Pieces(b[1..]);
      if b[0] < 128 then [[b[0]]] + rest
      else if rest == [] then [[b[0]]]
      else [[b[0]] + rest[0]] + rest[1..]
  }

  /** A varint of at most ten bytes. */
  predicate Finished(piece: seq<byte>) {
    0 < |piece| <= 10 && piece[|piece| - 1] < 128
  }

  /** The pieces of a payload of elements of type t, or None if it is none. */
  function Chunks(t: Type, b: seq<byte>): Option<seq<seq<byte>>> {
    if t.SFIXED32? || t.FIXED32? || t.FLOAT? then
      if |b| % 4 == 0 then Some(seq(|b| / 4, i requires 0 <= i < |b| / 4 => b[4 * i..4 * i + 4])) else None
    else if t.SFIXED64? || t.FIXED64? || t.DOUBLE? then
      if |b| % 8 == 0 then Some(seq(|b| / 8, i requires 0 <= i < |b| / 8 => b[8 * i..8 * i + 8])) else None
    else if t.BOOL? then
      if forall i :: 0 <= i < |b| ==> b[i] <= 1 then Some(seq(|b|, i requires 0 <= i < |b| => [b[i]])) else None
    else if forall p :: p in Pieces(b) ==> Finished(p) then Some(Pieces(b))
    else None
  }

  /** The numbers of the pieces. */
  function ValuesOf(t: Type, pieces: seq<seq<byte>>): (vs: seq<Value>)
    ensures |vs| == |pieces|
  {
    seq(|pieces|, i requires 0 <= i < |pieces| => Number(if pieces[i] == [] then 0 else ParseNumber(t, pieces[i])))
  }

  lemma ValuesCons(t: Type, p: seq<byte>, rest: seq<seq<byte>>)
    requires p != []
    ensures ValuesOf(t, [p] + rest) == [Number(ParseNumber(t, p))] + ValuesOf(t, rest)
  {
    hide ParseNumber;
  }

  /** The first element of a payload is its first piece. */
  ghost predicate Leads(t: Type, b: seq<byte>, n: nat) {
    n <= |b| &&
    if n == 0 then Chunks(t, b).None?
    else
      && (Chunks(t, b).Some? <==> Chunks(t, b[n..]).Some?)
      && (Chunks(t, b).Some? ==> Chunks(t, b).value == [b[..n]] + Chunks(t, b[n..]).value)
  }

  lemma Shifted(b: seq<byte>, n: nat, i: nat)
    requires n > 0 && n * (i + 1) + n <= |b|
    ensures n * i + n <= |b[n..]| && b[n..][n * i..n * i + n] == b[n * (i + 1)..n * (i + 1) + n]
  {
    assert n * (i + 1) == n * i + n;
  }

  lemma FourBytes(t: Type, b: seq<byte>)
    requires t.SFIXED32? || t.FIXED32? || t.FLOAT?
    requires |b| % 4 == 0 && b != []
    ensures Leads(t, b, 4)
  {
    var all, rest := Chunks(t, b).value, Chunks(t, b[4..]).value;
    assert |all| == 1 + |rest|;
    forall i | 0 <= i < |rest| ensures all[i + 1] == rest[i] {
      Shifted(b, 4, i);
    }
    assert all == [b[..4]] + rest;
  }

  lemma EightBytes(t: Type, b: seq<byte>)
    requires t.SFIXED64? || t.FIXED64? || t.DOUBLE?
    requires |b| % 8 == 0 && b != []
    ensures Leads(t, b, 8)
  {
    var all, rest := Chunks(t, b).value, Chunks(t, b[8..]).value;
    assert |all| == 1 + |rest|;
    forall i | 0 <= i < |rest| ensures all[i + 1] == rest[i] {
      Shifted(b, 8, i);
    }
    assert all == [b[..8]] + rest;
  }

  lemma OneBool(b: seq<byte>)
    requires b != []
    ensures Leads(BOOL, b, if b[0] > 1 then 0 else 1)
  {
    var rest := b[1..];
    assert b == [b[0]] + rest;
    if Chunks(BOOL, b).Some? {
      assert forall i :: 0 <= i < |rest| ==> rest[i] == b[i + 1];
      assert Chunks(BOOL, b).value == [b[..1]] + Chunks(BOOL, rest).value;
    }
  }

  /** Bytes up to the first below 128 are the first piece. */
  lemma {:induction false} FirstPiece(b: seq<byte>, n: nat)
    requires 0 < n <= |b| && (forall i :: 0 <= i < n - 1 ==> b[i] >= 128) && (b[n - 1] < 128 || n == |b|)
    ensures Pieces(b) == [b[..n]] + Pieces(b[n..])
  {
    if n == 1 {
      assert b[..1] == [b[0]];
      if b[0] >= 128 { assert b[1..] == []; }
    } else {
      FirstPiece(b[1..], n - 1);
      assert b[1..][n - 1..] == b[n..] && b[..n] == [b[0]] + b[1..][..n - 1];
      var rest := Pieces(b[1..]);
      assert rest[0] == b[1..][..n - 1] && rest[1..] == Pieces(b[n..]);
    }
  }

  /** The index behind the first byte below 128, or the end. */
  lemma FirstEnd(b: seq<byte>) returns (n: nat)
    requires b != []
    ensures 0 < n <= |b| && (forall i :: 0 <= i < n - 1 ==> b[i] >= 128) && (b[n - 1] < 128 || n == |b|)
  {
    n := 1;
    while n < |b| && b[n - 1] >= 128
      invariant 0 < n <= |b| && forall i :: 0 <= i < n - 1 ==> b[i] >= 128
    {
      n := n + 1;
    }
  }

  predicate TakesVarints(t: Type) {
    t.INT32? || t.SINT32? || t.UINT32? || t.INT64? || t.SINT64? || t.UINT64? || t.ENUM?
  }

  lemma VarintLeads(t: Type, b: seq<byte>)
    requires TakesVarints(t) && b != []
    ensures Leads(t, b, VarintLength(b, 10))
  {
    hide Pieces, VarintLength;
    var n := VarintLength(b, 10);
    var k := FirstEnd(b);
    FirstPiece(b, k);
    Ends(b, k);
    FirstIn(b[..k], Pieces(b[k..]));
  }

  lemma FirstIn(p: seq<byte>, rest: seq<seq<byte>>)
    ensures forall q :: q in [p] + rest <==> q == p || q in rest
  {
  }

  /** Where the first piece ends is where a varint does, unless it is too long or unfinished. */
  lemma Ends(b: seq<byte>, k: nat)
    requires 0 < k <= |b| && (forall i :: 0 <= i < k - 1 ==> b[i] >= 128) && (b[k - 1] < 128 || k == |b|)
    ensures VarintLength(b, 10) == if Finished(b[..k]) then k else 0
  {
    hide VarintLength;
    var n := VarintLength(b, 10);
    assert n > 0 && b[k - 1] < 128 ==> n == k;
  }

  /** A payload that the scan has counted is parsed piece by piece. */
  lemma {:induction false} PackedReads(t: Type, b: seq<byte>)
    requires CountPacked(t, b).Some?
    ensures ParsePacked(t, b) == if Chunks(t, b).None? then None else Some(ValuesOf(t, Chunks(t, b).value))
    decreases |b|
  {
    hide ParseNumber, Terminators;
    if b == [] {
      NothingLeft(t);
    } else {
      var n := ElementLength(t, b);
      ElementLeads(t, b);
      if n > 0 {
        ElementCounts(t, b, n);
        hide Chunks, ElementLength, CountPacked;
        PackedReads(t, b[n..]);
        if Chunks(t, b).Some? { ValuesCons(t, b[..n], Chunks(t, b[n..]).value); }
      }
    }
  }

  lemma NothingLeft(t: Type)
    ensures Chunks(t, []).Some? && Chunks(t, []).value == []
  {
  }

  lemma ElementLeads(t: Type, b: seq<byte>)
    requires CountPacked(t, b).Some? && b != []
    ensures Leads(t, b, ElementLength(t, b))
  {
    hide Leads, Terminators;
    if Is32(t) {
      FourBytes(t, b);
    } else if Is64(t) {
      EightBytes(t, b);
    } else if t.BOOL? {
      OneBool(b);
    } else {
      VarintLeads(t, b);
    }
  }

  // ---------------------------------------------------------------------------
  // The slots of a message
  // ---------------------------------------------------------------------------

  /** The members of field i, in order. */
  function Own(ms: seq<Member>, i: int): (own: seq<Member>)
    ensures forall x :: x in own ==> x in ms
  {
    if ms == [] then []
    else
      var x := ms[|ms| - 1];
      Own(ms[..|ms| - 1], i) + if x.field == i then [x] else []
  }

  /** The members of a oneof, in order. */
  function OfGroup(fields: seq<Field>, ms: seq<Member>, group: nat): (all: seq<Member>)
    ensures forall x :: x in all ==> x in ms && 0 <= x.field < |fields|
  {
    if ms == [] then []
    else
      var x := ms[|ms| - 1];
      OfGroup(fields, ms[..|ms| - 1], group)
      + if 0 <= x.field < |fields| && fields[x.field].rule == ONEOF(group) then [x] else []
  }

  /** The members of no field. */
  function Unknowns(ms: seq<Member>): seq<Unknown> {
    if ms == [] then []
    else
      var x := ms[|ms| - 1];
      Unknowns(ms[..|ms| - 1]) + if x.field < 0 then [Unknown(x.tag, x.wire, x.data)] else []
  }

  /** The elements that a member adds to a repeated field. */
  ghost function Elements(schema: Schema, f: Field, mem: Member, merge: Merge): Option<seq<Value>>
    requires mem.prefix <= |mem.data| && 0 < |mem.data|
  {
    if mem.wire == 2 && (f.packed || !(f.typ.STRING? || f.typ.BYTES? || f.typ.MESSAGE?)) then
      if Chunks(f.typ, Payload(mem)).None? then None
      else Some(ValuesOf(f.typ, Chunks(f.typ, Payload(mem)).value))
    else if OneValue(schema, f.typ, mem, merge).None? then None
    else Some([OneValue(schema, f.typ, mem, merge).value])
  }

  predicate Delimited(ms: seq<Member>) {
    forall x :: x in ms ==> x.prefix <= |x.data| && 0 < |x.data|
  }

  ghost function AllElements(schema: Schema, f: Field, own: seq<Member>, merge: Merge): Option<seq<Value>>
    requires Delimited(own)
  {
    if own == [] then Some([])
    else
      var before := AllElements(schema, f, own[..|own| - 1], merge);
      var more := Elements(schema, f, own[|own| - 1], merge);
      if before.None? || more.None? then None else Some(before.value + more.value)
  }

  ghost predicate AllRead(schema: Schema, t: Type, own: seq<Member>, merge: Merge)
    requires Delimited(own)
  {
    forall x :: x in own ==> OneValue(schema, t, x, merge).Some?
  }

  /** Occurrences of a nested message are merged, each into what the ones before have come to. */
  ghost function Merged(schema: Schema, t: Type, own: seq<Member>, start: Option<Value>, merge: Merge)
    : Option<Option<Value>>
    requires Delimited(own)
  {
    if own == [] then Some(start)
    else
      var before := Merged(schema, t, own[..|own| - 1], start, merge);
      var next := OneValue(schema, t, own[|own| - 1], merge);
      if before.None? || next.None? then None
      else if before.value.Some? && before.value.value.Nested? && next.value.Nested? then
        var m := merge(before.value.value.m, next.value.m);
        if m.None? then None else Some(Some(Nested(m.value)))
      else Some(next)
  }

  /** The slot of a field, from the members of the message alone. */
  ghost function SlotOf(schema: Schema, fields: seq<Field>, ms: seq<Member>, i: nat, merge: Merge): Option<Slot>
    requires i < |fields| && Delimited(ms)
  {
    var f, own := fields[i], Own(ms, i);
    match f.rule
    case REPEATED =>
      var vs := AllElements(schema, f, own, merge);
      if vs.None? then None else Some(Many(vs.value))
    case ONEOF(group) =>
      var all := OfGroup(fields, ms, group);
      if !AllRead(schema, f.typ, own, merge) then None
      else if all == [] then Some(One(f.default))
      else if all[|all| - 1].field != i then Some(One(None))
      else Some(One(OneValue(schema, f.typ, all[|all| - 1], merge)))
    case _ =>
      if f.typ.MESSAGE? then
        var v := Merged(schema, f.typ, own, f.default, merge);
        if v.None? then None else Some(One(v.value))
      else if !AllRead(schema, f.typ, own, merge) then None
      else Some(One(if own == [] then f.default else OneValue(schema, f.typ, own[|own| - 1], merge)))
  }

  /** m is what the members come to, slot by slot. */
  ghost predicate Holds(schema: Schema, fields: seq<Field>, ms: seq<Member>, m: Message, merge: Merge)
    requires Delimited(ms)
  {
    && |m.slots| == |fields| && m.unknown == Unknowns(ms)
    && forall i :: 0 <= i < |fields| ==> SlotOf(schema, fields, ms, i, merge) == Some(m.slots[i])
  }

  /** The members up to number k of what scanning b gave are as parsing wants them. */
  lemma GoodIsDelimited(fields: seq<Field>, ms: seq<Member>, bound: nat)
    requires GoodMembers(fields, ms, bound)
    ensures Delimited(ms)
  {
    hide Count;
    forall x | x in ms ensures x.prefix <= |x.data| && 0 < |x.data| {
      var k :| 0 <= k < |ms| && ms[k] == x;
      assert GoodMember(fields, ms[k]);
    }
  }

  lemma ElementsAre(schema: Schema, fields: seq<Field>, mem: Member, merge: Merge)
    requires GoodMember(fields, mem) && mem.field >= 0 && fields[mem.field].rule.REPEATED?
    ensures ParseElements(schema, fields[mem.field], mem, merge) == Elements(schema, fields[mem.field], mem, merge)
  {
    hide OneValue, ParseValue, CountPacked, ParsePacked, Chunks, ValuesOf;
    var f := fields[mem.field];
    ValueIsOne(schema, f.typ, mem, None, merge);
    if ComesPacked(f, mem.wire) { PackedReads(f.typ, Payload(mem)); }
  }

  predicate InGroup(fields: seq<Field>, x: Member, group: nat) {
    0 <= x.field < |fields| && fields[x.field].rule == ONEOF(group)
  }

  lemma Snoc(fields: seq<Field>, ms: seq<Member>, x: Member, i: int, g: nat)
    ensures Own(ms + [x], i) == if x.field == i then Own(ms, i) + [x] else Own(ms, i)
    ensures OfGroup(fields, ms + [x], g)
         == if InGroup(fields, x, g) then OfGroup(fields, ms, g) + [x] else OfGroup(fields, ms, g)
    ensures Unknowns(ms + [x]) == Unknowns(ms) + if x.field < 0 then [Unknown(x.tag, x.wire, x.data)] else []
  {
    assert (ms + [x])[..|ms|] == ms && (ms + [x])[|ms|] == x;
  }

  lemma AllReadSnoc(schema: Schema, t: Type, own: seq<Member>, x: Member, merge: Merge)
    requires Delimited(own + [x]) && Delimited(own)
    ensures AllRead(schema, t, own + [x], merge)
       <==> AllRead(schema, t, own, merge) && OneValue(schema, t, x, merge).Some?
  {
    hide OneValue;
    assert forall y :: y in own + [x] <==> y in own || y == x;
  }

  /** What one more member does to the slot of its own field. */
  ghost function Next(schema: Schema, f: Field, x: Member, slot: Slot, merge: Merge): Option<Slot>
    requires x.prefix <= |x.data| && 0 < |x.data| && (f.rule.REPEATED? <==> slot.Many?)
  {
    match f.rule
    case REPEATED =>
      var more := Elements(schema, f, x, merge);
      if more.None? then None else Some(Many(slot.vs + more.value))
    case ONEOF(_) =>
      if OneValue(schema, f.typ, x, merge).None? then None else Some(One(OneValue(schema, f.typ, x, merge)))
    case _ =>
      var v := ParseValue(schema, f.typ, x, slot.v, merge);
      if v.None? then None else Some(One(v))
  }

  lemma SlotKind(schema: Schema, fields: seq<Field>, ms: seq<Member>, i: nat, merge: Merge)
    requires i < |fields| && Delimited(ms) && SlotOf(schema, fields, ms, i, merge).Some?
    ensures fields[i].rule.REPEATED? <==> SlotOf(schema, fields, ms, i, merge).value.Many?
  {
  }

  lemma OwnRepeated(schema: Schema, fields: seq<Field>, ms: seq<Member>, x: Member, merge: Merge)
    requires Delimited(ms) && Delimited(ms + [x]) && 0 <= x.field < |fields| && fields[x.field].rule.REPEATED?
    ensures var was := SlotOf(schema, fields, ms, x.field, merge);
            var now := SlotOf(schema, fields, ms + [x], x.field, merge);
            now == if was.None? then None else Next(schema, fields[x.field], x, was.value, merge)
  {
    hide Elements, OneValue, AllElements, Own, OfGroup;
    Snoc(fields, ms, x, x.field, 0);
    AllElementsSnoc(schema, fields[x.field], Own(ms, x.field), x, merge);
  }

  lemma AllElementsSnoc(schema: Schema, f: Field, own: seq<Member>, x: Member, merge: Merge)
    requires Delimited(own) && Delimited(own + [x]) && x.prefix <= |x.data| && 0 < |x.data|
    ensures AllElements(schema, f, own + [x], merge) ==
        var before, more := AllElements(schema, f, own, merge), Elements(schema, f, x, merge);
        if before.None? || more.None? then None else Some(before.value + more.value)
  {
    hide Elements;
    assert (own + [x])[..|own|] == own && (own + [x])[|own|] == x;
  }


  lemma OwnOneof(schema: Schema, fields: seq<Field>, ms: seq<Member>, x: Member, merge: Merge)
    requires Delimited(ms) && Delimited(ms + [x]) && 0 <= x.field < |fields| && fields[x.field].rule.ONEOF?
    ensures var was := SlotOf(schema, fields, ms, x.field, merge);
            var now := SlotOf(schema, fields, ms + [x], x.field, merge);
            now == if was.None? then None else Next(schema, fields[x.field], x, was.value, merge)
  {
    hide Elements, OneValue, AllRead;
    Snoc(fields, ms, x, x.field, fields[x.field].rule.group);
    AllReadSnoc(schema, fields[x.field].typ, Own(ms, x.field), x, merge);
  }

  lemma OwnSingular(schema: Schema, fields: seq<Field>, ms: seq<Member>, x: Member, merge: Merge)
    requires Delimited(ms) && Delimited(ms + [x]) && 0 <= x.field < |fields|
    requires fields[x.field].rule.REQUIRED? || fields[x.field].rule.OPTIONAL?
    ensures var was := SlotOf(schema, fields, ms, x.field, merge);
            var now := SlotOf(schema, fields, ms + [x], x.field, merge);
            now == if was.None? then None else Next(schema, fields[x.field], x, was.value, merge)
  {
    hide Elements, OneValue, AllRead, ParseValue, Own, OfGroup, Merged;
    var f, own := fields[x.field], Own(ms, x.field);
    Snoc(fields, ms, x, x.field, 0);
    if f.typ.MESSAGE? {
      MergedSnoc(schema, f.typ, own, x, f.default, merge);
    } else {
      AllReadSnoc(schema, f.typ, own, x, merge);
      var was := SlotOf(schema, fields, ms, x.field, merge);
      if was.Some? { ValueIsOne(schema, f.typ, x, was.value.v, merge); }
    }
  }

  lemma MergedSnoc(schema: Schema, t: Type, own: seq<Member>, x: Member, start: Option<Value>, merge: Merge)
    requires Delimited(own) && Delimited(own + [x]) && x.prefix <= |x.data| && 0 < |x.data| && t.MESSAGE?
    ensures var was, now := Merged(schema, t, own, start, merge), Merged(schema, t, own + [x], start, merge);
            now == if was.None? || ParseValue(schema, t, x, was.value, merge).None? then None
                   else Some(ParseValue(schema, t, x, was.value, merge))
  {
    hide OneValue, ParseValue;
    assert (own + [x])[..|own|] == own && (own + [x])[|own|] == x;
    var was := Merged(schema, t, own, start, merge);
    if was.Some? { MessageJoins(schema, t, x, was.value, merge); }
  }

  /** A nested message read into what is held. */
  lemma MessageJoins(schema: Schema, t: Type, x: Member, held: Option<Value>, merge: Merge)
    requires x.prefix <= |x.data| && 0 < |x.data| && t.MESSAGE?
    ensures ParseValue(schema, t, x, held, merge) ==
        var next := OneValue(schema, t, x, merge);
        if next.None? then None
        else if held.Some? && held.value.Nested? && next.value.Nested? then
          var m := merge(held.value.m, next.value.m);
          if m.None? then None else Some(Nested(m.value))
        else next
  {
    hide Unpack;
  }

  lemma OtherSlot(schema: Schema, fields: seq<Field>, ms: seq<Member>, x: Member, i: nat, merge: Merge)
    requires Delimited(ms) && Delimited(ms + [x]) && i < |fields| && x.field != i
    ensures var was, now := SlotOf(schema, fields, ms, i, merge), SlotOf(schema, fields, ms + [x], i, merge);
            now == if was.Some? && Sibling(fields, x, i) then Some(One(None)) else was
  {
    hide AllRead, AllElements, Merged, OneValue, Own, OfGroup, InGroup, Unknowns, Delimited;
    Snoc(fields, ms, x, i, if fields[i].rule.ONEOF? then fields[i].rule.group else 0);
    SiblingField(fields, x, i);
  }

  lemma SiblingField(fields: seq<Field>, x: Member, i: nat)
    requires i < |fields|
    ensures fields[i].rule.ONEOF? && InGroup(fields, x, fields[i].rule.group) ==> 0 <= x.field < |fields|
  {
  }

  lemma OwnSlot(schema: Schema, fields: seq<Field>, ms: seq<Member>, x: Member, merge: Merge)
    requires Delimited(ms) && Delimited(ms + [x]) && 0 <= x.field < |fields|
    ensures var was := SlotOf(schema, fields, ms, x.field, merge);
            var now := SlotOf(schema, fields, ms + [x], x.field, merge);
            && (was.Some? ==> (fields[x.field].rule.REPEATED? <==> was.value.Many?))
            && now == if was.None? then None else Next(schema, fields[x.field], x, was.value, merge)
  {
    hide SlotOf, Next;
    if SlotOf(schema, fields, ms, x.field, merge).Some? { SlotKind(schema, fields, ms, x.field, merge); }
    match fields[x.field].rule
    case REPEATED => OwnRepeated(schema, fields, ms, x, merge);
    case ONEOF(_) => OwnOneof(schema, fields, ms, x, merge);
    case _ => OwnSingular(schema, fields, ms, x, merge);
  }

  /** What parsing one member makes of the message, slot by slot. */
  lemma MemberParses(schema: Schema, x: Member, m: Message, merge: Merge)
    requires Shaped(schema, m) && GoodMember(schema[m.desc].fields, x) && x.field >= 0
    ensures var fields, r := schema[m.desc].fields, ParseMember(schema, x, m, merge);
            var next := Next(schema, fields[x.field], x, m.slots[x.field], merge);
            && (r.Some? <==> next.Some?)
            && (r.Some? ==>
                  && |r.value.slots| == |m.slots| && r.value.unknown == m.unknown && r.value.desc == m.desc
                  && r.value.slots[x.field] == next.value
                  && forall i :: 0 <= i < |fields| && i != x.field ==>
                      r.value.slots[i] == if Sibling(fields, x, i) then One(None) else m.slots[i])
  {
    hide ParseValue, OneValue, Elements, ParseElements, Count;
    var f := schema[m.desc].fields[x.field];
    match f.rule
    case REPEATED => ElementsAre(schema, schema[m.desc].fields, x, merge);
    case ONEOF(_) => ValueIsOne(schema, f.typ, x, None, merge);
    case _ =>
  }

  /** The member is of a oneof that field i belongs to. */
  predicate Sibling(fields: seq<Field>, x: Member, i: nat)
    requires i < |fields|
  {
    fields[i].rule.ONEOF? && InGroup(fields, x, fields[i].rule.group)
  }

  /** One member more keeps the agreement, or breaks a slot for good. */
  lemma Step(schema: Schema, ms: seq<Member>, x: Member, m: Message, merge: Merge)
    requires Shaped(schema, m) && GoodMember(schema[m.desc].fields, x) && Delimited(ms) && Delimited(ms + [x])
    requires Holds(schema, schema[m.desc].fields, ms, m, merge)
    ensures var fields, r := schema[m.desc].fields, ParseMember(schema, x, m, merge);
            if r.Some? then Holds(schema, fields, ms + [x], r.value, merge)
            else x.field >= 0 && SlotOf(schema, fields, ms + [x], x.field, merge).None?
  {
    hide SlotOf, Next, ParseMember, GoodMember, Own, OfGroup, Unknowns, Delimited, Sibling;
    var fields := schema[m.desc].fields;
    Inside(fields, x);
    Snoc(fields, ms, x, 0, 0);
    forall i | 0 <= i < |fields| && i != x.field
      ensures SlotOf(schema, fields, ms + [x], i, merge)
           == Some(if Sibling(fields, x, i) then One(None) else m.slots[i])
    {
      OtherSlot(schema, fields, ms, x, i, merge);
    }
    if x.field >= 0 {
      OwnSlot(schema, fields, ms, x, merge);
      MemberParses(schema, x, m, merge);
    } else {
      NoField(schema, x, m, merge);
      NoSibling(fields, x);
    }
  }

  lemma NoSibling(fields: seq<Field>, x: Member)
    requires x.field < 0
    ensures forall i :: 0 <= i < |fields| ==> !Sibling(fields, x, i)
  {
  }

  lemma Inside(fields: seq<Field>, x: Member)
    requires GoodMember(fields, x)
    ensures -1 <= x.field < |fields|
  {
  }

  lemma NoField(schema: Schema, x: Member, m: Message, merge: Merge)
    requires Shaped(schema, m) && GoodMember(schema[m.desc].fields, x) && x.field < 0
    ensures ParseMember(schema, x, m, merge)
         == Some(m.(unknown := m.unknown + [Unknown(x.tag, x.wire, x.data)]))
  {
  }

  lemma {:induction false} ParseIsByField(schema: Schema, d: nat, ms: seq<Member>, bound: nat, merge: Merge)
    requires d < |schema| && GoodMembers(schema[d].fields, ms, bound)
    ensures Delimited(ms)
    ensures var fields, r := schema[d].fields, Parse(schema, ms, Init(schema, d), bound, merge);
            if r.Some? then r.value.desc == d && Holds(schema, fields, ms, r.value, merge)
            else exists i :: 0 <= i < |fields| && SlotOf(schema, fields, ms, i, merge).None?
    decreases |ms|
  {
    hide ParseMember, SlotOf, Count, Next;
    var fields := schema[d].fields;
    GoodIsDelimited(fields, ms, bound);
    if ms == [] {
      NothingParsed(schema, d, merge);
    } else {
      var front, x := ms[..|ms| - 1], ms[|ms| - 1];
      assert ms == front + [x];
      ParseIsByField(schema, d, front, bound, merge);
      var before := Parse(schema, front, Init(schema, d), bound, merge);
      if before.Some? {
        Step(schema, front, x, before.value, merge);
      } else {
        var i :| 0 <= i < |fields| && SlotOf(schema, fields, front, i, merge).None?;
        StaysBroken(schema, fields, front, x, i, merge);
      }
    }
  }

  lemma StaysBroken(schema: Schema, fields: seq<Field>, ms: seq<Member>, x: Member, i: nat, merge: Merge)
    requires Delimited(ms) && Delimited(ms + [x]) && i < |fields| && SlotOf(schema, fields, ms, i, merge).None?
    ensures SlotOf(schema, fields, ms + [x], i, merge).None?
  {
    hide SlotOf, Next;
    if x.field == i { OwnSlot(schema, fields, ms, x, merge); } else { OtherSlot(schema, fields, ms, x, i, merge); }
  }

  lemma NothingParsed(schema: Schema, d: nat, merge: Merge)
    requires d < |schema|
    ensures Holds(schema, schema[d].fields, [], Init(schema, d), merge)
  {
  }

  // ---------------------------------------------------------------------------
  // The answer of unpack
  // ---------------------------------------------------------------------------

  /** Some field that is required, and has no default, is carried by no member. */
  predicate Lacks(fields: seq<Field>, ms: seq<Member>) {
    exists f :: 0 <= f < |fields| && fields[f].rule == REQUIRED && fields[f].default == None && Own(ms, f) == []
  }

  /** The message the members describe, if each of its slots can be read. */
  ghost function Described(schema: Schema, d: nat, ms: seq<Member>, merge: Merge): Option<Message>
    requires d < |schema| && Delimited(ms)
  {
    var fields := schema[d].fields;
    if exists i :: 0 <= i < |fields| && SlotOf(schema, fields, ms, i, merge).None? then None
    else Some(Message(d, seq(|fields|, i requires 0 <= i < |fields| =>
                                 if SlotOf(schema, fields, ms, i, merge).Some?
                                 then SlotOf(schema, fields, ms, i, merge).value else One(None)), Unknowns(ms)))
  }

  lemma {:induction false} NotCarried(ms: seq<Member>, f: int)
    ensures Own(ms, f) == [] <==> !Mentions(ms, f)
  {
    if ms != [] {
      var front := ms[..|ms| - 1];
      NotCarried(front, f);
      if Mentions(ms, f) {
        var i :| 0 <= i < |ms| && ms[i].field == f;
        if i < |front| { assert front[i].field == f; }
      } else {
        assert forall i :: 0 <= i < |front| ==> front[i] == ms[i];
      }
    }
  }

  lemma LacksIsMissing(fields: seq<Field>, ms: seq<Member>)
    ensures Lacks(fields, ms) <==> Missing(fields, ms)
  {
    hide Own, Mentions;
    forall f | 0 <= f < |fields| ensures Own(ms, f) == [] <==> !Mentions(ms, f) { NotCarried(ms, f); }
    if Lacks(fields, ms) {
      var f :| 0 <= f < |fields| && fields[f].rule == REQUIRED && fields[f].default == None && Own(ms, f) == [];
      assert fields[f].rule.REQUIRED? && fields[f].default.None? && !Mentions(ms, f);
    }
    if Missing(fields, ms) {
      var f :| 0 <= f < |fields| && fields[f].rule.REQUIRED? && fields[f].default.None? && !Mentions(ms, f);
      assert fields[f].rule == REQUIRED && fields[f].default == None && Own(ms, f) == [];
    }
  }

  /**
  Unpacking, on every input: it fails if the bytes cannot be delimited into members, there are too
  many of them, or a required field is lacking; and else gives what the members describe
  field by field, or fails if a member of some field cannot be read.
  */
  lemma UnpackIsByField(schema: Schema, d: nat, b: seq<byte>, merge: Merge)
    requires d < |schema|
    ensures var fields := schema[d].fields;
            var ms := Scan(fields, b);
            && (ms.Some? ==> Delimited(ms.value))
            && Unpack(schema, d, b, merge) ==
               if ms.None? || |ms.value| > 0x7ff_fff0 || Lacks(fields, ms.value) then None
               else Described(schema, d, ms.value, merge)
  {
    hide Parse, SlotOf, Count, Lacks, Missing, Scan;
    var fields := schema[d].fields;
    var scan := Scan(fields, b);
    if scan.Some? {
      var ms := scan.value;
      assert GoodMembers(fields, ms, |b|);
      ParseIsByField(schema, d, ms, |b|, merge);
      LacksIsMissing(fields, ms);
      var r := Parse(schema, ms, Init(schema, d), |b|, merge);
      if r.Some? {
        assert r.value.slots == Described(schema, d, ms, merge).value.slots;
      }
    }
  }

  /** A message that unpacks has a value in the slot of every required field. */
  lemma RequiredFilled(schema: Schema, d: nat, b: seq<byte>, merge: Merge, f: nat)
    requires d < |schema| && Unpack(schema, d, b, merge).Some?
    requires f < |schema[d].fields| && schema[d].fields[f].rule == REQUIRED
    ensures var m := Unpack(schema, d, b, merge).value;
            f < |m.slots| && m.slots[f].One? && m.slots[f].v != None
  {
    hide Scan, OneValue, Unpack;
    UnpackIsByField(schema, d, b, merge);
    var ms := Scan(schema[d].fields, b).value;
    var own := Own(ms, f);
    if schema[d].fields[f].typ.MESSAGE? {
      MergedFilled(schema, schema[d].fields[f].typ, own, schema[d].fields[f].default, merge);
    }
    assert SlotOf(schema, schema[d].fields, ms, f, merge).Some?;
  }

  lemma {:induction false} MergedFilled(schema: Schema, t: Type, own: seq<Member>, start: Option<Value>, merge: Merge)
    requires Delimited(own) && Merged(schema, t, own, start, merge).Some? && (own != [] || start.Some?)
    ensures Merged(schema, t, own, start, merge).value.Some?
  {
    hide OneValue;
  }

  /** Without a member for a required field that has no default, there is no message. */
  lemma MissingFails(schema: Schema, d: nat, b: seq<byte>, merge: Merge, f: nat)
    requires d < |schema| && f < |schema[d].fields|
    requires schema[d].fields[f].rule == REQUIRED && schema[d].fields[f].default == None
    requires Scan(schema[d].fields, b).Some? && forall x :: x in Scan(schema[d].fields, b).value ==> x.field != f
    ensures Unpack(schema, d, b, merge) == None
  {
    hide Scan, Described;
    UnpackIsByField(schema, d, b, merge);
    NotCarried(Scan(schema[d].fields, b).value, f);
  }

  /** The empty string is no message with a required number. */
  lemma EmptyLacksRequired(merge: Merge)
    ensures var count := Field(1, REQUIRED, INT32, false, None);
            Unpack([Descriptor([count], 1, [IntRange(1, 0), IntRange(0, 1)])], 0, [], merge) == None
  {
    var count := Field(1, REQUIRED, INT32, false, None);
    var schema := [Descriptor([count], 1, [IntRange(1, 0), IntRange(0, 1)])];
    assert Scan(schema[0].fields, []) == Some([]);
    MissingFails(schema, 0, [], merge, 0);
  }

  /** Of several occurrences of a singular field the last counts, whatever stands between and behind them. */
  lemma LastCounts(schema: Schema, d: nat, b: seq<byte>, merge: Merge, i: nat)
    requires d < |schema| && Unpack(schema, d, b, merge).Some? && i < |schema[d].fields|
    requires schema[d].fields[i].rule == REQUIRED || schema[d].fields[i].rule == OPTIONAL
    requires !schema[d].fields[i].typ.MESSAGE?
    ensures Scan(schema[d].fields, b).Some? && Delimited(Scan(schema[d].fields, b).value)
    ensures var f, own := schema[d].fields[i], Own(Scan(schema[d].fields, b).value, i);
            var m := Unpack(schema, d, b, merge).value;
            i < |m.slots| && m.slots[i] == One(if own == [] then f.default
                                               else OneValue(schema, f.typ, own[|own| - 1], merge))
  {
    hide Scan, OneValue, Unpack;
    UnpackIsByField(schema, d, b, merge);
    assert SlotOf(schema, schema[d].fields, Scan(schema[d].fields, b).value, i, merge).Some?;
  }

  /** Of the members of a oneof the last counts, and all others are clear. */
  lemma LastOfOneof(schema: Schema, d: nat, b: seq<byte>, merge: Merge, group: nat, i: nat)
    requires d < |schema| && Unpack(schema, d, b, merge).Some?
    requires i < |schema[d].fields| && schema[d].fields[i].rule == ONEOF(group)
    ensures Scan(schema[d].fields, b).Some? && Delimited(Scan(schema[d].fields, b).value)
    ensures var fields, m := schema[d].fields, Unpack(schema, d, b, merge).value;
            var all := OfGroup(fields, Scan(fields, b).value, group);
            all != [] ==>
              && i < |m.slots|
              && m.slots[i] == One(if all[|all| - 1].field == i
                                   then OneValue(schema, fields[i].typ, all[|all| - 1], merge) else None)
  {
    hide Scan, OneValue, Unpack;
    UnpackIsByField(schema, d, b, merge);
    assert SlotOf(schema, schema[d].fields, Scan(schema[d].fields, b).value, i, merge).Some?;
  }

  /** A repeated field has the elements of its members, packed or not, one after the other. */
  lemma ElementsInOrder(schema: Schema, d: nat, b: seq<byte>, merge: Merge, i: nat)
    requires d < |schema| && Unpack(schema, d, b, merge).Some?
    requires i < |schema[d].fields| && schema[d].fields[i].rule == REPEATED
    ensures Scan(schema[d].fields, b).Some? && Delimited(Scan(schema[d].fields, b).value)
    ensures var f, own := schema[d].fields[i], Own(Scan(schema[d].fields, b).value, i);
            var m := Unpack(schema, d, b, merge).value;
            && AllElements(schema, f, own, merge).Some?
            && i < |m.slots| && m.slots[i] == Many(AllElements(schema, f, own, merge).value)
  {
    hide Scan, AllElements, Unpack;
    UnpackIsByField(schema, d, b, merge);
    assert SlotOf(schema, schema[d].fields, Scan(schema[d].fields, b).value, i, merge).Some?;
  }

  lemma {:induction false} OwnHas(ms: seq<Member>, x: Member, i: int)
    ensures x in Own(ms, i) <==> x in ms && x.field == i
  {
    if ms != [] {
      var front, last := ms[..|ms| - 1], ms[|ms| - 1];
      OwnHas(front, x, i);
      assert ms == front + [last];
    }
  }

  /** A value that is no bool, under a wire type that is not that of its type, makes unpacking fail. */
  lemma WrongWireFails(schema: Schema, d: nat, b: seq<byte>, merge: Merge, x: Member)
    requires d < |schema| && Scan(schema[d].fields, b).Some? && x in Scan(schema[d].fields, b).value && x.field >= 0
    ensures x.field < |schema[d].fields|
    ensures var f := schema[d].fields[x.field];
            f.rule != REPEATED && f.typ != BOOL
            && x.wire != (if f.typ.STRING? || f.typ.BYTES? || f.typ.MESSAGE? then 2 else WireNeeded(f.typ)) ==>
              Unpack(schema, d, b, merge) == None
  {
    hide Scan, Unpack, Count, SlotOf, OneValue;
    var fields, ms := schema[d].fields, Scan(schema[d].fields, b).value;
    UnpackIsByField(schema, d, b, merge);
    var k :| 0 <= k < |ms| && ms[k] == x;
    assert GoodMember(fields, ms[k]);
    var f := fields[x.field];
    if f.rule != REPEATED && f.typ != BOOL
       && x.wire != (if f.typ.STRING? || f.typ.BYTES? || f.typ.MESSAGE? then 2 else WireNeeded(f.typ))
    {
      NoValue(schema, f.typ, x, merge);
      Unread(schema, fields, ms, x, merge);
    }
  }

  lemma NoValue(schema: Schema, t: Type, x: Member, merge: Merge)
    requires x.prefix <= |x.data| && 0 < |x.data| && t != BOOL
    requires x.wire != (if t.STRING? || t.BYTES? || t.MESSAGE? then 2 else WireNeeded(t))
    ensures OneValue(schema, t, x, merge).None?
  {
    hide Unpack, ParseNumber;
  }

  /** A member that cannot be read breaks the slot of its field. */
  lemma Unread(schema: Schema, fields: seq<Field>, ms: seq<Member>, x: Member, merge: Merge)
    requires Delimited(ms) && x in ms && 0 <= x.field < |fields| && fields[x.field].rule != REPEATED
    requires OneValue(schema, fields[x.field].typ, x, merge).None?
    ensures SlotOf(schema, fields, ms, x.field, merge).None?
  {
    hide OneValue, Own, OfGroup;
    var f := fields[x.field];
    OwnHas(ms, x, x.field);
    if f.typ.MESSAGE? { MergedReads(schema, f.typ, Own(ms, x.field), f.default, merge, x); }
  }

  lemma {:induction false} MergedReads(schema: Schema, t: Type, own: seq<Member>, start: Option<Value>, merge: Merge,
                                       x: Member)
    requires Delimited(own) && x in own && OneValue(schema, t, x, merge).None?
    ensures Merged(schema, t, own, start, merge).None?
  {
    hide OneValue;
    var front, last := own[..|own| - 1], own[|own| - 1];
    assert own == front + [last];
    if x != last { MergedReads(schema, t, front, start, merge, x); }
  }
}
