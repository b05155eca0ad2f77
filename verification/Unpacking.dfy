/**
What protobuf_c_message_unpack computes: a scan that delimits and counts the
members, and a parse that replays them into the message.

merge stands for merge_messages, which is called when a nested message occurs
twice; nothing below depends on what it does.
*/
module Unpacking {
  import opened Options
  import opened Bytes
  import opened Varints
  import opened RangeLookup
  import opened Messages

  type Merge = (Message, Message) -> Option<Message>

  /** ScannedMember: data starts behind the tag and includes the length prefix; field is -1 when unknown. */
  datatype Member = Member(tag: nat, wire: nat, prefix: nat, data: seq<byte>, field: int)

  // ---------------------------------------------------------------------------
  // The scan
  // ---------------------------------------------------------------------------

  /** max_b128_numbers: the bytes that end a varint. */
  function Terminators(b: seq<byte>): nat {
    if b == [] then 0 else (if b[0] < 128 then 1 else 0) + Terminators(b[1..])
  }

  /** count_packed_elements */
  function CountPacked(t: Type, b: seq<byte>): Option<nat> {
    if Is32(t) then (if |b| % 4 != 0 then None else Some(|b| / 4))
    else if Is64(t) then (if |b| % 8 != 0 then None else Some(|b| / 8))
    else if t.BOOL? then Some(|b|)
    else if Packable(t) then Some(Terminators(b))
    else None
  }

  predicate ComesPacked(f: Field, wire: nat) {
    wire == PREFIXED && (f.packed || Packable(f.typ))
  }

  /** How many elements the scan counts for a member; None aborts the scan. */
  function Count(fields: seq<Field>, mem: Member): Option<nat>
    requires mem.field < |fields| && mem.prefix <= |mem.data|
  {
    if mem.field < 0 || !fields[mem.field].rule.REPEATED? then Some(0)
    else if ComesPacked(fields[mem.field], mem.wire) then CountPacked(fields[mem.field].typ, mem.data[mem.prefix..])
    else Some(1)
  }

  function PrefixLength(wire: nat, b: seq<byte>): (n: nat)
    ensures n <= |b|
  {
    if wire == PREFIXED then VarintLength(b, 5) else 0
  }

  /** The member at the start of b, with the number of bytes it takes. */
  function FirstMember(fields: seq<Field>, b: seq<byte>): (r: Option<(Member, nat)>)
    ensures r.Some? ==>
              && 0 < r.value.1 <= |b|
              && 0 < |r.value.0.data| < |b|
              && GoodMember(fields, r.value.0)
  {
    var used := VarintLength(b, 5);
    if used == 0 then None
    else
      var key := Groups(b[..used]);
      var rest := b[used..];
      var n := MemberLength(key % 8, rest);
      if n == 0 then None
      else
        PrefixInside(key % 8, rest);
        var mem := Member(key / 8, key % 8, PrefixLength(key % 8, rest), rest[..n], IndexOf(Ids(fields), key / 8));
        if Count(fields, mem).None? then None else Some((mem, used + n))
  }

  lemma PrefixInside(wire: nat, b: seq<byte>)
    ensures MemberLength(wire, b) > 0 ==> PrefixLength(wire, b) <= MemberLength(wire, b)
  {
  }

  predicate GoodMember(fields: seq<Field>, mem: Member) {
    && -1 <= mem.field < |fields|
    && mem.prefix <= |mem.data|
    && 0 < |mem.data|
    && (mem.wire == BITS32 ==> |mem.data| == 4)
    && (mem.wire == BITS64 ==> |mem.data| == 8)
    && (mem.wire == VARINT ==> |mem.data| <= 10)
    && Count(fields, mem).Some?
  }

  /** The members of a message in order; None when any of them cannot be delimited. */
  function Scan(fields: seq<Field>, b: seq<byte>): (r: Option<seq<Member>>)
    ensures r.Some? ==> forall i :: 0 <= i < |r.value| ==> GoodMember(fields, r.value[i]) && |r.value[i].data| < |b|
  {
    if b == [] then Some([])
    else
      var first := FirstMember(fields, b);
      if first.None? then None
      else
        var rest := Scan(fields, b[first.value.1..]);
        if rest.None? then None else Some([first.value.0] + rest.value)
  }

  // ---------------------------------------------------------------------------
  // Values
  // ---------------------------------------------------------------------------

  /** parse_boolean */
  predicate AnyBits(b: seq<byte>) {
    exists i :: 0 <= i < |b| && b[i] % 128 != 0
  }

  /** parse_uint32, unzigzag32, parse_fixed_uint32, ... by field type. */
  function ParseNumber(t: Type, b: seq<byte>): int
    requires |b| > 0
  {
    match t
    case INT32 => Signed(ParseUint32(b), TWO32)
    case ENUM => Signed(ParseUint32(b), TWO32)
    case UINT32 => ParseUint32(b)
    case SINT32 => Unzigzag(ParseUint32(b), TWO32)
    case SFIXED32 => Signed(FromLittleEndian(b), TWO32)
    case SFIXED64 => Signed(FromLittleEndian(b), TWO64)
    case INT64 => Signed(Groups(b) % TWO64, TWO64)
    case UINT64 => Groups(b) % TWO64
    case SINT64 => Unzigzag(Groups(b) % TWO64, TWO64)
    case BOOL => if AnyBits(b) then 1 else 0
    case _ => FromLittleEndian(b)
  }

  /** The length of the first element of a packed payload; 0 is an error. */
  function ElementLength(t: Type, b: seq<byte>): (n: nat)
    requires b != []
    ensures n <= |b|
  {
    if Is32(t) then (if |b| < 4 then 0 else 4)
    else if Is64(t) then (if |b| < 8 then 0 else 8)
    else if t.BOOL? then (if b[0] > 1 then 0 else 1)
    else VarintLength(b, 10)
  }

  /** parse_packed_repeated_member */
  function ParsePacked(t: Type, b: seq<byte>): Option<seq<Value>> {
    if b == [] then Some([])
    else
      var n := ElementLength(t, b);
      if n == 0 then None
      else
        var rest := ParsePacked(t, b[n..]);
        if rest.None? then None else Some([Number(ParseNumber(t, b[..n]))] + rest.value)
  }

  /** One element fewer, one element less to count. */
  lemma ElementCounts(t: Type, b: seq<byte>, n: nat)
    requires b != [] && CountPacked(t, b).Some? && n == ElementLength(t, b) > 0
    ensures CountPacked(t, b[n..]).Some? && CountPacked(t, b).value == 1 + CountPacked(t, b[n..]).value
  {
    hide Terminators, ElementLength;
    if Packable(t) && !Is32(t) && !Is64(t) && !t.BOOL? {
      ElementEnds(t, b, n);
      TerminatorsSplit(b, n);
    } else {
      FixedElement(t, b);
    }
  }

  lemma ElementEnds(t: Type, b: seq<byte>, n: nat)
    requires b != [] && Packable(t) && !Is32(t) && !Is64(t) && !t.BOOL? && n == ElementLength(t, b) > 0
    ensures b[n - 1] < 128 && forall i :: 0 <= i < n - 1 ==> b[i] >= 128
  {
  }

  lemma FixedElement(t: Type, b: seq<byte>)
    requires b != [] && ElementLength(t, b) > 0
    ensures Is32(t) ==> ElementLength(t, b) == 4
    ensures Is64(t) ==> ElementLength(t, b) == 8
    ensures t.BOOL? ==> ElementLength(t, b) == 1
  {
  }

  /** The two passes agree: the parse finds exactly the elements the scan counted. */
  lemma {:induction false} PackedCountIsExact(t: Type, b: seq<byte>)
    requires CountPacked(t, b).Some? && ParsePacked(t, b).Some?
    ensures |ParsePacked(t, b).value| == CountPacked(t, b).value
  {
    hide CountPacked, ElementLength, ParseNumber;
    if b == [] {
      NothingCounted(t);
    } else {
      var n := ElementLength(t, b);
      ElementCounts(t, b, n);
      PackedCountIsExact(t, b[n..]);
    }
  }

  lemma NothingCounted(t: Type)
    ensures CountPacked(t, []).Some? ==> CountPacked(t, []).value == 0
  {
  }

  lemma {:induction false} TerminatorsSplit(b: seq<byte>, n: nat)
    requires 0 < n <= |b| && b[n - 1] < 128 && forall i :: 0 <= i < n - 1 ==> b[i] >= 128
    ensures Terminators(b) == 1 + Terminators(b[n..])
  {
    if n > 1 {
      TerminatorsSplit(b[1..], n - 1);
      assert b[1..][n - 1..] == b[n..];
    }
  }

  // ---------------------------------------------------------------------------
  // The parse
  // ---------------------------------------------------------------------------

  predicate Shaped(schema: Schema, m: Message) {
    && m.desc < |schema|
    && |m.slots| == |schema[m.desc].fields|
    && forall i :: 0 <= i < |m.slots| ==> (m.slots[i].Many? <==> schema[m.desc].fields[i].rule.REPEATED?)
  }

  /** message_init_generic */
  function InitSlot(f: Field): Slot {
    if f.rule.REPEATED? then Many([]) else One(f.default)
  }

  function Init(schema: Schema, d: nat): (m: Message)
    requires d < |schema|
    ensures Shaped(schema, m) && m.desc == d && m.unknown == []
    ensures forall i :: 0 <= i < |m.slots| ==> m.slots[i] == InitSlot(schema[d].fields[i])
  {
    var fields := schema[d].fields;
    Message(d, seq(|fields|, i requires 0 <= i < |fields| => InitSlot(fields[i])), [])
  }

  /** The members of a oneof share their storage: setting one clears the others. */
  function ClearGroup(fields: seq<Field>, slots: seq<Slot>, group: nat): (r: seq<Slot>)
    requires |fields| == |slots|
    ensures |r| == |slots|
    ensures forall i :: 0 <= i < |r| ==> r[i] == if fields[i].rule == ONEOF(group) then One(None) else slots[i]
  {
    seq(|slots|, i requires 0 <= i < |slots| => if fields[i].rule == ONEOF(group) then One(None) else slots[i])
  }

  /** parse_required_member; held is what the slot holds already. */
  function ParseValue(schema: Schema, t: Type, mem: Member, held: Option<Value>, merge: Merge): Option<Value>
    requires mem.prefix <= |mem.data| && 0 < |mem.data|
    decreases |mem.data|, 2, 0
  {
    if t.BOOL? then Some(Number(ParseNumber(t, mem.data)))
    else if mem.wire != WireOf(t) then None
    else if Packable(t) then Some(Number(ParseNumber(t, mem.data)))
    else
      var payload := mem.data[mem.prefix..];
      match t
      case STRING => Some(Text(payload))
      case BYTES => Some(Data(payload))
      case MESSAGE(d) =>
        var sub := if d < |schema| then Unpack(schema, d, payload, merge) else None;
        if sub.None? then None
        else if held.Some? && held.value.Nested? then
          var merged := merge(held.value.m, sub.value);
          if merged.None? then None else Some(Nested(merged.value))
        else Some(Nested(sub.value))
      case _ => None
  }

  /** parse_member */
  function ParseMember(schema: Schema, mem: Member, m: Message, merge: Merge): (r: Option<Message>)
    requires Shaped(schema, m) && GoodMember(schema[m.desc].fields, mem)
    ensures r.Some? ==> Shaped(schema, r.value) && r.value.desc == m.desc
    decreases |mem.data|, 3, 0
  {
    if mem.field < 0 then
      Some(m.(unknown := m.unknown + [Unknown(mem.tag, mem.wire, mem.data)]))
    else
      var i := mem.field;
      var f := schema[m.desc].fields[i];
      match f.rule
      case ONEOF(group) =>
        var v := ParseValue(schema, f.typ, mem, None, merge);
        if v.None? then None
        else Some(m.(slots := ClearGroup(schema[m.desc].fields, m.slots, group)[i := One(v)]))
      case REPEATED =>
        var more := ParseElements(schema, f, mem, merge);
        if more.None? then None else Some(m.(slots := m.slots[i := Many(m.slots[i].vs + more.value)]))
      case _ =>
        var v := ParseValue(schema, f.typ, mem, m.slots[i].v, merge);
        if v.None? then None else Some(m.(slots := m.slots[i := One(v)]))
  }

  /** parse_packed_repeated_member or parse_repeated_member: the elements one member adds. */
  function ParseElements(schema: Schema, f: Field, mem: Member, merge: Merge): Option<seq<Value>>
    requires mem.prefix <= |mem.data| && 0 < |mem.data|
    decreases |mem.data|, 2, 1
  {
    if ComesPacked(f, mem.wire) then ParsePacked(f.typ, mem.data[mem.prefix..])
    else
      var v := ParseValue(schema, f.typ, mem, None, merge);
      if v.None? then None else Some([v.value])
  }

  predicate GoodMembers(fields: seq<Field>, ms: seq<Member>, bound: nat) {
    forall i :: 0 <= i < |ms| ==> GoodMember(fields, ms[i]) && |ms[i].data| < bound
  }

  /** The members parsed one after the other into m. */
  function Parse(schema: Schema, ms: seq<Member>, m: Message, bound: nat, merge: Merge): (r: Option<Message>)
    requires Shaped(schema, m) && GoodMembers(schema[m.desc].fields, ms, bound)
    ensures r.Some? ==> Shaped(schema, r.value) && r.value.desc == m.desc
    decreases bound, 0, |ms|
  {
    if ms == [] then Some(m)
    else
      var before := Parse(schema, ms[..|ms| - 1], m, bound, merge);
      if before.None? then None else ParseMember(schema, ms[|ms| - 1], before.value, merge)
  }

  predicate Mentions(ms: seq<Member>, field: int) {
    exists i :: 0 <= i < |ms| && ms[i].field == field
  }

  /** A required field without a default that no member carries. */
  predicate Missing(fields: seq<Field>, ms: seq<Member>) {
    exists f :: 0 <= f < |fields| && fields[f].rule.REQUIRED? && fields[f].default.None? && !Mentions(ms, f)
  }

  /** protobuf_c_message_unpack */
  function Unpack(schema: Schema, d: nat, b: seq<byte>, merge: Merge): (r: Option<Message>)
    requires d < |schema|
    ensures r.Some? ==> Shaped(schema, r.value) && r.value.desc == d
    decreases |b|, 1, 0
  {
    var ms := Scan(schema[d].fields, b);
    if ms.None? || |ms.value| > SLAB_CAPACITY || Missing(schema[d].fields, ms.value) then None
    else Parse(schema, ms.value, Init(schema, d), |b|, merge)
  }
}
