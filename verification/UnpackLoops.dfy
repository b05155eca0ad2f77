/**
The parse pass of protobuf_c_message_unpack over a message being built: element
arrays allocated from the counts of the scan, filled in place.
*/
module UnpackLoops {
  import opened Options
  import opened Bytes
  import opened Varints
  import opened Messages
  import opened Unpacking
  import opened ScanLoops
  import Slabs

  // ---------------------------------------------------------------------------
  // Elements
  // ---------------------------------------------------------------------------

  /** One number, by the parse routine of its type. */
  method ParseOne(t: Type, b: seq<byte>) returns (n: int)
    requires 0 < |b| <= 10
    ensures n == ParseNumber(t, b)
  {
    if t.INT64? || t.UINT64? || t.SINT64? {
      var v := ParseUint64(b);
      n := if t.INT64? then Signed(v, TWO64) else if t.UINT64? then v else Unzigzag(v, TWO64);
    } else {
      n := ParseNumber(t, b);
    }
  }

  /** What has been parsed so far, with what the rest still gives, is the whole payload. */
  ghost predicate ParsedTo(t: Type, b: seq<byte>, done: seq<Value>, rest: seq<byte>) {
    && ParsePacked(t, b) == Prepend(done, ParsePacked(t, rest))
    && CountPacked(t, b).Some? && CountPacked(t, rest).Some?
    && CountPacked(t, b).value == |done| + CountPacked(t, rest).value
  }

  lemma ElementParsed(t: Type, b: seq<byte>, done: seq<Value>, rest: seq<byte>)
    requires ParsedTo(t, b, done, rest) && rest != []
    ensures var n := ElementLength(t, rest);
            if n == 0 then ParsePacked(t, b).None?
            else ParsedTo(t, b, done + [Number(ParseNumber(t, rest[..n]))], rest[n..])
  {
    hide CountPacked, ElementLength, ParseNumber;
    var n := ElementLength(t, rest);
    if n > 0 {
      ElementCounts(t, rest, n);
      PrependTwice(done, [Number(ParseNumber(t, rest[..n]))], ParsePacked(t, rest[n..]));
    }
  }

  /** The length of the next element of a packed payload, as the loops of the switch find it. */
  method NextElement(t: Type, rest: seq<byte>) returns (n: nat)
    requires rest != [] && CountPacked(t, rest).Some?
    ensures n == ElementLength(t, rest) <= |rest|
    ensures n <= 10
  {
    if Is32(t) {
      return 4;
    } else if Is64(t) {
      return 8;
    } else if t.BOOL? {
      return if rest[0] > 1 then 0 else 1;
    } else {
      n := ScanVarint(rest);
    }
  }

  /**
  parse_packed_repeated_member: fills the array behind the elements it holds.  The
  count of the scan bounds every write, and a success writes exactly that many.
  */
  method ParsePackedRepeatedMember(t: Type, b: seq<byte>, elements: array<Value>, n: nat) returns (ok: bool, count: nat)
    requires CountPacked(t, b).Some? && n + CountPacked(t, b).value <= elements.Length
    modifies elements
    ensures elements[..n] == old(elements[..n])
    ensures ok <==> ParsePacked(t, b).Some?
    ensures ok ==> count == CountPacked(t, b).value && elements[n..n + count] == ParsePacked(t, b).value
  {
    count := 0;
    var rest := b;
    PrependTwice([], [], ParsePacked(t, b));
    assert elements[n..n + count] == [];
    while rest != []
      invariant n + count <= elements.Length && elements[..n] == old(elements[..n])
      invariant ParsedTo(t, b, elements[n..n + count], rest)
      decreases |rest|
    {
      ElementParsed(t, b, elements[n..n + count], rest);
      var s := NextElement(t, rest);
      if s == 0 {
        return false, count;
      }
      var v := ParseOne(t, rest[..s]);
      Room(t, b, elements[n..n + count], Number(v), rest[s..]);
      StoreElement(elements, n, count, Number(v));
      count := count + 1;
      rest := rest[s..];
    }
    NothingCounted(t);
    assert elements[n..n + count] + [] == elements[n..n + count];
    ok := true;
  }

  lemma Room(t: Type, b: seq<byte>, done: seq<Value>, v: Value, rest: seq<byte>)
    requires ParsedTo(t, b, done + [v], rest)
    ensures |done| < CountPacked(t, b).value
  {
    hide CountPacked, ParsePacked;
  }

  method StoreElement(elements: array<Value>, n: nat, count: nat, v: Value)
    requires n + count < elements.Length
    modifies elements
    ensures elements[..n] == old(elements[..n])
    ensures elements[n..n + count + 1] == old(elements[n..n + count]) + [v]
  {
    elements[n + count] := v;
  }

  // ---------------------------------------------------------------------------
  // The message being built
  // ---------------------------------------------------------------------------

  /**
  A message under construction.  The members of a oneof share one value and one
  case number; a repeated field has an array and the number of elements in it.
  */
  class Draft {
    const schema: Schema
    const d: nat
    var singles: seq<Option<Value>>
    var oneofs: map<nat, (nat, Value)>
    var n: seq<nat>
    var elements: seq<array<Value>>
    var unknown: array<Unknown>
    var nUnknown: nat

    ghost predicate Valid()
      reads this
    {
      && d < |schema|
      && |singles| == |n| == |elements| == |schema[d].fields|
      && (forall i :: 0 <= i < |elements| ==> n[i] <= elements[i].Length)
      && (forall i, j :: 0 <= i < j < |elements| ==> elements[i] != elements[j])
      && nUnknown <= unknown.Length
    }

    /** What the struct says about field i. */
    function SlotAt(i: nat): Slot
      requires Valid() && i < |elements|
      reads this, elements
    {
      var f := schema[d].fields[i];
      match f.rule
      case REPEATED => Many(elements[i][..n[i]])
      case ONEOF(group) => One(if group in oneofs && oneofs[group].0 == f.id then Some(oneofs[group].1) else None)
      case _ => One(singles[i])
    }

    function Whole(): (m: Message)
      requires Valid()
      reads this, elements, unknown
    {
      Message(d, seq(|elements|, i requires 0 <= i < |elements| && Valid() reads this, elements => SlotAt(i)),
          unknown[..nUnknown])
    }

    lemma WholeIsShaped()
      requires Valid()
      ensures Shaped(schema, Whole())
    {
    }

    /** message_init_generic, with the arrays the counts of the scan asked for. */
    constructor (schema: Schema, d: nat, arrays: seq<array<Value>>, nUnknown: nat)
      requires ValidSchema(schema) && d < |schema| && |arrays| == |schema[d].fields|
      requires forall i, j :: 0 <= i < j < |arrays| ==> arrays[i] != arrays[j]
      ensures this.schema == schema && this.d == d && elements == arrays
      ensures Valid() && fresh(unknown)
      ensures Whole() == Init(schema, d)
      ensures forall i :: 0 <= i < |n| ==> n[i] == 0
      ensures this.nUnknown == 0 && unknown.Length == nUnknown
    {
      var fields := schema[d].fields;
      this.schema, this.d := schema, d;
      singles := seq(|fields|, i requires 0 <= i < |fields| => fields[i].default);
      oneofs := map[];
      n := seq(|fields|, _ => 0);
      elements := arrays;
      unknown := new Unknown[nUnknown](_ => Unknown(0, 0, []));
      this.nUnknown := 0;
      new;
      assert ValidDescriptor(schema, schema[d]);
      forall i | 0 <= i < |elements| ensures SlotAt(i) == InitSlot(schema[d].fields[i]) {
        assert ValidField(schema, schema[d].fields[i]);
      }
      assert Whole().slots == Init(schema, d).slots;
    }

    /** parse_required_member and parse_optional_member, behind the parse of the value. */
    method SetSingle(i: nat, v: Value)
      requires Valid() && i < |elements|
      requires var rule := schema[d].fields[i].rule; rule.REQUIRED? || rule.OPTIONAL?
      modifies this`singles
      ensures Valid() && Whole() == old(Whole()).(slots := old(Whole()).slots[i := One(Some(v))])
    {
      singles := singles[i := Some(v)];
      assert Whole().slots == old(Whole()).slots[i := One(Some(v))];
    }

    /** parse_oneof_member clears what the oneof holds ... */
    method ClearOneof(group: nat)
      requires Valid()
      modifies this`oneofs
      ensures group !in oneofs
      ensures Valid() && Whole() == old(Whole()).(slots := ClearGroup(schema[d].fields, old(Whole()).slots, group))
    {
      oneofs := oneofs - {group};
      assert Whole().slots == ClearGroup(schema[d].fields, old(Whole()).slots, group);
    }

    /** ... and records the new case. */
    method SetOneof(i: nat, group: nat, v: Value)
      requires Valid() && i < |elements| && schema[d].fields[i].rule == ONEOF(group)
      requires forall j :: 0 <= j < |elements| && j != i ==> schema[d].fields[j].id != schema[d].fields[i].id
      requires group !in oneofs
      modifies this`oneofs
      ensures Valid() && Whole() == old(Whole()).(slots := old(Whole()).slots[i := One(Some(v))])
    {
      oneofs := oneofs[group := (schema[d].fields[i].id, v)];
      assert Whole().slots == old(Whole()).slots[i := One(Some(v))];
    }

    /** The field == NULL branch of parse_member. */
    method AddUnknown(u: Unknown)
      requires Valid() && nUnknown < unknown.Length
      modifies this`nUnknown, unknown
      ensures Valid() && nUnknown == old(nUnknown) + 1
      ensures Whole() == old(Whole()).(unknown := old(Whole()).unknown + [u])
    {
      unknown[nUnknown] := u;
      nUnknown := nUnknown + 1;
      assert Whole().slots == old(Whole()).slots;
      assert Whole().unknown == old(Whole()).unknown + [u];
    }

    /** Counts elements that have been written behind those field i had. */
    method Extend(i: nat, count: nat, ghost before: Message, ghost more: seq<Value>)
      requires Valid() && i < |elements| && schema[d].fields[i].rule.REPEATED?
      requires n[i] + count <= elements[i].Length && count == |more|
      requires Whole() == before
      requires elements[i][n[i]..n[i] + count] == more
      modifies this`n
      ensures Valid() && n == old(n)[i := old(n[i]) + count]
      ensures Whole() == before.(slots := before.slots[i := Many(before.slots[i].vs + more)])
    {
      ghost var had := n[i];
      n := n[i := n[i] + count];
      assert elements[i][..had + count] == elements[i][..had] + elements[i][had..had + count];
      assert Whole().slots == before.slots[i := Many(before.slots[i].vs + more)];
    }

    /** Writes behind the elements of field i leave the message as it is. */
    method FillPacked(i: nat, b: seq<byte>) returns (ok: bool, count: nat)
      requires Valid() && i < |elements| && schema[d].fields[i].rule.REPEATED?
      requires CountPacked(schema[d].fields[i].typ, b).Some?
      requires n[i] + CountPacked(schema[d].fields[i].typ, b).value <= elements[i].Length
      modifies elements[i]
      ensures Valid() && Whole() == old(Whole())
      ensures var parsed := ParsePacked(schema[d].fields[i].typ, b);
              && (ok <==> parsed.Some?)
              && (ok ==> count == CountPacked(schema[d].fields[i].typ, b).value
                         && elements[i][n[i]..n[i] + count] == parsed.value)
    {
      ok, count := ParsePackedRepeatedMember(schema[d].fields[i].typ, b, elements[i], n[i]);
      assert Whole().slots == old(Whole()).slots;
    }

    method FillOne(i: nat, v: Value)
      requires Valid() && i < |elements| && schema[d].fields[i].rule.REPEATED? && n[i] < elements[i].Length
      modifies elements[i]
      ensures Valid() && Whole() == old(Whole())
      ensures elements[i][n[i]..n[i] + 1] == [v]
    {
      elements[i][n[i]] := v;
      assert elements[i][..n[i]] == old(elements[i][..n[i]]);
      assert Whole().slots == old(Whole()).slots;
    }
  }

  method AllocateArrays(counts: seq<nat>) returns (arrays: seq<array<Value>>)
    ensures |arrays| == |counts| && fresh(arrays)
    ensures forall i :: 0 <= i < |arrays| ==> arrays[i].Length == counts[i]
    ensures forall i, j :: 0 <= i < j < |arrays| ==> arrays[i] != arrays[j]
  {
    arrays := [];
    for k := 0 to |counts|
      invariant |arrays| == k && fresh(arrays)
      invariant forall i :: 0 <= i < k ==> arrays[i].Length == counts[i]
      invariant forall i, j :: 0 <= i < j < k ==> arrays[i] != arrays[j]
    {
      var a := new Value[counts[k]](_ => Number(0));
      arrays := arrays + [a];
    }
  }

  // ---------------------------------------------------------------------------
  // The second pass
  // ---------------------------------------------------------------------------

  /** b is shorter than 2^32 bytes, and no declared length in b, or in a nested message of b, wraps. */
  ghost predicate Fits(schema: Schema, d: nat, b: seq<byte>)
    requires d < |schema|
    decreases |b|, 0
  {
    var fields := schema[d].fields;
    && |b| < TWO32
    && ScanFits(fields, b)
    && (Scan(fields, b).Some? ==>
          forall k :: 0 <= k < |Scan(fields, b).value| ==> MemberFits(schema, fields, Scan(fields, b).value[k]))
  }

  ghost predicate MemberFits(schema: Schema, fields: seq<Field>, mem: Member)
    requires GoodMember(fields, mem)
    decreases |mem.data|, 2
  {
    mem.field >= 0 ==> DataFits(schema, fields[mem.field].typ, mem)
  }

  ghost predicate DataFits(schema: Schema, t: Type, mem: Member)
    requires mem.prefix <= |mem.data|
    decreases |mem.data|, 1
  {
    t.MESSAGE? && t.desc < |schema| && mem.wire == PREFIXED ==> Fits(schema, t.desc, mem.data[mem.prefix..])
  }

  /** parse_boolean */
  method ParseBoolean(b: seq<byte>) returns (r: bool)
    ensures r <==> AnyBits(b)
  {
    for i := 0 to |b|
      invariant forall j :: 0 <= j < i ==> b[j] % 128 == 0
    {
      if b[i] % 128 != 0 {
        return true;
      }
    }
    return false;
  }

  /** The wire type fixes how many bytes a number takes. */
  predicate Sized(mem: Member) {
    && (mem.wire == BITS32 ==> |mem.data| == 4)
    && (mem.wire == BITS64 ==> |mem.data| == 8)
    && (mem.wire == VARINT ==> |mem.data| <= 10)
  }

  /** A nested message joins the one that is there. */
  method MergeNested(sub: Option<Message>, held: Option<Value>, merge: Merge) returns (v: Option<Value>)
    ensures v == if sub.None? then None
                 else if held.Some? && held.value.Nested? then
                   var merged := merge(held.value.m, sub.value);
                   if merged.None? then None else Some(Nested(merged.value))
                 else Some(Nested(sub.value))
  {
    if held.Some? && held.value.Nested? && sub.Some? {
      var merged := merge(held.value.m, sub.value);
      return if merged.None? then None else Some(Nested(merged.value));
    }
    return if sub.None? then None else Some(Nested(sub.value));
  }

  /** parse_required_member; held is None where the source passes maybe_clear FALSE. */
  method ParseRequiredMember(schema: Schema, t: Type, mem: Member, held: Option<Value>, merge: Merge)
    returns (v: Option<Value>)
    requires ValidSchema(schema) && mem.prefix <= |mem.data| && 0 < |mem.data| && Sized(mem) && DataFits(schema, t, mem)
    ensures v == ParseValue(schema, t, mem, held, merge)
    decreases |mem.data|, 2
  {
    if t.BOOL? {
      var r := ParseBoolean(mem.data);
      return Some(Number(if r then 1 else 0));
    }
    if mem.wire != WireOf(t) {
      return None;
    }
    if Packable(t) {
      var n := ParseOne(t, mem.data);
      return Some(Number(n));
    }
    var payload := mem.data[mem.prefix..];
    match t {
      case STRING => return Some(Text(payload));
      case BYTES => return Some(Data(payload));
      case MESSAGE(e) =>
        if e >= |schema| {
          return None;
        }
        var sub := UnpackMessage(schema, e, payload, merge);
        v := MergeNested(sub, held, merge);
      case _ => return None;
    }
  }

  /** parse_member: writes into the message being built, within the room the scan made. */
  method ParseInto(draft: Draft, mem: Member, merge: Merge) returns (ok: bool)
    requires draft.Valid() && ValidSchema(draft.schema)
    requires GoodMember(draft.schema[draft.d].fields, mem)
        && MemberFits(draft.schema, draft.schema[draft.d].fields, mem)
    requires mem.field < 0 ==> draft.nUnknown < draft.unknown.Length
    requires mem.field >= 0 && draft.schema[draft.d].fields[mem.field].rule.REPEATED? ==>
               draft.n[mem.field] + Count(draft.schema[draft.d].fields, mem).value <= draft.elements[mem.field].Length
    modifies draft, draft.elements, draft.unknown
    ensures draft.Valid() && draft.elements == old(draft.elements) && draft.unknown == old(draft.unknown)
    ensures Shaped(draft.schema, old(draft.Whole()))
    ensures ok <==> ParseMember(draft.schema, mem, old(draft.Whole()), merge).Some?
    ensures ok ==> draft.Whole() == ParseMember(draft.schema, mem, old(draft.Whole()), merge).value
    ensures ok ==> draft.nUnknown == old(draft.nUnknown) + if mem.field < 0 then 1 else 0
    ensures ok ==> forall i :: 0 <= i < |draft.n| ==>
        draft.n[i] == old(draft.n[i]) + CountOf(draft.schema[draft.d].fields, mem, i)
    decreases |mem.data|, 4
  {
    hide ParseValue, ParseElements, DataFits, WireOf, Packable, Sized, CountPacked;
    draft.WholeIsShaped();
    if mem.field < 0 {
      draft.AddUnknown(Unknown(mem.tag, mem.wire, mem.data));
      return true;
    }
    var i := mem.field;
    var f := draft.schema[draft.d].fields[i];
    match f.rule {
      case ONEOF(group) =>
        draft.ClearOneof(group);
        var v := ParseRequiredMember(draft.schema, f.typ, mem, None, merge);
        if v.None? {
          return false;
        }
        assert ValidDescriptor(draft.schema, draft.schema[draft.d]);
        DistinctIds(draft.schema[draft.d].fields, i);
        draft.SetOneof(i, group, v.value);
        ok := true;
      case REPEATED =>
        ok := ParseRepeated(draft, mem, merge);
      case _ =>
        var v := ParseRequiredMember(draft.schema, f.typ, mem, draft.singles[i], merge);
        if v.None? {
          return false;
        }
        draft.SetSingle(i, v.value);
        ok := true;
    }
  }

  lemma DistinctIds(fields: seq<Field>, i: nat)
    requires RangeLookup.Increasing(Ids(fields)) && i < |fields|
    ensures forall j :: 0 <= j < |fields| && j != i ==> fields[j].id != fields[i].id
  {
    forall j | 0 <= j < |fields| && j != i ensures fields[j].id != fields[i].id {
      assert Ids(fields)[j] == fields[j].id && Ids(fields)[i] == fields[i].id;
    }
  }

  /** parse_packed_repeated_member or parse_repeated_member, with the count brought up to date. */
  method ParseRepeated(draft: Draft, mem: Member, merge: Merge) returns (ok: bool)
    requires draft.Valid() && ValidSchema(draft.schema)
    requires GoodMember(draft.schema[draft.d].fields, mem)
        && MemberFits(draft.schema, draft.schema[draft.d].fields, mem)
    requires mem.field >= 0 && draft.schema[draft.d].fields[mem.field].rule.REPEATED?
    requires draft.n[mem.field] + Count(draft.schema[draft.d].fields, mem).value <= draft.elements[mem.field].Length
    modifies draft`n, draft.elements[mem.field]
    ensures draft.Valid()
    ensures Shaped(draft.schema, old(draft.Whole()))
    ensures ok <==> ParseMember(draft.schema, mem, old(draft.Whole()), merge).Some?
    ensures ok ==> draft.Whole() == ParseMember(draft.schema, mem, old(draft.Whole()), merge).value
    ensures ok ==> draft.n == old(draft.n)[mem.field := old(draft.n[mem.field])
        + Count(draft.schema[draft.d].fields, mem).value]
    decreases |mem.data|, 3
  {
    hide ParsePacked, CountPacked, ParseValue, DataFits, WireOf, Packable, Sized;
    draft.WholeIsShaped();
    ghost var before := draft.Whole();
    var i := mem.field;
    var f := draft.schema[draft.d].fields[i];
    if ComesPacked(f, mem.wire) {
      var count;
      ok, count := draft.FillPacked(i, mem.data[mem.prefix..]);
      if ok {
        PackedCountIsExact(f.typ, mem.data[mem.prefix..]);
        draft.Extend(i, count, before, ParsePacked(f.typ, mem.data[mem.prefix..]).value);
      }
    } else {
      var v := ParseRequiredMember(draft.schema, f.typ, mem, None, merge);
      if v.None? {
        return false;
      }
      draft.FillOne(i, v.value);
      draft.Extend(i, 1, before, [v.value]);
      ok := true;
    }
  }

  // ---------------------------------------------------------------------------
  // Both passes
  // ---------------------------------------------------------------------------

  /** How far the replay has come: k members, each parsed and counted. */
  ghost predicate Replayed(draft: Draft, ms: seq<Member>, k: nat, bound: nat, merge: Merge)
    requires k <= |ms|
    reads draft, draft.elements, draft.unknown
  {
    && draft.Valid()
    && GoodMembers(draft.schema[draft.d].fields, ms, bound)
    && Parse(draft.schema, ms[..k], Init(draft.schema, draft.d), bound, merge) == Some(draft.Whole())
    && (forall i :: 0 <= i < |draft.n| ==> draft.n[i] == TotalCount(draft.schema[draft.d].fields, ms[..k], i))
    && (forall i :: 0 <= i < |draft.n| ==> draft.elements[i].Length == TotalCount(draft.schema[draft.d].fields, ms, i))
    && draft.nUnknown == UnknownCount(ms[..k])
    && draft.unknown.Length == UnknownCount(ms)
  }

  /** The next member fits the room that is left. */
  lemma RoomForNext(fields: seq<Field>, ms: seq<Member>, k: nat, i: nat)
    requires k < |ms| && forall j :: 0 <= j < |ms| ==> GoodMember(fields, ms[j])
    ensures TotalCount(fields, ms[..k + 1], i) == TotalCount(fields, ms[..k], i) + CountOf(fields, ms[k], i)
        <= TotalCount(fields, ms, i)
    ensures UnknownCount(ms[..k + 1]) == UnknownCount(ms[..k]) + (if ms[k].field < 0 then 1 else 0) <= UnknownCount(ms)
  {
    assert ms[..k + 1] == ms[..k] + [ms[k]];
    CountsSnoc(fields, ms[..k], ms[k], i);
    CountsGrow(fields, ms, k + 1, i);
  }

  /** A member that does not parse makes the whole parse fail. */
  lemma {:induction false} ParseFails(schema: Schema, ms: seq<Member>, k: nat, m: Message, bound: nat, merge: Merge)
    requires Shaped(schema, m) && GoodMembers(schema[m.desc].fields, ms, bound) && k <= |ms|
    requires Parse(schema, ms[..k], m, bound, merge).None?
    ensures Parse(schema, ms, m, bound, merge).None?
    decreases |ms|
  {
    if k == |ms| {
      assert ms[..k] == ms;
    } else {
      assert ms[..|ms| - 1][..k] == ms[..k];
      ParseFails(schema, ms[..|ms| - 1], k, m, bound, merge);
    }
  }

  method ReplayNext(draft: Draft, ghost ms: seq<Member>, ghost k: nat, mem: Member, ghost bound: nat, merge: Merge)
    returns (ok: bool)
    requires ValidSchema(draft.schema) && k < |ms| && mem == ms[k]
    requires Replayed(draft, ms, k, bound, merge)
    requires MemberFits(draft.schema, draft.schema[draft.d].fields, mem)
    modifies draft, draft.elements, draft.unknown
    ensures draft.elements == old(draft.elements) && draft.unknown == old(draft.unknown)
    ensures ok ==> Replayed(draft, ms, k + 1, bound, merge)
    ensures !ok ==> Parse(draft.schema, ms, Init(draft.schema, draft.d), bound, merge).None?
    decreases |mem.data|, 5
  {
    forall i | 0 <= i < |draft.n|
      ensures draft.n[i] + CountOf(draft.schema[draft.d].fields, mem, i)
          == TotalCount(draft.schema[draft.d].fields, ms[..k + 1], i)
      ensures draft.n[i] + CountOf(draft.schema[draft.d].fields, mem, i) <= draft.elements[i].Length
    {
      RoomForNext(draft.schema[draft.d].fields, ms, k, i);
    }
    RoomForNext(draft.schema[draft.d].fields, ms, k, 0);
    ok := ParseInto(draft, mem, merge);
    assert ms[..k + 1][..k] == ms[..k];
    if !ok {
      ParseFails(draft.schema, ms, k + 1, Init(draft.schema, draft.d), bound, merge);
    }
  }

  /** The members of one slab. */
  method ReplaySlab(draft: Draft, slabs: Slabs.SlabList<Member>, slab: nat, ghost bound: nat, merge: Merge)
    returns (ok: bool)
    requires ValidSchema(draft.schema) && slabs.Valid() && slab < |slabs.slabs|
    requires Slabs.Start(slab) + slabs.Used(slab) <= |slabs.members|
    requires Replayed(draft, slabs.members, Slabs.Start(slab), bound, merge)
    requires forall k :: 0 <= k < |slabs.members| ==>
        MemberFits(draft.schema, draft.schema[draft.d].fields, slabs.members[k])
    modifies draft, draft.elements, draft.unknown
    ensures draft.elements == old(draft.elements) && draft.unknown == old(draft.unknown)
    ensures ok ==> Replayed(draft, slabs.members, Slabs.Start(slab) + slabs.Used(slab), bound, merge)
    ensures !ok ==> Parse(draft.schema, slabs.members, Init(draft.schema, draft.d), bound, merge).None?
    decreases bound, 0, 0
  {
    hide Fits, DataFits, Parse, Scan, ParseMember, TotalCount, UnknownCount;
    ghost var ms := slabs.members;
    var max := slabs.Used(slab);
    ghost var start := Slabs.Start(slab);
    assert slabs.InPlace(slab);
    ghost var inSlab := slabs.slabs[slab][..max];
    for j := 0 to max
      invariant draft.elements == old(draft.elements) && draft.unknown == old(draft.unknown)
      invariant slabs.slabs[slab][..max] == inSlab
      invariant Replayed(draft, ms, start + j, bound, merge)
    {
      assert slabs.slabs[slab][j] == inSlab[j] == ms[start + j];
      ok := ReplayNext(draft, ms, start + j, slabs.slabs[slab][j], bound, merge);
      if !ok {
        return;
      }
    }
    ok := true;
  }

  /** The members of the slabs, replayed in the order of the scan. */
  method Replay(draft: Draft, slabs: Slabs.SlabList<Member>, ghost bound: nat, merge: Merge) returns (ok: bool)
    requires ValidSchema(draft.schema) && slabs.Valid()
    requires Replayed(draft, slabs.members, 0, bound, merge)
    requires forall k :: 0 <= k < |slabs.members| ==>
        MemberFits(draft.schema, draft.schema[draft.d].fields, slabs.members[k])
    modifies draft, draft.elements, draft.unknown
    ensures ok ==> Replayed(draft, slabs.members, |slabs.members|, bound, merge)
    ensures !ok ==> Parse(draft.schema, slabs.members, Init(draft.schema, draft.d), bound, merge).None?
    decreases bound, 0, 1
  {
    hide Fits, DataFits, Parse, Scan, ParseMember, TotalCount, UnknownCount;
    ghost var ms := slabs.members;
    ghost var k := 0;
    for slab := 0 to |slabs.slabs|
      invariant draft.elements == old(draft.elements) && draft.unknown == old(draft.unknown)
      invariant slabs.Valid() && slabs.members == ms
      invariant k == (if slab < |slabs.slabs| then Slabs.Start(slab) else |ms|)
      invariant k <= |ms| && Replayed(draft, ms, k, bound, merge)
    {
      assert slabs.InPlace(slab);
      ok := ReplaySlab(draft, slabs, slab, bound, merge);
      if !ok {
        return;
      }
      k := k + slabs.Used(slab);
      Slabs.StartNext(slab);
    }
    ok := true;
  }

  /** The loop over the fields that finds a required one no member carried. */
  method AnyMissing(fields: seq<Field>, ghost ms: seq<Member>, seen: seq<bool>) returns (missing: bool)
    requires |seen| == |fields|
    requires forall i :: 0 <= i < |fields| ==> (seen[i] <==> fields[i].rule.REQUIRED? && Mentions(ms, i))
    ensures missing <==> Missing(fields, ms)
  {
    for f := 0 to |fields|
      invariant forall i :: 0 <= i < f ==> !(fields[i].rule.REQUIRED? && fields[i].default.None? && !Mentions(ms, i))
    {
      if fields[f].rule.REQUIRED? && fields[f].default.None? && !seen[f] {
        return true;
      }
    }
    return false;
  }

  /** The second pass: arrays of the counted sizes, filled by the replay. */
  method Rebuild(schema: Schema, d: nat, slabs: Slabs.SlabList<Member>, counts: seq<nat>, ghost seen: seq<bool>,
      nUnknown: nat,
                 ghost bound: nat, merge: Merge) returns (m: Option<Message>)
    requires ValidSchema(schema) && d < |schema| && slabs.Valid()
    requires GoodMembers(schema[d].fields, slabs.members, bound)
    requires Counted(schema[d].fields, slabs.members, counts, seen, nUnknown)
    requires forall k :: 0 <= k < |slabs.members| ==> MemberFits(schema, schema[d].fields, slabs.members[k])
    ensures m == Parse(schema, slabs.members, Init(schema, d), bound, merge)
    decreases bound, 0, 2
  {
    hide Fits, DataFits, MemberFits, Scan, ParseMember, Count;
    var arrays := AllocateArrays(counts);
    var draft := new Draft(schema, d, arrays, nUnknown);
    ghost var ms := slabs.members;
    assert ms[..0] == [];
    var ok := Replay(draft, slabs, bound, merge);
    if !ok {
      return None;
    }
    assert ms[..|ms|] == ms;
    m := Some(draft.Whole());
  }

  lemma UnpackIs(schema: Schema, d: nat, b: seq<byte>, merge: Merge, ms: seq<Member>)
    requires d < |schema| && Scan(schema[d].fields, b) == Some(ms) && Fits(schema, d, b)
    ensures GoodMembers(schema[d].fields, ms, |b|)
    ensures forall k :: 0 <= k < |ms| ==> MemberFits(schema, schema[d].fields, ms[k])
    ensures Unpack(schema, d, b, merge)
         == if |ms| > SLAB_CAPACITY || Missing(schema[d].fields, ms) then None
            else Parse(schema, ms, Init(schema, d), |b|, merge)
  {
    hide Parse, MemberFits, Count;
  }

  /**
  protobuf_c_message_unpack computes Unpack, and never writes outside the arrays
  it sized from the counts of its first pass.  Fits keeps the input below 2^32
  bytes, so that no count loses bits where it is stored in 32.
  */
  method UnpackMessage(schema: Schema, d: nat, b: seq<byte>, merge: Merge) returns (m: Option<Message>)
    requires ValidSchema(schema) && d < |schema| && Fits(schema, d, b)
    ensures m == Unpack(schema, d, b, merge)
    decreases |b|, 1
  {
    hide Parse, Scan, MemberFits, Missing, Counted;
    var fields := schema[d].fields;
    var slabs := new Slabs.SlabList<Member>(NO_MEMBER);
    assert ScanFits(fields, b);
    var ok, counts, seen, nUnknown := ScanMembers(schema, d, b, slabs);
    if !ok {
      return None;
    }
    ghost var ms := slabs.members;
    UnpackIs(schema, d, b, merge, ms);
    CountedParts(fields, ms, counts, seen, nUnknown);
    var missing := AnyMissing(fields, ms, seen);
    if missing {
      return None;
    }
    m := Rebuild(schema, d, slabs, counts, seen, nUnknown, |b|, merge);
  }

  lemma CountedParts(fields: seq<Field>, ms: seq<Member>, counts: seq<nat>, seen: seq<bool>, nUnknown: nat)
    requires Counted(fields, ms, counts, seen, nUnknown)
    ensures |counts| == |seen| == |fields|
    ensures forall i :: 0 <= i < |fields| ==> (seen[i] <==> fields[i].rule.REQUIRED? && Mentions(ms, i))
  {
  }
}
