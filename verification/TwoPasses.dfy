/** What the two passes of the unpacker owe each other, and the loops on packed messages. */
module TwoPasses {
  import opened Options
  import opened Bytes
  import opened Varints
  import opened Messages
  import opened Unpacking
  import opened ScanLoops
  import opened UnpackLoops
  import RoundTrip

  /** A parse that succeeds succeeds at every member. */
  lemma {:induction false} ParsedAt(schema: Schema, ms: seq<Member>, k: nat, m: Message, bound: nat, merge: Merge)
    returns (before: Message)
    requires Shaped(schema, m) && GoodMembers(schema[m.desc].fields, ms, bound) && k < |ms|
    requires Parse(schema, ms, m, bound, merge).Some?
    ensures Shaped(schema, before) && before.desc == m.desc
    ensures ParseMember(schema, ms[k], before, merge).Some?
    decreases |ms|
  {
    hide ParseMember;
    if k == |ms| - 1 {
      before := Parse(schema, ms[..k], m, bound, merge).value;
    } else {
      before := ParsedAt(schema, ms[..|ms| - 1], k, m, bound, merge);
    }
  }

  /** Whatever unpacks has no declared length that wraps, at any depth. */
  lemma {:induction false} UnpackedFits(schema: Schema, d: nat, b: seq<byte>, merge: Merge)
    requires d < |schema| && |b| < TWO32 && Unpack(schema, d, b, merge).Some?
    ensures Fits(schema, d, b)
    decreases |b|, 0
  {
    hide Parse, ParseMember, FirstMember, Count;
    var fields := schema[d].fields;
    ScannedFits(fields, b);
    var ms := Scan(fields, b).value;
    forall k | 0 <= k < |ms| ensures MemberFits(schema, fields, ms[k]) {
      var before := ParsedAt(schema, ms, k, Init(schema, d), |b|, merge);
      ParsedMemberFits(schema, before, ms[k], merge);
    }
  }

  lemma {:induction false} ParsedMemberFits(schema: Schema, m: Message, mem: Member, merge: Merge)
    requires Shaped(schema, m) && GoodMember(schema[m.desc].fields, mem) && |mem.data| < TWO32
    requires ParseMember(schema, mem, m, merge).Some?
    ensures MemberFits(schema, schema[m.desc].fields, mem)
    decreases |mem.data|, 1
  {
    hide Fits, Unpack;
    if mem.field >= 0 {
      var t := schema[m.desc].fields[mem.field].typ;
      if t.MESSAGE? && t.desc < |schema| && mem.wire == PREFIXED {
        assert mem.field < |m.slots|;
        match schema[m.desc].fields[mem.field].rule {
          case ONEOF(_) => assert ParseValue(schema, t, mem, None, merge).Some?;
          case REPEATED =>
            assert !ComesPacked(schema[m.desc].fields[mem.field], mem.wire);
            assert ParseElements(schema, schema[m.desc].fields[mem.field], mem, merge).Some?;
            assert ParseValue(schema, t, mem, None, merge).Some?;
          case _ => assert ParseValue(schema, t, mem, m.slots[mem.field].v, merge).Some?;
        }
        UnpackedFits(schema, t.desc, mem.data[mem.prefix..], merge);
      }
    }
  }

  /** Parsing a member adds what the scan counted for it. */
  lemma MemberAdds(schema: Schema, mem: Member, m: Message, merge: Merge, i: nat)
    requires Shaped(schema, m) && GoodMember(schema[m.desc].fields, mem) && ParseMember(schema, mem, m, merge).Some?
    requires i < |m.slots| && m.slots[i].Many?
    ensures var r := ParseMember(schema, mem, m, merge).value;
            && |r.slots[i].vs| == |m.slots[i].vs| + CountOf(schema[m.desc].fields, mem, i)
            && |r.unknown| == |m.unknown| + if mem.field < 0 then 1 else 0
  {
    hide ParseValue, ParsePacked, CountPacked;
    if mem.field >= 0 && schema[m.desc].fields[mem.field].rule.REPEATED? {
      var f := schema[m.desc].fields[mem.field];
      if ComesPacked(f, mem.wire) {
        PackedCountIsExact(f.typ, mem.data[mem.prefix..]);
      }
    }
  }

  lemma {:induction false} ParseAdds(schema: Schema, ms: seq<Member>, m: Message, bound: nat, merge: Merge, i: nat)
    requires Shaped(schema, m) && GoodMembers(schema[m.desc].fields, ms, bound)
        && Parse(schema, ms, m, bound, merge).Some?
    requires i < |m.slots| && m.slots[i].Many?
    ensures |Parse(schema, ms, m, bound, merge).value.slots[i].vs|
         == |m.slots[i].vs| + TotalCount(schema[m.desc].fields, ms, i)
    decreases |ms|
  {
    hide ParseMember;
    if ms != [] {
      var last := |ms| - 1;
      ParseAdds(schema, ms[..last], m, bound, merge, i);
      MemberAdds(schema, ms[last], Parse(schema, ms[..last], m, bound, merge).value, merge, i);
    }
  }

  lemma UnknownAdds(schema: Schema, mem: Member, m: Message, merge: Merge)
    requires Shaped(schema, m) && GoodMember(schema[m.desc].fields, mem) && ParseMember(schema, mem, m, merge).Some?
    ensures |ParseMember(schema, mem, m, merge).value.unknown| == |m.unknown| + if mem.field < 0 then 1 else 0
  {
    hide ParseValue, ParsePacked, CountPacked;
  }

  lemma {:induction false} ParseAddsUnknown(schema: Schema, ms: seq<Member>, m: Message, bound: nat, merge: Merge)
    requires Shaped(schema, m) && GoodMembers(schema[m.desc].fields, ms, bound)
        && Parse(schema, ms, m, bound, merge).Some?
    ensures |Parse(schema, ms, m, bound, merge).value.unknown| == |m.unknown| + UnknownCount(ms)
    decreases |ms|
  {
    hide ParseMember;
    if ms != [] {
      var last := |ms| - 1;
      ParseAddsUnknown(schema, ms[..last], m, bound, merge);
      UnknownAdds(schema, ms[last], Parse(schema, ms[..last], m, bound, merge).value, merge);
    }
  }

  /**
  The two passes agree on every input that unpacks: each repeated field ends up
  with exactly the elements the scan summed for it, and so do the unknown fields.
  */
  lemma TwoPassesAgree(schema: Schema, d: nat, b: seq<byte>, merge: Merge, i: nat)
    requires d < |schema| && Unpack(schema, d, b, merge).Some?
    requires i < |schema[d].fields| && schema[d].fields[i].rule.REPEATED?
    ensures Scan(schema[d].fields, b).Some?
    ensures var m := Unpack(schema, d, b, merge).value; var ms := Scan(schema[d].fields, b).value;
            && m.slots[i].Many? && |m.slots[i].vs| == TotalCount(schema[d].fields, ms, i)
            && |m.unknown| == UnknownCount(ms)
  {
    hide Parse, ParseMember, FirstMember, Count;
    var ms := Scan(schema[d].fields, b).value;
    ParseAdds(schema, ms, Init(schema, d), |b|, merge, i);
    ParseAddsUnknown(schema, ms, Init(schema, d), |b|, merge);
  }

  /** The unpacking loops give back every packed message whose members the slabs hold. */
  method UnpackPacked(schema: Schema, m: Message, b: seq<byte>, merge: Merge) returns (r: Option<Message>)
    requires ValidSchema(schema) && ValidMessage(schema, m) && b == MessageBytes(schema, m)
    requires |b| < TWO32 && FitsSlabs(schema, m)
    ensures r == Some(m)
  {
    RoundTrip.MessageRoundTrip(schema, m, merge);
    UnpackedFits(schema, m.desc, b, merge);
    r := UnpackMessage(schema, m.desc, b, merge);
  }
}
