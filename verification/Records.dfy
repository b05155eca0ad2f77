/**
What the scan takes for members: a string is scanned into members exactly when it
consists of their records, each a key and the data its wire type asks for.
*/
module Records {
  import opened Options
  import opened Bytes
  import opened Varints
  import opened RangeLookup
  import opened Messages
  import opened Unpacking

  /** A whole varint: its last byte, and only that, is below 128. */
  predicate WholeVarint(b: seq<byte>) {
    b != [] && b[|b| - 1] < 128 && forall i :: 0 <= i < |b| - 1 ==> b[i] >= 128
  }

  /** The data of a member: a varint, eight bytes, a length with as many bytes, or four bytes. */
  predicate DataOf(mem: Member) {
    if mem.wire == 0 then mem.prefix == 0 && WholeVarint(mem.data) && |mem.data| <= 10
    else if mem.wire == 1 then mem.prefix == 0 && |mem.data| == 8
    else if mem.wire == 2 then
      && 0 < mem.prefix <= 5 && mem.prefix <= |mem.data| && WholeVarint(mem.data[..mem.prefix])
      && |mem.data| == mem.prefix + Groups(mem.data[..mem.prefix]) % 0x1_0000_0000
    else mem.wire == 5 && mem.prefix == 0 && |mem.data| == 4
  }

  /** The field of a member is the one with its number. */
  predicate FieldOf(fields: seq<Field>, mem: Member) {
    if mem.field == -1 then forall f :: 0 <= f < |fields| ==> fields[f].id != mem.tag
    else
      && 0 <= mem.field < |fields| && fields[mem.field].id == mem.tag
      && forall f :: 0 <= f < mem.field ==> fields[f].id != mem.tag
  }

  /** A packed payload is refused in the scan if its length is no multiple of its elements'. */
  predicate Countable(fields: seq<Field>, mem: Member)
    requires mem.field < |fields| && mem.prefix <= |mem.data|
  {
    mem.field >= 0 && fields[mem.field].rule == REPEATED && mem.wire == 2 ==>
      var t, n := fields[mem.field].typ, |mem.data| - mem.prefix;
      && (t.SFIXED32? || t.FIXED32? || t.FLOAT? ==> n % 4 == 0)
      && (t.SFIXED64? || t.FIXED64? || t.DOUBLE? ==> n % 8 == 0)
      && (t.STRING? || t.BYTES? || t.MESSAGE? ==> !fields[mem.field].packed)
  }

  /** The bytes of one member: its key, a varint of at most five bytes, and its data. */
  predicate Record(fields: seq<Field>, mem: Member, b: seq<byte>) {
    && |mem.data| < |b| <= |mem.data| + 5
    && var key := b[..|b| - |mem.data|];
      && WholeVarint(key) && Groups(key) == 8 * mem.tag + mem.wire && mem.wire < 8
      && b[|key|..] == mem.data
      && DataOf(mem) && FieldOf(fields, mem) && Countable(fields, mem)
  }

  /** b is the members one after the other. */
  ghost predicate Consists(fields: seq<Field>, b: seq<byte>, ms: seq<Member>)
    decreases |ms|
  {
    if ms == [] then b == []
    else
      exists n {:trigger b[n..]} ::
        0 < n <= |b| && Record(fields, ms[0], b[..n]) && Consists(fields, b[n..], ms[1..])
  }

  lemma WholeIsLength(b: seq<byte>, n: nat, max: nat)
    requires 0 < n <= max && n <= |b| && WholeVarint(b[..n])
    ensures VarintLength(b, max) == n
  {
    hide VarintLength;
    assert forall i :: 0 <= i < n - 1 ==> b[..n][i] == b[i];
    var k := VarintLength(b, max);
    assert b[n - 1] < 128;
    assert k > 0;
  }

  lemma LengthIsWhole(b: seq<byte>, max: nat)
    requires VarintLength(b, max) > 0
    ensures WholeVarint(b[..VarintLength(b, max)]) && VarintLength(b, max) <= max
  {
    hide VarintLength;
  }

  /** The linear search finds the first field with the number. */
  lemma {:induction false} IndexFinds(ids: seq<int>, value: int, r: int)
    ensures IndexOf(ids, value) == r
       <==> (if r == -1 then value !in ids else 0 <= r < |ids| && ids[r] == value && value !in ids[..r])
  {
    if ids != [] {
      IndexFinds(ids[1..], value, r - 1);
      IndexFinds(ids[1..], value, -1);
      assert ids == [ids[0]] + ids[1..];
      if 0 < r < |ids| {
        assert ids[..r] == [ids[0]] + ids[1..][..r - 1];
      }
    }
  }

  lemma FieldIs(fields: seq<Field>, mem: Member)
    ensures FieldOf(fields, mem) <==> mem.field == IndexOf(Ids(fields), mem.tag)
  {
    IndexFinds(Ids(fields), mem.tag, mem.field);
  }

  /** What the wire type asks of the data, and what delimits it. */
  lemma DataDelimits(mem: Member, rest: seq<byte>)
    requires DataOf(mem)
    ensures MemberLength(mem.wire, mem.data + rest) == |mem.data| > 0
    ensures PrefixLength(mem.wire, mem.data + rest) == mem.prefix <= |mem.data|
  {
    hide VarintLength, Groups;
    var b := mem.data + rest;
    assert b[..|mem.data|] == mem.data;
    if mem.wire == 0 {
      WholeIsLength(b, |mem.data|, 10);
    } else if mem.wire == 2 {
      assert b[..mem.prefix] == mem.data[..mem.prefix];
      WholeIsLength(b, mem.prefix, 5);
    }
  }

  lemma DelimitsData(mem: Member, b: seq<byte>)
    requires MemberLength(mem.wire, b) > 0 && mem.data == b[..MemberLength(mem.wire, b)]
    requires mem.prefix == PrefixLength(mem.wire, b)
    ensures DataOf(mem)
  {
    hide VarintLength, Groups;
    if mem.wire == 0 {
      LengthIsWhole(b, 10);
    } else if mem.wire == 2 {
      LengthIsWhole(b, 5);
      assert mem.data[..mem.prefix] == b[..mem.prefix];
    }
  }

  lemma CountIs(fields: seq<Field>, mem: Member)
    requires -1 <= mem.field < |fields| && mem.prefix <= |mem.data|
    ensures Count(fields, mem).Some? <==> Countable(fields, mem)
  {
    hide Terminators;
  }

  /** A record at the start of a string is its first member. */
  lemma RecordScans(fields: seq<Field>, mem: Member, b: seq<byte>, n: nat)
    requires n <= |b| && Record(fields, mem, b[..n])
    ensures FirstMember(fields, b) == Some((mem, n))
  {
    hide VarintLength, Groups, MemberLength, PrefixLength, Count, DataOf, FieldOf, Countable, WholeVarint;
    var k := n - |mem.data|;
    assert b[..n][..k] == b[..k] && b[k..] == mem.data + b[n..];
    WholeIsLength(b, k, 5);
    DataDelimits(mem, b[n..]);
    FieldIs(fields, mem);
    CountIs(fields, mem);
    assert (mem.data + b[n..])[..|mem.data|] == mem.data;
  }

  lemma ScansRecord(fields: seq<Field>, b: seq<byte>)
    requires FirstMember(fields, b).Some?
    ensures var (mem, n) := FirstMember(fields, b).value; Record(fields, mem, b[..n])
  {
    hide VarintLength, Groups, MemberLength, PrefixLength, Count, DataOf, FieldOf, Countable, WholeVarint;
    var (mem, n) := FirstMember(fields, b).value;
    var k := VarintLength(b, 5);
    LengthIsWhole(b, 5);
    DelimitsData(mem, b[k..]);
    FieldIs(fields, mem);
    CountIs(fields, mem);
    assert b[..n][..k] == b[..k] && b[..n][k..] == mem.data;
  }

  /** The scan finds the members of a string exactly when the string consists of their records. */
  lemma {:induction false} ScanExactly(fields: seq<Field>, b: seq<byte>, ms: seq<Member>)
    ensures Scan(fields, b) == Some(ms) <==> Consists(fields, b, ms)
    decreases |b|
  {
    hide FirstMember, Record, Count;
    if b != [] {
      var first := FirstMember(fields, b);
      if first.Some? && ms != [] {
        ScansRecord(fields, b);
        ScanExactly(fields, b[first.value.1..], ms[1..]);
        assert Scan(fields, b) == Some(ms) ==> ms == [first.value.0] + ms[1..];
      }
      if Consists(fields, b, ms) {
        var n :| 0 < n <= |b| && Record(fields, ms[0], b[..n]) && Consists(fields, b[n..], ms[1..]);
        RecordScans(fields, ms[0], b, n);
        assert ms == [ms[0]] + ms[1..];
      }
    }
  }
}
