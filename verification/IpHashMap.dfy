/**
The hash map of IP addresses (src/cols/iphashmap.c): an array of buckets, allocated
when the first entry is added and freed when the last one goes, each the head of a
chain of entries that is walked and relinked through a pointer to a pointer.
*/
module IpHashMap {

  datatype Address = Ip4(word: bv32) | Ip6(bytes: seq<bv8>)

  predicate IsAddress(a: Address) { a.Ip6? ==> |a.bytes| == 16 }

  const AF_INET: bv32 := 2
  const AF_INET6: bv32 := 10

  function Pair(bytes: seq<bv8>, i: nat): bv32
    requires i + 1 < |bytes|
  {
    ((bytes[i] as bv32) << 8) | (bytes[i + 1] as bv32)
  }

  /** The two hash functions. */
  function Hash(a: Address): bv32
    requires IsAddress(a)
  {
    match a
    case Ip4(word) => AF_INET ^ (word & 0xffff) ^ ((word >> 16) & 0xffff)
    case Ip6(bytes) =>
      AF_INET6 ^ Pair(bytes, 0) ^ Pair(bytes, 2) ^ Pair(bytes, 4) ^ Pair(bytes, 6) ^ Pair(bytes, 8) ^ Pair(bytes, 10)
      ^ Pair(bytes, 12) ^ Pair(bytes, 14)
  }

  function Bucket(a: Address, size: nat): (i: nat)
    requires IsAddress(a) && size > 0
    ensures i < size
  {
    Hash(a) as int % size
  }

  class Entry {
    const key: Address
    var next: Entry?
    /** What the user keeps with the address; a new entry's is not initialized. */
    var data: int

    constructor (key: Address)
      ensures this.key == key && next == null
    {
      this.key := key;
      next := null;
    }
  }

  function After(chain: seq<Entry>, i: nat): Entry? {
    if i < |chain| then chain[i] else null
  }

  /** head leads through chain and then nowhere. */
  ghost predicate Linked(head: Entry?, chain: seq<Entry>)
    reads chain`next
  {
    head == After(chain, 0) && forall i :: 0 <= i < |chain| ==> chain[i].next == After(chain, i + 1)
  }

  /** No key occurs twice. */
  ghost predicate Distinct(chain: seq<Entry>) {
    forall i, j :: 0 <= i < j < |chain| ==> chain[i].key != chain[j].key
  }

  /** Every entry of chain b belongs into bucket b and is the map's entry for its key. */
  ghost predicate Belongs(chain: seq<Entry>, b: nat, size: nat, contents: map<Address, Entry>)
    requires size > 0
  {
    forall i :: 0 <= i < |chain| ==>
      IsAddress(chain[i].key) && Bucket(chain[i].key, size) == b && chain[i].key in contents
          && contents[chain[i].key] == chain[i]
  }

  /** The entries in the buckets are those of the map, each once, in its own bucket. */
  ghost predicate Filed(chains: seq<seq<Entry>>, contents: map<Address, Entry>) {
    && chains != []
    && (forall b :: 0 <= b < |chains| ==> Belongs(chains[b], b, |chains|, contents) && Distinct(chains[b]))
    && (forall k :: k in contents ==>
          IsAddress(k) && contents[k].key == k && contents[k] in chains[Bucket(k, |chains|)])
  }

  lemma FiledAppend(chains: seq<seq<Entry>>, contents: map<Address, Entry>, k: Address, e: Entry)
    requires Filed(chains, contents) && IsAddress(k) && k !in contents && e.key == k
    ensures var b := Bucket(k, |chains|); Filed(chains[b := chains[b] + [e]], contents[k := e])
  {
    hide Bucket, IsAddress;
    var b := Bucket(k, |chains|);
    var more, grown := chains[b := chains[b] + [e]], contents[k := e];
    forall c | 0 <= c < |more| ensures Belongs(more[c], c, |more|, grown) && Distinct(more[c]) {
      assert Belongs(chains[c], c, |chains|, contents) && Distinct(chains[c]);
    }
    forall j | j in grown ensures grown[j] in more[Bucket(j, |more|)] {
      if j == k { assert more[b][|chains[b]|] == e; } else {
        var i :| 0 <= i < |chains[Bucket(j, |chains|)]| && chains[Bucket(j, |chains|)][i] == contents[j];
        assert more[Bucket(j, |chains|)][i] == contents[j];
      }
    }
  }

  function Without<T>(s: seq<T>, i: nat): seq<T>
    requires i < |s|
  {
    s[..i] + s[i + 1..]
  }

  lemma FiledRemove(chains: seq<seq<Entry>>, contents: map<Address, Entry>, b: nat, i: nat)
    requires Filed(chains, contents) && b < |chains| && i < |chains[b]|
    ensures Filed(chains[b := Without(chains[b], i)], contents - {chains[b][i].key})
  {
    hide Bucket, IsAddress;
    var k := chains[b][i].key;
    assert Belongs(chains[b], b, |chains|, contents);
    var less, rest := chains[b := Without(chains[b], i)], contents - {k};
    forall c | 0 <= c < |less| ensures Belongs(less[c], c, |less|, rest) && Distinct(less[c]) {
      assert Belongs(chains[c], c, |chains|, contents) && Distinct(chains[c]);
    }
    forall j | j in rest ensures rest[j] in less[Bucket(j, |less|)] {
      var c := Bucket(j, |chains|);
      var n :| 0 <= n < |chains[c]| && chains[c][n] == contents[j];
      assert c != b ==> less[c][n] == contents[j];
      assert c == b && n < i ==> less[c][n] == contents[j];
      assert c == b && n > i ==> less[c][n - 1] == contents[j];
    }
  }

  /** Two buckets have no entry in common. */
  lemma Apart(chains: seq<seq<Entry>>, contents: map<Address, Entry>, b: nat, c: nat)
    requires Filed(chains, contents) && b < |chains| && c < |chains| && b != c
    ensures forall e :: e in chains[b] ==> e !in chains[c]
  {
    assert Belongs(chains[b], b, |chains|, contents) && Belongs(chains[c], c, |chains|, contents);
  }

  /** A key is known exactly when its bucket's chain has it, and then that is the map's entry. */
  lemma InChain(chains: seq<seq<Entry>>, contents: map<Address, Entry>, k: Address)
    requires Filed(chains, contents) && IsAddress(k)
    ensures var chain := chains[Bucket(k, |chains|)];
            && (forall i :: 0 <= i < |chain| && chain[i].key == k ==> k in contents && contents[k] == chain[i])
            && (k in contents ==> exists i :: 0 <= i < |chain| && chain[i].key == k)
  {
    assert Belongs(chains[Bucket(k, |chains|)], Bucket(k, |chains|), |chains|, contents);
  }

  class Map {
    const bucketSize: nat
    var count: nat
    var buckets: array?<Entry?>
    /** The entries of each bucket in the order of its chain. */
    ghost var chains: seq<seq<Entry>>
    ghost var nodes: set<Entry>
    /** The finite map this object stands for. */
    ghost var contents: map<Address, Entry>

    /** The pointers lead through the chains. */
    ghost predicate Shape()
      reads `chains, `nodes, `buckets, buckets, nodes`next
      ensures Shape() ==> |chains| == bucketSize
    {
      && |chains| == bucketSize
      && (forall b :: 0 <= b < bucketSize ==> forall i :: 0 <= i < |chains[b]| ==> chains[b][i] in nodes)
      && (buckets != null ==>
           && buckets.Length == bucketSize
           && forall b :: 0 <= b < bucketSize ==> Linked(buckets[b], chains[b]))
    }

    ghost predicate Valid()
      reads this, buckets, nodes`next
    {
      bucketSize > 0 && Shape() && Filed(chains, contents) && count == |contents|
          && (buckets == null ==> contents == map[])
    }

    /** ft_iphashmap_init */
    constructor (initialBucketSize: nat)
      requires initialBucketSize > 0
      ensures Valid() && contents == map[] && bucketSize == initialBucketSize && buckets == null && nodes == {}
    {
      bucketSize := initialBucketSize;
      count := 0;
      buckets := null;
      chains := seq(initialBucketSize, i => []);
      nodes := {};
      contents := map[];
    }

    lemma Chained(index: nat)
      requires Shape() && buckets != null && index < bucketSize
      ensures index < buckets.Length && Linked(buckets[index], chains[index])
    {
    }

    /**
    The walk of add, get and pop: r is the entry found, or null, and prev the entry
    whose next field leads there, or null for the bucket.
    */
    method Walk(k: Address) returns (prev: Entry?, r: Entry?, ghost i: nat)
      requires Valid() && IsAddress(k) && buckets != null
      ensures var chain := chains[Bucket(k, bucketSize)];
              i <= |chain| && r == After(chain, i) && prev == if i == 0 then null else chain[i - 1]
      ensures r != null ==> r.key == k && k in contents && contents[k] == r
      ensures r == null ==> k !in contents
    {
      hide Bucket, IsAddress, Filed, Shape;
      var index := Bucket(k, bucketSize);
      ghost var chain := chains[index];
      InChain(chains, contents, k);
      Chained(index);
      prev, r, i := null, buckets[index], 0;
      while r != null
        invariant i <= |chain| && r == After(chain, i)
        invariant prev == if i == 0 then null else chain[i - 1]
        invariant forall j :: 0 <= j < i ==> chain[j].key != k
        decreases |chain| - i
      {
        if r.key == k { return; }
        prev, r, i := r, r.next, i + 1;
      }
    }

    /** ft_iphashmap_get */
    method Get(k: Address) returns (r: Entry?)
      requires Valid() && IsAddress(k)
      ensures r == if k in contents then contents[k] else null
    {
      if buckets == null { return null; }
      ghost var i;
      var prev;
      prev, r, i := Walk(k);
    }

    /** The lazy allocation of the buckets. */
    method Allocate()
      requires Valid() && buckets == null
      modifies `buckets, `chains, `nodes
      ensures Valid() && buckets != null && fresh(buckets) && nodes == {}
    {
      buckets := new Entry?[bucketSize](i => null);
      chains := seq(bucketSize, i => []);
      nodes := {};
    }

    /** The pointer in a bucket is redirected: its chain becomes rest. */
    method RedirectBucket(index: nat, target: Entry?, ghost rest: seq<Entry>)
      requires Shape() && buckets != null && index < bucketSize && Linked(target, rest) && forall e :: e in rest ==>
          e in nodes
      modifies `chains, buckets
      ensures Shape() && chains == old(chains)[index := rest]
    {
      buckets[index] := target;
      chains := chains[index := rest];
      forall b | 0 <= b < bucketSize && b != index ensures Linked(buckets[b], chains[b]) {
        assert old(Linked(buckets[b], chains[b]));
      }
    }

    /** The pointer in entry number i of a chain is redirected; every other chain is as it was. */
    method RelinkEntry(index: nat, prev: Entry, ghost i: nat, target: Entry?, ghost rest: seq<Entry>)
      requires Shape() && Filed(chains, contents) && buckets != null && index < bucketSize && i < |chains[index]|
      requires prev == chains[index][i] && prev !in rest && Linked(target, rest)
      modifies prev`next
      ensures Linked(buckets[index], chains[index][..i + 1] + rest)
      ensures forall b :: 0 <= b < bucketSize && b != index ==> Linked(buckets[b], chains[b])
    {
      hide Filed;
      ghost var chain := chains[index];
      assert Linked(buckets[index], chain);
      Once(chains, contents, index);
      forall b | 0 <= b < bucketSize && b != index ensures prev !in chains[b] {
        Apart(chains, contents, index, b);
      }
      prev.next := target;
      assert Linked(target, rest);
      assert forall j :: 0 <= j < |chain| && j != i ==> chain[j].next == old(chain[j].next);
      forall b | 0 <= b < bucketSize && b != index ensures Linked(buckets[b], chains[b]) {
        assert old(Linked(buckets[b], chains[b]));
      }
    }

    /** The same with the ghost state: the chain behind the entry becomes rest. */
    method RedirectEntry(index: nat, prev: Entry, ghost i: nat, target: Entry?, ghost rest: seq<Entry>)
      requires Shape() && Filed(chains, contents) && buckets != null && index < bucketSize && i < |chains[index]|
      requires prev == chains[index][i] && prev !in rest && Linked(target, rest) && forall e :: e in rest ==> e in nodes
      modifies `chains, prev`next
      ensures Shape() && chains == old(chains)[index := old(chains)[index][..i + 1] + rest]
    {
      hide Filed, Linked;
      RelinkEntry(index, prev, i, target, rest);
      chains := chains[index := chains[index][..i + 1] + rest];
    }

    /** The pointer to a pointer: the bucket's when prev is null, else that of prev, is redirected. */
    method Redirect(index: nat, prev: Entry?, ghost i: nat, target: Entry?, ghost rest: seq<Entry>)
      requires Shape() && Filed(chains, contents) && buckets != null && index < bucketSize && i <= |chains[index]|
      requires prev == if i == 0 then null else chains[index][i - 1]
      requires prev !in rest && Linked(target, rest) && forall e :: e in rest ==> e in nodes
      modifies `chains, buckets, nodes`next
      ensures Shape() && chains == old(chains)[index := old(chains)[index][..i] + rest]
    {
      hide Filed, Linked;
      if prev == null {
        assert chains[index][..0] + rest == rest;
        RedirectBucket(index, target, rest);
      } else {
        assert chains[index][i - 1] in nodes;
        RedirectEntry(index, prev, i - 1, target, rest);
      }
    }

    /**
    ft_iphashmap_add_int_: the entry of a known address, or a new one at the end of
    its bucket's chain.  Either allocation may fail; then the map is as before.
    */
    method Add(k: Address, bucketsAvailable: bool, entryAvailable: bool) returns (r: Entry?)
      requires Valid() && IsAddress(k)
      modifies this, buckets, nodes`next
      ensures Valid() && fresh(nodes - old(nodes)) && (buckets == old(buckets) || (buckets != null && fresh(buckets)))
      ensures r == null <==> k !in old(contents) && ((old(buckets) == null && !bucketsAvailable) || !entryAvailable)
      ensures r == null ==> contents == old(contents)
      ensures k in old(contents) ==> r == old(contents)[k] && contents == old(contents)
      ensures k !in old(contents) && r != null ==> fresh(r) && r.key == k && contents == old(contents)[k := r]
    {
      hide Filed, Bucket, Linked;
      if buckets == null {
        if !bucketsAvailable { return null; }
        Allocate();
      }
      var prev;
      ghost var i;
      prev, r, i := Walk(k);
      if r != null { return; }
      if !entryAvailable { return null; }
      r := new Entry(k);
      Append(k, prev, r, i);
    }

    method Adopt(e: Entry)
      requires Shape()
      modifies `nodes
      ensures Shape() && nodes == old(nodes) + {e}
    {
      hide Linked;
      nodes := nodes + {e};
    }

    /** The new entry takes the place of the null pointer the walk ended at. */
    method Append(k: Address, prev: Entry?, e: Entry, ghost i: nat)
      requires Valid() && IsAddress(k) && buckets != null && k !in contents
      requires e !in nodes && e != prev && e.key == k && e.next == null
      requires i == |chains[Bucket(k, bucketSize)]|
      requires prev == if i == 0 then null else chains[Bucket(k, bucketSize)][i - 1]
      modifies this, buckets, nodes`next, e`next
      ensures Valid() && contents == old(contents)[k := e] && nodes == old(nodes) + {e} && buckets == old(buckets)
    {
      hide Filed, Linked, Shape, Bucket, IsAddress;
      ghost var index := Bucket(k, bucketSize);
      FiledAppend(chains, contents, k, e);
      Adopt(e);
      OneEntry(e);
      assert chains[index][..i] == chains[index];
      Redirect(Bucket(k, bucketSize), prev, i, e, [e]);
      count := count + 1;
      contents := contents[k := e];
    }

    /** ft_iphashmap_pop_int_: the entry is unlinked and its data handed out; with the last entry the buckets go. */
    method Pop(k: Address) returns (found: bool, data: int)
      requires Valid() && IsAddress(k)
      modifies this, buckets, nodes`next
      ensures Valid() && nodes == old(nodes) && (buckets == old(buckets) || buckets == null)
      ensures found <==> k in old(contents)
      ensures contents == old(contents) - {k}
      ensures found ==> data == old(contents[k].data) && (buckets == null <==> contents == map[])
    {
      hide Filed, Bucket, Linked;
      if buckets == null { return false, 0; }
      var prev, r;
      ghost var i;
      prev, r, i := Walk(k);
      if r == null { return false, 0; }
      data := r.data;
      Unlink(k, prev, r, i);
      if count == 0 { buckets := null; }
      found := true;
    }

    /** What hangs behind entry i of a chain. */
    lemma Behind(index: nat, i: nat)
      requires Shape() && Filed(chains, contents) && buckets != null && index < bucketSize && i < |chains[index]|
      ensures var chain := chains[index];
              && Linked(chain[i].next, chain[i + 1..])
              && (i > 0 ==> chain[i - 1] !in chain[i + 1..]) && forall x :: x in chain[i + 1..] ==> x in nodes
    {
      hide Filed;
      Once(chains, contents, index);
      assert Linked(buckets[index], chains[index]);
    }

    method Unlink(k: Address, prev: Entry?, e: Entry, ghost i: nat)
      requires Valid() && IsAddress(k) && buckets != null && k in contents && contents[k] == e && e.key == k
      requires var chain := chains[Bucket(k, bucketSize)];
               i < |chain| && e == chain[i] && prev == if i == 0 then null else chain[i - 1]
      modifies this, buckets, nodes`next
      ensures Valid() && contents == old(contents) - {k} && nodes == old(nodes) && buckets == old(buckets)
    {
      hide Filed, Linked, Shape, Bucket, IsAddress;
      ghost var index := Bucket(k, bucketSize);
      ghost var chain := chains[index];
      ghost var rest := chain[i + 1..];
      FiledRemove(chains, contents, index, i);
      Behind(index, i);
      Redirect(Bucket(k, bucketSize), prev, i, e.next, rest);
      assert contents.Keys == (contents - {k}).Keys + {k};
      count := count - 1;
      contents := contents - {k};
    }

    /** ft_iphashmap_clear and ft_iphashmap_fini: the buckets are freed, the entries in them are not. */
    method Clear()
      requires Valid()
      modifies `count, `buckets, `chains, `nodes, `contents
      ensures Valid() && contents == map[] && buckets == null && nodes == {}
    {
      hide Filed, Linked, Shape;
      count := 0;
      Release();
      contents := map[];
    }

    method Release()
      requires Shape() && bucketSize > 0
      modifies `buckets, `chains, `nodes
      ensures Shape() && Filed(chains, map[]) && buckets == null && nodes == {}
    {
      hide Filed, Linked;
      buckets := null;
      chains := seq(bucketSize, i => []);
      NothingFiled(chains);
      nodes := {};
    }
  }

  // ---------------------------------------------------------------------------
  // Sequences of operations
  // ---------------------------------------------------------------------------

  /** An operation; the flags of add say whether the allocations it needs succeed. */
  datatype Op = DoAdd(k: Address, buckets: bool, entry: bool) | DoGet(k: Address) | DoPop(k: Address) | DoClear

  datatype Answer = Entered(entry: Entry?) | Got(entry: Entry?) | Popped(found: bool, data: int) | Cleared

  predicate OpFits(op: Op) { op.DoClear? || IsAddress(op.k) }

  /**
  What a finite map does and answers: m becomes n.  A get and a pop find exactly the
  entry that add returned for the address, with the data it holds.
  */
  ghost predicate Follows(m: map<Address, Entry>, op: Op, a: Answer, n: map<Address, Entry>)
    reads m.Values`data
  {
    match op
    case DoAdd(k, buckets, entry) =>
      && a.Entered? && (buckets && entry ==> a.entry != null)
      && (k in m ==> a.entry == m[k] && n == m)
      && (k !in m && a.entry == null ==> n == m)
      && (k !in m && a.entry != null ==> a.entry.key == k && a.entry !in m.Values && n == m[k := a.entry])
    case DoGet(k) => a == Got(if k in m then m[k] else null) && n == m
    case DoPop(k) => a.Popped? && (a.found <==> k in m) && (a.found ==> a.data == m[k].data) && n == m - {k}
    case DoClear => a.Cleared? && n == map[]
  }

  method Do(m: Map, op: Op) returns (a: Answer)
    requires m.Valid() && OpFits(op)
    modifies m, m.buckets, m.nodes`next
    ensures m.Valid() && Follows(old(m.contents), op, a, m.contents)
    ensures fresh(m.nodes - old(m.nodes))
    ensures m.buckets == old(m.buckets) || m.buckets == null || fresh(m.buckets)
  {
    hide Filed, Linked, Bucket, IsAddress;
    assert op.DoClear? || IsAddress(op.k);
    match op
    case DoAdd(k, buckets, entry) =>
      var r := m.Add(k, buckets, entry);
      a := Entered(r);
    case DoGet(k) =>
      var r := m.Get(k);
      a := Got(r);
    case DoPop(k) =>
      var found, data := m.Pop(k);
      a := Popped(found, data);
    case DoClear =>
      m.Clear();
      a := Cleared;
  }

  /**
  Over every sequence of operations the object does what a finite map would, answer
  by answer, whichever allocations fail, and counts its entries.
  */
  method Perform(m: Map, ops: seq<Op>) returns (answers: seq<Answer>, ghost states: seq<map<Address, Entry>>)
    requires m.Valid() && forall i :: 0 <= i < |ops| ==> OpFits(ops[i])
    modifies m, m.buckets, m.nodes`next
    ensures m.Valid() && m.count == |m.contents|
    ensures |answers| == |ops| && |states| == |ops| + 1 && states[0] == old(m.contents) && states[|ops|] == m.contents
    ensures forall i :: 0 <= i < |ops| ==> Follows(states[i], ops[i], answers[i], Later(states, i))
  {
    hide Filed, Linked, OpFits, Follows;
    answers, states := [], [m.contents];
    for n := 0 to |ops|
      invariant m.Valid() && |answers| == n && |states| == n + 1 && states[0] == old(m.contents)
          && states[n] == m.contents
      invariant m.buckets == old(m.buckets) || m.buckets == null || fresh(m.buckets)
      invariant fresh(m.nodes - old(m.nodes))
      invariant forall i :: 0 <= i < n ==> Follows(states[i], ops[i], answers[i], Later(states, i))
    {
      var a := Do(m, ops[n]);
      answers, states := answers + [a], states + [m.contents];
    }
  }

  /** The state behind operation number i. */
  ghost function Later(states: seq<map<Address, Entry>>, i: nat): map<Address, Entry>
    requires i + 1 < |states|
  {
    states[i + 1]
  }

  lemma NothingFiled(chains: seq<seq<Entry>>)
    requires chains != [] && forall b :: 0 <= b < |chains| ==> chains[b] == []
    ensures Filed(chains, map[])
  {
  }

  lemma OneEntry(e: Entry)
    requires e.next == null
    ensures Linked(e, [e])
  {
  }

  lemma Once(chains: seq<seq<Entry>>, contents: map<Address, Entry>, b: nat)
    requires Filed(chains, contents) && b < |chains|
    ensures forall i, j :: 0 <= i < j < |chains[b]| ==> chains[b][i] != chains[b][j]
  {
    assert Distinct(chains[b]);
  }
}
