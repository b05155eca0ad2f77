/**
The slabs of scanned members (protobuf-c.c): an array of arrays, each twice as
long as the one before, filled one after the other and replayed in order.
*/
module Slabs {
  const FIRST_SLAB_SIZE: nat := 16
  const MAX_SLAB: nat := 22

  function Pow2(k: nat): (p: nat)
    ensures p >= 1
  {
    if k == 0 then 1 else 2 * Pow2(k - 1)
  }

  /** The length of slab k. */
  function SlabSize(k: nat): nat { FIRST_SLAB_SIZE * Pow2(k) }

  /** How many members the slabs before slab k hold. */
  function Start(k: nat): nat { SlabSize(k) - FIRST_SLAB_SIZE }

  lemma StartNext(k: nat)
    ensures Start(k + 1) == Start(k) + SlabSize(k)
  {
  }

  lemma {:induction false} StartIncreases(j: nat, k: nat)
    requires j <= k
    ensures Start(j) <= Start(k) && SlabSize(j) <= SlabSize(k)
  {
    if j < k { StartIncreases(j, k - 1); }
  }

  /** All slabs together hold 16 * (2^23 - 1) members. */
  lemma Capacity()
    ensures Start(MAX_SLAB + 1) == 0x7ff_fff0
  {
    assert Pow2(2) == 4;
    assert Pow2(5) == 32;
    assert Pow2(8) == 256;
    assert Pow2(11) == 2048;
    assert Pow2(14) == 16384;
    assert Pow2(17) == 0x2_0000;
    assert Pow2(20) == 0x10_0000;
    assert Pow2(23) == 0x80_0000;
  }

  class SlabList<T> {
    var slabs: seq<array<T>>
    var inSlab: nat
    ghost var members: seq<T>

    /** The slab being filled. */
    function Which(): int
      reads this
    {
      |slabs| - 1
    }

    ghost predicate Valid()
      reads this, slabs
    {
      && 1 <= |slabs| <= MAX_SLAB + 1
      && (forall k :: 0 <= k < |slabs| ==> slabs[k].Length == SlabSize(k))
      && (forall j, k :: 0 <= j < k < |slabs| ==> slabs[j] != slabs[k])
      && inSlab <= SlabSize(Which())
      && |members| == Start(Which()) + inSlab
      && forall k: nat :: k < |slabs| ==> InPlace(k)
    }

    /** How many members slab k holds. */
    function Used(k: nat): nat
      reads this
    {
      if k == |slabs| - 1 then inSlab else SlabSize(k)
    }

    /** Slab k holds its part of the members. */
    ghost predicate InPlace(k: nat)
      requires k < |slabs| && Used(k) <= slabs[k].Length
      reads this, slabs
    {
      && Start(k) + Used(k) <= |members|
      && forall j :: 0 <= j < Used(k) ==> slabs[k][j] == members[Start(k) + j]
    }

    constructor (filler: T)
      ensures Valid() && fresh(this) && fresh(slabs)
      ensures members == []
    {
      var first := new T[FIRST_SLAB_SIZE](_ => filler);
      slabs := [first];
      inSlab := 0;
      members := [];
    }

    /** Adds t behind the members; fails exactly when the last slab is full. */
    method Push(t: T, filler: T) returns (ok: bool)
      requires Valid()
      modifies this, slabs
      ensures Valid() && fresh(set a | a in slabs && a !in old(slabs))
      ensures ok <==> |old(members)| < 0x7ff_fff0
      ensures members == if ok then old(members) + [t] else old(members)
    {
      Capacity();
      StartNext(Which());
      StartIncreases(Which() + 1, MAX_SLAB + 1);
      if inSlab == SlabSize(Which()) {
        if Which() == MAX_SLAB {
          return false;
        }
        Grow(filler);
        StartNext(Which());
        StartIncreases(Which() + 1, MAX_SLAB + 1);
      }
      Store(t);
      return true;
    }

    /** Allocates the next slab, twice as long. */
    method Grow(filler: T)
      requires Valid() && inSlab == SlabSize(Which()) && Which() < MAX_SLAB
      modifies this
      ensures Valid() && members == old(members) && inSlab == 0
      ensures |slabs| == |old(slabs)| + 1 && slabs[..|old(slabs)|] == old(slabs) && fresh(slabs[|old(slabs)|])
    {
      StartNext(Which());
      var slab := new T[SlabSize(|slabs|)](_ => filler);
      slabs := slabs + [slab];
      inSlab := 0;
      assert forall k: nat :: k < |slabs| - 1 ==> slabs[k] == old(slabs[k]) && old(InPlace(k));
    }

    method Store(t: T)
      requires Valid() && inSlab < SlabSize(Which())
      modifies this, slabs
      ensures Valid() && slabs == old(slabs)
      ensures members == old(members) + [t]
    {
      var last := |slabs| - 1;
      assert slabs[last].Length == SlabSize(last) && InPlace(last);
      slabs[last][inSlab] := t;
      members := members + [t];
      inSlab := inSlab + 1;
      forall k: nat | k < |slabs| ensures InPlace(k) {
        assert old(InPlace(k));
        if k < last { assert slabs[k] != slabs[last]; }
      }
    }
  }
}
