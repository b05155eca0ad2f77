/** int_range_lookup (protobuf-c.c): a binary search over runs of consecutive field numbers. */
module RangeLookup {

  datatype IntRange = IntRange(start: int, orig: nat)

  ghost predicate Increasing(ids: seq<int>) {
    forall i, j :: 0 <= i < j < |ids| ==> ids[i] < ids[j]
  }

  /** The first n elements of ranges are the runs of ids; one more, a dummy, ends the last run. */
  ghost predicate Describes(n: nat, ranges: seq<IntRange>, ids: seq<int>) {
    && Increasing(ids)
    && (n == 0 ==> ids == [])
    && (n > 0 ==>
          && |ranges| > n
          && ranges[0].orig == 0
          && ranges[n].orig == |ids|
          && (forall j, k :: 0 <= j < k <= n ==> ranges[j].orig < ranges[k].orig)
          && forall k :: 0 <= k < n ==> IsRunOf(ranges, k, ids))
  }

  ghost predicate IsRunOf(ranges: seq<IntRange>, k: nat, ids: seq<int>)
    requires k + 1 < |ranges|
  {
    && ranges[k].orig <= ranges[k + 1].orig <= |ids|
    && forall i :: ranges[k].orig <= i < ranges[k + 1].orig ==> ids[i] == ranges[k].start + (i - ranges[k].orig)
  }

  /** The linear search the lookup stands for. */
  function IndexOf(ids: seq<int>, value: int): (r: int)
    ensures r == -1 ==> value !in ids
    ensures r != -1 ==> 0 <= r < |ids| && ids[r] == value
  {
    if ids == [] then -1
    else if ids[0] == value then 0
    else
      var r := IndexOf(ids[1..], value);
      if r == -1 then -1 else r + 1
  }

  lemma IndexOfIs(ids: seq<int>, value: int, i: nat)
    requires Increasing(ids) && i < |ids| && ids[i] == value
    ensures IndexOf(ids, value) == i
  {
    assert ids[i] in ids;
  }

  method IntRangeLookup(n_ranges: nat, ranges: seq<IntRange>, value: int, ghost ids: seq<int>) returns (index: int)
    requires Describes(n_ranges, ranges, ids)
    ensures index == IndexOf(ids, value)
  {
    if n_ranges == 0 {
      return -1;
    }
    var start: nat, n: nat := 0, n_ranges;
    while n > 1
      invariant start + n <= n_ranges
      invariant forall i :: 0 <= i < |ids| && ids[i] == value ==> ranges[start].orig <= i < ranges[start + n].orig
      decreases n
    {
      var mid := start + n / 2;
      assert IsRunOf(ranges, mid, ids);
      if value < ranges[mid].start {
        BelowRun(ranges, mid, ids, value);
        n := mid - start;
      } else if value >= ranges[mid].start + (ranges[mid + 1].orig - ranges[mid].orig) {
        AboveRun(ranges, mid, ids, value);
        n, start := start + n - (mid + 1), mid + 1;
      } else {
        index := value - ranges[mid].start + ranges[mid].orig;
        IndexOfIs(ids, value, index);
        return;
      }
    }
    if n > 0 {
      assert IsRunOf(ranges, start, ids);
      var startOrig := ranges[start].orig;
      var size := ranges[start + 1].orig - startOrig;
      if ranges[start].start <= value && value < ranges[start].start + size {
        index := value - ranges[start].start + startOrig;
        IndexOfIs(ids, value, index);
        return;
      }
      assert forall i :: startOrig <= i < startOrig + size ==> ids[i] != value;
    }
    assert forall i :: 0 <= i < |ids| ==> ids[i] != value;
    return -1;
  }

  lemma BelowRun(ranges: seq<IntRange>, k: nat, ids: seq<int>, value: int)
    requires k + 1 < |ranges| && IsRunOf(ranges, k, ids) && Increasing(ids)
    requires ranges[k].orig < ranges[k + 1].orig && value < ranges[k].start
    ensures forall i :: 0 <= i < |ids| && ids[i] == value ==> i < ranges[k].orig
  {
    assert ids[ranges[k].orig] == ranges[k].start;
  }

  lemma AboveRun(ranges: seq<IntRange>, k: nat, ids: seq<int>, value: int)
    requires k + 1 < |ranges| && IsRunOf(ranges, k, ids) && Increasing(ids)
    requires ranges[k].orig < ranges[k + 1].orig && value >= ranges[k].start + (ranges[k + 1].orig - ranges[k].orig)
    ensures forall i :: 0 <= i < |ids| && ids[i] == value ==> ranges[k + 1].orig <= i
  {
    assert ids[ranges[k + 1].orig - 1] == ranges[k].start + (ranges[k + 1].orig - 1 - ranges[k].orig);
  }
}
