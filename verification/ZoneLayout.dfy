/**
Where a zone puts its header and its frames (src/mempool/zone.c).  header and
entry stand for the sizes of struct ft_poolzone and struct ft_frame.
*/
module ZoneLayout {
  import opened Vecs

  const PAGE: nat := 4096

  /** mmap_size_zone */
  function HeaderSize(count: nat, header: nat, entry: nat): nat { header + count * entry }

  /** mmap_size_fill */
  function Fill(size: nat): nat {
    var fill := PAGE - size % PAGE;
    if fill == PAGE then 0 else fill
  }

  /** The offset of the first frame's data. */
  function DataOffset(count: nat, header: nat, entry: nat): nat {
    HeaderSize(count, header, entry) + Fill(HeaderSize(count, header, entry))
  }

  /** alloc_size */
  function AllocSize(count: nat, header: nat, entry: nat): nat {
    count * FRAME_SIZE + DataOffset(count, header, entry)
  }

  lemma Fills(size: nat)
    ensures (size + Fill(size)) % PAGE == 0 && Fill(size) < PAGE
  {
    var r := size % PAGE;
    assert size == size / PAGE * PAGE + r;
    assert r != 0 ==> size + Fill(size) == (size / PAGE + 1) * PAGE;
  }

  /**
  ft_poolzone_new_mmap: header and entries end before the data begins, every
  frame's data starts on a page and lies inside the allocation, and the
  allocation is whole pages.
  */
  lemma LayoutIsSound(count: nat, header: nat, entry: nat, i: nat)
    requires header > 0 && i < count
    ensures HeaderSize(count, header, entry) <= DataOffset(count, header, entry)
    ensures (DataOffset(count, header, entry) + i * FRAME_SIZE) % PAGE == 0
    ensures DataOffset(count, header, entry) + (i + 1) * FRAME_SIZE <= AllocSize(count, header, entry)
    ensures 0 < DataOffset(count, header, entry) < AllocSize(count, header, entry)
    ensures AllocSize(count, header, entry) % PAGE == 0
  {
    Fills(HeaderSize(count, header, entry));
    assert i * FRAME_SIZE == (i * 5) * PAGE && count * FRAME_SIZE == (count * 5) * PAGE;
    PagesAdd(DataOffset(count, header, entry), i * 5);
    PagesAdd(DataOffset(count, header, entry), count * 5);
    assert (i + 1) * FRAME_SIZE <= count * FRAME_SIZE;
  }

  lemma PagesAdd(x: nat, k: nat)
    requires x % PAGE == 0
    ensures (x + k * PAGE) % PAGE == 0
  {
    assert x == x / PAGE * PAGE;
    assert x + k * PAGE == (x / PAGE + k) * PAGE;
  }

  /** The countdown of ft_pool_alloc_hugetlb ends at the most frames a huge page can hold. */
  method FitHugePage(hugeSize: nat, header: nat, entry: nat) returns (count: nat)
    requires header > 0 && DataOffset(0, header, entry) <= hugeSize
    ensures AllocSize(count, header, entry) <= hugeSize
    ensures forall n :: n > count ==> AllocSize(n, header, entry) > hugeSize
  {
    hide AllocSize, DataOffset;
    OnePage(hugeSize, header, entry);
    count := (hugeSize - PAGE) / FRAME_SIZE;
    forall n | n > count ensures AllocSize(n, header, entry) > hugeSize {
      TooMany(n, hugeSize, header, entry);
    }
    while AllocSize(count, header, entry) > hugeSize
      invariant forall n :: n > count ==> AllocSize(n, header, entry) > hugeSize
      decreases count
    {
      count := count - 1;
    }
  }

  lemma OnePage(hugeSize: nat, header: nat, entry: nat)
    requires header > 0 && DataOffset(0, header, entry) <= hugeSize
    ensures PAGE <= hugeSize && AllocSize(0, header, entry) <= hugeSize
  {
    Fills(header);
  }

  lemma TooMany(n: nat, hugeSize: nat, header: nat, entry: nat)
    requires header > 0 && hugeSize >= PAGE && n > (hugeSize - PAGE) / FRAME_SIZE
    ensures AllocSize(n, header, entry) > hugeSize
  {
    assert n * FRAME_SIZE > hugeSize - PAGE;
    Fills(HeaderSize(n, header, entry));
    var d := DataOffset(n, header, entry);
    assert d == d / PAGE * PAGE && d > 0;
    assert d >= PAGE;
  }
}
