/**
  The first-fit heap of kernel/src/mm/pmm.c (`pmm_alloc`, `pmm_free`) as a value: the list of headed
  blocks in list order, and the stack of free page frames that feeds it.
  */
module HeapList {
  import opened Words
  import opened PageStack

  /** The size counts the block's header, sizeof(pmm_memblk_t), which is 24 bytes. */
  datatype Block = Block(addr: U64, size: U64, isFree: bool)

  datatype Heap = Heap(blocks: seq<Block>, free: seq<U64>)

  // ------------------------------------------------------------------------------------------
  // Specification

  ghost predicate Fits(b: Block, need: U64) {
    b.isFree && b.size >= need
  }

  /** The first free block that is large enough, or the length of the list. */
  ghost function FirstFit(blocks: seq<Block>, need: U64): (i: nat)
    ensures i <= |blocks|
    ensures i < |blocks| ==> Fits(blocks[i], need)
    ensures forall j | 0 <= j < i :: !Fits(blocks[j], need)
  {
    if blocks == [] then 0
    else if Fits(blocks[0], need) then 0
    else 1 + FirstFit(blocks[1..], need)
  }

  /** Block i is taken; what it has beyond the request and a header becomes a block of its own. */
  ghost function Take(blocks: seq<Block>, i: nat, need: U64): seq<Block>
    requires i < |blocks|
  {
    var b := blocks[i];
    if b.size > Add64(need, 24) then Split(blocks, i, need) else blocks[i := Block(b.addr, b.size, false)]
  }

  ghost function Split(blocks: seq<Block>, i: nat, need: U64): (r: seq<Block>)
    requires i < |blocks|
    ensures |r| == |blocks| + 1
    ensures forall j | 0 <= j < i :: r[j] == blocks[j]
    ensures forall j | i + 1 < j < |r| :: r[j] == blocks[j - 1]
    ensures var b := blocks[i];
      r[i] == Block(b.addr, need, false) && r[i + 1] == Block(Add64(b.addr, need), Sub64(b.size, need), true)
  {
    var b := blocks[i];
    blocks[..i] + [Block(b.addr, need, false), Block(Add64(b.addr, need), Sub64(b.size, need), true)] + blocks[i + 1..]
  }

  /** `pmm_alloc`; pointer 0 is NULL. */
  ghost function DoAlloc(h: Heap, size: U64): (Heap, U64) {
    if size == 0 then (h, 0)
    else
      var need := Add64(size, 24);
      var i := FirstFit(h.blocks, need);
      if i < |h.blocks| then (Heap(Take(h.blocks, i, need), h.free), Add64(h.blocks[i].addr, 24))
      else
        var page := TopFree(h.free);
        if page == 0 then (Heap(h.blocks, PopFree(h.free)), 0)
        else (Heap(h.blocks + [Block(page, need, false)], PopFree(h.free)), Add64(page, 24))
  }

  /** Block i swallows the free blocks that follow it in the list, wherever they are in memory. */
  ghost function Coalesce(blocks: seq<Block>, i: nat): (r: seq<Block>)
    requires i < |blocks|
    ensures i < |r| && r[..i] == blocks[..i] && r[i].addr == blocks[i].addr && r[i].isFree == blocks[i].isFree
    decreases |blocks|
  {
    if i + 1 < |blocks| && blocks[i + 1].isFree then Coalesce(Merge(blocks, i), i) else blocks
  }

  ghost function Merge(blocks: seq<Block>, i: nat): (r: seq<Block>)
    requires i + 1 < |blocks|
    ensures |r| == |blocks| - 1 && r[..i] == blocks[..i]
    ensures forall j | 0 <= j < i :: r[j] == blocks[j]
    ensures forall j | i < j < |r| :: r[j] == blocks[j + 1]
    ensures r[i].addr == blocks[i].addr && r[i].size == Add64(blocks[i].size, blocks[i + 1].size)
  {
    blocks[..i] + [Block(blocks[i].addr, Add64(blocks[i].size, blocks[i + 1].size), blocks[i].isFree)] + blocks[i + 2..]
  }

  /** `pmm_free` of the payload of block i. */
  ghost function DoFree(h: Heap, i: nat): Heap
    requires i < |h.blocks|
  {
    var b := h.blocks[i];
    Heap(Coalesce(h.blocks[i := Block(b.addr, b.size, true)], i), h.free)
  }

  // ------------------------------------------------------------------------------------------
  // Bookkeeping, for every list

  /** The sum of the block sizes, as the 64-bit machine adds. */
  ghost function Total(blocks: seq<Block>): U64 {
    if blocks == [] then 0 else Add64(blocks[0].size, Total(blocks[1..]))
  }

  lemma {:induction false} AddAssociates(a: U64, b: U64, c: U64)
    ensures Add64(Add64(a, b), c) == Add64(a, Add64(b, c))
  {
  }

  lemma {:induction false} TotalConcat(a: seq<Block>, b: seq<Block>)
    ensures Total(a + b) == Add64(Total(a), Total(b))
  {
    if a == [] {
      assert a + b == b;
    } else {
      assert (a + b)[1..] == a[1..] + b;
      TotalConcat(a[1..], b);
      AddAssociates(a[0].size, Total(a[1..]), Total(b));
    }
  }

  /** The payload pointers of the blocks in use. */
  ghost function Used(blocks: seq<Block>): multiset<U64> {
    if blocks == [] then multiset{}
    else (if blocks[0].isFree then multiset{} else multiset{Add64(blocks[0].addr, 24)}) + Used(blocks[1..])
  }

  lemma {:induction false} UsedConcat(a: seq<Block>, b: seq<Block>)
    ensures Used(a + b) == Used(a) + Used(b)
  {
    if a == [] {
      assert a + b == b;
    } else {
      assert (a + b)[1..] == a[1..] + b;
      UsedConcat(a[1..], b);
    }
  }

  /** A list seen from block i. */
  lemma {:induction false} TotalAt(front: seq<Block>, b: Block, rest: seq<Block>)
    ensures Total(front + [b] + rest) == Add64(Total(front), Add64(b.size, Total(rest)))
  {
    assert ([b] + rest)[1..] == rest;
    assert front + [b] + rest == front + ([b] + rest);
    TotalConcat(front, [b] + rest);
  }

  lemma {:induction false} UsedAt(front: seq<Block>, b: Block, rest: seq<Block>)
    ensures Used(front + [b] + rest) == Used(front) + Used([b]) + Used(rest)
  {
    UsedConcat(front + [b], rest);
    UsedConcat(front, [b]);
  }

  lemma {:induction false} SplitAt(blocks: seq<Block>, i: nat)
    requires i < |blocks|
    ensures blocks == blocks[..i] + [blocks[i]] + blocks[i + 1..]
  {
  }

  lemma {:induction false} MergeBooks(blocks: seq<Block>, i: nat)
    requires i + 1 < |blocks| && blocks[i + 1].isFree
    ensures Total(Merge(blocks, i)) == Total(blocks) && Used(Merge(blocks, i)) == Used(blocks)
  {
    var front, a, b, rest := blocks[..i], blocks[i], blocks[i + 1], blocks[i + 2..];
    var c := Block(a.addr, Add64(a.size, b.size), a.isFree);
    assert blocks == front + [a] + ([b] + rest);
    assert ([b] + rest)[1..] == rest;
    TotalAt(front, a, [b] + rest);
    TotalAt(front, c, rest);
    AddAssociates(a.size, b.size, Total(rest));
    UsedAt(front, a, [b] + rest);
    UsedAt(front, c, rest);
  }

  /** Coalescing keeps the sum of the sizes and the blocks in use. */
  lemma {:induction false} CoalesceBooks(blocks: seq<Block>, i: nat)
    requires i < |blocks|
    ensures Total(Coalesce(blocks, i)) == Total(blocks) && Used(Coalesce(blocks, i)) == Used(blocks)
    decreases |blocks|
  {
    if i + 1 < |blocks| && blocks[i + 1].isFree {
      MergeBooks(blocks, i);
      CoalesceBooks(Merge(blocks, i), i);
    }
  }

  lemma {:induction false} TakeBooks(blocks: seq<Block>, i: nat, need: U64)
    requires i < |blocks| && Fits(blocks[i], need)
    ensures Total(Take(blocks, i, need)) == Total(blocks)
    ensures Used(Take(blocks, i, need)) == Used(blocks) + multiset{Add64(blocks[i].addr, 24)}
  {
    var front, b, rest := blocks[..i], blocks[i], blocks[i + 1..];
    SplitAt(blocks, i);
    TotalAt(front, b, rest);
    UsedAt(front, b, rest);
    if b.size > Add64(need, 24) {
      SplitBooks(front, b, rest, need);
      assert Used([b]) == multiset{};
    } else {
      var t := Block(b.addr, b.size, false);
      assert Take(blocks, i, need) == front + [t] + rest;
      TotalAt(front, t, rest);
      UsedAt(front, t, rest);
    }
  }

  lemma {:induction false} SplitBooks(front: seq<Block>, b: Block, rest: seq<Block>, need: U64)
    requires b.isFree && b.size >= need
    ensures var t, r := Block(b.addr, need, false), Block(Add64(b.addr, need), Sub64(b.size, need), true);
      && front + [t, r] + rest == front + [t] + ([r] + rest)
      && Total(front + [t, r] + rest) == Add64(Total(front), Add64(b.size, Total(rest)))
      && Used(front + [t, r] + rest) == Used(front) + Used(rest) + multiset{Add64(b.addr, 24)}
  {
    var t, r := Block(b.addr, need, false), Block(Add64(b.addr, need), Sub64(b.size, need), true);
    assert front + [t, r] + rest == front + [t] + ([r] + rest);
    assert ([r] + rest)[1..] == rest;
    TotalAt(front, t, [r] + rest);
    UsedAt(front, t, [r] + rest);
    AddAssociates(need, Sub64(b.size, need), Total(rest));
  }

  /**
    Allocation takes the first free block that fits, and a page only if none does; the sum of the
    sizes grows by the request and its header exactly when a page is taken, and the blocks in use
    grow by exactly the result.
    */
  lemma {:induction false} AllocBooks(h: Heap, size: U64)
    requires size > 0
    ensures var (h', ptr) := DoAlloc(h, size);
      var need := Add64(size, 24);
      if exists i :: 0 <= i < |h.blocks| && Fits(h.blocks[i], need) then
        && h'.free == h.free && Total(h'.blocks) == Total(h.blocks)
        && Used(h'.blocks) == Used(h.blocks) + multiset{ptr}
        && exists i :: 0 <= i < |h.blocks| && Fits(h.blocks[i], need) && ptr == Add64(h.blocks[i].addr, 24)
             && forall j | 0 <= j < i :: !Fits(h.blocks[j], need)
      else if TopFree(h.free) == 0 then
        ptr == 0 && h'.blocks == h.blocks
      else
        && h'.free == PopFree(h.free) && ptr == Add64(TopFree(h.free), 24)
        && Total(h'.blocks) == Add64(Total(h.blocks), need)
        && Used(h'.blocks) == Used(h.blocks) + multiset{ptr}
  {
    var need := Add64(size, 24);
    var i := FirstFit(h.blocks, need);
    if i < |h.blocks| {
      TakeBooks(h.blocks, i, need);
    } else if TopFree(h.free) != 0 {
      var added := [Block(TopFree(h.free), need, false)];
      TotalConcat(h.blocks, added);
      UsedConcat(h.blocks, added);
      assert Total(added) == need;
    }
  }

  /** What a request that block i serves first does to the list: the block is cut if more than a header is left. */
  lemma {:induction false} AllocCuts(h: Heap, size: U64, i: nat)
    requires 0 < size && size + 24 < TWO64 && i < |h.blocks| && h.blocks[i].isFree && h.blocks[i].size >= size + 24
    requires forall j | 0 <= j < i :: !(h.blocks[j].isFree && h.blocks[j].size >= size + 24)
    ensures var (h', ptr) := DoAlloc(h, size);
      var b := h.blocks[i];
      && h'.free == h.free && ptr == (b.addr + 24) % TWO64
      && h'.blocks ==
           if b.size > (size + 48) % TWO64 then
             h.blocks[..i]
             + [Block(b.addr, size + 24, false), Block((b.addr + size + 24) % TWO64, b.size - size - 24, true)]
             + h.blocks[i + 1..]
           else h.blocks[i := Block(b.addr, b.size, false)]
  {
    var k := FirstFit(h.blocks, size + 24);
    assert Fits(h.blocks[i], size + 24);
    assert k == i && Add64(size, 24) == size + 24;
    assert Add64(size + 24, 24) == (size + 48) % TWO64;
    assert Add64(h.blocks[i].addr, size + 24) == (h.blocks[i].addr + size + 24) % TWO64;
  }

  /** What a request that no block serves does: the top page becomes a block at the end of the list. */
  lemma {:induction false} AllocTakesPage(h: Heap, size: U64, front: seq<U64>, page: U64)
    requires 0 < size && size + 24 < TWO64 && h.free == front + [page] && page != 0
    requires forall j | 0 <= j < |h.blocks| :: !(h.blocks[j].isFree && h.blocks[j].size >= size + 24)
    ensures DoAlloc(h, size) == (Heap(h.blocks + [Block(page, size + 24, false)], front), (page + 24) % TWO64)
  {
    assert forall j | 0 <= j < |h.blocks| :: !Fits(h.blocks[j], size + 24);
    assert FirstFit(h.blocks, size + 24) == |h.blocks|;
    assert h.free[..|h.free| - 1] == front;
  }

  /** A block swallows exactly the free blocks that follow it, up to the next one in use. */
  lemma {:induction false} CoalesceSwallows(blocks: seq<Block>, k: nat) returns (m: nat)
    requires k < |blocks|
    ensures k < m <= |blocks| && (forall j | k < j < m :: blocks[j].isFree)
    ensures m < |blocks| ==> !blocks[m].isFree
    ensures Coalesce(blocks, k) ==
      blocks[..k] + [Block(blocks[k].addr, Total(blocks[k..m]), blocks[k].isFree)] + blocks[m..]
    decreases |blocks|
  {
    if k + 1 < |blocks| && blocks[k + 1].isFree {
      var merged := Merge(blocks, k);
      var n := CoalesceSwallows(merged, k);
      m := n + 1;
      forall j | k < j < m ensures blocks[j].isFree {
        if j > k + 1 { assert merged[j - 1] == blocks[j]; }
      }
      assert merged[n..] == blocks[m..] && merged[..k] == blocks[..k];
      MergedTotal(blocks, k, n);
    } else {
      m := k + 1;
      assert blocks[k..m] == [blocks[k]];
      assert blocks == blocks[..k] + [blocks[k]] + blocks[k + 1..];
    }
  }

  lemma {:induction false} MergedTotal(blocks: seq<Block>, k: nat, n: nat)
    requires k + 1 < |blocks| && k < n < |blocks|
    ensures Total(Merge(blocks, k)[k..n]) == Total(blocks[k..n + 1])
  {
    var a, b := Merge(blocks, k)[k..n], blocks[k..n + 1];
    assert a[1..] == b[2..] && b[1..][1..] == b[2..];
    AddAssociates(blocks[k].size, blocks[k + 1].size, Total(b[2..]));
  }

  /** Freeing a block in use removes exactly its pointer, and no size is lost. */
  lemma {:induction false} FreeBooks(h: Heap, i: nat)
    requires i < |h.blocks| && !h.blocks[i].isFree
    ensures var h' := DoFree(h, i);
      && Total(h'.blocks) == Total(h.blocks) && h'.free == h.free
      && Used(h.blocks) == Used(h'.blocks) + multiset{Add64(h.blocks[i].addr, 24)}
  {
    var b := h.blocks[i];
    var freed := h.blocks[i := Block(b.addr, b.size, true)];
    SplitAt(h.blocks, i);
    assert freed == h.blocks[..i] + [freed[i]] + h.blocks[i + 1..];
    TotalAt(h.blocks[..i], b, h.blocks[i + 1..]);
    TotalAt(h.blocks[..i], freed[i], h.blocks[i + 1..]);
    UsedAt(h.blocks[..i], b, h.blocks[i + 1..]);
    UsedAt(h.blocks[..i], freed[i], h.blocks[i + 1..]);
    CoalesceBooks(freed, i);
  }
}
