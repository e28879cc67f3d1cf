/**
  Where the blocks of the heap (kernel/src/mm/pmm.c) lie in memory: when they stay inside their
  pages and apart from each other, and when they do not.
  */
module HeapLayout {
  import opened Words
  import opened PageStack
  import opened HeapList

  ghost function PageOf(b: Block): nat {
    b.addr / 4096
  }

  /** A block with room for more than its header, inside one page other than page 0. */
  ghost predicate InPage(b: Block) {
    b.addr >= 4096 && 24 < b.size && b.addr % 4096 + b.size <= 4096
  }

  /** List neighbours in one page touch. */
  ghost predicate Touching(blocks: seq<Block>) {
    forall i | 0 <= i < |blocks| - 1 && PageOf(blocks[i]) == PageOf(blocks[i + 1]) ::
      blocks[i + 1].addr == blocks[i].addr + blocks[i].size
  }

  /** Once the list leaves a page it does not come back. */
  ghost predicate Grouped(blocks: seq<Block>) {
    forall i, j | 0 <= i < j < |blocks| && PageOf(blocks[i]) == PageOf(blocks[j]) ::
      PageOf(blocks[i + 1]) == PageOf(blocks[i])
  }

  /** Free frames are distinct pages that hold no block. */
  ghost predicate PagesApart(h: Heap) {
    && (forall i | 0 <= i < |h.free| :: h.free[i] % 4096 == 0)
    && (forall i, j | 0 <= i < j < |h.free| :: h.free[i] != h.free[j])
    && (forall i, j | 0 <= i < |h.free| && 0 <= j < |h.blocks| :: h.free[i] / 4096 != PageOf(h.blocks[j]))
  }

  ghost predicate Layout(h: Heap) {
    && Touching(h.blocks) && Grouped(h.blocks) && PagesApart(h)
    && forall i | 0 <= i < |h.blocks| :: InPage(h.blocks[i])
  }

  /** All of Layout except the extent of block k. */
  ghost predicate LayoutBut(h: Heap, k: nat) {
    && Touching(h.blocks) && Grouped(h.blocks) && PagesApart(h) && k < |h.blocks| && h.blocks[k].addr >= 4096
    && forall i | 0 <= i < |h.blocks| && i != k :: InPage(h.blocks[i])
  }

  // ------------------------------------------------------------------------------------------
  // Blocks do not overlap

  lemma {:induction false} InOrder(h: Heap, i: nat, j: nat)
    requires Layout(h) && i < j < |h.blocks| && PageOf(h.blocks[i]) == PageOf(h.blocks[j])
    ensures h.blocks[i].addr + h.blocks[i].size <= h.blocks[j].addr
    decreases j - i
  {
    assert PageOf(h.blocks[i + 1]) == PageOf(h.blocks[i]);
    if i + 1 < j {
      InOrder(h, i + 1, j);
    }
  }

  /** Two listed blocks have no byte in common. */
  lemma {:induction false} NoOverlap(h: Heap, i: nat, j: nat)
    requires Layout(h) && i < j < |h.blocks|
    ensures h.blocks[i].addr + h.blocks[i].size <= h.blocks[j].addr
         || h.blocks[j].addr + h.blocks[j].size <= h.blocks[i].addr
  {
    if PageOf(h.blocks[i]) == PageOf(h.blocks[j]) {
      InOrder(h, i, j);
    } else {
      assert InPage(h.blocks[i]) && InPage(h.blocks[j]);
      ApartByPage(h.blocks[i], h.blocks[j]);
    }
  }

  lemma {:induction false} ApartByPage(a: Block, b: Block)
    requires InPage(a) && InPage(b) && PageOf(a) != PageOf(b)
    ensures a.addr + a.size <= b.addr || b.addr + b.size <= a.addr
  {
  }

  // ------------------------------------------------------------------------------------------
  // pmm_free

  lemma {:induction false} MergeLayout(h: Heap, k: nat)
    requires LayoutBut(h, k) && k + 1 < |h.blocks|
    ensures LayoutBut(Heap(Merge(h.blocks, k), h.free), k)
  {
    MergeGrouped(h.blocks, k);
    MergeTouching(h.blocks, k);
  }

  lemma {:induction false} MergeGrouped(bs: seq<Block>, k: nat)
    requires Grouped(bs) && k + 1 < |bs|
    ensures Grouped(Merge(bs, k))
  {
    var m := Merge(bs, k);
    forall i, j | 0 <= i < j < |m| && PageOf(m[i]) == PageOf(m[j]) ensures PageOf(m[i + 1]) == PageOf(m[i]) {
      var i', j' := if i <= k then i else i + 1, if j <= k then j else j + 1;
      assert PageOf(m[i]) == PageOf(bs[i']) && PageOf(m[j]) == PageOf(bs[j']);
      assert PageOf(bs[i' + 1]) == PageOf(bs[i']);
      if i == k && k + 2 < j' {
        assert PageOf(bs[k + 2]) == PageOf(bs[k + 1]);
      }
    }
  }

  lemma {:induction false} MergeTouching(bs: seq<Block>, k: nat)
    requires Grouped(bs) && Touching(bs) && k + 1 < |bs|
    ensures Touching(Merge(bs, k))
  {
    var m := Merge(bs, k);
    if k + 2 < |bs| && PageOf(bs[k]) == PageOf(bs[k + 2]) {
      assert PageOf(bs[k + 1]) == PageOf(bs[k]);
    }
    forall i | 0 <= i < |m| - 1 && PageOf(m[i]) == PageOf(m[i + 1])
      ensures m[i + 1].addr == m[i].addr + m[i].size
    {
      var i' := if i < k then i else i + 1;
      if i != k { assert m[i] == bs[i']; }
    }
  }

  lemma {:induction false} CoalesceLayout(h: Heap, k: nat)
    requires LayoutBut(h, k)
    ensures LayoutBut(Heap(Coalesce(h.blocks, k), h.free), k)
    decreases |h.blocks|
  {
    if k + 1 < |h.blocks| && h.blocks[k + 1].isFree {
      MergeLayout(h, k);
      CoalesceLayout(Heap(Merge(h.blocks, k), h.free), k);
    }
  }

  /** The sizes of the free blocks that follow in the list, added up. */
  ghost function FreeRun(blocks: seq<Block>, k: nat): U64
    decreases |blocks| - k
  {
    if k < |blocks| && blocks[k].isFree then Add64(blocks[k].size, FreeRun(blocks, k + 1)) else 0
  }

  lemma {:induction false} FreeRunOfTail(a: seq<Block>, i: nat, b: seq<Block>, j: nat)
    requires i <= |a| && j <= |b| && a[i..] == b[j..]
    ensures FreeRun(a, i) == FreeRun(b, j)
    decreases |a| - i
  {
    assert |a| - i == |a[i..]| == |b| - j;
    if i < |a| {
      assert a[i] == a[i..][0] == b[j];
      assert a[i + 1..] == a[i..][1..] == b[j..][1..] == b[j + 1..];
      FreeRunOfTail(a, i + 1, b, j + 1);
    }
  }

  lemma {:induction false} CoalesceSize(blocks: seq<Block>, k: nat)
    requires k < |blocks|
    ensures Coalesce(blocks, k)[k].size == Add64(blocks[k].size, FreeRun(blocks, k + 1))
    decreases |blocks|
  {
    if k + 1 < |blocks| && blocks[k + 1].isFree {
      var m := Merge(blocks, k);
      CoalesceSize(m, k);
      assert m[k + 1..] == blocks[k + 2..];
      FreeRunOfTail(m, k + 1, blocks, k + 2);
      AddAssociates(blocks[k].size, blocks[k + 1].size, FreeRun(blocks, k + 2));
    }
  }

  /** Block k and the free blocks after it in the list would fit in block k's page. */
  ghost predicate FreeSafe(h: Heap, k: nat)
    requires k < |h.blocks|
  {
    var size := Add64(h.blocks[k].size, FreeRun(h.blocks, k + 1));
    24 < size && h.blocks[k].addr % 4096 + size <= 4096
  }

  /**
    `pmm_free` does not check that list neighbours touch in memory, so the heap stays well laid out
    exactly when the block and the free blocks it swallows fit in the block's own page.
    */
  lemma {:induction false} FreeKeepsLayoutIff(h: Heap, k: nat)
    requires Layout(h) && k < |h.blocks|
    ensures Layout(DoFree(h, k)) <==> FreeSafe(h, k)
  {
    var b := h.blocks[k];
    var freed := Heap(h.blocks[k := Block(b.addr, b.size, true)], h.free);
    SameLayout(h, freed);
    CoalesceLayout(freed, k);
    CoalesceSize(freed.blocks, k);
    assert freed.blocks[k + 1..] == h.blocks[k + 1..];
    FreeRunOfTail(freed.blocks, k + 1, h.blocks, k + 1);
    assert InPage(b);
    assert Layout(DoFree(h, k)) <==> InPage(DoFree(h, k).blocks[k]);
  }

  /** Swallowing blocks of its own page only is safe. */
  lemma {:induction false} SamePageFreeIsSafe(h: Heap, k: nat)
    requires Layout(h) && k < |h.blocks|
    requires forall j | k < j < |h.blocks| && h.blocks[j].isFree && (forall i | k < i < j :: h.blocks[i].isFree) ::
      PageOf(h.blocks[j]) == PageOf(h.blocks[k])
    ensures FreeSafe(h, k)
  {
    assert InPage(h.blocks[k]);
    RunEndsInPage(h, k, k + 1);
  }

  lemma {:induction false} RunEndsInPage(h: Heap, k: nat, i: nat)
    requires Layout(h) && k < i <= |h.blocks|
    requires forall j | k < j < |h.blocks| && h.blocks[j].isFree && (forall i | k < i < j :: h.blocks[i].isFree) ::
      PageOf(h.blocks[j]) == PageOf(h.blocks[k])
    requires forall j | k < j < i :: h.blocks[j].isFree
    ensures PageOf(h.blocks[i - 1]) == PageOf(h.blocks[k])
    ensures h.blocks[i - 1].addr % 4096 + h.blocks[i - 1].size + FreeRun(h.blocks, i) <= 4096
    decreases |h.blocks| - i
  {
    assert InPage(h.blocks[i - 1]);
    if i < |h.blocks| && h.blocks[i].isFree {
      RunEndsInPage(h, k, i + 1);
      assert InPage(h.blocks[i]);
      assert h.blocks[i].addr == h.blocks[i - 1].addr + h.blocks[i - 1].size;
    }
  }

  /** The layout does not depend on which blocks are in use. */
  lemma {:induction false} SameLayout(h: Heap, h': Heap)
    requires Layout(h) && h'.free == h.free && |h'.blocks| == |h.blocks|
    requires forall i | 0 <= i < |h.blocks| ::
      h'.blocks[i].addr == h.blocks[i].addr && h'.blocks[i].size == h.blocks[i].size
    ensures Layout(h')
  {
    forall i | 0 <= i < |h.blocks| ensures PageOf(h'.blocks[i]) == PageOf(h.blocks[i]) && InPage(h'.blocks[i]) {
      assert InPage(h.blocks[i]);
    }
  }

  // ------------------------------------------------------------------------------------------
  // pmm_alloc

  /** The request, with its header, fits what serves it: the split block or a whole page. */
  ghost predicate AllocSafe(h: Heap, size: U64) {
    var need := Add64(size, 24);
    var i := FirstFit(h.blocks, need);
    size == 0
    || (if i < |h.blocks| then 24 < need || h.blocks[i].size <= Add64(need, 24)
        else TopFree(h.free) == 0 || 24 < need <= 4096)
  }

  lemma {:induction false} SmallRequestsAreSafe(h: Heap, size: U64)
    requires size <= 4072
    ensures AllocSafe(h, size)
  {
  }

  lemma {:induction false} SplitLayout(h: Heap, k: nat, need: U64)
    requires Layout(h) && k < |h.blocks| && 24 < need && need + 24 < h.blocks[k].size
    ensures Layout(Heap(Split(h.blocks, k, need), h.free))
  {
    var bs, t := h.blocks, Split(h.blocks, k, need);
    assert InPage(bs[k]);
    SplitPages(bs[k], need);
    forall j | 0 <= j < |t| ensures InPage(t[j]) && PageOf(t[j]) == PageOf(bs[if j <= k then j else j - 1]) {
      if j < k { assert InPage(bs[j]); }
      if j > k + 1 { assert InPage(bs[j - 1]); }
    }
    SplitTouching(bs, k, need);
    SplitGrouped(bs, k, need);
  }

  lemma {:induction false} SplitTouching(bs: seq<Block>, k: nat, need: U64)
    requires Touching(bs) && k < |bs| && InPage(bs[k]) && 24 < need && need + 24 < bs[k].size
    ensures Touching(Split(bs, k, need))
  {
    var t := Split(bs, k, need);
    SplitPages(bs[k], need);
    forall j | 0 <= j < |t| - 1 && PageOf(t[j]) == PageOf(t[j + 1]) ensures t[j + 1].addr == t[j].addr + t[j].size {
      var j' := if j <= k then j else j - 1;
      if j != k { assert PageOf(bs[j']) == PageOf(bs[j' + 1]); }
    }
  }

  lemma {:induction false} SplitGrouped(bs: seq<Block>, k: nat, need: U64)
    requires Grouped(bs) && k < |bs| && InPage(bs[k]) && 24 < need && need + 24 < bs[k].size
    ensures Grouped(Split(bs, k, need))
  {
    var t := Split(bs, k, need);
    SplitPages(bs[k], need);
    forall a, b | 0 <= a < b < |t| && PageOf(t[a]) == PageOf(t[b]) ensures PageOf(t[a + 1]) == PageOf(t[a]) {
      var a', b' := if a <= k then a else a - 1, if b <= k then b else b - 1;
      assert PageOf(t[a]) == PageOf(bs[a']) && PageOf(t[b]) == PageOf(bs[b']);
      if a' < b' { assert PageOf(bs[a' + 1]) == PageOf(bs[a']); }
    }
  }

  lemma {:induction false} SplitPages(b: Block, need: U64)
    requires InPage(b) && 24 < need && need + 24 < b.size
    ensures var t, r := Block(b.addr, need, false), Block(Add64(b.addr, need), Sub64(b.size, need), true);
      InPage(t) && InPage(r) && PageOf(t) == PageOf(r) == PageOf(b) && r.addr == t.addr + t.size
  {
  }

  lemma {:induction false} AppendLayout(h: Heap, need: U64)
    requires Layout(h) && h.free != [] && TopFree(h.free) != 0
    ensures Layout(Heap(h.blocks + [Block(TopFree(h.free), need, false)], PopFree(h.free))) <==> 24 < need <= 4096
  {
    var n, m := |h.free| - 1, |h.blocks|;
    var b := Block(h.free[n], need, false);
    var h' := Heap(h.blocks + [b], PopFree(h.free));
    assert h.free[n] % 4096 == 0;
    assert InPage(b) <==> 24 < need <= 4096;
    assert h'.blocks[m] == b;
    forall i | 0 <= i < n ensures h.free[i] / 4096 != PageOf(b) {
      assert h.free[i] % 4096 == 0 && h.free[i] != h.free[n];
    }
    forall i | 0 <= i < m ensures PageOf(h'.blocks[i]) != PageOf(b) {
      assert h'.blocks[i] == h.blocks[i];
    }
    assert PagesApart(h');
    assert Touching(h'.blocks) && Grouped(h'.blocks);
  }

  /** `pmm_alloc` keeps the heap well laid out exactly when the request is safe. */
  lemma {:induction false} AllocKeepsLayoutIff(h: Heap, size: U64)
    requires Layout(h)
    ensures Layout(DoAlloc(h, size).0) <==> AllocSafe(h, size)
  {
    var need := Add64(size, 24);
    var i := FirstFit(h.blocks, need);
    if size != 0 {
      if i < |h.blocks| {
        AllocFromBlockIff(h, i, need);
      } else {
        AllocFromPageIff(h, need);
      }
    }
  }

  /** The stack of a thread is a request of 4096 bytes, which with its header is more than a page holds. */
  lemma {:induction false} StackRequestBreaksLayout(page: U64)
    requires page % 4096 == 0 && page > 0
    ensures Layout(Heap([], [page])) && !Layout(DoAlloc(Heap([], [page]), 4096).0)
  {
    AllocKeepsLayoutIff(Heap([], [page]), 4096);
  }

  lemma {:induction false} AllocFromBlockIff(h: Heap, i: nat, need: U64)
    requires Layout(h) && i < |h.blocks| && Fits(h.blocks[i], need)
    ensures Layout(Heap(Take(h.blocks, i, need), h.free)) <==> 24 < need || h.blocks[i].size <= Add64(need, 24)
  {
    var b := h.blocks[i];
    assert InPage(b);
    if b.size <= Add64(need, 24) {
      SameLayout(h, Heap(h.blocks[i := Block(b.addr, b.size, false)], h.free));
    } else if 24 < need {
      SplitLayout(h, i, need);
    } else {
      assert !InPage(Split(h.blocks, i, need)[i]);
    }
  }

  lemma {:induction false} AllocFromPageIff(h: Heap, need: U64)
    requires Layout(h)
    ensures var page := TopFree(h.free);
      Layout(if page == 0 then Heap(h.blocks, PopFree(h.free))
             else Heap(h.blocks + [Block(page, need, false)], PopFree(h.free)))
      <==> page == 0 || 24 < need <= 4096
  {
    if TopFree(h.free) == 0 {
      assert PagesApart(Heap(h.blocks, PopFree(h.free)));
    } else {
      AppendLayout(h, need);
    }
  }
}
