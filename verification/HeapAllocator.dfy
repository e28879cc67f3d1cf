/**
  `pmm_alloc` and `pmm_free` (kernel/src/mm/pmm.c) over the linked headers in memory.
  */
module HeapAllocator {
  import opened Words
  import opened PageStack
  import opened HeapList
  import opened HeapLayout

  /** pmm_memblk_t */
  datatype Header = Header(size: U64, next: U64, isFree: bool)

  /** The address of block i, NULL past the end. */
  ghost function AddrAt(blocks: seq<Block>, i: nat): U64 {
    if i < |blocks| then blocks[i].addr else 0
  }

  ghost predicate InMemory(headers: map<U64, Header>, blocks: seq<Block>, i: nat)
    requires i < |blocks|
  {
    && blocks[i].addr != 0 && blocks[i].addr in headers
    && headers[blocks[i].addr] == Header(blocks[i].size, AddrAt(blocks, i + 1), blocks[i].isFree)
  }

  /** Two headers, of sizeof(pmm_memblk_t) bytes each, do not overlap. */
  ghost predicate HeadersApart(a: int, b: int) {
    a + 24 <= b || b + 24 <= a
  }

  ghost predicate Distinct(blocks: seq<Block>) {
    forall i, j | 0 <= i < j < |blocks| :: HeadersApart(blocks[i].addr, blocks[j].addr)
  }

  /** There is room for a header at address a. */
  ghost predicate NewHeader(blocks: seq<Block>, a: U64) {
    a != 0 && forall i | 0 <= i < |blocks| :: HeadersApart(blocks[i].addr, a)
  }

  /** The header that `pmm_alloc` writes, for the rest of a block or on a page, overlaps no other. */
  ghost predicate HasRoom(h: Heap, size: U64) {
    var need := Add64(size, 24);
    var i := FirstFit(h.blocks, need);
    if i < |h.blocks| then
      h.blocks[i].size > Add64(need, 24) ==> NewHeader(h.blocks, Add64(h.blocks[i].addr, need))
    else TopFree(h.free) != 0 ==> NewHeader(h.blocks, TopFree(h.free))
  }

  /** A well laid out heap has room for every request whose size with a header is a machine word. */
  lemma {:induction false} LayoutHasRoom(h: Heap, size: U64)
    requires Layout(h) && size + 24 < TWO64
    ensures HasRoom(h, size)
  {
    var i := FirstFit(h.blocks, size + 24);
    if i < |h.blocks| {
      if h.blocks[i].size > Add64(size + 24, 24) { SplitHasRoom(h, i, size + 24); }
    } else if TopFree(h.free) != 0 {
      PageHasRoom(h);
    }
  }

  /** So has the heap that a stack request has spoilt, as long as there are pages. */
  lemma {:induction false} RoomAfterStackRequest(page: U64, free: seq<U64>, size: U64)
    requires Layout(Heap([], free + [page])) && page != 0 && 0 !in free
    ensures var h := DoAlloc(Heap([], free + [page]), 4096).0;
      !Layout(h) && HasRoom(h, size)
  {
    var all, n := free + [page], |free|;
    assert PopFree(all) == free;
    AllocKeepsLayoutIff(Heap([], all), 4096);
    if free != [] {
      assert all[n - 1] == free[n - 1] && all[n] == page;
      ApartPages(free[n - 1], page);
    }
  }

  lemma {:induction false} ApartPages(a: U64, b: U64)
    requires a % 4096 == 0 && b % 4096 == 0 && a != b
    ensures HeadersApart(a, b)
  {
    assert a == 4096 * (a / 4096) && b == 4096 * (b / 4096);
  }

  /** The headers in memory, followed from the head, spell out the list. */
  ghost predicate Linked(headers: map<U64, Header>, head: U64, blocks: seq<Block>) {
    head == AddrAt(blocks, 0) && Distinct(blocks) && forall i | 0 <= i < |blocks| :: InMemory(headers, blocks, i)
  }

  /** What memory holds for block k and its successor. */
  ghost predicate AtHeader(headers: map<U64, Header>, blocks: seq<Block>, k: nat)
    requires k < |blocks|
  {
    && blocks[k].addr != 0 && blocks[k].addr in headers
    && headers[blocks[k].addr] == Header(blocks[k].size, AddrAt(blocks, k + 1), blocks[k].isFree)
    && (k + 1 < |blocks| ==>
          && blocks[k + 1].addr != 0 && blocks[k + 1].addr != blocks[k].addr && blocks[k + 1].addr in headers
          && headers[blocks[k + 1].addr].isFree == blocks[k + 1].isFree)
  }

  lemma {:induction false} HeaderOf(headers: map<U64, Header>, head: U64, blocks: seq<Block>, k: nat)
    requires Linked(headers, head, blocks) && k < |blocks|
    ensures AtHeader(headers, blocks, k)
  {
    assert InMemory(headers, blocks, k);
    if k + 1 < |blocks| { assert InMemory(headers, blocks, k + 1); }
  }

  lemma {:induction false} PageHasRoom(h: Heap)
    requires Layout(h) && h.free != [] && TopFree(h.free) != 0
    ensures NewHeader(h.blocks, TopFree(h.free))
  {
    var page := h.free[|h.free| - 1];
    forall i | 0 <= i < |h.blocks| ensures HeadersApart(h.blocks[i].addr, page) {
      assert InPage(h.blocks[i]);
      assert page / 4096 != PageOf(h.blocks[i]);
      InOtherPage(h.blocks[i].addr, page);
    }
  }

  lemma {:induction false} InOtherPage(addr: int, page: int)
    requires addr % 4096 + 24 <= 4096 && page % 4096 == 0 && page / 4096 != addr / 4096
    ensures HeadersApart(addr, page)
  {
    assert page == 4096 * (page / 4096) && addr == 4096 * (addr / 4096) + addr % 4096;
  }

  lemma {:induction false} SplitHasRoom(h: Heap, k: nat, need: U64)
    requires Layout(h) && k < |h.blocks| && 24 <= need && need + 24 < h.blocks[k].size
    ensures NewHeader(h.blocks, Add64(h.blocks[k].addr, need))
  {
    var b := h.blocks[k];
    assert InPage(b);
    assert b.addr + need < 4096 * (b.addr / 4096 + 1) <= TWO64;
    forall i | 0 <= i < |h.blocks| ensures HeadersApart(h.blocks[i].addr, b.addr + need) {
      assert InPage(h.blocks[i]);
      if i < k { NoOverlap(h, i, k); } else if k < i { NoOverlap(h, k, i); }
    }
  }

  lemma {:induction false} LinkedAfterSplit(
    headers: map<U64, Header>, head: U64, blocks: seq<Block>, k: nat, need: U64, headers': map<U64, Header>)
    requires Linked(headers, head, blocks) && k < |blocks|
    requires var b := blocks[k];
      var added := Add64(b.addr, need);
      && NewHeader(blocks, added)
      && headers' == headers[added := Header(Sub64(b.size, need), AddrAt(blocks, k + 1), true)]
                            [b.addr := Header(need, added, false)]
    ensures Linked(headers', head, Split(blocks, k, need))
  {
    var t := Split(blocks, k, need);
    DistinctAfterSplit(blocks, k, need);
    assert InMemory(headers, blocks, k);
    forall i | 0 <= i < |t| ensures InMemory(headers', t, i) {
      if i < k {
        assert InMemory(headers, blocks, i) && t[i] == blocks[i];
      }
      if i > k + 1 {
        assert InMemory(headers, blocks, i - 1) && t[i] == blocks[i - 1];
      }
    }
  }

  lemma {:induction false} DistinctAfterSplit(blocks: seq<Block>, k: nat, need: U64)
    requires Distinct(blocks) && k < |blocks|
    requires NewHeader(blocks, Add64(blocks[k].addr, need))
    ensures Distinct(Split(blocks, k, need))
  {
    var t := Split(blocks, k, need);
    forall i, j | 0 <= i < j < |t| ensures HeadersApart(t[i].addr, t[j].addr) {
      if i != k + 1 { assert t[i].addr == blocks[if i <= k then i else i - 1].addr; }
      if j != k + 1 { assert t[j].addr == blocks[if j <= k then j else j - 1].addr; }
    }
  }

  lemma {:induction false} LinkedAfterMerge(
    headers: map<U64, Header>, head: U64, blocks: seq<Block>, k: nat, headers': map<U64, Header>)
    requires Linked(headers, head, blocks) && k + 1 < |blocks|
    requires headers' == headers[blocks[k].addr :=
      Header(Add64(blocks[k].size, blocks[k + 1].size), AddrAt(blocks, k + 2), blocks[k].isFree)]
    ensures Linked(headers', head, Merge(blocks, k))
  {
    var m := Merge(blocks, k);
    DistinctAfterMerge(blocks, k);
    forall i | 0 <= i < |m| ensures InMemory(headers', m, i) {
      if i <= k {
        assert InMemory(headers, blocks, i);
      } else {
        assert InMemory(headers, blocks, i + 1);
      }
    }
  }

  lemma {:induction false} DistinctAfterMerge(blocks: seq<Block>, k: nat)
    requires Distinct(blocks) && k + 1 < |blocks|
    ensures Distinct(Merge(blocks, k))
  {
    var m := Merge(blocks, k);
    forall i, j | 0 <= i < j < |m| ensures HeadersApart(m[i].addr, m[j].addr) {
      assert m[i].addr == blocks[if i <= k then i else i + 1].addr;
      assert m[j].addr == blocks[if j <= k then j else j + 1].addr;
    }
  }

  lemma {:induction false} LinkedAfterAppend(
    headers: map<U64, Header>, head: U64, blocks: seq<Block>, b: Block, headers': map<U64, Header>, head': U64)
    requires Linked(headers, head, blocks) && NewHeader(blocks, b.addr)
    requires blocks != [] ==> InMemory(headers, blocks, |blocks| - 1)
    requires var n := |blocks|;
      var hs := headers[b.addr := Header(b.size, 0, b.isFree)];
      if n == 0 then headers' == hs && head' == b.addr
      else head' == head && headers' == hs[blocks[n - 1].addr := hs[blocks[n - 1].addr].(next := b.addr)]
    ensures Linked(headers', head', blocks + [b])
  {
    var t, n := blocks + [b], |blocks|;
    assert t[n] == b;
    forall i | 0 <= i < |t| ensures InMemory(headers', t, i) {
      if i < n { assert InMemory(headers, blocks, i) && t[i] == blocks[i]; }
    }
  }

  /** Changing only the flag of block k in memory changes it in the list. */
  lemma {:induction false} LinkedAfterMark(
    headers: map<U64, Header>, head: U64, blocks: seq<Block>, k: nat, isFree: bool, headers': map<U64, Header>)
    requires Linked(headers, head, blocks) && k < |blocks| && InMemory(headers, blocks, k)
    requires headers' == headers[blocks[k].addr := headers[blocks[k].addr].(isFree := isFree)]
    ensures Linked(headers', head, blocks[k := Block(blocks[k].addr, blocks[k].size, isFree)])
  {
    var t := blocks[k := Block(blocks[k].addr, blocks[k].size, isFree)];
    forall i | 0 <= i < |t| ensures t[i].addr == blocks[i].addr && InMemory(headers', t, i) {
      assert InMemory(headers, blocks, i);
    }
  }

  class Allocator {
    const pages: PageStack.Allocator
    var headers: map<U64, Header>
    var freeBlocks: U64
    ghost var blocks: seq<Block>

    ghost predicate Valid()
      reads this, pages
    {
      pages.Valid() && Linked(headers, freeBlocks, blocks)
    }

    ghost function Value(): Heap
      reads this, pages, pages.stack
      requires Valid()
    {
      Heap(blocks, pages.Contents())
    }

    constructor (pages: PageStack.Allocator)
      requires pages.Valid()
      ensures this.pages == pages && Valid() && Value() == Heap([], pages.Contents())
    {
      this.pages := pages;
      headers, freeBlocks, blocks := map[], 0, [];
    }

    /** `pmm_alloc`. */
    method Alloc(size: U64) returns (ptr: U64)
      requires Valid() && (pages.initialized && size > 0 ==> HasRoom(Value(), size))
      modifies this, pages
      ensures Valid()
      ensures pages.initialized ==> Value() == DoAlloc(old(Value()), size).0 && ptr == DoAlloc(old(Value()), size).1
      ensures !pages.initialized || size == 0 ==> Value() == old(Value()) && ptr == 0
    {
      if !pages.initialized {
        return 0;
      }
      if size == 0 {
        return 0;
      }
      var need := Add64(size, 24);
      ghost var h0: Heap := Value();
      ghost var i: nat;
      var block, previous;
      block, previous, i := Search(need);
      if block != 0 {
        assert DoAlloc(h0, size) == (Heap(Take(h0.blocks, i, need), h0.free), Add64(block, 24));
        ptr := TakeBlock(block, need, i);
      } else {
        assert i == |h0.blocks|;
        ptr := TakePage(previous, need);
      }
    }

    /** The loop of `pmm_alloc`: the first free block that is large enough, and its predecessor. */
    method Search(need: U64) returns (block: U64, previous: U64, ghost i: nat)
      requires Valid()
      ensures i == FirstFit(blocks, need) && block == AddrAt(blocks, i)
      ensures block != 0 <==> i < |blocks|
      ensures previous == if i == 0 then 0 else blocks[i - 1].addr
    {
      block, previous, i := freeBlocks, 0, 0;
      if blocks != [] { HeaderOf(headers, freeBlocks, blocks, 0); }
      while block != 0
        invariant i <= |blocks| && block == AddrAt(blocks, i) && (block != 0 <==> i < |blocks|)
        invariant previous == if i == 0 then 0 else blocks[i - 1].addr
        invariant forall j | 0 <= j < i :: !Fits(blocks[j], need)
        decreases |blocks| - i
      {
        HeaderOf(headers, freeBlocks, blocks, i);
        if headers[block].isFree && headers[block].size >= need {
          assert Fits(blocks[i], need);
          return;
        }
        previous := block;
        block := headers[block].next;
        i := i + 1;
      }
    }

    /** Block i is taken, and split if enough is left. */
    method TakeBlock(block: U64, need: U64, ghost i: nat) returns (ptr: U64)
      requires Valid() && i < |blocks| && block == blocks[i].addr && Fits(blocks[i], need)
      requires blocks[i].size > Add64(need, 24) ==> NewHeader(blocks, Add64(block, need))
      modifies this`headers, this`blocks
      ensures Valid() && blocks == Take(old(blocks), i, need) && ptr == Add64(block, 24)
    {
      HeaderOf(headers, freeBlocks, blocks, i);
      if headers[block].size > Add64(need, 24) {
        SplitBlock(block, need, i);
      } else {
        LinkedAfterMark(headers, freeBlocks, blocks, i, false, headers[block := headers[block].(isFree := false)]);
        headers := headers[block := headers[block].(isFree := false)];
        blocks := blocks[i := Block(blocks[i].addr, blocks[i].size, false)];
      }
      ptr := Add64(block, 24);
    }

    method SplitBlock(block: U64, need: U64, ghost i: nat)
      requires Valid() && i < |blocks| && block == blocks[i].addr && NewHeader(blocks, Add64(block, need))
      modifies this`headers, this`blocks
      ensures Valid() && blocks == Split(old(blocks), i, need)
    {
      HeaderOf(headers, freeBlocks, blocks, i);
      ghost var headers0, size, next := headers, headers[block].size, headers[block].next;
      var added := Add64(block, need);
      headers := headers[added := Header(Sub64(headers[block].size, need), headers[block].next, true)];
      headers := headers[block := Header(need, added, false)];
      LinkedAfterSplit(headers0, freeBlocks, blocks, i, need, headers);
      blocks := Split(blocks, i, need);
    }

    /** The end of `pmm_alloc`: a whole page for the request. */
    method TakePage(previous: U64, need: U64) returns (ptr: U64)
      requires Valid() && pages.initialized
      requires var page := TopFree(pages.Contents()); page != 0 ==> NewHeader(blocks, page)
      requires previous == if blocks == [] then 0 else blocks[|blocks| - 1].addr
      modifies this, pages
      ensures Valid() && pages.initialized
      ensures var page := TopFree(old(pages.Contents()));
        && pages.Contents() == PopFree(old(pages.Contents()))
        && (if page == 0 then ptr == 0 && blocks == old(blocks)
            else ptr == Add64(page, 24) && blocks == old(blocks) + [Block(page, need, false)])
    {
      if blocks != [] { HeaderOf(headers, freeBlocks, blocks, |blocks| - 1); }
      var block := pages.AllocPage();
      if block == 0 {
        return 0;
      }
      ghost var headers0, head0, b := headers, freeBlocks, Block(block, need, false);
      headers := headers[block := Header(need, 0, false)];
      if previous != 0 {
        headers := headers[previous := headers[previous].(next := block)];
      } else {
        freeBlocks := block;
      }
      LinkedAfterAppend(headers0, head0, blocks, b, headers, freeBlocks);
      blocks := blocks + [b];
      ptr := Add64(block, 24);
    }

    /** `pmm_free` of the payload of listed block k. */
    method Free(ptr: U64, ghost k: nat)
      requires Valid() && (ptr != 0 ==> k < |blocks| && ptr == Add64(blocks[k].addr, 24))
      modifies this`headers, this`blocks
      ensures Valid()
      ensures ptr != 0 && pages.initialized ==> Value() == DoFree(old(Value()), k)
      ensures ptr == 0 || !pages.initialized ==> Value() == old(Value())
    {
      if !pages.initialized {
        return;
      }
      if ptr == 0 {
        return;
      }
      var block := Sub64(ptr, 24);
      HeaderOf(headers, freeBlocks, blocks, k);
      LinkedAfterMark(headers, freeBlocks, blocks, k, true, headers[block := headers[block].(isFree := true)]);
      headers := headers[block := headers[block].(isFree := true)];
      blocks := blocks[k := Block(blocks[k].addr, blocks[k].size, true)];
      ghost var freed := blocks;
      HeaderOf(headers, freeBlocks, blocks, k);
      while headers[block].next != 0 && headers[headers[block].next].isFree
        invariant Valid() && k < |blocks| && block == blocks[k].addr && AtHeader(headers, blocks, k)
        invariant Coalesce(blocks, k) == Coalesce(freed, k)
        decreases |blocks|
      {
        AbsorbNext(block, k);
        HeaderOf(headers, freeBlocks, blocks, k);
      }
    }

    /** The body of the loop of `pmm_free`. */
    method AbsorbNext(block: U64, ghost k: nat)
      requires Valid() && k + 1 < |blocks| && block == blocks[k].addr
      modifies this`headers, this`blocks
      ensures Valid() && blocks == Merge(old(blocks), k)
    {
      HeaderOf(headers, freeBlocks, blocks, k);
      HeaderOf(headers, freeBlocks, blocks, k + 1);
      ghost var headers0 := headers;
      var next := headers[block].next;
      headers := headers[block := headers[block].(size := Add64(headers[block].size, headers[next].size))];
      headers := headers[block := headers[block].(next := headers[next].next)];
      LinkedAfterMerge(headers0, freeBlocks, blocks, k, headers);
      blocks := Merge(blocks, k);
    }
  }
}
