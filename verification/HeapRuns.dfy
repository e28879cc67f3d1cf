/**
  Runs of `pmm_alloc` and `pmm_free` (kernel/src/mm/pmm.c): what the callers may rely on, and the
  run that shows why freeing needs care.
  */
module HeapRuns {
  import opened Words
  import opened PageStack
  import opened HeapList
  import opened HeapLayout

  datatype Op = Alloc(size: U64) | Free(ptr: U64)

  /** The heap and what its callers hold: the bytes asked for behind each live pointer. */
  datatype State = State(heap: Heap, live: map<int, int>)

  ghost predicate Holds(b: Block, ptr: int) {
    !b.isFree && b.addr + 24 == ptr
  }

  ghost predicate Serves(b: Block, live: map<int, int>) {
    b.isFree || (b.addr + 24 in live && b.size >= live[b.addr + 24] + 24)
  }

  ghost predicate Found(blocks: seq<Block>, ptr: int) {
    exists i :: 0 <= i < |blocks| && Holds(blocks[i], ptr)
  }

  /** The used blocks are exactly the live allocations, each at least as large as asked. */
  ghost predicate Exact(blocks: seq<Block>, live: map<int, int>) {
    && (forall i | 0 <= i < |blocks| :: Serves(blocks[i], live))
    && (forall p {:trigger Found(blocks, p)} | p in live :: Found(blocks, p))
  }

  ghost predicate Good(s: State) {
    Layout(s.heap) && Exact(s.heap.blocks, s.live)
  }

  /** The block behind a pointer, or the length of the list. */
  ghost function Owner(blocks: seq<Block>, ptr: int): (k: nat)
    ensures k <= |blocks|
    ensures k < |blocks| ==> Holds(blocks[k], ptr)
    ensures forall i | 0 <= i < k :: !Holds(blocks[i], ptr)
  {
    if blocks == [] then 0
    else if Holds(blocks[0], ptr) then 0
    else 1 + Owner(blocks[1..], ptr)
  }

  /** A request a page can hold; a live pointer whose block can be coalesced inside its page. */
  ghost predicate Legal(s: State, op: Op) {
    match op
    case Alloc(size) => 1 <= size <= 4072
    case Free(ptr) =>
      var k := Owner(s.heap.blocks, ptr);
      k < |s.heap.blocks| && FreeSafe(s.heap, k)
  }

  ghost function Step(s: State, op: Op): State
    requires Legal(s, op)
  {
    match op
    case Alloc(size) =>
      var (h', p) := DoAlloc(s.heap, size);
      State(h', if p == 0 then s.live else s.live[p as int := size])
    case Free(ptr) => State(DoFree(s.heap, Owner(s.heap.blocks, ptr)), s.live - {ptr as int})
  }

  /** A run of calls, each legal when it is made, from s to s'. */
  ghost predicate Run(s: State, ops: seq<Op>, s': State)
    decreases |ops|
  {
    if ops == [] then s' == s else Legal(s, ops[0]) && Run(Step(s, ops[0]), ops[1..], s')
  }

  lemma {:induction false} OneBlockEach(h: Heap, i: nat, j: nat)
    requires Layout(h) && i < |h.blocks| && j < |h.blocks| && h.blocks[i].addr == h.blocks[j].addr
    ensures i == j
  {
    if i != j {
      assert InPage(h.blocks[i]) && InPage(h.blocks[j]);
      NoOverlap(h, if i < j then i else j, if i < j then j else i);
    }
  }

  // ------------------------------------------------------------------------------------------
  // Freeing

  lemma {:induction false} MergeExact(blocks: seq<Block>, k: nat, live: map<int, int>)
    requires k + 1 < |blocks| && blocks[k].isFree && blocks[k + 1].isFree && Exact(blocks, live)
    ensures Merge(blocks, k)[k].isFree && Exact(Merge(blocks, k), live)
  {
    var m := Merge(blocks, k);
    forall i | 0 <= i < |m| ensures Serves(m[i], live) {
      if i != k { assert m[i] == blocks[if i < k then i else i + 1]; }
    }
    forall p <- live ensures Found(m, p) {
      assert Found(blocks, p);
      var i :| 0 <= i < |blocks| && Holds(blocks[i], p);
      assert Holds(m[if i < k then i else i - 1], p);
    }
  }

  /** Coalescing drops free blocks only. */
  lemma {:induction false} CoalesceExact(blocks: seq<Block>, k: nat, live: map<int, int>)
    requires k < |blocks| && blocks[k].isFree && Exact(blocks, live)
    ensures Exact(Coalesce(blocks, k), live)
    decreases |blocks|
  {
    if k + 1 < |blocks| && blocks[k + 1].isFree {
      MergeExact(blocks, k, live);
      CoalesceExact(Merge(blocks, k), k, live);
    }
  }

  lemma {:induction false} FreeExact(h: Heap, live: map<int, int>, k: nat, ptr: U64)
    requires Layout(h) && Exact(h.blocks, live) && k < |h.blocks| && Holds(h.blocks[k], ptr)
    ensures Exact(DoFree(h, k).blocks, live - {ptr as int})
  {
    var b := h.blocks[k];
    var freed := h.blocks[k := Block(b.addr, b.size, true)];
    forall i | 0 <= i < |freed| ensures Serves(freed[i], live - {ptr as int}) {
      if i != k {
        assert Serves(h.blocks[i], live);
        if h.blocks[i].addr == b.addr { OneBlockEach(h, i, k); }
      }
    }
    forall p <- live - {ptr as int} ensures Found(freed, p) {
      assert Found(h.blocks, p);
      var i :| 0 <= i < |h.blocks| && Holds(h.blocks[i], p);
      assert Holds(freed[i], p);
    }
    CoalesceExact(freed, k, live - {ptr as int});
  }

  // ------------------------------------------------------------------------------------------
  // Allocating

  /** Block j becomes the allocation for a new pointer; every other used block stays where it is. */
  lemma {:induction false} AddedExact(bs: seq<Block>, live: map<int, int>, after: seq<Block>, j: nat, size: U64)
    requires Exact(bs, live) && j < |after| && !after[j].isFree && after[j].size >= size + 24
    requires forall i | 0 <= i < |after| && i != j ::
      after[i].isFree || (after[i] in bs && after[i].addr != after[j].addr)
    requires forall i | 0 <= i < |bs| && !bs[i].isFree :: bs[i] in after
    ensures Exact(after, live[after[j].addr + 24 := size])
  {
    var ptr := after[j].addr + 24;
    forall i | 0 <= i < |after| ensures Serves(after[i], live[ptr := size]) {
      if i != j && !after[i].isFree {
        var n :| 0 <= n < |bs| && bs[n] == after[i];
        assert Serves(bs[n], live);
      }
    }
    forall p <- live[ptr := size] ensures Found(after, p) {
      if p == ptr {
        assert Holds(after[j], p);
      } else {
        assert Found(bs, p);
        var i :| 0 <= i < |bs| && Holds(bs[i], p);
        var n :| 0 <= n < |after| && after[n] == bs[i];
        assert Holds(after[n], p);
      }
    }
  }

  /** Every used block but k stays as it is, and what is new is free. */
  lemma {:induction false} TakeMoves(h: Heap, k: nat, need: U64, after: seq<Block>)
    requires Layout(h) && k < |h.blocks| && h.blocks[k].isFree && after == Take(h.blocks, k, need)
    ensures forall i | 0 <= i < |after| && i != k && !after[i].isFree ::
      after[i] in h.blocks && after[i].addr != h.blocks[k].addr
    ensures forall j | 0 <= j < |h.blocks| && !h.blocks[j].isFree :: h.blocks[j] in after
  {
    var bs, split := h.blocks, |after| != |h.blocks|;
    forall i | 0 <= i < |after| && i != k && !after[i].isFree
      ensures after[i] in bs && after[i].addr != bs[k].addr
    {
      var j := if i < k || !split then i else i - 1;
      assert after[i] == bs[j];
      if bs[j].addr == bs[k].addr { OneBlockEach(h, j, k); }
    }
    forall j | 0 <= j < |bs| && !bs[j].isFree ensures bs[j] in after {
      assert after[if j <= k || !split then j else j + 1] == bs[j];
    }
  }

  lemma {:induction false} TakeExact(h: Heap, live: map<int, int>, k: nat, size: U64)
    requires Layout(h) && Exact(h.blocks, live)
    requires k < |h.blocks| && size <= 4072 && Fits(h.blocks[k], size + 24)
    ensures Exact(Take(h.blocks, k, size + 24), live[h.blocks[k].addr + 24 := size])
  {
    var after := Take(h.blocks, k, size + 24);
    TakeMoves(h, k, size + 24, after);
    AddedExact(h.blocks, live, after, k, size);
  }

  lemma {:induction false} AppendExact(h: Heap, live: map<int, int>, size: U64)
    requires Layout(h) && Exact(h.blocks, live) && size <= 4072 && h.free != []
    ensures Exact(h.blocks + [Block(TopFree(h.free), size + 24, false)], live[TopFree(h.free) + 24 := size])
  {
    var n, bs := |h.free| - 1, h.blocks;
    var after := bs + [Block(h.free[n], size + 24, false)];
    forall i | 0 <= i < |after| && i != |bs| ensures after[i] in bs && after[i].addr != h.free[n] {
      assert after[i] == bs[i];
      assert h.free[n] / 4096 != PageOf(bs[i]);
    }
    forall i | 0 <= i < |bs| ensures bs[i] in after {
      assert after[i] == bs[i];
    }
    AddedExact(bs, live, after, |bs|, size);
  }

  lemma {:induction false} AllocExact(h: Heap, live: map<int, int>, size: U64)
    requires Layout(h) && Exact(h.blocks, live) && 1 <= size <= 4072
    ensures var (h', p) := DoAlloc(h, size);
      Exact(h'.blocks, if p == 0 then live else live[p as int := size])
  {
    var i := FirstFit(h.blocks, size + 24);
    if i < |h.blocks| {
      assert InPage(h.blocks[i]);
      PointerFits(h.blocks[i].addr, h.blocks[i].size);
      TakeExact(h, live, i, size);
    } else if TopFree(h.free) != 0 {
      assert h.free[|h.free| - 1] % 4096 == 0;
      PointerFits(TopFree(h.free), 4096);
      AppendExact(h, live, size);
    }
  }

  lemma {:induction false} PointerFits(addr: U64, size: int)
    requires addr % 4096 + size <= 4096 && size > 24
    ensures Add64(addr, 24) == addr + 24
  {
    assert addr + 24 < 4096 * (addr / 4096 + 1) <= TWO64;
  }

  // ------------------------------------------------------------------------------------------
  // Every run

  lemma {:induction false} StepKeeps(s: State, op: Op)
    requires Good(s) && Legal(s, op)
    ensures Good(Step(s, op))
  {
    match op
    case Alloc(size) => AllocGood(s.heap, s.live, size);
    case Free(ptr) => FreeGood(s.heap, s.live, Owner(s.heap.blocks, ptr), ptr);
  }

  lemma {:induction false} AllocGood(h: Heap, live: map<int, int>, size: U64)
    requires Layout(h) && Exact(h.blocks, live) && 1 <= size <= 4072
    ensures var (h', p) := DoAlloc(h, size);
      Good(State(h', if p == 0 then live else live[p as int := size]))
  {
    AllocExact(h, live, size);
    SmallRequestsAreSafe(h, size);
    AllocKeepsLayoutIff(h, size);
  }

  lemma {:induction false} FreeGood(h: Heap, live: map<int, int>, k: nat, ptr: U64)
    requires Layout(h) && Exact(h.blocks, live) && k < |h.blocks| && Holds(h.blocks[k], ptr) && FreeSafe(h, k)
    ensures Good(State(DoFree(h, k), live - {ptr as int}))
  {
    FreeExact(h, live, k, ptr);
    FreeKeepsLayoutIff(h, k);
  }

  /** Over every legal run the heap stays well laid out and its used blocks are the live allocations. */
  lemma {:induction false} RunKeeps(s: State, ops: seq<Op>, s': State)
    requires Good(s) && Run(s, ops, s')
    ensures Good(s')
    decreases |ops|
  {
    if ops != [] {
      StepKeeps(s, ops[0]);
      RunKeeps(Step(s, ops[0]), ops[1..], s');
    }
  }

  /** What callers rely on: live payloads share no byte, even counting the headers in front of them. */
  lemma {:induction false} PayloadsAreApart(s: State, ops: seq<Op>, s': State, p: int, q: int)
    requires Good(s) && Run(s, ops, s') && p in s'.live && q in s'.live && p != q
    ensures p + s'.live[p] <= q - 24 || q + s'.live[q] <= p - 24
  {
    RunKeeps(s, ops, s');
    var i := HolderOf(s', p);
    var j := HolderOf(s', q);
    if i < j { NoOverlap(s'.heap, i, j); } else { NoOverlap(s'.heap, j, i); }
  }

  lemma {:induction false} HolderOf(s: State, p: int) returns (i: nat)
    requires Good(s) && p in s.live
    ensures i < |s.heap.blocks| && Holds(s.heap.blocks[i], p) && s.heap.blocks[i].size >= s.live[p] + 24
  {
    assert Found(s.heap.blocks, p);
    i :| 0 <= i < |s.heap.blocks| && Holds(s.heap.blocks[i], p);
    assert Serves(s.heap.blocks[i], s.live);
  }

  /** A live payload lies inside one page, and that page is not on the free stack. */
  lemma {:induction false} PayloadInItsPage(s: State, ops: seq<Op>, s': State, p: int, n: nat)
    requires Good(s) && Run(s, ops, s') && p in s'.live && n < |s'.heap.free|
    ensures p % 4096 + s'.live[p] <= 4096 && s'.heap.free[n] / 4096 != p / 4096
  {
    RunKeeps(s, ops, s');
    var i := HolderOf(s', p);
    BlockInItsPage(s'.heap, i, n, s'.live[p]);
  }

  lemma {:induction false} BlockInItsPage(h: Heap, i: nat, n: nat, bytes: int)
    requires Layout(h) && i < |h.blocks| && n < |h.free| && h.blocks[i].size >= bytes + 24
    ensures (h.blocks[i].addr + 24) % 4096 + bytes <= 4096 && h.free[n] / 4096 != (h.blocks[i].addr + 24) / 4096
  {
    assert InPage(h.blocks[i]);
    InItsPage(h.blocks[i].addr, h.blocks[i].size, bytes);
    assert h.free[n] / 4096 != PageOf(h.blocks[i]);
  }

  lemma {:induction false} InItsPage(addr: int, size: int, bytes: int)
    requires addr % 4096 + size <= 4096 && size > 24 && size >= bytes + 24
    ensures (addr + 24) % 4096 + bytes <= 4096 && (addr + 24) / 4096 == addr / 4096
  {
  }

  // ------------------------------------------------------------------------------------------
  // Why coalescing needs care

  /**
    Two page-sized blocks from pages that do not touch, freed last first: the first swallows the
    second although they are apart in memory, and two further requests yield a payload in a frame
    that is still on the free stack.
    */
  lemma {:induction false} CoalescingAcrossPages()
    ensures var h2 := Heap([Block(0x1000, 4096, false), Block(0x5000, 4096, false)], [0x2000]);
      var h4 := DoFree(DoFree(h2, 1), 0);
      var (h5, p5) := DoAlloc(h4, 4072);
      var (h6, p6) := DoAlloc(h5, 4072);
      && Layout(h2) && !FreeSafe(DoFree(h2, 1), 0) && h4.blocks == [Block(0x1000, 8192, true)]
      && p5 == 0x1018 && p6 == 0x2018 && 0x2000 in h6.free
  {
    FreesTheSecond();
    SwallowsTheSecond();
    TwoMore();
  }

  lemma {:induction false} FreesTheSecond()
    ensures var h2 := Heap([Block(0x1000, 4096, false), Block(0x5000, 4096, false)], [0x2000]);
      Layout(h2) && DoFree(h2, 1) == Heap([Block(0x1000, 4096, false), Block(0x5000, 4096, true)], [0x2000])
  {
  }

  lemma {:induction false} SwallowsTheSecond()
    ensures var h3 := Heap([Block(0x1000, 4096, false), Block(0x5000, 4096, true)], [0x2000]);
      DoFree(h3, 0) == Heap([Block(0x1000, 8192, true)], [0x2000]) && !FreeSafe(h3, 0)
  {
    var h3 := Heap([Block(0x1000, 4096, false), Block(0x5000, 4096, true)], [0x2000]);
    var freed := [Block(0x1000, 4096, true), Block(0x5000, 4096, true)];
    assert h3.blocks[0 := Block(0x1000, 4096, true)] == freed;
    assert Merge(freed, 0) == [Block(0x1000, 8192, true)];
    assert Coalesce(freed, 0) == Coalesce(Merge(freed, 0), 0) == Merge(freed, 0);
    assert FreeRun(h3.blocks, 2) == 0;
    assert FreeRun(h3.blocks, 1) == 4096;
  }

  lemma {:induction false} TwoMore()
    ensures var (h5, p5) := DoAlloc(Heap([Block(0x1000, 8192, true)], [0x2000]), 4072);
      var (h6, p6) := DoAlloc(h5, 4072);
      p5 == 0x1018 && p6 == 0x2018 && h6.free == [0x2000]
  {
    var h4 := Heap([Block(0x1000, 8192, true)], [0x2000]);
    var h5 := Heap([Block(0x1000, 4096, false), Block(0x2000, 4096, true)], [0x2000]);
    assert FirstFit(h4.blocks, 4096) == 0;
    assert Split(h4.blocks, 0, 4096) == h5.blocks;
    assert DoAlloc(h4, 4072) == (h5, 0x1018);
    assert Fits(h5.blocks[1], 4096) && !Fits(h5.blocks[0], 4096);
    assert FirstFit(h5.blocks, 4096) == 1;
  }
}
