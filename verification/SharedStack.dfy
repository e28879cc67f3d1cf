/**
  Page tables (kernel/src/mm/vmm.c) and heap (kernel/src/mm/pmm.c) take their frames from one stack.
  Runs that mix the calls of both, with the heap's pages written freely between them.
  */
module SharedStack {
  import opened Words
  import opened PageStack
  import opened PageTable
  import opened HeapList
  import opened HeapLayout
  import Spaces = AddressSpaces
  import Heaps = HeapRuns

  /** The free stack is the world's; `blocks` is the heap's list, `live` what its callers hold. */
  datatype Machine = Machine(w: World, blocks: seq<Block>, live: map<int, int>)

  /** A heap call comes with the memory its callers leave behind. */
  datatype Op = Paging(call: Spaces.Op) | Heaping(request: Heaps.Op, mem: Memory)

  ghost function HeapOf(m: Machine): Heaps.State {
    Heaps.State(Heap(m.blocks, m.w.free), m.live)
  }

  /** Frame f holds a heap block, free or in use. */
  ghost predicate InHeap(blocks: seq<Block>, f: U64) {
    exists i :: 0 <= i < |blocks| && PageOf(blocks[i]) == f / 4096
  }

  /** No heap block lies in a page table or in a `pagemap` structure. */
  ghost predicate Apart(w: World, blocks: seq<Block>) {
    forall f {:trigger InHeap(blocks, f)} | f in w.level || f in w.spaces :: !InHeap(blocks, f)
  }

  ghost predicate Sound(m: Machine, hhdm: U64, kpm: U64) {
    Spaces.Kernel(m.w, hhdm, kpm) && Heaps.Good(HeapOf(m)) && Apart(m.w, m.blocks)
  }

  /** Headers and payloads may change, and nothing else. */
  ghost predicate OnlyHeap(before: Memory, after: Memory, blocks: seq<Block>) {
    && after.Keys == before.Keys
    && forall f {:trigger InHeap(blocks, f)} | f in before && !InHeap(blocks, f) :: after[f] == before[f]
  }

  ghost predicate Legal(m: Machine, op: Op) {
    match op
    case Paging(call) => Spaces.Legal(m.w, call)
    case Heaping(request, mem) =>
      && Heaps.Legal(HeapOf(m), request)
      && OnlyHeap(m.w.mem, mem, Heaps.Step(HeapOf(m), request).heap.blocks)
  }

  ghost function Step(m: Machine, hhdm: U64, kpm: U64, op: Op): Machine
    requires Sound(m, hhdm, kpm) && Legal(m, op)
  {
    match op
    case Paging(call) => m.(w := Spaces.Step(m.w, hhdm, kpm, call))
    case Heaping(request, mem) =>
      var s := Heaps.Step(HeapOf(m), request);
      Machine(m.w.(mem := mem, free := s.heap.free), s.heap.blocks, s.live)
  }

  // ------------------------------------------------------------------------------------------
  // What a paging call takes

  /** The stack is a prefix of what it was, and every new table or structure was free. */
  ghost predicate Taken(w: World, w': World) {
    && w'.free <= w.free
    && (forall f <- w'.level | f !in w.level :: f in w.free)
    && (forall f <- w'.spaces | f !in w.spaces :: f in w.free)
  }

  lemma {:induction false} WalkTakes(w: World, t: U64, k: int, p: nat)
    requires Forest(w) && t in w.level && w.level[t] == k && k >= 1
    requires Missing(w.mem, t, k, p) <= |w.free|
    ensures Taken(w, Walk(w, t, k, p).0)
    decreases k
  {
    if k > 1 {
      var (w1, c) := NextLevel(w, t, Slot(p, k));
      NextLevelGood(w, t, Slot(p, k));
      StepMissing(w, t, k, p, w1, c);
      assert Taken(w, w1);
      WalkTakes(w1, c, k - 1, p);
    }
  }

  lemma {:induction false} PagingTakes(w: World, hhdm: U64, kpm: U64, call: Spaces.Op)
    requires Spaces.Kernel(w, hhdm, kpm) && Spaces.Legal(w, call)
    ensures Taken(w, Spaces.Step(w, hhdm, kpm, call))
  {
    if call.New? {
      Spaces.TopTwo(w);
      Spaces.NewPagemapSucceeds(w, hhdm, w.spaces[kpm]);
    } else {
      WalkTakes(w, w.spaces[call.pm], 4, Spaces.Page(call));
      WalkGood(w, w.spaces[call.pm], 4, Spaces.Page(call));
    }
  }

  lemma {:induction false} FreeIsApart(h: Heap, f: U64)
    requires Layout(h) && f in h.free
    ensures !InHeap(h.blocks, f)
  {
    var i :| 0 <= i < |h.free| && h.free[i] == f;
    assert forall j | 0 <= j < |h.blocks| :: h.free[i] / 4096 != PageOf(h.blocks[j]);
  }

  lemma {:induction false} TakenApart(m: Machine, w': World)
    requires Heaps.Good(HeapOf(m)) && Apart(m.w, m.blocks) && Taken(m.w, w')
    ensures Heaps.Good(HeapOf(m.(w := w'))) && Apart(w', m.blocks)
  {
    forall f | f in w'.level || f in w'.spaces ensures !InHeap(m.blocks, f) {
      if f in m.w.level || f in m.w.spaces {
        assert !InHeap(m.blocks, f);
      } else {
        FreeIsApart(HeapOf(m).heap, f);
      }
    }
  }

  // ------------------------------------------------------------------------------------------
  // What a heap call takes

  /** The stack loses at most its top frame, and the blocks lie where blocks were or in that frame. */
  ghost predicate Grown(h: Heap, h': Heap) {
    && (h'.free == h.free || h'.free == PopFree(h.free))
    && forall f: U64 {:trigger InHeap(h'.blocks, f)} | InHeap(h'.blocks, f) ::
         InHeap(h.blocks, f) || (h.free != [] && f / 4096 == TopFree(h.free) / 4096)
  }

  lemma {:induction false} CoalesceAddresses(blocks: seq<Block>, k: nat, f: U64)
    requires k < |blocks| && InHeap(Coalesce(blocks, k), f)
    ensures InHeap(blocks, f)
    decreases |blocks|
  {
    if k + 1 < |blocks| && blocks[k + 1].isFree {
      CoalesceAddresses(Merge(blocks, k), k, f);
      var i :| 0 <= i < |Merge(blocks, k)| && PageOf(Merge(blocks, k)[i]) == f / 4096;
      assert PageOf(blocks[if i <= k then i else i + 1]) == f / 4096;
    }
  }

  lemma {:induction false} FreeGrows(h: Heap, k: nat)
    requires k < |h.blocks|
    ensures Grown(h, DoFree(h, k))
  {
    var freed := h.blocks[k := Block(h.blocks[k].addr, h.blocks[k].size, true)];
    forall f: U64 | InHeap(Coalesce(freed, k), f) ensures InHeap(h.blocks, f) {
      CoalesceAddresses(freed, k, f);
      var i :| 0 <= i < |freed| && PageOf(freed[i]) == f / 4096;
      assert PageOf(h.blocks[i]) == f / 4096;
    }
  }

  lemma {:induction false} TakeGrows(h: Heap, i: nat, need: U64, f: U64)
    requires Layout(h) && i < |h.blocks| && 24 < need <= 4096 && InHeap(Take(h.blocks, i, need), f)
    ensures InHeap(h.blocks, f)
  {
    var bs, after := h.blocks, Take(h.blocks, i, need);
    var j :| 0 <= j < |after| && PageOf(after[j]) == f / 4096;
    if |after| == |bs| {
      assert PageOf(bs[j]) == PageOf(after[j]);
    } else {
      SplitPages(bs[i], need);
      assert PageOf(bs[if j <= i then j else j - 1]) == PageOf(after[j]);
    }
  }

  lemma {:induction false} AllocGrows(h: Heap, size: U64)
    requires Layout(h) && 1 <= size <= 4072
    ensures Grown(h, DoAlloc(h, size).0)
  {
    var i, h' := FirstFit(h.blocks, size + 24), DoAlloc(h, size).0;
    forall f: U64 | InHeap(h'.blocks, f)
      ensures InHeap(h.blocks, f) || (h.free != [] && f / 4096 == TopFree(h.free) / 4096)
    {
      if i < |h.blocks| {
        TakeGrows(h, i, size + 24, f);
      } else if TopFree(h.free) != 0 {
        var j :| 0 <= j < |h'.blocks| && PageOf(h'.blocks[j]) == f / 4096;
        assert j < |h.blocks| ==> PageOf(h.blocks[j]) == f / 4096;
      }
    }
  }

  lemma {:induction false} HeapingGrows(s: Heaps.State, request: Heaps.Op)
    requires Heaps.Good(s) && Heaps.Legal(s, request)
    ensures Grown(s.heap, Heaps.Step(s, request).heap)
  {
    match request
    case Alloc(size) => AllocGrows(s.heap, size);
    case Free(ptr) => FreeGrows(s.heap, Heaps.Owner(s.heap.blocks, ptr));
  }

  lemma {:induction false} FramesDiffer(f: U64, g: U64)
    requires f % 4096 == 0 && g % 4096 == 0 && f != g
    ensures f / 4096 != g / 4096
  {
    assert f == 4096 * (f / 4096) && g == 4096 * (g / 4096);
  }

  /** The frames of tables and structures stay out of the grown heap. */
  lemma {:induction false} GrownApart(w: World, h: Heap, h': Heap)
    requires Forest(w) && h.free == w.free && Apart(w, h.blocks) && Grown(h, h')
    ensures Apart(w, h'.blocks)
  {
    forall f | f in w.level || f in w.spaces ensures !InHeap(h'.blocks, f) {
      assert !InHeap(h.blocks, f);
      if h.free != [] {
        assert h.free[|h.free| - 1] in w.free;
        FramesDiffer(f, TopFree(h.free));
      }
    }
  }

  // ------------------------------------------------------------------------------------------
  // Page tables do not notice the heap

  /** Everything that is not heap memory is as it was, and the stack a prefix of what it was. */
  ghost predicate Beside(w: World, w': World, blocks: seq<Block>) {
    w'.level == w.level && w'.spaces == w.spaces && w'.free <= w.free && OnlyHeap(w.mem, w'.mem, blocks)
  }

  lemma {:induction false} BesideForest(w: World, w': World, blocks: seq<Block>)
    requires Forest(w) && Apart(w, blocks) && Beside(w, w', blocks)
    ensures Forest(w') && Extends(w, w')
    ensures forall f | f in w.level || f in w.spaces :: f in w'.mem && w'.mem[f] == w.mem[f]
  {
    forall f | f in w.level || f in w.spaces ensures f in w'.mem && w'.mem[f] == w.mem[f] {
      assert !InHeap(blocks, f);
    }
    forall t, e, c ensures Link(w', t, e, c) <==> Link(w, t, e, c) {
    }
    assert LinksDown(w');
    assert OneParent(w');
  }

  lemma {:induction false} BesideApart(w: World, w': World, blocks: seq<Block>)
    requires Apart(w, blocks) && Beside(w, w', blocks)
    ensures Apart(w', blocks)
  {
    forall f | f in w'.level || f in w'.spaces ensures !InHeap(blocks, f) {
      assert !InHeap(blocks, f);
    }
  }

  lemma {:induction false} BesideLooks(w: World, w': World, blocks: seq<Block>, r: U64, q: nat)
    requires Forest(w) && Apart(w, blocks) && Beside(w, w', blocks) && r in w.level
    ensures Look(w'.mem, r, w.level[r], q) == Look(w.mem, r, w.level[r], q)
  {
    BesideForest(w, w', blocks);
    Spaces.LookSameBelow(w.mem, w'.mem, w, r, q);
  }

  lemma {:induction false} HeapingBeside(m: Machine, hhdm: U64, kpm: U64, op: Op)
    requires Sound(m, hhdm, kpm) && op.Heaping? && Legal(m, op)
    ensures var m' := Step(m, hhdm, kpm, op);
      Apart(m.w, m'.blocks) && Beside(m.w, m'.w, m'.blocks)
  {
    HeapingGrows(HeapOf(m), op.request);
    GrownApart(m.w, HeapOf(m).heap, Heaps.Step(HeapOf(m), op.request).heap);
  }

  // ------------------------------------------------------------------------------------------
  // Every mixed run

  lemma {:induction false} StepKeeps(m: Machine, hhdm: U64, kpm: U64, op: Op)
    requires Sound(m, hhdm, kpm) && Legal(m, op)
    ensures Sound(Step(m, hhdm, kpm, op), hhdm, kpm) && Extends(m.w, Step(m, hhdm, kpm, op).w)
  {
    var m' := Step(m, hhdm, kpm, op);
    if op.Paging? {
      Spaces.StepKeeps(m.w, hhdm, kpm, op.call);
      PagingTakes(m.w, hhdm, kpm, op.call);
      TakenApart(m, m'.w);
    } else {
      HeapingBeside(m, hhdm, kpm, op);
      BesideForest(m.w, m'.w, m'.blocks);
      BesideApart(m.w, m'.w, m'.blocks);
      Heaps.StepKeeps(HeapOf(m), op.request);
    }
  }

  /** A run of calls, each legal when it is made, from m to m'. */
  ghost predicate Run(m: Machine, hhdm: U64, kpm: U64, ops: seq<Op>, m': Machine)
    requires Sound(m, hhdm, kpm)
    decreases |ops|
  {
    if ops == [] then m' == m
    else
      && Legal(m, ops[0])
      && (StepKeeps(m, hhdm, kpm, ops[0]); Run(Step(m, hhdm, kpm, ops[0]), hhdm, kpm, ops[1..], m'))
  }

  /**
    Over every mixed run the page tables stay a forest, the heap stays well laid out, and no frame is
    used for both.
    */
  lemma {:induction false} RunKeeps(m: Machine, hhdm: U64, kpm: U64, ops: seq<Op>, m': Machine)
    requires Sound(m, hhdm, kpm) && Run(m, hhdm, kpm, ops, m')
    ensures Sound(m', hhdm, kpm) && Extends(m.w, m'.w)
    decreases |ops|
  {
    if ops != [] {
      StepKeeps(m, hhdm, kpm, ops[0]);
      var m1 := Step(m, hhdm, kpm, ops[0]);
      RunKeeps(m1, hhdm, kpm, ops[1..], m');
      ExtendsTransitive(m.w, m1.w, m'.w);
    }
  }

  /** What a caller of `pmm_alloc` writes into its memory lands in no table and no structure. */
  lemma {:induction false} PayloadIsNoTable(
    m: Machine, hhdm: U64, kpm: U64, ops: seq<Op>, m': Machine, ptr: int, at: int, f: U64)
    requires Sound(m, hhdm, kpm) && Run(m, hhdm, kpm, ops, m')
    requires ptr in m'.live && ptr <= at < ptr + m'.live[ptr] && (f in m'.w.level || f in m'.w.spaces)
    ensures at / 4096 != f / 4096
  {
    RunKeeps(m, hhdm, kpm, ops, m');
    var i := Heaps.HolderOf(HeapOf(m'), ptr);
    assert InPage(m'.blocks[i]);
    assert !InHeap(m'.blocks, f);
    InOnePage(m'.blocks[i].addr, m'.blocks[i].size, at);
  }

  lemma {:induction false} InOnePage(addr: int, size: int, at: int)
    requires addr % 4096 + size <= 4096 && addr <= at < addr + size
    ensures at / 4096 == addr / 4096
  {
  }

  /** The paging calls among the calls of a mixed run. */
  ghost function PagingCalls(ops: seq<Op>): seq<Spaces.Op> {
    if ops == [] then []
    else (if ops[0].Paging? then [ops[0].call] else []) + PagingCalls(ops[1..])
  }

  /**
    The lower half of an address space is a flat map that only the paging calls through that space
    write, whatever the heap and its callers do in between.
    */
  lemma {:induction false} LowerHalfIsPrivate(
    m: Machine, hhdm: U64, kpm: U64, ops: seq<Op>, m': Machine, pm: U64, q: nat)
    requires Sound(m, hhdm, kpm) && Run(m, hhdm, kpm, ops, m')
    requires pm in m.w.spaces && Slot(q, 4) < 256
    ensures Look(m'.w.mem, m.w.spaces[pm], 4, q)
      == Spaces.LastWrite(PagingCalls(ops), pm, q, Look(m.w.mem, m.w.spaces[pm], 4, q))
    decreases |ops|
  {
    if ops != [] {
      StepKeeps(m, hhdm, kpm, ops[0]);
      var m1 := Step(m, hhdm, kpm, ops[0]);
      LowerHalfIsPrivate(m1, hhdm, kpm, ops[1..], m', pm, q);
      if ops[0].Paging? {
        Spaces.PrivateStep(m.w, hhdm, kpm, ops[0].call, pm, q);
        assert PagingCalls(ops)[0] == ops[0].call && PagingCalls(ops)[1..] == PagingCalls(ops[1..]);
      } else {
        HeapingBeside(m, hhdm, kpm, ops[0]);
        BesideLooks(m.w, m1.w, m1.blocks, m.w.spaces[pm], q);
        assert PagingCalls(ops) == PagingCalls(ops[1..]);
      }
    }
  }

  /** Mixed runs can start as soon as the kernel has its page tables: the heap is empty then. */
  lemma {:induction false} EmptyHeap(w: World, hhdm: U64, kpm: U64)
    requires Spaces.Kernel(w, hhdm, kpm)
    ensures Sound(Machine(w, [], map[]), hhdm, kpm)
  {
    var m := Machine(w, [], map[]);
    forall i | 0 <= i < |w.free| ensures w.free[i] % 4096 == 0 {
      assert w.free[i] in w.free;
    }
  }
}
