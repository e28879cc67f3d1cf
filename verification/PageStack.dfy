/**
  The page-frame stack of kernel/src/mm/pmm.c: `pmm_init`, `pmm_allocpage`, `pmm_freepage`.
  */
module PageStack {
  import opened Words

  const STACK_SIZE: int := 32768

  // ------------------------------------------------------------------------------------------
  // Specification

  ghost function TopFree(free: seq<U64>): U64 {
    if free == [] then 0 else free[|free| - 1]
  }

  ghost function PopFree(free: seq<U64>): seq<U64> {
    if free == [] then [] else free[..|free| - 1]
  }

  /** A full stack drops the frame. */
  ghost function PushFree(free: seq<U64>, block: U64): seq<U64> {
    if |free| >= STACK_SIZE then free else free + [block]
  }

  datatype EntryKind = Usable | Reserved | Other

  datatype MemoryEntry = MemoryEntry(base: U64, length: U64, kind: EntryKind)

  ghost function EntryPages(e: MemoryEntry): seq<U64> {
    if e.kind.Usable? then seq(e.length / 4096, i requires i >= 0 => Wrap(e.base + 4096 * i)) else []
  }

  /** The usable frames of a memory map, in order. */
  ghost function UsablePages(entries: seq<MemoryEntry>): seq<U64> {
    if entries == [] then []
    else UsablePages(entries[..|entries| - 1]) + EntryPages(entries[|entries| - 1])
  }

  /** The bytes of whole blocks in entries that are not reserved. */
  ghost function TotalBytes(entries: seq<MemoryEntry>): nat {
    if entries == [] then 0
    else
      var e := entries[|entries| - 1];
      TotalBytes(entries[..|entries| - 1]) + (if e.kind.Reserved? then 0 else e.length / 4096 * 4096)
  }

  ghost function FirstFew(frames: seq<U64>): (r: seq<U64>)
    ensures |r| <= STACK_SIZE
  {
    if |frames| <= STACK_SIZE then frames else frames[..STACK_SIZE]
  }

  lemma {:induction false} FirstFewIsPrefix(frames: seq<U64>)
    ensures FirstFew(frames) <= frames && |FirstFew(frames)| == if |frames| < 32768 then |frames| else 32768
  {
  }

  lemma {:induction false} FirstFewPush(frames: seq<U64>, f: U64)
    ensures FirstFew(frames + [f]) == PushFree(FirstFew(frames), f)
  {
    if |frames| > STACK_SIZE {
      assert (frames + [f])[..STACK_SIZE] == frames[..STACK_SIZE];
    } else if |frames| == STACK_SIZE {
      assert (frames + [f])[..STACK_SIZE] == frames;
    }
  }

  // ------------------------------------------------------------------------------------------
  // The memory map gives each frame once

  ghost predicate WellFormed(e: MemoryEntry) {
    e.base % 4096 == 0 && e.base + e.length <= TWO64
  }

  ghost predicate Disjoint(e: MemoryEntry, f: MemoryEntry) {
    e.base + e.length <= f.base || f.base + f.length <= e.base
  }

  ghost predicate WellFormedMap(entries: seq<MemoryEntry>) {
    && (forall e <- entries :: WellFormed(e))
    && (forall i, j | 0 <= i < j < |entries| :: Disjoint(entries[i], entries[j]))
  }

  lemma {:induction false} EntryPageAt(e: MemoryEntry, i: nat)
    requires WellFormed(e) && i < |EntryPages(e)|
    ensures EntryPages(e)[i] == e.base + 4096 * i && EntryPages(e)[i] % 4096 == 0
    ensures e.base <= EntryPages(e)[i] && EntryPages(e)[i] + 4096 <= e.base + e.length
  {
    assert 4096 * (i + 1) <= 4096 * (e.length / 4096) <= e.length;
  }

  /** Every frame lies wholly in a usable entry. */
  lemma {:induction false} UsablePageInside(entries: seq<MemoryEntry>, f: U64) returns (k: nat)
    requires (forall e <- entries :: WellFormed(e)) && f in UsablePages(entries)
    ensures k < |entries| && entries[k].kind.Usable?
    ensures entries[k].base <= f && f + 4096 <= entries[k].base + entries[k].length && f % 4096 == 0
  {
    var n := |entries| - 1;
    if f in EntryPages(entries[n]) {
      var i :| 0 <= i < |EntryPages(entries[n])| && EntryPages(entries[n])[i] == f;
      EntryPageAt(entries[n], i);
      k := n;
    } else {
      k := UsablePageInside(entries[..n], f);
    }
  }

  /** No frame is listed twice. */
  lemma {:induction false} UsablePagesDistinct(entries: seq<MemoryEntry>, i: nat, j: nat)
    requires WellFormedMap(entries) && i < j < |UsablePages(entries)|
    ensures UsablePages(entries)[i] != UsablePages(entries)[j]
    decreases |entries|
  {
    var n := |entries| - 1;
    var front, last := UsablePages(entries[..n]), EntryPages(entries[n]);
    if j < |front| {
      UsablePagesDistinct(entries[..n], i, j);
    } else {
      EntryPageAt(entries[n], j - |front|);
      if i < |front| {
        var k := UsablePageInside(entries[..n], front[i]);
        assert Disjoint(entries[k], entries[n]);
      } else {
        EntryPageAt(entries[n], i - |front|);
      }
    }
  }

  /** Block i of an entry: whole, usable, and at its address. */
  ghost predicate UsableBlock(entries: seq<MemoryEntry>, k: nat, i: nat) {
    && k < |entries| && entries[k].kind.Usable? && entries[k].base + entries[k].length <= TWO64
    && 4096 * (i + 1) <= entries[k].length
  }

  lemma {:induction false} OneMoreEntry(entries: seq<MemoryEntry>, k: nat)
    requires k < |entries|
    ensures UsablePages(entries[..k + 1]) ==
      if entries[k].kind.Usable? then UsablePages(entries[..k]) + EntryPages(entries[k]) else UsablePages(entries[..k])
    ensures TotalBytes(entries[..k + 1]) ==
      TotalBytes(entries[..k]) + if entries[k].kind.Reserved? then 0 else entries[k].length / 4096 * 4096
  {
    assert entries[..k + 1][..k] == entries[..k];
  }

  lemma {:induction false} PrefixPages(entries: seq<MemoryEntry>, k: nat)
    requires k <= |entries|
    ensures UsablePages(entries[..k]) <= UsablePages(entries)
    decreases |entries| - k
  {
    if k == |entries| {
      assert entries[..k] == entries;
    } else {
      assert entries[..k + 1][..k] == entries[..k];
      PrefixPages(entries, k + 1);
    }
  }

  lemma {:induction false} BlockPlace(entries: seq<MemoryEntry>, k: nat, i: nat) returns (a: nat)
    requires UsableBlock(entries, k, i)
    ensures a == |UsablePages(entries[..k])| + i < |UsablePages(entries[..k + 1])| <= |UsablePages(entries)|
    ensures UsablePages(entries)[a] == entries[k].base + 4096 * i
  {
    a := |UsablePages(entries[..k])| + i;
    var e := entries[k];
    PrefixPages(entries, k + 1);
    assert entries[..k + 1][..k] == entries[..k];
    assert i < e.length / 4096;
    assert EntryPages(e)[i] == e.base + 4096 * i;
    assert UsablePages(entries[..k + 1])[a] == EntryPages(e)[i];
  }

  /** Every whole block of every usable entry is listed, and in front of all later ones. */
  lemma {:induction false} UsablePagesInOrder(entries: seq<MemoryEntry>, k: nat, i: nat, l: nat, j: nat)
    returns (a: nat, b: nat)
    requires UsableBlock(entries, k, i) && UsableBlock(entries, l, j) && (k < l || (k == l && i <= j))
    ensures a < |UsablePages(entries)| && UsablePages(entries)[a] == entries[k].base + 4096 * i
    ensures b < |UsablePages(entries)| && UsablePages(entries)[b] == entries[l].base + 4096 * j
    ensures a <= b && (a == b ==> k == l && i == j)
  {
    a := BlockPlace(entries, k, i);
    b := BlockPlace(entries, l, j);
    if k < l { PagesGrow(entries, k + 1, l); }
  }

  lemma {:induction false} PagesGrow(entries: seq<MemoryEntry>, k: nat, l: nat)
    requires k <= l <= |entries|
    ensures |UsablePages(entries[..k])| <= |UsablePages(entries[..l])|
  {
    PrefixPages(entries[..l], k);
    assert entries[..l][..k] == entries[..k];
  }

  /** The total counts as many blocks as there would be frames if all that is not reserved were usable. */
  lemma {:induction false} TotalIsFrames(entries: seq<MemoryEntry>, open: seq<MemoryEntry>)
    requires |open| == |entries|
    requires forall k | 0 <= k < |entries| ::
      open[k] == entries[k].(kind := if entries[k].kind.Reserved? then Reserved else Usable)
    ensures TotalBytes(entries) == 4096 * |UsablePages(open)|
    decreases |entries|
  {
    if entries != [] {
      TotalIsFrames(entries[..|entries| - 1], open[..|open| - 1]);
    }
  }

  // ------------------------------------------------------------------------------------------
  // Runs of allocations and frees

  datatype PageOp = Alloc | Free(block: U64)

  datatype Pages = Pages(free: seq<U64>, live: set<U64>)

  ghost predicate LegalOp(s: Pages, op: PageOp) {
    op.Free? ==> op.block in s.live
  }

  ghost function Do(s: Pages, op: PageOp): Pages {
    match op
    case Alloc =>
      if s.free == [] then s else Pages(PopFree(s.free), s.live + {TopFree(s.free)})
    case Free(block) => Pages(PushFree(s.free, block), s.live - {block})
  }

  ghost predicate DoAll(s: Pages, ops: seq<PageOp>, s': Pages)
    decreases |ops|
  {
    if ops == [] then s' == s else LegalOp(s, ops[0]) && DoAll(Do(s, ops[0]), ops[1..], s')
  }

  /** No frame is both free and live, none is on the stack twice, and none was lost to a full stack. */
  ghost predicate Partition(s: Pages, all: set<U64>) {
    && (forall i, j | 0 <= i < j < |s.free| :: s.free[i] != s.free[j])
    && (forall f <- s.free :: f !in s.live)
    && (forall f :: f in all <==> f in s.free || f in s.live)
    && |s.free| + |s.live| <= STACK_SIZE
  }

  lemma {:induction false} DoKeeps(s: Pages, op: PageOp, all: set<U64>)
    requires Partition(s, all) && LegalOp(s, op)
    ensures Partition(Do(s, op), all) && |Do(s, op).free| + |Do(s, op).live| == |s.free| + |s.live|
  {
    var s' := Do(s, op);
    if op.Alloc? && s.free != [] {
      var n := |s.free| - 1;
      assert s.free == s.free[..n] + [s.free[n]];
      assert s.free[n] in s.free && s.free[n] !in s'.free;
    }
    if op.Free? {
      assert s'.free == s.free + [op.block];
      assert |s'.live| == |s.live| - 1;
    }
  }

  /**
    Over every run in which only live frames are freed, free and live frames partition the frames
    the run started with, so nothing is handed out twice and nothing leaks.
    */
  lemma {:induction false} RunPartitions(s: Pages, ops: seq<PageOp>, s': Pages, all: set<U64>)
    requires Partition(s, all) && DoAll(s, ops, s')
    ensures Partition(s', all) && |s'.free| + |s'.live| == |s.free| + |s.live|
    decreases |ops|
  {
    if ops != [] {
      DoKeeps(s, ops[0], all);
      RunPartitions(Do(s, ops[0]), ops[1..], s', all);
    }
  }

  /** `pmm_init` over a well-formed map starts such runs: no frame repeats. */
  lemma {:induction false} InitialPartition(entries: seq<MemoryEntry>)
    requires WellFormedMap(entries)
    ensures var free := FirstFew(UsablePages(entries));
      Partition(Pages(free, {}), set f | f in free)
  {
    var free := FirstFew(UsablePages(entries));
    forall i, j | 0 <= i < j < |free| ensures free[i] != free[j] {
      UsablePagesDistinct(entries, i, j);
    }
  }

  /** Freeing a frame keeps the partition exactly when it is live, or when a full stack drops it. */
  lemma {:induction false} FreeKeepsPartitionIff(s: Pages, block: U64, all: set<U64>)
    requires Partition(s, all)
    ensures Partition(Do(s, Free(block)), all) <==> block in s.live || |s.free| == STACK_SIZE
  {
    var s' := Do(s, Free(block));
    if block in s.live {
      DoKeeps(s, Free(block), all);
    } else if |s.free| < STACK_SIZE {
      var n := |s.free|;
      assert s'.free[n] == block && block in s'.free;
      if block in s.free {
        var i :| 0 <= i < n && s.free[i] == block;
        assert s'.free[i] == s'.free[n];
      }
    } else {
      assert s'.live == s.live;
    }
  }

  /** A double free: the frame is then on the stack twice. */
  lemma {:induction false} DoubleFreeDuplicates(s: Pages, block: U64, all: set<U64>)
    requires Partition(s, all) && block in s.live && |s.free| + 1 < STACK_SIZE
    ensures var s2 := Do(Do(s, Free(block)), Free(block));
      !Partition(s2, all) && s2.free[|s2.free| - 1] == s2.free[|s2.free| - 2] == block
  {
    DoKeeps(s, Free(block), all);
    FreeKeepsPartitionIff(Do(s, Free(block)), block, all);
  }

  // ------------------------------------------------------------------------------------------
  // The allocator

  class Allocator {
    const stack: array<U64>
    var top: nat
    var initialized: bool
    var usedMem: U64
    var freeMem: U64
    var totalMem: U64

    ghost predicate Valid()
      reads this
    {
      stack.Length == STACK_SIZE && top <= STACK_SIZE
    }

    ghost function Contents(): seq<U64>
      reads this, stack
      requires Valid()
    {
      stack[..top]
    }

    /** The statistics agree with the stack; "used" is counted down from zero by `pmm_init`. */
    ghost predicate Counted()
      reads this
    {
      freeMem == 4096 * top && usedMem == if top == 0 then 0 else TWO64 - 4096 * top
    }

    constructor ()
      ensures Valid() && !initialized && top == 0 && Counted() && totalMem == 0 && fresh(stack)
    {
      stack := new U64[STACK_SIZE];
      top, initialized, usedMem, freeMem, totalMem := 0, false, 0, 0, 0;
    }

    method FreePage(block: U64)
      requires Valid()
      modifies this, stack
      ensures Valid() && initialized == old(initialized) && totalMem == old(totalMem)
      ensures Contents() == if initialized then PushFree(old(Contents()), block) else old(Contents())
      ensures initialized && |old(Contents())| < 32768 ==> Contents() == old(Contents()) + [block]
      ensures !initialized || |old(Contents())| == 32768 ==> Contents() == old(Contents())
      ensures old(Counted()) ==> Counted()
    {
      if !initialized {
        return;
      }
      if top == STACK_SIZE {
        return;
      }
      freeMem := Add64(freeMem, 4096);
      usedMem := Sub64(usedMem, 4096);
      stack[top] := block;
      top := top + 1;
    }

    method AllocPage() returns (block: U64)
      requires Valid()
      modifies this
      ensures Valid() && initialized == old(initialized) && totalMem == old(totalMem)
      ensures initialized ==> block == TopFree(old(Contents())) && Contents() == PopFree(old(Contents()))
      ensures initialized && old(Contents()) != [] ==> old(Contents()) == Contents() + [block]
      ensures !initialized || old(Contents()) == [] ==> block == 0 && Contents() == old(Contents())
      ensures old(Counted()) ==> Counted()
    {
      if !initialized {
        return 0;
      }
      if top == 0 {
        return 0;
      }
      freeMem := Sub64(freeMem, 4096);
      usedMem := Add64(usedMem, 4096);
      top := top - 1;
      block := stack[top];
    }

    /** `pmm_init`: the stack holds the first frames of the map that fit, in order. */
    method Init(entries: seq<MemoryEntry>)
      requires Valid() && top == 0 && Counted()
      modifies this, stack
      ensures Valid() && initialized && Counted()
      ensures Contents() == FirstFew(UsablePages(entries)) <= UsablePages(entries)
      ensures |Contents()| == if |UsablePages(entries)| < 32768 then |UsablePages(entries)| else 32768
      ensures totalMem == Wrap(old(totalMem) + TotalBytes(entries))
    {
      top := 0;
      initialized := true;
      AddEntries(entries);
      FirstFewIsPrefix(UsablePages(entries));
    }

    /** The loop of `pmm_init`. */
    method AddEntries(entries: seq<MemoryEntry>)
      requires Valid() && initialized && top == 0 && Counted()
      modifies this, stack
      ensures Valid() && initialized && Counted()
      ensures Contents() == FirstFew(UsablePages(entries)) && totalMem == Wrap(old(totalMem) + TotalBytes(entries))
    {
      var k := 0;
      while k < |entries|
        invariant k <= |entries| && Valid() && initialized && Counted()
        invariant Contents() == FirstFew(UsablePages(entries[..k]))
        invariant totalMem == Wrap(old(totalMem) + TotalBytes(entries[..k]))
      {
        AddEntry(entries, k, old(totalMem));
        k := k + 1;
      }
      assert entries[..k] == entries;
    }

    /** Its body. */
    method AddEntry(entries: seq<MemoryEntry>, k: nat, ghost before: nat)
      requires Valid() && initialized && Counted() && k < |entries|
      requires Contents() == FirstFew(UsablePages(entries[..k]))
      requires totalMem == Wrap(before + TotalBytes(entries[..k]))
      modifies this, stack
      ensures Valid() && initialized && Counted()
      ensures Contents() == FirstFew(UsablePages(entries[..k + 1]))
      ensures totalMem == Wrap(before + TotalBytes(entries[..k + 1]))
    {
      var e := entries[k];
      OneMoreEntry(entries, k);
      if !e.kind.Reserved? {
        CountBlocks(e.length, before + TotalBytes(entries[..k]));
      }
      if e.kind.Usable? {
        PushBlocks(e, UsablePages(entries[..k]));
      }
    }

    /** The loop that counts the whole blocks of an entry. */
    method CountBlocks(size: U64, ghost before: nat)
      requires totalMem == Wrap(before)
      modifies this`totalMem
      ensures totalMem == Wrap(before + size / 4096 * 4096)
    {
      var length := size;
      ghost var k := 0;
      while length >= 4096
        invariant length == size - 4096 * k
        invariant totalMem == Wrap(before + 4096 * k)
        decreases length
      {
        WrapAdd(before + 4096 * k, 4096);
        totalMem := Add64(totalMem, 4096);
        length := length - 4096;
        k := k + 1;
      }
      assert k == size / 4096;
    }

    /** The loop that frees the whole blocks of a usable entry. */
    method PushBlocks(e: MemoryEntry, ghost before: seq<U64>)
      requires Valid() && initialized && Counted() && e.kind.Usable?
      requires Contents() == FirstFew(before)
      modifies this, stack
      ensures Valid() && initialized && Counted() && totalMem == old(totalMem)
      ensures Contents() == FirstFew(before + EntryPages(e))
    {
      var addr, length := e.base, e.length;
      ghost var pages := EntryPages(e);
      ghost var i := 0;
      assert before + pages[..0] == before;
      while length >= 4096
        invariant Valid() && initialized && Counted() && totalMem == old(totalMem)
        invariant 0 <= i <= |pages| && length == e.length - 4096 * i
        invariant addr == Wrap(e.base + 4096 * i)
        invariant Contents() == FirstFew(before + pages[..i])
        decreases length
      {
        assert pages[i] == addr;
        FirstFewPush(before + pages[..i], addr);
        assert before + pages[..i + 1] == before + pages[..i] + [addr];
        FreePage(addr);
        WrapAdd(e.base + 4096 * i, 4096);
        addr := Add64(addr, 4096);
        length := length - 4096;
        i := i + 1;
      }
      assert pages[..i] == pages;
    }
  }
}
