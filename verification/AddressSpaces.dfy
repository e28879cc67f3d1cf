/**
  Address spaces over every run of `vmm_map`, `vmm_unmap` and `vmm_new_pagemap`
  (kernel/src/mm/vmm.c).
  */
module AddressSpaces {
  import opened Words
  import opened PageStack
  import opened PageTable

  // ------------------------------------------------------------------------------------------
  // The start

  /** What `pmm_init` leaves is a forest without tables, if the memory map speaks of real memory. */
  lemma {:induction false} FirstForest(mem: Memory, entries: seq<MemoryEntry>)
    requires WellFormedMap(entries)
    requires forall f <- UsablePages(entries) :: f in mem && f < 0x10_0000_0000_0000
    ensures Forest(World(mem, FirstFew(UsablePages(entries)), map[], map[]))
  {
    var free := FirstFew(UsablePages(entries));
    InitialPartition(entries);
    forall f | f in free ensures Frame(f) && f in mem {
      assert f in UsablePages(entries);
      var k := UsablePageInside(entries, f);
    }
  }

  // ------------------------------------------------------------------------------------------
  // Which other spaces see an update

  /** A step of a walk writes to no table but its own. */
  lemma {:induction false} StepLeavesOthers(w: World, t: U64, e: nat, u: U64)
    requires Forest(w) && t in w.level && w.level[t] >= 2 && e < 512 && u in w.level && u != t
    requires Present(Word(w.mem, t, e)) || w.free != []
    ensures u in NextLevel(w, t, e).0.mem && NextLevel(w, t, e).0.mem[u] == w.mem[u]
  {
    assert TopFree(w.free) in w.free || w.free == [];
  }

  /** The walk writes to no top-level table but its own. */
  lemma {:induction false} WalkLeavesOtherTops(w: World, t: U64, k: int, p: nat, u: U64)
    requires Forest(w) && t in w.level && w.level[t] == k && u in w.level && w.level[u] == 4 && u != t
    requires Missing(w.mem, t, k, p) <= |w.free|
    ensures u in Walk(w, t, k, p).0.mem && Walk(w, t, k, p).0.mem[u] == w.mem[u]
    decreases k
  {
    if k > 1 {
      var (w1, c) := NextLevel(w, t, Slot(p, k));
      StepLeavesOthers(w, t, Slot(p, k), u);
      NextLevelGood(w, t, Slot(p, k));
      StepMissing(w, t, k, p, w1, c);
      WalkLeavesOtherTops(w1, c, k - 1, p, u);
    }
  }

  /** Both spaces go through the same table at top-level slot e. */
  ghost predicate SameTable(w: World, r: U64, r': U64, e: nat) {
    && Present(Word(w.mem, r, e)) && Present(Word(w.mem, r', e))
    && PteAddr(Word(w.mem, r, e)) == PteAddr(Word(w.mem, r', e))
  }

  /** An absent top-level entry gets a table that was free. */
  lemma {:induction false} FreshTop(w: World, r: U64, p: nat)
    requires Forest(w) && r in w.level && w.level[r] == 4 && Missing(w.mem, r, 4, p) <= |w.free|
    requires !Present(Word(w.mem, r, Slot(p, 4)))
    ensures PteAddr(Word(Walk(w, r, 4, p).0.mem, r, Slot(p, 4))) in w.free
  {
    var (w1, f) := NextLevel(w, r, Slot(p, 4));
    NextLevelForest(w, r, Slot(p, 4));
    NextLevelCounts(w, r, Slot(p, 4));
    ZeroMissing(w1.mem, f, 3, p);
    WalkGood(w1, f, 3, p);
    assert Link(w1, r, Slot(p, 4), f);
  }

  lemma {:induction false} SharesAfterWalk(w: World, r: U64, p: nat, r': U64)
    requires Forest(w) && r in w.level && w.level[r] == 4 && Missing(w.mem, r, 4, p) <= |w.free|
    requires r' in w.level && w.level[r'] == 4 && r' != r
    ensures Shares(Walk(w, r, 4, p).0, r, r', Slot(p, 4)) <==> SameTable(w, r, r', Slot(p, 4))
  {
    var e := Slot(p, 4);
    WalkLeavesOtherTops(w, r, 4, p, r');
    if Present(Word(w.mem, r, e)) {
      WalkGood(w, r, 4, p);
      assert Link(w, r, e, PteAddr(Word(w.mem, r, e)));
    } else {
      FreshTop(w, r, p);
      if Present(Word(w.mem, r', e)) {
        assert Link(w, r', e, PteAddr(Word(w.mem, r', e)));
      }
    }
  }

  /** An update is seen by another space exactly when both went through the same table before it. */
  lemma {:induction false} SharesAfter(w: World, r: U64, p: nat, value: U64, r': U64)
    requires Forest(w) && r in w.level && w.level[r] == 4 && Missing(w.mem, r, 4, p) <= |w.free|
    requires r' in w.level && w.level[r'] == 4 && r' != r
    ensures Shares(SetLeaf(w, r, p, value), r, r', Slot(p, 4)) <==> SameTable(w, r, r', Slot(p, 4))
  {
    WalkGood(w, r, 4, p);
    SharesAfterWalk(w, r, p, r');
  }

  // ------------------------------------------------------------------------------------------
  // Unmapping

  /** What another or the same space shows after mapping a page and unmapping it again. */
  lemma {:induction false} AfterUnmap(w: World, r: U64, p: nat, value: U64, r': U64, q: nat)
    requires Forest(w) && r in w.level && w.level[r] == 4 && Missing(w.mem, r, 4, p) <= |w.free|
    requires r' in w.level && w.level[r'] == 4
    ensures var w2 := SetLeaf(SetLeaf(w, r, p, value), r, p, 0);
      Look(w2.mem, r', 4, q) ==
        if SamePage(p, q) && (r' == r || SameTable(w, r, r', Slot(p, 4))) then 0 else Look(w.mem, r', 4, q)
  {
    var w1 := SetLeaf(w, r, p, value);
    SetLeafRefinesFlatUpdate(w, r, p, value);
    SetLeafLook(w, r, p, value, r', q);
    SetLeafLook(w1, r, p, 0, r', q);
    if r' != r {
      SharesAfter(w, r, p, value, r');
      SharesAfter(w1, r, p, 0, r');
    }
  }

  lemma {:induction false} SameTableLook(w: World, r: U64, r': U64, p: nat, q: nat)
    requires SamePage(p, q) && (r' == r || SameTable(w, r, r', Slot(p, 4)))
    ensures Look(w.mem, r', 4, q) == Look(w.mem, r, 4, p)
  {
    SameLook(w.mem, r', 4, p, q);
  }

  /**
    Unmapping takes no frame, and it undoes a mapping - every lookup of every address space is what it
    was - exactly when the page was not mapped before.
    */
  lemma {:induction false} UnmapUndoesMap(w: World, r: U64, p: nat, value: U64)
    requires Forest(w) && r in w.level && w.level[r] == 4 && Missing(w.mem, r, 4, p) <= |w.free|
    ensures var w1 := SetLeaf(w, r, p, value);
      var w2 := SetLeaf(w1, r, p, 0);
      && Missing(w1.mem, r, 4, p) == 0 && |w2.free| == |w1.free|
      && (Look(w.mem, r, 4, p) == 0 <==>
          forall r', q: nat | r' in w.level && w.level[r'] == 4 :: Look(w2.mem, r', 4, q) == Look(w.mem, r', 4, q))
  {
    var w1 := SetLeaf(w, r, p, value);
    var w2 := SetLeaf(w1, r, p, 0);
    SetLeafRefinesFlatUpdate(w, r, p, value);
    SetLeafRefinesFlatUpdate(w1, r, p, 0);
    AfterUnmap(w, r, p, value, r, p);
    if Look(w.mem, r, 4, p) == 0 {
      forall r', q: nat | r' in w.level && w.level[r'] == 4
        ensures Look(w2.mem, r', 4, q) == Look(w.mem, r', 4, q)
      {
        AfterUnmap(w, r, p, value, r', q);
        if SamePage(p, q) && (r' == r || SameTable(w, r, r', Slot(p, 4))) {
          SameTableLook(w, r, r', p, q);
        }
      }
    }
  }

  lemma {:induction false} SameLook(mem: Memory, t: U64, k: int, p: nat, q: nat)
    requires k <= 4 && SamePage(p, q)
    ensures Look(mem, t, k, p) == Look(mem, t, k, q)
    decreases k
  {
    if k > 1 {
      assert Slot(p, k) == Slot(q, k);
      SameLook(mem, PteAddr(Word(mem, t, Slot(p, k))), k - 1, p, q);
    } else {
      assert Slot(p, k) == Slot(p, 1);
    }
  }

  // ------------------------------------------------------------------------------------------
  // A new address space

  /** Table `to` with the kernel's upper half. */
  ghost function UpperHalf(to: Table, kernel: Table): (t: Table) {
    seq(512, i requires 0 <= i < 512 => if i < 256 then to[i] else kernel[i])
  }

  /**
    The allocations of `vmm_new_pagemap`, each with its failure branch. The third: the head of the
    region list; a failure gives the table and the structure back.
    */
  ghost function AttachRegions(w: World, hhdm: U64, pm: U64, top: U64): (World, bool) {
    var vma := TopFree(w.free);
    var mem := Store(w.mem, pm, 1, PhysicalToVirtual(vma, hhdm));
    if PhysicalToVirtual(vma, hhdm) == 0 then (w.(mem := mem, free := PopFree(w.free) + [top, pm]), false)
    else (w.(mem := mem[vma := RegionHead(PhysicalToVirtual(vma, hhdm))], free := PopFree(w.free)), true)
  }

  /** The second: the top-level table; a failure gives the structure back. */
  ghost function AttachTable(w: World, hhdm: U64, pm: U64): (World, bool) {
    var top := TopFree(w.free);
    var mem := Store(w.mem, pm, 0, PhysicalToVirtual(top, hhdm));
    if PhysicalToVirtual(top, hhdm) == 0 then (w.(mem := mem, free := PopFree(w.free) + [pm]), false)
    else AttachRegions(w.(mem := mem[top := ZeroTable()], free := PopFree(w.free)), hhdm, pm, top)
  }

  /** The first: the structure itself. The result is its virtual address, 0 for NULL. */
  ghost function NewStructures(w: World, hhdm: U64): (World, U64) {
    var pm := TopFree(w.free);
    var v := PhysicalToVirtual(pm, hhdm);
    if v == 0 then (w.(free := PopFree(w.free)), 0)
    else
      var (w1, ok) := AttachTable(w.(mem := w.mem[pm := ZeroTable()], free := PopFree(w.free)), hhdm, pm);
      (w1, if ok then v else 0)
  }

  /** A region list head: linked to itself in both directions, otherwise zero. */
  ghost function RegionHead(v: U64): Table {
    ZeroTable()[6 := v][7 := v]
  }

  /**
    `vmm_new_pagemap`. With an offset and less than three free frames it goes on with frame 0: the region
    head and, with less than two, the table are there. With none at all the structure is there too, and
    the region head has overwritten its table pointer with NULL; the last writes then reach frame 0 only
    where low memory is mapped at its own address, as it is in the kernel's address space.
    */
  ghost function NewPagemap(w: World, hhdm: U64, kernel: U64): (World, U64)
    requires kernel in w.mem
  {
    var (w1, v) := NewStructures(w, hhdm);
    var pm, top := TopFree(w.free), TopFree(PopFree(w.free));
    if v == 0 || kernel !in w1.mem || top !in w1.mem then (w1, v)
    else
      (w1.(mem := w1.mem[top := UpperHalf(w1.mem[top], w1.mem[kernel])],
           level := w1.level[top := 4], spaces := w1.spaces[pm := top]),
       v)
  }

  /** The direct map covers all of memory without wrapping around, and not at address 0. */
  ghost predicate DirectMap(w: World, hhdm: U64) {
    hhdm > 0 && forall f <- w.mem :: f + hhdm < TWO64
  }

  /** Each `pagemap` structure holds the virtual address of its top-level table in its first word. */
  ghost predicate Structures(w: World, hhdm: U64) {
    forall pm <- w.spaces :: pm in w.mem && w.mem[pm][0] == PhysicalToVirtual(w.spaces[pm], hhdm)
  }

  lemma {:induction false} NewPagemapStructures(w: World, hhdm: U64, kernel: U64)
    requires Forest(w) && Structures(w, hhdm) && |w.free| >= 3
    requires kernel in w.level && w.level[kernel] == 4
    ensures Structures(NewPagemap(w, hhdm, kernel).0, hhdm)
  {
    TopTwo(w);
  }

  /**
    The second word of a structure is the virtual address of a region list head: a frame of its own whose
    words 6 and 7 point back at it, all others being 0.
    */
  ghost predicate HasRegions(w: World, hhdm: U64, pm: U64, head: U64) {
    && pm in w.spaces && pm in w.mem && w.mem[pm][1] == PhysicalToVirtual(head, hhdm)
    && head in w.mem && head !in w.free && head !in w.level && head !in w.spaces
    && forall e | 0 <= e < 512 ::
         w.mem[head][e] == if e == 6 || e == 7 then PhysicalToVirtual(head, hhdm) else 0
  }

  lemma {:induction false} NewPagemapRegions(w: World, hhdm: U64, kernel: U64)
    requires Forest(w) && DirectMap(w, hhdm) && |w.free| >= 3
    requires kernel in w.level && w.level[kernel] == 4
    ensures var n := |w.free|;
      HasRegions(NewPagemap(w, hhdm, kernel).0, hhdm, w.free[n - 1], w.free[n - 3])
  {
    var n, w' := |w.free|, NewPagemap(w, hhdm, kernel).0;
    TopTwo(w);
    NewPagemapSucceeds(w, hhdm, kernel);
    forall g | g in w'.free ensures g != w.free[n - 3] {
      var i :| 0 <= i < |w'.free| && w'.free[i] == g;
      assert w.free[i] == g;
    }
  }

  lemma {:induction false} LookSameBelow(m: Memory, m': Memory, w: World, u: U64, q: nat)
    requires Forest(w) && m == w.mem && u in w.level
    requires forall t <- w.level :: t in m' && m'[t] == m[t]
    ensures Look(m', u, w.level[u], q) == Look(m, u, w.level[u], q)
    decreases w.level[u]
  {
    var word := Word(m, u, Slot(q, w.level[u]));
    if w.level[u] > 1 && Present(word) {
      assert Link(w, u, Slot(q, w.level[u]), PteAddr(word));
      LookSameBelow(m, m', w, PteAddr(word), q);
    }
  }

  lemma {:induction false} TopTwo(w: World)
    requires Forest(w) && |w.free| >= 3
    ensures var n := |w.free|;
      && TopFree(w.free) == w.free[n - 1] && PopFree(w.free) == w.free[..n - 1]
      && TopFree(PopFree(w.free)) == w.free[n - 2] && PopFree(PopFree(w.free)) == w.free[..n - 2]
      && TopFree(PopFree(PopFree(w.free))) == w.free[n - 3]
      && PopFree(PopFree(PopFree(w.free))) == w.free[..n - 3]
      && w.free[n - 1] in w.free && w.free[n - 2] in w.free && w.free[n - 3] in w.free
  {
    var n := |w.free|;
    assert w.free[..n - 1][..n - 2] == w.free[..n - 2];
    assert w.free[..n - 2][..n - 3] == w.free[..n - 3];
  }

  ghost predicate NewSpace(w: World, kernel: U64, w': World, pm: U64, top: U64) {
    && pm !in w.spaces && w'.spaces == w.spaces[pm := top]
    && top !in w.level && w'.level == w.level[top := 4]
    && w'.mem.Keys == w.mem.Keys && pm in w'.mem && top in w'.mem && kernel in w.mem
    && |w'.free| == |w.free| - 3
    && (forall t <- w.level :: t in w'.mem && t in w.mem && w'.mem[t] == w.mem[t])
    && (forall s <- w.spaces :: s in w'.mem && s in w.mem && w'.mem[s] == w.mem[s])
    && w'.mem[top] == UpperHalf(ZeroTable(), w.mem[kernel])
  }

  /** The new space's links: those of the kernel's upper half. */
  lemma {:induction false} NewSpaceLinks(w: World, kernel: U64, w': World, pm: U64, top: U64, t: U64, e: int, c: U64)
    requires Forest(w) && NewSpace(w, kernel, w', pm, top)
    requires kernel in w.level && w.level[kernel] == 4
    ensures Link(w', t, e, c) <==> Link(w, t, e, c) || (t == top && e >= 256 && Link(w, kernel, e, c))
  {
  }

  lemma {:induction false} NewPagemapForest(w: World, hhdm: U64, kernel: U64)
    requires Forest(w) && DirectMap(w, hhdm) && |w.free| >= 3
    requires kernel in w.level && w.level[kernel] == 4
    ensures var (w', v) := NewPagemap(w, hhdm, kernel);
      var pm, top := w.free[|w.free| - 1], w.free[|w.free| - 2];
      && v == PhysicalToVirtual(pm, hhdm) && v != 0
      && NewSpace(w, kernel, w', pm, top) && Forest(w') && Extends(w, w')
  {
    NewPagemapSucceeds(w, hhdm, kernel);
    NewSpaceForest(w, kernel, NewPagemap(w, hhdm, kernel).0, w.free[|w.free| - 1], w.free[|w.free| - 2]);
  }

  lemma {:induction false} NewPagemapSucceeds(w: World, hhdm: U64, kernel: U64)
    requires Forest(w) && DirectMap(w, hhdm) && |w.free| >= 3
    requires kernel in w.level && w.level[kernel] == 4
    ensures var (w', v) := NewPagemap(w, hhdm, kernel);
      var pm, top := w.free[|w.free| - 1], w.free[|w.free| - 2];
      && v == PhysicalToVirtual(pm, hhdm) && v != 0
      && NewSpace(w, kernel, w', pm, top) && w'.free == w.free[..|w.free| - 3]
  {
    TopTwo(w);
  }

  lemma {:induction false} NewSpaceForest(w: World, kernel: U64, w': World, pm: U64, top: U64)
    requires Forest(w) && |w.free| >= 3 && kernel in w.level && w.level[kernel] == 4
    requires pm == w.free[|w.free| - 1] && top == w.free[|w.free| - 2]
    requires NewSpace(w, kernel, w', pm, top) && w'.free == w.free[..|w.free| - 3]
    ensures Forest(w') && Extends(w, w')
  {
    forall t, e, c
      ensures Link(w', t, e, c) <==> Link(w, t, e, c) || (t == top && e >= 256 && Link(w, kernel, e, c))
    {
      NewSpaceLinks(w, kernel, w', pm, top, t, e, c);
    }
    assert FreeFrames(w') by {
      forall g | g in w'.free ensures g in w.free && g != pm && g != top {
        var i :| 0 <= i < |w'.free| && w'.free[i] == g;
        assert w.free[i] == g;
      }
    }
    assert LinksDown(w');
    assert OneParent(w');
    assert Spaces(w');
  }

  /**
    A new address space shows exactly the kernel's upper half and nothing below it, and creating
    it changes no lookup of any other space.
    */
  lemma {:induction false} NewPagemapLooks(w: World, hhdm: U64, kernel: U64, q: nat)
    requires Forest(w) && DirectMap(w, hhdm) && |w.free| >= 3
    requires kernel in w.level && w.level[kernel] == 4
    ensures var w' := NewPagemap(w, hhdm, kernel).0;
      var top := w.free[|w.free| - 2];
      && Look(w'.mem, top, 4, q) == (if Slot(q, 4) >= 256 then Look(w.mem, kernel, 4, q) else 0)
      && (forall r | r in w.level && w.level[r] == 4 :: Look(w'.mem, r, 4, q) == Look(w.mem, r, 4, q))
  {
    NewPagemapForest(w, hhdm, kernel);
    NewSpaceLooks(w, kernel, NewPagemap(w, hhdm, kernel).0, w.free[|w.free| - 1], w.free[|w.free| - 2], q);
  }

  lemma {:induction false} NewSpaceLooks(w: World, kernel: U64, w': World, pm: U64, top: U64, q: nat)
    requires Forest(w) && NewSpace(w, kernel, w', pm, top)
    requires kernel in w.level && w.level[kernel] == 4
    ensures Look(w'.mem, top, 4, q) == if Slot(q, 4) >= 256 then Look(w.mem, kernel, 4, q) else 0
    ensures forall r | r in w.level && w.level[r] == 4 :: Look(w'.mem, r, 4, q) == Look(w.mem, r, 4, q)
  {
    forall u | u in w.level ensures Look(w'.mem, u, w.level[u], q) == Look(w.mem, u, w.level[u], q) {
      LookSameBelow(w.mem, w'.mem, w, u, q);
    }
    var word := Word(w.mem, kernel, Slot(q, 4));
    if Present(word) {
      assert Link(w, kernel, Slot(q, 4), PteAddr(word));
    }
  }

  /**
    Without a direct-map offset the NULL checks work: NULL exactly when fewer than three frames are
    free, and then the free stack is back to what it was.
    */
  lemma {:induction false} ExhaustionNoticedWithoutOffset(w: World, kernel: U64)
    requires Forest(w) && 0 !in w.free && kernel in w.level && w.level[kernel] == 4
    ensures var (w', v) := NewPagemap(w, 0, kernel);
      && (v == 0 <==> |w.free| < 3)
      && (v == 0 ==> w'.free == w.free && w'.level == w.level && w'.spaces == w.spaces
                     && forall t <- w.level :: t in w'.mem && w'.mem[t] == w.mem[t])
  {
    if |w.free| >= 3 {
      TopTwo(w);
      assert NewPagemap(w, 0, kernel).1 == w.free[|w.free| - 1];
    } else {
      ExhaustedRollsBack(w, kernel);
    }
  }

  lemma {:induction false} ExhaustedRollsBack(w: World, kernel: U64)
    requires Forest(w) && 0 !in w.free && kernel in w.level && w.level[kernel] == 4 && |w.free| < 3
    ensures var (w', v) := NewPagemap(w, 0, kernel);
      v == 0 && w'.free == w.free && w'.level == w.level && w'.spaces == w.spaces
      && forall t <- w.level :: t in w'.mem && w'.mem[t] == w.mem[t]
  {
    if |w.free| == 2 {
      TwoFramesRollBack(w, kernel);
    } else if |w.free| == 1 {
      assert w.free[0] in w.free;
      assert PopFree(w.free) == [];
    }
  }

  lemma {:induction false} TwoFramesRollBack(w: World, kernel: U64)
    requires Forest(w) && 0 !in w.free && kernel in w.level && w.level[kernel] == 4 && |w.free| == 2
    ensures var (w', v) := NewPagemap(w, 0, kernel);
      v == 0 && w'.free == w.free && w'.level == w.level && w'.spaces == w.spaces
      && forall t <- w.level :: t in w'.mem && w'.mem[t] == w.mem[t]
  {
    assert w.free[1] in w.free && w.free[0] in w.free;
    assert PopFree(w.free) == [w.free[0]];
    assert PopFree(PopFree(w.free)) == [];
    assert [] + [w.free[0], w.free[1]] == w.free;
  }

  /** The NULL checks fire exactly when there is no offset and fewer than three frames are free. */
  lemma {:induction false} NullIff(w: World, hhdm: U64, kernel: U64)
    requires Forest(w) && kernel in w.level && w.level[kernel] == 4
    requires DirectMap(w, hhdm) || (hhdm == 0 && 0 !in w.free)
    ensures NewPagemap(w, hhdm, kernel).1 == 0 <==> hhdm == 0 && |w.free| < 3
  {
    if hhdm == 0 {
      ExhaustionNoticedWithoutOffset(w, kernel);
    } else {
      NeverNull(w, hhdm);
    }
  }

  lemma {:induction false} NeverNull(w: World, hhdm: U64)
    requires Forest(w) && DirectMap(w, hhdm)
    ensures NewStructures(w, hhdm).1 != 0
  {
    var f1 := PopFree(w.free);
    var f2 := PopFree(f1);
    assert |w.free| > 0 ==> w.free[|w.free| - 1] in w.free;
    assert |w.free| > 1 ==> w.free[|w.free| - 2] in w.free;
    assert |w.free| > 2 ==> w.free[|w.free| - 3] in w.free;
    NotNull(w, hhdm, TopFree(w.free));
    NotNull(w, hhdm, TopFree(f1));
    NotNull(w, hhdm, TopFree(f2));
  }

  lemma {:induction false} NotNull(w: World, hhdm: U64, f: U64)
    requires Forest(w) && DirectMap(w, hhdm) && (f == 0 || f in w.free)
    ensures PhysicalToVirtual(f, hhdm) != 0
  {
  }

  // ------------------------------------------------------------------------------------------
  // Runs

  /** A call on the address space whose `pagemap` structure is in frame pm, or `vmm_new_pagemap`. */
  datatype Op =
    | Map(pm: U64, vaddr: U64, paddr: U64, flags: U64)
    | Unmap(pm: U64, vaddr: U64)
    | New

  ghost function Page(op: Op): nat
    requires !op.New?
  {
    op.vaddr / 4096
  }

  ghost function Value(op: Op): U64 {
    if op.Map? then Or64(op.paddr, op.flags) else 0
  }

  /** The world of a kernel: its own address space kpm exists and the direct map reaches all memory. */
  ghost predicate Kernel(w: World, hhdm: U64, kpm: U64) {
    Forest(w) && DirectMap(w, hhdm) && Structures(w, hhdm) && kpm in w.spaces
  }

  /** The call names an existing address space. */
  ghost predicate Known(w: World, op: Op) {
    op.New? || op.pm in w.spaces
  }

  /** How many frames a call needs. */
  ghost function Needs(w: World, op: Op): nat
    requires Known(w, op)
  {
    if op.New? then 3 else Missing(w.mem, w.spaces[op.pm], 4, Page(op))
  }

  /** The call names an existing address space, and the frames it takes are free. */
  ghost predicate Legal(w: World, op: Op) {
    Known(w, op) && Needs(w, op) <= |w.free|
  }

  ghost function Step(w: World, hhdm: U64, kpm: U64, op: Op): World
    requires Kernel(w, hhdm, kpm) && Known(w, op)
  {
    if op.New? then NewPagemap(w, hhdm, w.spaces[kpm]).0
    else SetLeaf(w, w.spaces[op.pm], Page(op), Value(op))
  }

  /** The calls as they are made: the page is the address without its offset, the word what is to be found there. */
  lemma {:induction false} StepIsCall(w: World, hhdm: U64, kpm: U64, pm: U64, vaddr: U64, paddr: U64, flags: U64)
    requires Kernel(w, hhdm, kpm) && pm in w.spaces
    ensures Step(w, hhdm, kpm, Map(pm, vaddr, paddr, flags)) ==
      SetLeaf(w, w.spaces[pm], vaddr / 4096, Or64(paddr, flags))
    ensures Step(w, hhdm, kpm, Unmap(pm, vaddr)) == SetLeaf(w, w.spaces[pm], vaddr / 4096, 0)
    ensures Step(w, hhdm, kpm, New) == NewPagemap(w, hhdm, w.spaces[kpm]).0
  {
  }

  /** Free frames, table frames, and the two other frames of each address space. */
  ghost function Frames(w: World): nat {
    |w.free| + |w.level| + 2 * |w.spaces|
  }

  /** The invariant holds again, no link was dropped, and what was taken is what was needed. */
  ghost predicate Kept(w: World, hhdm: U64, kpm: U64, op: Op, w': World)
    requires Known(w, op)
  {
    && Kernel(w', hhdm, kpm) && Extends(w, w')
    && |w'.free| == |w.free| - Needs(w, op) && Frames(w') == Frames(w)
  }

  /** One step keeps the forest, moves frames between the stack and their use, and drops no link. */
  lemma {:induction false} StepKeeps(w: World, hhdm: U64, kpm: U64, op: Op)
    requires Kernel(w, hhdm, kpm) && Legal(w, op)
    ensures Kept(w, hhdm, kpm, op, Step(w, hhdm, kpm, op))
  {
    if op.New? {
      NewPagemapForest(w, hhdm, w.spaces[kpm]);
      NewPagemapStructures(w, hhdm, w.spaces[kpm]);
    } else {
      SetLeafRefinesFlatUpdate(w, w.spaces[op.pm], Page(op), Value(op));
    }
  }

  /** A walk writes to tables and to frames it takes, and to nothing else. */
  lemma {:induction false} WalkLeavesRest(w: World, t: U64, k: int, p: nat, f: U64)
    requires Forest(w) && t in w.level && w.level[t] == k && k >= 1 && Missing(w.mem, t, k, p) <= |w.free|
    requires f in w.mem && f !in w.level && f !in w.free
    ensures var w' := Walk(w, t, k, p).0;
      f in w'.mem && w'.mem[f] == w.mem[f] && f !in w'.level && f !in w'.free
    decreases k
  {
    if k > 1 {
      var (w1, c) := NextLevel(w, t, Slot(p, k));
      NextLevelGood(w, t, Slot(p, k));
      StepMissing(w, t, k, p, w1, c);
      assert TopFree(w.free) in w.free || w.free == [];
      WalkLeavesRest(w1, c, k - 1, p, f);
    }
  }

  lemma {:induction false} StepLeavesRest(w: World, hhdm: U64, kpm: U64, op: Op, f: U64)
    requires Kernel(w, hhdm, kpm) && Legal(w, op) && f in w.mem && f !in w.level && f !in w.free
    ensures var w' := Step(w, hhdm, kpm, op);
      f in w'.mem && w'.mem[f] == w.mem[f] && f !in w'.level && f !in w'.free
    ensures f !in w.spaces ==> f !in Step(w, hhdm, kpm, op).spaces
  {
    if op.New? {
      TopTwo(w);
      NewPagemapSucceeds(w, hhdm, w.spaces[kpm]);
    } else {
      WalkLeavesRest(w, w.spaces[op.pm], 4, Page(op), f);
      WalkGood(w, w.spaces[op.pm], 4, Page(op));
    }
  }

  /** It does so exactly when the frames it needs are free. */
  lemma {:induction false} StepKeepsIff(w: World, hhdm: U64, kpm: U64, op: Op)
    requires Kernel(w, hhdm, kpm) && Known(w, op)
    ensures Kept(w, hhdm, kpm, op, Step(w, hhdm, kpm, op)) <==> Needs(w, op) <= |w.free|
  {
    if Needs(w, op) <= |w.free| {
      StepKeeps(w, hhdm, kpm, op);
    }
  }

  /** A run of calls, each legal when it is made, from world w to world w'. */
  ghost predicate Run(w: World, hhdm: U64, kpm: U64, ops: seq<Op>, w': World)
    requires Kernel(w, hhdm, kpm)
    decreases |ops|
  {
    if ops == [] then w' == w
    else
      && Legal(w, ops[0])
      && (StepKeeps(w, hhdm, kpm, ops[0]); Run(Step(w, hhdm, kpm, ops[0]), hhdm, kpm, ops[1..], w'))
  }

  /**
    Over every run the forest invariant holds, no present intermediate entry ever changes, and no
    frame is lost or duplicated.
    */
  lemma {:induction false} RunKeeps(w: World, hhdm: U64, kpm: U64, ops: seq<Op>, w': World)
    requires Kernel(w, hhdm, kpm) && Run(w, hhdm, kpm, ops, w')
    ensures Kernel(w', hhdm, kpm) && Extends(w, w') && Frames(w') == Frames(w)
    decreases |ops|
  {
    if ops != [] {
      StepKeeps(w, hhdm, kpm, ops[0]);
      var w1 := Step(w, hhdm, kpm, ops[0]);
      RunKeeps(w1, hhdm, kpm, ops[1..], w');
      ExtendsTransitive(w, w1, w');
    }
  }

  /** The region list of an address space stays as it was made, over every run. */
  lemma {:induction false} RegionsStay(
    w: World, hhdm: U64, kpm: U64, ops: seq<Op>, w': World, pm: U64, head: U64)
    requires Kernel(w, hhdm, kpm) && Run(w, hhdm, kpm, ops, w') && HasRegions(w, hhdm, pm, head)
    ensures HasRegions(w', hhdm, pm, head)
    decreases |ops|
  {
    if ops != [] {
      StepKeeps(w, hhdm, kpm, ops[0]);
      StepLeavesRest(w, hhdm, kpm, ops[0], head);
      RegionsStay(Step(w, hhdm, kpm, ops[0]), hhdm, kpm, ops[1..], w', pm, head);
    }
  }

  /** Three free frames for each call are enough for a run of calls on existing address spaces. */
  lemma {:induction false} RunHappens(w: World, hhdm: U64, kpm: U64, ops: seq<Op>) returns (w': World)
    requires Kernel(w, hhdm, kpm) && 3 * |ops| <= |w.free|
    requires forall op <- ops :: Known(w, op)
    ensures Run(w, hhdm, kpm, ops, w')
    decreases |ops|
  {
    if ops == [] {
      w' := w;
    } else {
      var w1 := Step(w, hhdm, kpm, ops[0]);
      OneOfMany(w, hhdm, kpm, ops, w1);
      w' := RunHappens(w1, hhdm, kpm, ops[1..]);
    }
  }

  lemma {:induction false} OneOfMany(w: World, hhdm: U64, kpm: U64, ops: seq<Op>, w1: World)
    requires Kernel(w, hhdm, kpm) && ops != [] && 3 * |ops| <= |w.free|
    requires forall op <- ops :: Known(w, op)
    requires Known(w, ops[0]) && w1 == Step(w, hhdm, kpm, ops[0])
    ensures Legal(w, ops[0]) && Kernel(w1, hhdm, kpm) && 3 * |ops[1..]| <= |w1.free|
    ensures forall op <- ops[1..] :: Known(w1, op)
  {
    NeedsAtMost(w, ops[0]);
    StepKeeps(w, hhdm, kpm, ops[0]);
    forall op | op in ops[1..] ensures Known(w1, op) {
      assert Known(w, op);
    }
  }

  lemma {:induction false} NeedsAtMost(w: World, op: Op)
    requires Known(w, op)
    ensures Needs(w, op) <= 3
  {
    if !op.New? {
      MissingAtMost(w.mem, w.spaces[op.pm], 4, Page(op));
    }
  }

  ghost predicate Writes(op: Op, pm: U64, q: nat) {
    !op.New? && op.pm == pm && SamePage(Page(op), q)
  }

  /** The last word a run wrote to page q of space pm, or `before` if it wrote none. */
  ghost function LastWrite(ops: seq<Op>, pm: U64, q: nat, before: U64): U64
    decreases |ops|
  {
    if ops == [] then before
    else LastWrite(ops[1..], pm, q, if Writes(ops[0], pm, q) then Value(ops[0]) else before)
  }

  /**
    Over every run the lower half of an address space is a private flat map: a page holds the last
    word written to it through that space, whatever was done through the other spaces.
    */
  lemma {:induction false} LowerHalfIsPrivate(
    w: World, hhdm: U64, kpm: U64, ops: seq<Op>, w': World, pm: U64, q: nat)
    requires Kernel(w, hhdm, kpm) && Run(w, hhdm, kpm, ops, w')
    requires pm in w.spaces && Slot(q, 4) < 256
    ensures pm in w'.spaces && w'.spaces[pm] == w.spaces[pm]
    ensures Look(w'.mem, w.spaces[pm], 4, q) == LastWrite(ops, pm, q, Look(w.mem, w.spaces[pm], 4, q))
    decreases |ops|
  {
    if ops != [] {
      StepKeeps(w, hhdm, kpm, ops[0]);
      PrivateStep(w, hhdm, kpm, ops[0], pm, q);
      LowerHalfIsPrivate(Step(w, hhdm, kpm, ops[0]), hhdm, kpm, ops[1..], w', pm, q);
    }
  }

  lemma {:induction false} PrivateStep(w: World, hhdm: U64, kpm: U64, op: Op, pm: U64, q: nat)
    requires Kernel(w, hhdm, kpm) && Legal(w, op)
    requires pm in w.spaces && Slot(q, 4) < 256
    ensures Look(Step(w, hhdm, kpm, op).mem, w.spaces[pm], 4, q) ==
      if Writes(op, pm, q) then Value(op) else Look(w.mem, w.spaces[pm], 4, q)
  {
    var root := w.spaces[pm];
    if op.New? {
      NewPagemapLooks(w, hhdm, w.spaces[kpm], q);
    } else {
      SetLeafRefinesFlatUpdate(w, w.spaces[op.pm], Page(op), Value(op));
      var w' := Step(w, hhdm, kpm, op);
      if SamePage(Page(op), q) && Shares(w', w.spaces[op.pm], root, Slot(q, 4)) {
        SharedIsUpper(w', w.spaces[op.pm], root, Slot(q, 4), Page(op));
      }
    }
  }

  /** Two spaces share a slot that one of them has filled only in the upper half. */
  lemma {:induction false} SharedIsUpper(w: World, r: U64, r': U64, e: nat, p: nat)
    requires Forest(w) && r in w.level && w.level[r] == 4 && r' in w.level && w.level[r'] == 4
    requires e < 512 && Missing(w.mem, r, 4, p) == 0 && Slot(p, 4) == e && Shares(w, r, r', e)
    ensures r == r' || e >= 256
  {
    if r != r' {
      var c := PteAddr(Word(w.mem, r, e));
      assert Link(w, r, e, c) && Link(w, r', e, c);
    }
  }

  /** A page no call names keeps its lookup in every space that existed, upper half included. */
  lemma {:induction false} UntouchedPage(w: World, hhdm: U64, kpm: U64, ops: seq<Op>, w': World, pm: U64, q: nat)
    requires Kernel(w, hhdm, kpm) && Run(w, hhdm, kpm, ops, w') && pm in w.spaces
    requires forall op <- ops :: op.New? || !SamePage(Page(op), q)
    ensures Look(w'.mem, w.spaces[pm], 4, q) == Look(w.mem, w.spaces[pm], 4, q)
    decreases |ops|
  {
    if ops != [] {
      StepKeeps(w, hhdm, kpm, ops[0]);
      if ops[0].New? {
        NewPagemapLooks(w, hhdm, w.spaces[kpm], q);
      } else {
        SetLeafRefinesFlatUpdate(w, w.spaces[ops[0].pm], Page(ops[0]), Value(ops[0]));
      }
      UntouchedPage(Step(w, hhdm, kpm, ops[0]), hhdm, kpm, ops[1..], w', pm, q);
    }
  }

  /**
    A slot of the kernel's upper half that was present when an address space was made is shared for
    ever: after any further run both give the same lookups through it.
    */
  lemma {:induction false} SharedForever(w: World, hhdm: U64, kpm: U64, ops: seq<Op>, w': World, q: nat)
    requires Kernel(w, hhdm, kpm) && Run(w, hhdm, kpm, [New] + ops, w')
    requires Slot(q, 4) >= 256 && Present(Word(w.mem, w.spaces[kpm], Slot(q, 4)))
    ensures Look(w'.mem, w.free[|w.free| - 2], 4, q) == Look(w'.mem, w.spaces[kpm], 4, q)
  {
    assert ([New] + ops)[0] == New && ([New] + ops)[1..] == ops;
    StepKeeps(w, hhdm, kpm, New);
    NewPagemapForest(w, hhdm, w.spaces[kpm]);
    SharedAtBirth(w, w.spaces[kpm], Step(w, hhdm, kpm, New), w.free[|w.free| - 1], w.free[|w.free| - 2], q);
    SharedSlot(Step(w, hhdm, kpm, New), w.free[|w.free| - 2], w.spaces[kpm], hhdm, kpm, ops, w', q);
  }

  lemma {:induction false} SharedAtBirth(w: World, kernel: U64, w': World, pm: U64, top: U64, q: nat)
    requires NewSpace(w, kernel, w', pm, top) && kernel in w.level && Slot(q, 4) >= 256
    ensures Word(w'.mem, top, Slot(q, 4)) == Word(w'.mem, kernel, Slot(q, 4)) == Word(w.mem, kernel, Slot(q, 4))
  {
  }

  lemma {:induction false} SharedSlot(
    w: World, r: U64, kernel: U64, hhdm: U64, kpm: U64, ops: seq<Op>, w': World, q: nat)
    requires Kernel(w, hhdm, kpm) && Run(w, hhdm, kpm, ops, w')
    requires r in w.level && w.level[r] == 4 && kernel in w.level && w.level[kernel] == 4
    requires Present(Word(w.mem, kernel, Slot(q, 4))) && Word(w.mem, r, Slot(q, 4)) == Word(w.mem, kernel, Slot(q, 4))
    ensures Look(w'.mem, r, 4, q) == Look(w'.mem, kernel, 4, q)
  {
    RunKeeps(w, hhdm, kpm, ops, w');
    var c := PteAddr(Word(w.mem, kernel, Slot(q, 4)));
    assert Link(w, r, Slot(q, 4), c) && Link(w, kernel, Slot(q, 4), c);
  }

  /**
    A mapping made through the kernel's space shows in another one exactly when both went through the
    same table before, or the page happened to look like that already.
    */
  lemma {:induction false} KernelMappingShowsIff(w: World, r: U64, kernel: U64, p: nat, value: U64)
    requires Forest(w) && r in w.level && w.level[r] == 4 && kernel in w.level && w.level[kernel] == 4
    requires r != kernel && Missing(w.mem, kernel, 4, p) <= |w.free|
    ensures Look(SetLeaf(w, kernel, p, value).mem, r, 4, p) == value
      <==> SameTable(w, kernel, r, Slot(p, 4)) || Look(w.mem, r, 4, p) == value
  {
    SetLeafLook(w, kernel, p, value, r, p);
    SharesAfter(w, kernel, p, value, r);
  }

  /**
    A slot that the kernel fills after it made an address space is not shared with it: the mapping
    shows in the kernel's space only.
    */
  lemma {:induction false} LateSlotIsNotShared(w: World, hhdm: U64, kernel: U64, p: nat, value: U64)
    requires Forest(w) && DirectMap(w, hhdm) && |w.free| >= 6 && value != 0
    requires kernel in w.level && w.level[kernel] == 4 && !Present(Word(w.mem, kernel, Slot(p, 4)))
    ensures var w1, top := NewPagemap(w, hhdm, kernel).0, w.free[|w.free| - 2];
      var w2 := SetLeaf(w1, kernel, p, value);
      && top in w1.level && Look(w2.mem, kernel, 4, p) == value && Look(w2.mem, top, 4, p) == 0
  {
    var w1, top := NewPagemap(w, hhdm, kernel).0, w.free[|w.free| - 2];
    NewPagemapForest(w, hhdm, kernel);
    NewPagemapLooks(w, hhdm, kernel, p);
    assert top != kernel && Word(w1.mem, kernel, Slot(p, 4)) == Word(w.mem, kernel, Slot(p, 4));
    MissingAtMost(w1.mem, kernel, 4, p);
    SetLeafLook(w1, kernel, p, value, kernel, p);
    SetLeafLook(w1, kernel, p, value, top, p);
    SharesAfter(w1, kernel, p, value, top);
  }
}
