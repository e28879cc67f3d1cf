/**
  The virtual memory manager of kernel/src/mm/vmm.c over physical memory. Pointers are virtual
  addresses in the direct map; every access goes through `VirtualToPhysical`.
  */
module Vmm {
  import opened Words
  import opened PageStack
  import opened PageTable
  import opened AddressSpaces
  import opened MappingCost
  import opened BootMap

  class Manager {
    const pmm: Allocator
    const hhdm: U64
    var mem: Memory
    var kernelPagemap: U64
    var currentPagemap: U64
    ghost var level: map<U64, int>
    ghost var spaces: map<U64, U64>

    ghost predicate Valid()
      reads this, pmm
    {
      pmm.Valid() && pmm.initialized
    }

    /** The state as a value. */
    ghost function World(): PageTable.World
      reads this, pmm, pmm.stack
      requires Valid()
    {
      PageTable.World(mem, pmm.Contents(), level, spaces)
    }

    /** The address space a `pagemap` pointer stands for. */
    ghost function Root(pm: U64): U64
      reads this
      requires VirtualToPhysical(pm, hhdm) in spaces
    {
      spaces[VirtualToPhysical(pm, hhdm)]
    }

    constructor (pmm: Allocator, hhdm: U64, mem: Memory)
      requires pmm.Valid() && pmm.initialized
      ensures this.pmm == pmm && this.hhdm == hhdm && Valid()
      ensures World() == PageTable.World(mem, pmm.Contents(), map[], map[])
    {
      this.pmm, this.hhdm, this.mem := pmm, hhdm, mem;
      kernelPagemap, currentPagemap := 0, 0;
      level, spaces := map[], map[];
    }

    function Load(p: U64, e: nat): U64
      reads this
      requires VirtualToPhysical(p, hhdm) in mem && e < 512
    {
      mem[VirtualToPhysical(p, hhdm)][e]
    }

    method StoreWord(p: U64, e: nat, value: U64)
      requires VirtualToPhysical(p, hhdm) in mem && e < 512
      modifies this`mem
      ensures mem == Store(old(mem), VirtualToPhysical(p, hhdm), e, value)
    {
      var frame := VirtualToPhysical(p, hhdm);
      mem := mem[frame := mem[frame][e := value]];
    }

    /** `memset(p, 0, PAGE_SIZE)` */
    method ClearPage(p: U64)
      modifies this`mem
      ensures mem == old(mem)[VirtualToPhysical(p, hhdm) := ZeroTable()]
    {
      mem := mem[VirtualToPhysical(p, hhdm) := ZeroTable()];
    }

    /** `__vmm_get_next_lvl`; an empty stack yields frame 0, which is not checked. */
    method GetNextLevel(table: U64, entry: nat) returns (next: U64)
      requires Valid() && VirtualToPhysical(table, hhdm) in mem && entry < 512
      modifies this`mem, this`level, pmm
      ensures Valid()
      ensures var (w', c) := NextLevel(old(World()), VirtualToPhysical(table, hhdm), entry);
        World() == w' && VirtualToPhysical(next, hhdm) == c
    {
      var word := Load(table, entry);
      if Present(word) {
        return PhysicalToVirtual(PteAddr(word), hhdm);
      }
      var frame := pmm.AllocPage();
      next := PhysicalToVirtual(frame, hhdm);
      ClearPage(next);
      StoreWord(table, entry, Or64(Or64(Or64(VirtualToPhysical(next, hhdm), 1), 2), 3));
      ghost var t := VirtualToPhysical(table, hhdm);
      level := level[frame := if t in level then level[t] - 1 else 0];
    }

    /** The three calls of `__vmm_get_next_lvl` with which `vmm_map` and `vmm_unmap` begin. */
    method WalkDown(pm: U64, vaddr: U64) returns (pml1: U64)
      requires Valid() && Forest(World()) && Structures(World(), hhdm)
      requires VirtualToPhysical(pm, hhdm) in spaces
      modifies this`mem, this`level, pmm
      ensures Valid() && VirtualToPhysical(pml1, hhdm) in mem
      ensures var (w', leaf) := Walk(old(World()), Root(pm), 4, vaddr / 4096);
        World() == w' && VirtualToPhysical(pml1, hhdm) == leaf
    {
      ghost var w0, root, p := World(), Root(pm), vaddr / 4096;
      ghost var (w1, c3) := NextLevel(w0, root, Slot(p, 4));
      ghost var (w2, c2) := NextLevel(w1, c3, Slot(p, 3));
      WalkTables(w0, root, p);
      IndexIsSlot(vaddr);
      HhdmRoundTrip(root, hhdm);
      var pml4 := Load(pm, 0);
      var pml3 := GetNextLevel(pml4, Index(vaddr, 39));
      assert World() == w1;
      var pml2 := GetNextLevel(pml3, Index(vaddr, 30));
      assert World() == w2;
      pml1 := GetNextLevel(pml2, Index(vaddr, 21));
    }

    /** Frames may run out on the way; the update is the flat one exactly when they do not. */
    method Map(pm: U64, vaddr: U64, paddr: U64, flags: U64)
      requires Valid() && Forest(World()) && Structures(World(), hhdm)
      requires VirtualToPhysical(pm, hhdm) in spaces
      modifies this`mem, this`level, pmm
      ensures Valid() && World() == SetLeaf(old(World()), Root(pm), vaddr / 4096, Or64(paddr, flags))
      ensures FlatUpdate(old(World()), Root(pm), vaddr / 4096, Or64(paddr, flags), World())
        <==> Missing(old(mem), Root(pm), 4, vaddr / 4096) <= |old(pmm.Contents())|
    {
      SetLeafIsFlatIff(World(), Root(pm), vaddr / 4096, Or64(paddr, flags));
      IndexIsSlot(vaddr);
      var pml1 := WalkDown(pm, vaddr);
      StoreWord(pml1, Index(vaddr, 12), Or64(paddr, flags));
    }

    method Unmap(pm: U64, vaddr: U64)
      requires Valid() && Forest(World()) && Structures(World(), hhdm)
      requires VirtualToPhysical(pm, hhdm) in spaces
      modifies this`mem, this`level, pmm
      ensures Valid() && World() == SetLeaf(old(World()), Root(pm), vaddr / 4096, 0)
      ensures FlatUpdate(old(World()), Root(pm), vaddr / 4096, 0, World())
        <==> Missing(old(mem), Root(pm), 4, vaddr / 4096) <= |old(pmm.Contents())|
    {
      SetLeafIsFlatIff(World(), Root(pm), vaddr / 4096, 0);
      IndexIsSlot(vaddr);
      var pml1 := WalkDown(pm, vaddr);
      StoreWord(pml1, Index(vaddr, 12), 0);
    }

    /** `vmm_new_pagemap`, 0 standing for NULL; frames may run out. */
    method NewPagemap() returns (pm: U64)
      requires Valid() && Forest(World()) && Structures(World(), hhdm)
      requires VirtualToPhysical(kernelPagemap, hhdm) in spaces
      requires OutsideZero(World(), hhdm, VirtualToPhysical(kernelPagemap, hhdm))
      modifies this`mem, this`level, this`spaces, pmm, pmm.stack
      ensures Valid()
      ensures var (w', v) := AddressSpaces.NewPagemap(old(World()), hhdm, old(Root(kernelPagemap)));
        World() == w' && pm == v
    {
      ghost var w0 := World();
      ghost var frame, table := TopFree(w0.free), TopFree(PopFree(w0.free));
      pm := AllocStructures();
      if pm == 0 {
        return;
      }
      StructuresKeep(w0, hhdm, VirtualToPhysical(kernelPagemap, hhdm));
      HhdmRoundTrip(frame, hhdm);
      HhdmRoundTrip(table, hhdm);
      HhdmRoundTrip(Root(kernelPagemap), hhdm);
      CopyUpperHalf(Load(pm, 0), Load(kernelPagemap, 0));
      level := level[table := 4];
      spaces := spaces[frame := table];
    }

    /** The allocations of `vmm_new_pagemap`, rolled back when one fails. */
    method AllocStructures() returns (pm: U64)
      requires Valid() && Forest(World())
      requires |pmm.Contents()| >= 3 || hhdm == 0 || TopFree(pmm.Contents()) != 0
      modifies this`mem, pmm, pmm.stack
      ensures Valid() && World() == NewStructures(old(World()), hhdm).0 && pm == NewStructures(old(World()), hhdm).1
    {
      FreeAreDistinct(World());
      var frame := pmm.AllocPage();
      HhdmRoundTrip(frame, hhdm);
      pm := PhysicalToVirtual(frame, hhdm);
      if pm == 0 {
        return;
      }
      ClearPage(pm);
      var ok := AllocTable(pm);
      if !ok {
        return 0;
      }
    }

    method AllocTable(pm: U64) returns (ok: bool)
      requires Valid() && |pmm.Contents()| < STACK_SIZE
      requires VirtualToPhysical(pm, hhdm) in mem && VirtualToPhysical(pm, hhdm) != TopFree(pmm.Contents())
      modifies this`mem, pmm, pmm.stack
      ensures Valid()
      ensures var (w', done) := AttachTable(old(World()), hhdm, VirtualToPhysical(pm, hhdm));
        World() == w' && ok == done
    {
      var table := AttachPage(pm, 0);
      if table == 0 {
        pmm.FreePage(VirtualToPhysical(pm, hhdm));
        return false;
      }
      ClearPage(table);
      ok := AllocRegions(pm);
    }

    method AllocRegions(pm: U64) returns (ok: bool)
      requires Valid() && |pmm.Contents()| + 1 < STACK_SIZE && VirtualToPhysical(pm, hhdm) in mem
      modifies this`mem, pmm, pmm.stack
      ensures Valid()
      ensures var top := VirtualToPhysical(old(Load(pm, 0)), hhdm);
        var (w', done) := AttachRegions(old(World()), hhdm, VirtualToPhysical(pm, hhdm), top);
        World() == w' && ok == done
    {
      var regions := AttachPage(pm, 1);
      if regions == 0 {
        GiveBack(pm);
        return false;
      }
      MakeRegionHead(regions);
      return true;
    }

    /** The frames of a top-level table and of its structure go back. */
    method GiveBack(pm: U64)
      requires Valid() && |pmm.Contents()| + 1 < STACK_SIZE && VirtualToPhysical(pm, hhdm) in mem
      modifies pmm, pmm.stack
      ensures Valid()
      ensures pmm.Contents() ==
        old(pmm.Contents()) + [VirtualToPhysical(Load(pm, 0), hhdm), VirtualToPhysical(pm, hhdm)]
    {
      pmm.FreePage(VirtualToPhysical(Load(pm, 0), hhdm));
      pmm.FreePage(VirtualToPhysical(pm, hhdm));
    }

    /** `p->field = PHYSICAL_TO_VIRTUAL(pmm_allocpage())` */
    method AttachPage(p: U64, field: nat) returns (page: U64)
      requires Valid() && VirtualToPhysical(p, hhdm) in mem && field < 512
      modifies this`mem, pmm
      ensures Valid() && page == PhysicalToVirtual(TopFree(old(pmm.Contents())), hhdm)
      ensures VirtualToPhysical(page, hhdm) == TopFree(old(pmm.Contents()))
      ensures pmm.Contents() == PopFree(old(pmm.Contents()))
      ensures mem == Store(old(mem), VirtualToPhysical(p, hhdm), field, page)
    {
      var frame := pmm.AllocPage();
      HhdmRoundTrip(frame, hhdm);
      page := PhysicalToVirtual(frame, hhdm);
      StoreWord(p, field, page);
    }

    /** A cleared region list head linked to itself. */
    method MakeRegionHead(p: U64)
      modifies this`mem
      ensures mem == old(mem)[VirtualToPhysical(p, hhdm) := RegionHead(p)]
    {
      ClearPage(p);
      StoreWord(p, 6, p);
      StoreWord(p, 7, p);
    }

    /** The loop that copies top-level slots 256 to 511. */
    method CopyUpperHalf(to: U64, from: U64)
      requires VirtualToPhysical(to, hhdm) in mem && VirtualToPhysical(from, hhdm) in mem
      modifies this`mem
      ensures mem == old(mem)[VirtualToPhysical(to, hhdm) :=
        UpperHalf(old(mem)[VirtualToPhysical(to, hhdm)], old(mem)[VirtualToPhysical(from, hhdm)])]
    {
      ghost var t, f := VirtualToPhysical(to, hhdm), VirtualToPhysical(from, hhdm);
      for i := 256 to 512
        invariant mem.Keys == old(mem).Keys && forall p <- mem | p != t :: mem[p] == old(mem)[p]
        invariant forall j | 0 <= j < 512 :: mem[t][j] == if 256 <= j < i then old(mem)[f][j] else old(mem)[t][j]
      {
        StoreWord(to, i, Load(from, i));
      }
      assert mem[t] == UpperHalf(old(mem)[t], old(mem)[f]);
    }

    /** The first part of `vmm_init`: the kernel's own address space, still empty. */
    method CreateKernelPagemap()
      requires Valid() && Forest(World()) && level == map[] && spaces == map[]
      requires |pmm.Contents()| >= 3
      modifies this, pmm
      ensures BootState([])
      ensures |pmm.Contents()| == |old(pmm.Contents())| - 3 && currentPagemap == old(currentPagemap)
      ensures HasRegions(World(), hhdm, VirtualToPhysical(kernelPagemap, hhdm),
                         TopFree(PopFree(PopFree(old(pmm.Contents())))))
    {
      ghost var w0 := World();
      ghost var frame, table := TopFree(w0.free), TopFree(PopFree(w0.free));
      kernelPagemap := AllocKernelStructures();
      HhdmRoundTrip(frame, hhdm);
      level := map[table := 4];
      spaces := map[frame := table];
      FirstSpace(w0, World(), hhdm, frame, table);
    }

    method AllocKernelStructures() returns (pm: U64)
      requires Valid() && Forest(World()) && |pmm.Contents()| >= 3
      modifies this`mem, pmm
      ensures Valid() && pmm.Contents() == old(pmm.Contents())[..|old(pmm.Contents())| - 3]
      ensures var frame, table := TopFree(old(pmm.Contents())), TopFree(PopFree(old(pmm.Contents())));
        && pm == PhysicalToVirtual(frame, hhdm) && mem.Keys == old(mem).Keys
        && frame in mem && mem[frame][0] == PhysicalToVirtual(table, hhdm)
        && table in mem && mem[table] == ZeroTable()
      ensures var head := TopFree(PopFree(PopFree(old(pmm.Contents()))));
        && head in mem && mem[head] == RegionHead(PhysicalToVirtual(head, hhdm))
        && mem[TopFree(old(pmm.Contents()))][1] == PhysicalToVirtual(head, hhdm)
    {
      TopTwo(World());
      FreeAreDistinct(World());
      var frame := pmm.AllocPage();
      HhdmRoundTrip(frame, hhdm);
      pm := PhysicalToVirtual(frame, hhdm);
      ClearPage(pm);
      AllocKernelTables(pm);
    }

    /** The top table and the region list of a cleared `pagemap` structure. */
    method AllocKernelTables(pm: U64)
      requires Valid() && |pmm.Contents()| >= 2 && VirtualToPhysical(pm, hhdm) in mem
      requires var free := pmm.Contents(); var table, regions := TopFree(free), TopFree(PopFree(free));
        && table in mem && regions in mem && table != regions
        && VirtualToPhysical(pm, hhdm) != table && VirtualToPhysical(pm, hhdm) != regions
      modifies this`mem, pmm
      ensures Valid() && pmm.Contents() == old(pmm.Contents())[..|old(pmm.Contents())| - 2]
      ensures mem.Keys == old(mem).Keys
      ensures mem[VirtualToPhysical(pm, hhdm)][0] == PhysicalToVirtual(TopFree(old(pmm.Contents())), hhdm)
      ensures mem[TopFree(old(pmm.Contents()))] == ZeroTable()
      ensures var head := TopFree(PopFree(old(pmm.Contents())));
        && mem[VirtualToPhysical(pm, hhdm)][1] == PhysicalToVirtual(head, hhdm)
        && mem[head] == RegionHead(PhysicalToVirtual(head, hhdm))
    {
      var table := AttachPage(pm, 0);
      ClearPage(table);
      var regions := AttachPage(pm, 1);
      MakeRegionHead(regions);
    }

    /** The kernel's address space after the writes ws. */
    ghost predicate BootState(ws: seq<PageWrite>)
      reads this, pmm, pmm.stack
    {
      && Valid() && VirtualToPhysical(kernelPagemap, hhdm) in spaces
      && Booting(World(), hhdm, VirtualToPhysical(kernelPagemap, hhdm), Root(kernelPagemap), ws)
    }

    /** One call of `vmm_map` in `vmm_init`: write k of the writes d of a loop that began in world w. */
    method BootPage(vaddr: U64, paddr: U64, flags: U64, ghost w: PageTable.World, ghost d: seq<PageWrite>, ghost k: nat)
      requires Valid() && Forest(World()) && Structures(World(), hhdm)
      requires VirtualToPhysical(kernelPagemap, hhdm) in spaces
      requires k < |d| && d[k] == PageWrite(vaddr / 4096, Or64(paddr, flags))
      requires World() == MapAll(w, Root(kernelPagemap), d[..k])
      modifies this`mem, this`level, pmm
      ensures Valid() && World() == MapAll(w, Root(kernelPagemap), d[..k + 1])
    {
      MapOneMore(w, Root(kernelPagemap), d, k);
      Map(kernelPagemap, vaddr, paddr, flags);
    }

    /** The body of a section loop. */
    method MapSectionRound(vaddr: U64, paddr: U64, flags: U64, ghost w: PageTable.World, ghost ws: seq<PageWrite>,
                           ghost section: seq<PageWrite>, ghost p: nat, ghost rest: nat, ghost i: nat)
      requires Valid() && VirtualToPhysical(kernelPagemap, hhdm) in spaces
      requires i < |section| && section[i] == PageWrite(vaddr / 4096, Or64(paddr, flags))
      requires SectionReady(w, hhdm, VirtualToPhysical(kernelPagemap, hhdm), Root(kernelPagemap), ws, section, p, rest)
      requires World() == MapAll(w, Root(kernelPagemap), section[..i])
      modifies this`mem, this`level, pmm
      ensures Valid() && World() == MapAll(w, Root(kernelPagemap), section[..i + 1])
    {
      SectionPrefix(w, hhdm, VirtualToPhysical(kernelPagemap, hhdm), Root(kernelPagemap), ws, section, p, rest, i);
      BootPage(vaddr, paddr, flags, w, section, i);
    }

    /** One of the three section loops of `vmm_init`. */
    method MapSection(start: U64, end: U64, virtBase: U64, physBase: U64, flags: U64,
                      ghost n: nat, ghost ws: seq<PageWrite>, ghost rest: nat)
      requires start % 4096 == 0 && end == start + 4096 * n
      requires BootState(ws) && Cost(start / 4096, n) + rest <= |pmm.Contents()|
      modifies this`mem, this`level, pmm
      ensures BootState(ws + Section(start, n, virtBase, physBase, flags)) && rest <= |pmm.Contents()|
    {
      ghost var w, section := World(), Section(start, n, virtBase, physBase, flags);
      ghost var pm, root := VirtualToPhysical(kernelPagemap, hhdm), Root(kernelPagemap);
      var address := start;
      ghost var i: nat := 0;
      SectionBegins(w, hhdm, pm, root, ws, start, n, virtBase, physBase, flags, rest);
      while address < end
        invariant i <= n && address == start + 4096 * i && Valid()
        invariant World() == MapAll(w, root, section[..i])
        decreases end - address
      {
        SectionWriteAt(start, n, virtBase, physBase, flags, i, address);
        var paddr := Add64(Sub64(address, virtBase), physBase);
        MapSectionRound(address, paddr, flags, w, ws, section, start / 4096, rest, i);
        address := Add64(address, 4096);
        i := i + 1;
      }
      SectionEnds(w, hhdm, pm, root, ws, section, start / 4096, rest, i);
    }

    /** The last loop of `vmm_init`: each page below `end` at its own address and in the direct map. */
    method MapDirectLoop(end: U64, ghost n: nat, ghost ws: seq<PageWrite>, ghost rest: nat)
      requires end == 4096 * n && n <= FOUR_GIB_PAGES && hhdm + 0x1_0000_0000 <= TWO64
      requires BootState(ws) && Cost(0, n) + Cost(hhdm / 4096, n) + rest <= |pmm.Contents()|
      modifies this`mem, this`level, pmm
      ensures BootState(ws + Direct(hhdm, n)) && rest <= |pmm.Contents()|
    {
      ghost var w, d, root := World(), Direct(hhdm, n), Root(kernelPagemap);
      var address: U64 := 0;
      ghost var i: nat := 0;
      while address < end
        invariant i <= n && address == 4096 * i && Valid()
        invariant World() == MapAll(w, root, d[..2 * i])
        decreases end - address
      {
        MapBothPages(address, w, ws, n, rest, i);
        address := Add64(address, 4096);
        i := i + 1;
      }
      assert d[..2 * i] == d;
      DirectUses(w, hhdm, VirtualToPhysical(kernelPagemap, hhdm), root, ws, n, rest);
    }

    /** That loop over the first 4 GiB. */
    method MapDirect(ghost ws: seq<PageWrite>, ghost rest: nat)
      requires hhdm + 0x1_0000_0000 <= TWO64 && BootState(ws)
      requires Cost(0, FOUR_GIB_PAGES) + Cost(hhdm / 4096, FOUR_GIB_PAGES) + rest <= |pmm.Contents()|
      modifies this`mem, this`level, pmm
      ensures BootState(ws + Direct(hhdm, FOUR_GIB_PAGES)) && rest <= |pmm.Contents()|
    {
      MapDirectLoop(0x1_0000_0000, FOUR_GIB_PAGES, ws, rest);
    }

    /** The body of the last loop. */
    method MapBothPages(address: U64, ghost w: PageTable.World, ghost ws: seq<PageWrite>, ghost n: nat,
                        ghost rest: nat, ghost i: nat)
      requires Valid() && VirtualToPhysical(kernelPagemap, hhdm) in spaces
      requires address == 4096 * i && i < n <= FOUR_GIB_PAGES && hhdm + 0x1_0000_0000 <= TWO64
      requires DirectReady(w, hhdm, VirtualToPhysical(kernelPagemap, hhdm), Root(kernelPagemap), ws, n, rest)
      requires World() == MapAll(w, Root(kernelPagemap), Direct(hhdm, n)[..2 * i])
      modifies this`mem, this`level, pmm
      ensures Valid() && World() == MapAll(w, Root(kernelPagemap), Direct(hhdm, n)[..2 * (i + 1)])
    {
      IdentityWriteAt(hhdm, n, i, address);
      MapDirectPage(address, address, w, ws, n, rest, 2 * i);
      DirectWriteAt(hhdm, n, i, address);
      MapDirectPage(PhysicalToVirtual(address, hhdm), address, w, ws, n, rest, 2 * i + 1);
    }

    /** Write k of the last loop. */
    method MapDirectPage(vaddr: U64, address: U64, ghost w: PageTable.World, ghost ws: seq<PageWrite>,
                         ghost n: nat, ghost rest: nat, ghost k: nat)
      requires Valid() && VirtualToPhysical(kernelPagemap, hhdm) in spaces
      requires DirectReady(w, hhdm, VirtualToPhysical(kernelPagemap, hhdm), Root(kernelPagemap), ws, n, rest)
      requires k < 2 * n && Direct(hhdm, n)[k] == PageWrite(vaddr / 4096, Or64(address, 3))
      requires World() == MapAll(w, Root(kernelPagemap), Direct(hhdm, n)[..k])
      modifies this`mem, this`level, pmm
      ensures Valid() && World() == MapAll(w, Root(kernelPagemap), Direct(hhdm, n)[..k + 1])
    {
      ghost var pm, root := VirtualToPhysical(kernelPagemap, hhdm), Root(kernelPagemap);
      DirectPrefix(w, hhdm, pm, root, ws, Direct(hhdm, n), n, rest, k);
      BootPage(vaddr, address, 3, w, Direct(hhdm, n), k);
    }

    /**
      `vmm_init`, from the linker's section bounds. Every page written at boot is found afterwards
      as the last write to it left it, and the kernel's space is the one loaded.
      */
    method Init(textStart: U64, textEnd: U64, rodataStart: U64, rodataEnd: U64, dataStart: U64, dataEnd: U64,
                virtBase: U64, physBase: U64, ghost l: Image)
      requires Valid() && Forest(World()) && level == map[] && spaces == map[]
      requires hhdm + 0x1_0000_0000 <= TWO64 && hhdm > 0
      requires Bounds(textStart, textEnd) && Bounds(rodataStart, rodataEnd) && Bounds(dataStart, dataEnd)
      requires l == Image(AlignDown(textStart), PageCount(textStart, textEnd),
                           AlignDown(rodataStart), PageCount(rodataStart, rodataEnd),
                           AlignDown(dataStart), PageCount(dataStart, dataEnd), virtBase, physBase, hhdm)
      requires 3 + l.Budget() <= |pmm.Contents()|
      modifies this, pmm
      ensures BootState(l.Writes()) && |old(pmm.Contents())| <= |pmm.Contents()| + 3 + l.Budget()
      ensures currentPagemap == if kernelPagemap == 0 then old(currentPagemap) else kernelPagemap
      ensures DirectMap(World(), hhdm) ==>
        kernelPagemap != 0 && Kernel(World(), hhdm, VirtualToPhysical(kernelPagemap, hhdm))
    {
      ghost var rest := |pmm.Contents()| - 3 - l.Budget();
      CreateKernelPagemap();
      MapSections(AlignDown(textStart), AlignUp(textEnd), AlignDown(rodataStart), AlignUp(rodataEnd),
                  AlignDown(dataStart), AlignUp(dataEnd), virtBase, physBase, l, rest);
      MapDirect(l.Text() + l.Rodata() + l.Data(), rest);
      KernelIsMapped(World(), hhdm, kernelPagemap);
      LoadPagemap(kernelPagemap);
    }

    method MapSections(textStart: U64, textEnd: U64, rodataStart: U64, rodataEnd: U64, dataStart: U64, dataEnd: U64,
                       virtBase: U64, physBase: U64, ghost l: Image, ghost rest: nat)
      requires BootState([]) && l.Budget() + rest <= |pmm.Contents()|
      requires l.text == textStart && l.rodata == rodataStart && l.data == dataStart
      requires l.virtBase == virtBase && l.physBase == physBase && l.hhdm == hhdm
      requires textStart % 4096 == 0 && rodataStart % 4096 == 0 && dataStart % 4096 == 0
      requires textEnd == textStart + 4096 * l.textPages && rodataEnd == rodataStart + 4096 * l.rodataPages
      requires dataEnd == dataStart + 4096 * l.dataPages
      modifies this`mem, this`level, pmm
      ensures BootState(l.Text() + l.Rodata() + l.Data())
      ensures Cost(0, FOUR_GIB_PAGES) + Cost(hhdm / 4096, FOUR_GIB_PAGES) + rest <= |pmm.Contents()|
    {
      ghost var last := Cost(0, FOUR_GIB_PAGES) + Cost(hhdm / 4096, FOUR_GIB_PAGES) + rest;
      ghost var data := Cost(dataStart / 4096, l.dataPages) + last;
      MapSection(textStart, textEnd, virtBase, physBase, 1, l.textPages, [],
                 Cost(rodataStart / 4096, l.rodataPages) + data);
      assert [] + l.Text() == l.Text();
      MapSection(rodataStart, rodataEnd, virtBase, physBase, 0x8000_0000_0000_0001, l.rodataPages, l.Text(), data);
      MapSection(dataStart, dataEnd, virtBase, physBase, 0x8000_0000_0000_0003, l.dataPages,
                 l.Text() + l.Rodata(), last);
    }

    method LoadPagemap(pm: U64)
      modifies this`currentPagemap
      ensures currentPagemap == if pm == 0 then old(currentPagemap) else pm
    {
      if pm == 0 {
        return;
      }
      currentPagemap := pm;
    }
  }

  /** `ALIGN_DOWN(x, PAGE_SIZE)` and `ALIGN_UP(x, PAGE_SIZE)` (kernel/src/mm/pmm.h). */
  function AlignDown(x: U64): (r: U64)
    ensures r % 4096 == 0 && r <= x < r + 4096
  {
    x / 4096 * 4096
  }

  function AlignUp(x: U64): (r: U64)
    requires x + 4096 <= TWO64
    ensures r % 4096 == 0 && x <= r < x + 4096
  {
    (x + (4096 - 1)) / 4096 * 4096
  }

  /** A section that starts before it ends, and does not reach the last page of the address space. */
  ghost predicate Bounds(start: U64, end: U64) {
    start <= end && end + 4096 <= TWO64
  }

  ghost function PageCount(start: U64, end: U64): (n: nat)
    requires Bounds(start, end)
    ensures AlignUp(end) == AlignDown(start) + 4096 * n
  {
    (AlignUp(end) - AlignDown(start)) / 4096
  }

  /** The frames on top of the stack are memory and differ from each other. */
  lemma {:induction false} FreeAreDistinct(w: PageTable.World)
    requires Forest(w)
    ensures var a, b, c := TopFree(w.free), TopFree(PopFree(w.free)), TopFree(PopFree(PopFree(w.free)));
      && (|w.free| > 0 ==> a in w.free && a in w.mem)
      && (|w.free| > 1 ==> b in w.free && b in w.mem && a != b)
      && (|w.free| > 2 ==> c in w.free && c in w.mem && a != c && b != c)
  {
  }

  /**
    The frames of a new address space's structure and of the kernel's are not frame 0, unless three frames
    are free or the direct map has no offset.
    */
  ghost predicate OutsideZero(w: PageTable.World, hhdm: U64, kpm: U64) {
    |w.free| >= 3 || hhdm == 0 || (TopFree(w.free) != 0 && kpm != 0)
  }

  /** The allocations leave the kernel's `pagemap` structure alone, and the new one complete. */
  lemma {:induction false} StructuresKeep(w: PageTable.World, hhdm: U64, kpm: U64)
    requires Forest(w) && kpm in w.spaces && OutsideZero(w, hhdm, kpm)
    requires NewStructures(w, hhdm).1 != 0
    ensures var w' := NewStructures(w, hhdm).0;
      var pm, top := TopFree(w.free), TopFree(PopFree(w.free));
      && kpm in w'.mem && w'.mem[kpm] == w.mem[kpm] && w.spaces[kpm] in w'.mem
      && NewStructures(w, hhdm).1 == PhysicalToVirtual(pm, hhdm)
      && pm in w'.mem && w'.mem[pm][0] == PhysicalToVirtual(top, hhdm)
      && top in w'.mem
  {
    FreeAreDistinct(w);
  }

  /** The kernel's address space as `vmm_init` first makes it shows nothing. */
  lemma {:induction false} FirstSpace(w: PageTable.World, w': PageTable.World, hhdm: U64, pm: U64, top: U64)
    requires Forest(w) && w.level == map[] && w.spaces == map[] && |w.free| >= 3
    requires pm == w.free[|w.free| - 1] && top == w.free[|w.free| - 2] && w'.free == w.free[..|w.free| - 3]
    requires w'.level == map[top := 4] && w'.spaces == map[pm := top] && w'.mem.Keys == w.mem.Keys
    requires pm in w'.mem && top in w'.mem
    requires w'.mem[top] == ZeroTable() && w'.mem[pm][0] == PhysicalToVirtual(top, hhdm)
    ensures Booting(w', hhdm, pm, top, [])
  {
    forall g | g in w'.free ensures g in w.free && g != pm && g != top {
      var i :| 0 <= i < |w'.free| && w'.free[i] == g;
      assert w.free[i] == g;
    }
    forall q: nat ensures Look(w'.mem, top, 4, q) == 0 {
      ZeroLook(w'.mem, top, 4, q);
    }
  }

  lemma {:induction false} ShiftByNine(vaddr: U64)
    ensures vaddr / 0x20_0000 == vaddr / 0x1000 / 512
    ensures vaddr / 0x4000_0000 == vaddr / 0x20_0000 / 512
    ensures vaddr / 0x80_0000_0000 == vaddr / 0x4000_0000 / 512
  {
  }

  /** The indexes `vmm_map` cuts out of an address are the slots of its page number. */
  lemma {:induction false} IndexIsSlot(vaddr: U64)
    ensures Index(vaddr, 12) == Slot(vaddr / 4096, 1) && Index(vaddr, 21) == Slot(vaddr / 4096, 2)
    ensures Index(vaddr, 30) == Slot(vaddr / 4096, 3) && Index(vaddr, 39) == Slot(vaddr / 4096, 4)
  {
    ShiftByNine(vaddr);
    SlotQuotients(vaddr / 4096);
  }

  /** The tables the walk goes through exist, even when frames run out. */
  lemma {:induction false} WalkTables(w: PageTable.World, root: U64, p: nat)
    requires Forest(w) && root in w.level && w.level[root] == 4
    ensures var (w1, c3) := NextLevel(w, root, Slot(p, 4));
      var (w2, c2) := NextLevel(w1, c3, Slot(p, 3));
      && root in w.mem && c3 in w1.mem && c2 in w2.mem
      && Walk(w, root, 4, p) == NextLevel(w2, c2, Slot(p, 2))
      && NextLevel(w2, c2, Slot(p, 2)).1 in NextLevel(w2, c2, Slot(p, 2)).0.mem
  {
    var (w1, c3) := NextLevel(w, root, Slot(p, 4));
    var (w2, c2) := NextLevel(w1, c3, Slot(p, 3));
    ForestReady(w, root);
    StepWalkable(w, root, 4, Slot(p, 4));
    StepWalkable(w1, c3, 3, Slot(p, 3));
    StepWalkable(w2, c2, 2, Slot(p, 2));
    WalkInThree(w, root, p);
  }

  lemma {:induction false} WalkInThree(w: PageTable.World, root: U64, p: nat)
    ensures var (w1, c3) := NextLevel(w, root, Slot(p, 4));
      var (w2, c2) := NextLevel(w1, c3, Slot(p, 3));
      Walk(w, root, 4, p) == NextLevel(w2, c2, Slot(p, 2))
  {
    var (w1, c3) := NextLevel(w, root, Slot(p, 4));
    var (w2, c2) := NextLevel(w1, c3, Slot(p, 3));
    var (w3, c1) := NextLevel(w2, c2, Slot(p, 2));
    assert Walk(w3, c1, 1, p) == (w3, c1);
    assert Walk(w2, c2, 2, p) == (w3, c1);
    assert Walk(w1, c3, 3, p) == (w3, c1);
  }

  /** The kernel's space as `vmm_init` leaves it is one that runs of calls can start from. */
  lemma {:induction false} KernelIsMapped(w: PageTable.World, hhdm: U64, kernelPagemap: U64)
    requires Forest(w) && Structures(w, hhdm) && VirtualToPhysical(kernelPagemap, hhdm) in w.spaces
    ensures DirectMap(w, hhdm) ==> kernelPagemap != 0 && Kernel(w, hhdm, VirtualToPhysical(kernelPagemap, hhdm))
  {
    if kernelPagemap == 0 && hhdm > 0 {
      assert VirtualToPhysical(0, hhdm) + hhdm == TWO64;
    }
  }
}
