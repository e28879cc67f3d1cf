/**
  The four-level page tables of kernel/src/mm/vmm.c as values: physical memory, the stack of free
  page frames, and (for the proofs) the level of every frame that serves as a table.
  */
module PageTable {
  import opened Words
  import opened PageStack

  type Table = t: seq<U64> | |t| == 512 witness seq(512, i => 0)

  type Memory = map<U64, Table>

  function ZeroTable(): (t: Table)
    ensures forall e | 0 <= e < 512 :: t[e] == 0
  {
    seq(512, i => 0)
  }

  /**
    `level` gives the level (4 for a top-level table, 1 for a leaf table) of each frame in use as a
    table, `spaces` the top-level table of each `pagemap` structure.
    */
  datatype World = World(mem: Memory, free: seq<U64>, level: map<U64, int>, spaces: map<U64, U64>)

  ghost function Word(mem: Memory, t: U64, e: int): U64 {
    if t in mem && 0 <= e < 512 then mem[t][e] else 0
  }

  ghost function Store(mem: Memory, t: U64, e: int, value: U64): Memory {
    if t in mem && 0 <= e < 512 then mem[t := mem[t][e := value]] else mem
  }

  /** The index used at level k for page number p. */
  ghost function Slot(p: nat, k: int): (r: nat)
    ensures r < 512
    decreases k, p
  {
    if k <= 1 then p % 512 else Slot(p / 512, k - 1)
  }

  /** What the processor finds for page p below table t of level k: the leaf word, or 0. */
  ghost function Look(mem: Memory, t: U64, k: int, p: nat): U64
    decreases k, p
  {
    var word := Word(mem, t, Slot(p, k));
    if k <= 1 then word
    else if Present(word) then Look(mem, PteAddr(word), k - 1, p)
    else 0
  }

  // ------------------------------------------------------------------------------------------
  // Specification of the walk

  /** `__vmm_get_next_lvl`: follow entry e of table t, linking a cleared frame first if it is absent. */
  ghost function NextLevel(w: World, t: U64, e: nat): (World, U64) {
    var word := Word(w.mem, t, e);
    if Present(word) then (w, PteAddr(word))
    else
      var f := TopFree(w.free);
      var lower := if t in w.level then w.level[t] - 1 else 0;
      (w.(mem := Store(w.mem[f := ZeroTable()], t, e, TableEntry(f)),
          free := PopFree(w.free),
          level := w.level[f := lower]),
       f)
  }

  /** The walk down to the leaf table for page p. */
  ghost function Walk(w: World, t: U64, k: int, p: nat): (World, U64)
    decreases k, p
  {
    if k <= 1 then (w, t)
    else
      var (w1, c) := NextLevel(w, t, Slot(p, k));
      Walk(w1, c, k - 1, p)
  }

  /** `vmm_map` and `vmm_unmap`: walk, then write one leaf word. */
  ghost function SetLeaf(w: World, root: U64, p: nat, value: U64): World {
    var (w1, t) := Walk(w, root, 4, p);
    w1.(mem := Store(w1.mem, t, Slot(p, 1), value))
  }

  /** How many tables are missing on the path to page p. */
  ghost function Missing(mem: Memory, t: U64, k: int, p: nat): nat
    decreases k, p
  {
    if k <= 1 then 0
    else
      var word := Word(mem, t, Slot(p, k));
      if Present(word) then Missing(mem, PteAddr(word), k - 1, p) else k - 1
  }

  lemma {:induction false} MissingAtMost(mem: Memory, t: U64, k: int, p: nat)
    requires k >= 1
    ensures Missing(mem, t, k, p) <= k - 1
    decreases k
  {
    if k > 1 { MissingAtMost(mem, PteAddr(Word(mem, t, Slot(p, k))), k - 1, p); }
  }

  // ------------------------------------------------------------------------------------------
  // The table forest

  ghost predicate Link(w: World, t: U64, e: int, c: U64) {
    && t in w.level && w.level[t] >= 2 && 0 <= e < 512
    && Present(Word(w.mem, t, e)) && PteAddr(Word(w.mem, t, e)) == c
  }

  ghost predicate FreeFrames(w: World) {
    && (forall f <- w.free :: Frame(f) && f in w.mem && f !in w.level && f !in w.spaces)
    && (forall i, j | 0 <= i < j < |w.free| :: w.free[i] != w.free[j])
  }

  ghost predicate Tables(w: World) {
    forall t <- w.level :: Frame(t) && t in w.mem && 1 <= w.level[t] <= 4
  }

  ghost predicate LinksDown(w: World) {
    forall t, e, c | Link(w, t, e, c) :: c in w.level && w.level[c] == w.level[t] - 1
  }

  /** A table hangs from one slot only, except that address spaces may share an upper-half slot. */
  ghost predicate OneParent(w: World) {
    forall t, e, t', e', c | Link(w, t, e, c) && Link(w, t', e', c) ::
      e == e' && (t == t' || (w.level[t] == 4 && e >= 256))
  }

  ghost predicate Spaces(w: World) {
    && (forall pm <- w.spaces :: Frame(pm) && pm in w.mem && pm !in w.level)
    && (forall pm <- w.spaces :: w.spaces[pm] in w.level && w.level[w.spaces[pm]] == 4)
    && (forall pm, pm' | pm in w.spaces && pm' in w.spaces && w.spaces[pm] == w.spaces[pm'] :: pm == pm')
  }

  ghost predicate Forest(w: World) {
    FreeFrames(w) && Tables(w) && LinksDown(w) && OneParent(w) && Spaces(w)
  }

  /** Nothing already linked is relinked or dropped. */
  ghost predicate Extends(w: World, w': World) {
    && (forall pm <- w.spaces :: pm in w'.spaces && w'.spaces[pm] == w.spaces[pm])
    && (forall pm <- w.spaces | pm in w.mem :: pm in w'.mem && w'.mem[pm] == w.mem[pm])
    && (forall t <- w.level :: t in w'.level && w'.level[t] == w.level[t])
    && (forall t, e, c | Link(w, t, e, c) :: Word(w'.mem, t, e) == Word(w.mem, t, e))
  }

  /** Every lookup from every table gives the same word. */
  ghost predicate SameLookups(w: World, w': World) {
    forall t, p: nat | t in w.level :: Look(w'.mem, t, w.level[t], p) == Look(w.mem, t, w.level[t], p)
  }

  lemma {:induction false} ZeroLook(mem: Memory, t: U64, k: int, p: nat)
    requires t in mem && mem[t] == ZeroTable()
    ensures Look(mem, t, k, p) == 0
  {
  }

  lemma {:induction false} NewLink(w: World, t: U64, e: nat, t': U64, e': int, c: U64)
    requires Forest(w) && t in w.level && w.level[t] >= 2 && e < 512
    requires !Present(Word(w.mem, t, e)) && w.free != []
    ensures var w' := NextLevel(w, t, e).0;
      Link(w', t', e', c) <==> Link(w, t', e', c) || (t' == t && e' == e && c == TopFree(w.free))
  {
    var f := TopFree(w.free);
    assert f in w.free;
    TableEntryReadsBack(f);
  }

  lemma {:induction false} NextLevelForest(w: World, t: U64, e: nat)
    requires Forest(w) && t in w.level && w.level[t] >= 2 && e < 512
    requires Present(Word(w.mem, t, e)) || w.free != []
    ensures var (w', c) := NextLevel(w, t, e);
      Forest(w') && Extends(w, w') && Link(w', t, e, c)
  {
    if !Present(Word(w.mem, t, e)) {
      var (w', f) := NextLevel(w, t, e);
      assert f in w.free;
      forall t', e', c ensures Link(w', t', e', c) <==> Link(w, t', e', c) || (t' == t && e' == e && c == f) {
        NewLink(w, t, e, t', e', c);
      }
      assert Link(w', t, e, f);
      assert FreeFrames(w') by {
        forall g | g in w'.free ensures g != f && g in w.free {
          var i :| 0 <= i < |w'.free| && w'.free[i] == g;
          assert w.free[i] == g;
        }
      }
      assert Tables(w');
      assert LinksDown(w');
      assert OneParent(w');
      assert Spaces(w');
      assert Extends(w, w');
    }
  }

  lemma {:induction false} LookKept(w: World, t: U64, e: nat, u: U64, p: nat)
    requires Forest(w) && t in w.level && w.level[t] >= 2 && e < 512
    requires !Present(Word(w.mem, t, e)) && w.free != []
    requires u in w.level
    ensures Look(NextLevel(w, t, e).0.mem, u, w.level[u], p) == Look(w.mem, u, w.level[u], p)
    decreases w.level[u]
  {
    var (w', f) := NextLevel(w, t, e);
    assert f in w.free;
    TableEntryReadsBack(f);
    var k := w.level[u];
    var i := Slot(p, k);
    if u == t && i == e {
      ZeroLook(w'.mem, f, k - 1, p);
    } else {
      assert Word(w'.mem, u, i) == Word(w.mem, u, i);
      if k > 1 && Present(Word(w.mem, u, i)) {
        assert Link(w, u, i, PteAddr(Word(w.mem, u, i)));
        LookKept(w, t, e, PteAddr(Word(w.mem, u, i)), p);
      }
    }
  }

  lemma {:induction false} NextLevelLooks(w: World, t: U64, e: nat)
    requires Forest(w) && t in w.level && w.level[t] >= 2 && e < 512
    requires Present(Word(w.mem, t, e)) || w.free != []
    ensures SameLookups(w, NextLevel(w, t, e).0)
  {
    if !Present(Word(w.mem, t, e)) {
      forall u, p: nat | u in w.level
        ensures Look(NextLevel(w, t, e).0.mem, u, w.level[u], p) == Look(w.mem, u, w.level[u], p)
      {
        LookKept(w, t, e, u, p);
      }
    }
  }

  /** The leaf table that page p is looked up in, or -1 when the path is cut short. */
  ghost function Leaf(mem: Memory, t: U64, k: int, p: nat): int
    decreases k, p
  {
    if k <= 1 then t
    else
      var word := Word(mem, t, Slot(p, k));
      if Present(word) then Leaf(mem, PteAddr(word), k - 1, p) else -1
  }

  /** What a walk guarantees. */
  ghost predicate Walked(w: World, t: U64, k: int, p: nat, w': World, leaf: U64) {
    && Forest(w') && Extends(w, w') && SameLookups(w, w')
    && w'.spaces == w.spaces && w'.mem.Keys == w.mem.Keys
    && leaf in w'.level && w'.level[leaf] == 1
    && t in w'.level && Leaf(w'.mem, t, k, p) == leaf && Missing(w'.mem, t, k, p) == 0
    && |w'.free| + Missing(w.mem, t, k, p) == |w.free|
    && |w'.level| == |w.level| + Missing(w.mem, t, k, p)
  }

  lemma {:induction false} ExtendsTransitive(w0: World, w1: World, w2: World)
    requires Extends(w0, w1) && Extends(w1, w2)
    ensures Extends(w0, w2)
  {
    forall t, e, c | Link(w0, t, e, c) ensures Word(w2.mem, t, e) == Word(w0.mem, t, e) {
      assert Link(w1, t, e, c);
    }
  }

  lemma {:induction false} ZeroMissing(mem: Memory, t: U64, k: int, p: nat)
    requires t in mem && mem[t] == ZeroTable() && k >= 1
    ensures Missing(mem, t, k, p) == k - 1
  {
  }

  lemma {:induction false} NextLevelCounts(w: World, t: U64, e: nat)
    requires Forest(w) && t in w.level && w.level[t] >= 2 && e < 512
    requires !Present(Word(w.mem, t, e)) && w.free != []
    ensures var (w', f) := NextLevel(w, t, e);
      && |w'.free| + 1 == |w.free| && |w'.level| == |w.level| + 1
      && f in w'.mem && w'.mem[f] == ZeroTable() && w'.mem.Keys == w.mem.Keys
  {
    var f := TopFree(w.free);
    assert f in w.free;
    assert NextLevel(w, t, e).0.level.Keys == w.level.Keys + {f};
  }

  /** What one step of the walk guarantees. */
  ghost predicate Stepped(w: World, t: U64, e: nat, w1: World, c: U64) {
    && Forest(w1) && Extends(w, w1) && SameLookups(w, w1)
    && w1.spaces == w.spaces && w1.mem.Keys == w.mem.Keys && Link(w1, t, e, c)
    && (Present(Word(w.mem, t, e)) ==> w1 == w)
    && (!Present(Word(w.mem, t, e)) ==>
          c in w1.mem && w1.mem[c] == ZeroTable() && |w1.free| + 1 == |w.free| && |w1.level| == |w.level| + 1)
  }

  lemma {:induction false} NextLevelGood(w: World, t: U64, e: nat)
    requires Forest(w) && t in w.level && w.level[t] >= 2 && e < 512
    requires Present(Word(w.mem, t, e)) || w.free != []
    ensures Stepped(w, t, e, NextLevel(w, t, e).0, NextLevel(w, t, e).1)
  {
    NextLevelForest(w, t, e);
    NextLevelLooks(w, t, e);
    if !Present(Word(w.mem, t, e)) {
      NextLevelCounts(w, t, e);
    }
  }

  lemma {:induction false} StepMissing(w: World, t: U64, k: int, p: nat, w1: World, c: U64)
    requires Stepped(w, t, Slot(p, k), w1, c) && k > 1
    ensures Missing(w.mem, t, k, p) == |w.free| - |w1.free| + Missing(w1.mem, c, k - 1, p)
  {
    if !Present(Word(w.mem, t, Slot(p, k))) {
      ZeroMissing(w1.mem, c, k - 1, p);
    }
  }

  lemma {:induction false} StepThenWalk(w: World, t: U64, k: int, p: nat, w1: World, c: U64, w2: World, leaf: U64)
    requires t in w.level && w.level[t] == k && k > 1
    requires Stepped(w, t, Slot(p, k), w1, c) && Walked(w1, c, k - 1, p, w2, leaf)
    requires Missing(w.mem, t, k, p) == |w.free| - |w1.free| + Missing(w1.mem, c, k - 1, p)
    ensures Walked(w, t, k, p, w2, leaf)
  {
    ExtendsTransitive(w, w1, w2);
    assert Word(w2.mem, t, Slot(p, k)) == Word(w1.mem, t, Slot(p, k));
  }

  lemma {:induction false} WalkGood(w: World, t: U64, k: int, p: nat)
    requires Forest(w) && t in w.level && w.level[t] == k && k >= 1
    requires Missing(w.mem, t, k, p) <= |w.free|
    ensures Walked(w, t, k, p, Walk(w, t, k, p).0, Walk(w, t, k, p).1)
    decreases k
  {
    if k > 1 {
      var (w1, c) := NextLevel(w, t, Slot(p, k));
      NextLevelGood(w, t, Slot(p, k));
      StepMissing(w, t, k, p, w1, c);
      WalkGood(w1, c, k - 1, p);
      StepThenWalk(w, t, k, p, w1, c, Walk(w1, c, k - 1, p).0, Walk(w1, c, k - 1, p).1);
    }
  }

  /** A step of the walk is good exactly when it finds its table or a free frame for it. */
  lemma {:induction false} NextLevelGoodIff(w: World, t: U64, e: nat)
    requires Forest(w) && t in w.level && w.level[t] >= 2 && e < 512
    ensures Stepped(w, t, e, NextLevel(w, t, e).0, NextLevel(w, t, e).1) <==> Present(Word(w.mem, t, e)) || w.free != []
  {
    if Present(Word(w.mem, t, e)) || w.free != [] {
      NextLevelGood(w, t, e);
    }
  }

  /** A walk is good exactly when the tables it is missing are free. */
  lemma {:induction false} WalkGoodIff(w: World, t: U64, k: int, p: nat)
    requires Forest(w) && t in w.level && w.level[t] == k && k >= 1
    ensures Walked(w, t, k, p, Walk(w, t, k, p).0, Walk(w, t, k, p).1) <==> Missing(w.mem, t, k, p) <= |w.free|
  {
    if Missing(w.mem, t, k, p) <= |w.free| {
      WalkGood(w, t, k, p);
    }
  }

  // ------------------------------------------------------------------------------------------
  // Every walk stays in memory, even when frames run out

  /** Whatever entries are followed from table t over k levels, the tables are in memory. */
  ghost predicate Ready(mem: Memory, t: U64, k: int)
    decreases k
  {
    t in mem && (k > 1 ==> forall e | 0 <= e < 512 && Present(mem[t][e]) :: Ready(mem, PteAddr(mem[t][e]), k - 1))
  }

  lemma {:induction false} ForestReady(w: World, t: U64)
    requires Forest(w) && t in w.level
    ensures Ready(w.mem, t, w.level[t])
    decreases w.level[t]
  {
    if w.level[t] > 1 {
      forall e | 0 <= e < 512 && Present(w.mem[t][e]) ensures Ready(w.mem, PteAddr(w.mem[t][e]), w.level[t] - 1) {
        assert Link(w, t, e, PteAddr(Word(w.mem, t, e)));
        ForestReady(w, PteAddr(w.mem[t][e]));
      }
    }
  }

  /** A table whose only entry leads back to it. */
  lemma {:induction false} LoopReady(mem: Memory, t: U64, e: nat, k: int)
    requires t in mem && e < 512 && mem[t] == ZeroTable()[e := TableEntry(t)] && Frame(t)
    ensures Ready(mem, t, k)
    decreases k
  {
    TableEntryReadsBack(t);
    if k > 1 {
      LoopReady(mem, t, e, k - 1);
    }
  }

  /** The walk is in the forest, or no frame is free and everything it can reach is in memory. */
  ghost predicate Walkable(w: World, t: U64, k: int) {
    Ready(w.mem, t, k) && ((Forest(w) && t in w.level && w.level[t] == k) || w.free == [])
  }

  lemma {:induction false} StepWalkable(w: World, t: U64, k: int, e: nat)
    requires Walkable(w, t, k) && k > 1 && e < 512
    ensures Walkable(NextLevel(w, t, e).0, NextLevel(w, t, e).1, k - 1)
  {
    if w.free == [] {
      StepWithoutFrames(w, t, k, e);
    } else {
      NextLevelForest(w, t, e);
      ForestReady(NextLevel(w, t, e).0, NextLevel(w, t, e).1);
    }
  }

  lemma {:induction false} StepWithoutFrames(w: World, t: U64, k: int, e: nat)
    requires Ready(w.mem, t, k) && w.free == [] && k > 1 && e < 512
    ensures Ready(NextLevel(w, t, e).0.mem, NextLevel(w, t, e).1, k - 1) && NextLevel(w, t, e).0.free == []
  {
    var (w', c) := NextLevel(w, t, e);
    if Present(Word(w.mem, t, e)) {
    } else if t == 0 {
      LoopReady(w'.mem, 0, e, k - 1);
    } else {
      assert w'.mem[0] == ZeroTable();
    }
  }

  // ------------------------------------------------------------------------------------------
  // Writing one leaf word

  /** Pages with the same four table indexes. */
  ghost predicate SamePage(p: nat, q: nat) {
    Slot(p, 1) == Slot(q, 1) && Slot(p, 2) == Slot(q, 2) && Slot(p, 3) == Slot(q, 3) && Slot(p, 4) == Slot(q, 4)
  }

  /** Page numbers have 36 bits, addresses 48. */
  const PAGES: int := 0x10_0000_0000

  ghost predicate SamePageNumber(p: nat, q: nat) {
    p % PAGES == q % PAGES
  }

  /** The table indexes identify the 36-bit page number. */
  lemma {:induction false} SamePageIsPageNumber(p: nat, q: nat)
    ensures SamePage(p, q) <==> SamePageNumber(p, q)
  {
    Digits(p);
    Digits(q);
    if SamePageNumber(p, q) {
      RadixUnique(Slot(p, 1), Slot(p, 2), Slot(p, 3), Slot(p, 4), Slot(q, 1), Slot(q, 2), Slot(q, 3), Slot(q, 4));
    }
  }

  lemma {:induction false} RadixUnique(a1: nat, a2: nat, a3: nat, a4: nat, b1: nat, b2: nat, b3: nat, b4: nat)
    requires a1 < 512 && a2 < 512 && a3 < 512 && b1 < 512 && b2 < 512 && b3 < 512
    requires a1 + 512 * (a2 + 512 * (a3 + 512 * a4)) == b1 + 512 * (b2 + 512 * (b3 + 512 * b4))
    ensures a1 == b1 && a2 == b2 && a3 == b3 && a4 == b4
  {
  }

  lemma {:induction false} LastOfFour(p: nat)
    ensures p % PAGES == p % 512 + 512 * (p / 512 % 0x800_0000)
  {
  }

  lemma {:induction false} LastOfThree(p: nat)
    ensures p % 0x800_0000 == p % 512 + 512 * (p / 512 % 0x4_0000)
  {
  }

  lemma {:induction false} LastOfTwo(p: nat)
    ensures p % 0x4_0000 == p % 512 + 512 * (p / 512 % 512)
  {
  }

  lemma {:induction false} Digits(p: nat)
    ensures p % PAGES ==
      Slot(p, 1) + 512 * (Slot(p, 2) + 512 * (Slot(p, 3) + 512 * Slot(p, 4)))
  {
    var a := p / 512;
    var b := a / 512;
    assert Slot(p, 3) == Slot(a, 2) == b % 512;
    assert Slot(p, 4) == Slot(a, 3) == Slot(b, 2) == b / 512 % 512;
    LastOfFour(p);
    LastOfThree(a);
    LastOfTwo(b);
  }

  ghost predicate Leads(w: World, u: U64, p: nat, leaf: U64) {
    u in w.level && Leaf(w.mem, u, w.level[u], p) == leaf && leaf in w.level
  }

  lemma {:induction false} LeafStoreLook(w: World, leaf: U64, i: nat, value: U64, u: U64, q: nat)
    requires Forest(w) && leaf in w.level && w.level[leaf] == 1 && u in w.level && i < 512
    ensures Look(Store(w.mem, leaf, i, value), u, w.level[u], q) ==
      if Leaf(w.mem, u, w.level[u], q) == leaf && Slot(q, 1) == i then value
      else Look(w.mem, u, w.level[u], q)
    decreases w.level[u]
  {
    var k := w.level[u];
    var word := Word(w.mem, u, Slot(q, k));
    if k > 1 && Present(word) {
      assert Link(w, u, Slot(q, k), PteAddr(word));
      LeafStoreLook(w, leaf, i, value, PteAddr(word), q);
    }
  }

  /** Below the top level a leaf table is reached along one path only. */
  lemma {:induction false} OnePath(w: World, u: U64, u': U64, p: nat, q: nat, leaf: U64)
    requires Forest(w) && Leads(w, u, p, leaf) && Leads(w, u', q, leaf)
    requires w.level[u] == w.level[u'] <= 3
    ensures u == u'
    ensures w.level[u] >= 2 ==> Slot(p, 2) == Slot(q, 2)
    ensures w.level[u] >= 3 ==> Slot(p, 3) == Slot(q, 3)
    decreases w.level[u]
  {
    var k := w.level[u];
    if k > 1 {
      var c, c' := PteAddr(Word(w.mem, u, Slot(p, k))), PteAddr(Word(w.mem, u', Slot(q, k)));
      assert Link(w, u, Slot(p, k), c) && Link(w, u', Slot(q, k), c');
      OnePath(w, c, c', p, q, leaf);
    }
  }

  /** Two address spaces with the same table behind top-level slot e. */
  ghost predicate Shares(w: World, r: U64, r': U64, e: nat) {
    r == r' || (Present(Word(w.mem, r', e)) && PteAddr(Word(w.mem, r', e)) == PteAddr(Word(w.mem, r, e)))
  }

  lemma {:induction false} LeafOfSlots(mem: Memory, t: U64, k: int, p: nat, q: nat)
    requires k <= 3
    requires k >= 2 ==> Slot(p, 2) == Slot(q, 2)
    requires k >= 3 ==> Slot(p, 3) == Slot(q, 3)
    ensures Leaf(mem, t, k, p) == Leaf(mem, t, k, q)
    decreases k
  {
    if k > 1 {
      LeafOfSlots(mem, PteAddr(Word(mem, t, Slot(p, k))), k - 1, p, q);
    }
  }

  /** From the top, the same leaf word means the same page through the same top-level table. */
  lemma {:induction false} SameLeafWord(w: World, r: U64, r': U64, p: nat, q: nat, leaf: U64)
    requires Forest(w) && Leads(w, r, p, leaf) && r' in w.level && w.level[r] == w.level[r'] == 4
    ensures Leaf(w.mem, r', 4, q) == leaf && Slot(q, 1) == Slot(p, 1)
        <==> SamePage(p, q) && Shares(w, r, r', Slot(p, 4))
  {
    var e, e' := Slot(p, 4), Slot(q, 4);
    var c, c' := PteAddr(Word(w.mem, r, e)), PteAddr(Word(w.mem, r', e'));
    assert Link(w, r, e, c);
    if Leaf(w.mem, r', 4, q) == leaf {
      assert Link(w, r', e', c');
      OnePath(w, c, c', p, q, leaf);
    }
    if SamePage(p, q) && Shares(w, r, r', e) {
      LeafOfSlots(w.mem, c, 3, p, q);
    }
  }

  lemma {:induction false} LeafStoreForest(w: World, leaf: U64, i: nat, value: U64)
    requires Forest(w) && leaf in w.level && w.level[leaf] == 1 && i < 512
    ensures var w' := w.(mem := Store(w.mem, leaf, i, value));
      Forest(w') && Extends(w, w')
  {
    var w' := w.(mem := Store(w.mem, leaf, i, value));
    forall t, e, c ensures Link(w', t, e, c) <==> Link(w, t, e, c) {
    }
  }

  /**
    The update of a flat map from page number to leaf word, seen from every address space: page p
    gets the value in the space written to and in those that share its top-level slot, and nothing
    else changes anywhere. The frames taken are exactly the tables that were missing.
    */
  ghost predicate FlatUpdate(w: World, r: U64, p: nat, value: U64, w': World) {
    && Forest(w') && Extends(w, w') && w'.spaces == w.spaces && w'.mem.Keys == w.mem.Keys
    && (forall r', q: nat | r' in w.level && w.level[r'] == 4 ::
         Look(w'.mem, r', 4, q) ==
           if SamePage(p, q) && Shares(w', r, r', Slot(p, 4)) then value else Look(w.mem, r', 4, q))
    && |w'.free| == |w.free| - Missing(w.mem, r, 4, p)
    && |w'.level| + |w'.free| == |w.level| + |w.free|
    && Missing(w'.mem, r, 4, p) == 0
  }

  /** `vmm_map` and `vmm_unmap` refine the flat update. */
  lemma {:induction false} SetLeafRefinesFlatUpdate(w: World, r: U64, p: nat, value: U64)
    requires Forest(w) && r in w.level && w.level[r] == 4
    requires Missing(w.mem, r, 4, p) <= |w.free|
    ensures FlatUpdate(w, r, p, value, SetLeaf(w, r, p, value))
  {
    WalkGood(w, r, 4, p);
    var (w1, leaf) := Walk(w, r, 4, p);
    LeafWriteIsFlat(w, r, p, w1, leaf, value);
  }

  /** They do so exactly when the tables the walk is missing are free. */
  lemma {:induction false} SetLeafIsFlatIff(w: World, r: U64, p: nat, value: U64)
    requires Forest(w) && r in w.level && w.level[r] == 4
    ensures FlatUpdate(w, r, p, value, SetLeaf(w, r, p, value)) <==> Missing(w.mem, r, 4, p) <= |w.free|
  {
    if Missing(w.mem, r, 4, p) <= |w.free| {
      SetLeafRefinesFlatUpdate(w, r, p, value);
    }
  }

  lemma {:induction false} LeafWriteIsFlat(w: World, r: U64, p: nat, w1: World, leaf: U64, value: U64)
    requires Walked(w, r, 4, p, w1, leaf) && r in w.level && w.level[r] == 4
    ensures FlatUpdate(w, r, p, value, w1.(mem := Store(w1.mem, leaf, Slot(p, 1), value)))
  {
    var w' := w1.(mem := Store(w1.mem, leaf, Slot(p, 1), value));
    LeafStoreForest(w1, leaf, Slot(p, 1), value);
    ExtendsTransitive(w, w1, w');
    forall r', q: nat | r' in w.level && w.level[r'] == 4
      ensures Look(w'.mem, r', 4, q) ==
        if SamePage(p, q) && Shares(w', r, r', Slot(p, 4)) then value else Look(w.mem, r', 4, q)
    {
      LeafWriteLook(w, r, p, w1, leaf, value, r', q);
    }
    MissingAfterStore(w1, leaf, Slot(p, 1), value, r, p);
  }

  lemma {:induction false} SetLeafLook(w: World, r: U64, p: nat, value: U64, r': U64, q: nat)
    requires Forest(w) && r in w.level && w.level[r] == 4 && r' in w.level && w.level[r'] == 4
    requires Missing(w.mem, r, 4, p) <= |w.free|
    ensures var w' := SetLeaf(w, r, p, value);
      Look(w'.mem, r', 4, q) ==
        if SamePage(p, q) && Shares(w', r, r', Slot(p, 4)) then value else Look(w.mem, r', 4, q)
  {
    WalkGood(w, r, 4, p);
    var (w1, leaf) := Walk(w, r, 4, p);
    LeafWriteLook(w, r, p, w1, leaf, value, r', q);
  }

  lemma {:induction false} LeafWriteLook(w: World, r: U64, p: nat, w1: World, leaf: U64, value: U64, r': U64, q: nat)
    requires Walked(w, r, 4, p, w1, leaf) && r in w.level && w.level[r] == 4 && r' in w.level && w.level[r'] == 4
    ensures var mem' := Store(w1.mem, leaf, Slot(p, 1), value);
      Look(mem', r', 4, q) ==
        if SamePage(p, q) && Shares(w1.(mem := mem'), r, r', Slot(p, 4)) then value else Look(w.mem, r', 4, q)
  {
    LeafStoreLook(w1, leaf, Slot(p, 1), value, r', q);
    SameLeafWord(w1, r, r', p, q, leaf);
    assert Look(w1.mem, r', w.level[r'], q) == Look(w.mem, r', w.level[r'], q);
  }

  lemma {:induction false} MissingAfterStore(w: World, leaf: U64, i: nat, value: U64, u: U64, p: nat)
    requires Forest(w) && leaf in w.level && w.level[leaf] == 1 && u in w.level && i < 512
    ensures Missing(Store(w.mem, leaf, i, value), u, w.level[u], p) == Missing(w.mem, u, w.level[u], p)
    decreases w.level[u]
  {
    var k := w.level[u];
    var word := Word(w.mem, u, Slot(p, k));
    if k > 1 && Present(word) {
      assert Link(w, u, Slot(p, k), PteAddr(word));
      MissingAfterStore(w, leaf, i, value, PteAddr(word), p);
    }
  }
}
