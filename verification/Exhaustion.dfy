/**
  Running out of page frames in the walks of kernel/src/mm/vmm.c: with a direct-map offset an empty
  stack goes unnoticed, and frame 0 is linked as a table.
  */
module Exhaustion {
  import opened Words
  import opened PageStack
  import opened PageTable
  import opened AddressSpaces

  /**
    With an offset an empty stack goes unnoticed: the walk links frame 0, and two walks that find it
    empty hang the same frame from two slots.
    */
  lemma {:induction false} ExhaustionBreaksForest(w: World, t: U64, e1: nat, e2: nat)
    requires Forest(w) && w.free == [] && t in w.level && w.level[t] == 3 && t != 0
    requires e1 < 512 && e2 < 512 && e1 != e2
    requires !Present(Word(w.mem, t, e1)) && !Present(Word(w.mem, t, e2))
    ensures var w1 := NextLevel(w, t, e1).0;
      var w2 := NextLevel(w1, t, e2).0;
      Link(w2, t, e1, 0) && Link(w2, t, e2, 0) && !Forest(w2)
  {
    TableEntryReadsBack(0);
    var w1 := NextLevel(w, t, e1).0;
    assert Word(w1.mem, t, e2) == Word(w.mem, t, e2);
    var w2 := NextLevel(w1, t, e2).0;
    assert Link(w2, t, e1, 0) && Link(w2, t, e2, 0);
  }

  /** A walk can come to table t. */
  ghost predicate Reached(w: World, t: U64) {
    t in w.level && (w.level[t] == 4 || exists u, i :: Link(w, u, i, t))
  }

  /** Frame 0 can be hung from slot e of table t without harm. */
  ghost predicate ZeroIsSpare(w: World, t: U64, e: nat) {
    && t != 0 && 0 !in w.spaces && (forall pm <- w.spaces :: w.spaces[pm] != 0)
    && forall u, i | Link(w, u, i, 0) ::
         i == e && e >= 256 && u in w.level && w.level[u] == 4 && t in w.level && w.level[t] == 4
  }

  /** Hanging frame 0 from table 0 itself: what led to table 0 no longer fits. */
  lemma {:induction false} ZeroHangsItself(w: World, e: nat)
    requires Forest(w) && w.free == [] && Reached(w, 0) && w.level[0] >= 2 && e < 512
    requires !Present(Word(w.mem, 0, e))
    ensures !Forest(NextLevel(w, 0, e).0)
  {
    TableEntryReadsBack(0);
    var w' := NextLevel(w, 0, e).0;
    if w.level[0] == 4 {
      assert Link(w', 0, e, 0);
    } else {
      var u, i :| Link(w, u, i, 0);
      assert Link(w', u, i, 0);
    }
  }

  /** Otherwise one link is new, and what frame 0 linked as a table is gone. */
  lemma {:induction false} ZeroLinks(w: World, t: U64, e: nat, u: U64, i: int, c: U64)
    requires Forest(w) && w.free == [] && t in w.level && w.level[t] >= 2 && e < 512 && t != 0
    requires !Present(Word(w.mem, t, e))
    ensures Link(NextLevel(w, t, e).0, u, i, c) <==> (u != 0 && Link(w, u, i, c)) || (u == t && i == e && c == 0)
  {
    TableEntryReadsBack(0);
  }

  /**
    A walk that finds an absent entry and an empty stack keeps the forest exactly when frame 0 is
    not yet part of it.
    */
  lemma {:induction false} EmptyStackForestIff(w: World, t: U64, e: nat)
    requires Forest(w) && w.free == [] && Reached(w, t) && w.level[t] >= 2 && e < 512
    requires !Present(Word(w.mem, t, e))
    ensures Forest(NextLevel(w, t, e).0) <==> ZeroIsSpare(w, t, e)
  {
    if t == 0 {
      ZeroHangsItself(w, e);
    } else {
      forall u, i, c
        ensures Link(NextLevel(w, t, e).0, u, i, c) <==> (u != 0 && Link(w, u, i, c)) || (u == t && i == e && c == 0)
      {
        ZeroLinks(w, t, e, u, i, c);
      }
      ZeroHangs(w, t, e, NextLevel(w, t, e).0);
    }
  }

  lemma {:induction false} ZeroHangs(w: World, t: U64, e: nat, w': World)
    requires Forest(w) && w.free == [] && t in w.level && w.level[t] >= 2 && e < 512 && t != 0
    requires w'.free == [] && w'.spaces == w.spaces && w'.level == w.level[0 := w.level[t] - 1]
    requires w'.mem.Keys == w.mem.Keys + {0} && !Present(Word(w.mem, t, e))
    requires forall u, i, c :: Link(w', u, i, c) <==> (u != 0 && Link(w, u, i, c)) || (u == t && i == e && c == 0)
    ensures Forest(w') <==> ZeroIsSpare(w, t, e)
  {
    assert Link(w', t, e, 0);
    if Forest(w') {
      forall u, i | Link(w, u, i, 0) ensures i == e && e >= 256 && w.level[u] == 4 && w.level[t] == 4 {
        assert u != 0 && Link(w', u, i, 0);
      }
    }
    if ZeroIsSpare(w, t, e) {
      forall u, i, c | Link(w', u, i, c) ensures c in w'.level && w'.level[c] == w'.level[u] - 1 {
        assert Link(w, u, i, c) || c == 0;
      }
      assert OneParent(w');
    }
  }

  // ------------------------------------------------------------------------------------------
  // A whole call

  /** Frame 0 is neither free nor a structure nor a table that a walk can come to. */
  ghost predicate ZeroUnused(w: World) {
    && 0 !in w.free && 0 !in w.spaces && (forall pm <- w.spaces :: w.spaces[pm] != 0)
    && forall u, i :: !Link(w, u, i, 0)
  }

  /** Table t is the top of an address space or hangs from a slot. */
  ghost predicate Hangs(w: World, t: U64) {
    (exists pm :: pm in w.spaces && w.spaces[pm] == t) || exists u, i :: Link(w, u, i, t)
  }

  /** A step that finds its table or a free frame uses frame 0 only if it was free. */
  lemma {:induction false} GoodStepZero(w: World, t: U64, e: nat)
    requires Forest(w) && t in w.level && w.level[t] >= 2 && e < 512
    requires Present(Word(w.mem, t, e)) || w.free != []
    ensures ZeroUnused(NextLevel(w, t, e).0) <==> ZeroUnused(w)
  {
    if !Present(Word(w.mem, t, e)) {
      var w1, f, n := NextLevel(w, t, e).0, TopFree(w.free), |w.free|;
      forall u, i, c ensures Link(w1, u, i, c) <==> Link(w, u, i, c) || (u == t && i == e && c == f) {
        NewLink(w, t, e, u, i, c);
      }
      assert Link(w1, t, e, f);
      assert 0 in w.free <==> 0 in w1.free || f == 0 by {
        assert w.free == w1.free + [f];
      }
    }
  }

  /** Every entry of frame 0 leads back to it. */
  ghost predicate SelfOnly(mem: Memory) {
    0 in mem && forall e | 0 <= e < 512 && Present(mem[0][e]) :: PteAddr(mem[0][e]) == 0
  }

  /** Nothing but frame 0 has changed, and its level has not grown. */
  ghost predicate OnlyZero(w: World, w': World) {
    && w'.spaces == w.spaces && 0 in w.level && 0 in w'.level && w'.level[0] <= w.level[0]
    && (forall u <- w.level | u != 0 :: u in w'.level && w'.level[u] == w.level[u])
    && (forall u <- w.mem | u != 0 :: u in w'.mem && w'.mem[u] == w.mem[u])
  }

  /** The rest of a walk that has come to frame 0 on an empty stack. */
  lemma {:induction false} ZeroWalk(w: World, k: int, p: nat)
    requires w.free == [] && 0 in w.level && SelfOnly(w.mem) && k >= 1
    ensures Walk(w, 0, k, p).1 == 0 && OnlyZero(w, Walk(w, 0, k, p).0)
    ensures k > 1 && w.mem[0] == ZeroTable() ==> Walk(w, 0, k, p).0.level[0] < w.level[0]
    decreases k
  {
    if k > 1 {
      var (w1, c) := NextLevel(w, 0, Slot(p, k));
      TableEntryReadsBack(0);
      ZeroWalk(w1, k - 1, p);
    }
  }

  /** A word written to a table of the lowest level is no link. */
  lemma {:induction false} LeafStoreForestIff(w: World, leaf: U64, i: nat, value: U64)
    requires leaf in w.level && w.level[leaf] == 1 && i < 512
    ensures Forest(w.(mem := Store(w.mem, leaf, i, value))) <==> Forest(w)
  {
    var w' := w.(mem := Store(w.mem, leaf, i, value));
    forall t, e, c ensures Link(w', t, e, c) <==> Link(w, t, e, c) {
    }
    assert w'.mem.Keys == w.mem.Keys;
  }

  /** A walk that comes to frame 0 itself before the stack is empty takes it out of its place. */
  lemma {:induction false} ZeroAgain(w: World, e: nat, w': World, k: int)
    requires Forest(w) && w.free == [] && 0 in w.level && w.level[0] == k >= 2 && Hangs(w, 0) && e < 512
    requires !Present(Word(w.mem, 0, e)) && OnlyZero(NextLevel(w, 0, e).0, w')
    ensures !Forest(w') && !ZeroUnused(w)
  {
    if pm :| pm in w.spaces && w.spaces[pm] == 0 {
      assert w'.spaces[pm] == 0 && w'.level[0] < 4;
    } else {
      var u, i :| Link(w, u, i, 0);
      assert u != 0 && Link(w', u, i, 0);
    }
  }

  /** A table of level 3 or 4 gets frame 0, which then serves as a table of a lower level too. */
  lemma {:induction false} ZeroTwice(w: World, t: U64, e: nat, w': World, k: int)
    requires Forest(w) && w.free == [] && t in w.level && w.level[t] == k >= 3 && t != 0 && e < 512
    requires !Present(Word(w.mem, t, e)) && OnlyZero(NextLevel(w, t, e).0, w') && w'.level[0] < k - 1
    ensures !Forest(w')
  {
    TableEntryReadsBack(0);
    assert Link(w', t, e, 0);
  }

  /** A walk from table t of level k, and the leaf word written. */
  ghost function WriteBelow(w: World, t: U64, k: int, p: nat, value: U64): World {
    var (w', leaf) := Walk(w, t, k, p);
    w'.(mem := Store(w'.mem, leaf, Slot(p, 1), value))
  }

  lemma {:induction false} WriteBelowStep(w: World, t: U64, k: int, p: nat, value: U64)
    requires k > 1
    ensures var (w1, c) := NextLevel(w, t, Slot(p, k));
      WriteBelow(w, t, k, p, value) == WriteBelow(w1, c, k - 1, p, value)
  {
  }

  /** From where the stack is empty. */
  lemma {:induction false} EmptyWalkForestIff(w: World, t: U64, k: int, p: nat, value: U64)
    requires Forest(w) && w.free == [] && t in w.level && w.level[t] == k >= 2 && Hangs(w, t)
    requires !Present(Word(w.mem, t, Slot(p, k)))
    ensures Forest(WriteBelow(w, t, k, p, value)) <==> k == 2 && ZeroUnused(w)
  {
    var e := Slot(p, k);
    var w1 := NextLevel(w, t, e).0;
    TableEntryReadsBack(0);
    ZeroWalk(w1, k - 1, p);
    WriteBelowStep(w, t, k, p, value);
    var w' := WriteBelow(w1, 0, k - 1, p, value);
    if t == 0 {
      ZeroAgain(w, e, w', k);
    } else if k >= 3 {
      ZeroTwice(w, t, e, w', k);
    } else {
      LeafStoreForestIff(w1, 0, Slot(p, 1), value);
      EmptyStackForestIff(w, t, e);
    }
  }

  /** A good step of a walk that will run out of frames. */
  lemma {:induction false} ShortStep(w: World, t: U64, k: int, p: nat, w1: World, c: U64)
    requires Forest(w) && t in w.level && w.level[t] == k >= 2 && (w1, c) == NextLevel(w, t, Slot(p, k))
    requires Present(Word(w.mem, t, Slot(p, k))) || w.free != []
    ensures Forest(w1) && c in w1.level && w1.level[c] == k - 1 && Hangs(w1, c)
    ensures Missing(w1.mem, c, k - 1, p) - |w1.free| == Missing(w.mem, t, k, p) - |w.free|
    ensures ZeroUnused(w1) <==> ZeroUnused(w)
  {
    NextLevelGood(w, t, Slot(p, k));
    StepMissing(w, t, k, p, w1, c);
    GoodStepZero(w, t, Slot(p, k));
    assert Link(w1, t, Slot(p, k), c);
  }

  lemma {:induction false} ShortWalkForestIff(w: World, t: U64, k: int, p: nat, value: U64)
    requires Forest(w) && t in w.level && w.level[t] == k && Hangs(w, t) && Missing(w.mem, t, k, p) > |w.free|
    ensures Forest(WriteBelow(w, t, k, p, value)) <==>
      Missing(w.mem, t, k, p) == |w.free| + 1 && ZeroUnused(w)
    decreases k
  {
    var e := Slot(p, k);
    if !Present(Word(w.mem, t, e)) && w.free == [] {
      EmptyWalkForestIff(w, t, k, p, value);
    } else {
      var (w1, c) := NextLevel(w, t, e);
      ShortStep(w, t, k, p, w1, c);
      WriteBelowStep(w, t, k, p, value);
      ShortWalkForestIff(w1, c, k - 1, p, value);
    }
  }

  /**
    `vmm_map` and `vmm_unmap` keep the forest exactly when the tables they are missing are free, or
    when a single one is not and frame 0 is not in use, which then serves as the leaf table.
    */
  lemma {:induction false} SetLeafForestIff(w: World, pm: U64, p: nat, value: U64)
    requires Forest(w) && pm in w.spaces
    ensures var m := Missing(w.mem, w.spaces[pm], 4, p);
      Forest(SetLeaf(w, w.spaces[pm], p, value)) <==>
        m <= |w.free| || (m == |w.free| + 1 && ZeroUnused(w))
  {
    var r := w.spaces[pm];
    if Missing(w.mem, r, 4, p) <= |w.free| {
      SetLeafRefinesFlatUpdate(w, r, p, value);
    } else {
      ShortWalkForestIff(w, r, 4, p, value);
      assert SetLeaf(w, r, p, value) == WriteBelow(w, r, 4, p, value);
    }
  }
}
