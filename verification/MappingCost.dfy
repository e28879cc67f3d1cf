/**
  How many page frames the page-table walks of kernel/src/mm/vmm.c take from the free stack when
  ranges of consecutive pages are mapped.
  */
module MappingCost {
  import opened Words
  import opened PageStack
  import opened PageTable

  /** A path that is complete stays complete while tables are only added. */
  lemma {:induction false} MissingKept(w: World, w': World, t: U64, p: nat)
    requires Forest(w) && Forest(w') && Extends(w, w') && t in w.level
    requires Missing(w.mem, t, w.level[t], p) == 0
    ensures Missing(w'.mem, t, w.level[t], p) == 0
    decreases w.level[t]
  {
    var k := w.level[t];
    if k > 1 {
      var c := PteAddr(Word(w.mem, t, Slot(p, k)));
      assert Link(w, t, Slot(p, k), c);
      MissingKept(w, w', c, p);
    }
  }

  /** How many table indexes above the leaf change when the page number reaches p by counting up. */
  ghost function Carry(p: nat): (r: nat)
    ensures r <= 3
  {
    if p % 512 != 0 then 0
    else if p / 512 % 512 != 0 then 1
    else if p / 512 / 512 % 512 != 0 then 2
    else 3
  }

  lemma {:induction false} SlotQuotients(p: nat)
    ensures Slot(p, 2) == p / 512 % 512 && Slot(p, 3) == p / 512 / 512 % 512
    ensures Slot(p, 4) == p / 512 / 512 / 512 % 512
  {
    assert Slot(p, 2) == Slot(p / 512, 1);
    assert Slot(p, 3) == Slot(p / 512, 2) == Slot(p / 512 / 512, 1);
    assert Slot(p, 4) == Slot(p / 512, 3) == Slot(p / 512 / 512, 2) == Slot(p / 512 / 512 / 512, 1);
  }

  lemma {:induction false} NextQuotient(p: nat)
    ensures (p + 1) / 512 == p / 512 + (if (p + 1) % 512 == 0 then 1 else 0)
  {
  }

  /** The table indexes above the one the carry stops at stay as they were. */
  lemma {:induction false} CarrySlots(p: nat, k: int)
    requires Carry(p + 1) + 1 < k <= 4
    ensures Slot(p + 1, k) == Slot(p, k)
  {
    SlotQuotients(p);
    SlotQuotients(p + 1);
    NextQuotient(p);
    NextQuotient(p / 512);
    NextQuotient(p / 512 / 512);
  }

  lemma {:induction false} SharedPrefix(mem: Memory, t: U64, k: int, p: nat, q: nat, j: int)
    requires 1 <= j <= k && Missing(mem, t, k, p) == 0
    requires forall i | j < i <= k :: Slot(p, i) == Slot(q, i)
    ensures Missing(mem, t, k, q) <= j - 1
    decreases k
  {
    if j == k {
      MissingAtMost(mem, t, k, q);
    } else {
      SharedPrefix(mem, PteAddr(Word(mem, t, Slot(p, k))), k - 1, p, q, j);
    }
  }

  /** After page p, page p + 1 needs at most one new table for each index that carries. */
  lemma {:induction false} NextPageCost(mem: Memory, r: U64, p: nat)
    requires Missing(mem, r, 4, p) == 0
    ensures Missing(mem, r, 4, p + 1) <= Carry(p + 1)
  {
    forall k | Carry(p + 1) + 1 < k <= 4 ensures Slot(p, k) == Slot(p + 1, k) {
      CarrySlots(p, k);
    }
    SharedPrefix(mem, r, 4, p, p + 1, Carry(p + 1) + 1);
  }

  /** A bound on the tables needed by pages p, ..., p + n - 1 mapped in this order. */
  ghost function Cost(p: nat, n: nat): nat {
    if n == 0 then 0
    else if n == 1 then 3
    else Cost(p, n - 1) + Carry(p + n - 1)
  }

  lemma {:induction false} CostMonotone(p: nat, i: nat, n: nat)
    requires i <= n
    ensures Cost(p, i) <= Cost(p, n)
    decreases n - i
  {
    if i < n { CostMonotone(p, i + 1, n); }
  }

  ghost function Quotients(p: nat): nat {
    p / 512 + p / 512 / 512 + p / 512 / 512 / 512
  }

  lemma {:induction false} CarryCounts(p: nat)
    ensures Quotients(p + 1) == Quotients(p) + Carry(p + 1)
  {
    NextQuotient(p);
    NextQuotient(p / 512);
    NextQuotient(p / 512 / 512);
  }

  lemma {:induction false} CostIsQuotients(p: nat, n: nat)
    requires n >= 1
    ensures Cost(p, n) == 3 + Quotients(p + n - 1) - Quotients(p)
    decreases n
  {
    if n > 1 {
      CostIsQuotients(p, n - 1);
      CarryCounts(p + n - 2);
    }
  }

  /** The number of multiples of s in an interval of n page numbers, at most. */
  ghost function Spans(n: nat, s: nat): nat
    requires s > 0
  {
    if n == 0 then 0 else (n + s - 2) / s + 1
  }

  lemma {:induction false} QuotientGap(p: nat, n: nat, s: nat)
    requires n >= 1 && (s == 512 || s == 512 * 512 || s == 512 * 512 * 512)
    ensures (p + n - 1) / s - p / s <= (n + s - 2) / s
  {
  }

  /** Mapping n consecutive pages takes one table for each 512, 512^2 or 512^3 pages begun, at most. */
  lemma {:induction false} CostBound(p: nat, n: nat)
    ensures Cost(p, n) <= Spans(n, 512) + Spans(n, 512 * 512) + Spans(n, 512 * 512 * 512)
  {
    if n >= 1 {
      CostIsQuotients(p, n);
      QuotientGap(p, n, 512);
      QuotientGap(p, n, 512 * 512);
      QuotientGap(p, n, 512 * 512 * 512);
      NestedQuotients(p);
      NestedQuotients(p + n - 1);
    }
  }

  lemma {:induction false} NestedQuotients(p: nat)
    ensures p / 512 / 512 == p / (512 * 512) && p / 512 / 512 / 512 == p / (512 * 512 * 512)
  {
  }

  /** One more page of a range takes at most its share of the cost. */
  lemma {:induction false} RangeStep(w: World, r: U64, p: nat, i: nat)
    requires i > 0 ==> Missing(w.mem, r, 4, p + i - 1) == 0
    ensures Missing(w.mem, r, 4, p + i) <= Cost(p, i + 1) - Cost(p, i)
  {
    if i > 0 {
      NextPageCost(w.mem, r, p + i - 1);
    } else {
      MissingAtMost(w.mem, r, 4, p);
    }
  }

  /** Consecutive pages from p on, mapped in order to the given words. */
  ghost function MapRange(w: World, r: U64, p: nat, words: seq<U64>): World {
    var n := |words|;
    if n == 0 then w else SetLeaf(MapRange(w, r, p, words[..n - 1]), r, p + n - 1, words[n - 1])
  }

  ghost predicate RangeMapped(w: World, r: U64, p: nat, words: seq<U64>, w': World) {
    var n := |words|;
    && Forest(w') && Extends(w, w')
    && |w.free| - |w'.free| == |w'.level| - |w.level| <= Cost(p, n)
    && (n > 0 ==> Missing(w'.mem, r, 4, p + n - 1) == 0)
    && RangeLooks(w'.mem, r, p, words)
  }

  ghost predicate RangeLooks(mem: Memory, r: U64, p: nat, words: seq<U64>) {
    forall i | 0 <= i < |words| :: Look(mem, r, 4, p + i) == words[i]
  }

  /**
    Mapping a range keeps the forest, takes no more frames than the bound, turns each of them into a
    table, and leaves every page of the range at its word.
    */
  lemma {:induction false} MapRangeGood(w: World, r: U64, p: nat, words: seq<U64>)
    requires Forest(w) && r in w.level && w.level[r] == 4
    requires Cost(p, |words|) <= |w.free| && |words| <= PAGES
    ensures RangeMapped(w, r, p, words, MapRange(w, r, p, words))
    decreases |words|
  {
    if words != [] {
      var i := |words| - 1;
      CostMonotone(p, i, |words|);
      MapRangeGood(w, r, p, words[..i]);
      MapRangeLast(w, r, p, words, i);
      RangeOneMore(w, r, p, words, i, MapRange(w, r, p, words[..i]));
    }
  }

  lemma {:induction false} MapRangeLast(w: World, r: U64, p: nat, words: seq<U64>, i: nat)
    requires |words| == i + 1
    ensures MapRange(w, r, p, words) == SetLeaf(MapRange(w, r, p, words[..i]), r, p + i, words[i])
  {
  }

  lemma {:induction false} RangeOneMore(w: World, r: U64, p: nat, words: seq<U64>, i: nat, w1: World)
    requires r in w.level && w.level[r] == 4 && |words| == i + 1 <= PAGES && Cost(p, |words|) <= |w.free|
    requires RangeMapped(w, r, p, words[..i], w1)
    ensures RangeMapped(w, r, p, words, SetLeaf(w1, r, p + i, words[i]))
  {
    RangeStep(w1, r, p, i);
    SetLeafRefinesFlatUpdate(w1, r, p + i, words[i]);
    RangeExtended(w, r, p, words, i, w1, SetLeaf(w1, r, p + i, words[i]));
  }

  lemma {:induction false} RangeExtended(
    w: World, r: U64, p: nat, words: seq<U64>, i: nat, w1: World, w': World)
    requires |words| == i + 1 <= PAGES && r in w.level && w.level[r] == 4
    requires RangeMapped(w, r, p, words[..i], w1) && FlatUpdate(w1, r, p + i, words[i], w')
    requires Missing(w1.mem, r, 4, p + i) <= Cost(p, i + 1) - Cost(p, i)
    ensures RangeMapped(w, r, p, words, w')
  {
    ExtendsTransitive(w, w1, w');
    LooksExtended(w1, r, p, words, i, w');
  }

  lemma {:induction false} LooksExtended(w1: World, r: U64, p: nat, words: seq<U64>, i: nat, w': World)
    requires |words| == i + 1 <= PAGES && r in w1.level && w1.level[r] == 4
    requires RangeLooks(w1.mem, r, p, words[..i]) && FlatUpdate(w1, r, p + i, words[i], w')
    ensures RangeLooks(w'.mem, r, p, words)
  {
    forall j | 0 <= j < |words| ensures Look(w'.mem, r, 4, p + j) == words[j] {
      NearPageUpdate(w1, r, p + i, words[i], w', p + j);
      if j < i {
        assert words[..i][j] == words[j];
      }
    }
  }

  /** A flat update seen from the space itself, by page number. */
  lemma {:induction false} PageUpdate(w: World, r: U64, p: nat, value: U64, w': World, q: nat)
    requires FlatUpdate(w, r, p, value, w') && r in w.level && w.level[r] == 4
    ensures Look(w'.mem, r, 4, q) ==
      if SamePageNumber(p, q) then value else Look(w.mem, r, 4, q)
  {
    SamePageIsPageNumber(p, q);
  }

  lemma {:induction false} NearPageUpdate(w: World, r: U64, p: nat, value: U64, w': World, q: nat)
    requires FlatUpdate(w, r, p, value, w') && r in w.level && w.level[r] == 4
    requires q <= p < q + PAGES
    ensures Look(w'.mem, r, 4, q) == if p == q then value else Look(w.mem, r, 4, q)
  {
    PageUpdate(w, r, p, value, w', q);
    DistinctModulo(q, p);
  }

  lemma {:induction false} DistinctModulo(a: nat, b: nat)
    requires a <= b < a + PAGES
    ensures SamePageNumber(a, b) <==> a == b
  {
  }

  /** The bound for all pages of a range together. */
  lemma {:induction false} MapRangeFrames(w: World, r: U64, p: nat, words: seq<U64>)
    requires Forest(w) && r in w.level && w.level[r] == 4 && |words| <= PAGES
    requires var n := |words|; Spans(n, 512) + Spans(n, 512 * 512) + Spans(n, 512 * 512 * 512) <= |w.free|
    ensures var n, w' := |words|, MapRange(w, r, p, words);
      && RangeMapped(w, r, p, words, w')
      && |w.free| - |w'.free| <= Spans(n, 512) + Spans(n, 512 * 512) + Spans(n, 512 * 512 * 512)
  {
    CostBound(p, |words|);
    MapRangeGood(w, r, p, words);
  }

  /** Two ranges of 2^20 pages fit in 4112 frames. */
  lemma {:induction false} FourGibCost(p: nat)
    ensures Cost(0, 0x10_0000) + Cost(p, 0x10_0000) <= 4112
  {
    var n := 0x10_0000;
    CostBound(0, n);
    CostBound(p, n);
    assert Spans(n, 512) == 2049 && Spans(n, 512 * 512) == 5 && Spans(n, 512 * 512 * 512) == 2;
  }
}
