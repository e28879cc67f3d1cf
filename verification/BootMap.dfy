/**
  What `vmm_init` (kernel/src/mm/vmm.c) maps: the kernel's sections, then the first 4 GiB both at
  their own addresses and in the direct map, interleaved.
  */
module BootMap {
  import opened Words
  import opened PageStack
  import opened PageTable
  import opened AddressSpaces
  import opened MappingCost

  const FOUR_GIB_PAGES: int := 0x10_0000

  datatype PageWrite = PageWrite(page: nat, word: U64)

  /** The word page q holds after the writes, 0 if none was to q. */
  ghost function Latest(ws: seq<PageWrite>, q: nat): U64 {
    if ws == [] then 0
    else
      var last := ws[|ws| - 1];
      if SamePageNumber(last.page, q) then last.word else Latest(ws[..|ws| - 1], q)
  }

  /** The pages of a section, from its linked address to its place in physical memory. */
  ghost function Section(start: U64, n: nat, virtBase: U64, physBase: U64, flags: U64): seq<PageWrite> {
    seq(n, i requires i >= 0 => PageWrite(start / 4096 + i,
                              Or64(Add64(Sub64(Wrap(start + 4096 * i), virtBase), physBase), flags)))
  }

  /** The last loop: pages i and hhdm / 4096 + i, both to physical page i. */
  ghost function Direct(hhdm: U64, n: nat): seq<PageWrite> {
    seq(2 * n, j requires j >= 0 =>
      PageWrite(if j % 2 == 0 then j / 2 else hhdm / 4096 + j / 2, Or64(Wrap(4096 * (j / 2)), 3)))
  }

  /** Every lookup in the space of table root is what the writes left. */
  ghost predicate Shows(w: World, root: U64, ws: seq<PageWrite>) {
    forall q: nat :: Look(w.mem, root, 4, q) == Latest(ws, q)
  }

  /** The kernel's address space is the only one, and shows what the writes left. */
  ghost predicate Booting(w: World, hhdm: U64, pm: U64, root: U64, ws: seq<PageWrite>) {
    && Forest(w) && Structures(w, hhdm) && w.spaces == map[pm := root]
    && root in w.level && w.level[root] == 4 && Shows(w, root, ws)
  }

  /** The world after a number of writes. */
  ghost function MapAll(w: World, root: U64, ws: seq<PageWrite>): World
    decreases |ws|
  {
    if ws == [] then w
    else
      var last := ws[|ws| - 1];
      SetLeaf(MapAll(w, root, ws[..|ws| - 1]), root, last.page, last.word)
  }

  lemma {:induction false} MapOneMore(w: World, root: U64, ws: seq<PageWrite>, k: nat)
    requires k < |ws|
    ensures MapAll(w, root, ws[..k + 1]) == SetLeaf(MapAll(w, root, ws[..k]), root, ws[k].page, ws[k].word)
  {
    assert ws[..k + 1][..k] == ws[..k];
  }

  /** One more write for which the frames are there. */
  lemma {:induction false} BootStep(w: World, hhdm: U64, pm: U64, root: U64, ws: seq<PageWrite>, x: PageWrite)
    requires Booting(w, hhdm, pm, root, ws) && Missing(w.mem, root, 4, x.page) <= |w.free|
    ensures var w' := SetLeaf(w, root, x.page, x.word);
      Booting(w', hhdm, pm, root, ws + [x]) && Charged(w, root, x.page, w')
  {
    SetLeafRefinesFlatUpdate(w, root, x.page, x.word);
    ShowsStep(w, root, ws, x.page, x.word, SetLeaf(w, root, x.page, x.word));
  }

  lemma {:induction false} ShowsStep(w: World, root: U64, ws: seq<PageWrite>, p: nat, value: U64, w': World)
    requires Shows(w, root, ws) && FlatUpdate(w, root, p, value, w')
    requires root in w.level && w.level[root] == 4
    ensures Shows(w', root, ws + [PageWrite(p, value)])
  {
    var ws' := ws + [PageWrite(p, value)];
    assert ws'[..|ws'| - 1] == ws;
    forall q: nat ensures Look(w'.mem, root, 4, q) == Latest(ws', q) {
      PageUpdate(w, root, p, value, w', q);
    }
  }

  // ------------------------------------------------------------------------------------------
  // Frames for the loops

  /** The tables on the path of the last mapped page of a range exist. */
  ghost predicate Warm(w: World, root: U64, p: nat, i: nat) {
    i > 0 ==> Missing(w.mem, root, 4, p + i - 1) == 0
  }

  /** Frames the remaining pages of a range may need. */
  ghost function Left(p: nat, i: nat, n: nat): int {
    Cost(p, n) - Cost(p, i)
  }

  lemma {:induction false} WarmKept(w: World, w': World, root: U64, p: nat, i: nat)
    requires Forest(w) && Forest(w') && Extends(w, w') && root in w.level && w.level[root] == 4
    requires Warm(w, root, p, i)
    ensures Warm(w', root, p, i)
  {
    if i > 0 { MissingKept(w, w', root, p + i - 1); }
  }

  /** Page i of n consecutive pages takes no more frames than its share, and the rest stay enough. */
  lemma {:induction false} ShareOfRange(w: World, root: U64, p: nat, i: nat, n: nat)
    requires i < n && Warm(w, root, p, i)
    ensures Missing(w.mem, root, 4, p + i) <= Left(p, i, n) - Left(p, i + 1, n)
    ensures Left(p, i + 1, n) >= 0
  {
    RangeStep(w, root, p, i);
    CostMonotone(p, i + 1, n);
  }

  /** A loop over one range with `rest` frames to spare, after i iterations. */
  ghost predicate Paid(w: World, root: U64, p: nat, i: nat, n: nat, rest: int) {
    i <= n && Warm(w, root, p, i) && Left(p, i, n) + rest <= |w.free|
  }

  lemma {:induction false} PaidMissing(w: World, root: U64, p: nat, i: nat, n: nat, rest: int)
    requires Paid(w, root, p, i, n, rest) && i < n && rest >= 0
    ensures Missing(w.mem, root, 4, p + i) <= |w.free|
  {
    ShareOfRange(w, root, p, i, n);
  }

  lemma {:induction false} LeftIsNat(p: nat, i: nat, n: nat)
    requires i <= n
    ensures Left(p, i, n) >= 0
  {
    CostMonotone(p, i, n);
  }

  /** A mapping of page p took the frames it was missing, and kept every link. */
  ghost predicate Charged(w: World, root: U64, p: nat, w': World) {
    && Extends(w, w') && |w'.free| == |w.free| - Missing(w.mem, root, 4, p)
    && Missing(w'.mem, root, 4, p) == 0
  }

  lemma {:induction false} PaidStep(w: World, root: U64, p: nat, i: nat, n: nat, rest: int, w': World)
    requires Paid(w, root, p, i, n, rest) && i < n && Charged(w, root, p + i, w')
    ensures Paid(w', root, p, i + 1, n, rest)
  {
    ShareOfRange(w, root, p, i, n);
  }

  lemma {:induction false} SwapPaid(w: World, root: U64, p: nat, i: nat, q: nat, j: nat, n: nat, rest: int)
    requires Paid(w, root, p, i, n, Left(q, j, n) + rest) && Warm(w, root, q, j) && j <= n
    ensures Paid(w, root, q, j, n, Left(p, i, n) + rest) && Warm(w, root, p, i)
  {
  }

  // ------------------------------------------------------------------------------------------
  // A section loop

  /** The writes of a section loop go to consecutive pages. */
  ghost predicate Consecutive(section: seq<PageWrite>, p: nat) {
    forall j | 0 <= j < |section| :: section[j].page == p + j
  }

  /** Before a loop over n pages: the frames for it are there, and `rest` more. */
  ghost predicate SectionReady(
    w: World, hhdm: U64, pm: U64, root: U64, ws: seq<PageWrite>, section: seq<PageWrite>, p: nat, rest: nat)
  {
    Booting(w, hhdm, pm, root, ws) && Consecutive(section, p) && Cost(p, |section|) + rest <= |w.free|
  }

  /** After i rounds of a section loop. */
  lemma {:induction false} SectionPrefix(
    w: World, hhdm: U64, pm: U64, root: U64, ws: seq<PageWrite>, section: seq<PageWrite>, p: nat, rest: nat, i: nat)
    requires SectionReady(w, hhdm, pm, root, ws, section, p, rest) && i <= |section|
    ensures var w' := MapAll(w, root, section[..i]);
      Booting(w', hhdm, pm, root, ws + section[..i]) && Paid(w', root, p, i, |section|, rest)
    decreases i
  {
    if i == 0 {
      assert ws + section[..0] == ws;
    } else {
      SectionPrefix(w, hhdm, pm, root, ws, section, p, rest, i - 1);
      SectionRound(MapAll(w, root, section[..i - 1]), hhdm, pm, root, ws, section, p, rest, i - 1);
      MapOneMore(w, root, section, i - 1);
    }
  }

  lemma {:induction false} SectionRound(
    w: World, hhdm: U64, pm: U64, root: U64, ws: seq<PageWrite>, section: seq<PageWrite>, p: nat, rest: nat, i: nat)
    requires i < |section| && Consecutive(section, p) && Booting(w, hhdm, pm, root, ws + section[..i])
    requires Paid(w, root, p, i, |section|, rest)
    ensures var w' := SetLeaf(w, root, section[i].page, section[i].word);
      Booting(w', hhdm, pm, root, ws + section[..i + 1]) && Paid(w', root, p, i + 1, |section|, rest)
  {
    PaidMissing(w, root, p, i, |section|, rest);
    BootStep(w, hhdm, pm, root, ws + section[..i], section[i]);
    PaidStep(w, root, p, i, |section|, rest, SetLeaf(w, root, section[i].page, section[i].word));
    assert ws + section[..i + 1] == ws + section[..i] + [section[i]];
  }

  lemma {:induction false} SectionBegins(
    w: World, hhdm: U64, pm: U64, root: U64, ws: seq<PageWrite>,
    start: U64, n: nat, v: U64, p: U64, flags: U64, rest: nat)
    requires Booting(w, hhdm, pm, root, ws) && Cost(start / 4096, n) + rest <= |w.free|
    ensures var s := Section(start, n, v, p, flags);
      SectionReady(w, hhdm, pm, root, ws, s, start / 4096, rest) && MapAll(w, root, s[..0]) == w && |s| == n
  {
  }

  lemma {:induction false} SectionEnds(
    w: World, hhdm: U64, pm: U64, root: U64, ws: seq<PageWrite>, section: seq<PageWrite>, p: nat, rest: nat, i: nat)
    requires SectionReady(w, hhdm, pm, root, ws, section, p, rest) && i == |section|
    ensures var w' := MapAll(w, root, section[..i]);
      Booting(w', hhdm, pm, root, ws + section) && rest <= |w'.free|
  {
    SectionPrefix(w, hhdm, pm, root, ws, section, p, rest, i);
    assert section[..i] == section;
  }

  // ------------------------------------------------------------------------------------------
  // The last loop

  /** Before the last loop over n pages: the frames for both ranges are there, and `rest` more. */
  ghost predicate DirectReady(w: World, hhdm: U64, pm: U64, root: U64, ws: seq<PageWrite>, n: nat, rest: nat) {
    Booting(w, hhdm, pm, root, ws) && Cost(0, n) + Cost(hhdm / 4096, n) + rest <= |w.free|
  }

  /** Frames and tables after k writes: (k + 1) / 2 identity pages and k / 2 pages of the direct map. */
  ghost predicate DirectPaid(w: World, root: U64, h: nat, n: nat, rest: nat, k: nat) {
    k <= 2 * n && BothPaid(w, root, h, n, rest, (k + 1) / 2, k / 2)
  }

  /** After a pages of the identity range and b pages from page h on. */
  ghost predicate BothPaid(w: World, root: U64, h: nat, n: nat, rest: nat, a: nat, b: nat) {
    Warm(w, root, 0, a) && Paid(w, root, h, b, n, Left(0, a, n) + rest)
  }

  /** After the first k of the writes d of the last loop. */
  ghost predicate DirectSoFar(
    w: World, hhdm: U64, pm: U64, root: U64, ws: seq<PageWrite>, d: seq<PageWrite>, n: nat, rest: nat, k: nat)
  {
    k <= |d| && Booting(w, hhdm, pm, root, ws + d[..k]) && DirectPaid(w, root, hhdm / 4096, n, rest, k)
  }

  lemma {:induction false} DirectPrefix(
    w: World, hhdm: U64, pm: U64, root: U64, ws: seq<PageWrite>, d: seq<PageWrite>, n: nat, rest: nat, k: nat)
    requires DirectReady(w, hhdm, pm, root, ws, n, rest) && d == Direct(hhdm, n) && k <= |d|
    ensures DirectSoFar(MapAll(w, root, d[..k]), hhdm, pm, root, ws, d, n, rest, k)
    decreases k
  {
    if k == 0 {
      assert ws + d[..0] == ws;
    } else {
      var w1, w2 := MapAll(w, root, d[..k - 1]), MapAll(w, root, d[..k]);
      MapOneMore(w, root, d, k - 1);
      assert w2 == SetLeaf(w1, root, d[k - 1].page, d[k - 1].word);
      DirectPrefix(w, hhdm, pm, root, ws, d, n, rest, k - 1);
      DirectRound(w1, hhdm, pm, root, ws, d, n, rest, k - 1, w2);
    }
  }

  lemma {:induction false} DirectRound(
    w: World, hhdm: U64, pm: U64, root: U64, ws: seq<PageWrite>, d: seq<PageWrite>, n: nat, rest: nat, k: nat,
    w': World)
    requires d == Direct(hhdm, n) && k < |d| && DirectSoFar(w, hhdm, pm, root, ws, d, n, rest, k)
    requires w' == SetLeaf(w, root, d[k].page, d[k].word)
    ensures DirectSoFar(w', hhdm, pm, root, ws, d, n, rest, k + 1)
  {
    DirectMissing(w, root, hhdm / 4096, n, rest, k);
    NextWrite(w, hhdm, pm, root, ws, d, k, w');
    DirectPaidStep(w, root, hhdm / 4096, n, rest, k, w');
  }

  lemma {:induction false} NextWrite(
    w: World, hhdm: U64, pm: U64, root: U64, ws: seq<PageWrite>, d: seq<PageWrite>, k: nat, w': World)
    requires k < |d| && Booting(w, hhdm, pm, root, ws + d[..k]) && Missing(w.mem, root, 4, d[k].page) <= |w.free|
    requires w' == SetLeaf(w, root, d[k].page, d[k].word)
    ensures Booting(w', hhdm, pm, root, ws + d[..k + 1]) && Charged(w, root, d[k].page, w')
  {
    BootStep(w, hhdm, pm, root, ws + d[..k], d[k]);
    assert ws + d[..k + 1] == ws + d[..k] + [d[k]];
  }

  /** The page of write k. */
  ghost function DirectPage(h: nat, k: nat): nat {
    if k % 2 == 0 then k / 2 else h + k / 2
  }

  lemma {:induction false} DirectMissing(w: World, root: U64, h: nat, n: nat, rest: nat, k: nat)
    requires DirectPaid(w, root, h, n, rest, k) && k < 2 * n
    ensures Missing(w.mem, root, 4, DirectPage(h, k)) <= |w.free|
  {
    var i, j := (k + 1) / 2, k / 2;
    LeftIsNat(0, i, n);
    if k % 2 == 0 {
      SwapPaid(w, root, h, j, 0, j, n, rest);
      LeftIsNat(h, j, n);
      PaidMissing(w, root, 0, j, n, Left(h, j, n) + rest);
    } else {
      PaidMissing(w, root, h, j, n, Left(0, i, n) + rest);
    }
  }

  lemma {:induction false} DirectPaidStep(w: World, root: U64, h: nat, n: nat, rest: nat, k: nat, w': World)
    requires Forest(w) && Forest(w') && root in w.level && w.level[root] == 4
    requires DirectPaid(w, root, h, n, rest, k) && k < 2 * n && Charged(w, root, DirectPage(h, k), w')
    ensures DirectPaid(w', root, h, n, rest, k + 1)
  {
    var i := k / 2;
    if k % 2 == 0 {
      DirectPaidAt(w, root, h, n, rest, k, i, i);
      IdentityPaid(w, root, h, n, rest, i, w');
      DirectPaidAt(w', root, h, n, rest, k + 1, i + 1, i);
    } else {
      DirectPaidAt(w, root, h, n, rest, k, i + 1, i);
      HigherPaid(w, root, h, n, rest, i, w');
      DirectPaidAt(w', root, h, n, rest, k + 1, i + 1, i + 1);
    }
  }

  lemma {:induction false} DirectPaidAt(
    w: World, root: U64, h: nat, n: nat, rest: nat, k: nat, a: nat, b: nat)
    requires k <= 2 * n && a == (k + 1) / 2 && b == k / 2
    ensures DirectPaid(w, root, h, n, rest, k) <==> BothPaid(w, root, h, n, rest, a, b)
  {
  }

  lemma {:induction false} HigherPaid(w: World, root: U64, h: nat, n: nat, rest: nat, i: nat, w': World)
    requires Forest(w) && Forest(w') && root in w.level && w.level[root] == 4 && i < n
    requires BothPaid(w, root, h, n, rest, i + 1, i) && Charged(w, root, h + i, w')
    ensures BothPaid(w', root, h, n, rest, i + 1, i + 1)
  {
    PaidStep(w, root, h, i, n, Left(0, i + 1, n) + rest, w');
    WarmKept(w, w', root, 0, i + 1);
  }

  lemma {:induction false} IdentityPaid(w: World, root: U64, h: nat, n: nat, rest: nat, i: nat, w': World)
    requires Forest(w) && Forest(w') && root in w.level && w.level[root] == 4 && i < n
    requires BothPaid(w, root, h, n, rest, i, i) && Charged(w, root, i, w')
    ensures BothPaid(w', root, h, n, rest, i + 1, i)
  {
    SwapPaid(w, root, h, i, 0, i, n, rest);
    PaidStep(w, root, 0, i, n, Left(h, i, n) + rest, w');
    WarmKept(w, w', root, h, i);
    SwapPaid(w', root, 0, i + 1, h, i, n, rest);
  }

  /** The last loop takes no more frames than the costs of its two ranges. */
  lemma {:induction false} DirectUses(w: World, hhdm: U64, pm: U64, root: U64, ws: seq<PageWrite>, n: nat, rest: nat)
    requires DirectReady(w, hhdm, pm, root, ws, n, rest)
    ensures var w' := MapAll(w, root, Direct(hhdm, n));
      Booting(w', hhdm, pm, root, ws + Direct(hhdm, n)) && rest <= |w'.free|
  {
    var d := Direct(hhdm, n);
    DirectPrefix(w, hhdm, pm, root, ws, d, n, rest, |d|);
    assert d[..|d|] == d && |d| / 2 == n && (|d| + 1) / 2 == n;
  }

  /** Over 4 GiB that is at most 4112 frames. */
  lemma {:induction false} DirectFrames(w: World, hhdm: U64, pm: U64, root: U64, ws: seq<PageWrite>, n: nat)
    requires Booting(w, hhdm, pm, root, ws) && 4112 <= |w.free| && n == FOUR_GIB_PAGES
    ensures var w' := MapAll(w, root, Direct(hhdm, n));
      Booting(w', hhdm, pm, root, ws + Direct(hhdm, n)) && |w.free| <= |w'.free| + 4112
  {
    FourGibCost(hhdm / 4096);
    DirectUses(w, hhdm, pm, root, ws, n, |w.free| - Cost(0, n) - Cost(hhdm / 4096, n));
  }

  // ------------------------------------------------------------------------------------------
  // The writes as the loops compute them

  lemma {:induction false} SectionWriteAt(start: U64, n: nat, v: U64, p: U64, flags: U64, i: nat, address: U64)
    requires start % 4096 == 0 && address == start + 4096 * i && i < n
    ensures var s := Section(start, n, v, p, flags);
      |s| == n && Consecutive(s, start / 4096)
      && s[i] == PageWrite(address / 4096, Or64(Add64(Sub64(address, v), p), flags))
  {
  }

  lemma {:induction false} IdentityWriteAt(hhdm: U64, n: nat, i: nat, address: U64)
    requires i < n <= FOUR_GIB_PAGES && address == 4096 * i
    ensures |Direct(hhdm, n)| == 2 * n && Direct(hhdm, n)[2 * i] == PageWrite(address / 4096, Or64(address, 3))
  {
  }

  lemma {:induction false} DirectWriteAt(hhdm: U64, n: nat, i: nat, address: U64)
    requires i < n <= FOUR_GIB_PAGES && address == 4096 * i && hhdm + 0x1_0000_0000 <= TWO64
    ensures var v := PhysicalToVirtual(address, hhdm);
      |Direct(hhdm, n)| == 2 * n && Direct(hhdm, n)[2 * i + 1] == PageWrite(v / 4096, Or64(address, 3))
  {
    var k := 2 * i + 1;
    assert k / 2 == i && k % 2 == 1;
    PageOfSum(hhdm, i);
    assert Direct(hhdm, n)[k] == PageWrite(hhdm / 4096 + i, Or64(Wrap(4096 * i), 3));
  }

  lemma {:induction false} PageOfSum(a: nat, i: nat)
    ensures (4096 * i + a) / 4096 == a / 4096 + i
  {
  }

  // ------------------------------------------------------------------------------------------
  // No iteration undoes an earlier one

  /** Pages a, ..., a + n - 1 and b, ..., b + m - 1 have no page number in common. */
  ghost predicate Apart(a: nat, n: nat, b: nat, m: nat) {
    forall p: nat, q: nat | a <= p < a + n && b <= q < b + m :: !SamePageNumber(p, q)
  }

  ghost predicate Once(ws: seq<PageWrite>) {
    forall i, j | 0 <= i < j < |ws| :: !SamePageNumber(ws[i].page, ws[j].page)
  }

  /** Pages written once keep what was written. */
  lemma {:induction false} LatestOfOnce(ws: seq<PageWrite>, k: nat)
    requires Once(ws) && k < |ws|
    ensures Latest(ws, ws[k].page) == ws[k].word
    decreases |ws|
  {
    var n := |ws| - 1;
    if k < n {
      assert !SamePageNumber(ws[k].page, ws[n].page);
      LatestOfOnce(ws[..n], k);
    }
  }

  ghost predicate Separate(ws: seq<PageWrite>, vs: seq<PageWrite>) {
    forall i, j | 0 <= i < |ws| && 0 <= j < |vs| :: !SamePageNumber(ws[i].page, vs[j].page)
  }

  lemma {:induction false} OnceOfFour(t: seq<PageWrite>, r: seq<PageWrite>, d: seq<PageWrite>, m: seq<PageWrite>)
    requires Once(t) && Once(r) && Once(d) && Once(m)
    requires Separate(t, r) && Separate(t, d) && Separate(t, m)
    requires Separate(r, d) && Separate(r, m) && Separate(d, m)
    ensures Once(t + r + d + m)
  {
    OnceConcat(t, r);
    OnceConcat(t + r, d);
    OnceConcat(t + r + d, m);
  }

  lemma {:induction false} OnceConcat(ws: seq<PageWrite>, vs: seq<PageWrite>)
    requires Once(ws) && Once(vs) && Separate(ws, vs)
    ensures Once(ws + vs)
    ensures forall us | Separate(ws, us) && Separate(vs, us) :: Separate(ws + vs, us)
  {
  }

  /** The writes go to pages a, ..., a + n - 1. */
  ghost predicate Within(ws: seq<PageWrite>, a: nat, n: nat) {
    forall i | 0 <= i < |ws| :: a <= ws[i].page < a + n
  }

  lemma {:induction false} SeparateRanges(ws: seq<PageWrite>, a: nat, n: nat, vs: seq<PageWrite>, b: nat, m: nat)
    requires Within(ws, a, n) && Within(vs, b, m) && Apart(a, n, b, m)
    ensures Separate(ws, vs)
  {
  }

  lemma {:induction false} NearPages(a: nat, b: nat)
    requires a < b < a + PAGES
    ensures !SamePageNumber(a, b)
  {
    DistinctModulo(a, b);
  }

  lemma {:induction false} SectionAt(start: U64, n: nat, v: U64, p: U64, flags: U64)
    requires n <= PAGES
    ensures |Section(start, n, v, p, flags)| == n
    ensures Within(Section(start, n, v, p, flags), start / 4096, n)
    ensures Once(Section(start, n, v, p, flags))
  {
    var s := Section(start, n, v, p, flags);
    forall i, j | 0 <= i < j < |s| ensures !SamePageNumber(s[i].page, s[j].page) {
      NearPages(s[i].page, s[j].page);
    }
  }

  lemma {:induction false} DirectOnce(hhdm: U64, n: nat)
    requires n <= PAGES && Apart(0, n, hhdm / 4096, n)
    ensures Once(Direct(hhdm, n))
  {
    var h := hhdm / 4096;
    var d := Direct(hhdm, n);
    forall i, j | 0 <= i < j < |d| ensures !SamePageNumber(d[i].page, d[j].page) {
      if i % 2 == j % 2 {
        NearPages(d[i].page, d[j].page);
      } else if i % 2 == 0 {
        assert !SamePageNumber(i / 2, h + j / 2);
      } else {
        assert !SamePageNumber(j / 2, h + i / 2);
      }
    }
  }

  lemma {:induction false} SectionApartFromDirect(s: seq<PageWrite>, a: nat, n: nat, hhdm: U64, m: nat)
    requires Within(s, a, n) && Apart(a, n, 0, m) && Apart(a, n, hhdm / 4096, m)
    ensures Separate(s, Direct(hhdm, m))
  {
    var d := Direct(hhdm, m);
    forall i, j | 0 <= i < |s| && 0 <= j < |d| ensures !SamePageNumber(s[i].page, d[j].page) {
      assert 0 <= d[j].page < m || hhdm / 4096 <= d[j].page < hhdm / 4096 + m;
    }
  }

  /** The three sections and the two windows of `vmm_init`. */
  datatype Image = Image(
    text: U64, textPages: nat, rodata: U64, rodataPages: nat, data: U64, dataPages: nat,
    virtBase: U64, physBase: U64, hhdm: U64)
  {
    ghost function Text(): seq<PageWrite> {
      Section(text, textPages, virtBase, physBase, 1)
    }

    ghost function Rodata(): seq<PageWrite> {
      Section(rodata, rodataPages, virtBase, physBase, 0x8000_0000_0000_0001)
    }

    ghost function Data(): seq<PageWrite> {
      Section(data, dataPages, virtBase, physBase, 0x8000_0000_0000_0003)
    }

    ghost function Writes(): seq<PageWrite> {
      Text() + Rodata() + Data() + Direct(hhdm, FOUR_GIB_PAGES)
    }

    /** The section ranges and [0, 4 GiB) with its direct-map window share no page. */
    ghost predicate Disjoint() {
      var t, r, d, h, n := text / 4096, rodata / 4096, data / 4096, hhdm / 4096, FOUR_GIB_PAGES;
      && textPages <= PAGES && rodataPages <= PAGES && dataPages <= PAGES
      && Apart(t, textPages, r, rodataPages) && Apart(t, textPages, d, dataPages)
      && Apart(r, rodataPages, d, dataPages) && Apart(0, n, h, n)
      && Apart(t, textPages, 0, n) && Apart(t, textPages, h, n)
      && Apart(r, rodataPages, 0, n) && Apart(r, rodataPages, h, n)
      && Apart(d, dataPages, 0, n) && Apart(d, dataPages, h, n)
    }

    /** The frames the loops may need. */
    ghost function Budget(): nat {
      Cost(text / 4096, textPages) + Cost(rodata / 4096, rodataPages) + Cost(data / 4096, dataPages)
      + Cost(0, FOUR_GIB_PAGES) + Cost(hhdm / 4096, FOUR_GIB_PAGES)
    }
  }

  /** The boot needs at most 4112 frames for the last loop, and few more than one in 512 pages for a section. */
  lemma {:induction false} BudgetBound(l: Image)
    ensures l.Budget() <= 4112
      + Spans(l.textPages, 512) + Spans(l.textPages, 512 * 512) + Spans(l.textPages, 512 * 512 * 512)
      + Spans(l.rodataPages, 512) + Spans(l.rodataPages, 512 * 512) + Spans(l.rodataPages, 512 * 512 * 512)
      + Spans(l.dataPages, 512) + Spans(l.dataPages, 512 * 512) + Spans(l.dataPages, 512 * 512 * 512)
  {
    CostBound(l.text / 4096, l.textPages);
    CostBound(l.rodata / 4096, l.rodataPages);
    CostBound(l.data / 4096, l.dataPages);
    FourGibCost(l.hhdm / 4096);
  }

  /** The kernel's own image, linked at -2 GiB, with the direct map in front of the upper half. */
  lemma {:induction false} HigherHalfIsDisjoint(l: Image, t: nat, r: nat, d: nat)
    requires l.text == 0xffff_ffff_8000_0000 && l.rodata == l.text + 4096 * t && l.data == l.rodata + 4096 * r
    requires l.textPages == t && l.rodataPages == r && l.dataPages == d && t + r + d <= 0x8_0000
    requires l.hhdm == 0xffff_8000_0000_0000
    ensures l.Disjoint()
  {
    var a, h, n := 0xf_ffff_fff8_0000, 0xf_fff8_0000_0000, FOUR_GIB_PAGES;
    assert l.text / 4096 == a && l.rodata / 4096 == a + t && l.data / 4096 == a + t + r && l.hhdm / 4096 == h;
    InOneTurn(a, t, a + t, r);
    InOneTurn(a, t, a + t + r, d);
    InOneTurn(a + t, r, a + t + r, d);
    TurnsAway(a, t);
    TurnsAway(a + t, r);
    TurnsAway(a + t + r, d);
    forall p: nat, q: nat | p < n && h <= q < h + n ensures !SamePageNumber(p, q) {
      assert q % PAGES == q - 0xf_fff0_0000_0000;
    }
  }

  lemma {:induction false} InOneTurn(a: nat, n: nat, b: nat, m: nat)
    requires 0xf_fff0_0000_0000 <= a && a + n <= b && b + m <= 0x10_0000_0000_0000
    ensures Apart(a, n, b, m)
  {
    forall p: nat, q: nat | a <= p < a + n && b <= q < b + m ensures !SamePageNumber(p, q) {
      assert p % PAGES == p - 0xf_fff0_0000_0000 && q % PAGES == q - 0xf_fff0_0000_0000;
    }
  }

  /** Pages of the last 2 GiB are none of the first 4 GiB and none of the direct map's. */
  lemma {:induction false} TurnsAway(a: nat, n: nat)
    requires 0xf_ffff_fff8_0000 <= a && a + n <= 0x10_0000_0000_0000
    ensures Apart(a, n, 0, 0x10_0000) && Apart(a, n, 0xf_fff8_0000_0000, 0x10_0000)
  {
    forall p: nat | a <= p < a + n ensures p % PAGES == p - 0xf_fff0_0000_0000 {
    }
    forall q: nat | 0xf_fff8_0000_0000 <= q < 0xf_fff8_0010_0000 ensures q % PAGES == q - 0xf_fff0_0000_0000 {
    }
  }

  lemma {:induction false} WritesOnce(l: Image)
    requires l.Disjoint()
    ensures Once(l.Writes())
  {
    var t, r, d, m := l.text / 4096, l.rodata / 4096, l.data / 4096, FOUR_GIB_PAGES;
    SectionAt(l.text, l.textPages, l.virtBase, l.physBase, 1);
    SectionAt(l.rodata, l.rodataPages, l.virtBase, l.physBase, 0x8000_0000_0000_0001);
    SectionAt(l.data, l.dataPages, l.virtBase, l.physBase, 0x8000_0000_0000_0003);
    DirectOnce(l.hhdm, m);
    SeparateRanges(l.Text(), t, l.textPages, l.Rodata(), r, l.rodataPages);
    SeparateRanges(l.Text(), t, l.textPages, l.Data(), d, l.dataPages);
    SeparateRanges(l.Rodata(), r, l.rodataPages, l.Data(), d, l.dataPages);
    SectionApartFromDirect(l.Text(), t, l.textPages, l.hhdm, m);
    SectionApartFromDirect(l.Rodata(), r, l.rodataPages, l.hhdm, m);
    SectionApartFromDirect(l.Data(), d, l.dataPages, l.hhdm, m);
    OnceOfFour(l.Text(), l.Rodata(), l.Data(), Direct(l.hhdm, m));
  }

  /**
    When the ranges are disjoint, every text, rodata, data, identity and direct-map page looks up to
    the address and flags its own iteration wrote: no later iteration undoes an earlier one.
    */
  lemma {:induction false} BootLookups(w: World, root: U64, l: Image, k: nat)
    requires Shows(w, root, l.Writes()) && l.Disjoint()
    requires k < |l.Writes()|
    ensures Look(w.mem, root, 4, l.Writes()[k].page) == l.Writes()[k].word
  {
    WritesOnce(l);
    LatestOfOnce(l.Writes(), k);
  }

  /** Page i of the first 4 GiB is reached at both its addresses, present and writable. */
  lemma {:induction false} DirectPages(w: World, root: U64, l: Image, i: nat)
    requires Shows(w, root, l.Writes()) && l.Disjoint() && i < FOUR_GIB_PAGES
    ensures Look(w.mem, root, 4, i) == 4096 * i + 3
    ensures Look(w.mem, root, 4, l.hhdm / 4096 + i) == 4096 * i + 3
  {
    var sections := l.Text() + l.Rodata() + l.Data();
    var m := |sections|;
    DirectAt(sections, l.hhdm, FOUR_GIB_PAGES, i);
    BootLookups(w, root, l, m + 2 * i);
    BootLookups(w, root, l, m + 2 * i + 1);
  }

  lemma {:induction false} DirectAt(before: seq<PageWrite>, hhdm: U64, n: nat, i: nat)
    requires i < n <= PAGES
    ensures var ws := before + Direct(hhdm, n);
      && |ws| == |before| + 2 * n
      && ws[|before| + 2 * i] == PageWrite(i, 4096 * i + 3)
      && ws[|before| + 2 * i + 1] == PageWrite(hhdm / 4096 + i, 4096 * i + 3)
  {
    OrPage(i, 0, 0, 3);
    assert 2 * i / 2 == i && (2 * i + 1) / 2 == i && 2 * i % 2 == 0 && (2 * i + 1) % 2 == 1;
    assert Direct(hhdm, n)[2 * i] == PageWrite(i, Or64(4096 * i, 3));
    assert Direct(hhdm, n)[2 * i + 1] == PageWrite(hhdm / 4096 + i, Or64(4096 * i, 3));
  }

  /** Sections 0, 1, 2: text, read-only data, data. */
  ghost function SectionStart(l: Image, k: nat): U64 {
    if k == 0 then l.text else if k == 1 then l.rodata else l.data
  }

  ghost function SectionSize(l: Image, k: nat): nat {
    if k == 0 then l.textPages else if k == 1 then l.rodataPages else l.dataPages
  }

  ghost function SectionFrame(l: Image, k: nat, i: nat): U64 {
    Add64(Sub64(Wrap(SectionStart(l, k) + 4096 * i), l.virtBase), l.physBase)
  }

  /** Present, with write permission for data only and execution for text only. */
  ghost function SectionFlags(k: nat): U64 {
    if k == 0 then 1 else if k == 1 then 0x8000_0000_0000_0001 else 0x8000_0000_0000_0003
  }

  lemma {:induction false} SectionWrite(l: Image, k: nat, i: nat) returns (j: nat)
    requires k < 3 && i < SectionSize(l, k)
    ensures j < |l.Writes()|
    ensures l.Writes()[j] == PageWrite(SectionStart(l, k) / 4096 + i, Or64(SectionFrame(l, k, i), SectionFlags(k)))
  {
    j := if k == 0 then i else if k == 1 then l.textPages + i else l.textPages + l.rodataPages + i;
    SectionEntry(l, k, i);
    AtOfFour(l.Text(), l.Rodata(), l.Data(), Direct(l.hhdm, FOUR_GIB_PAGES), k, i);
  }

  lemma {:induction false} SectionEntry(l: Image, k: nat, i: nat)
    requires k < 3 && i < SectionSize(l, k)
    ensures (if k == 0 then l.Text() else if k == 1 then l.Rodata() else l.Data())[i]
      == PageWrite(SectionStart(l, k) / 4096 + i, Or64(SectionFrame(l, k, i), SectionFlags(k)))
  {
  }

  lemma {:induction false} AtOfFour<T>(t: seq<T>, r: seq<T>, d: seq<T>, m: seq<T>, k: nat, i: nat)
    requires k < 3 && i < (if k == 0 then |t| else if k == 1 then |r| else |d|)
    ensures var j := if k == 0 then i else if k == 1 then |t| + i else |t| + |r| + i;
      (t + r + d + m)[j] == if k == 0 then t[i] else if k == 1 then r[i] else d[i]
  {
  }

  /** Page i of a section looks up to the frame it was loaded in, with the section's flags. */
  lemma {:induction false} SectionPages(w: World, root: U64, l: Image, k: nat, i: nat)
    requires Shows(w, root, l.Writes()) && l.Disjoint() && k < 3 && i < SectionSize(l, k)
    ensures Look(w.mem, root, 4, SectionStart(l, k) / 4096 + i) == Or64(SectionFrame(l, k, i), SectionFlags(k))
  {
    var j := SectionWrite(l, k, i);
    BootLookups(w, root, l, j);
  }

  /**
    The same in numbers, for a load address f that fits an entry: the frame, bit 0 for present, bit 1 for
    the data section's write permission, bit 63 against executing read-only data and data.
    */
  lemma {:induction false} SectionWords(w: World, root: U64, l: Image, k: nat, start: U64, n: nat, i: nat, f: U64)
    requires Shows(w, root, l.Writes()) && l.Disjoint() && k < 3 && i < n
    requires start == if k == 0 then l.text else if k == 1 then l.rodata else l.data
    requires n == if k == 0 then l.textPages else if k == 1 then l.rodataPages else l.dataPages
    requires start + 4096 * i < TWO64 && Frame(f) && f == start + 4096 * i - l.virtBase + l.physBase
    ensures Look(w.mem, root, 4, start / 4096 + i) ==
      f + if k == 0 then 1 else if k == 1 then 0x8000_0000_0000_0001 else 0x8000_0000_0000_0003
  {
    SectionFrameIs(l, k, start, i, f);
    SectionWord(f, k);
    SectionLook(w, root, l, k, start, i, Or64(f, SectionFlags(k)));
  }

  lemma {:induction false} SectionLook(w: World, root: U64, l: Image, k: nat, start: U64, i: nat, word: U64)
    requires Shows(w, root, l.Writes()) && l.Disjoint() && k < 3 && i < SectionSize(l, k)
    requires start == SectionStart(l, k) && word == Or64(SectionFrame(l, k, i), SectionFlags(k))
    ensures Look(w.mem, root, 4, start / 4096 + i) == word
  {
    SectionPages(w, root, l, k, i);
  }

  lemma {:induction false} SectionWord(f: U64, k: nat)
    requires k < 3 && Frame(f)
    ensures Or64(f, SectionFlags(k)) ==
      f + if k == 0 then 1 else if k == 1 then 0x8000_0000_0000_0001 else 0x8000_0000_0000_0003
  {
    LeafReadsBack(f, if k == 2 then 3 else 1, k > 0);
  }

  lemma {:induction false} SectionFrameIs(l: Image, k: nat, start: U64, i: nat, f: U64)
    requires start == SectionStart(l, k) && start + 4096 * i < TWO64 && f == start + 4096 * i - l.virtBase + l.physBase
    ensures SectionFrame(l, k, i) == f
  {
    LoadAddress(start, start + 4096 * i, l.virtBase, l.physBase, f);
  }

  lemma {:induction false} LoadAddress(start: U64, x: nat, v: U64, p: U64, f: U64)
    requires start <= x < TWO64 && f == x - v + p
    ensures Add64(Sub64(Wrap(x), v), p) == f
  {
  }

  /** That word is present and its address field is the frame. */
  lemma {:induction false} SectionWordDecodes(f: U64, k: nat)
    requires k < 3 && Frame(f)
    ensures PteAddr(Or64(f, SectionFlags(k))) == f && Present(Or64(f, SectionFlags(k)))
  {
    LeafReadsBack(f, if k == 2 then 3 else 1, k > 0);
  }
}
