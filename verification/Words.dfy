/**
  64-bit machine words as integers, and the address macros of kernel/src/mm/vmm.h. Masks and
  shifts select fixed digits of a word, so they are written as quotients and remainders; OR takes
  arbitrary operands, so it is defined on binary digits.
  */
module Words {
  const TWO64: int := 0x1_0000_0000_0000_0000

  type U64 = x: int | 0 <= x < TWO64

  /** Bitwise OR, one binary digit at a time. */
  function Or(a: nat, b: nat): nat {
    if a == 0 then b
    else if b == 0 then a
    else 2 * Or(a / 2, b / 2) + (if a % 2 == 1 || b % 2 == 1 then 1 else 0)
  }

  /** Unsigned 64-bit arithmetic wraps around. */
  function Wrap(x: int): (r: U64) {
    x % TWO64
  }

  function Add64(a: U64, b: U64): (r: U64) {
    if a + b < TWO64 then a + b else a + b - TWO64
  }

  function Sub64(a: U64, b: U64): (r: U64) {
    if a >= b then a - b else a - b + TWO64
  }

  lemma {:induction false} WrapAdd(x: nat, b: U64)
    ensures Add64(Wrap(x), b) == Wrap(x + b)
  {
    var q, r := x / TWO64, x % TWO64;
    assert x + b == TWO64 * q + (r + b);
  }

  /** Bitwise OR of two words is a word. */
  function Or64(a: U64, b: U64): (r: U64)
    ensures r == Or(a, b)
  {
    OrFits(a, b);
    Or(a, b)
  }

  // ------------------------------------------------------------------------------------------
  // Digits of an OR

  predicate PowerOfTwo(m: nat) {
    m == 1 || (m > 1 && m % 2 == 0 && PowerOfTwo(m / 2))
  }

  lemma {:induction false} PowerDoubles(m: nat)
    requires PowerOfTwo(m)
    ensures PowerOfTwo(2 * m)
  {
    assert 2 * m / 2 == m;
  }

  lemma {:induction false} PowerTimes(m: nat, n: nat)
    requires PowerOfTwo(m) && PowerOfTwo(n)
    ensures PowerOfTwo(n * m)
    decreases m
  {
    if m > 1 {
      PowerTimes(m / 2, n);
      PowerDoubles(n * (m / 2));
      HalfOf(n, m, 0);
    } else {
      assert n * m == n;
    }
  }

  lemma {:induction false} OrStep(a: nat, b: nat, x: nat, y: nat)
    requires x < 2 && y < 2
    ensures Or(2 * a + x, 2 * b + y) == 2 * Or(a, b) + (if x == 1 || y == 1 then 1 else 0)
  {
    assert (2 * a + x) / 2 == a && (2 * b + y) / 2 == b;
  }

  /** OR works separately on the digits above and below those of a power of two. */
  lemma {:induction false} OrSplit(m: nat, a: nat, b: nat, x: nat, y: nat)
    requires PowerOfTwo(m) && x < m && y < m
    ensures Or(a * m + x, b * m + y) == Or(a, b) * m + Or(x, y)
    ensures Or(x, y) < m
    decreases m
  {
    if m > 1 {
      var h, x1, y1 := m / 2, x / 2, y / 2;
      OrSplit(h, a, b, x1, y1);
      OrStep(x1, y1, x % 2, y % 2);
      OrHalves(m, a, b, x, y);
      HalfOf(Or(a, b), m, Or(x, y));
    }
  }

  lemma {:induction false} OrHalves(m: nat, a: nat, b: nat, x: nat, y: nat)
    requires m % 2 == 0
    ensures Or(a * m + x, b * m + y)
      == 2 * Or(a * (m / 2) + x / 2, b * (m / 2) + y / 2) + (if x % 2 == 1 || y % 2 == 1 then 1 else 0)
  {
    HalfOf(a, m, x);
    HalfOf(b, m, y);
    OrStep(a * (m / 2) + x / 2, b * (m / 2) + y / 2, x % 2, y % 2);
  }

  lemma {:induction false} HalfOf(a: nat, m: nat, x: nat)
    requires m % 2 == 0
    ensures a * m + x == 2 * (a * (m / 2) + x / 2) + x % 2
  {
    assert a * m == a * (2 * (m / 2));
  }

  lemma {:induction false} OrFits(a: U64, b: U64)
    ensures Or(a, b) < TWO64
  {
    PowerTimes(0x100, 0x100);
    PowerTimes(0x1_0000, 0x1_0000);
    PowerTimes(0x1_0000_0000, 0x1_0000_0000);
    OrSplit(TWO64, 0, 0, a, b);
  }

  /** OR works separately on the page offset and on the page number. */
  lemma {:induction false} OrPage(a: nat, b: nat, x: nat, y: nat)
    requires x < 4096 && y < 4096
    ensures Or(4096 * a + x, 4096 * b + y) == 4096 * Or(a, b) + Or(x, y)
  {
    assert PowerOfTwo(4096);
    OrSplit(4096, a, b, x, y);
  }

  // ------------------------------------------------------------------------------------------
  // Page-table entries

  /** `value & 0x000ffffffffff000`: bits 12 to 51. */
  function PteAddr(value: U64): (r: U64) {
    value / 4096 % 0x100_0000_0000 * 4096
  }

  predicate Present(value: U64) {
    value % 2 == 1
  }

  /** A page-aligned physical address that fits the address field of an entry. */
  predicate Frame(f: int) {
    0 <= f < 0x10_0000_0000_0000 && f % 4096 == 0
  }

  /** The entry that links a table: `address | 1 | 2 | 3`. */
  function TableEntry(f: U64): (r: U64) {
    Or64(Or64(Or64(f, 1), 2), 3)
  }

  /** The walk finds the frame it linked: the entry is present and its address field is the frame. */
  lemma {:induction false} TableEntryReadsBack(f: U64)
    requires Frame(f)
    ensures TableEntry(f) == f + 3
    ensures Present(TableEntry(f)) && PteAddr(TableEntry(f)) == f
  {
    OrLow(f, 0, 1);
    OrLow(f, 1, 2);
    OrLow(f, 3, 3);
    SmallOrs();
    FieldOf(f / 4096, 0, 3);
  }

  lemma {:induction false} OrLow(f: nat, x: nat, flags: nat)
    requires f % 4096 == 0 && x < 4096 && flags < 4096
    ensures Or(f + x, flags) == f + Or(x, flags)
  {
    OrPage(f / 4096, 0, x, flags);
  }

  lemma {:induction false} SmallOrs()
    ensures Or(0, 1) == 1 && Or(1, 2) == 3 && Or(3, 3) == 3
  {
  }

  /** A leaf built from a frame and flags outside the address field decodes to that frame. */
  lemma {:induction false} LeafReadsBack(f: U64, low: U64, noExecute: bool)
    requires Frame(f) && low < 4096
    ensures var word := Or64(f, low + (if noExecute then 0x8000_0000_0000_0000 else 0));
      && word == f + low + (if noExecute then 0x8000_0000_0000_0000 else 0)
      && PteAddr(word) == f && (Present(word) <==> low % 2 == 1)
  {
    var n := if noExecute then 0x8_0000_0000_0000 else 0;
    var k := f / 4096;
    OrPage(k, n, 0, low);
    OrTopBit(k, noExecute);
    FieldOf(k, n, low);
  }

  lemma {:induction false} FieldOf(k: nat, n: nat, low: nat)
    requires k < 0x100_0000_0000 && low < 4096 && (n == 0 || n == 0x8_0000_0000_0000)
    ensures (4096 * (k + n) + low) / 4096 % 0x100_0000_0000 * 4096 == 4096 * k
    ensures (4096 * (k + n) + low) % 2 == low % 2
  {
    var word := 4096 * (k + n) + low;
    assert word / 4096 == k + n;
    assert (k + n) % 0x100_0000_0000 == k;
  }

  lemma {:induction false} OrTopBit(k: nat, top: bool)
    requires k < 0x100_0000_0000
    ensures Or(k, if top then 0x8_0000_0000_0000 else 0) == k + if top then 0x8_0000_0000_0000 else 0
  {
    if top {
      OrPage(k / 4096, 0x80_0000_0000, k % 4096, 0);
      OrMiddleBit(k / 4096);
    }
  }

  lemma {:induction false} OrMiddleBit(k: nat)
    requires k < 0x1000_0000
    ensures Or(k, 0x80_0000_0000) == k + 0x80_0000_0000
  {
    OrPage(k / 4096, 0x800_0000, k % 4096, 0);
    OrLastBit(k / 4096);
  }

  lemma {:induction false} OrLastBit(k: nat)
    requires k < 0x1_0000
    ensures Or(k, 0x800_0000) == k + 0x800_0000
  {
    OrPage(k / 4096, 0x8000, k % 4096, 0);
    OrPage(0, 8, k / 4096, 0);
  }

  /** `(vaddr >> shift) & 0x1ff` for the four shifts of a walk. */
  function Index(vaddr: U64, shift: nat): (r: nat)
    requires shift == 12 || shift == 21 || shift == 30 || shift == 39
    ensures r < 512
  {
    if shift == 12 then vaddr / 0x1000 % 512
    else if shift == 21 then vaddr / 0x20_0000 % 512
    else if shift == 30 then vaddr / 0x4000_0000 % 512
    else vaddr / 0x80_0000_0000 % 512
  }

  function PhysicalToVirtual(p: U64, hhdm: U64): (r: U64) {
    Add64(p, hhdm)
  }

  function VirtualToPhysical(v: U64, hhdm: U64): (r: U64) {
    Sub64(v, hhdm)
  }

  lemma {:induction false} HhdmRoundTrip(p: U64, hhdm: U64)
    ensures PhysicalToVirtual(p, hhdm) == (p + hhdm) % TWO64
    ensures VirtualToPhysical(PhysicalToVirtual(p, hhdm), hhdm) == p
    ensures PhysicalToVirtual(VirtualToPhysical(p, hhdm), hhdm) == p
  {
  }
}
