/**
  Digits in a base: the reversed conversion of nanoprintf (kernel/src/tpf/npf.h, npf_utoa_rev and
  npf_bin_len) and the reader it is proved against.
  */
module NpfDigits {

  /** The digit character; letters are upper case unless the case adjustment is on. */
  function DigitChar(d: nat, lower: bool): (c: char)
    requires d < 16
    ensures DigitValue(c) == d
  {
    if d < 10 then ('0' as int + d) as char
    else ('A' as int - 10 + (if lower then 32 else 0) + d) as char
  }

  /** What a digit of either case is worth; 16 for every other character. */
  function DigitValue(c: char): (d: nat)
    ensures d <= 16
  {
    if '0' <= c <= '9' then c as int - '0' as int
    else if 'a' <= c <= 'f' then c as int - 'a' as int + 10
    else if 'A' <= c <= 'F' then c as int - 'A' as int + 10
    else 16
  }

  /** The bases nanoprintf converts to. */
  predicate IsBase(base: nat) {
    base == 2 || base == 8 || base == 10 || base == 16
  }

  // Arithmetic by one of the four bases, by cases, so that it stays linear.

  /** v % base */
  function Last(v: nat, base: nat): (d: nat)
    requires IsBase(base)
    ensures d < base
  {
    if base == 2 then v % 2 else if base == 8 then v % 8 else if base == 10 then v % 10 else v % 16
  }

  /** v / base */
  function Front(v: nat, base: nat): (q: nat)
    requires IsBase(base)
    ensures q != 0 ==> q < v
  {
    if base == 2 then v / 2 else if base == 8 then v / 8 else if base == 10 then v / 10 else v / 16
  }

  /** v * base */
  ghost function Times(v: nat, base: nat): (p: nat)
    requires IsBase(base)
  {
    if base == 2 then 2 * v else if base == 8 then 8 * v else if base == 10 then 10 * v else 16 * v
  }

  /** v * base^k */
  ghost function Scale(v: nat, base: nat, k: nat): nat
    requires IsBase(base)
  {
    if k == 0 then v else Times(Scale(v, base, k - 1), base)
  }

  lemma {:induction false} LastAndFront(v: nat, base: nat)
    requires IsBase(base)
    ensures Last(v, base) == v % base && Front(v, base) == v / base
    ensures Times(Front(v, base), base) + Last(v, base) == v
  {
  }

  ghost predicate AllDigits(t: string, base: nat) {
    forall i | 0 <= i < |t| :: DigitValue(t[i]) < base
  }

  /** The number a digit string stands for, most significant digit first; the empty string is 0. */
  ghost function Value(t: string, base: nat): nat
    requires IsBase(base)
  {
    if t == "" then 0 else Times(Value(t[..|t| - 1], base), base) + DigitValue(t[|t| - 1])
  }

  ghost function Reverse(t: string): (r: string)
    ensures |r| == |t|
    ensures forall i | 0 <= i < |t| :: r[i] == t[|t| - 1 - i]
  {
    if t == "" then "" else Reverse(t[1..]) + [t[0]]
  }

  /** Digits of v, least significant first; zero has one digit. */
  ghost function RevText(v: nat, base: nat, lower: bool): (t: string)
    requires IsBase(base)
    ensures t != ""
    decreases v
  {
    [DigitChar(Last(v, base), lower)] + if Front(v, base) == 0 then "" else RevText(Front(v, base), base, lower)
  }

  /** The converted digits read back to the number. */
  lemma {:induction false} DigitsReadBack(v: nat, base: nat, lower: bool)
    requires IsBase(base)
    ensures AllDigits(Reverse(RevText(v, base, lower)), base)
    ensures Value(Reverse(RevText(v, base, lower)), base) == v
    decreases v
  {
    var q, d := Front(v, base), DigitChar(Last(v, base), lower);
    var rest := if q == 0 then "" else RevText(q, base, lower);
    if q != 0 {
      DigitsReadBack(q, base, lower);
    }
    assert RevText(v, base, lower) == [d] + rest;
    ReverseCons(d, rest);
    AllDigitsAndOne(Reverse(rest), d, base);
    ValueConcatDigit(Reverse(rest), d, base);
    LastAndFront(v, base);
  }

  lemma {:induction false} AllDigitsAndOne(t: string, c: char, base: nat)
    ensures AllDigits(t + [c], base) <==> AllDigits(t, base) && DigitValue(c) < base
  {
    assert (t + [c])[|t|] == c;
    assert forall i | 0 <= i < |t| :: (t + [c])[i] == t[i];
  }

  lemma {:induction false} ReverseCons(c: char, t: string)
    ensures Reverse([c] + t) == Reverse(t) + [c]
  {
    assert ([c] + t)[1..] == t;
  }

  /** No leading zero: the most significant digit is '0' only for the number zero. */
  lemma {:induction false} NoLeadingZero(v: nat, base: nat, lower: bool)
    requires IsBase(base)
    ensures Reverse(RevText(v, base, lower))[0] == '0' <==> v == 0
    decreases v
  {
    var q, d := Front(v, base), DigitChar(Last(v, base), lower);
    var rest := if q == 0 then "" else RevText(q, base, lower);
    if q != 0 {
      NoLeadingZero(q, base, lower);
    }
    LastAndFront(v, base);
    assert RevText(v, base, lower) == [d] + rest;
    ReverseCons(d, rest);
  }

  /** k digits are enough for every number below 8^k, in every base from 8 up. */
  lemma {:induction false} FewDigits(v: nat, base: nat, lower: bool, k: nat)
    requires IsBase(base) && base >= 8 && k >= 1 && v < Scale(1, 8, k)
    ensures |RevText(v, base, lower)| <= k
    decreases k
  {
    if Front(v, base) != 0 {
      assert Scale(1, 8, k) == 8 * Scale(1, 8, k - 1);
      FewDigits(Front(v, base), base, lower, k - 1);
    }
  }

  lemma {:induction false} TwoOctalDigits(k: nat)
    ensures Scale(1, 8, k + 2) == 64 * Scale(1, 8, k)
  {
    assert Scale(1, 8, k + 2) == 8 * Scale(1, 8, k + 1);
  }

  /** Every 64-bit number fits the 23-byte conversion buffer, with room for octal's extra zero. */
  lemma {:induction false} FitsBuffer(v: nat, base: nat, lower: bool)
    requires IsBase(base) && base >= 8 && v < 0x1_0000_0000_0000_0000
    ensures |RevText(v, base, lower)| <= 22
  {
    TwoOctalDigits(0); TwoOctalDigits(2); TwoOctalDigits(4); TwoOctalDigits(6);
    TwoOctalDigits(8); TwoOctalDigits(10); TwoOctalDigits(12); TwoOctalDigits(14);
    TwoOctalDigits(16); TwoOctalDigits(18); TwoOctalDigits(20);
    FewDigits(v, base, lower, 22);
  }

  // ------------------------------------------------------------------------------------------
  // Binary

  /** The number of binary digits: 1 for zero, otherwise one more than the index of the top bit. */
  function BinLen(u: nat): (n: nat)
    ensures n >= 1
  {
    if u < 2 then 1 else 1 + BinLen(u / 2)
  }

  /** Numbers below 2^k have at most k binary digits. */
  lemma {:induction false} BinLenBound(u: nat, k: nat)
    requires k >= 1 && u < Scale(1, 2, k)
    ensures BinLen(u) <= k
    decreases k
  {
    if u >= 2 {
      BinLenBound(u / 2, k - 1);
    }
  }

  lemma {:induction false} FourBits(k: nat)
    ensures Scale(1, 2, k + 4) == 16 * Scale(1, 2, k)
  {
    assert Scale(1, 2, k + 4) == 2 * Scale(1, 2, k + 3) && Scale(1, 2, k + 2) == 2 * Scale(1, 2, k + 1);
  }

  /** A 64-bit number has at most 64 binary digits. */
  lemma {:induction false} BinLenFits(u: nat)
    requires u < 0x1_0000_0000_0000_0000
    ensures BinLen(u) <= 64
  {
    FourBits(0); FourBits(4); FourBits(8); FourBits(12); FourBits(16); FourBits(20); FourBits(24); FourBits(28);
    FourBits(32); FourBits(36); FourBits(40); FourBits(44); FourBits(48); FourBits(52); FourBits(56); FourBits(60);
    BinLenBound(u, 64);
  }

  /** u shifted right by i. */
  function ShiftRight(u: nat, i: nat): nat {
    if i == 0 then u else ShiftRight(u / 2, i - 1)
  }

  /** Digit i of the binary text is bit i. */
  lemma {:induction false} BinaryDigit(u: nat, i: nat, lower: bool)
    requires i < BinLen(u)
    ensures |RevText(u, 2, lower)| == BinLen(u)
    ensures RevText(u, 2, lower)[i] == DigitChar(ShiftRight(u, i) % 2, lower)
    decreases u
  {
    assert Front(u, 2) == u / 2;
    if u >= 2 {
      BinaryDigit(u / 2, if i > 0 then i - 1 else 0, lower);
    }
  }

  // ------------------------------------------------------------------------------------------
  // Padding with zeros

  ghost function Repeat(c: char, k: nat): (t: string)
    ensures |t| == k && forall i | 0 <= i < k :: t[i] == c
  {
    seq(k, _ => c)
  }

  lemma {:induction false} Assoc(a: string, b: string, c: string)
    ensures a + b + c == a + (b + c)
  {
  }

  lemma {:induction false} ValueConcatDigit(t: string, c: char, base: nat)
    requires IsBase(base)
    ensures Value(t + [c], base) == Times(Value(t, base), base) + DigitValue(c)
  {
    assert (t + [c])[..|t + [c]| - 1] == t;
  }

  lemma {:induction false} LeadingZeros(k: nat, t: string, base: nat)
    requires IsBase(base)
    ensures Value(Repeat('0', k) + t, base) == Value(t, base)
    decreases k + |t|
  {
    var z := Repeat('0', k) + t;
    if t == "" {
      if k > 0 {
        assert z[..|z| - 1] == Repeat('0', k - 1) + t;
        LeadingZeros(k - 1, t, base);
      }
    } else {
      assert z[..|z| - 1] == Repeat('0', k) + t[..|t| - 1];
      LeadingZeros(k, t[..|t| - 1], base);
    }
  }

  lemma {:induction false} TrailingZeros(t: string, k: nat, base: nat)
    requires IsBase(base)
    ensures Value(t + Repeat('0', k), base) == Scale(Value(t, base), base, k)
    decreases k
  {
    if k == 0 {
      assert t + Repeat('0', k) == t;
    } else {
      TrailingZeros(t, k - 1, base);
      assert t + Repeat('0', k) == t + Repeat('0', k - 1) + ['0'];
      ValueConcatDigit(t + Repeat('0', k - 1), '0', base);
    }
  }

  /** Zeros behind a number change it unless it is zero. */
  lemma {:induction false} ScaleGrows(v: nat, base: nat, k: nat)
    requires IsBase(base)
    ensures Scale(v, base, k) >= v
    ensures Scale(v, base, k) == v <==> v == 0 || k == 0
    decreases k
  {
    if k > 0 {
      ScaleGrows(v, base, k - 1);
    }
  }

  // ------------------------------------------------------------------------------------------
  // The conversion in place

  /** What is still to be written once v is left: nothing for 0. */
  ghost function Left(v: nat, base: nat, lower: bool): string
    requires IsBase(base)
  {
    if v == 0 then "" else RevText(v, base, lower)
  }

  /** One round of the loop: writes the last digit of v at buf[n] and drops it from v. */
  method PutDigit(v: nat, buf: array<char>, n: nat, base: nat, lower: bool) returns (v': nat)
    requires IsBase(base) && n < buf.Length
    modifies buf
    ensures v' == Front(v, base)
    ensures RevText(v, base, lower) == [buf[n]] + Left(v', base, lower)
    ensures forall i | 0 <= i < buf.Length && i != n :: buf[i] == old(buf[i])
  {
    buf[n] := DigitChar(Last(v, base), lower);
    v' := Front(v, base);
  }

  /** Writes the digits of val at the front of buf, least significant first. */
  method UtoaRev(val: nat, buf: array<char>, base: nat, lower: bool) returns (n: nat)
    requires IsBase(base) && |RevText(val, base, lower)| <= buf.Length
    modifies buf
    ensures n == |RevText(val, base, lower)| && buf[..n] == RevText(val, base, lower)
    ensures forall i | n <= i < buf.Length :: buf[i] == old(buf[i])
  {
    ghost var all := RevText(val, base, lower);
    var v := PutDigit(val, buf, 0, base, lower);
    n := 1;
    while v != 0
      invariant n <= |all| && forall i | 0 <= i < n :: buf[i] == all[i]
      invariant all[n..] == Left(v, base, lower)
      invariant forall i | n <= i < buf.Length :: buf[i] == old(buf[i])
      decreases v
    {
      ghost var rest := all[n..];
      v := PutDigit(v, buf, n, base, lower);
      assert rest[0] == all[n] && rest[1..] == all[n + 1..];
      n := n + 1;
    }
  }
}
