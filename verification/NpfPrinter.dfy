/**
  nanoprintf as it runs (kernel/src/tpf/npf.h): the counting, truncating buffer sink, the printing of
  one conversion, the main loop and npf_vsnprintf, proved against the pure formatter.
  */
module NpfPrinter {
  import opened NpfDigits
  import opened NpfSpec
  import opened NpfFormat

  /** What a buffer of which the first `len` bytes are open holds after `text` was sent to it. */
  ghost function Stored(text: string, len: nat, before: string): (r: string)
    requires len <= |before|
    ensures |r| == |before|
  {
    if |text| <= len then text + before[|text|..] else text[..len] + before[len..]
  }

  /** The bits of u from k - 1 down to 0. */
  ghost function BitText(u: nat, k: nat): (t: string)
    ensures |t| == k
  {
    if k == 0 then "" else [DigitChar(ShiftRight(u, k - 1) % 2, true)] + BitText(u, k - 1)
  }

  lemma {:induction false} BitTextAt(u: nat, k: nat, i: nat)
    requires i < k
    ensures BitText(u, k)[i] == DigitChar(ShiftRight(u, k - 1 - i) % 2, true)
    decreases k
  {
    if i > 0 {
      BitTextAt(u, k - 1, i - 1);
    }
  }

  /** Shifting out the bits from the top prints the same text as dividing by two from the bottom. */
  lemma {:induction false} BitTextIsBinary(u: nat, lower: bool)
    ensures BitText(u, BinLen(u)) == Reverse(RevText(u, 2, lower))
  {
    var t, r := BitText(u, BinLen(u)), Reverse(RevText(u, 2, lower));
    BinaryDigit(u, 0, lower);
    forall i | 0 <= i < |t| ensures t[i] == r[i] {
      SameBit(u, i, lower);
    }
  }

  lemma {:induction false} SameBit(u: nat, i: nat, lower: bool)
    requires i < BinLen(u)
    ensures |RevText(u, 2, lower)| == BinLen(u)
    ensures BitText(u, BinLen(u))[i] == Reverse(RevText(u, 2, lower))[i]
  {
    BitTextAt(u, BinLen(u), i);
    BinaryDigit(u, BinLen(u) - 1 - i, lower);
  }

  /**
    A converted argument: `length` bytes of the conversion buffer (reversed), of `memory` for a string
    argument, or that many bits of `binval` for a binary one.
    */
  datatype Item = Item(
    spec: Spec, sign: char, prefix: char, length: nat, zero: bool, memory: string, binval: nat)

  ghost predicate Shows(item: Item, cbuf: string, p: Payload) {
    && item.spec == p.spec && item.sign == p.sign && item.prefix == p.prefix && item.zero == p.zero
    && item.length == |p.digits|
    && (if p.spec.conv.Text? then item.length <= |item.memory| && item.memory[..item.length] == p.digits
        else if p.spec.conv.Binary? then BitText(item.binval, item.length) == p.digits
        else item.length <= |cbuf| && Reverse(cbuf[..item.length]) == p.digits)
  }

  // ------------------------------------------------------------------------------------------
  // Extracting and converting the argument

  method TakeStarArguments(s: Spec, args: seq<Arg>) returns (spec: Spec, rest: seq<Arg>)
    requires TakeStars(s, args).Starred?
    ensures TakeStars(s, args) == Starred(spec, rest)
  {
    spec, rest := s, args;
    if spec.widthOpt.Star? {
      spec, rest := spec.(width := Signed(rest[0].bits, NoLength)), rest[1..];
      if spec.width < 0 {
        spec := spec.(width := -spec.width, left := true);
      }
    }
    if spec.precOpt.Star? {
      spec, rest := spec.(prec := Signed(rest[0].bits, NoLength)), rest[1..];
      if spec.prec < 0 {
        spec := spec.(precOpt := NoOpt);
      }
    }
  }

  /** The text ends at its NUL or at the precision, whichever comes first; nothing behind that is read. */
  method MeasureString(memory: string, s: Spec) returns (length: nat)
    requires StringEnd(memory, 0, s).Some?
    ensures StringEnd(memory, 0, s) == Some(length) && EndsAt(memory, s, length)
  {
    StringEndMeans(memory, s);
    length := 0;
    while (s.precOpt.NoOpt? || length < s.prec) && memory[length] != '\0'
      invariant length <= |memory| && StringEnd(memory, length, s) == StringEnd(memory, 0, s)
      decreases |memory| - length
    {
      length := length + 1;
    }
  }

  /** The absolute value by negation modulo 2^64. */
  function Magnitude(val: int): (u: nat)
    requires -0x8000_0000_0000_0000 <= val < 0x1_0000_0000_0000_0000
    ensures u == Abs(val)
  {
    if val < 0 then (0x1_0000_0000_0000_0000 - (val + 0x1_0000_0000_0000_0000)) % 0x1_0000_0000_0000_0000 else val
  }

  /** The second character of a prefix. */
  function PrefixChar(c: char, lower: bool): (r: char)
    requires c == 'X' || c == 'B'
    ensures r == if !lower then c else if c == 'X' then 'x' else 'b'
  {
    (c as int + if lower then 32 else 0) as char
  }

  lemma {:induction false} PlainDigits(s: Spec, v: int)
    requires !PrintsNothing(s, v) && !(s.conv.Octal? && s.alt && v != 0)
    ensures NumberDigits(s, v) == Reverse(RevText(Abs(v), BaseOf(s.conv), s.lower || s.conv.Pointer?))
  {
    var t := Reverse(RevText(Abs(v), BaseOf(s.conv), s.lower || s.conv.Pointer?));
    assert "" + t == t;
  }

  method DecimalText(s: Spec, val: int, cbuf: array<char>) returns (length: nat)
    requires s.conv.SignedInt? && !PrintsNothing(s, val) && cbuf.Length == 23
    requires -0x8000_0000_0000_0000 <= val < 0x1_0000_0000_0000_0000
    modifies cbuf
    ensures length <= 23 && Reverse(cbuf[..][..length]) == NumberDigits(s, val)
  {
    var uval := Magnitude(val);
    FitsBuffer(uval, 10, s.lower);
    length := UtoaRev(uval, cbuf, 10, s.lower);
    assert cbuf[..][..length] == cbuf[..length];
    PlainDigits(s, val);
  }

  /** 'X' or 'B' in the alternative form of a nonzero value, case adjusted. */
  method AltPrefix(s: Spec, val: nat) returns (prefix: char)
    requires IsInteger(s.conv) && !s.conv.Pointer?
    ensures prefix == NumberPrefix(s, val)
  {
    prefix := '\0';
    if val != 0 && s.alt {
      if s.conv.Hex? {
        prefix := 'X';
      } else if s.conv.Binary? {
        prefix := 'B';
      }
      if prefix != '\0' {
        prefix := PrefixChar(prefix, s.lower);
      }
    }
  }

  method ConvertSigned(s: Spec, bits: nat, cbuf: array<char>) returns (item: Item)
    requires s.conv.SignedInt? && cbuf.Length == 23
    modifies cbuf
    ensures Shows(item, cbuf[..], IntegerPayload(s, bits))
  {
    var val := Signed(bits, s.length);
    var sign := if val < 0 then '-' else s.prepend;
    var length := 0;
    if val == 0 && !s.precOpt.NoOpt? && s.prec == 0 {
      length := 0;
    } else {
      length := DecimalText(s, val, cbuf);
    }
    item := Item(s, sign, '\0', length, val == 0, "", 0);
  }

  lemma {:induction false} BinaryDigits(s: Spec, v: nat)
    requires s.conv.Binary? && !PrintsNothing(s, v)
    ensures NumberDigits(s, v) == BitText(v, BinLen(v))
  {
    BitTextIsBinary(v, s.lower);
    PlainDigits(s, v);
  }

  method ConvertBinary(s: Spec, bits: nat) returns (item: Item)
    requires s.conv.Binary?
    ensures Shows(item, "", IntegerPayload(s, bits))
  {
    var val := Unsigned(bits, s.length);
    var length := 0;
    if val == 0 && !s.precOpt.NoOpt? && s.prec == 0 {
      length := 0;
    } else {
      length := BinLen(val);
      BinaryDigits(s, val);
    }
    var prefix := AltPrefix(s, val);
    item := Item(s, '\0', prefix, length, val == 0, "", val);
  }

  method ConvertUnsigned(s: Spec, bits: nat, cbuf: array<char>) returns (item: Item)
    requires (s.conv.Octal? || s.conv.Hex? || s.conv.UnsignedInt?) && cbuf.Length == 23
    modifies cbuf
    ensures Shows(item, cbuf[..], IntegerPayload(s, bits))
  {
    var val := Unsigned(bits, s.length);
    var spec, length := s, 0;
    if val == 0 && !s.precOpt.NoOpt? && s.prec == 0 {
      if s.conv.Octal? && s.alt {
        spec := spec.(prec := 1);
      }
    } else {
      FitsBuffer(val, BaseOf(s.conv), s.lower);
      length := UtoaRev(val, cbuf, BaseOf(s.conv), s.lower);
    }
    ghost var plain := cbuf[..length];
    if val != 0 && s.alt && s.conv.Octal? {
      cbuf[length] := '0';
      length := length + 1;
      ReverseLast(plain, '0');
      assert cbuf[..length] == plain + "0";
    } else {
      assert "" + Reverse(plain) == Reverse(plain);
    }
    var prefix := AltPrefix(s, val);
    assert cbuf[..][..length] == cbuf[..length];
    item := Item(spec, '\0', prefix, length, val == 0, "", 0);
  }

  lemma {:induction false} ReverseLast(t: string, c: char)
    ensures Reverse(t + [c]) == [c] + Reverse(t)
    decreases |t|
  {
    if t == "" {
      assert t + [c] == [c];
    } else {
      assert (t + [c])[1..] == t[1..] + [c];
      ReverseLast(t[1..], c);
    }
  }

  method ConvertPointer(s: Spec, bits: nat, cbuf: array<char>) returns (item: Item)
    requires s.conv.Pointer? && cbuf.Length == 23
    modifies cbuf
    ensures Shows(item, cbuf[..], IntegerPayload(s, bits))
  {
    var val := bits % 0x1_0000_0000_0000_0000;
    FitsBuffer(val, 16, true);
    var length := UtoaRev(val, cbuf, 16, true);
    assert cbuf[..][..length] == cbuf[..length];
    PlainDigits(s, val);
    item := Item(s, '\0', 'x', length, false, "", 0);
  }

  method ConvertInteger(s: Spec, bits: nat, cbuf: array<char>) returns (item: Item)
    requires IsInteger(s.conv) && cbuf.Length == 23
    modifies cbuf
    ensures Shows(item, cbuf[..], IntegerPayload(s, bits))
  {
    if s.conv.SignedInt? {
      item := ConvertSigned(s, bits, cbuf);
    } else if s.conv.Binary? {
      item := ConvertBinary(s, bits);
    } else if s.conv.Pointer? {
      item := ConvertPointer(s, bits, cbuf);
    } else {
      item := ConvertUnsigned(s, bits, cbuf);
    }
  }

  method ConvertByte(s: Spec, c: char, cbuf: array<char>) returns (item: Item)
    requires (s.conv.Percent? || s.conv.Character?) && cbuf.Length == 23
    modifies cbuf
    ensures Shows(item, cbuf[..], Payload(s, '\0', '\0', [c], false))
  {
    cbuf[0] := c;
    item := Item(s, '\0', '\0', 1, false, "", 0);
    assert cbuf[..][..1] == [c];
  }

  method ConvertArgument(s: Spec, args: seq<Arg>, cbuf: array<char>) returns (item: Item, rest: seq<Arg>)
    requires Convert(s, args).Converted? && cbuf.Length == 23
    modifies cbuf
    ensures rest == Convert(s, args).rest && Shows(item, cbuf[..], Convert(s, args).payload)
  {
    rest := if s.conv.Percent? then args else args[1..];
    if s.conv.Percent? {
      item := ConvertByte(s, '%', cbuf);
    } else if s.conv.Character? {
      item := ConvertByte(s, (args[0].bits % 256) as char, cbuf);
    } else if s.conv.Text? {
      var length := MeasureString(args[0].memory, s);
      item := Item(s, '\0', '\0', length, false, args[0].memory, 0);
    } else {
      item := ConvertInteger(s, args[0].bits, cbuf);
    }
  }

  // ------------------------------------------------------------------------------------------
  // The sink and the main loop

  /** The field width pad character. */
  method PadCharacter(s: Spec, zero: bool) returns (padC: char)
    ensures padC == PadChar(s, zero)
  {
    padC := '\0';
    if !s.widthOpt.NoOpt? {
      if s.zeroPad {
        if !s.conv.Text? && !s.conv.Character? && !s.conv.Percent? {
          if !s.precOpt.NoOpt? && s.prec == 0 && zero {
            padC := ' ';
          } else {
            padC := '0';
          }
        }
      } else {
        padC := ' ';
      }
    }
  }

  /** A call of npf_vpprintf through the counting sink into a buffer, or into nothing if `dst` is null. */
  class Printer {
    const dst: array?<char>
    const len: nat
    var cur: nat
    var n: nat
    ghost var out: string
    ghost const before: string

    ghost predicate Valid()
      reads this, dst
    {
      && n == |out|
      && (dst != null ==>
            && len <= dst.Length == |before|
            && cur == (if |out| <= len then |out| else len)
            && dst[..] == Stored(out, len, before))
    }

    constructor (dst: array?<char>, len: nat)
      requires dst != null ==> len <= dst.Length
      ensures Valid() && out == "" && this.dst == dst && this.len == len
      ensures dst != null ==> before == dst[..]
    {
      this.dst, this.len, cur, n, out := dst, len, 0, 0, "";
      before := if dst == null then "" else dst[..];
    }

    /** npf_bufputc, and npf_bufputc_nop for a null buffer. */
    method Store(c: char)
      requires dst != null ==> len <= dst.Length
      modifies this`cur, dst
      ensures dst == null || old(cur) >= len ==> cur == old(cur)
      ensures dst != null && old(cur) >= len ==> dst[..] == old(dst[..])
      ensures dst != null && old(cur) < len ==> cur == old(cur) + 1 && dst[..] == old(dst[..])[old(cur) := c]
    {
      if dst != null {
        if cur < len {
          dst[cur] := c;
          cur := cur + 1;
        }
      }
    }

    /** npf_putc_cnt. */
    method PutC(c: char)
      requires Valid()
      modifies this, dst
      ensures Valid() && out == old(out) + [c]
    {
      n := n + 1;
      Store(c);
      if dst != null {
        StoredOneMore(out, c, len, before);
      }
      out := out + [c];
    }

    /** `while (k-- > 0)` around a put. */
    method PutRepeated(c: char, k: nat)
      requires Valid()
      modifies this, dst
      ensures Valid() && out == old(out) + Repeat(c, k)
    {
      var i: nat := k;
      while i > 0
        invariant i <= k && Valid() && out == old(out) + Repeat(c, k - i)
      {
        PutC(c);
        i := i - 1;
        assert Repeat(c, k - i) == Repeat(c, k - i - 1) + [c];
      }
    }

    /** Puts a character that is there. */
    method PutSign(sign: char)
      requires Valid()
      modifies this, dst
      ensures Valid() && out == old(out) + if sign == '\0' then "" else [sign]
    {
      if sign != '\0' {
        PutC(sign);
      }
    }

    method PutPrefix(prefix: char)
      requires Valid()
      modifies this, dst
      ensures Valid() && out == old(out) + if prefix == '\0' then "" else ['0', prefix]
    {
      if prefix != '\0' {
        PutC('0');
        PutC(prefix);
      }
    }

    method PutString(memory: string, length: nat)
      requires Valid() && length <= |memory|
      modifies this, dst
      ensures Valid() && out == old(out) + memory[..length]
    {
      for i := 0 to length
        invariant Valid() && out == old(out) + memory[..i]
      {
        PutC(memory[i]);
        assert memory[..i + 1] == memory[..i] + [memory[i]];
      }
    }

    method PutBits(binval: nat, length: nat)
      requires Valid()
      modifies this, dst
      ensures Valid() && out == old(out) + BitText(binval, length)
    {
      var k: nat := length;
      while k > 0
        invariant k <= length && Valid()
        invariant out + BitText(binval, k) == old(out) + BitText(binval, length)
      {
        k := k - 1;
        ghost var sent := out;
        var c := DigitChar(ShiftRight(binval, k) % 2, true);
        PutC(c);
        Assoc(sent, [c], BitText(binval, k));
      }
      assert BitText(binval, 0) == "" && out + "" == out;
    }

    method PutReversed(cbuf: array<char>, length: nat)
      requires Valid() && length <= cbuf.Length && cbuf != dst
      modifies this, dst
      ensures Valid() && out == old(out) + Reverse(cbuf[..length])
    {
      var k: nat := length;
      while k > 0
        invariant k <= length && Valid() && cbuf[..] == old(cbuf[..])
        invariant out + Reverse(cbuf[..k]) == old(out) + Reverse(cbuf[..length])
      {
        k := k - 1;
        ghost var sent := out;
        PutC(cbuf[k]);
        assert cbuf[..k + 1] == cbuf[..k] + [cbuf[k]];
        ReverseLast(cbuf[..k], cbuf[k]);
        Assoc(sent, [cbuf[k]], Reverse(cbuf[..k]));
      }
      assert Reverse(cbuf[..0]) == "" && out + "" == out;
    }

    method PutDigits(item: Item, cbuf: array<char>, ghost p: Payload)
      requires Valid() && Shows(item, cbuf[..], p) && cbuf != dst
      modifies this, dst
      ensures Valid() && out == old(out) + p.digits
    {
      if item.spec.conv.Text? {
        PutString(item.memory, item.length);
      } else if item.spec.conv.Binary? {
        PutBits(item.binval, item.length);
      } else {
        assert cbuf[..][..item.length] == cbuf[..item.length];
        PutReversed(cbuf, item.length);
      }
    }

    /** Sign, precision zeros and payload. */
    method PutNumber(item: Item, sign: char, precPad: nat, cbuf: array<char>, ghost p: Payload)
      requires Valid() && Shows(item, cbuf[..], p) && cbuf != dst
      modifies this, dst
      ensures Valid()
      ensures out == old(out) + (if sign == '\0' then "" else [sign]) + Repeat('0', precPad) + p.digits
    {
      PutSign(sign);
      PutRepeated('0', precPad);
      PutDigits(item, cbuf, p);
    }

    /** The padding and the text of one converted argument. */
    method EmitItem(item: Item, cbuf: array<char>, ghost p: Payload)
      requires Valid() && Shows(item, cbuf[..], p) && cbuf != dst
      modifies this, dst
      ensures Valid() && out == old(out) + Emit(p)
    {
      var s := item.spec;
      var padC := PadCharacter(s, item.zero);
      var precPad := if s.conv.Text? then 0 else Max(0, s.prec - item.length);
      var fieldPad := s.width - item.length - (if item.sign == '\0' then 0 else 1);
      if item.prefix != '\0' {
        fieldPad := fieldPad - 2;
      }
      fieldPad := Max(0, fieldPad - precPad);
      if !s.left && padC == '0' {
        EmitZeros(item, fieldPad, precPad, cbuf, p);
      } else if !s.left && padC == ' ' {
        EmitBlanks(item, fieldPad, precPad, cbuf, p);
      } else {
        EmitLeft(item, padC, fieldPad, precPad, cbuf, p);
      }
    }

    /** Right-justified with zeros: the sign goes first, then the prefix. */
    method EmitZeros(item: Item, fieldPad: nat, precPad: nat, cbuf: array<char>, ghost p: Payload)
      requires Valid() && Shows(item, cbuf[..], p) && cbuf != dst
      requires !p.spec.left && PadChar(p.spec, p.zero) == '0' && fieldPad == FieldPad(p) && precPad == PrecPad(p)
      modifies this, dst
      ensures Valid() && out == old(out) + Emit(p)
    {
      PutSign(item.sign);
      PutPrefix(item.prefix);
      PutRepeated('0', fieldPad);
      PutNumber(item, '\0', precPad, cbuf, p);
      JoinFive(old(out), SignText(p), PrefixText(p), Repeat('0', fieldPad), Repeat('0', precPad), p.digits);
    }

    /** Right-justified with blanks: the prefix goes behind them. */
    method EmitBlanks(item: Item, fieldPad: nat, precPad: nat, cbuf: array<char>, ghost p: Payload)
      requires Valid() && Shows(item, cbuf[..], p) && cbuf != dst
      requires !p.spec.left && PadChar(p.spec, p.zero) == ' ' && fieldPad == FieldPad(p) && precPad == PrecPad(p)
      modifies this, dst
      ensures Valid() && out == old(out) + Emit(p)
    {
      PutRepeated(' ', fieldPad);
      PutPrefix(item.prefix);
      PutNumber(item, item.sign, precPad, cbuf, p);
      JoinFive(old(out), Repeat(' ', fieldPad), PrefixText(p), SignText(p), Repeat('0', precPad), p.digits);
    }

    method EmitLeft(item: Item, padC: char, fieldPad: nat, precPad: nat, cbuf: array<char>, ghost p: Payload)
      requires Valid() && Shows(item, cbuf[..], p) && cbuf != dst
      requires p.spec.left || padC == '\0'
      requires padC == PadChar(p.spec, p.zero) && fieldPad == FieldPad(p) && precPad == PrecPad(p)
      modifies this, dst
      ensures Valid() && out == old(out) + Emit(p)
    {
      PutPrefix(item.prefix);
      PutNumber(item, item.sign, precPad, cbuf, p);
      if item.spec.left && padC != '\0' {
        PutRepeated(padC, fieldPad);
      }
      ghost var pad := if padC == '\0' then "" else Repeat(padC, fieldPad);
      JoinFive(old(out), PrefixText(p), SignText(p), Repeat('0', precPad), p.digits, pad);
    }

    /** One conversion: its star arguments, its argument, its text. */
    method PrintConversion(s: Spec, args: seq<Arg>, cbuf: array<char>, ghost p: Payload, ghost after: seq<Arg>)
      returns (rest: seq<Arg>)
      requires Valid() && cbuf.Length == 23 && cbuf != dst && ConvertNext(s, args) == Converted(p, after)
      modifies this, dst, cbuf
      ensures Valid() && rest == after && out == old(out) + Emit(p)
    {
      var spec, left := TakeStarArguments(s, args);
      var item;
      item, rest := ConvertArgument(spec, left, cbuf);
      EmitItem(item, cbuf, p);
    }

    /** A specification of the main loop; `ahead` and `behind` are what is still to be printed. */
    method PrintSpec(f: string, at: nat, args: seq<Arg>, fs: Spec, fsLen: nat, cbuf: array<char>, ghost ahead: string)
      returns (cur: nat, rest: seq<Arg>, ghost behind: string)
      requires Valid() && cbuf.Length == 23 && cbuf != dst
      requires CString(f) && 0 < fsLen < |f| - at && Conversion(fs, args, f, at + fsLen) == Output(ahead)
      modifies this, dst, cbuf
      ensures Valid() && at < cur < |f|
      ensures Format(f, cur, rest) == Output(behind) && out + behind == old(out) + ahead
    {
      ghost var p, after;
      p, after, behind := ConversionStep(fs, args, f, at + fsLen, out, ahead);
      rest := PrintConversion(fs, args, cbuf, p, after);
      cur := at + fsLen;
    }

    /** One round of the main loop: a character as it stands, or a specification. */
    method PrintNext(f: string, at: nat, args: seq<Arg>, cbuf: array<char>, ghost ahead: string)
      returns (cur: nat, rest: seq<Arg>, ghost behind: string)
      requires Valid() && cbuf.Length == 23 && cbuf != dst
      requires CString(f) && at < |f| && f[at] != '\0' && Format(f, at, args) == Output(ahead)
      modifies this, dst, cbuf
      ensures Valid() && at < cur < |f|
      ensures Format(f, cur, rest) == Output(behind) && out + behind == old(out) + ahead
    {
      var fs, fsLen := BLANK, 0;
      if f[at] == '%' {
        fs, fsLen := ParseFormatSpec(f, at);
      }
      if fsLen == 0 {
        behind := CharacterStep(f, at, args, out, ahead);
        PutC(f[at]);
        cur, rest := at + 1, args;
      } else {
        FormatSpec(f, at, fs, fsLen, args);
        cur, rest, behind := PrintSpec(f, at, args, fs, fsLen, cbuf, ahead);
      }
    }

    /** npf_vpprintf: sends exactly what the pure formatter says and returns how much that was. */
    method Vpprintf(f: string, args: seq<Arg>) returns (count: nat)
      requires Valid() && out == "" && CString(f) && Format(f, 0, args).Output?
      modifies this, dst
      ensures Valid() && out == Format(f, 0, args).text && count == |out|
    {
      var cur, rest, cbuf := 0, args, new char[23];
      ghost var all := Format(f, 0, args).text;
      ghost var ahead := all;
      assert "" + all == all;
      while f[cur] != '\0'
        invariant cur < |f| && Valid() && cbuf != dst && fresh(cbuf)
        invariant Format(f, cur, rest) == Output(ahead) && out + ahead == all
        decreases |f| - cur
      {
        cur, rest, ahead := PrintNext(f, cur, rest, cbuf, ahead);
      }
      assert out + "" == out;
      count := n;
    }
  }

  /** A character that starts no specification. */
  lemma {:induction false} CharacterStep(f: string, i: nat, args: seq<Arg>, sent: string, ahead: string)
    returns (behind: string)
    requires CString(f) && i < |f| && f[i] != '\0' && (f[i] == '%' ==> Parse(f, i).Malformed?)
    requires Format(f, i, args) == Output(ahead)
    ensures i + 1 < |f| && Format(f, i + 1, args) == Output(behind)
    ensures sent + [f[i]] + behind == sent + ahead
  {
    behind := Format(f, i + 1, args).text;
    Assoc(sent, [f[i]], behind);
  }

  /** A conversion, then the rest. */
  lemma {:induction false} ConversionStep(
    s: Spec, args: seq<Arg>, f: string, next: nat, sent: string, ahead: string)
    returns (p: Payload, rest: seq<Arg>, behind: string)
    requires CString(f) && next < |f| && Conversion(s, args, f, next) == Output(ahead)
    ensures ConvertNext(s, args) == Converted(p, rest)
    ensures Format(f, next, rest) == Output(behind)
    ensures sent + Emit(p) + behind == sent + ahead
  {
    var c := ConvertNext(s, args);
    p, rest, behind := c.payload, c.rest, Format(f, next, c.rest).text;
    Assoc(sent, Emit(p), behind);
  }

  /** The buffer after npf_vsnprintf: as much as fits before the last byte, a NUL, and a NUL at the end. */
  ghost function Truncated(text: string, bufsz: nat, before: string): (r: string)
    requires 0 < bufsz <= |before|
    ensures |r| == |before|
  {
    Stored(text + "\0", bufsz, before)[bufsz - 1 := '\0']
  }

  /** A buffer that is too short holds a prefix, one that is not holds everything; both are terminated. */
  lemma {:induction false} TruncatedHolds(text: string, bufsz: nat, before: string)
    requires 0 < bufsz <= |before|
    ensures var k := if |text| < bufsz then |text| else bufsz - 1;
            var r := Truncated(text, bufsz, before);
            && r[..k] == text[..k] && r[k] == '\0' && r[bufsz - 1] == '\0'
            && (k < bufsz - 1 ==> r[k + 1..bufsz - 1] == before[k + 1..bufsz - 1])
            && r[bufsz..] == before[bufsz..]
  {
  }

  /** npf_vsnprintf: the full length is returned whatever the buffer holds, also for a null buffer. */
  method Vsnprintf(buffer: array?<char>, bufsz: nat, f: string, args: seq<Arg>) returns (count: nat)
    requires buffer != null ==> bufsz <= buffer.Length
    requires CString(f) && Format(f, 0, args).Output?
    modifies buffer
    ensures count == |Format(f, 0, args).text|
    ensures buffer != null ==>
      buffer[..] == if bufsz == 0 then old(buffer[..]) else Truncated(Format(f, 0, args).text, bufsz, old(buffer[..]))
  {
    var printer := new Printer(buffer, bufsz);
    count := printer.Vpprintf(f, args);
    ghost var text := printer.out;
    printer.Store('\0');
    if buffer != null {
      StoredOneMore(text, '\0', bufsz, printer.before);
      if bufsz != 0 {
        buffer[bufsz - 1] := '\0';
      }
    }
  }

  lemma {:induction false} JoinFive(t: string, a: string, b: string, c: string, d: string, e: string)
    ensures t + a + b + c + d + e == t + (a + b + c + d + e)
  {
    Assoc(t, a, b);
    Assoc(t, a + b, c);
    Assoc(t, a + b + c, d);
    Assoc(t, a + b + c + d, e);
  }

  lemma {:induction false} StoredOneMore(text: string, c: char, len: nat, before: string)
    requires len <= |before|
    ensures Stored(text + [c], len, before) ==
      if |text| < len then Stored(text, len, before)[|text| := c] else Stored(text, len, before)
  {
  }
}
