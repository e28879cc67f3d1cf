/**
  What nanoprintf prints (kernel/src/tpf/npf.h, npf_vpprintf) as a pure function of the format and the
  arguments, and what an integer conversion's text says when it is read again.
  */
module NpfFormat {
  import opened NpfDigits
  import opened NpfSpec

  /** A variable argument: a 64-bit pattern, or a pointer to the memory it points to. */
  datatype Arg = Bits(bits: nat) | Str(memory: string)

  // ------------------------------------------------------------------------------------------
  // Extracting an integer argument

  /** How many values the type named by the length modifier has, on the x86-64 target. */
  function Values(length: Length): (m: nat)
    ensures m == 0x100 || m == 0x1_0000 || m == 0x1_0000_0000 || m == 0x1_0000_0000_0000_0000
  {
    match length
    case Char => 0x100
    case Short => 0x1_0000
    case NoLength => 0x1_0000_0000
    case _ => 0x1_0000_0000_0000_0000
  }

  function Unsigned(bits: nat, length: Length): (u: nat)
    ensures u < Values(length)
  {
    match length
    case Char => bits % 0x100
    case Short => bits % 0x1_0000
    case NoLength => bits % 0x1_0000_0000
    case _ => bits % 0x1_0000_0000_0000_0000
  }

  /** Two's complement. */
  function Signed(bits: nat, length: Length): (v: int)
    ensures -(Values(length) as int) <= 2 * v < Values(length)
  {
    var u: int := Unsigned(bits, length);
    if 2 * u >= Values(length) then u - Values(length) else u
  }

  /** The extracted value and the argument differ by a multiple of the size of the type. */
  lemma {:induction false} SignedMeans(bits: nat, length: Length) returns (k: int)
    ensures match length
      case Char => bits == Signed(bits, length) + 0x100 * k
      case Short => bits == Signed(bits, length) + 0x1_0000 * k
      case NoLength => bits == Signed(bits, length) + 0x1_0000_0000 * k
      case _ => bits == Signed(bits, length) + 0x1_0000_0000_0000_0000 * k
  {
    k := match length
      case Char => bits / 0x100
      case Short => bits / 0x1_0000
      case NoLength => bits / 0x1_0000_0000
      case _ => bits / 0x1_0000_0000_0000_0000;
    if Signed(bits, length) < 0 {
      k := k + 1;
    }
  }

  predicate IsInteger(c: Conv) {
    !c.Percent? && !c.Character? && !c.Text?
  }

  function BaseOf(c: Conv): (b: nat)
    ensures IsBase(b)
  {
    match c
    case Binary => 2
    case Octal => 8
    case Hex => 16
    case Pointer => 16
    case _ => 10
  }

  /** The value an integer conversion prints. */
  function Number(s: Spec, bits: nat): (v: int)
    ensures -0x8000_0000_0000_0000 <= v < 0x1_0000_0000_0000_0000
    ensures v < 0 ==> s.conv.SignedInt?
  {
    match s.conv
    case SignedInt => Signed(bits, s.length)
    case Pointer => bits % 0x1_0000_0000_0000_0000
    case _ => Unsigned(bits, s.length)
  }

  // ------------------------------------------------------------------------------------------
  // What is to be printed, before padding

  /** `sign` and `prefix` are '\0' when there is none; the prefix stands for '0' and that character. */
  datatype Payload = Payload(spec: Spec, sign: char, prefix: char, digits: string, zero: bool)

  function Abs(v: int): nat {
    if v < 0 then -v else v
  }

  /** Zero value and an explicit zero precision: no digits. */
  predicate PrintsNothing(s: Spec, v: int) {
    v == 0 && !s.precOpt.NoOpt? && s.prec == 0 && !s.conv.Pointer?
  }

  ghost function NumberDigits(s: Spec, v: int): string {
    if PrintsNothing(s, v) then ""
    else
      (if s.conv.Octal? && s.alt && v != 0 then "0" else "")
      + Reverse(RevText(Abs(v), BaseOf(s.conv), s.lower || s.conv.Pointer?))
  }

  function NumberPrefix(s: Spec, v: int): char {
    if s.conv.Pointer? then 'x'
    else if v == 0 || !s.alt then '\0'
    else if s.conv.Hex? then (if s.lower then 'x' else 'X')
    else if s.conv.Binary? then (if s.lower then 'b' else 'B')
    else '\0'
  }

  ghost function IntegerPayload(s: Spec, bits: nat): Payload {
    var v := Number(s, bits);
    Payload(
      if PrintsNothing(s, v) && s.conv.Octal? && s.alt then s.(prec := 1) else s,
      if !s.conv.SignedInt? then '\0' else if v < 0 then '-' else s.prepend,
      NumberPrefix(s, v),
      NumberDigits(s, v),
      v == 0 && !s.conv.Pointer?)
  }

  datatype Option<T> = None | Some(value: T)

  /** The end of a string argument: its NUL or the precision; None if the memory ends before that. */
  function StringEnd(memory: string, k: nat, s: Spec): (r: Option<nat>)
    ensures r.Some? ==> k <= r.value && (k <= |memory| ==> r.value <= |memory|)
    decreases |memory| - k
  {
    if !s.precOpt.NoOpt? && k >= s.prec then Some(k)
    else if k >= |memory| then None
    else if memory[k] == '\0' then Some(k)
    else StringEnd(memory, k + 1, s)
  }

  /** n is where the text of a string argument ends: at its first NUL or, if that comes first, at the precision. */
  ghost predicate EndsAt(memory: string, s: Spec, n: nat) {
    && n <= |memory| && (forall i | 0 <= i < n :: memory[i] != '\0')
    && (!s.precOpt.NoOpt? ==> n <= Max(0, s.prec))
    && ((!s.precOpt.NoOpt? && n == Max(0, s.prec)) || (n < |memory| && memory[n] == '\0'))
  }

  lemma {:induction false} StringEndFrom(memory: string, k: nat, s: Spec)
    requires k <= |memory| && (forall i | 0 <= i < k :: memory[i] != '\0')
    requires !s.precOpt.NoOpt? ==> k <= Max(0, s.prec)
    ensures var r := StringEnd(memory, k, s);
      if r.Some? then EndsAt(memory, s, r.value)
      else (forall i | 0 <= i < |memory| :: memory[i] != '\0') && (!s.precOpt.NoOpt? ==> |memory| < s.prec)
    decreases |memory| - k
  {
    if !(!s.precOpt.NoOpt? && k >= s.prec) && k < |memory| && memory[k] != '\0' {
      StringEndFrom(memory, k + 1, s);
    }
  }

  /** The scan finds that end, and fails exactly when the memory ends before it. */
  lemma {:induction false} StringEndMeans(memory: string, s: Spec)
    ensures forall n: nat :: StringEnd(memory, 0, s) == Some(n) <==> EndsAt(memory, s, n)
    ensures StringEnd(memory, 0, s).None? <==>
      (forall i | 0 <= i < |memory| :: memory[i] != '\0') && (!s.precOpt.NoOpt? ==> |memory| < s.prec)
  {
    StringEndFrom(memory, 0, s);
  }

  datatype Argument = BadArguments | Converted(payload: Payload, rest: seq<Arg>)

  /** The argument of one conversion; undefined if it is missing or of the wrong kind. */
  ghost function Convert(s: Spec, args: seq<Arg>): Argument {
    if s.conv.Percent? then Converted(Payload(s, '\0', '\0', "%", false), args)
    else if args == [] then BadArguments
    else
      match args[0]
      case Bits(bits) =>
        if s.conv.Text? then BadArguments
        else if s.conv.Character? then Converted(Payload(s, '\0', '\0', [(bits % 256) as char], false), args[1..])
        else Converted(IntegerPayload(s, bits), args[1..])
      case Str(memory) =>
        if !s.conv.Text? || StringEnd(memory, 0, s).None? then BadArguments
        else Converted(Payload(s, '\0', '\0', memory[..StringEnd(memory, 0, s).value], false), args[1..])
  }

  datatype Starred = NoStars | Starred(spec: Spec, rest: seq<Arg>)

  /** A star width: a negative one turns on left justification. */
  function TakeWidth(s: Spec, args: seq<Arg>): (r: Starred)
    ensures r.Starred? ==> r.spec.conv == s.conv
  {
    if !s.widthOpt.Star? then Starred(s, args)
    else if args == [] || args[0].Str? then NoStars
    else
      var width := Signed(args[0].bits, NoLength);
      Starred(if width < 0 then s.(width := -width, left := true) else s.(width := width), args[1..])
  }

  /** A star precision: a negative one counts as none given, but stays in the field. */
  function TakePrecision(s: Spec, args: seq<Arg>): (r: Starred)
    ensures r.Starred? ==> r.spec.conv == s.conv
  {
    if !s.precOpt.Star? then Starred(s, args)
    else if args == [] || args[0].Str? then NoStars
    else
      var prec := Signed(args[0].bits, NoLength);
      Starred(if prec < 0 then s.(prec := prec, precOpt := NoOpt) else s.(prec := prec), args[1..])
  }

  function TakeStars(s: Spec, args: seq<Arg>): (r: Starred)
    ensures r.Starred? ==> r.spec.conv == s.conv
  {
    var width := TakeWidth(s, args);
    if width.NoStars? then NoStars else TakePrecision(width.spec, width.rest)
  }

  // ------------------------------------------------------------------------------------------
  // Padding

  /** '\0' for no padding to the field width, otherwise ' ' or '0'. */
  function PadChar(s: Spec, zero: bool): (c: char)
    ensures c == '\0' || c == ' ' || c == '0'
  {
    if s.widthOpt.NoOpt? then '\0'
    else if !s.zeroPad then ' '
    else if !IsInteger(s.conv) then '\0'
    else if !s.precOpt.NoOpt? && s.prec == 0 && zero then ' '
    else '0'
  }

  function Max(x: int, y: int): int {
    if x > y then x else y
  }

  function PrecPad(p: Payload): nat {
    if p.spec.conv.Text? then 0 else Max(0, p.spec.prec - |p.digits|)
  }

  function SignText(p: Payload): string {
    if p.sign == '\0' then "" else [p.sign]
  }

  function PrefixText(p: Payload): string {
    if p.prefix == '\0' then "" else ['0', p.prefix]
  }

  function FieldPad(p: Payload): nat {
    Max(0, p.spec.width - |p.digits| - |SignText(p)| - |PrefixText(p)| - PrecPad(p))
  }

  /** The text of one conversion: zeros go behind sign and prefix, blanks before them. */
  ghost function Emit(p: Payload): string {
    var pad := PadChar(p.spec, p.zero);
    if !p.spec.left && pad == '0' then
      SignText(p) + PrefixText(p) + Repeat('0', FieldPad(p)) + Repeat('0', PrecPad(p)) + p.digits
    else if !p.spec.left && pad == ' ' then
      Repeat(' ', FieldPad(p)) + PrefixText(p) + SignText(p) + Repeat('0', PrecPad(p)) + p.digits
    else
      PrefixText(p) + SignText(p) + Repeat('0', PrecPad(p)) + p.digits
      + (if pad == '\0' then "" else Repeat(pad, FieldPad(p)))
  }

  /** The same conversion without a field width. */
  function Bare(p: Payload): Payload {
    p.(spec := p.spec.(width := 0, widthOpt := NoOpt))
  }

  /**
    Padding is added outside the bare conversion: blanks before it or, left-justified, the pad
    character behind it; and zeros in front are the same as a larger precision.
    */
  lemma {:induction false} PaddingIsOutside(p: Payload)
    requires p.sign == '\0' || p.prefix == '\0'
    ensures var pad, f := PadChar(p.spec, p.zero), FieldPad(p);
      if pad == '\0' then Emit(p) == Emit(Bare(p))
      else if p.spec.left then Emit(p) == Emit(Bare(p)) + Repeat(pad, f)
      else if pad == ' ' then Emit(p) == Repeat(' ', f) + Emit(Bare(p))
      else Emit(p) == Emit(Bare(p).(spec := Bare(p).spec.(prec := |p.digits| + PrecPad(p) + f)))
  {
    if PadChar(p.spec, p.zero) == '0' && !p.spec.left {
      ZerosWiden(p);
    } else if PadChar(p.spec, p.zero) == ' ' && !p.spec.left {
      BlanksOutside(Repeat(' ', FieldPad(p)), PrefixText(p), SignText(p), Repeat('0', PrecPad(p)), p.digits);
    }
  }

  lemma {:induction false} ZerosWiden(p: Payload)
    requires p.sign == '\0' || p.prefix == '\0'
    requires PadChar(p.spec, p.zero) == '0' && !p.spec.left
    ensures Emit(p) == Emit(Bare(p).(spec := Bare(p).spec.(prec := |p.digits| + PrecPad(p) + FieldPad(p))))
  {
    assert PrefixText(p) + SignText(p) == SignText(p) + PrefixText(p);
    ZerosArePrecision(SignText(p) + PrefixText(p), FieldPad(p), PrecPad(p), p.digits);
  }

  lemma {:induction false} BlanksOutside(b: string, x: string, y: string, z: string, d: string)
    ensures b + x + y + z + d + "" == b + (x + y + z + d + "")
  {
  }

  lemma {:induction false} ZerosArePrecision(front: string, f: nat, k: nat, digits: string)
    ensures front + Repeat('0', f) + Repeat('0', k) + digits == front + Repeat('0', k + f) + digits + ""
  {
  }

  /** Whatever the flags, an integer conversion is as long as the wider of its field and its number. */
  lemma {:induction false} EmitLength(s: Spec, bits: nat)
    requires IsInteger(s.conv)
    ensures var p := IntegerPayload(s, bits);
            |Emit(p)| == Max(if s.widthOpt.NoOpt? then 0 else s.width,
                             |SignText(p)| + |PrefixText(p)| + Max(p.spec.prec, |p.digits|))
  {
  }

  /** The digits of every conversion but binary fit the 23-byte buffer; binary never needs it. */
  lemma {:induction false} DigitsFit(s: Spec, bits: nat)
    requires IsInteger(s.conv)
    ensures !s.conv.Binary? ==> |NumberDigits(s, Number(s, bits))| <= 23
    ensures s.conv.Binary? ==> |NumberDigits(s, Number(s, bits))| <= BinLen(Number(s, bits)) <= 64
  {
    var v := Abs(Number(s, bits));
    if s.conv.Binary? {
      BinaryDigit(v, 0, s.lower || s.conv.Pointer?);
      BinLenFits(v);
    } else {
      FitsBuffer(v, BaseOf(s.conv), s.lower || s.conv.Pointer?);
    }
  }

  /** The first digit is a zero only for the number zero and for octal's alternative form. */
  lemma {:induction false} FirstDigit(s: Spec, v: int)
    requires !PrintsNothing(s, v)
    ensures NumberDigits(s, v) != ""
    ensures NumberDigits(s, v)[0] == '0' <==> v == 0 || (s.conv.Octal? && s.alt)
  {
    NoLeadingZero(Abs(v), BaseOf(s.conv), s.lower || s.conv.Pointer?);
  }

  // ------------------------------------------------------------------------------------------
  // The whole output

  datatype Output = Undefined | Output(text: string)

  function Prepend(t: string, o: Output): Output {
    if o.Undefined? then Undefined else Output(t + o.text)
  }

  /** One conversion with its star arguments. */
  ghost function ConvertNext(s: Spec, args: seq<Arg>): Argument {
    var stars := TakeStars(s, args);
    if stars.NoStars? then BadArguments else Convert(stars.spec, stars.rest)
  }

  /** Everything printed from f[i] on. */
  ghost function Format(f: string, i: nat, args: seq<Arg>): Output
    requires CString(f) && i < |f|
    decreases |f| - i, 2
  {
    if f[i] == '\0' then Output("")
    else if f[i] != '%' then Prepend([f[i]], Format(f, i + 1, args))
    else FormatPercent(f, i, Parse(f, i), args)
  }

  /** A '%' that starts no specification is printed as it stands. */
  ghost function FormatPercent(f: string, i: nat, r: Parsed, args: seq<Arg>): Output
    requires CString(f) && i < |f| && (r.Parsed? ==> 2 <= r.length < |f| - i)
    requires f[i] == '%'
    decreases |f| - i, 1
  {
    match r
    case Malformed => Prepend("%", Format(f, i + 1, args))
    case Parsed(spec, length) => Conversion(spec, args, f, i + length)
  }

  /** What is printed for a conversion and for the format behind it. */
  ghost function Conversion(s: Spec, args: seq<Arg>, f: string, next: nat): Output
    requires CString(f) && next < |f|
    decreases |f| - next, 3
  {
    match ConvertNext(s, args)
    case BadArguments => Undefined
    case Converted(payload, rest) => Prepend(Emit(payload), Format(f, next, rest))
  }

  lemma {:induction false} FormatAtPercent(f: string, i: nat, args: seq<Arg>)
    requires CString(f) && i < |f| && f[i] == '%'
    ensures Format(f, i, args) == FormatPercent(f, i, Parse(f, i), args)
  {
  }

  lemma {:induction false} PercentSpec(f: string, i: nat, r: Parsed, s: Spec, n: nat, args: seq<Arg>)
    requires CString(f) && i < |f| && f[i] == '%' && 2 <= n < |f| - i && r == Parsed(s, n)
    ensures FormatPercent(f, i, r, args) == Conversion(s, args, f, i + n)
  {
  }

  lemma {:induction false} FormatSpec(f: string, i: nat, s: Spec, n: nat, args: seq<Arg>)
    requires CString(f) && i < |f| && f[i] == '%' && Parse(f, i) == Parsed(s, n)
    ensures Format(f, i, args) == Conversion(s, args, f, i + n)
  {
    FormatAtPercent(f, i, args);
    PercentSpec(f, i, Parse(f, i), s, n, args);
  }
}
