/**
  What each conversion of nanoprintf (kernel/src/tpf/npf.h) prints, said of the written specification and
  of its arguments alone: a second definition, of the letters, flags, width and precision as a user of
  printf reads them, that the formatter is proved against.
  */
module NpfManual {
  import opened NpfDigits
  import opened NpfSpec
  import opened NpfFormat
  import opened NpfReadBack

  // ------------------------------------------------------------------------------------------
  // The definition

  /** The written form, spelled out. */
  lemma {:induction false} Spelled(w: Written)
    ensures Render(w) == "%" + w.flags + w.width
      + (match w.precision
         case NoPrecision => "" case Dot(digits) => "." + digits
         case DotMinus(digits) => ".-" + digits case DotStar => ".*")
      + (match w.length
         case NoLength => "" case Short => "h" case Char => "hh" case Long => "l"
         case LongLong => "ll" case IntMax => "j" case SizeT => "z" case PtrDiff => "t")
      + [w.letter]
  {
    Assoc("%", w.flags, w.width + PrecisionPart(w));
    Assoc("%" + w.flags, w.width, PrecisionPart(w));
    Assoc("%" + w.flags + w.width, PrecisionText(w.precision), LengthPart(w));
    Assoc("%" + w.flags + w.width + PrecisionText(w.precision), LengthText(w.length), [w.letter]);
  }

  /** The numeral of n in a base, with symbols[d] for the digit d. */
  ghost function Numeral(n: nat, base: nat, symbols: string): string
    requires IsBase(base) && |symbols| == 16
    decreases n
  {
    if n < base then [symbols[n]] else Numeral(n / base, base, symbols) + [symbols[n % base]]
  }

  ghost predicate IsNumberLetter(c: char) {
    c == 'd' || c == 'i' || c == 'u' || c == 'o' || c == 'x' || c == 'X' || c == 'b' || c == 'B' || c == 'p'
  }

  ghost function Base(letter: char): nat {
    if letter == 'o' then 8
    else if letter == 'x' || letter == 'X' || letter == 'p' then 16
    else if letter == 'b' || letter == 'B' then 2
    else 10
  }

  ghost function Symbols(letter: char): string {
    if letter == 'X' then "0123456789ABCDEF" else "0123456789abcdef"
  }

  /** v is the argument as the type that letter and length modifier name holds it. */
  ghost predicate IsArgument(letter: char, length: Length, bits: nat, v: int) {
    if letter == 'p' then v == bits % 0x1_0000_0000_0000_0000
    else if letter == 'd' || letter == 'i' then
      match length
      case Char => -0x80 <= v < 0x80 && (v - bits) % 0x100 == 0
      case Short => -0x8000 <= v < 0x8000 && (v - bits) % 0x1_0000 == 0
      case NoLength => -0x8000_0000 <= v < 0x8000_0000 && (v - bits) % 0x1_0000_0000 == 0
      case _ => -0x8000_0000_0000_0000 <= v < 0x8000_0000_0000_0000 && (v - bits) % 0x1_0000_0000_0000_0000 == 0
    else
      match length
      case Char => v == bits % 0x100
      case Short => v == bits % 0x1_0000
      case NoLength => v == bits % 0x1_0000_0000
      case _ => v == bits % 0x1_0000_0000_0000_0000
  }

  /** Width and precision with their star arguments; `counts` if the precision is one that was given. */
  datatype Field = Field(given: bool, width: int, left: bool, precision: int, counts: bool)

  /** A star argument is an int. */
  ghost function StarValue(bits: nat): int {
    if bits % 0x1_0000_0000 < 0x8000_0000 then bits % 0x1_0000_0000
    else bits % 0x1_0000_0000 - 0x1_0000_0000
  }

  ghost predicate TakesPrecision(w: Written) {
    w.precision.DotStar? && w.letter != '%' && w.letter != 'c' && w.letter != 'p'
  }

  /** One argument for each star. */
  ghost predicate StarsFit(w: Written, stars: seq<Arg>) {
    && |stars| == (if w.width == "*" then 1 else 0) + (if TakesPrecision(w) then 1 else 0)
    && forall k | 0 <= k < |stars| :: stars[k].Bits?
  }

  ghost function WidthOf(w: Written, stars: seq<Arg>): int
    requires WellFormed(w) && StarsFit(w, stars)
  {
    if w.width == "*" then StarValue(stars[0].bits) else Value(w.width, 10)
  }

  ghost function PrecisionOf(w: Written, stars: seq<Arg>): int
    requires WellFormed(w) && StarsFit(w, stars)
  {
    match w.precision
    case NoPrecision => 0
    case Dot(digits) => Value(digits, 10)
    case DotMinus(digits) => Value(digits, 10)
    case DotStar => if TakesPrecision(w) then StarValue(stars[|stars| - 1].bits) else 0
  }

  ghost function FieldOf(w: Written, stars: seq<Arg>): Field
    requires WellFormed(w) && StarsFit(w, stars)
  {
    var width, precision := WidthOf(w, stars), PrecisionOf(w, stars);
    Field(
      w.width != "",
      if width < 0 then -width else width,
      '-' in w.flags || width < 0,
      precision,
      w.letter != '%' && w.letter != 'c' && w.letter != 'p'
      && (w.precision.Dot? || (w.precision.DotStar? && precision >= 0)))
  }

  /** Text in a field: the pad character goes between front and body, before both or behind both. */
  ghost function Padded(f: Field, pad: char, front: string, body: string): string {
    var gap := Repeat(pad, if f.width > |front| + |body| then f.width - |front| - |body| else 0);
    if !f.given || pad == '\0' then front + body
    else if f.left then front + body + gap
    else if pad == '0' then front + gap + body
    else gap + front + body
  }

  ghost function WithZeros(t: string, n: int): string {
    if n > |t| then Repeat('0', n - |t|) + t else t
  }

  ghost function SignFor(w: Written, v: int): string {
    if w.letter != 'd' && w.letter != 'i' then ""
    else if v < 0 then "-"
    else if '+' in w.flags then "+"
    else if ' ' in w.flags then " "
    else ""
  }

  ghost function PrefixFor(w: Written, v: int): string {
    if w.letter == 'p' then "0x"
    else if v == 0 || '#' !in w.flags then ""
    else if w.letter == 'x' then "0x"
    else if w.letter == 'X' then "0X"
    else if w.letter == 'b' then "0b"
    else if w.letter == 'B' then "0B"
    else ""
  }

  /** Zero at precision 0 has no digits; an octal number begins with 0 if '#' is given. */
  ghost function DigitsFor(w: Written, f: Field, v: int): string {
    var nothing := v == 0 && f.counts && f.precision == 0;
    (if '#' in w.flags && w.letter == 'o' && (v != 0 || nothing) then "0" else "")
    + (if nothing then "" else Numeral(if v < 0 then -v else v, Base(w.letter), Symbols(w.letter)))
  }

  /** '0' pads numbers with zeros unless '-' is there or, except for b, B and p, a precision is written. */
  ghost predicate ZeroFlag(w: Written) {
    && '0' in w.flags && '-' !in w.flags
    && (w.letter == 'b' || w.letter == 'B' || w.letter == 'p' || w.precision.NoPrecision? || w.precision.DotMinus?)
  }

  ghost function IntegerText(w: Written, f: Field, v: int): string {
    var pad := if ZeroFlag(w) && !(v == 0 && f.counts && f.precision == 0) then '0' else ' ';
    Padded(f, pad, SignFor(w, v) + PrefixFor(w, v), WithZeros(DigitsFor(w, f, v), f.precision))
  }

  /** A character; the '0' flag takes its padding away. */
  ghost function CharacterText(w: Written, f: Field, c: char): string {
    Padded(f, if '0' in w.flags && '-' !in w.flags then '\0' else ' ', "", WithZeros([c], f.precision))
  }

  /** The text of a string argument: all before its NUL or, if that comes first, up to the precision. */
  ghost predicate IsTextOf(memory: string, f: Field, t: string) {
    && t <= memory && '\0' !in t
    && ((|t| < |memory| && memory[|t|] == '\0') || (f.counts && |t| == f.precision))
    && (f.counts ==> |t| <= f.precision)
  }

  // ------------------------------------------------------------------------------------------
  // Star arguments

  /** The specification once the stars are taken. */
  ghost function Taken(w: Written, f: Field): Spec
    requires WellFormed(w)
  {
    var s := Meaning(w);
    s.(width := f.width, left := f.left, prec := f.precision, precOpt := if f.counts then s.precOpt else NoOpt)
  }

  lemma {:induction false} StarIsSigned(bits: nat)
    ensures Signed(bits, NoLength) == StarValue(bits)
  {
  }

  lemma {:induction false} WidthTaken(w: Written, s: Spec, stars: seq<Arg>, rest: seq<Arg>)
    requires WellFormed(w) && s == Meaning(w) && StarsFit(w, stars)
    ensures var f := FieldOf(w, stars);
      TakeWidth(s, stars + rest)
        == Starred(s.(width := f.width, left := f.left), (if w.width == "*" then stars[1..] else stars) + rest)
  {
    if w.width == "*" {
      StarIsSigned(stars[0].bits);
      assert (stars + rest)[0] == stars[0] && (stars + rest)[1..] == stars[1..] + rest;
    }
  }

  lemma {:induction false} PrecisionTaken(w: Written, s: Spec, t: Spec, stars: seq<Arg>, rest: seq<Arg>)
    requires WellFormed(w) && s == Meaning(w) && StarsFit(w, stars)
    requires t.prec == s.prec && t.precOpt == s.precOpt
    ensures var f := FieldOf(w, stars);
      TakePrecision(t, (if w.width == "*" then stars[1..] else stars) + rest)
        == Starred(t.(prec := f.precision, precOpt := if f.counts then s.precOpt else NoOpt), rest)
  {
    var left := (if w.width == "*" then stars[1..] else stars) + rest;
    assert Value("", 10) == 0;
    if TakesPrecision(w) {
      StarIsSigned(stars[|stars| - 1].bits);
      assert left[0] == stars[|stars| - 1] && left[1..] == rest;
    } else {
      assert left == rest;
    }
  }

  lemma {:induction false} StarsTaken(w: Written, stars: seq<Arg>, rest: seq<Arg>)
    requires WellFormed(w) && StarsFit(w, stars)
    ensures TakeStars(Meaning(w), stars + rest) == Starred(Taken(w, FieldOf(w, stars)), rest)
  {
    var s, f := Meaning(w), FieldOf(w, stars);
    WidthTaken(w, s, stars, rest);
    PrecisionTaken(w, s, s.(width := f.width, left := f.left), stars, rest);
  }

  // ------------------------------------------------------------------------------------------
  // Padding

  lemma {:induction false} EmitIsPadded(p: Payload, f: Field, pad: char, front: string, body: string)
    requires p.sign == '\0' || p.prefix == '\0'
    requires p.spec.width == f.width && p.spec.left == f.left
    requires PadChar(p.spec, p.zero) == if f.given then pad else '\0'
    requires front == SignText(p) + PrefixText(p) && body == Repeat('0', PrecPad(p)) + p.digits
    ensures Emit(p) == Padded(f, pad, front, body)
  {
    var z, d := Repeat('0', PrecPad(p)), p.digits;
    var gap := if f.width > |front| + |body| then f.width - |front| - |body| else 0;
    assert PrefixText(p) + SignText(p) == front && FieldPad(p) == gap;
    PaddedText(front, z, d, Repeat(pad, gap));
    if PadChar(p.spec, p.zero) == ' ' && !f.left {
      Assoc(Repeat(' ', gap), PrefixText(p), SignText(p));
    }
    assert front + z + d + "" == front + z + d;
  }

  lemma {:induction false} PaddedText(front: string, z: string, d: string, gap: string)
    ensures front + gap + z + d == front + gap + (z + d)
    ensures gap + front + z + d == gap + front + (z + d)
    ensures front + z + d + gap == front + (z + d) + gap
    ensures front + z + d == front + (z + d)
  {
  }

  lemma {:induction false} ZerosInFront(p: Payload, t: string, n: int)
    requires !p.spec.conv.Text?
    requires (p.digits == t && p.spec.prec == n) || (p.digits == "" && p.spec.prec == 1 && t == "0" && n == 0)
    ensures Repeat('0', PrecPad(p)) + p.digits == WithZeros(t, n)
  {
    assert Repeat('0', 0) + p.digits == p.digits;
    assert Repeat('0', 1) + "" == "0";
  }

  // ------------------------------------------------------------------------------------------
  // Integers

  lemma {:induction false} SymbolIs(d: nat, lower: bool, symbols: string)
    requires d < 16 && (lower || d < 10 || symbols == "0123456789ABCDEF")
    requires symbols == "0123456789abcdef" || symbols == "0123456789ABCDEF"
    requires lower && d >= 10 ==> symbols == "0123456789abcdef"
    ensures DigitChar(d, lower) == symbols[d]
  {
  }

  lemma {:induction false} NumeralStep(n: nat, base: nat, symbols: string)
    requires IsBase(base) && |symbols| == 16
    ensures n < base ==> Front(n, base) == 0 && Last(n, base) == n && Numeral(n, base, symbols) == [symbols[n]]
    ensures n >= base ==> Front(n, base) != 0
    ensures n >= base ==>
      Numeral(n, base, symbols) == Numeral(Front(n, base), base, symbols) + [symbols[Last(n, base)]]
  {
    LastAndFront(n, base);
  }

  /** Dividing from the bottom and reversing writes the numeral. */
  lemma {:induction false} NumeralIs(n: nat, base: nat, lower: bool, symbols: string)
    requires IsBase(base) && (symbols == "0123456789abcdef" || symbols == "0123456789ABCDEF")
    requires base == 16 ==> (lower <==> symbols == "0123456789abcdef")
    ensures Reverse(RevText(n, base, lower)) == Numeral(n, base, symbols)
    decreases n
  {
    NumeralStep(n, base, symbols);
    SymbolIs(Last(n, base), lower, symbols);
    var c, q := DigitChar(Last(n, base), lower), Front(n, base);
    if n < base {
      assert RevText(n, base, lower) == [c];
      assert Reverse([c]) == [c];
    } else {
      NumeralIs(q, base, lower, symbols);
      ReverseCons(c, RevText(q, base, lower));
    }
  }

  /** The reader of digits, which also reads widths and precisions, reads numerals. */
  lemma {:induction false} NumeralReads(n: nat, base: nat, symbols: string)
    requires IsBase(base) && (symbols == "0123456789abcdef" || symbols == "0123456789ABCDEF")
    ensures Value(Numeral(n, base, symbols), base) == n
  {
    NumeralIs(n, base, symbols == "0123456789abcdef", symbols);
    DigitsReadBack(n, base, symbols == "0123456789abcdef");
  }

  lemma {:induction false} CharResidue(bits: nat, v: int)
    requires v == bits % 0x100 || v == bits % 0x100 - 0x100
    ensures (v - bits) % 0x100 == 0
  {
    var k := bits / 0x100;
    assert bits == 0x100 * k + bits % 0x100;
    assert v - bits == 0x100 * -k || v - bits == 0x100 * (-k - 1);
  }

  lemma {:induction false} ShortResidue(bits: nat, v: int)
    requires v == bits % 0x1_0000 || v == bits % 0x1_0000 - 0x1_0000
    ensures (v - bits) % 0x1_0000 == 0
  {
    var k := bits / 0x1_0000;
    assert bits == 0x1_0000 * k + bits % 0x1_0000;
    assert v - bits == 0x1_0000 * -k || v - bits == 0x1_0000 * (-k - 1);
  }

  lemma {:induction false} IntResidue(bits: nat, v: int)
    requires v == bits % 0x1_0000_0000 || v == bits % 0x1_0000_0000 - 0x1_0000_0000
    ensures (v - bits) % 0x1_0000_0000 == 0
  {
    var k := bits / 0x1_0000_0000;
    assert bits == 0x1_0000_0000 * k + bits % 0x1_0000_0000;
    assert v - bits == 0x1_0000_0000 * -k || v - bits == 0x1_0000_0000 * (-k - 1);
  }

  lemma {:induction false} LongResidue(bits: nat, v: int)
    requires v == bits % 0x1_0000_0000_0000_0000 || v == bits % 0x1_0000_0000_0000_0000 - 0x1_0000_0000_0000_0000
    ensures (v - bits) % 0x1_0000_0000_0000_0000 == 0
  {
    var k := bits / 0x1_0000_0000_0000_0000;
    assert bits == 0x1_0000_0000_0000_0000 * k + bits % 0x1_0000_0000_0000_0000;
    assert v - bits == 0x1_0000_0000_0000_0000 * -k || v - bits == 0x1_0000_0000_0000_0000 * (-k - 1);
  }

  lemma {:induction false} SignedIsArgument(length: Length, bits: nat)
    ensures IsArgument('d', length, bits, Signed(bits, length))
  {
    match length
    case Char => CharResidue(bits, Signed(bits, length));
    case Short => ShortResidue(bits, Signed(bits, length));
    case NoLength => IntResidue(bits, Signed(bits, length));
    case _ => LongResidue(bits, Signed(bits, length));
  }

  lemma {:induction false} NumberIsArgument(s: Spec, letter: char, bits: nat)
    requires IsNumberLetter(letter) && s.conv == ConversionOf(letter)
    ensures IsArgument(letter, s.length, bits, Number(s, bits))
  {
    if s.conv.SignedInt? {
      SignedIsArgument(s.length, bits);
    }
  }

  lemma {:induction false} LettersOf(w: Written, t: Spec)
    requires WellFormed(w) && IsNumberLetter(w.letter) && t.conv == Meaning(w).conv && t.lower == Meaning(w).lower
    ensures IsInteger(t.conv) && BaseOf(t.conv) == Base(w.letter)
    ensures BaseOf(t.conv) == 16 ==> (t.lower || t.conv.Pointer? <==> Symbols(w.letter) == "0123456789abcdef")
    ensures (t.conv.Octal? <==> w.letter == 'o') && (t.conv.Pointer? <==> w.letter == 'p')
  {
    assert "0123456789abcdef"[10] != "0123456789ABCDEF"[10];
  }

  lemma {:induction false} MarksOf(w: Written, t: Spec, v: int)
    requires WellFormed(w) && IsNumberLetter(w.letter) && (v < 0 ==> w.letter == 'd' || w.letter == 'i')
    requires t.conv == Meaning(w).conv && t.lower == Meaning(w).lower && t.alt == Meaning(w).alt
    requires t.prepend == Meaning(w).prepend
    ensures var sign := if !t.conv.SignedInt? then '\0' else if v < 0 then '-' else t.prepend;
      && SignFor(w, v) == (if sign == '\0' then "" else [sign])
      && PrefixFor(w, v) == (if NumberPrefix(t, v) == '\0' then "" else ['0', NumberPrefix(t, v)])
      && (sign == '\0' || NumberPrefix(t, v) == '\0')
  {
  }

  lemma {:induction false} DigitsOf(w: Written, f: Field, t: Spec, v: int)
    requires WellFormed(w) && IsNumberLetter(w.letter) && t == Taken(w, f) && (f.counts ==> w.letter != 'p')
    requires f.counts ==> !Meaning(w).precOpt.NoOpt?
    ensures DigitsFor(w, f, v) ==
      if PrintsNothing(t, v) && w.letter == 'o' && '#' in w.flags then "0" else NumberDigits(t, v)
  {
    LettersOf(w, t);
    if !PrintsNothing(t, v) {
      NumeralIs(Abs(v), Base(w.letter), t.lower || t.conv.Pointer?, Symbols(w.letter));
    }
  }

  lemma {:induction false} ZeroFlagIs(w: Written)
    requires WellFormed(w) && IsNumberLetter(w.letter)
    ensures Meaning(w).zeroPad <==> ZeroFlag(w)
  {
  }

  /** What a field is, whatever the stars. */
  ghost predicate FieldFits(w: Written, f: Field) {
    && f.given == (w.width != "")
    && (f.counts ==> w.precision.Dot? || w.precision.DotStar?)
    && (f.counts ==> w.letter != '%' && w.letter != 'c' && w.letter != 'p')
  }

  lemma {:induction false} PadOf(w: Written, f: Field, t: Spec, v: int)
    requires WellFormed(w) && IsNumberLetter(w.letter) && FieldFits(w, f) && t == Taken(w, f)
    ensures var pad := if ZeroFlag(w) && !(v == 0 && f.counts && f.precision == 0) then '0' else ' ';
      forall s | s == t || (s == t.(prec := 1) && PrintsNothing(t, v) && w.letter == 'o') ::
        PadChar(s, v == 0 && !s.conv.Pointer?) == if f.given then pad else '\0'
  {
    LettersOf(w, t);
    ZeroFlagIs(w);
  }

  lemma {:induction false} IntegerTextIs(w: Written, f: Field, bits: nat)
    requires WellFormed(w) && IsNumberLetter(w.letter) && FieldFits(w, f)
    ensures Emit(IntegerPayload(Taken(w, f), bits)) == IntegerText(w, f, Number(Taken(w, f), bits))
  {
    var t := Taken(w, f);
    var v, p := Number(t, bits), IntegerPayload(t, bits);
    var pad := if ZeroFlag(w) && !(v == 0 && f.counts && f.precision == 0) then '0' else ' ';
    LettersOf(w, t);
    MarksOf(w, t, v);
    DigitsOf(w, f, t, v);
    PadOf(w, f, t, v);
    ZerosInFront(p, DigitsFor(w, f, v), f.precision);
    EmitIsPadded(p, f, pad, SignFor(w, v) + PrefixFor(w, v), WithZeros(DigitsFor(w, f, v), f.precision));
  }

  lemma {:induction false} ConvertsTo(s: Spec, args: seq<Arg>, t: Spec, left: seq<Arg>, p: Payload, rest: seq<Arg>)
    requires TakeStars(s, args) == Starred(t, left) && Convert(t, left) == Converted(p, rest)
    ensures ConvertNext(s, args) == Converted(p, rest)
  {
  }

  /**
    The specification w at f[i] prints the text, and printing goes on behind it with the arguments `rest`.
    */
  ghost predicate Prints(f: string, i: nat, w: Written, args: seq<Arg>, text: string, rest: seq<Arg>)
    requires CString(f)
  {
    i + |Render(w)| < |f| && Format(f, i, args) == Prepend(text, Format(f, i + |Render(w)|, rest))
  }

  lemma {:induction false} WrittenPrints(
    f: string, i: nat, w: Written, s: Spec, n: nat, args: seq<Arg>, p: Payload, rest: seq<Arg>)
    requires CString(f) && WellFormed(w) && Reads(f, i, Render(w)) && s == Meaning(w) && n == |Render(w)|
    requires ConvertNext(s, args) == Converted(p, rest)
    ensures i + n < |f| && Format(f, i, args) == Prepend(Emit(p), Format(f, i + n, rest))
  {
    FormatWritten(f, i, w, s, n, args);
    ConversionIs(s, args, f, i + n, p, rest);
  }

  lemma {:induction false} PrintsAt(f: string, i: nat, w: Written, n: nat, args: seq<Arg>, text: string, rest: seq<Arg>)
    requires CString(f) && n == |Render(w)| && i + n < |f|
    requires Format(f, i, args) == Prepend(text, Format(f, i + n, rest))
    ensures Prints(f, i, w, args, text, rest)
  {
  }

  /** One conversion in a format, given what it converts to. */
  lemma {:induction false} ConversionPrints(
    f: string, i: nat, w: Written, s: Spec, args: seq<Arg>, p: Payload, rest: seq<Arg>)
    requires CString(f) && WellFormed(w) && Reads(f, i, Render(w)) && s == Meaning(w)
    requires ConvertNext(s, args) == Converted(p, rest)
    ensures Prints(f, i, w, args, Emit(p), rest)
  {
    var n := |Render(w)|;
    WrittenPrints(f, i, w, s, n, args, p, rest);
    PrintsAt(f, i, w, n, args, Emit(p), rest);
  }

  lemma {:induction false} ConversionIs(s: Spec, args: seq<Arg>, f: string, next: nat, p: Payload, rest: seq<Arg>)
    requires CString(f) && next < |f| && ConvertNext(s, args) == Converted(p, rest)
    ensures Conversion(s, args, f, next) == Prepend(Emit(p), Format(f, next, rest))
  {
  }

  lemma {:induction false} NumberConverts(w: Written, stars: seq<Arg>, bits: nat, rest: seq<Arg>)
    returns (p: Payload, v: int)
    requires WellFormed(w) && IsNumberLetter(w.letter) && StarsFit(w, stars)
    ensures IsArgument(w.letter, w.length, bits, v) && v == Number(Taken(w, FieldOf(w, stars)), bits)
    ensures ConvertNext(Meaning(w), stars + ([Bits(bits)] + rest)) == Converted(p, rest)
    ensures Emit(p) == IntegerText(w, FieldOf(w, stars), v)
  {
    var field, left := FieldOf(w, stars), [Bits(bits)] + rest;
    var t := Taken(w, field);
    p, v := IntegerPayload(t, bits), Number(t, bits);
    NumberIsArgument(t, w.letter, bits);
    StarsTaken(w, stars, left);
    assert left[1..] == rest;
    IntegerTextIs(w, field, bits);
    LettersOf(w, t);
    ConvertsTo(Meaning(w), stars + left, t, left, p, rest);
  }

  /**
    A number letter prints the argument, as the type that letter and length modifier name holds it, in the
    letter's base, with the sign, prefix, zeros and padding that flags, width and precision ask for.
    */
  lemma {:induction false} NumberPrints(f: string, i: nat, w: Written, stars: seq<Arg>, bits: nat, rest: seq<Arg>)
    returns (v: int)
    requires CString(f) && WellFormed(w) && Reads(f, i, Render(w)) && IsNumberLetter(w.letter) && StarsFit(w, stars)
    ensures IsArgument(w.letter, w.length, bits, v) && v == Number(Taken(w, FieldOf(w, stars)), bits)
    ensures Prints(f, i, w, stars + ([Bits(bits)] + rest), IntegerText(w, FieldOf(w, stars), v), rest)
  {
    var p;
    p, v := NumberConverts(w, stars, bits, rest);
    ConversionPrints(f, i, w, Meaning(w), stars + ([Bits(bits)] + rest), p, rest);
  }

  // ------------------------------------------------------------------------------------------
  // Reading numbers back

  /** Zeros pad a number on its right: the field is wider, left-justified by a star, and has the '0' flag. */
  ghost predicate ZerosTrail(w: Written, f: Field, v: int) {
    && f.given && f.left && ZeroFlag(w) && v != 0
    && f.width > |SignFor(w, v)| + |PrefixFor(w, v)| + |WithZeros(DigitsFor(w, f, v), f.precision)|
  }

  lemma {:induction false} TrailsAsBehind(w: Written, f: Field, bits: nat)
    requires WellFormed(w) && IsNumberLetter(w.letter) && FieldFits(w, f)
    ensures ZerosBehind(Taken(w, f), bits) <==> ZerosTrail(w, f, Number(Taken(w, f), bits))
  {
    var t := Taken(w, f);
    var v := Number(t, bits);
    ZeroFlagIs(w);
    if v != 0 {
      LettersOf(w, t);
      MarksOf(w, t, v);
      DigitsOf(w, f, t, v);
      LengthWithZeros(DigitsFor(w, f, v), f.precision);
    }
  }

  lemma {:induction false} LengthWithZeros(t: string, n: int)
    ensures |WithZeros(t, n)| == Max(n, |t|)
  {
  }

  /**
    Printing a number and reading the text in the letter's base gives the argument, as its type holds it,
    exactly when no padding zeros follow it.
    */
  lemma {:induction false} NumberReadsBack(w: Written, stars: seq<Arg>, bits: nat, rest: seq<Arg>) returns (v: int)
    requires WellFormed(w) && IsNumberLetter(w.letter) && StarsFit(w, stars)
    ensures IsArgument(w.letter, w.length, bits, v) && CString(Render(w) + "\0")
    ensures var o := Format(Render(w) + "\0", 0, stars + ([Bits(bits)] + rest));
      && o == Output(IntegerText(w, FieldOf(w, stars), v))
      && (ReadInteger(o.text, Base(w.letter)) == Some(v) <==> !ZerosTrail(w, FieldOf(w, stars), v))
  {
    var f, field := Render(w) + "\0", FieldOf(w, stars);
    var s := Taken(w, field);
    WholeFormat(w);
    v := NumberPrints(f, 0, w, stars, bits, rest);
    NothingBehind(f, |Render(w)|, IntegerText(w, field, v), rest);
    IntegerTextIs(w, field, bits);
    LettersOf(w, s);
    IntegerReadsBack(s, bits);
    TrailsAsBehind(w, field, bits);
  }

  lemma {:induction false} WholeFormat(w: Written)
    requires WellFormed(w)
    ensures CString(Render(w) + "\0") && Reads(Render(w) + "\0", 0, Render(w))
  {
    var f := Render(w) + "\0";
    WrittenIsText(w);
    assert f[..|f| - 1] == Render(w);
    assert f[0..|Render(w)|] == Render(w);
    SliceReads(f, 0, |Render(w)|);
  }

  lemma {:induction false} NothingBehind(f: string, i: nat, t: string, args: seq<Arg>)
    requires CString(f) && i < |f| && f[i] == '\0'
    ensures Prepend(t, Format(f, i, args)) == Output(t)
  {
    assert t + "" == t;
  }

  // ------------------------------------------------------------------------------------------
  // Characters and strings

  lemma {:induction false} CharacterTextIs(w: Written, f: Field, c: char)
    requires WellFormed(w) && (w.letter == 'c' || w.letter == '%') && FieldFits(w, f)
    ensures Emit(Payload(Taken(w, f), '\0', '\0', [c], false)) == CharacterText(w, f, c)
  {
    var t := Taken(w, f);
    var p := Payload(t, '\0', '\0', [c], false);
    var pad := if '0' in w.flags && '-' !in w.flags then '\0' else ' ';
    ZerosInFront(p, [c], f.precision);
    assert "" == SignText(p) + PrefixText(p);
    EmitIsPadded(p, f, pad, "", WithZeros([c], f.precision));
  }

  lemma {:induction false} CharacterConverts(w: Written, stars: seq<Arg>, bits: nat, rest: seq<Arg>)
    returns (p: Payload)
    requires WellFormed(w) && w.letter == 'c' && StarsFit(w, stars)
    ensures ConvertNext(Meaning(w), stars + ([Bits(bits)] + rest)) == Converted(p, rest)
    ensures Emit(p) == CharacterText(w, FieldOf(w, stars), (bits % 256) as char)
  {
    var field, left, c := FieldOf(w, stars), [Bits(bits)] + rest, (bits % 256) as char;
    var t := Taken(w, field);
    p := Payload(t, '\0', '\0', [c], false);
    StarsTaken(w, stars, left);
    assert left[1..] == rest;
    CharacterTextIs(w, field, c);
    ConvertsTo(Meaning(w), stars + left, t, left, p, rest);
  }

  /** `%c` prints the lowest byte of its argument. */
  lemma {:induction false} CharacterPrints(
    f: string, i: nat, w: Written, stars: seq<Arg>, bits: nat, rest: seq<Arg>)
    requires CString(f) && WellFormed(w) && Reads(f, i, Render(w)) && w.letter == 'c' && StarsFit(w, stars)
    ensures Prints(
      f, i, w, stars + ([Bits(bits)] + rest), CharacterText(w, FieldOf(w, stars), (bits % 256) as char), rest)
  {
    var p := CharacterConverts(w, stars, bits, rest);
    ConversionPrints(f, i, w, Meaning(w), stars + ([Bits(bits)] + rest), p, rest);
  }

  lemma {:induction false} PercentConverts(w: Written, stars: seq<Arg>, rest: seq<Arg>) returns (p: Payload)
    requires WellFormed(w) && w.letter == '%' && StarsFit(w, stars)
    ensures ConvertNext(Meaning(w), stars + rest) == Converted(p, rest)
    ensures Emit(p) == CharacterText(w, FieldOf(w, stars), '%')
  {
    var field := FieldOf(w, stars);
    p := Payload(Taken(w, field), '\0', '\0', "%", false);
    StarsTaken(w, stars, rest);
    CharacterTextIs(w, field, '%');
    ConvertsTo(Meaning(w), stars + rest, Taken(w, field), rest, p, rest);
  }

  /** `%%` prints a percent sign and takes no argument. */
  lemma {:induction false} PercentPrints(f: string, i: nat, w: Written, stars: seq<Arg>, rest: seq<Arg>)
    requires CString(f) && WellFormed(w) && Reads(f, i, Render(w)) && w.letter == '%' && StarsFit(w, stars)
    ensures Prints(f, i, w, stars + rest, CharacterText(w, FieldOf(w, stars), '%'), rest)
  {
    var p := PercentConverts(w, stars, rest);
    ConversionPrints(f, i, w, Meaning(w), stars + rest, p, rest);
  }

  lemma {:induction false} TextEnds(w: Written, f: Field, memory: string, t: string)
    requires WellFormed(w) && w.letter == 's' && FieldFits(w, f) && IsTextOf(memory, f, t)
    requires f.counts ==> f.precision >= 0 && !Meaning(w).precOpt.NoOpt?
    ensures StringEnd(memory, 0, Taken(w, f)) == Some(|t|) && memory[..|t|] == t
  {
    StringEndMeans(memory, Taken(w, f));
    assert EndsAt(memory, Taken(w, f), |t|);
  }

  lemma {:induction false} StringTextIs(w: Written, f: Field, t: string)
    requires WellFormed(w) && w.letter == 's' && FieldFits(w, f)
    ensures Emit(Payload(Taken(w, f), '\0', '\0', t, false)) == Padded(f, ' ', "", t)
  {
    var p := Payload(Taken(w, f), '\0', '\0', t, false);
    assert "" == SignText(p) + PrefixText(p) && t == Repeat('0', 0) + t;
    EmitIsPadded(p, f, ' ', "", t);
  }

  lemma {:induction false} StringConverts(w: Written, stars: seq<Arg>, memory: string, t: string, rest: seq<Arg>)
    returns (p: Payload)
    requires WellFormed(w) && w.letter == 's' && StarsFit(w, stars) && IsTextOf(memory, FieldOf(w, stars), t)
    ensures ConvertNext(Meaning(w), stars + ([Str(memory)] + rest)) == Converted(p, rest)
    ensures Emit(p) == Padded(FieldOf(w, stars), ' ', "", t)
  {
    var field, left := FieldOf(w, stars), [Str(memory)] + rest;
    p := Payload(Taken(w, field), '\0', '\0', t, false);
    StarsTaken(w, stars, left);
    assert left[1..] == rest;
    TextEnds(w, field, memory, t);
    StringTextIs(w, field, t);
    ConvertsTo(Meaning(w), stars + left, Taken(w, field), left, p, rest);
  }

  /** `%s` prints its argument up to the NUL or the precision. */
  lemma {:induction false} StringPrints(
    f: string, i: nat, w: Written, stars: seq<Arg>, memory: string, t: string, rest: seq<Arg>)
    requires CString(f) && WellFormed(w) && Reads(f, i, Render(w)) && w.letter == 's' && StarsFit(w, stars)
    requires IsTextOf(memory, FieldOf(w, stars), t)
    ensures Prints(f, i, w, stars + ([Str(memory)] + rest), Padded(FieldOf(w, stars), ' ', "", t), rest)
  {
    var p := StringConverts(w, stars, memory, t, rest);
    ConversionPrints(f, i, w, Meaning(w), stars + ([Str(memory)] + rest), p, rest);
  }

  /** A percent sign that begins no specification is printed as it stands. */
  lemma {:induction false} LonePercentPrints(f: string, i: nat, args: seq<Arg>)
    requires CString(f) && i < |f| && f[i] == '%'
    requires forall w: Written | WellFormed(w) :: !Reads(f, i, Render(w))
    ensures i + 1 < |f| && Format(f, i, args) == Prepend("%", Format(f, i + 1, args))
  {
    if Parse(f, i).Parsed? {
      var w := ParsedIsRendered(f, i);
      assert false;
    }
    FormatAtPercent(f, i, args);
  }

  // ------------------------------------------------------------------------------------------
  // The logger's prefix

  /** "%s" */
  const STRING := Written("", "", NoPrecision, NoLength, 's')

  /** A plain `%s` somewhere in a format prints the string in front of the NUL. */
  lemma {:induction false} PlainString(f: string, i: nat, t: string, rest: seq<Arg>)
    requires CString(f) && i + 2 < |f| && f[i] == '%' && f[i + 1] == 's' && '\0' !in t
    ensures Format(f, i, [Str(t + "\0")] + rest) == Prepend(t, Format(f, i + 2, rest))
  {
    assert Render(STRING) == "%s";
    assert f[i..i + 2] == "%s";
    SliceReads(f, i, i + 2);
    var field := FieldOf(STRING, []);
    StringPrints(f, i, STRING, [], t + "\0", t, rest);
    assert [] + ([Str(t + "\0")] + rest) == [Str(t + "\0")] + rest;
    assert "" + t == t;
  }

  /** serio_printf("%s - %s: ", component, level) prints both, with what stands between and behind them. */
  lemma {:induction false} LogPrefix(f: string, component: string, level: string)
    requires f == "%s - %s: \0" && '\0' !in component && '\0' !in level
    ensures CString(f)
    ensures Format(f, 0, [Str(component + "\0"), Str(level + "\0")]) == Output(component + " - " + level + ": ")
  {
    var first, second := Str(component + "\0"), Str(level + "\0");
    assert [first, second] == [first] + [second];
    PlainString(f, 0, component, [second]);
    assert f[2..5] == " - ";
    SliceReads(f, 2, 5);
    PlainText(f, 2, " - ", [second]);
    LogPrefixEnd(f, level);
    JoinPrefix(component, level, Output(": "));
  }

  lemma {:induction false} LogPrefixEnd(f: string, level: string)
    requires f == "%s - %s: \0" && '\0' !in level && CString(f)
    ensures Format(f, 5, [Str(level + "\0")]) == Prepend(level, Output(": "))
  {
    assert [Str(level + "\0")] == [Str(level + "\0")] + [];
    PlainString(f, 5, level, []);
    assert f[7..9] == ": ";
    SliceReads(f, 7, 9);
    PlainText(f, 7, ": ", []);
    NothingBehind(f, 9, ": ", []);
  }

  lemma {:induction false} JoinPrefix(a: string, b: string, o: Output)
    ensures Prepend(a, Prepend(" - ", Prepend(b, o))) == Prepend(a + " - " + b, o)
  {
    PrependTwice(" - ", b, o);
    PrependTwice(a, " - " + b, o);
    Assoc(a, " - ", b);
  }
}
