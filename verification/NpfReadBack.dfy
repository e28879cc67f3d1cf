/**
  Reading printed numbers back: the text of an integer conversion (kernel/src/tpf/npf.h) stands for the
  extracted argument, except when the `0` flag meets a negative star width.
  */
module NpfReadBack {
  import opened NpfDigits
  import opened NpfSpec
  import opened NpfFormat

  // ------------------------------------------------------------------------------------------
  // A reader: blanks around, a sign, a prefix that fits the base, digits.

  function DropLeading(t: string): string {
    if t != "" && t[0] == ' ' then DropLeading(t[1..]) else t
  }

  function DropTrailing(t: string): string {
    if t != "" && t[|t| - 1] == ' ' then DropTrailing(t[..|t| - 1]) else t
  }

  predicate HasPrefix(t: string, base: nat) {
    && |t| >= 2 && t[0] == '0'
    && ((base == 16 && (t[1] == 'x' || t[1] == 'X')) || (base == 2 && (t[1] == 'b' || t[1] == 'B')))
  }

  ghost function ReadDigits(t: string, base: nat): Option<nat>
    requires IsBase(base)
  {
    var d := if HasPrefix(t, base) then t[2..] else t;
    if AllDigits(d, base) then Some(Value(d, base)) else None
  }

  function WithSign(negative: bool, r: Option<nat>): Option<int> {
    if r.None? then None else Some(if negative then -(r.value as int) else r.value)
  }

  ghost function ReadMarked(t: string, base: nat): Option<int>
    requires IsBase(base)
  {
    if t != "" && (t[0] == '-' || t[0] == '+') then WithSign(t[0] == '-', ReadDigits(t[1..], base))
    else WithSign(false, ReadDigits(t, base))
  }

  /** The number a text stands for; no digits at all stand for 0. */
  ghost function ReadInteger(text: string, base: nat): Option<int>
    requires IsBase(base)
  {
    ReadMarked(DropTrailing(DropLeading(text)), base)
  }

  // ------------------------------------------------------------------------------------------
  // Stripping

  lemma {:induction false} DropLeadingBlanks(k: nat, t: string)
    ensures DropLeading(Repeat(' ', k) + t) == DropLeading(t)
    decreases k
  {
    var u := Repeat(' ', k) + t;
    if k == 0 {
      assert u == t;
    } else {
      assert u[1..] == Repeat(' ', k - 1) + t;
      DropLeadingBlanks(k - 1, t);
    }
  }

  lemma {:induction false} DropTrailingBlanks(t: string, k: nat)
    ensures DropTrailing(t + Repeat(' ', k)) == DropTrailing(t)
    decreases k
  {
    var u := t + Repeat(' ', k);
    if k == 0 {
      assert u == t;
    } else {
      assert u[..|u| - 1] == t + Repeat(' ', k - 1);
      DropTrailingBlanks(t, k - 1);
    }
  }

  lemma {:induction false} StripBlanks(a: nat, core: string, b: nat)
    requires core != "" ==> core[0] != ' ' && core[|core| - 1] != ' '
    ensures DropTrailing(DropLeading(Repeat(' ', a) + core + Repeat(' ', b))) == core
  {
    assert Repeat(' ', a) + core + Repeat(' ', b) == Repeat(' ', a) + (core + Repeat(' ', b));
    DropLeadingBlanks(a, core + Repeat(' ', b));
    if core == "" {
      assert core + Repeat(' ', b) == Repeat(' ', b) + "";
      DropLeadingBlanks(b, "");
    } else {
      DropTrailingBlanks(core, b);
    }
  }

  // ------------------------------------------------------------------------------------------
  // The shape of a printed number: blanks, mark, prefix, leading zeros, digits, trailing zeros, blanks

  datatype Shape = Shape(before: nat, mark: string, prefix: string, zeros: nat, digits: string, trail: nat, after: nat)

  ghost function ShapeBody(h: Shape): string {
    Repeat('0', h.zeros) + h.digits + Repeat('0', h.trail)
  }

  ghost function ShapeText(h: Shape): string {
    Repeat(' ', h.before) + Core(h) + Repeat(' ', h.after)
  }

  ghost predicate Readable(h: Shape, base: nat) {
    && IsBase(base) && AllDigits(h.digits, base)
    && (h.mark == "" || h.mark == "-" || h.mark == "+")
    && (h.prefix == "" || (HasPrefix(h.prefix, base) && |h.prefix| == 2))
  }

  lemma {:induction false} BodyDigits(h: Shape, base: nat)
    requires Readable(h, base)
    ensures AllDigits(ShapeBody(h), base)
    ensures Value(ShapeBody(h), base) == Scale(Value(h.digits, base), base, h.trail)
  {
    var b := ShapeBody(h);
    forall i | 0 <= i < |b| ensures DigitValue(b[i]) < base {
      assert b[i] == if i < h.zeros then '0' else if i < h.zeros + |h.digits| then h.digits[i - h.zeros] else '0';
    }
    assert b == Repeat('0', h.zeros) + (h.digits + Repeat('0', h.trail));
    LeadingZeros(h.zeros, h.digits + Repeat('0', h.trail), base);
    TrailingZeros(h.digits, h.trail, base);
  }

  /** Digits are not mistaken for a prefix. */
  lemma {:induction false} NoPrefix(body: string, base: nat)
    requires IsBase(base) && AllDigits(body, base)
    ensures !HasPrefix(body, base)
  {
    if |body| >= 2 {
      assert DigitValue(body[1]) < base;
    }
  }

  lemma {:induction false} ReadAfterMark(h: Shape, base: nat)
    requires Readable(h, base)
    ensures ReadDigits(h.prefix + ShapeBody(h), base) == Some(Scale(Value(h.digits, base), base, h.trail))
  {
    var t := h.prefix + ShapeBody(h);
    BodyDigits(h, base);
    if h.prefix == "" {
      assert t == ShapeBody(h);
      NoPrefix(t, base);
    } else {
      assert t[0] == h.prefix[0] && t[1] == h.prefix[1] && t[2..] == ShapeBody(h);
    }
  }

  lemma {:induction false} CoreEnds(h: Shape, base: nat)
    requires Readable(h, base)
    ensures var rest := h.prefix + ShapeBody(h);
            rest != "" ==> rest[0] != ' ' && rest[0] != '-' && rest[0] != '+' && rest[|rest| - 1] != ' '
  {
    var body := ShapeBody(h);
    var rest := h.prefix + body;
    BodyDigits(h, base);
    if rest != "" {
      assert rest[0] == if h.prefix != "" then h.prefix[0] else body[0];
      assert rest[|rest| - 1] == if body != "" then body[|body| - 1] else h.prefix[1];
    }
  }

  ghost function Core(h: Shape): string {
    h.mark + (h.prefix + ShapeBody(h))
  }

  lemma {:induction false} ReadMark(mark: string, rest: string, base: nat)
    requires IsBase(base) && (mark == "" || mark == "-" || mark == "+")
    requires rest != "" ==> rest[0] != '-' && rest[0] != '+'
    ensures ReadMarked(mark + rest, base) == WithSign(mark == "-", ReadDigits(rest, base))
  {
    if mark == "" {
      assert mark + rest == rest;
    } else {
      assert (mark + rest)[0] == mark[0] && (mark + rest)[1..] == rest;
    }
  }

  lemma {:induction false} MarkEnds(mark: string, rest: string)
    requires mark == "" || mark == "-" || mark == "+"
    requires rest != "" ==> rest[0] != ' ' && rest[|rest| - 1] != ' '
    ensures var t := mark + rest; t != "" ==> t[0] != ' ' && t[|t| - 1] != ' '
  {
    var t := mark + rest;
    if t != "" {
      assert t[0] == if mark == "" then rest[0] else mark[0];
      assert t[|t| - 1] == if rest == "" then mark[|mark| - 1] else rest[|rest| - 1];
    }
  }

  lemma {:induction false} ReadCore(mark: string, rest: string, base: nat, v: nat)
    requires IsBase(base) && ReadDigits(rest, base) == Some(v)
    requires mark == "" || mark == "-" || mark == "+"
    requires rest != "" ==> rest[0] != ' ' && rest[0] != '-' && rest[0] != '+' && rest[|rest| - 1] != ' '
    ensures ReadMarked(mark + rest, base) == Some(if mark == "-" then -(v as int) else v)
    ensures var t := mark + rest; t != "" ==> t[0] != ' ' && t[|t| - 1] != ' '
  {
    ReadMark(mark, rest, base);
    MarkEnds(mark, rest);
  }

  lemma {:induction false} ReadStripped(a: nat, core: string, b: nat, base: nat)
    requires IsBase(base) && (core != "" ==> core[0] != ' ' && core[|core| - 1] != ' ')
    ensures ReadInteger(Repeat(' ', a) + core + Repeat(' ', b), base) == ReadMarked(core, base)
  {
    StripBlanks(a, core, b);
  }

  // ------------------------------------------------------------------------------------------
  // What a conversion prints has that shape

  /** The field is wider than the number and is filled with zeros on the right. */
  ghost predicate ZerosBehind(s: Spec, bits: nat) {
    var p := IntegerPayload(s, bits);
    && s.left && s.zeroPad && !s.widthOpt.NoOpt? && Number(s, bits) != 0
    && s.width > |SignText(p)| + |PrefixText(p)| + Max(s.prec, |p.digits|)
  }

  ghost function ShapeOf(p: Payload): Shape {
    var pad := PadChar(p.spec, p.zero);
    if !p.spec.left && pad == '0' then
      Shape(Blank(p), Mark(p), PrefixText(p), FieldPad(p) + PrecPad(p), p.digits, 0, 0)
    else if !p.spec.left && pad == ' ' then
      Shape(FieldPad(p) + Blank(p), Mark(p), PrefixText(p), PrecPad(p), p.digits, 0, 0)
    else if pad == '0' then
      Shape(Blank(p), Mark(p), PrefixText(p), PrecPad(p), p.digits, FieldPad(p), 0)
    else
      Shape(Blank(p), Mark(p), PrefixText(p), PrecPad(p), p.digits, 0, if pad == ' ' then FieldPad(p) else 0)
  }

  lemma {:induction false} RepeatJoins(t: string, c: char, a: nat, b: nat)
    ensures t + Repeat(c, a) + Repeat(c, b) == t + Repeat(c, a + b)
    ensures t + Repeat(c, 0) == t
  {
  }

  lemma {:induction false} ShapeParts(h: Shape)
    ensures ShapeText(h)
      == Repeat(' ', h.before) + h.mark + h.prefix + Repeat('0', h.zeros) + h.digits
         + Repeat('0', h.trail) + Repeat(' ', h.after)
  {
    var b, z, t := Repeat(' ', h.before), Repeat('0', h.zeros), Repeat('0', h.trail);
    var m, p, d := h.mark, h.prefix, h.digits;
    Assoc(b, m, p);
    Assoc(b, m + p, z);
    Assoc(b, m + p + z, d);
    Assoc(b, m + p + z + d, t);
    Assoc(m, p, z);
    Assoc(m, p + z, d);
    Assoc(m, p + z + d, t);
    Assoc(p, z, d);
    Assoc(p, z + d, t);
  }

  ghost function Blank(p: Payload): nat {
    if p.sign == ' ' then 1 else 0
  }

  ghost function Mark(p: Payload): string {
    if p.sign == ' ' then "" else SignText(p)
  }

  /** A blank sign is a blank, every other one a mark. */
  lemma {:induction false} SignIsMark(p: Payload)
    ensures SignText(p) == Repeat(' ', Blank(p)) + Mark(p)
  {
  }

  lemma {:induction false} ZerosBefore(p: Payload)
    requires !p.spec.left && PadChar(p.spec, p.zero) == '0'
    ensures Emit(p) == ShapeText(ShapeOf(p))
  {
    SignIsMark(p);
    ShapeParts(ShapeOf(p));
    var front := SignText(p) + PrefixText(p);
    RepeatJoins(front, '0', FieldPad(p), PrecPad(p));
    var number := front + Repeat('0', FieldPad(p) + PrecPad(p)) + p.digits;
    assert Emit(p) == number;
    RepeatJoins(number, '0', 0, 0);
    RepeatJoins(number, ' ', 0, 0);
  }

  lemma {:induction false} BlanksBefore(p: Payload)
    requires p.sign == '\0' || p.prefix == '\0'
    requires !p.spec.left && PadChar(p.spec, p.zero) == ' '
    ensures Emit(p) == ShapeText(ShapeOf(p))
  {
    var h := ShapeOf(p);
    ShapeParts(h);
    assert Repeat(' ', FieldPad(p)) + PrefixText(p) + SignText(p) == Repeat(' ', h.before) + h.mark + h.prefix;
    RepeatJoins(Emit(p), '0', 0, 0);
    RepeatJoins(Emit(p), ' ', 0, 0);
  }

  lemma {:induction false} PadBehind(p: Payload)
    requires p.sign == '\0' || p.prefix == '\0'
    requires p.spec.left || PadChar(p.spec, p.zero) == '\0'
    ensures Emit(p) == ShapeText(ShapeOf(p))
  {
    var h := ShapeOf(p);
    ShapeParts(h);
    var front := PrefixText(p) + SignText(p);
    assert front == Repeat(' ', h.before) + h.mark + h.prefix;
    var number := front + Repeat('0', PrecPad(p)) + p.digits;
    RepeatJoins(number, '0', 0, 0);
    RepeatJoins(number + Repeat('0', h.trail), ' ', 0, 0);
  }

  lemma {:induction false} EmitHasShape(p: Payload)
    requires p.sign == '\0' || p.prefix == '\0'
    ensures Emit(p) == ShapeText(ShapeOf(p))
  {
    if p.spec.left || PadChar(p.spec, p.zero) == '\0' {
      PadBehind(p);
    } else if PadChar(p.spec, p.zero) == '0' {
      ZerosBefore(p);
    } else {
      BlanksBefore(p);
    }
  }

  /** The digits of an integer conversion stand for the absolute value. */
  lemma {:induction false} DigitsMean(s: Spec, v: int)
    requires IsInteger(s.conv)
    ensures AllDigits(NumberDigits(s, v), BaseOf(s.conv))
    ensures Value(NumberDigits(s, v), BaseOf(s.conv)) == Abs(v)
  {
    if !PrintsNothing(s, v) {
      var t := Reverse(RevText(Abs(v), BaseOf(s.conv), s.lower || s.conv.Pointer?));
      DigitsReadBack(Abs(v), BaseOf(s.conv), s.lower || s.conv.Pointer?);
      OneZero(t, BaseOf(s.conv));
      assert "" + t == t;
    }
  }

  lemma {:induction false} OneZero(t: string, base: nat)
    requires IsBase(base) && AllDigits(t, base)
    ensures AllDigits("0" + t, base) && Value("0" + t, base) == Value(t, base)
  {
    assert Repeat('0', 1) == "0";
    LeadingZeros(1, t, base);
    assert forall i | 1 <= i < |t| + 1 :: ("0" + t)[i] == t[i - 1];
  }

  /** Only d and i have a sign, only x, X, b, B and p a prefix, and it fits the base. */
  lemma {:induction false} PrefixFits(s: Spec, bits: nat)
    requires IsInteger(s.conv)
    ensures var p := IntegerPayload(s, bits);
            && (p.sign == '\0' || p.prefix == '\0')
            && (PrefixText(p) == "" || (HasPrefix(PrefixText(p), BaseOf(s.conv)) && |PrefixText(p)| == 2))
  {
  }

  lemma {:induction false} MarkFits(s: Spec, bits: nat)
    requires IsInteger(s.conv) && s.prepend in {'\0', ' ', '+'}
    ensures var m := Mark(IntegerPayload(s, bits));
            (m == "" || m == "-" || m == "+") && (m == "-" <==> Number(s, bits) < 0)
  {
  }

  lemma {:induction false} ShapeFields(p: Payload)
    ensures ShapeOf(p).digits == p.digits && ShapeOf(p).prefix == PrefixText(p) && ShapeOf(p).mark == Mark(p)
  {
  }

  lemma {:induction false} IntegerReadable(s: Spec, bits: nat)
    requires IsInteger(s.conv) && s.prepend in {'\0', ' ', '+'}
    ensures Readable(ShapeOf(IntegerPayload(s, bits)), BaseOf(s.conv))
  {
    DigitsMean(s, Number(s, bits));
    PrefixFits(s, bits);
    MarkFits(s, bits);
    ShapeFields(IntegerPayload(s, bits));
  }

  lemma {:induction false} TrailsExactly(s: Spec, bits: nat)
    requires IsInteger(s.conv)
    ensures Number(s, bits) != 0 && ShapeOf(IntegerPayload(s, bits)).trail > 0 <==> ZerosBehind(s, bits)
  {
  }

  /** Blanks around a core do not change what it reads as. */
  lemma {:induction false} ShapeReads(h: Shape, base: nat, v: nat)
    requires IsBase(base) && ReadDigits(h.prefix + ShapeBody(h), base) == Some(v)
    requires h.mark == "" || h.mark == "-" || h.mark == "+"
    requires var rest := h.prefix + ShapeBody(h);
             rest != "" ==> rest[0] != ' ' && rest[0] != '-' && rest[0] != '+' && rest[|rest| - 1] != ' '
    ensures ReadInteger(ShapeText(h), base) == Some(if h.mark == "-" then -(v as int) else v)
  {
    ReadCore(h.mark, h.prefix + ShapeBody(h), base, v);
    ReadStripped(h.before, Core(h), h.after, base);
  }

  lemma {:induction false} ShapeReadsBack(h: Shape, base: nat, v: nat)
    requires Readable(h, base) && v == Scale(Value(h.digits, base), base, h.trail)
    ensures ReadInteger(ShapeText(h), base) == Some(if h.mark == "-" then -(v as int) else v)
  {
    CoreEnds(h, base);
    ReadAfterMark(h, base);
    ShapeReads(h, base, v);
  }

  /** What the text reads as: the number, with the zeros behind it if there are any. */
  lemma {:induction false} EmittedReads(p: Payload, base: nat, v: nat)
    requires p.sign == '\0' || p.prefix == '\0'
    requires Readable(ShapeOf(p), base) && v == Scale(Value(p.digits, base), base, ShapeOf(p).trail)
    ensures ReadInteger(Emit(p), base) == Some(if ShapeOf(p).mark == "-" then -(v as int) else v)
  {
    EmitHasShape(p);
    ShapeReadsBack(ShapeOf(p), base, v);
  }

  lemma {:induction false} SameNumber(v: int, base: nat, k: nat)
    requires IsBase(base)
    ensures var r := Scale(Abs(v), base, k); (if v < 0 then -(r as int) else r) == v <==> v == 0 || k == 0
  {
    ScaleGrows(Abs(v), base, k);
  }

  /**
    Reading the text of an integer conversion gives the extracted argument, exactly when the number is
    not followed by padding zeros.
    */
  lemma {:induction false} IntegerReadsBack(s: Spec, bits: nat)
    requires IsInteger(s.conv) && s.prepend in {'\0', ' ', '+'}
    ensures ReadInteger(Emit(IntegerPayload(s, bits)), BaseOf(s.conv)) == Some(Number(s, bits))
      <==> !ZerosBehind(s, bits)
  {
    var p, v, base := IntegerPayload(s, bits), Number(s, bits), BaseOf(s.conv);
    PrefixFits(s, bits);
    MarkFits(s, bits);
    ShapeFields(p);
    IntegerReadable(s, bits);
    DigitsMean(s, v);
    EmittedReads(p, base, Scale(Abs(v), base, ShapeOf(p).trail));
    TrailsExactly(s, bits);
    SameNumber(v, base, ShapeOf(p).trail);
  }

  /** printf("%0*d", -5, 42): the padding zeros end up behind the number, which then reads as another. */
  lemma {:induction false} NegativeStarWidthMisreads()
    ensures var s := Meaning(Written("0", "*", NoPrecision, NoLength, 'd'));
            var stars := TakeStars(s, [Bits(0xFFFF_FFFB), Bits(42)]);
            && stars.Starred? && stars.rest == [Bits(42)] && Number(stars.spec, 42) == 42
            && ReadInteger(Emit(IntegerPayload(stars.spec, 42)), 10) != Some(42)
  {
    var s := Meaning(Written("0", "*", NoPrecision, NoLength, 'd'));
    assert Signed(0xFFFF_FFFB, NoLength) == -5;
    var t := s.(width := 5, left := true);
    assert TakeStars(s, [Bits(0xFFFF_FFFB), Bits(42)]) == Starred(t, [Bits(42)]);
    assert t.zeroPad;
    FortyTwoMisreads(t);
  }

  lemma {:induction false} FortyTwoMisreads(s: Spec)
    requires s.left && s.zeroPad && s.widthOpt.Star? && s.width == 5 && s.prec == 0 && s.precOpt.NoOpt?
    requires s.conv.SignedInt? && s.length.NoLength? && s.prepend == '\0'
    ensures Number(s, 42) == 42 && ReadInteger(Emit(IntegerPayload(s, 42)), 10) != Some(42)
  {
    FortyTwoTrails(s);
    IntegerReadsBack(s, 42);
  }

  lemma {:induction false} FortyTwoTrails(s: Spec)
    requires s.left && s.zeroPad && s.widthOpt.Star? && s.width == 5 && s.prec == 0 && s.precOpt.NoOpt?
    requires s.conv.SignedInt? && s.length.NoLength? && s.prepend == '\0'
    ensures Number(s, 42) == 42 && ZerosBehind(s, 42)
  {
    assert |RevText(42, 10, s.lower)| == 2;
    assert |NumberDigits(s, 42)| == 2;
  }

  // ------------------------------------------------------------------------------------------
  // From the written specification to the number

  lemma {:induction false} PrependTwice(t: string, u: string, o: Output)
    ensures Prepend(t, Prepend(u, o)) == Prepend(t + u, o)
  {
    if o.Output? {
      assert t + (u + o.text) == t + u + o.text;
    }
  }

  /** Text without '%' is printed as it stands. */
  lemma {:induction false} PlainText(f: string, i: nat, plain: string, args: seq<Arg>)
    requires CString(f) && Reads(f, i, plain) && i + |plain| < |f| && '%' !in plain && '\0' !in plain
    ensures Format(f, i, args) == Prepend(plain, Format(f, i + |plain|, args))
    decreases |plain|
  {
    var rest := Format(f, i + |plain|, args);
    if plain == "" {
      assert rest.Output? ==> "" + rest.text == rest.text;
    } else {
      assert plain[0] in plain;
      PlainText(f, i + 1, plain[1..], args);
      PrependTwice([plain[0]], plain[1..], rest);
      assert [plain[0]] + plain[1..] == plain;
    }
  }

  /** A written specification prints the conversion s it means, and the output goes on behind it. */
  lemma {:induction false} FormatWritten(f: string, i: nat, w: Written, s: Spec, n: nat, args: seq<Arg>)
    requires CString(f) && WellFormed(w) && Reads(f, i, Render(w)) && s == Meaning(w) && n == |Render(w)|
    ensures i + n < |f|
    ensures Format(f, i, args) == Conversion(s, args, f, i + n)
  {
    RenderParses(f, i, w);
    assert Parse(f, i) == Parsed(s, n);
    FormatSpec(f, i, s, n, args);
  }

  /**
    Printing a written integer specification and reading the text gives the argument, exactly when
    the star arguments do not put padding zeros behind the number.
    */
  lemma {:induction false} PrintedReadsBack(w: Written, args: seq<Arg>, t: Spec, bits: nat, rest: seq<Arg>)
    requires WellFormed(w) && IsInteger(ConversionOf(w.letter))
    requires TakeStars(Meaning(w), args) == Starred(t, [Bits(bits)] + rest)
    ensures CString(Render(w) + "\0")
    ensures var o := Format(Render(w) + "\0", 0, args);
            o.Output? && (ReadInteger(o.text, BaseOf(t.conv)) == Some(Number(t, bits)) <==> !ZerosBehind(t, bits))
  {
    var f := Render(w) + "\0";
    WrittenIsText(w);
    assert f[..|f| - 1] == Render(w);
    assert f[0..|Render(w)|] == Render(w);
    SliceReads(f, 0, |Render(w)|);
    var s, n := Meaning(w), |Render(w)|;
    FormatWritten(f, 0, w, s, n, args);
    StarredInteger(s, args, t, bits, rest);
    LastConversion(s, args, f, n, IntegerPayload(t, bits), rest);
    StarsKeep(w, args, t, [Bits(bits)] + rest);
    IntegerReadsBack(t, bits);
  }

  lemma {:induction false} StarredInteger(s: Spec, args: seq<Arg>, t: Spec, bits: nat, rest: seq<Arg>)
    requires IsInteger(s.conv) && TakeStars(s, args) == Starred(t, [Bits(bits)] + rest)
    ensures ConvertNext(s, args) == Converted(IntegerPayload(t, bits), rest)
  {
    assert ([Bits(bits)] + rest)[1..] == rest;
  }

  lemma {:induction false} LastConversion(
    s: Spec, args: seq<Arg>, f: string, next: nat, p: Payload, rest: seq<Arg>)
    requires CString(f) && next < |f| && f[next] == '\0' && ConvertNext(s, args) == Converted(p, rest)
    ensures Conversion(s, args, f, next) == Output(Emit(p))
  {
    assert Emit(p) + "" == Emit(p);
  }

  lemma {:induction false} StarsKeep(w: Written, args: seq<Arg>, t: Spec, rest: seq<Arg>)
    requires WellFormed(w) && TakeStars(Meaning(w), args) == Starred(t, rest)
    ensures t.prepend in {'\0', ' ', '+'} && t.zeroPad == Meaning(w).zeroPad && t.conv == ConversionOf(w.letter)
  {
    StarsKeepFlags(Meaning(w), args, t, rest);
  }

  lemma {:induction false} StarsKeepFlags(s: Spec, args: seq<Arg>, t: Spec, rest: seq<Arg>)
    requires TakeStars(s, args) == Starred(t, rest)
    ensures t.prepend == s.prepend && t.zeroPad == s.zeroPad && t.conv == s.conv
  {
  }

  /** Zeros end up behind a number only for a `0` flag without `-` and a negative star width. */
  lemma {:induction false} ZerosBehindNeedStar(w: Written, args: seq<Arg>, t: Spec, rest: seq<Arg>, bits: nat)
    requires WellFormed(w) && TakeStars(Meaning(w), args) == Starred(t, rest) && ZerosBehind(t, bits)
    ensures w.width == "*" && '0' in w.flags && '-' !in w.flags
    ensures args != [] && args[0].Bits? && Signed(args[0].bits, NoLength) < 0
  {
    StarsKeep(w, args, t, rest);
    OnlyAStarJustifies(Meaning(w), args, t, rest);
  }

  lemma {:induction false} OnlyAStarJustifies(s: Spec, args: seq<Arg>, t: Spec, rest: seq<Arg>)
    requires TakeStars(s, args) == Starred(t, rest)
    ensures t.left && !s.left ==> s.widthOpt.Star? && args != [] && args[0].Bits? && Signed(args[0].bits, NoLength) < 0
  {
  }

  lemma {:induction false} WrittenIsText(w: Written)
    requires WellFormed(w)
    ensures '\0' !in Render(w)
  {
    var l := LengthText(w.length);
    assert '\0' !in l + [w.letter];
    assert '\0' !in PrecisionText(w.precision);
    assert '\0' !in w.flags && '\0' !in w.width;
  }
}
