/**
  Star arguments and precisions of nanoprintf (kernel/src/tpf/npf.h, npf_vpprintf) as a caller sees
  them: when a star prints what the same number written in the format prints, and when a precision
  that should count as omitted shows in the text.
  */
module NpfStars {
  import opened NpfDigits
  import opened NpfSpec
  import opened NpfFormat
  import opened NpfReadBack

  // ------------------------------------------------------------------------------------------
  // A precision that shows

  ghost predicate AllZeros(t: string) {
    forall i | 0 <= i < |t| :: t[i] == '0'
  }

  ghost predicate EndsVisibly(t: string) {
    t == "" || |t| == 1 || t[|t| - 1] != ' '
  }

  /** What may stand in front of the digits: nothing, a sign, or a prefix. */
  ghost predicate IsFront(t: string) {
    |t| <= 1 || (|t| == 2 && t[0] == '0')
  }

  /** Blanks in front, and k zeros instead of k of the blanks. */
  lemma {:induction false} ZerosShowBehindBlanks(b: nat, front: string, k: nat, digits: string)
    requires IsFront(front) && k > 0
    ensures Repeat(' ', b) + front + Repeat('0', k) + digits != Repeat(' ', b + k) + front + digits
  {
    var x, y := Repeat(' ', b) + front + Repeat('0', k) + digits, Repeat(' ', b + k) + front + digits;
    if front == "" {
      assert x[b] == '0' && y[b] == ' ';
    } else if front[0] != ' ' {
      assert x[b] == front[0] && y[b] == ' ';
    } else {
      assert x[b + 1] == '0' && y[b + 1] == ' ';
    }
  }

  /** Blanks behind, and k zeros instead of k of the blanks. */
  lemma {:induction false} ZerosShowBeforeBlanks(k: nat, digits: string, b: nat)
    requires EndsVisibly(digits) && k > 0
    ensures Repeat('0', k) + digits + Repeat(' ', b) != digits + Repeat(' ', b + k)
  {
    var n, x, y := |digits|, Repeat('0', k) + digits + Repeat(' ', b), digits + Repeat(' ', b + k);
    if n == 0 {
      assert x[0] == '0' && y[0] == ' ';
    } else {
      assert x[k + n - 1] == digits[n - 1] && y[k + n - 1] == ' ';
      assert x[0] == '0' && y[0] == digits[0];
    }
  }

  /** Zeros on both sides: moving k of them matters unless there are only zeros. */
  lemma {:induction false} ZerosMoveIff(k: nat, digits: string, b: nat)
    requires k > 0
    ensures Repeat('0', k) + digits + Repeat('0', b) == digits + Repeat('0', b + k) <==> AllZeros(digits)
  {
    var x, y := Repeat('0', k) + digits + Repeat('0', b), digits + Repeat('0', b + k);
    if x == y {
      forall i | 0 <= i < |digits| ensures digits[i] == '0' {
        ZeroAt(k, digits, b, i);
      }
    }
  }

  lemma {:induction false} ZeroAt(k: nat, digits: string, b: nat, i: nat)
    requires k > 0 && i < |digits|
    requires Repeat('0', k) + digits + Repeat('0', b) == digits + Repeat('0', b + k)
    ensures digits[i] == '0'
    decreases i
  {
    var x, y := Repeat('0', k) + digits + Repeat('0', b), digits + Repeat('0', b + k);
    assert y[i] == digits[i];
    if i < k {
      assert x[i] == '0';
    } else {
      assert x[i] == digits[i - k];
      ZeroAt(k, digits, b, i - k);
    }
  }

  lemma {:induction false} Cancel(front: string, x: string, y: string)
    ensures front + x == front + y <==> x == y
  {
    assert (front + x)[|front|..] == x && (front + y)[|front|..] == y;
  }

  /** The same payload without its precision. */
  function NoPrecisionOf(p: Payload): Payload {
    p.(spec := p.spec.(prec := 0))
  }

  ghost predicate Plain(p: Payload) {
    !p.spec.conv.Text? && p.spec.precOpt.NoOpt? && (p.sign == '\0' || p.prefix == '\0') && EndsVisibly(p.digits)
  }

  /** Everything but the padding of a text. */
  ghost function FrontText(p: Payload): string {
    PrefixText(p) + SignText(p)
  }

  lemma {:induction false} ShowsOnTheLeft(p: Payload)
    requires Plain(p) && p.spec.left && PadChar(p.spec, p.zero) != '\0' && PrecPad(p) > 0
    ensures var q := NoPrecisionOf(p);
      Emit(p) == Emit(q) <==>
        PadChar(p.spec, p.zero) == '0' && PrecPad(p) <= FieldPad(q) && AllZeros(p.digits)
  {
    var q, pad, k, f := NoPrecisionOf(p), PadChar(p.spec, p.zero), PrecPad(p), FieldPad(p);
    var x, y := Repeat('0', k) + p.digits + Repeat(pad, f), p.digits + Repeat(pad, FieldPad(q));
    LeftText(p, pad);
    LeftText(q, pad);
    assert Repeat('0', 0) + p.digits == p.digits;
    Cancel(FrontText(p), x, y);
    if FieldPad(q) >= k {
      assert FieldPad(q) == f + k;
      if pad == '0' {
        ZerosMoveIff(k, p.digits, f);
      } else {
        ZerosShowBeforeBlanks(k, p.digits, f);
      }
    } else {
      assert |x| != |y|;
    }
  }

  lemma {:induction false} LeftText(p: Payload, pad: char)
    requires p.spec.left && pad == PadChar(p.spec, p.zero) && pad != '\0'
    ensures Emit(p) == FrontText(p) + (Repeat('0', PrecPad(p)) + p.digits + Repeat(pad, FieldPad(p)))
  {
    var z, d, b := Repeat('0', PrecPad(p)), p.digits, Repeat(pad, FieldPad(p));
    Assoc(FrontText(p), z, d);
    Assoc(FrontText(p), z + d, b);
  }

  lemma {:induction false} ShowsBehindBlanks(p: Payload)
    requires Plain(p) && !p.spec.left && PadChar(p.spec, p.zero) == ' ' && PrecPad(p) > 0
    ensures Emit(p) != Emit(NoPrecisionOf(p))
  {
    var q, k, f := NoPrecisionOf(p), PrecPad(p), FieldPad(p);
    BlankText(p);
    BlankText(q);
    assert Repeat(' ', FieldPad(q)) + FrontText(p) + Repeat('0', 0) == Repeat(' ', FieldPad(q)) + FrontText(p);
    if FieldPad(q) >= k {
      assert FieldPad(q) == f + k;
      ZerosShowBehindBlanks(f, FrontText(p), k, p.digits);
    } else {
      assert |Emit(p)| != |Emit(q)|;
    }
  }

  lemma {:induction false} BlankText(p: Payload)
    requires !p.spec.left && PadChar(p.spec, p.zero) == ' '
    ensures Emit(p) == Repeat(' ', FieldPad(p)) + FrontText(p) + Repeat('0', PrecPad(p)) + p.digits
  {
    Assoc(Repeat(' ', FieldPad(p)), PrefixText(p), SignText(p));
  }

  lemma {:induction false} ShowsAmongZeros(p: Payload)
    requires Plain(p) && !p.spec.left && PadChar(p.spec, p.zero) == '0' && PrecPad(p) > 0
    ensures Emit(p) == Emit(NoPrecisionOf(p)) <==> PrecPad(p) <= FieldPad(NoPrecisionOf(p))
  {
    var q, front := NoPrecisionOf(p), SignText(p) + PrefixText(p);
    if PrecPad(p) <= FieldPad(q) {
      assert FieldPad(q) == FieldPad(p) + PrecPad(p);
      RepeatJoins(front, '0', FieldPad(p), PrecPad(p));
      RepeatJoins(front, '0', FieldPad(q), 0);
    } else {
      assert |Emit(p)| != |Emit(q)|;
    }
  }

  lemma {:induction false} NothingToShow(p: Payload)
    requires p.spec.precOpt.NoOpt? && PrecPad(p) == 0
    ensures Emit(p) == Emit(NoPrecisionOf(p))
  {
    assert FieldPad(p) == FieldPad(NoPrecisionOf(p));
  }

  lemma {:induction false} ShowsWithoutField(p: Payload)
    requires p.spec.precOpt.NoOpt? && PadChar(p.spec, p.zero) == '\0' && PrecPad(p) > 0
    ensures Emit(p) != Emit(NoPrecisionOf(p))
  {
    assert |Emit(p)| != |Emit(NoPrecisionOf(p))|;
  }

  /**
    A precision that does not count as given shows in the text, except where its zeros take the place
    of padding zeros.
    */
  lemma {:induction false} PrecisionShowsIff(p: Payload)
    requires Plain(p)
    ensures var q := NoPrecisionOf(p);
      Emit(p) == Emit(q) <==>
        || PrecPad(p) == 0
        || (PadChar(p.spec, p.zero) == '0' && PrecPad(p) <= FieldPad(q) && (!p.spec.left || AllZeros(p.digits)))
  {
    var pad := PadChar(p.spec, p.zero);
    if PrecPad(p) == 0 {
      NothingToShow(p);
    } else if pad == '\0' {
      ShowsWithoutField(p);
    } else if p.spec.left {
      ShowsOnTheLeft(p);
    } else if pad == ' ' {
      ShowsBehindBlanks(p);
    } else {
      ShowsAmongZeros(p);
    }
  }

  // ------------------------------------------------------------------------------------------
  // "%.-N", and the precision of %p

  /** ".-N" means what no precision means, but for the number it leaves in the field. */
  lemma {:induction false} MinusPrecisionMeans(w: Written, digits: string)
    requires WellFormed(w) && w.precision == DotMinus(digits)
    ensures WellFormed(w.(precision := NoPrecision))
    ensures Meaning(w) == Meaning(w.(precision := NoPrecision)).(prec := Value(digits, 10))
  {
    assert Value("", 10) == 0;
  }

  lemma {:induction false} ZeroDigits(s: Spec, v: int)
    requires IsInteger(s.conv) && !PrintsNothing(s, v)
    ensures AllZeros(NumberDigits(s, v)) <==> v == 0
  {
    DigitsAreVisible(s, v);
    if v == 0 {
      assert RevText(0, BaseOf(s.conv), s.lower || s.conv.Pointer?) == "0";
      assert Reverse("0") == "0";
      assert "" + "0" == "0";
    } else if AllZeros(NumberDigits(s, v)) {
      AllZerosMean(NumberDigits(s, v), BaseOf(s.conv));
    }
  }

  lemma {:induction false} AllZerosMean(t: string, base: nat)
    requires IsBase(base) && AllZeros(t)
    ensures Value(t, base) == 0
  {
    assert t == Repeat('0', |t|) + "";
    LeadingZeros(|t|, "", base);
  }

  lemma {:induction false} DigitsAreVisible(s: Spec, v: int)
    requires IsInteger(s.conv)
    ensures Value(NumberDigits(s, v), BaseOf(s.conv)) == Abs(v)
    ensures EndsVisibly(NumberDigits(s, v))
  {
    DigitsMean(s, v);
    var t := NumberDigits(s, v);
    assert t != "" ==> DigitValue(t[|t| - 1]) < BaseOf(s.conv);
  }

  /**
    "%.-N" keeps its number as a precision: an integer conversion prints what it prints without one
    exactly when the number has N digits, or when padding zeros would stand there anyway.
    */
  lemma {:induction false} MinusPrecisionShowsIff(s: Spec, bits: nat)
    requires IsInteger(s.conv) && s.precOpt.NoOpt?
    ensures var p, q := IntegerPayload(s, bits), IntegerPayload(s.(prec := 0), bits);
      Emit(p) == Emit(q) <==>
        || PrecPad(p) == 0
        || (PadChar(s, p.zero) == '0' && PrecPad(p) <= FieldPad(q) && (!s.left || Number(s, bits) == 0))
  {
    var p, v := IntegerPayload(s, bits), Number(s, bits);
    PrefixFits(s, bits);
    DigitsAreVisible(s, v);
    ZeroDigits(s, v);
    SamePayload(s, bits);
    PrecisionShowsIff(p);
  }

  lemma {:induction false} SamePayload(s: Spec, bits: nat)
    requires s.precOpt.NoOpt?
    ensures IntegerPayload(s.(prec := 0), bits) == NoPrecisionOf(IntegerPayload(s, bits))
  {
    assert Number(s.(prec := 0), bits) == Number(s, bits);
  }

  lemma {:induction false} StarsPassPrecision(s: Spec, n: int, args: seq<Arg>, t: Spec, rest: seq<Arg>)
    requires s.precOpt.NoOpt? && TakeStars(s, args) == Starred(t, rest)
    ensures t.precOpt.NoOpt? && t.prec == s.prec && TakeStars(s.(prec := n), args) == Starred(t.(prec := n), rest)
  {
  }

  /**
    The same for the written "%.-N", whatever its flags, width, length and star argument: t is the
    specification after the star, the second result the one of the format without ".-N".
    */
  lemma {:induction false} WrittenMinusPrecisionIff(
    w: Written, digits: string, args: seq<Arg>, t: Spec, bits: nat, rest: seq<Arg>)
    requires WellFormed(w) && w.precision == DotMinus(digits) && IsInteger(ConversionOf(w.letter))
    requires TakeStars(Meaning(w), args) == Starred(t, [Bits(bits)] + rest)
    ensures WellFormed(w.(precision := NoPrecision))
    ensures var a, b := ConvertNext(Meaning(w), args), ConvertNext(Meaning(w.(precision := NoPrecision)), args);
      var p, q := IntegerPayload(t, bits), IntegerPayload(t.(prec := 0), bits);
      && a == Converted(p, rest) && b == Converted(q, rest)
      && t.prec == Value(digits, 10)
      && (Emit(p) == Emit(q) <==>
            || PrecPad(p) == 0
            || (PadChar(t, p.zero) == '0' && PrecPad(p) <= FieldPad(q) && (!t.left || Number(t, bits) == 0)))
  {
    var s, s0 := Meaning(w), Meaning(w.(precision := NoPrecision));
    MinusPrecisionMeans(w, digits);
    StarsPassPrecision(s, 0, args, t, [Bits(bits)] + rest);
    assert s.conv == s0.conv == ConversionOf(w.letter) && s0 == s.(prec := 0);
    StarredInteger(s, args, t, bits, rest);
    StarredInteger(s0, args, t.(prec := 0), bits, rest);
    MinusPrecisionShowsIff(t, bits);
  }

  /** printf("%.-3d", 5) prints "005"; without a precision it is "5". */
  lemma {:induction false} MinusPrecisionPads(s: Spec)
    requires s == Meaning(Written("", "", DotMinus("3"), NoLength, 'd'))
    ensures Emit(IntegerPayload(s, 5)) == "005" && Emit(IntegerPayload(s.(prec := 0), 5)) == "5"
  {
    assert Value("", 10) == 0 && Value("3", 10) == 3;
    FiveWithoutField(s);
    FiveWithoutField(s.(prec := 0));
  }

  lemma {:induction false} FiveWithoutField(s: Spec)
    requires s.conv.SignedInt? && s.length.NoLength? && s.precOpt.NoOpt? && s.widthOpt.NoOpt? && s.prepend == '\0'
    requires s.prec == 3 || s.prec == 0
    ensures Emit(IntegerPayload(s, 5)) == if s.prec == 3 then "005" else "5"
  {
    FiveIsOneDigit(s);
    assert Repeat('0', 2) == "00" && Repeat('0', 0) == "";
  }

  lemma {:induction false} FiveIsOneDigit(s: Spec)
    requires s.conv.SignedInt? && s.length.NoLength? && s.precOpt.NoOpt?
    ensures Number(s, 5) == 5 && NumberDigits(s, 5) == "5"
  {
    assert RevText(5, 10, s.lower) == "5";
    assert Reverse("5") == "5";
    assert "" + "5" == "5";
  }

  // ------------------------------------------------------------------------------------------
  // %c and %%

  /** A precision pads %c and %% with zeros, exactly from 2 on. */
  lemma {:induction false} CharacterPrecisionShowsIff(s: Spec, c: char)
    requires (s.conv.Character? || s.conv.Percent?) && s.precOpt.NoOpt?
    ensures var p := Payload(s, '\0', '\0', [c], false);
      Emit(p) == Emit(NoPrecisionOf(p)) <==> s.prec <= 1
  {
    PrecisionShowsIff(Payload(s, '\0', '\0', [c], false));
  }

  // ------------------------------------------------------------------------------------------
  // A negative star precision

  lemma {:induction false} ZerosAreNotBlanks(front: string, f: nat, digits: string)
    requires IsFront(front) && f > 0
    ensures Repeat(' ', f) + front + digits != front + Repeat('0', f) + digits
  {
    var x, y := Repeat(' ', f) + front + digits, front + Repeat('0', f) + digits;
    if front == "" {
      assert x[0] == ' ' && y[0] == '0';
    } else if front[0] != ' ' {
      assert x[0] == ' ' && y[0] == front[0];
    } else {
      assert x[1] == ' ' && y[1] == '0';
    }
  }

  /** Two payloads that differ in the zero flag only, with no precision pad. */
  lemma {:induction false} ZeroFlagShowsIff(p: Payload, q: Payload)
    requires Plain(p) && PadChar(p.spec, p.zero) == ' ' && PadChar(q.spec, q.zero) == '0'
    requires q.sign == p.sign && q.prefix == p.prefix && q.digits == p.digits && q.spec.left == p.spec.left
    requires PrecPad(p) == PrecPad(q) == 0 && FieldPad(p) == FieldPad(q)
    ensures Emit(p) == Emit(q) <==> FieldPad(p) == 0
  {
    var f := FieldPad(p);
    assert SignText(p) + PrefixText(p) == FrontText(p);
    if p.spec.left {
      LeftText(p, ' ');
      LeftText(q, '0');
      Cancel(FrontText(p), Repeat('0', 0) + p.digits + Repeat(' ', f), Repeat('0', 0) + p.digits + Repeat('0', f));
      Cancel(Repeat('0', 0) + p.digits, Repeat(' ', f), Repeat('0', f));
      assert f > 0 ==> Repeat(' ', f)[0] != Repeat('0', f)[0];
    } else {
      BlankText(p);
      assert Repeat(' ', f) + FrontText(p) + Repeat('0', 0) == Repeat(' ', f) + FrontText(p);
      assert FrontText(p) + Repeat('0', f) + Repeat('0', 0) == FrontText(p) + Repeat('0', f);
      if f > 0 {
        ZerosAreNotBlanks(FrontText(p), f, p.digits);
      } else {
        assert Repeat(' ', 0) + FrontText(p) == FrontText(p) && FrontText(p) + Repeat('0', 0) == FrontText(p);
      }
    }
  }

  /** The arguments a star width takes. */
  predicate WidthArguments(w: Written, a: seq<Arg>) {
    if w.width == "*" then |a| == 1 && a[0].Bits? else a == []
  }

  /**
    A negative star precision counts as none, but the zero flag it has cancelled stays cancelled; an
    omitted precision keeps the flag.
    */
  lemma {:induction false} NegativePrecisionMeans(w: Written, a: seq<Arg>, n: nat, rest: seq<Arg>)
    returns (t: Spec, t0: Spec)
    requires WellFormed(w) && w.precision.DotStar? && IsIntegerLetter(w.letter) && WidthArguments(w, a)
    requires '0' in w.flags && '-' !in w.flags && Signed(n, NoLength) < 0
    ensures WellFormed(w.(precision := NoPrecision))
    ensures TakeStars(Meaning(w), a + [Bits(n)] + rest) == Starred(t, rest)
    ensures TakeStars(Meaning(w.(precision := NoPrecision)), a + rest) == Starred(t0, rest)
    ensures t0 == t.(zeroPad := true, prec := 0) && !t.zeroPad && t.precOpt.NoOpt? && t.prec < 0
    ensures IsInteger(t.conv) && (t.widthOpt.NoOpt? ==> t.width == 0)
  {
    var s, s0 := Meaning(w), Meaning(w.(precision := NoPrecision));
    StarPrecisionFields(w, s, s0);
    t0 := TakeWidth(s0, a + rest).spec;
    t := t0.(zeroPad := false, prec := Signed(n, NoLength));
    assert ([Bits(n)] + rest)[1..] == rest;
    if w.width == "*" {
      assert (a + [Bits(n)] + rest)[1..] == [Bits(n)] + rest && (a + rest)[1..] == rest;
    } else {
      assert a + [Bits(n)] + rest == [Bits(n)] + rest && a + rest == rest;
    }
    TakeBoth(s, a + [Bits(n)] + rest, n, rest);
  }

  lemma {:induction false} StarPrecisionFields(w: Written, s: Spec, s0: Spec)
    requires WellFormed(w) && w.precision.DotStar? && IsIntegerLetter(w.letter) && '0' in w.flags && '-' !in w.flags
    requires WellFormed(w.(precision := NoPrecision)) && s == Meaning(w) && s0 == Meaning(w.(precision := NoPrecision))
    ensures s == s0.(zeroPad := false, precOpt := Star) && s0.zeroPad && s0.precOpt.NoOpt? && s0.prec == 0
    ensures IsInteger(s0.conv) && (s0.widthOpt.NoOpt? ==> s0.width == 0) && (s0.widthOpt.Star? <==> w.width == "*")
  {
    assert Value("", 10) == 0;
  }

  lemma {:induction false} TakeBoth(s: Spec, args: seq<Arg>, n: nat, rest: seq<Arg>)
    requires TakeWidth(s, args).Starred? && TakeWidth(s, args).rest == [Bits(n)] + rest && s.precOpt.Star?
    requires Signed(n, NoLength) < 0
    ensures TakeStars(s, args)
      == Starred(TakeWidth(s, args).spec.(prec := Signed(n, NoLength), precOpt := NoOpt), rest)
  {
    assert ([Bits(n)] + rest)[1..] == rest;
  }

  /** So the two texts are the same exactly when there is no padding. */
  lemma {:induction false} NegativePrecisionShowsIff(t: Spec, bits: nat)
    requires IsInteger(t.conv) && !t.zeroPad && t.precOpt.NoOpt? && t.prec < 0 && (t.widthOpt.NoOpt? ==> t.width == 0)
    ensures var p, q := IntegerPayload(t, bits), IntegerPayload(t.(zeroPad := true, prec := 0), bits);
      Emit(p) == Emit(q) <==> FieldPad(p) == 0
  {
    var t0 := t.(zeroPad := true, prec := 0);
    var p, q := IntegerPayload(t, bits), IntegerPayload(t0, bits);
    PrefixFits(t, bits);
    DigitsAreVisible(t, Number(t, bits));
    Twins(t, t0, bits);
    if !t.widthOpt.NoOpt? {
      ZeroFlagShowsIff(p, q);
    } else {
      NoPadding(p, q);
    }
  }

  /** The zero flag changes nothing but the pad character. */
  lemma {:induction false} Twins(t: Spec, t0: Spec, bits: nat)
    requires t.precOpt.NoOpt? && t.prec <= 0 && t0 == t.(zeroPad := true, prec := 0)
    ensures var p, q := IntegerPayload(t, bits), IntegerPayload(t0, bits);
      && q.sign == p.sign && q.prefix == p.prefix && q.digits == p.digits && p.spec == t && q.spec == t0
      && PrecPad(p) == PrecPad(q) == 0 && FieldPad(p) == FieldPad(q)
  {
    assert Number(t0, bits) == Number(t, bits);
    assert NumberDigits(t0, Number(t, bits)) == NumberDigits(t, Number(t, bits));
  }

  lemma {:induction false} NoPadding(p: Payload, q: Payload)
    requires p.spec.widthOpt.NoOpt? && p.spec.width == 0 && q.spec == p.spec.(zeroPad := true, prec := 0)
    requires q.sign == p.sign && q.prefix == p.prefix && q.digits == p.digits && PrecPad(p) == PrecPad(q) == 0
    ensures Emit(p) == Emit(q) && FieldPad(p) == 0
  {
  }

  /** The same for the written "%.*", its negative argument n and the integer behind it. */
  lemma {:induction false} WrittenNegativePrecisionIff(w: Written, a: seq<Arg>, n: nat, bits: nat, rest: seq<Arg>)
    returns (t: Spec)
    requires WellFormed(w) && w.precision.DotStar? && IsIntegerLetter(w.letter) && WidthArguments(w, a)
    requires '0' in w.flags && '-' !in w.flags && Signed(n, NoLength) < 0
    ensures WellFormed(w.(precision := NoPrecision))
    ensures var p, q := IntegerPayload(t, bits), IntegerPayload(t.(zeroPad := true, prec := 0), bits);
      && ConvertNext(Meaning(w), a + [Bits(n)] + ([Bits(bits)] + rest)) == Converted(p, rest)
      && ConvertNext(Meaning(w.(precision := NoPrecision)), a + ([Bits(bits)] + rest)) == Converted(q, rest)
      && (Emit(p) == Emit(q) <==> FieldPad(p) == 0)
  {
    var t0: Spec;
    t, t0 := NegativePrecisionMeans(w, a, n, [Bits(bits)] + rest);
    assert Meaning(w).conv == t.conv && Meaning(w.(precision := NoPrecision)).conv == t0.conv;
    StarredInteger(Meaning(w), a + [Bits(n)] + ([Bits(bits)] + rest), t, bits, rest);
    StarredInteger(Meaning(w.(precision := NoPrecision)), a + ([Bits(bits)] + rest), t0, bits, rest);
    NegativePrecisionShowsIff(t, bits);
  }

  /** printf("%05.*d", -1, 42) prints "   42"; without a precision it is "00042". */
  lemma {:induction false} NegativePrecisionBlanks(s: Spec, s0: Spec)
    requires s == Meaning(Written("0", "5", DotStar, NoLength, 'd'))
    requires s0 == Meaning(Written("0", "5", NoPrecision, NoLength, 'd'))
    ensures TakeStars(s, [Bits(0xFFFF_FFFF), Bits(42)]) == Starred(s.(prec := -1, precOpt := NoOpt), [Bits(42)])
    ensures Emit(IntegerPayload(s.(prec := -1, precOpt := NoOpt), 42)) == "   42"
    ensures Emit(IntegerPayload(s0, 42)) == "00042"
  {
    assert Signed(0xFFFF_FFFF, NoLength) == -1;
    assert [Bits(0xFFFF_FFFF), Bits(42)][1..] == [Bits(42)];
    assert Value("", 10) == 0 && Value("5", 10) == 5;
    FortyTwoInFive(s.(prec := -1, precOpt := NoOpt));
    FortyTwoInFive(s0);
  }

  lemma {:induction false} FortyTwoInFive(s: Spec)
    requires s.conv.SignedInt? && s.length.NoLength? && s.precOpt.NoOpt? && s.prec <= 0
    requires s.widthOpt.Literal? && s.width == 5 && !s.left && s.prepend == '\0'
    ensures Emit(IntegerPayload(s, 42)) == if s.zeroPad then "00042" else "   42"
  {
    FortyTwoIsTwoDigits(s);
    assert Repeat(' ', 3) == "   " && Repeat('0', 3) == "000" && Repeat('0', 0) == "";
  }

  lemma {:induction false} FortyTwoIsTwoDigits(s: Spec)
    requires s.conv.SignedInt? && s.length.NoLength? && s.precOpt.NoOpt?
    ensures Number(s, 42) == 42 && NumberDigits(s, 42) == "42"
  {
    RevFortyTwo(42, s.lower);
    assert "" + "42" == "42";
  }

  lemma {:induction false} RevFortyTwo(v: nat, lower: bool)
    requires v == 42
    ensures Reverse(RevText(v, 10, lower)) == "42"
  {
    assert RevText(v, 10, lower) == "24";
    assert Reverse("4") == "4" && Reverse("24") == "42";
  }

  // ------------------------------------------------------------------------------------------
  // Stars print what written numbers print

  /** The same text and the same arguments left over, or both undefined. */
  ghost predicate SameText(a: Argument, b: Argument) {
    if a.BadArguments? || b.BadArguments? then a == b
    else a.rest == b.rest && Emit(a.payload) == Emit(b.payload)
  }

  /** Specifications that differ only in how width and precision were given. */
  ghost predicate SameSpec(s: Spec, t: Spec) {
    && t == s.(widthOpt := t.widthOpt, precOpt := t.precOpt)
    && (s.widthOpt.NoOpt? <==> t.widthOpt.NoOpt?) && (s.precOpt.NoOpt? <==> t.precOpt.NoOpt?)
  }

  lemma {:induction false} EmitSame(p: Payload, q: Payload)
    requires SameSpec(p.spec, q.spec) && q == p.(spec := q.spec)
    ensures Emit(p) == Emit(q)
  {
    assert PadChar(p.spec, p.zero) == PadChar(q.spec, q.zero);
    assert PrecPad(p) == PrecPad(q) && FieldPad(p) == FieldPad(q);
  }

  lemma {:induction false} StringEndSame(memory: string, k: nat, s: Spec, t: Spec)
    requires SameSpec(s, t)
    ensures StringEnd(memory, k, s) == StringEnd(memory, k, t)
    decreases |memory| - k
  {
    if k < |memory| {
      StringEndSame(memory, k + 1, s, t);
    }
  }

  lemma {:induction false} IntegerSame(s: Spec, t: Spec, bits: nat)
    requires SameSpec(s, t)
    ensures var p, q := IntegerPayload(s, bits), IntegerPayload(t, bits);
      SameSpec(p.spec, q.spec) && q == p.(spec := q.spec)
  {
    assert Number(t, bits) == Number(s, bits);
    assert NumberDigits(t, Number(s, bits)) == NumberDigits(s, Number(s, bits));
  }

  lemma {:induction false} ConvertSame(s: Spec, t: Spec, args: seq<Arg>)
    requires SameSpec(s, t)
    ensures SameText(Convert(s, args), Convert(t, args))
  {
    if s.conv.Percent? {
      EmitSame(Payload(s, '\0', '\0', "%", false), Payload(t, '\0', '\0', "%", false));
    } else if args != [] {
      match args[0]
      case Bits(bits) =>
        if s.conv.Character? {
          var text := [(bits % 256) as char];
          EmitSame(Payload(s, '\0', '\0', text, false), Payload(t, '\0', '\0', text, false));
        } else if !s.conv.Text? {
          IntegerSame(s, t, bits);
          EmitSame(IntegerPayload(s, bits), IntegerPayload(t, bits));
        }
      case Str(memory) =>
        StringEndSame(memory, 0, s, t);
        var end := StringEnd(memory, 0, s);
        if s.conv.Text? && end.Some? {
          var text := memory[..end.value];
          EmitSame(Payload(s, '\0', '\0', text, false), Payload(t, '\0', '\0', text, false));
        }
    }
  }

  /** The field width n as a star argument prints what it prints written in the format. */
  lemma {:induction false} StarWidthIsLiteral(w: Written, n: nat, rest: seq<Arg>)
    requires WellFormed(w) && w.width != "*" && w.width != "" && Value(w.width, 10) == n < 0x8000_0000
    ensures WellFormed(w.(width := "*"))
    ensures SameText(ConvertNext(Meaning(w.(width := "*")), [Bits(n)] + rest), ConvertNext(Meaning(w), rest))
  {
    var s, ws := Meaning(w), Meaning(w.(width := "*"));
    StarWidthFields(w, s, ws);
    assert ([Bits(n)] + rest)[1..] == rest;
    assert Signed(n, NoLength) == n;
    assert TakeWidth(ws, [Bits(n)] + rest) == Starred(s.(widthOpt := Star), rest);
    SameAfterWidth(s, s.(widthOpt := Star), rest);
  }

  lemma {:induction false} StarWidthFields(w: Written, s: Spec, ws: Spec)
    requires WellFormed(w) && WellFormed(w.(width := "*")) && w.width != "*" && w.width != ""
    requires s == Meaning(w) && ws == Meaning(w.(width := "*"))
    ensures ws == s.(width := 0, widthOpt := Star) && s.widthOpt.Literal? && s.width == Value(w.width, 10)
  {
  }

  /** From the precision on, specifications that differ only in that way print the same. */
  lemma {:induction false} SameAfterWidth(s: Spec, t: Spec, args: seq<Arg>)
    requires s.widthOpt.Literal? && t == s.(widthOpt := Star)
    ensures ConvertNext(s, args) == if TakePrecision(s, args).NoStars? then BadArguments
      else Convert(TakePrecision(s, args).spec, TakePrecision(s, args).rest)
    ensures var a := if TakePrecision(t, args).NoStars? then BadArguments
        else Convert(TakePrecision(t, args).spec, TakePrecision(t, args).rest);
      SameText(a, ConvertNext(s, args))
  {
    var x, y := TakePrecision(s, args), TakePrecision(t, args);
    if x.Starred? {
      ConvertSame(y.spec, x.spec, x.rest);
    }
  }

  /** A nonnegative precision as a star argument prints what it prints written in the format. */
  lemma {:induction false} StarPrecisionIsLiteral(w: Written, a: seq<Arg>, n: nat, rest: seq<Arg>)
    requires WellFormed(w) && w.precision.Dot? && Value(w.precision.digits, 10) == n < 0x8000_0000
    requires w.letter != '%' && w.letter != 'c' && w.letter != 'p' && WidthArguments(w, a)
    ensures WellFormed(w.(precision := DotStar))
    ensures SameText(
      ConvertNext(Meaning(w.(precision := DotStar)), a + [Bits(n)] + rest), ConvertNext(Meaning(w), a + rest))
  {
    var s, ws := Meaning(w), Meaning(w.(precision := DotStar));
    StarPrecisionWritten(w, s, ws);
    SameAfterPrecision(s, a, n, rest);
  }

  lemma {:induction false} SameAfterPrecision(s: Spec, a: seq<Arg>, n: nat, rest: seq<Arg>)
    requires s.precOpt.Literal? && s.prec == n < 0x8000_0000
    requires if s.widthOpt.Star? then |a| == 1 && a[0].Bits? else a == []
    ensures SameText(ConvertNext(s.(prec := 0, precOpt := Star), a + [Bits(n)] + rest), ConvertNext(s, a + rest))
  {
    var ws, args := s.(prec := 0, precOpt := Star), a + [Bits(n)] + rest;
    if s.widthOpt.Star? {
      assert args[1..] == [Bits(n)] + rest && (a + rest)[1..] == rest;
    } else {
      assert args == [Bits(n)] + rest && a + rest == rest;
    }
    var t := TakeWidth(s, a + rest).spec;
    assert TakeWidth(s, a + rest) == Starred(t, rest);
    assert TakeWidth(ws, args) == Starred(t.(prec := 0, precOpt := Star), [Bits(n)] + rest);
    TakesPrecision(t.(prec := 0, precOpt := Star), n, rest);
    ConvertSame(t.(precOpt := Star), t, rest);
  }

  lemma {:induction false} TakesPrecision(s: Spec, n: nat, rest: seq<Arg>)
    requires s.precOpt.Star? && n < 0x8000_0000
    ensures TakePrecision(s, [Bits(n)] + rest) == Starred(s.(prec := n), rest)
  {
    assert ([Bits(n)] + rest)[1..] == rest && Signed(n, NoLength) == n;
  }

  lemma {:induction false} StarPrecisionWritten(w: Written, s: Spec, ws: Spec)
    requires WellFormed(w) && w.precision.Dot? && w.letter != '%' && w.letter != 'c' && w.letter != 'p'
    requires WellFormed(w.(precision := DotStar)) && s == Meaning(w) && ws == Meaning(w.(precision := DotStar))
    ensures ws == s.(prec := 0, precOpt := Star) && s.precOpt.Literal? && s.prec == Value(w.precision.digits, 10)
    ensures s.widthOpt.Star? <==> w.width == "*"
  {
    assert Value("", 10) == 0;
  }

  // ------------------------------------------------------------------------------------------
  // A negative star width

  /** A left-justified text with and without its zero flag. */
  lemma {:induction false} LeftTwins(p: Payload, q: Payload)
    requires p.spec.left && !p.spec.widthOpt.NoOpt? && !q.spec.widthOpt.NoOpt?
    requires q == p.(spec := p.spec.(zeroPad := false, widthOpt := q.spec.widthOpt))
    ensures Emit(p) == Emit(q) <==> PadChar(p.spec, p.zero) == ' ' || FieldPad(p) == 0
  {
    var f, pad, body := FieldPad(p), PadChar(p.spec, p.zero), Repeat('0', PrecPad(p)) + p.digits;
    assert PrecPad(q) == PrecPad(p) && FieldPad(q) == f && FrontText(q) == FrontText(p);
    LeftText(q, ' ');
    if pad == '\0' {
      NoPadText(p);
    } else {
      LeftText(p, pad);
      PadShows(FrontText(p), body, pad, f);
    }
  }

  lemma {:induction false} NoPadText(p: Payload)
    requires p.spec.left && PadChar(p.spec, p.zero) == '\0'
    ensures var t := FrontText(p) + (Repeat('0', PrecPad(p)) + p.digits + Repeat(' ', FieldPad(p)));
      Emit(p) == t <==> FieldPad(p) == 0
  {
    var z, f := Repeat('0', PrecPad(p)), FieldPad(p);
    Assoc(FrontText(p), z, p.digits);
    assert Emit(p) == FrontText(p) + (z + p.digits);
    assert z + p.digits + Repeat(' ', 0) == z + p.digits;
  }

  lemma {:induction false} PadShows(front: string, body: string, pad: char, f: nat)
    ensures front + (body + Repeat(pad, f)) == front + (body + Repeat(' ', f)) <==> pad == ' ' || f == 0
  {
    Cancel(front, body + Repeat(pad, f), body + Repeat(' ', f));
    Cancel(body, Repeat(pad, f), Repeat(' ', f));
    assert f > 0 ==> Repeat(pad, f)[0] == pad && Repeat(' ', f)[0] == ' ';
  }

  lemma {:induction false} LeftConvertTwins(s: Spec, t: Spec, args: seq<Arg>)
    requires s.left && !s.widthOpt.NoOpt? && !t.widthOpt.NoOpt? && t == s.(zeroPad := false, widthOpt := t.widthOpt)
    ensures var c := Convert(s, args);
      SameText(c, Convert(t, args)) <==>
        (c.Converted? ==> PadChar(c.payload.spec, c.payload.zero) == ' ' || FieldPad(c.payload) == 0)
  {
    var c, d := Convert(s, args), Convert(t, args);
    TwinPayloads(s, t, args);
    if c.Converted? {
      LeftTwins(c.payload, d.payload);
    }
  }

  lemma {:induction false} TwinPayloads(s: Spec, t: Spec, args: seq<Arg>)
    requires s.left && !s.widthOpt.NoOpt? && !t.widthOpt.NoOpt? && t == s.(zeroPad := false, widthOpt := t.widthOpt)
    ensures var c, d := Convert(s, args), Convert(t, args);
      && (c.Converted? <==> d.Converted?)
      && (c.Converted? ==>
            && d.rest == c.rest && c.payload.spec.left && !c.payload.spec.widthOpt.NoOpt?
            && d.payload == c.payload.(spec := c.payload.spec.(zeroPad := false, widthOpt := t.widthOpt)))
  {
    if args != [] && args[0].Str? {
      TwinEnds(args[0].memory, 0, s, t);
    } else if args != [] {
      var bits := args[0].bits;
      assert Number(t, bits) == Number(s, bits);
      assert NumberDigits(t, Number(s, bits)) == NumberDigits(s, Number(s, bits));
    }
  }

  lemma {:induction false} TwinEnds(memory: string, k: nat, s: Spec, t: Spec)
    requires t.precOpt == s.precOpt && t.prec == s.prec
    ensures StringEnd(memory, k, s) == StringEnd(memory, k, t)
    decreases |memory| - k
  {
    if k < |memory| {
      TwinEnds(memory, k + 1, s, t);
    }
  }

  /**
    A negative star width -n prints what the flag '-' and the width n print, exactly when the pad
    character is a blank or there is no padding; a `0` flag without '-' makes the difference.
    */
  lemma {:induction false} NegativeStarWidthIff(w: Written, n: nat, rest: seq<Arg>)
    requires WellFormed(w) && w.width != "*" && w.width != "" && Value(w.width, 10) == n
    requires 0 < n < 0x8000_0000
    ensures WellFormed(w.(width := "*")) && WellFormed(w.(flags := "-" + w.flags))
    ensures var c := ConvertNext(Meaning(w.(width := "*")), [Bits(0x1_0000_0000 - n)] + rest);
      SameText(c, ConvertNext(Meaning(w.(flags := "-" + w.flags)), rest)) <==>
        (c.Converted? ==> PadChar(c.payload.spec, c.payload.zero) == ' ' || FieldPad(c.payload) == 0)
  {
    var s, ws := Meaning(w), Meaning(w.(width := "*"));
    MinusFlag(w);
    var m := Meaning(w.(flags := "-" + w.flags));
    StarWidthFields(w, s, ws);
    TakesNegativeWidth(ws, n, rest);
    SameBehindWidth(s.(left := true, widthOpt := Star), m, rest);
  }

  lemma {:induction false} TakesNegativeWidth(s: Spec, n: nat, rest: seq<Arg>)
    requires s.widthOpt.Star? && 0 < n < 0x8000_0000
    ensures TakeWidth(s, [Bits(0x1_0000_0000 - n)] + rest) == Starred(s.(width := n, left := true), rest)
  {
    var args := [Bits(0x1_0000_0000 - n)] + rest;
    assert args[1..] == rest && Signed(0x1_0000_0000 - n, NoLength) == -(n as int);
  }

  lemma {:induction false} SameBehindWidth(s: Spec, t: Spec, args: seq<Arg>)
    requires s.left && s.widthOpt.Star? && t == s.(zeroPad := false, widthOpt := Literal)
    ensures var x, y := TakePrecision(s, args), TakePrecision(t, args);
      var c := if x.NoStars? then BadArguments else Convert(x.spec, x.rest);
      SameText(c, if y.NoStars? then BadArguments else Convert(y.spec, y.rest)) <==>
        (c.Converted? ==> PadChar(c.payload.spec, c.payload.zero) == ' ' || FieldPad(c.payload) == 0)
  {
    var x, y := TakePrecision(s, args), TakePrecision(t, args);
    if x.Starred? {
      LeftConvertTwins(x.spec, y.spec, x.rest);
    }
  }

  lemma {:induction false} MinusFlag(w: Written)
    requires WellFormed(w) && w.width != "*" && w.width != ""
    ensures WellFormed(w.(flags := "-" + w.flags))
    ensures Meaning(w.(flags := "-" + w.flags)) == Meaning(w).(left := true, zeroPad := false)
    ensures Meaning(w).widthOpt.Literal?
  {
    var flags := "-" + w.flags;
    assert flags[0] == '-' && flags[1..] == w.flags;
    assert forall c: char :: c in flags <==> c == '-' || c in w.flags;
  }
}
