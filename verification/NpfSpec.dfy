/**
  The conversion specifications of nanoprintf (kernel/src/tpf/npf.h, npf_parse_format_spec, as
  configured in kernel/src/tpf/npf.c): the parser, and the written form it accepts.
  */
module NpfSpec {
  import opened NpfDigits

  datatype Opt = NoOpt | Literal | Star

  datatype Length = NoLength | Short | Char | Long | LongLong | IntMax | SizeT | PtrDiff

  datatype Conv = Percent | Character | Text | SignedInt | Binary | Octal | Hex | UnsignedInt | Pointer

  /** `prepend` is '\0', ' ' or '+'; `lower` is off for X and B. */
  datatype Spec = Spec(
    width: int, widthOpt: Opt, left: bool, zeroPad: bool, prec: int, precOpt: Opt,
    prepend: char, alt: bool, lower: bool, length: Length, conv: Conv)

  /** The fields before parsing. A star leaves the width as it is; it is read from the arguments later. */
  const BLANK := Spec(0, NoOpt, false, false, 0, NoOpt, '\0', false, true, NoLength, Percent)

  /** The memory of a C string up to and including its terminating NUL. */
  ghost predicate CString(f: string) {
    f != "" && f[|f| - 1] == '\0' && '\0' !in f[..|f| - 1]
  }

  // ------------------------------------------------------------------------------------------
  // The parser as functions: what is read so far and where the cursor is.

  datatype Cursor = Cursor(spec: Spec, next: nat)

  predicate IsFlag(c: char) {
    c == '-' || c == '0' || c == '+' || c == ' ' || c == '#'
  }

  predicate IsDigit(c: char) {
    '0' <= c <= '9'
  }

  ghost predicate AllFlags(t: string) {
    forall k | 0 <= k < |t| :: IsFlag(t[k])
  }

  function SetFlag(s: Spec, c: char): Spec {
    if c == '-' then s.(left := true, zeroPad := false)
    else if c == '0' then s.(zeroPad := !s.left)
    else if c == '+' then s.(prepend := '+')
    else if c == ' ' && s.prepend == '\0' then s.(prepend := ' ')
    else if c == '#' then s.(alt := true)
    else s
  }

  ghost function AfterFlags(f: string, i: nat, s: Spec): (r: Cursor)
    requires CString(f) && i < |f|
    ensures i <= r.next < |f|
    decreases |f| - i
  {
    if IsFlag(f[i]) then AfterFlags(f, i + 1, SetFlag(s, f[i])) else Cursor(s, i)
  }

  ghost function DigitsEnd(f: string, i: nat): (r: nat)
    requires CString(f) && i < |f|
    ensures i <= r < |f|
    decreases |f| - i
  {
    if IsDigit(f[i]) then DigitsEnd(f, i + 1) else i
  }

  ghost function AfterWidth(f: string, i: nat, s: Spec): (r: Cursor)
    requires CString(f) && i < |f|
    ensures i <= r.next < |f|
  {
    if f[i] == '*' then Cursor(s.(widthOpt := Star), i + 1)
    else
      var end := DigitsEnd(f, i);
      Cursor(s.(width := Value(f[i..end], 10), widthOpt := if end > i then Literal else NoOpt), end)
  }

  /** A number after ".-" is read but not marked as given. */
  ghost function AfterPrecision(f: string, i: nat, s: Spec): (r: Cursor)
    requires CString(f) && i < |f|
    ensures i <= r.next < |f|
  {
    if f[i] != '.' then Cursor(s.(prec := 0, precOpt := NoOpt), i)
    else if f[i + 1] == '*' then Cursor(s.(prec := 0, precOpt := Star), i + 2)
    else if f[i + 1] == '-' then
      var end := DigitsEnd(f, i + 2);
      Cursor(s.(prec := Value(f[i + 2..end], 10), precOpt := NoOpt), end)
    else
      var end := DigitsEnd(f, i + 1);
      Cursor(s.(prec := Value(f[i + 1..end], 10), precOpt := Literal), end)
  }

  predicate IsLengthLetter(c: char) {
    c == 'h' || c == 'l' || c == 'j' || c == 'z' || c == 't'
  }

  function AfterLength(f: string, i: nat, s: Spec): (r: Cursor)
    requires CString(f) && i < |f|
    ensures i <= r.next < |f|
  {
    if f[i] == 'h' then
      if f[i + 1] == 'h' then Cursor(s.(length := Char), i + 2) else Cursor(s.(length := Short), i + 1)
    else if f[i] == 'l' then
      if f[i + 1] == 'l' then Cursor(s.(length := LongLong), i + 2) else Cursor(s.(length := Long), i + 1)
    else if f[i] == 'j' then Cursor(s.(length := IntMax), i + 1)
    else if f[i] == 'z' then Cursor(s.(length := SizeT), i + 1)
    else if f[i] == 't' then Cursor(s.(length := PtrDiff), i + 1)
    else Cursor(s.(length := NoLength), i)
  }

  /** The letters whose zero flag a precision cancels. */
  predicate IsIntegerLetter(c: char) {
    c == 'd' || c == 'i' || c == 'o' || c == 'u' || c == 'x' || c == 'X'
  }

  predicate IsConversion(c: char) {
    || c == '%' || c == 'c' || c == 's' || c == 'p' || c == 'b' || c == 'B' || IsIntegerLetter(c)
  }

  function ConversionOf(c: char): Conv
    requires IsConversion(c)
  {
    match c
    case '%' => Percent
    case 'c' => Character
    case 's' => Text
    case 'd' => SignedInt
    case 'i' => SignedInt
    case 'o' => Octal
    case 'u' => UnsignedInt
    case 'x' => Hex
    case 'X' => Hex
    case 'p' => Pointer
    case _ => Binary
  }

  /** The conversion letter and the fields it overrides. */
  function SetConversion(s: Spec, c: char): Spec
    requires IsConversion(c)
  {
    s.(zeroPad := s.zeroPad && c != 's' && (IsIntegerLetter(c) ==> s.precOpt.NoOpt?),
       precOpt := if c == '%' || c == 'c' || c == 'p' then NoOpt else s.precOpt,
       lower := s.lower && c != 'X' && c != 'B',
       conv := ConversionOf(c))
  }

  datatype Parsed = Malformed | Parsed(spec: Spec, length: nat)

  datatype Stage = InFlags | InWidth | InPrecision | InLength

  /** Where the conversion letter stands, and what the parts before it say. */
  ghost function Scan(f: string, i: nat, s: Spec, stage: Stage): (r: Cursor)
    requires CString(f) && i < |f|
    ensures i <= r.next < |f|
    decreases if stage.InFlags? then 3 else if stage.InWidth? then 2 else if stage.InPrecision? then 1 else 0, |f|
  {
    match stage
    case InFlags =>
      var c := AfterFlags(f, i, s);
      Scan(f, c.next, c.spec, InWidth)
    case InWidth =>
      var c := AfterWidth(f, i, s);
      Scan(f, c.next, c.spec, InPrecision)
    case InPrecision =>
      var c := AfterPrecision(f, i, s);
      Scan(f, c.next, c.spec, InLength)
    case InLength => AfterLength(f, i, s)
  }

  /** Parses the specification whose '%' is f[at]. */
  ghost function Parse(f: string, at: nat): (r: Parsed)
    requires CString(f) && at < |f| && f[at] == '%'
    ensures r.Parsed? ==> 2 <= r.length < |f| - at
  {
    var c := Scan(f, at + 1, BLANK, InFlags);
    if IsConversion(f[c.next]) then Parsed(SetConversion(c.spec, f[c.next]), c.next + 1 - at) else Malformed
  }

  // ------------------------------------------------------------------------------------------
  // The parser as it runs

  method ParseFlags(f: string, at: nat) returns (spec: Spec, cur: nat)
    requires CString(f) && at < |f| && f[at] == '%'
    ensures Cursor(spec, cur) == AfterFlags(f, at + 1, BLANK)
  {
    cur, spec := at + 1, BLANK;
    while f[cur] != '\0' && IsFlag(f[cur])
      invariant at < cur < |f|
      invariant AfterFlags(f, cur, spec) == AfterFlags(f, at + 1, BLANK)
      decreases |f| - cur
    {
      spec := SetFlag(spec, f[cur]);
      cur := cur + 1;
    }
  }

  method ParseNumber(f: string, at: nat) returns (n: nat, cur: nat)
    requires CString(f) && at < |f|
    ensures cur == DigitsEnd(f, at) && n == Value(f[at..cur], 10)
  {
    n, cur := 0, at;
    while '0' <= f[cur] && f[cur] <= '9'
      invariant at <= cur < |f| && DigitsEnd(f, cur) == DigitsEnd(f, at)
      invariant n == Value(f[at..cur], 10)
      decreases |f| - cur
    {
      assert f[at..cur + 1] == f[at..cur] + [f[cur]];
      ValueConcatDigit(f[at..cur], f[cur], 10);
      n := n * 10 + (f[cur] as int - '0' as int);
      cur := cur + 1;
    }
  }

  method ParseWidth(f: string, at: nat, s: Spec) returns (spec: Spec, cur: nat)
    requires CString(f) && at < |f|
    ensures Cursor(spec, cur) == AfterWidth(f, at, s)
  {
    spec, cur := s, at;
    if f[cur] == '*' {
      spec, cur := spec.(widthOpt := Star), cur + 1;
    } else {
      var n;
      n, cur := ParseNumber(f, at);
      spec := spec.(width := n, widthOpt := if cur > at then Literal else NoOpt);
    }
  }

  method ParsePrecision(f: string, at: nat, s: Spec) returns (spec: Spec, cur: nat)
    requires CString(f) && at < |f|
    ensures Cursor(spec, cur) == AfterPrecision(f, at, s)
  {
    spec, cur := s.(prec := 0, precOpt := NoOpt), at;
    if f[cur] == '.' {
      cur := cur + 1;
      if f[cur] == '*' {
        spec, cur := spec.(precOpt := Star), cur + 1;
      } else {
        if f[cur] == '-' {
          cur := cur + 1;
        } else {
          spec := spec.(precOpt := Literal);
        }
        var n;
        n, cur := ParseNumber(f, cur);
        spec := spec.(prec := n);
      }
    }
  }

  method ParseLength(f: string, at: nat, s: Spec) returns (spec: Spec, cur: nat)
    requires CString(f) && at < |f|
    ensures Cursor(spec, cur) == AfterLength(f, at, s)
  {
    spec, cur := s.(length := NoLength), at + 1;
    match f[at] {
      case 'h' =>
        spec := spec.(length := Short);
        if f[cur] == 'h' {
          spec, cur := spec.(length := Char), cur + 1;
        }
      case 'l' =>
        spec := spec.(length := Long);
        if f[cur] == 'l' {
          spec, cur := spec.(length := LongLong), cur + 1;
        }
      case 'j' => spec := spec.(length := IntMax);
      case 'z' => spec := spec.(length := SizeT);
      case 't' => spec := spec.(length := PtrDiff);
      case _ => cur := cur - 1;
    }
  }

  /** The letters d, i, o, u, X and x fall through to the end of this chain, where the zero flag is cancelled. */
  method ParseInteger(c: char, s: Spec) returns (spec: Spec)
    requires IsIntegerLetter(c)
    ensures spec == SetConversion(s, c)
  {
    spec := s;
    if c == 'd' || c == 'i' {
      spec := spec.(conv := SignedInt);
    } else if c == 'o' {
      spec := spec.(conv := Octal);
    } else if c == 'u' {
      spec := spec.(conv := UnsignedInt);
    } else {
      if c == 'X' {
        spec := spec.(lower := false);
      }
      spec := spec.(conv := Hex);
    }
    if !spec.precOpt.NoOpt? {
      spec := spec.(zeroPad := false);
    }
  }

  method ParseConversion(c: char, s: Spec) returns (spec: Spec, ok: bool)
    ensures ok == IsConversion(c) && (ok ==> spec == SetConversion(s, c))
  {
    spec, ok := s, true;
    match c {
      case '%' => spec := spec.(conv := Percent, precOpt := NoOpt);
      case 'c' => spec := spec.(conv := Character, precOpt := NoOpt);
      case 's' => spec := spec.(conv := Text, zeroPad := false);
      case 'p' => spec := spec.(conv := Pointer, precOpt := NoOpt);
      case 'B' => spec := spec.(conv := Binary, lower := false);
      case 'b' => spec := spec.(conv := Binary);
      case _ =>
        ok := IsIntegerLetter(c);
        if ok {
          spec := ParseInteger(c, spec);
        }
    }
  }

  /** npf_parse_format_spec: the length read, or 0 if the specification is malformed. */
  method ParseFormatSpec(f: string, at: nat) returns (spec: Spec, length: nat)
    requires CString(f) && at < |f| && f[at] == '%'
    ensures match Parse(f, at) case Malformed => length == 0 case Parsed(s, n) => spec == s && length == n
  {
    var cur;
    spec, cur := ParseFlags(f, at);
    assert Scan(f, cur, spec, InWidth) == Scan(f, at + 1, BLANK, InFlags);
    spec, cur := ParseWidth(f, cur, spec);
    assert Scan(f, cur, spec, InPrecision) == Scan(f, at + 1, BLANK, InFlags);
    spec, cur := ParsePrecision(f, cur, spec);
    assert Scan(f, cur, spec, InLength) == Scan(f, at + 1, BLANK, InFlags);
    spec, cur := ParseLength(f, cur, spec);
    var ok;
    spec, ok := ParseConversion(f[cur], spec);
    length := if ok then cur + 1 - at else 0;
  }

  // ------------------------------------------------------------------------------------------
  // The written form

  datatype Precision = NoPrecision | Dot(digits: string) | DotMinus(digits: string) | DotStar

  /** A specification as it is written: flags in any order and number, a width that is "", "*" or digits. */
  datatype Written = Written(flags: string, width: string, precision: Precision, length: Length, letter: char)

  ghost predicate Decimal(t: string) {
    forall i | 0 <= i < |t| :: IsDigit(t[i])
  }

  ghost predicate WellFormed(w: Written) {
    && AllFlags(w.flags)
    && (w.width == "*" || (Decimal(w.width) && (w.width != "" ==> w.width[0] != '0')))
    && (w.precision.Dot? || w.precision.DotMinus? ==> Decimal(w.precision.digits))
    && IsConversion(w.letter)
  }

  function PrecisionText(p: Precision): string {
    match p
    case NoPrecision => ""
    case Dot(digits) => "." + digits
    case DotMinus(digits) => ".-" + digits
    case DotStar => ".*"
  }

  function LengthText(length: Length): string {
    match length
    case NoLength => ""
    case Short => "h"
    case Char => "hh"
    case Long => "l"
    case LongLong => "ll"
    case IntMax => "j"
    case SizeT => "z"
    case PtrDiff => "t"
  }

  ghost function LengthPart(w: Written): (t: string)
    ensures t != ""
  {
    LengthText(w.length) + [w.letter]
  }

  ghost function PrecisionPart(w: Written): (t: string)
    ensures t != ""
  {
    PrecisionText(w.precision) + LengthPart(w)
  }

  ghost function Render(w: Written): (t: string)
    ensures |t| >= 2 && t[0] == '%'
  {
    "%" + (w.flags + (w.width + PrecisionPart(w)))
  }

  /** The fields a written specification stands for, whatever the order of its flags. */
  ghost function Meaning(w: Written): Spec
    requires WellFormed(w)
  {
    var digits := if w.precision.Dot? || w.precision.DotMinus? then w.precision.digits else "";
    var given :=
      if w.precision.Dot? then Literal else if w.precision.DotStar? then Star else NoOpt;
    Spec(
      if w.width == "*" then 0 else Value(w.width, 10),
      if w.width == "*" then Star else if w.width == "" then NoOpt else Literal,
      '-' in w.flags,
      '0' in w.flags && '-' !in w.flags && w.letter != 's' && (IsIntegerLetter(w.letter) ==> given.NoOpt?),
      Value(digits, 10),
      if w.letter == '%' || w.letter == 'c' || w.letter == 'p' then NoOpt else given,
      if '+' in w.flags then '+' else if ' ' in w.flags then ' ' else '\0',
      '#' in w.flags,
      w.letter != 'X' && w.letter != 'B',
      w.length,
      ConversionOf(w.letter))
  }

  /** t is what f holds from i on. */
  ghost predicate Reads(f: string, i: nat, t: string)
    decreases |t|
  {
    t != "" ==> i < |f| && f[i] == t[0] && Reads(f, i + 1, t[1..])
  }

  lemma {:induction false} ReadsBounded(f: string, i: nat, t: string)
    requires Reads(f, i, t) && i <= |f|
    ensures i + |t| <= |f| && f[i..i + |t|] == t
    decreases |t|
  {
    if t != "" {
      ReadsBounded(f, i + 1, t[1..]);
      assert f[i..i + |t|] == [f[i]] + f[i + 1..i + |t|];
    }
  }

  lemma {:induction false} SliceReads(f: string, i: nat, j: nat)
    requires i <= j <= |f|
    ensures Reads(f, i, f[i..j])
    decreases j - i
  {
    if i < j {
      assert f[i..j][1..] == f[i + 1..j];
      SliceReads(f, i + 1, j);
    }
  }

  lemma {:induction false} ReadsParts(f: string, i: nat, a: string, b: string)
    requires Reads(f, i, a + b)
    ensures Reads(f, i, a) && Reads(f, i + |a|, b)
    decreases |a|
  {
    if a == "" {
      assert a + b == b;
    } else {
      assert (a + b)[1..] == a[1..] + b;
      ReadsParts(f, i + 1, a[1..], b);
    }
  }

  ghost function SetFlags(s: Spec, flags: string): Spec
    decreases |flags|
  {
    if flags == "" then s else SetFlags(SetFlag(s, flags[0]), flags[1..])
  }

  /** The loop over the flags ends at the first other character. */
  lemma {:induction false} FlagsRead(f: string, i: nat, flags: string, s: Spec)
    requires CString(f) && Reads(f, i, flags) && i + |flags| < |f| && !IsFlag(f[i + |flags|])
    requires AllFlags(flags)
    ensures AfterFlags(f, i, s) == Cursor(SetFlags(s, flags), i + |flags|)
    decreases |flags|
  {
    if flags != "" {
      FlagsRead(f, i + 1, flags[1..], SetFlag(s, flags[0]));
    }
  }

  /** The order of the flags does not matter: '-' beats '0' and '+' beats ' '. */
  lemma {:induction false} FlagsMean(s: Spec, flags: string)
    requires s.left ==> !s.zeroPad
    requires s.prepend == '\0' || s.prepend == ' ' || s.prepend == '+'
    requires AllFlags(flags)
    ensures SetFlags(s, flags) == s.(
      left := s.left || '-' in flags,
      zeroPad := !s.left && '-' !in flags && (s.zeroPad || '0' in flags),
      prepend :=
        if s.prepend == '+' || '+' in flags then '+' else if s.prepend == ' ' || ' ' in flags then ' ' else '\0',
      alt := s.alt || '#' in flags)
    decreases |flags|
  {
    if flags != "" {
      FlagsMean(SetFlag(s, flags[0]), flags[1..]);
      assert flags == [flags[0]] + flags[1..];
    }
  }

  lemma {:induction false} DigitsRead(f: string, i: nat, digits: string)
    requires CString(f) && Reads(f, i, digits) && Decimal(digits)
    requires i + |digits| < |f| && !IsDigit(f[i + |digits|])
    ensures DigitsEnd(f, i) == i + |digits|
    decreases |digits|
  {
    if digits != "" {
      DigitsRead(f, i + 1, digits[1..]);
    }
  }

  lemma {:induction false} WidthRead(f: string, i: nat, width: string, s: Spec)
    requires CString(f) && Reads(f, i, width) && i + |width| < |f|
    requires width == "*" || (Decimal(width) && !IsDigit(f[i + |width|]) && (width == "" ==> f[i] != '*'))
    ensures AfterWidth(f, i, s) == Cursor(
      if width == "*" then s.(widthOpt := Star)
      else s.(width := Value(width, 10), widthOpt := if width == "" then NoOpt else Literal), i + |width|)
  {
    if width != "" {
      assert f[i] == width[0];
    }
    if width != "*" {
      DigitsRead(f, i, width);
      ReadsBounded(f, i, width);
    }
  }

  lemma {:induction false} NumberRead(f: string, i: nat, digits: string)
    requires CString(f) && Reads(f, i, digits) && Decimal(digits)
    requires i + |digits| < |f| && !IsDigit(f[i + |digits|])
    ensures DigitsEnd(f, i) == i + |digits| && f[i..i + |digits|] == digits
    ensures digits != "" ==> f[i] == digits[0]
  {
    DigitsRead(f, i, digits);
    ReadsBounded(f, i, digits);
  }

  ghost function WithPrecision(s: Spec, p: Precision): Spec {
    s.(prec := if p.Dot? || p.DotMinus? then Value(p.digits, 10) else 0,
       precOpt := if p.Dot? then Literal else if p.DotStar? then Star else NoOpt)
  }

  lemma {:induction false} DotRead(f: string, i: nat, digits: string, s: Spec)
    requires CString(f) && Reads(f, i, "." + digits) && Decimal(digits) && i + 1 + |digits| < |f|
    requires var c := f[i + 1 + |digits|]; !IsDigit(c) && c != '.' && c != '*' && c != '-'
    ensures AfterPrecision(f, i, s)
      == Cursor(s.(prec := Value(digits, 10), precOpt := Literal), i + 1 + |digits|)
  {
    ReadsParts(f, i, ".", digits);
    NumberRead(f, i + 1, digits);
  }

  lemma {:induction false} DotMinusRead(f: string, i: nat, digits: string, s: Spec)
    requires CString(f) && Reads(f, i, ".-" + digits) && Decimal(digits) && i + 2 + |digits| < |f|
    requires !IsDigit(f[i + 2 + |digits|])
    ensures AfterPrecision(f, i, s) == Cursor(s.(prec := Value(digits, 10), precOpt := NoOpt), i + 2 + |digits|)
  {
    ReadsParts(f, i, ".-", digits);
    NumberRead(f, i + 2, digits);
    assert f[i] == ".-"[0] && f[i + 1] == ".-"[1];
  }

  lemma {:induction false} PrecisionRead(f: string, i: nat, p: Precision, s: Spec)
    requires CString(f) && Reads(f, i, PrecisionText(p)) && i + |PrecisionText(p)| < |f|
    requires p.Dot? || p.DotMinus? ==> Decimal(p.digits)
    requires var c := f[i + |PrecisionText(p)|]; !IsDigit(c) && c != '.' && c != '*' && c != '-'
    ensures AfterPrecision(f, i, s) == Cursor(WithPrecision(s, p), i + |PrecisionText(p)|)
  {
    match p
    case NoPrecision =>
    case Dot(digits) => DotRead(f, i, digits, s);
    case DotMinus(digits) => DotMinusRead(f, i, digits, s);
    case DotStar => assert f[i] == ".*"[0] && f[i + 1] == ".*"[1];
  }

  lemma {:induction false} LengthRead(f: string, i: nat, length: Length, s: Spec)
    requires CString(f) && Reads(f, i, LengthText(length)) && i + |LengthText(length)| < |f|
    requires !IsLengthLetter(f[i + |LengthText(length)|])
    ensures AfterLength(f, i, s) == Cursor(s.(length := length), i + |LengthText(length)|)
  {
    var t := LengthText(length);
    if |t| == 1 {
      assert f[i] == t[0];
    } else if |t| == 2 {
      assert f[i] == t[0] && f[i + 1] == t[1];
    }
  }

  // Reading the parts one after another; each lemma also hands on where the rest is.

  lemma {:induction false} FirstCharacter(f: string, i: nat, t: string)
    requires Reads(f, i, t) && t != ""
    ensures f[i] == t[0]
  {
  }

  lemma {:induction false} LengthPartRead(f: string, i: nat, w: Written, s: Spec)
    requires CString(f) && Reads(f, i, LengthPart(w)) && WellFormed(w)
    ensures AfterLength(f, i, s) == Cursor(s.(length := w.length), i + |LengthPart(w)| - 1)
    ensures f[i + |LengthPart(w)| - 1] == w.letter
    ensures f[i] != '*' && f[i] != '.' && f[i] != '-' && !IsDigit(f[i]) && !IsFlag(f[i])
  {
    ReadsParts(f, i, LengthText(w.length), [w.letter]);
    FirstCharacter(f, i, LengthPart(w));
    FirstCharacter(f, i + |LengthText(w.length)|, [w.letter]);
    LengthRead(f, i, w.length, s);
  }

  lemma {:induction false} PrecisionPartRead(f: string, i: nat, w: Written, s: Spec)
    requires CString(f) && Reads(f, i, PrecisionPart(w)) && WellFormed(w)
    ensures Scan(f, i, s, InPrecision)
      == Cursor(WithPrecision(s, w.precision).(length := w.length), i + |PrecisionPart(w)| - 1)
    ensures f[i + |PrecisionPart(w)| - 1] == w.letter
    ensures f[i] != '*' && !IsDigit(f[i]) && !IsFlag(f[i])
  {
    var e := i + |PrecisionText(w.precision)|;
    ReadsParts(f, i, PrecisionText(w.precision), LengthPart(w));
    FirstCharacter(f, i, PrecisionPart(w));
    LengthPartRead(f, e, w, WithPrecision(s, w.precision));
    PrecisionRead(f, i, w.precision, s);
  }

  ghost function WithWidth(s: Spec, width: string): Spec {
    if width == "*" then s.(widthOpt := Star)
    else s.(width := Value(width, 10), widthOpt := if width == "" then NoOpt else Literal)
  }

  ghost function WithParts(s: Spec, w: Written): Spec {
    WithPrecision(WithWidth(s, w.width), w.precision).(length := w.length)
  }

  lemma {:induction false} WidthPartRead(f: string, i: nat, w: Written, s: Spec)
    requires CString(f) && Reads(f, i, w.width + PrecisionPart(w)) && WellFormed(w)
    ensures Scan(f, i, s, InWidth) == Cursor(WithParts(s, w), i + |w.width| + |PrecisionPart(w)| - 1)
    ensures f[i + |w.width| + |PrecisionPart(w)| - 1] == w.letter
    ensures !IsFlag(f[i])
  {
    var e := i + |w.width|;
    ReadsParts(f, i, w.width, PrecisionPart(w));
    FirstCharacter(f, i, w.width + PrecisionPart(w));
    PrecisionPartRead(f, e, w, WithWidth(s, w.width));
    WidthRead(f, i, w.width, s);
    assert AfterWidth(f, i, s) == Cursor(WithWidth(s, w.width), e);
  }

  lemma {:induction false} FlagsThenWidth(f: string, i: nat, s: Spec, j: nat, s1: Spec)
    requires CString(f) && i <= j < |f| && AfterFlags(f, i, s) == Cursor(s1, j)
    ensures Scan(f, i, s, InFlags) == Scan(f, j, s1, InWidth)
  {
  }

  lemma {:induction false} FlagsPartRead(f: string, i: nat, w: Written, s: Spec)
    requires CString(f) && WellFormed(w) && Reads(f, i, w.flags)
    requires Reads(f, i + |w.flags|, w.width + PrecisionPart(w))
    ensures Scan(f, i, s, InFlags)
      == Cursor(WithParts(SetFlags(s, w.flags), w), i + |w.flags| + |w.width| + |PrecisionPart(w)| - 1)
    ensures f[i + |w.flags| + |w.width| + |PrecisionPart(w)| - 1] == w.letter
  {
    WidthPartRead(f, i + |w.flags|, w, SetFlags(s, w.flags));
    FlagsRead(f, i, w.flags, s);
    FlagsThenWidth(f, i, s, i + |w.flags|, SetFlags(s, w.flags));
  }

  lemma {:induction false} GatheredMeans(w: Written)
    requires WellFormed(w)
    ensures SetConversion(WithParts(SetFlags(BLANK, w.flags), w), w.letter) == Meaning(w)
  {
    FlagsMean(BLANK, w.flags);
    var s := WithParts(SetFlags(BLANK, w.flags), w);
    assert s.zeroPad == ('0' in w.flags && '-' !in w.flags) && s.lower;
    assert Value("", 10) == 0;
  }

  lemma {:induction false} RenderReads(f: string, at: nat, w: Written)
    requires Reads(f, at, Render(w))
    ensures at < |f| && f[at] == '%' && Reads(f, at + 1, w.flags)
    ensures Reads(f, at + 1 + |w.flags|, w.width + PrecisionPart(w))
  {
    FirstCharacter(f, at, Render(w));
    ReadsParts(f, at, "%", w.flags + (w.width + PrecisionPart(w)));
    ReadsParts(f, at + 1, w.flags, w.width + PrecisionPart(w));
  }

  lemma {:induction false} RenderScans(f: string, at: nat, w: Written)
    requires CString(f) && WellFormed(w) && Reads(f, at, Render(w))
    ensures at < |f| && f[at] == '%'
    ensures Parse(f, at) == Parsed(SetConversion(WithParts(SetFlags(BLANK, w.flags), w), w.letter), |Render(w)|)
  {
    RenderReads(f, at, w);
    FlagsPartRead(f, at + 1, w, BLANK);
  }

  /** A written specification parses to its meaning and to its exact length. */
  lemma {:induction false} RenderParses(f: string, at: nat, w: Written)
    requires CString(f) && WellFormed(w) && Reads(f, at, Render(w))
    ensures at < |f| && f[at] == '%' && Parse(f, at) == Parsed(Meaning(w), |Render(w)|)
  {
    RenderScans(f, at, w);
    GatheredMeans(w);
  }

  // ------------------------------------------------------------------------------------------
  // Conversely, everything the parser accepts is a written specification.

  lemma {:induction false} FlagsScanned(f: string, i: nat, s: Spec)
    requires CString(f) && i < |f|
    ensures var r := AfterFlags(f, i, s);
            !IsFlag(f[r.next]) && AllFlags(f[i..r.next])
    decreases |f| - i
  {
    if IsFlag(f[i]) {
      FlagsScanned(f, i + 1, SetFlag(s, f[i]));
      var end := AfterFlags(f, i, s).next;
      forall k | 0 <= k < end - i ensures IsFlag(f[i..end][k]) {
        if k > 0 {
          assert f[i..end][k] == f[i + 1..end][k - 1];
        }
      }
    }
  }

  lemma {:induction false} DigitsScanned(f: string, i: nat)
    requires CString(f) && i < |f|
    ensures Decimal(f[i..DigitsEnd(f, i)])
    decreases |f| - i
  {
    if IsDigit(f[i]) {
      DigitsScanned(f, i + 1);
      var end := DigitsEnd(f, i);
      forall k | 0 <= k < end - i ensures IsDigit(f[i..end][k]) {
        if k > 0 {
          assert f[i..end][k] == f[i + 1..end][k - 1];
        }
      }
    }
  }

  /** A number behind one or two characters. */
  lemma {:induction false} NumberScanned(f: string, i: nat, lead: string)
    requires CString(f) && i + |lead| < |f| && f[i..i + |lead|] == lead
    ensures var end := DigitsEnd(f, i + |lead|);
            f[i..end] == lead + f[i + |lead|..end] && Decimal(f[i + |lead|..end])
  {
    DigitsScanned(f, i + |lead|);
    SlicesJoin(f, i, i + |lead|, DigitsEnd(f, i + |lead|));
  }

  lemma {:induction false} PrecisionScanned(f: string, i: nat, s: Spec) returns (p: Precision)
    requires CString(f) && i < |f|
    ensures p.Dot? || p.DotMinus? ==> Decimal(p.digits)
    ensures f[i..AfterPrecision(f, i, s).next] == PrecisionText(p)
  {
    var end := AfterPrecision(f, i, s).next;
    if f[i] != '.' {
      p := NoPrecision;
    } else if f[i + 1] == '*' {
      p := DotStar;
    } else if f[i + 1] == '-' {
      NumberScanned(f, i, ".-");
      p := DotMinus(f[i + 2..end]);
    } else {
      NumberScanned(f, i, ".");
      p := Dot(f[i + 1..end]);
    }
  }

  lemma {:induction false} LengthScanned(f: string, i: nat, s: Spec)
    requires CString(f) && i < |f|
    ensures var r := AfterLength(f, i, s); f[i..r.next] == LengthText(r.spec.length)
  {
  }

  lemma {:induction false} SlicesJoin(f: string, a: nat, b: nat, c: nat)
    requires a <= b <= c <= |f|
    ensures f[a..c] == f[a..b] + f[b..c]
  {
  }

  lemma {:induction false} PartsJoin(f: string, i: nat, j: nat, k: nat, l: nat, e: nat, w: Written)
    requires 0 < i <= j <= k <= l <= e < |f| && f[i - 1] == '%'
    requires f[i..j] == w.flags && f[j..k] == w.width && f[k..l] == PrecisionText(w.precision)
    requires f[l..e] == LengthText(w.length) && f[e] == w.letter
    ensures f[i - 1..e + 1] == Render(w)
  {
    SlicesJoin(f, l, e, e + 1);
    SlicesJoin(f, k, l, e + 1);
    SlicesJoin(f, j, k, e + 1);
    SlicesJoin(f, i, j, e + 1);
    SlicesJoin(f, i - 1, i, e + 1);
    assert f[l..e + 1] == LengthPart(w) && f[k..e + 1] == PrecisionPart(w);
  }

  /** Whatever the parser accepts is a written specification of the length it reports. */
  lemma {:induction false} ParsedIsRendered(f: string, at: nat) returns (w: Written)
    requires CString(f) && at < |f| && f[at] == '%' && Parse(f, at).Parsed?
    ensures WellFormed(w) && Reads(f, at, Render(w))
    ensures Parse(f, at) == Parsed(Meaning(w), |Render(w)|)
  {
    w := PartsScanned(f, at + 1, BLANK);
    var e := Scan(f, at + 1, BLANK, InFlags).next;
    SliceReads(f, at, e + 1);
    RenderParses(f, at, w);
  }

  lemma {:induction false} PartsScanned(f: string, i: nat, s: Spec) returns (w: Written)
    requires CString(f) && 0 < i < |f| && f[i - 1] == '%' && IsConversion(f[Scan(f, i, s, InFlags).next])
    ensures WellFormed(w) && f[i - 1..Scan(f, i, s, InFlags).next + 1] == Render(w)
  {
    var flags := AfterFlags(f, i, s);
    FlagsScanned(f, i, s);
    var width := AfterWidth(f, flags.next, flags.spec);
    DigitsScanned(f, flags.next);
    var p := PrecisionScanned(f, width.next, width.spec);
    var prec := AfterPrecision(f, width.next, width.spec);
    var length := AfterLength(f, prec.next, prec.spec);
    assert Scan(f, flags.next, flags.spec, InWidth) == Scan(f, width.next, width.spec, InPrecision);
    assert Scan(f, i, s, InFlags) == length;
    LengthScanned(f, prec.next, prec.spec);
    w := Written(f[i..flags.next], f[flags.next..width.next], p, length.spec.length, f[length.next]);
    PartsJoin(f, i, flags.next, width.next, prec.next, length.next, w);
  }

  ghost predicate WrittenAt(f: string, at: nat, w: Written) {
    WellFormed(w) && Reads(f, at, Render(w))
  }

  /** The parser accepts exactly the written specifications; everything else is malformed. */
  lemma {:induction false} AcceptsExactlyWritten(f: string, at: nat)
    requires CString(f) && at < |f| && f[at] == '%'
    ensures Parse(f, at).Parsed? <==> exists w :: WrittenAt(f, at, w)
  {
    if Parse(f, at).Parsed? {
      var w := ParsedIsRendered(f, at);
      assert WrittenAt(f, at, w);
    }
    forall w | WrittenAt(f, at, w) ensures Parse(f, at).Parsed? {
      RenderParses(f, at, w);
    }
  }
}
