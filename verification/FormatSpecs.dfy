/** Argument ids and format specifiers: the part of the parser between the braces. */
module FormatSpecs {
  import opened Results
  import opened Powers
  import opened Digits

  const INT_MAX: nat := 0x7FFF_FFFF
  const TWO_TO_32: nat := 0x1_0000_0000

  // ---------------------------------------------------------------- numbers

  /** The end of the run of digits that starts at p. */
  function RunEnd(s: string, p: nat): (q: nat)
    requires p <= |s|
    ensures p <= q <= |s| && (q < |s| ==> !IsDigit(s[q])) && AllDigits(s[p..q])
    decreases |s| - p
  {
    if p < |s| && IsDigit(s[p]) then
      var q := RunEnd(s, p + 1);
      assert s[p..q] == [s[p]] + s[p + 1..q];
      q
    else p
  }

  /** The number that the digits s[p..q] denote. */
  function RunValue(s: string, p: nat, q: nat): nat
    requires p <= q <= |s| && AllDigits(s[p..q])
  {
    Decimal(s[p..q])
  }

  lemma RunValueNext(s: string, p: nat, q: nat)
    requires p <= q < |s| && AllDigits(s[p..q]) && IsDigit(s[q])
    ensures AllDigits(s[p..q + 1])
    ensures RunValue(s, p, q + 1) == 10 * RunValue(s, p, q) + DigitValue(s[q])
  {
    assert s[p..q + 1] == s[p..q] + [s[q]];
    assert s[p..q + 1][..q - p] == s[p..q];
  }

  /** What parse_nonnegative_int yields for the run at p: too many digits count as too big. */
  function RunNumber(s: string, p: nat): Result<nat>
    requires p <= |s|
  {
    var q := RunEnd(s, p);
    var value := RunValue(s, p, q);
    if q - p <= 9 || (q - p == 10 && value <= INT_MAX) then Ok(value) else Err("number is too big")
  }

  /** Without leading zeros the number is accepted exactly when it fits an int. */
  lemma RunNumberFitsInt(s: string, p: nat)
    requires p < |s| && IsDigit(s[p])
    requires s[p] != '0' || RunEnd(s, p) == p + 1
    ensures var value := RunValue(s, p, RunEnd(s, p));
            RunNumber(s, p) == if value <= INT_MAX then Ok(value) else Err("number is too big")
  {
    var q := RunEnd(s, p);
    assert q > p && s[p..q][0] == s[p];
    DecimalFitsInt(s[p..q]);
    hide RunEnd, Decimal, AllDigits;
  }

  lemma DecimalFitsInt(s: string)
    requires s != "" && AllDigits(s) && (s[0] != '0' || |s| == 1)
    ensures |s| <= 9 ==> Decimal(s) <= INT_MAX
    ensures |s| > 10 ==> Decimal(s) > INT_MAX
  {
    Pow10Values();
    hide Pow, Decimal, AllDigits;
    if |s| <= 9 {
      DecimalBound(s);
      PowMonotone(10, |s|, 9);
    } else if |s| > 10 {
      DecimalLowerBound(s);
      PowMonotone(10, 10, |s| - 1);
    }
  }

  /**
    parse_nonnegative_int, with its unsigned 32-bit accumulator that may wrap around and the
    final test in 64 bits on the accumulator before the last digit.
  */
  method ParseNonnegativeInt(s: string, begin: nat, errorValue: int) returns (value: int, end: nat)
    requires begin < |s| && IsDigit(s[begin])
    ensures end == RunEnd(s, begin) && end > begin
    ensures value == if RunNumber(s, begin).Ok? then RunNumber(s, begin).value else errorValue
  {
    hide Decimal, RunValue, AllDigits;
    var acc, prev, p := 0, 0, begin;
    NoDigitsYet(s, begin);
    while true
      invariant begin <= p < |s| && IsDigit(s[p]) && RunEnd(s, begin) == RunEnd(s, p)
      invariant AllDigits(s[begin..p])
      invariant 0 <= acc < TWO_TO_32 && acc == RunValue(s, begin, p) % TWO_TO_32
      decreases |s| - p
    {
      prev := acc;
      acc := (acc * 10 + DigitValue(s[p])) % TWO_TO_32;
      WrappedStep(s, begin, p);
      p := p + 1;
      if p == |s| || !IsDigit(s[p]) { break; }
    }
    end := p;
    assert end == RunEnd(s, begin);
    WrappedResult(s, begin, p, acc, prev);
    if p - begin <= 9 || (p - begin == 10 && prev * 10 + DigitValue(s[p - 1]) <= INT_MAX) {
      return acc, end;
    }
    return errorValue, end;
  }

  lemma NoDigitsYet(s: string, begin: nat)
    requires begin <= |s|
    ensures AllDigits(s[begin..begin]) && RunValue(s, begin, begin) == 0
  {
  }

  /** Up to ten digits the wrapped accumulators still tell the number, or that it is too big. */
  lemma WrappedResult(s: string, begin: nat, p: nat, acc: nat, prev: nat)
    requires begin < p <= |s| && AllDigits(s[begin..p]) && AllDigits(s[begin..p - 1]) && IsDigit(s[p - 1])
    requires acc == RunValue(s, begin, p) % TWO_TO_32 && prev == RunValue(s, begin, p - 1) % TWO_TO_32
    ensures p - begin <= 9 ==> acc == RunValue(s, begin, p)
    ensures p - begin == 10 ==>
              && (prev * 10 + DigitValue(s[p - 1]) <= INT_MAX <==> RunValue(s, begin, p) <= INT_MAX)
              && (RunValue(s, begin, p) <= INT_MAX ==> acc == RunValue(s, begin, p))
  {
    Pow10Values();
    RunValueNext(s, begin, p - 1);
    if p - begin <= 9 {
      DecimalBound(s[begin..p]);
      PowMonotone(10, p - begin, 9);
    } else if p - begin == 10 {
      DecimalBound(s[begin..p - 1]);
    }
  }

  lemma WrappedStep(s: string, begin: nat, p: nat)
    requires begin <= p < |s| && AllDigits(s[begin..p]) && IsDigit(s[p])
    ensures AllDigits(s[begin..p + 1])
    ensures RunValue(s, begin, p + 1) % TWO_TO_32
         == ((RunValue(s, begin, p) % TWO_TO_32) * 10 + DigitValue(s[p])) % TWO_TO_32
  {
    RunValueNext(s, begin, p);
    hide RunValue;
    var value := RunValue(s, begin, p);
    SameModulo(10 * value + DigitValue(s[p]), 10 * (value % TWO_TO_32) + DigitValue(s[p]), 10 * (value / TWO_TO_32));
  }

  lemma SameModulo(x: nat, y: nat, k: nat)
    requires x == y + TWO_TO_32 * k
    ensures x % TWO_TO_32 == y % TWO_TO_32
  {
    DivMod(x, TWO_TO_32, y / TWO_TO_32 + k, y % TWO_TO_32);
  }

  // ---------------------------------------------------------------- argument ids

  datatype ArgRef = Auto | Index(id: nat) | Name(name: string)

  predicate IsNameStart(c: char) {
    'a' <= c <= 'z' || 'A' <= c <= 'Z' || c == '_'
  }

  function NameEnd(s: string, p: nat): (q: nat)
    requires p <= |s|
    ensures p <= q <= |s|
    decreases |s| - p
  {
    if p < |s| && (IsNameStart(s[p]) || IsDigit(s[p])) then NameEnd(s, p + 1) else p
  }

  const INVALID := "invalid format string"

  /** parse_arg_id: the id before '}' or ':', and the position after it. */
  function ArgId(s: string, p: nat): (r: Result<(ArgRef, nat)>)
    requires p < |s|
    ensures r.Ok? ==> p <= r.value.1 <= |s|
  {
    var c := s[p];
    if c == '}' || c == ':' then Ok((Auto, p))
    else if IsDigit(c) then
      var q := if c == '0' then p + 1 else RunEnd(s, p);
      var id := if c == '0' then 0 else var n := RunNumber(s, p); if n.Ok? then n.value else INT_MAX;
      if q == |s| || (s[q] != '}' && s[q] != ':') then Err(INVALID) else Ok((Index(id), q))
    else if !IsNameStart(c) then Err(INVALID)
    else var q := NameEnd(s, p + 1); Ok((Name(s[p..q]), q))
  }

  /**
    basic_format_parse_context: the next automatic id, or -1 once an explicit id was used.
    The two indexing modes do not mix.
  */
  type Counter = n: int | n >= -1

  const SWITCH_TO_AUTOMATIC := "cannot switch from manual to automatic argument indexing"
  const SWITCH_TO_MANUAL := "cannot switch from automatic to manual argument indexing"

  function NextArgId(next: Counter): Result<(nat, Counter)> {
    if next < 0 then Err(SWITCH_TO_AUTOMATIC)
    else
      var id: nat := next;
      var after: Counter := next + 1;
      Ok((id, after))
  }

  function CheckArgId(next: Counter): Result<Counter> {
    if next > 0 then Err(SWITCH_TO_MANUAL) else Ok(-1)
  }

  // ---------------------------------------------------------------- specifiers

  datatype ArgType =
    | IntType | UIntType | LongLongType | ULongLongType | Int128Type | UInt128Type
    | BoolType | CharType | FloatType | DoubleType | LongDoubleType
    | CStringType | StringType | PointerType

  predicate SignedInteger(t: ArgType) {
    t.IntType? || t.LongLongType? || t.Int128Type?
  }

  predicate UnsignedInteger(t: ArgType) {
    t.UIntType? || t.ULongLongType? || t.UInt128Type?
  }

  predicate Floating(t: ArgType) {
    t.FloatType? || t.DoubleType? || t.LongDoubleType?
  }

  predicate Integral(t: ArgType) {
    SignedInteger(t) || UnsignedInteger(t) || t.BoolType? || t.CharType?
  }

  predicate Arithmetic(t: ArgType) {
    Integral(t) || Floating(t)
  }

  datatype Align = NoAlign | Left | Right | Center | Numeric
  datatype SignSpec = NoSign | Minus | Plus | Space

  /** A width or precision: absent or literal, or taken from an argument. */
  datatype Dynamic = Fixed(value: int) | FromArg(id: nat) | FromName(name: string)

  datatype Specs = Specs(width: Dynamic, precision: Dynamic, presentation: string, align: Align,
                         sign: SignSpec, alt: bool, localized: bool, fill: string)

  const DEFAULT_SPECS := Specs(Fixed(0), Fixed(-1), "", NoAlign, NoSign, false, false, " ")

  function ParseAlign(c: char): Align {
    if c == '<' then Left else if c == '>' then Right else if c == '^' then Center else NoAlign
  }

  /** The number of bytes of a code point, by its first byte; 1 on error. */
  function CodePointLength(c: char): (n: nat)
    ensures 1 <= n <= 4
  {
    if 0xC0 as char <= c < 0xE0 as char then 2
    else if 0xE0 as char <= c < 0xF0 as char then 3
    else if 0xF0 as char <= c < 0xF8 as char then 4
    else 1
  }

  /** [integer | "{" [arg_id] "}"]; anything else is left for the caller. */
  function DynamicSpec(s: string, p: nat, current: Dynamic, next: Counter): (r: Result<(Dynamic, nat, Counter)>)
    requires p < |s|
    ensures r.Ok? ==> p <= r.value.1 <= |s| && (IsDigit(s[p]) || s[p] == '{' ==> p < r.value.1)
  {
    if IsDigit(s[p]) then
      var n := RunNumber(s, p);
      if n.Err? then Err("number is too big")
      else assert RunEnd(s, p) == RunEnd(s, p + 1); Ok((Fixed(n.value), RunEnd(s, p), next))
    else if s[p] == '{' then
      if p + 1 == |s| then Err(INVALID)
      else
        var (ref, q) :- ArgId(s, p + 1);
        var (value, next') :- ResolveRef(ref, next);
        if q == |s| || s[q] != '}' then Err(INVALID) else Ok((value, q + 1, next'))
    else Ok((current, p, next))
  }

  /** dynamic_spec_id_handler */
  function ResolveRef(ref: ArgRef, next: Counter): Result<(Dynamic, Counter)> {
    match ref
    case Auto => var (id, next') :- NextArgId(next); Ok((FromArg(id), next'))
    case Index(id) => var next' :- CheckArgId(next); Ok((FromArg(id), next'))
    case Name(name) => Ok((FromName(name), next))
  }

  // The order of the parts of a specifier: align 1, sign 2, hash 3, zero 4, width 5,
  // precision 6, locale 7. Each part must come after the previous one.
  type State = nat

  const INVALID_SPEC := "invalid format specifier"

  predicate PresentationAllowed(c: char, t: ArgType) {
    match c
    case 'd' => Integral(t) case 'o' => Integral(t) case 'x' => Integral(t) case 'X' => Integral(t)
    case 'b' => Integral(t) case 'B' => Integral(t) case 'c' => Integral(t)
    case 'a' => Floating(t) case 'A' => Floating(t) case 'e' => Floating(t) case 'E' => Floating(t)
    case 'f' => Floating(t) case 'F' => Floating(t) case 'g' => Floating(t) case 'G' => Floating(t)
    case 's' => t.BoolType? || t.StringType? || t.CStringType?
    case 'p' => t.PointerType? || t.CStringType?
    case '?' => t.CharType? || t.StringType? || t.CStringType?
    case _ => false
  }

  predicate IsPresentation(c: char) {
    c in "doxXbBcaAeEfFgGsp?"
  }

  /** Everything the loop of parse_format_specs carries from one pass to the next. */
  datatype SpecState = SpecState(pos: nat, specs: Specs, state: State, next: Counter)

  /** What one pass of the loop does: it goes on, or the specifier ends at a position. */
  datatype Step = More(st: SpecState) | Done(st: SpecState)

  /** A part that takes no argument id: whether it ends the specifier, and what it changes. */
  datatype Part = Part(last: bool, pos: nat, specs: Specs, state: State)

  function PlainPart(s: string, c: char, pos: nat, specs: Specs, state: State, t: ArgType): (r: Result<Part>)
    requires pos < |s|
    ensures r.Ok? ==> pos <= r.value.pos <= |s| && (!r.value.last ==> state < r.value.state <= 7)
  {
    var align := ParseAlign(c);
    if align != NoAlign then
      if state >= 1 then Err(INVALID_SPEC) else Ok(Part(false, pos + 1, specs.(align := align), 1))
    else if c == '+' || c == '-' || c == ' ' then
      if state >= 2 || !(SignedInteger(t) || Floating(t)) then Err(INVALID_SPEC)
      else
        var sign := if c == '+' then Plus else if c == '-' then Minus else Space;
        Ok(Part(false, pos + 1, specs.(sign := sign), 2))
    else if c == '#' then
      if state >= 3 || !Arithmetic(t) then Err(INVALID_SPEC) else Ok(Part(false, pos + 1, specs.(alt := true), 3))
    else if c == '0' then
      if state >= 4 then Err(INVALID_SPEC)
      else if !Arithmetic(t) then Err("format specifier requires numeric argument")
      else
        var padded := if specs.align.NoAlign? then specs.(align := Numeric, fill := "0") else specs;
        Ok(Part(false, pos + 1, padded, 4))
    else if c == 'L' then
      if state >= 7 || !Arithmetic(t) then Err(INVALID_SPEC)
      else Ok(Part(false, pos + 1, specs.(localized := true), 7))
    else if IsPresentation(c) then
      if !PresentationAllowed(c, t) then Err(INVALID_SPEC)
      else Ok(Part(true, pos + 1, specs.(presentation := [c]), state))
    else if s[pos] == '}' then Ok(Part(true, pos, specs, state))
    else
      var fillEnd := pos + CodePointLength(s[pos]);
      if fillEnd >= |s| then Err(INVALID_SPEC)
      else if s[pos] == '{' then Err("invalid fill character '{'")
      else
        var a := ParseAlign(s[fillEnd]);
        if state >= 1 || a.NoAlign? then Err(INVALID_SPEC)
        else Ok(Part(false, fillEnd + 1, specs.(align := a, fill := s[pos..fillEnd]), 1))
  }

  /** One pass at character c, which is '\0' when the first two characters are a fill. */
  function SpecStep(s: string, c: char, st: SpecState, t: ArgType): (r: Result<Step>)
    requires st.pos < |s|
    ensures r.Ok? ==> st.pos <= r.value.st.pos <= |s|
    ensures r.Ok? && r.value.More? ==> st.state < r.value.st.state <= 7
    ensures r.Ok? && st.next > 0 ==> r.value.st.next > 0
  {
    var p := st.pos;
    if '1' <= c <= '9' || c == '{' then
      if st.state >= 5 then Err(INVALID_SPEC)
      else
        var (width, q, next) :- DynamicSpec(s, p, st.specs.width, st.next);
        Ok(More(SpecState(q, st.specs.(width := width), 5, next)))
    else if c == '.' then
      if st.state >= 6 || !(Floating(t) || t.StringType? || t.CStringType?) then Err(INVALID_SPEC)
      else if p + 1 == |s| || s[p + 1] == '}' then Err("invalid precision")
      else
        var (precision, q, next) :- DynamicSpec(s, p + 1, st.specs.precision, st.next);
        Ok(More(SpecState(q, st.specs.(precision := precision), 6, next)))
    else
      var part :- PlainPart(s, c, p, st.specs, st.state, t);
      var after := SpecState(part.pos, part.specs, part.state, st.next);
      Ok(if part.last then Done(after) else More(after))
  }

  /** The loop of parse_format_specs from character c on. */
  function SpecLoop(s: string, c: char, st: SpecState, t: ArgType): (r: Result<SpecState>)
    requires st.pos < |s|
    ensures r.Ok? ==> st.pos <= r.value.pos <= |s|
    ensures r.Ok? && st.next > 0 ==> r.value.next > 0
    decreases 8 - (if st.state <= 7 then st.state else 8)
  {
    var step :- SpecStep(s, c, st, t);
    match step
    case Done(st') => Ok(st')
    case More(st') => if st'.pos == |s| then Ok(st') else SpecLoop(s, s[st'.pos], st', t)
  }

  /** parse_format_specs: the specifiers at p, and where they end. */
  function ReadSpecs(s: string, p: nat, next: Counter, t: ArgType): (r: Result<SpecState>)
    requires p <= |s|
    ensures r.Ok? ==> p <= r.value.pos <= |s|
    ensures r.Ok? && next > 0 ==> r.value.next > 0
  {
    var start := SpecState(p, DEFAULT_SPECS, 0, next);
    if p == |s| then Ok(start)
    else if p + 1 < |s| then SpecLoop(s, if ParseAlign(s[p + 1]).NoAlign? then s[p] else '\0', start, t)
    else SpecLoop(s, s[p], start, t)
  }

  lemma SpecLoopUnfolds(s: string, c: char, st: SpecState, t: ArgType)
    requires st.pos < |s|
    ensures var step := SpecStep(s, c, st, t);
            SpecLoop(s, c, st, t) ==
            if step.Err? then Err(step.message)
            else if step.value.Done? || step.value.st.pos == |s| then Ok(step.value.st)
            else SpecLoop(s, s[step.value.st.pos], step.value.st, t)
  {
    hide SpecStep;
  }
}
