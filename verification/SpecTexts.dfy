/** The grammar of format specifiers as text: the parser reads every sentence of it and nothing else. */
module SpecTexts {
  import opened Results
  import opened Powers
  import opened Digits
  import opened FormatSpecs
  import opened Decimals

  // ---------------------------------------------------------------- the grammar

  /** A width or precision as it is written: digits, or an argument id in braces. */
  datatype Number = Absent | Literal(digits: string) | Ref(id: string)

  /** [[fill]align][sign]["#"]["0"][width]["." [precision]]["L"][type] */
  datatype Parts = Parts(fill: string, align: Align, sign: SignSpec, alt: bool, zero: bool, width: Number,
                         point: bool, precision: Number, localized: bool, presentation: string)

  function NumberText(n: Number): string {
    match n
    case Absent => ""
    case Literal(digits) => digits
    case Ref(id) => "{" + id + "}"
  }

  function AlignText(p: Parts): string {
    match p.align
    case Left => p.fill + "<"
    case Right => p.fill + ">"
    case Center => p.fill + "^"
    case _ => ""
  }

  function SignMark(sign: SignSpec): string {
    match sign
    case NoSign => ""
    case Minus => "-"
    case Plus => "+"
    case Space => " "
  }

  function PrecisionText(p: Parts): string {
    if p.point then "." + NumberText(p.precision) else ""
  }

  /** The text from each part on. */
  function FromLocale(p: Parts): string { (if p.localized then "L" else "") + p.presentation }
  function FromPrecision(p: Parts): string { PrecisionText(p) + FromLocale(p) }
  function FromWidth(p: Parts): string { NumberText(p.width) + FromPrecision(p) }
  function FromZero(p: Parts): string { (if p.zero then "0" else "") + FromWidth(p) }
  function FromHash(p: Parts): string { (if p.alt then "#" else "") + FromZero(p) }
  function FromSign(p: Parts): string { SignMark(p.sign) + FromHash(p) }
  function SpecText(p: Parts): string { AlignText(p) + FromSign(p) }

  /** Digits whose number an int holds; leading zeros count as digits. */
  predicate FitsInt(digits: string) {
    && digits != "" && AllDigits(digits)
    && (|digits| <= 9 || (|digits| == 10 && Decimal(digits) <= 2147483647))
  }

  /** Letters and the underscore by their codes, and digits. */
  predicate BeginsName(c: char) {
    97 <= c as int <= 122 || 65 <= c as int <= 90 || c as int == 95
  }

  predicate IsName(id: string) {
    && id != "" && BeginsName(id[0])
    && forall i :: 0 <= i < |id| ==> BeginsName(id[i]) || 48 <= id[i] as int <= 57
  }

  /** A number without leading zeros. */
  predicate IsIndex(id: string) {
    id != "" && AllDigits(id) && (id[0] == '0' ==> |id| == 1)
  }

  predicate IsId(id: string) {
    id == "" || IsIndex(id) || IsName(id)
  }

  predicate IsNumber(n: Number) {
    match n
    case Absent => true
    case Literal(digits) => FitsInt(digits)
    case Ref(id) => IsId(id)
  }

  /** How many bytes an encoding has that begins with this one: section 3 of RFC 3629; 1 on error. */
  function EncodingLength(first: char): nat {
    var b := first as int;
    if b < 192 then 1 else if b < 224 then 2 else if b < 240 then 3 else if b < 248 then 4 else 1
  }

  /** One code point, as many bytes as its first byte tells, that does not begin with a brace. */
  predicate IsFill(fill: string) {
    fill == "" || (|fill| == EncodingLength(fill[0]) && fill[0] != '{' && fill[0] != '}')
  }

  /** What can be signed; what is a number, booleans and characters included; what has a precision. */
  predicate CanBeSigned(t: ArgType) {
    t in {IntType, LongLongType, Int128Type, FloatType, DoubleType, LongDoubleType}
  }

  predicate IsNumeric(t: ArgType) {
    t !in {CStringType, StringType, PointerType}
  }

  predicate HasPrecision(t: ArgType) {
    t in {FloatType, DoubleType, LongDoubleType, CStringType, StringType}
  }

  /** The letters that can end the specifier of an argument. */
  function TypeLetters(t: ArgType): set<char> {
    match t
    case BoolType => {'d', 'o', 'x', 'X', 'b', 'B', 'c', 's'}
    case CharType => {'d', 'o', 'x', 'X', 'b', 'B', 'c', '?'}
    case FloatType => {'a', 'A', 'e', 'E', 'f', 'F', 'g', 'G'}
    case DoubleType => {'a', 'A', 'e', 'E', 'f', 'F', 'g', 'G'}
    case LongDoubleType => {'a', 'A', 'e', 'E', 'f', 'F', 'g', 'G'}
    case CStringType => {'s', 'p', '?'}
    case StringType => {'s', '?'}
    case PointerType => {'p'}
    case _ => {'d', 'o', 'x', 'X', 'b', 'B', 'c'}
  }

  /** What the parts in front of the type may be. */
  predicate AllowedParts(p: Parts, t: ArgType) {
    && !p.align.Numeric? && (p.align.NoAlign? ==> p.fill == "")
    && IsFill(p.fill)
    && (!p.sign.NoSign? ==> CanBeSigned(t))
    && (p.alt || p.zero || p.localized ==> IsNumeric(t))
    && IsNumber(p.width) && IsNumber(p.precision) && (p.width.Literal? ==> p.width.digits[0] != '0')
    && (p.point ==> HasPrecision(t)) && (!p.point ==> p.precision.Absent?)
  }

  /** What the grammar and the type of the argument allow; a point alone must not be the end. */
  predicate Allowed(p: Parts, t: ArgType) {
    && AllowedParts(p, t)
    && (p.point && p.precision.Absent? ==> FromLocale(p) != "")
    && (p.presentation == "" || (|p.presentation| == 1 && p.presentation[0] in TypeLetters(t)))
  }

  /** The parser's tests of types and characters come to the same. */
  lemma SameClasses(t: ArgType)
    ensures CanBeSigned(t) <==> SignedInteger(t) || Floating(t)
    ensures IsNumeric(t) <==> Arithmetic(t)
    ensures HasPrecision(t) <==> Floating(t) || t.StringType? || t.CStringType?
  {
  }

  lemma SameLetters(c: char, t: ArgType)
    ensures c in TypeLetters(t) <==> IsPresentation(c) && PresentationAllowed(c, t)
  {
    AllLetters(c);
    hide IsPresentation;
  }

  lemma AllLetters(c: char)
    ensures IsPresentation(c) <==>
            c in {'d', 'o', 'x', 'X', 'b', 'B', 'c', 'a', 'A', 'e', 'E', 'f', 'F', 'g', 'G', 's', 'p', '?'}
  {
    var letters := "doxXbBcaAeEfFgGsp?";
    assert letters[0] == 'd' && letters[1] == 'o' && letters[2] == 'x' && letters[3] == 'X' && letters[4] == 'b';
    assert letters[5] == 'B' && letters[6] == 'c' && letters[7] == 'a' && letters[8] == 'A' && letters[9] == 'e';
    assert letters[10] == 'E' && letters[11] == 'f' && letters[12] == 'F' && letters[13] == 'g' && letters[14] == 'G';
    assert letters[15] == 's' && letters[16] == 'p' && letters[17] == '?';
    if IsPresentation(c) {
      var i :| 0 <= i < |letters| && letters[i] == c;
    }
  }

  lemma SameCharacters(c: char)
    ensures EncodingLength(c) == CodePointLength(c)
    ensures BeginsName(c) <==> IsNameStart(c)
    ensures 48 <= c as int <= 57 <==> IsDigit(c)
  {
  }

  lemma AllowedNumbers(p: Parts, t: ArgType)
    requires Allowed(p, t)
    ensures IsNumber(p.width) && IsNumber(p.precision) && (p.width.Literal? ==> p.width.digits[0] != '0')
    ensures p.point ==> Floating(t) || t.StringType? || t.CStringType?
    ensures !p.point ==> p.precision.Absent?
    ensures p.point && p.precision.Absent? ==> FromLocale(p) != ""
  {
    SameClasses(t);
    hide TypeLetters, FromLocale, Floating, HasPrecision, CanBeSigned, IsNumeric;
  }

  lemma AllowedMarks(p: Parts, t: ArgType)
    requires Allowed(p, t)
    ensures p.alt || p.zero || p.localized ==> Arithmetic(t)
    ensures !p.sign.NoSign? ==> SignedInteger(t) || Floating(t)
    ensures !p.align.Numeric? && (p.align.NoAlign? ==> p.fill == "")
    ensures IsFill(p.fill)
  {
    SameClasses(t);
    hide TypeLetters, IsFill, Arithmetic, SignedInteger, Floating, HasPrecision, CanBeSigned, IsNumeric;
  }

  // ---------------------------------------------------------------- what it means

  /**
    The argument that an id in braces stands for. Without an id it is the next one, unless one was
    given before; an index, too big for an int as the biggest one, must not follow a missing one.
  */
  function ResolveId(id: string, next: Counter): Result<(Dynamic, Counter)>
    requires IsId(id)
  {
    if id == "" then
      if next == -1 then Err("cannot switch from manual to automatic argument indexing")
      else
        var after: Counter := next + 1;
        Ok((FromArg(next), after))
    else if IsIndex(id) then
      if next >= 1 then Err("cannot switch from automatic to manual argument indexing")
      else Ok((FromArg(if FitsInt(id) then Decimal(id) else 2147483647), -1))
    else Ok((FromName(id), next))
  }

  function Resolve(n: Number, current: Dynamic, next: Counter): Result<(Dynamic, Counter)>
    requires IsNumber(n)
  {
    match n
    case Absent => Ok((current, next))
    case Literal(digits) => Ok((Fixed(Decimal(digits)), next))
    case Ref(id) => ResolveId(id, next)
  }

  /** Alignment and fill: given, or zeros in front because of "0". */
  function Aligned(p: Parts): (Align, string) {
    if !p.align.NoAlign? then (p.align, if p.fill == "" then " " else p.fill)
    else if p.zero then (Numeric, "0")
    else (NoAlign, " ")
  }

  /** The specifiers that a sentence means, and the counter behind it, width before precision. */
  function Meaning(p: Parts, next: Counter): Result<(Specs, Counter)>
    requires IsNumber(p.width) && IsNumber(p.precision)
  {
    var (width, n1) :- Resolve(p.width, Fixed(0), next);
    var (precision, n2) :- Resolve(p.precision, Fixed(-1), n1);
    Ok((Specs(width, precision, p.presentation, Aligned(p).0, p.sign, p.alt, p.localized, Aligned(p).1), n2))
  }

  // ---------------------------------------------------------------- reading one part after the other

  /** The text stands in s at p, a closing brace behind it. */
  predicate StandsAt(s: string, p: nat, text: string) {
    p + |text| < |s| && s[p..p + |text|] == text && s[p + |text|] == '}'
  }

  lemma StandsSplit(s: string, p: nat, a: string, b: string)
    requires StandsAt(s, p, a + b)
    ensures p + |a| <= |s| && s[p..p + |a|] == a && StandsAt(s, p + |a|, b)
    ensures a != "" ==> s[p] == a[0]
    ensures |a| > 1 ==> s[p + 1] == a[1]
  {
    var t := s[p..p + |a + b|];
    assert t[..|a|] == a && t[|a|..] == b;
    assert s[p..p + |a|] == t[..|a|];
    assert s[p + |a|..p + |a| + |b|] == t[|a|..];
    assert a != "" ==> s[p] == t[0];
    assert |a| > 1 ==> s[p + 1] == t[1];
  }

  /** The result of the loop, whatever state it ends in. */
  predicate Yields(r: Result<SpecState>, pos: nat, specs: Specs, next: Counter) {
    r.Ok? && r.value.pos == pos && r.value.specs == specs && r.value.next == next
  }

  /** The specifiers still to be read, applied to those read before. */
  function WithLocale(p: Parts, specs: Specs): Specs {
    specs.(presentation := p.presentation, localized := p.localized)
  }

  /** What parts of a specifier mean, read from given specifiers and counter on. */
  type Meant = Result<(Specs, Counter)>

  function PrecisionMeaning(p: Parts, specs: Specs, next: Counter): Meant
    requires IsNumber(p.precision)
  {
    var (precision, after) :- Resolve(p.precision, specs.precision, next);
    Ok((WithLocale(p, specs.(precision := precision)), after))
  }

  function WidthMeaning(p: Parts, specs: Specs, next: Counter): Meant
    requires IsNumber(p.width) && IsNumber(p.precision)
  {
    var (width, after) :- Resolve(p.width, specs.width, next);
    PrecisionMeaning(p, specs.(width := width), after)
  }

  /** The loop reads up to pos with this meaning, or fails with the error that the meaning is. */
  predicate Gives(r: Result<SpecState>, pos: nat, m: Meant) {
    match m
    case Ok(v) => Yields(r, pos, v.0, v.1)
    case Err(message) => r == Err(message)
  }

  lemma StepEnds(s: string, st: SpecState, t: ArgType)
    requires st.pos < |s| && s[st.pos] == '}'
    ensures SpecStep(s, '}', st, t) == Ok(Done(st))
  {
    hide DynamicSpec;
    assert !IsPresentation('}');
  }

  lemma StepPresentation(s: string, st: SpecState, t: ArgType)
    requires st.pos < |s| && IsPresentation(s[st.pos]) && PresentationAllowed(s[st.pos], t)
    ensures SpecStep(s, s[st.pos], st, t)
         == Ok(Done(st.(pos := st.pos + 1, specs := st.specs.(presentation := [s[st.pos]]))))
  {
    PresentationLetters(s[st.pos]);
    PlainPresentation(s, s[st.pos], st.pos, st.specs, st.state, t);
    hide DynamicSpec, PlainPart, IsPresentation, PresentationAllowed;
  }

  lemma PlainPresentation(s: string, c: char, pos: nat, specs: Specs, state: State, t: ArgType)
    requires pos < |s| && IsPresentation(c) && PresentationAllowed(c, t)
    ensures PlainPart(s, c, pos, specs, state, t) == Ok(Part(true, pos + 1, specs.(presentation := [c]), state))
  {
    PresentationLetters(c);
    hide IsPresentation, PresentationAllowed, CodePointLength, Arithmetic, SignedInteger, Floating;
  }

  lemma PresentationLetters(c: char)
    ensures IsPresentation(c) ==> ('a' <= c <= 'z' || 'A' <= c <= 'G' || c == 'X' || c == '?')
  {
    if IsPresentation(c) {
      var letters := "doxXbBcaAeEfFgGsp?";
      var i :| 0 <= i < |letters| && letters[i] == c;
    }
  }

  /** The parts that are a single character. */
  lemma StepLocale(s: string, st: SpecState, t: ArgType)
    requires st.pos < |s| && st.state < 7 && Arithmetic(t)
    ensures SpecStep(s, 'L', st, t)
         == Ok(More(st.(pos := st.pos + 1, state := 7, specs := st.specs.(localized := true))))
  {
    hide DynamicSpec;
  }

  lemma StepZero(s: string, st: SpecState, t: ArgType)
    requires st.pos < |s| && st.state < 4 && Arithmetic(t)
    ensures var specs := if st.specs.align.NoAlign? then st.specs.(align := Numeric, fill := "0") else st.specs;
            SpecStep(s, '0', st, t) == Ok(More(st.(pos := st.pos + 1, state := 4, specs := specs)))
  {
    hide DynamicSpec;
  }

  lemma StepHash(s: string, st: SpecState, t: ArgType)
    requires st.pos < |s| && st.state < 3 && Arithmetic(t)
    ensures SpecStep(s, '#', st, t)
         == Ok(More(st.(pos := st.pos + 1, state := 3, specs := st.specs.(alt := true))))
  {
    hide DynamicSpec;
  }

  lemma StepSign(s: string, st: SpecState, t: ArgType, sign: SignSpec)
    requires st.pos < |s| && st.state < 2 && !sign.NoSign? && (SignedInteger(t) || Floating(t))
    ensures SpecStep(s, SignMark(sign)[0], st, t)
         == Ok(More(st.(pos := st.pos + 1, state := 2, specs := st.specs.(sign := sign))))
  {
    hide DynamicSpec;
  }

  lemma ReadsPresentation(s: string, p: nat, parts: Parts, st: SpecState, t: ArgType)
    requires Allowed(parts, t) && st.pos == p && StandsAt(s, p, parts.presentation) && st.specs.presentation == ""
    ensures Yields(SpecLoop(s, s[p], st, t), p + |parts.presentation|,
                   st.specs.(presentation := parts.presentation), st.next)
  {
    if parts.presentation != "" { SameLetters(parts.presentation[0], t); }
    hide SpecStep, SpecLoop, TypeLetters, PresentationAllowed, IsPresentation;
    SpecLoopUnfolds(s, s[p], st, t);
    if parts.presentation == "" {
      StepEnds(s, st, t);
    } else {
      assert s[p] == s[p..p + 1][0];
      assert parts.presentation == [s[p]];
      StepPresentation(s, st, t);
    }
  }

  lemma ReadsLocale(s: string, p: nat, parts: Parts, st: SpecState, t: ArgType)
    requires Allowed(parts, t) && st.pos == p && StandsAt(s, p, FromLocale(parts)) && st.state < 7
    requires st.specs.presentation == "" && !st.specs.localized
    ensures Yields(SpecLoop(s, s[p], st, t), p + |FromLocale(parts)|, WithLocale(parts, st.specs), st.next)
  {
    StandsSplit(s, p, if parts.localized then "L" else "", parts.presentation);
    hide SpecStep, SpecLoop;
    if parts.localized {
      SpecLoopUnfolds(s, 'L', st, t);
      StepLocale(s, st, t);
      ReadsPresentation(s, p + 1, parts, st.(pos := p + 1, state := 7, specs := st.specs.(localized := true)), t);
    } else {
      ReadsPresentation(s, p, parts, st, t);
    }
  }

  // ---------------------------------------------------------------- widths and precisions

  /** What comes behind a width or precision is no digit. */
  lemma LocaleStops(s: string, p: nat, parts: Parts, t: ArgType)
    requires Allowed(parts, t) && StandsAt(s, p, FromLocale(parts))
    ensures !IsDigit(s[p]) && s[p] != '.' && s[p] != '{'
  {
    StandsSplit(s, p, if parts.localized then "L" else "", parts.presentation);
    if !parts.localized && parts.presentation != "" {
      assert parts.presentation + "" == parts.presentation;
      StandsSplit(s, p, parts.presentation, "");
      PresentationLetters(s[p]);
    }
  }

  /** A digit run that stands in the text is read whole. */
  lemma ReadsDigits(s: string, p: nat, d: string)
    requires d != "" && AllDigits(d) && p + |d| < |s| && s[p..p + |d|] == d && !IsDigit(s[p + |d|])
    ensures RunEnd(s, p) == p + |d| && s[p] == d[0]
    ensures RunNumber(s, p) == if FitsInt(d) then Ok(Decimal(d)) else Err("number is too big")
  {
    assert s[p + |d|..][0] == s[p + |d|];
    RunEndOf(s, p, p + |d|);
    assert s[p] == s[p..p + |d|][0];
  }

  lemma ReadsLiteral(s: string, p: nat, d: string, current: Dynamic, next: Counter)
    requires FitsInt(d) && p + |d| < |s| && s[p..p + |d|] == d && !IsDigit(s[p + |d|])
    ensures DynamicSpec(s, p, current, next) == Ok((Fixed(Decimal(d)), p + |d|, next))
    ensures IsDigit(s[p]) && s[p] == d[0]
  {
    ReadsDigits(s, p, d);
    hide RunEnd, RunNumber, Decimal;
  }

  lemma ReadsReference(s: string, p: nat, ref: ArgRef, q: nat, current: Dynamic, next: Counter)
    requires p + 1 < |s| && s[p] == '{' && ArgId(s, p + 1) == Ok((ref, q)) && q < |s| && s[q] == '}'
    ensures var r, d := ResolveRef(ref, next), DynamicSpec(s, p, current, next);
            d == if r.Ok? then Ok((r.value.0, q + 1, r.value.1)) else Err(r.message)
  {
    hide ArgId, RunNumber, RunEnd, RunValue, ResolveRef;
  }

  lemma {:induction false} NameEndOf(s: string, p: nat, q: nat)
    requires p <= q < |s| && !IsNameStart(s[q]) && !IsDigit(s[q])
    requires forall i :: p <= i < q ==> IsNameStart(s[i]) || IsDigit(s[i])
    ensures NameEnd(s, p) == q
    decreases q - p
  {
    if p < q { NameEndOf(s, p + 1, q); }
  }

  /** The id as the parser tells it apart. */
  function RefOf(id: string): ArgRef
    requires IsId(id)
  {
    if id == "" then Auto
    else if IsDigit(id[0]) then Index(if FitsInt(id) then Decimal(id) else 2147483647)
    else Name(id)
  }

  lemma RefResolves(id: string, next: Counter)
    requires IsId(id)
    ensures ResolveRef(RefOf(id), next) == ResolveId(id, next)
  {
    hide FitsInt, Decimal;
  }

  lemma NameIsRead(id: string)
    requires IsName(id)
    ensures IsNameStart(id[0]) && forall i :: 0 <= i < |id| ==> IsNameStart(id[i]) || IsDigit(id[i])
  {
    forall i | 0 <= i < |id| ensures (IsNameStart(id[i]) || IsDigit(id[i])) && (IsNameStart(id[i]) <==> BeginsName(id[i])) {
      SameCharacters(id[i]);
    }
  }

  /** An id that stands before a closing brace or a colon is read whole. */
  lemma ReadsId(s: string, p: nat, id: string)
    requires IsId(id) && p + |id| < |s| && s[p..p + |id|] == id && (s[p + |id|] == '}' || s[p + |id|] == ':')
    ensures ArgId(s, p) == Ok((RefOf(id), p + |id|))
  {
    var q := p + |id|;
    forall i | p <= i < q ensures s[i] == id[i - p] { assert s[i] == s[p..q][i - p]; }
    if id != "" {
      assert s[p] == id[0];
      if IsDigit(id[0]) {
        ReadsDigits(s, p, id);
        hide RunEnd, RunNumber, Decimal;
      } else {
        NameIsRead(id);
        NameEndOf(s, p + 1, q);
      }
    }
  }

  lemma ReadsRef(s: string, p: nat, id: string, current: Dynamic, next: Counter)
    requires IsId(id) && p + |id| + 2 <= |s| && s[p..p + |id| + 2] == "{" + id + "}"
    ensures var r, d := ResolveId(id, next), DynamicSpec(s, p, current, next);
            d == if r.Ok? then Ok((r.value.0, p + |id| + 2, r.value.1)) else Err(r.message)
    ensures s[p] == '{'
  {
    hide DynamicSpec, ArgId, ResolveRef, ResolveId, IsId, RefOf;
    RefResolves(id, next);
    var c, text := |id|, s[p..p + |id| + 2];
    assert s[p] == text[0] && s[p + 1 + c] == text[c + 1];
    assert text[1..c + 1] == id;
    SliceOfSlice(s, p, c + 2, 1, c + 1);
    ReadsId(s, p + 1, id);
    ReadsReference(s, p, RefOf(id), p + 1 + c, current, next);
  }

  lemma ReadsNumber(s: string, p: nat, n: Number, current: Dynamic, next: Counter)
    requires !n.Absent? && IsNumber(n) && p + |NumberText(n)| < |s| && s[p..p + |NumberText(n)|] == NumberText(n)
    requires n.Literal? ==> !IsDigit(s[p + |NumberText(n)|])
    ensures var r, d := Resolve(n, current, next), DynamicSpec(s, p, current, next);
            d == if r.Ok? then Ok((r.value.0, p + |NumberText(n)|, r.value.1)) else Err(r.message)
    ensures if n.Literal? then IsDigit(s[p]) && s[p] == n.digits[0] else s[p] == '{'
  {
    hide DynamicSpec, ResolveId, FitsInt, IsId;
    match n {
      case Literal(d) => assert d != "" by { FitsNotEmpty(d); } ReadsLiteral(s, p, d, current, next);
      case Ref(id) => ReadsRef(s, p, id, current, next);
    }
  }

  lemma FitsNotEmpty(d: string)
    requires FitsInt(d)
    ensures d != "" && AllDigits(d)
  {
  }

  // ---------------------------------------------------------------- the remaining parts, from right to left

  lemma StepWidth(s: string, st: SpecState, t: ArgType)
    requires st.pos < |s| && ('1' <= s[st.pos] <= '9' || s[st.pos] == '{') && st.state < 5
    ensures var d := DynamicSpec(s, st.pos, st.specs.width, st.next);
            SpecStep(s, s[st.pos], st, t) ==
            if d.Ok? then Ok(More(SpecState(d.value.1, st.specs.(width := d.value.0), 5, d.value.2)))
            else Err(d.message)
  {
    hide DynamicSpec, PlainPart;
  }

  lemma StepPrecision(s: string, st: SpecState, t: ArgType)
    requires st.pos + 1 < |s| && s[st.pos + 1] != '}' && st.state < 6
    requires Floating(t) || t.StringType? || t.CStringType?
    ensures var d := DynamicSpec(s, st.pos + 1, st.specs.precision, st.next);
            SpecStep(s, '.', st, t) ==
            if d.Ok? then Ok(More(SpecState(d.value.1, st.specs.(precision := d.value.0), 6, d.value.2)))
            else Err(d.message)
  {
    hide DynamicSpec, PlainPart;
  }

  lemma BehindFirst(s: string, p: nat, c: char, number: string, text: string)
    requires text == [c] + number && p + |text| <= |s| && s[p..p + |text|] == text
    ensures s[p] == c && s[p + 1..p + |text|] == number
  {
    assert text[1..] == number && text[0] == c;
    SliceOfSlice(s, p, |text|, 1, |text|);
  }

  /** Where the pieces of a precision and of what is behind it stand. */
  lemma SplitPrecision(s: string, p: nat, parts: Parts, rest: string)
    requires StandsAt(s, p, PrecisionText(parts) + rest)
    ensures |PrecisionText(parts)| == if parts.point then 1 + |NumberText(parts.precision)| else 0
    ensures StandsAt(s, p + |PrecisionText(parts)|, rest)
    ensures parts.point ==> s[p] == '.' && s[p + 1..p + |PrecisionText(parts)|] == NumberText(parts.precision)
  {
    hide NumberText, StandsAt;
    var text := PrecisionText(parts);
    StandsSplit(s, p, text, rest);
    if parts.point {
      BehindFirst(s, p, '.', NumberText(parts.precision), text);
    }
  }

  /** The number behind a point, or nothing, if something else follows. */
  lemma ReadsBehindPoint(s: string, p: nat, parts: Parts, t: ArgType, current: Dynamic, next: Counter)
    requires Allowed(parts, t) && parts.point
    requires StandsAt(s, p + |NumberText(parts.precision)|, FromLocale(parts))
    requires s[p..p + |NumberText(parts.precision)|] == NumberText(parts.precision)
    ensures var r, d := Resolve(parts.precision, current, next), DynamicSpec(s, p, current, next);
            d == if r.Ok? then Ok((r.value.0, p + |NumberText(parts.precision)|, r.value.1)) else Err(r.message)
    ensures s[p] != '}'
  {
    hide Allowed, FromLocale, DynamicSpec, NumberText, ResolveId;
    var q := p + |NumberText(parts.precision)|;
    AllowedNumbers(parts, t);
    LocaleStops(s, q, parts, t);
    StandsInside(s, q, FromLocale(parts));
    if parts.precision.Absent? {
      AbsentResolves(current, next);
      NothingToRead(s, p, current, next);
      LocaleBegins(s, p, parts, t);
    } else {
      ReadsNumber(s, p, parts.precision, current, next);
    }
  }

  lemma NothingToRead(s: string, p: nat, current: Dynamic, next: Counter)
    requires p < |s| && !IsDigit(s[p]) && s[p] != '{'
    ensures DynamicSpec(s, p, current, next) == Ok((current, p, next))
  {
  }

  lemma LocaleBegins(s: string, p: nat, parts: Parts, t: ArgType)
    requires Allowed(parts, t) && FromLocale(parts) != "" && StandsAt(s, p, FromLocale(parts))
    ensures s[p] != '}'
  {
    AllowedPresentation(parts, t);
    hide Allowed, IsPresentation;
    assert s[p] == s[p..p + |FromLocale(parts)|][0];
    if !parts.localized { PresentationLetters(s[p]); }
  }

  lemma ReadsPresentPrecision(s: string, p: nat, q: nat, parts: Parts, st: SpecState, t: ArgType)
    requires Allowed(parts, t) && st.pos == p && st.state < 6 && parts.point && IsNumber(parts.precision)
    requires q == p + 1 + |NumberText(parts.precision)| && StandsAt(s, q, FromLocale(parts))
    requires s[p] == '.' && s[p + 1..q] == NumberText(parts.precision)
    requires st.specs.presentation == "" && !st.specs.localized
    ensures Gives(SpecLoop(s, s[p], st, t), q + |FromLocale(parts)|, PrecisionMeaning(parts, st.specs, st.next))
  {
    hide Allowed, SpecLoop, SpecStep, FromLocale, WithLocale, NumberText, Resolve, IsNumber, DynamicSpec, StandsAt,
      Floating, Yields;
    AllowedNumbers(parts, t);
    StandsInside(s, q, FromLocale(parts));
    ReadsBehindPoint(s, p + 1, parts, t, st.specs.precision, st.next);
    StepPrecision(s, st, t);
    SpecLoopUnfolds(s, '.', st, t);
    var m := Resolve(parts.precision, st.specs.precision, st.next);
    if m.Ok? {
      ReadsLocale(s, q, parts, SpecState(q, st.specs.(precision := m.value.0), 6, m.value.1), t);
    }
  }

  lemma Concatenations(p: Parts)
    ensures FromPrecision(p) == PrecisionText(p) + FromLocale(p)
    ensures FromWidth(p) == NumberText(p.width) + FromPrecision(p)
    ensures |PrecisionText(p)| == if p.point then 1 + |NumberText(p.precision)| else 0
  {
    hide FromLocale, NumberText;
  }

  lemma StandsInside(s: string, p: nat, text: string)
    requires StandsAt(s, p, text)
    ensures p + |text| < |s|
  {
  }

  lemma ReadsPrecision(s: string, p: nat, parts: Parts, st: SpecState, t: ArgType)
    requires Allowed(parts, t) && st.pos == p && StandsAt(s, p, FromPrecision(parts)) && st.state < 6
    requires st.specs.presentation == "" && !st.specs.localized && IsNumber(parts.precision)
    ensures Gives(SpecLoop(s, s[p], st, t), p + |FromPrecision(parts)|, PrecisionMeaning(parts, st.specs, st.next))
  {
    hide FromPrecision, Resolve, SpecLoop, SpecStep, FromLocale, WithLocale, NumberText, PrecisionText, Allowed,
      IsNumber, StandsAt, Yields;
    AllowedNumbers(parts, t);
    Concatenations(parts);
    SplitPrecision(s, p, parts, FromLocale(parts));
    if parts.point {
      ReadsPresentPrecision(s, p, p + |PrecisionText(parts)|, parts, st, t);
    } else {
      AbsentResolves(st.specs.precision, st.next);
      ReadsLocale(s, p, parts, st, t);
    }
  }

  lemma AbsentResolves(current: Dynamic, next: Counter)
    ensures Resolve(Absent, current, next) == Ok((current, next)) && NumberText(Absent) == ""
  {
  }

  lemma ReadsWidth(s: string, p: nat, parts: Parts, st: SpecState, t: ArgType)
    requires Allowed(parts, t) && st.pos == p && StandsAt(s, p, FromWidth(parts)) && st.state < 5
    requires st.specs.presentation == "" && !st.specs.localized && IsNumber(parts.width) && IsNumber(parts.precision)
    ensures Gives(SpecLoop(s, s[p], st, t), p + |FromWidth(parts)|, WidthMeaning(parts, st.specs, st.next))
  {
    hide Allowed, FromWidth, FromPrecision, PrecisionMeaning, SpecLoop, SpecStep, NumberText, Resolve, IsNumber,
      DynamicSpec, StandsAt, Yields;
    Concatenations(parts);
    StandsSplit(s, p, NumberText(parts.width), FromPrecision(parts));
    var q := p + |NumberText(parts.width)|;
    StandsInside(s, q, FromPrecision(parts));
    AllowedNumbers(parts, t);
    if parts.width.Absent? {
      AbsentResolves(st.specs.width, st.next);
      ReadsPrecision(s, p, parts, st, t);
    } else {
      PrecisionStops(s, q, parts, t);
      ReadsNumber(s, p, parts.width, st.specs.width, st.next);
      assert s[p] != '0';
      StepWidth(s, st, t);
      SpecLoopUnfolds(s, s[p], st, t);
      var m := Resolve(parts.width, st.specs.width, st.next);
      if m.Ok? {
        ReadsPrecision(s, q, parts, SpecState(q, st.specs.(width := m.value.0), 5, m.value.1), t);
      }
    }
  }

  lemma PrecisionStops(s: string, p: nat, parts: Parts, t: ArgType)
    requires Allowed(parts, t) && StandsAt(s, p, FromPrecision(parts))
    ensures !IsDigit(s[p]) && s[p] != '{'
  {
    hide Allowed, FromLocale, NumberText, StandsAt;
    SplitPrecision(s, p, parts, FromLocale(parts));
    if !parts.point { LocaleStops(s, p, parts, t); }
  }

  /** What "0" makes of the specifiers. */
  function WithZero(p: Parts, specs: Specs): Specs {
    if p.zero && specs.align.NoAlign? then specs.(align := Numeric, fill := "0") else specs
  }

  lemma ReadsZero(s: string, p: nat, parts: Parts, st: SpecState, t: ArgType)
    requires Allowed(parts, t) && st.pos == p && StandsAt(s, p, FromZero(parts)) && st.state < 4
    requires st.specs.presentation == "" && !st.specs.localized && IsNumber(parts.width) && IsNumber(parts.precision)
    ensures Gives(SpecLoop(s, s[p], st, t), p + |FromZero(parts)|,
                  WidthMeaning(parts, WithZero(parts, st.specs), st.next))
  {
    hide Allowed, FromWidth, WidthMeaning, SpecLoop, SpecStep, Resolve, StandsAt, Yields, Arithmetic;
    var mark := if parts.zero then "0" else "";
    AllowedMarks(parts, t);
    StandsSplit(s, p, mark, FromWidth(parts));
    var after := if parts.zero then SpecState(p + 1, WithZero(parts, st.specs), 4, st.next) else st;
    ReadsWidth(s, p + |mark|, parts, after, t);
    if parts.zero {
      StandsInside(s, p + 1, FromWidth(parts));
      StepZero(s, st, t);
      SpecLoopUnfolds(s, '0', st, t);
    }
  }

  lemma ReadsHash(s: string, p: nat, parts: Parts, st: SpecState, t: ArgType)
    requires Allowed(parts, t) && st.pos == p && StandsAt(s, p, FromHash(parts)) && st.state < 3
    requires st.specs.presentation == "" && !st.specs.localized && !st.specs.alt
    requires IsNumber(parts.width) && IsNumber(parts.precision)
    ensures Gives(SpecLoop(s, s[p], st, t), p + |FromHash(parts)|,
                  WidthMeaning(parts, WithZero(parts, st.specs.(alt := parts.alt)), st.next))
  {
    hide Allowed, FromZero, WidthMeaning, WithZero, SpecLoop, SpecStep, Resolve, StandsAt, Yields, Arithmetic;
    var mark := if parts.alt then "#" else "";
    AllowedMarks(parts, t);
    StandsSplit(s, p, mark, FromZero(parts));
    var after := if parts.alt then SpecState(p + 1, st.specs.(alt := true), 3, st.next) else st;
    ReadsZero(s, p + |mark|, parts, after, t);
    if parts.alt {
      StandsInside(s, p + 1, FromZero(parts));
      StepHash(s, st, t);
      SpecLoopUnfolds(s, '#', st, t);
    }
  }

  /** Everything from the sign on. */
  function SignMeaning(p: Parts, specs: Specs, next: Counter): Meant
    requires IsNumber(p.width) && IsNumber(p.precision)
  {
    WidthMeaning(p, WithZero(p, specs.(sign := p.sign, alt := p.alt)), next)
  }

  lemma ReadsSign(s: string, p: nat, parts: Parts, st: SpecState, t: ArgType)
    requires Allowed(parts, t) && st.pos == p && StandsAt(s, p, FromSign(parts)) && st.state < 2
    requires st.specs.presentation == "" && !st.specs.localized && !st.specs.alt && st.specs.sign.NoSign?
    requires IsNumber(parts.width) && IsNumber(parts.precision)
    ensures Gives(SpecLoop(s, s[p], st, t), p + |FromSign(parts)|, SignMeaning(parts, st.specs, st.next))
  {
    hide Allowed, FromHash, WidthMeaning, WithZero, SpecLoop, SpecStep, Resolve, StandsAt, Yields;
    var mark := SignMark(parts.sign);
    AllowedMarks(parts, t);
    StandsSplit(s, p, mark, FromHash(parts));
    var after := if parts.sign.NoSign? then st else SpecState(p + 1, st.specs.(sign := parts.sign), 2, st.next);
    ReadsHash(s, p + |mark|, parts, after, t);
    if !parts.sign.NoSign? {
      StandsInside(s, p + 1, FromHash(parts));
      StepSign(s, st, t, parts.sign);
      SpecLoopUnfolds(s, mark[0], st, t);
    }
  }

  // ---------------------------------------------------------------- alignment and the whole specifier

  predicate NoAligns(text: string) {
    forall i :: 0 <= i < |text| ==> ParseAlign(text[i]).NoAlign?
  }

  lemma NoAlignsBehind(p: Parts, t: ArgType)
    requires Allowed(p, t)
    ensures NoAligns(FromSign(p))
  {
    AllowedNumbers(p, t);
    NumberHasNoAlign(p.width);
    NumberHasNoAlign(p.precision);
    PresentationHasNoAlign(p, t);
    MarksHaveNoAlign(p);
    hide Allowed, NumberText, NoAligns, SignMark, FromLocale, FromPrecision, FromWidth, FromZero, FromHash;
    LocaleHasNoAlign(p);
    BothHaveNoAlign(".", NumberText(p.precision));
    assert "" + FromLocale(p) == FromLocale(p);
    BothHaveNoAlign(PrecisionText(p), FromLocale(p));
    Concatenations(p);
    BothHaveNoAlign(NumberText(p.width), FromPrecision(p));
    ZeroAndHashHaveNoAlign(p);
    BothHaveNoAlign(SignMark(p.sign), FromHash(p));
  }

  lemma BothHaveNoAlign(a: string, b: string)
    ensures NoAligns(a) && NoAligns(b) ==> NoAligns(a + b)
  {
  }

  lemma PresentationHasNoAlign(p: Parts, t: ArgType)
    requires Allowed(p, t)
    ensures NoAligns(p.presentation)
  {
    hide IsPresentation, Allowed;
    AllowedPresentation(p, t);
    if p.presentation != "" { PresentationLetters(p.presentation[0]); }
  }

  lemma AllowedPresentation(p: Parts, t: ArgType)
    requires Allowed(p, t)
    ensures p.presentation == "" || (|p.presentation| == 1 && IsPresentation(p.presentation[0]))
  {
    if p.presentation != "" { SameLetters(p.presentation[0], t); }
    hide IsPresentation, PresentationAllowed, TypeLetters;
  }

  lemma MarksHaveNoAlign(p: Parts)
    ensures NoAligns(SignMark(p.sign)) && NoAligns("") && NoAligns(".")
  {
  }

  lemma LocaleHasNoAlign(p: Parts)
    requires NoAligns(p.presentation)
    ensures NoAligns(FromLocale(p))
  {
    BothHaveNoAlign(if p.localized then "L" else "", p.presentation);
  }

  lemma ZeroAndHashHaveNoAlign(p: Parts)
    requires NoAligns(FromWidth(p))
    ensures NoAligns(FromHash(p))
  {
    hide FromWidth;
    BothHaveNoAlign(if p.zero then "0" else "", FromWidth(p));
    BothHaveNoAlign(if p.alt then "#" else "", FromZero(p));
  }

  lemma NumberHasNoAlign(n: Number)
    requires IsNumber(n)
    ensures NoAligns(NumberText(n))
  {
    if n.Literal? {
      DigitsHaveNoAlign(n.digits);
    } else if n.Ref? {
      if IsIndex(n.id) { DigitsHaveNoAlign(n.id); }
      assert forall i :: 0 <= i < |n.id| ==> ParseAlign(n.id[i]).NoAlign?;
    }
  }

  lemma DigitsHaveNoAlign(s: string)
    requires AllDigits(s)
    ensures NoAligns(s)
  {
    forall i | 0 <= i < |s| ensures ParseAlign(s[i]).NoAlign? { assert IsDigit(s[i]); }
  }

  lemma StepAlign(s: string, st: SpecState, t: ArgType, c: char)
    requires st.pos < |s| && st.state == 0 && !ParseAlign(c).NoAlign?
    ensures SpecStep(s, c, st, t)
         == Ok(More(st.(pos := st.pos + 1, state := 1, specs := st.specs.(align := ParseAlign(c)))))
  {
    hide DynamicSpec;
  }

  /** The fill is read by its first byte, or by '\0' if the second byte is an alignment. */
  lemma StepFill(s: string, st: SpecState, t: ArgType, c: char, end: nat)
    requires st.pos < |s| && st.state == 0 && end == st.pos + CodePointLength(s[st.pos]) < |s|
    requires !ParseAlign(s[end]).NoAlign? && s[st.pos] != '{' && s[st.pos] != '}'
    requires c == '\0' || (c == s[st.pos] && end > st.pos + 1)
    ensures SpecStep(s, c, st, t)
         == Ok(More(st.(pos := end + 1, state := 1,
                        specs := st.specs.(align := ParseAlign(s[end]), fill := s[st.pos..end]))))
  {
    hide DynamicSpec, IsPresentation;
    PresentationLetters(c);
  }

  lemma StepNothing(s: string, st: SpecState, t: ArgType)
    requires st.pos < |s| && s[st.pos] == '}'
    ensures SpecStep(s, '\0', st, t) == Ok(Done(st))
  {
    hide DynamicSpec;
    assert !IsPresentation('\0');
  }

  function WithAlign(p: Parts, specs: Specs): Specs {
    if p.align.NoAlign? then specs
    else specs.(align := p.align, fill := if p.fill == "" then specs.fill else p.fill)
  }

  lemma ReadsUnaligned(s: string, p: nat, parts: Parts, next: Counter, t: ArgType)
    requires Allowed(parts, t) && StandsAt(s, p, FromSign(parts)) && parts.align.NoAlign?
    requires IsNumber(parts.width) && IsNumber(parts.precision)
    ensures Gives(ReadSpecs(s, p, next, t), p + |FromSign(parts)|, SignMeaning(parts, DEFAULT_SPECS, next))
  {
    var start, text := SpecState(p, DEFAULT_SPECS, 0, next), FromSign(parts);
    NoAlignsBehind(parts, t);
    SecondCharacter(s, p, text);
    ReadsSign(s, p, parts, start, t);
    hide Allowed, FromSign, SignMeaning, SpecLoop, SpecStep, Resolve, StandsAt, NoAligns;
    if p + 1 < |s| && !ParseAlign(s[p + 1]).NoAlign? {
      StepNothing(s, start, t);
      StepEnds(s, start, t);
      SpecLoopUnfolds(s, '\0', start, t);
      SpecLoopUnfolds(s, '}', start, t);
    }
  }

  /** The second character is in the text, or the closing brace, or the text is empty. */
  lemma SecondCharacter(s: string, p: nat, text: string)
    requires StandsAt(s, p, text) && NoAligns(text)
    ensures p < |s| && (text != "" ==> p + 1 < |s| && ParseAlign(s[p + 1]).NoAlign?)
    ensures text == "" ==> s[p] == '}'
    ensures ParseAlign(s[p]).NoAlign?
  {
    if |text| > 0 { assert s[p] == s[p..p + |text|][0]; }
    if |text| > 1 { assert s[p + 1] == s[p..p + |text|][1]; }
  }

  lemma ReadsAligned(s: string, p: nat, parts: Parts, next: Counter, t: ArgType)
    requires Allowed(parts, t) && StandsAt(s, p, SpecText(parts)) && !parts.align.NoAlign?
    requires IsNumber(parts.width) && IsNumber(parts.precision)
    ensures Gives(ReadSpecs(s, p, next, t), p + |SpecText(parts)|,
                  SignMeaning(parts, WithAlign(parts, DEFAULT_SPECS), next))
  {
    hide Allowed, FromSign, SignMeaning, SpecLoop, SpecStep, Resolve, StandsAt, NoAligns, Gives, AlignText, ParseAlign,
      IsNumber;
    var start, mark := SpecState(p, DEFAULT_SPECS, 0, next), AlignText(parts);
    var q := p + |mark|;
    NoAlignsBehind(parts, t);
    AllowedMarks(parts, t);
    StandsSplit(s, p, mark, FromSign(parts));
    SecondCharacter(s, q, FromSign(parts));
    StandsInside(s, q, FromSign(parts));
    var after := SpecState(q, WithAlign(parts, DEFAULT_SPECS), 1, next);
    ReadsSign(s, q, parts, after, t);
    AlignMarks(s, p, parts);
    if parts.fill == "" {
      StepAlign(s, start, t, s[p]);
      SpecLoopUnfolds(s, s[p], start, t);
    } else {
      var c := if ParseAlign(s[p + 1]).NoAlign? then s[p] else '\0';
      StepFill(s, start, t, c, q - 1);
      SpecLoopUnfolds(s, c, start, t);
    }
  }

  /** Where the fill and the alignment stand. */
  lemma AlignMarks(s: string, p: nat, parts: Parts)
    requires !parts.align.NoAlign? && !parts.align.Numeric? && IsFill(parts.fill)
    requires p + |AlignText(parts)| <= |s| && s[p..p + |AlignText(parts)|] == AlignText(parts)
    ensures var q := p + |parts.fill|;
            && p + |AlignText(parts)| == q + 1 && ParseAlign(s[q]) == parts.align && s[p..q] == parts.fill
            && (parts.fill != "" ==> s[p] == parts.fill[0] && p + CodePointLength(s[p]) == q)
  {
    if parts.fill != "" { SameCharacters(parts.fill[0]); }
    hide CodePointLength, EncodingLength;
    var mark, n := AlignText(parts), |parts.fill|;
    assert mark[..n] == parts.fill && |mark| == n + 1;
    assert s[p + n] == mark[n];
    SliceOfSlice(s, p, |mark|, 0, n);
    if n > 0 { assert s[p] == mark[0]; }
  }

  // ---------------------------------------------------------------- nothing else is read

  /** What DynamicSpec reads is a number of the grammar. */
  lemma DynamicReads(s: string, p: nat, current: Dynamic, next: Counter, d: Dynamic, q: nat, after: Counter)
    returns (n: Number)
    requires p < |s| && (IsDigit(s[p]) || s[p] == '{') && DynamicSpec(s, p, current, next) == Ok((d, q, after))
    ensures p < q <= |s| && !n.Absent? && IsNumber(n) && s[p..q] == NumberText(n)
    ensures Resolve(n, current, next) == Ok((d, after))
    ensures n.Literal? ==> n.digits[0] == s[p]
  {
    if IsDigit(s[p]) {
      n := Literal(s[p..q]);
      LiteralReads(s, p, current, next);
    } else {
      n := Ref(s[p + 1..q - 1]);
      RefReads(s, p, current, next);
    }
  }

  lemma LiteralReads(s: string, p: nat, current: Dynamic, next: Counter)
    requires p < |s| && IsDigit(s[p]) && DynamicSpec(s, p, current, next).Ok?
    ensures var (d, q, after) := DynamicSpec(s, p, current, next).value;
            && p < q <= |s| && FitsInt(s[p..q]) && d == Fixed(Decimal(s[p..q])) && after == next
  {
    LiteralFits(s, p);
    hide RunNumber, RunEnd, Decimal;
  }

  lemma RefReads(s: string, p: nat, current: Dynamic, next: Counter)
    requires p < |s| && s[p] == '{' && DynamicSpec(s, p, current, next).Ok?
    ensures var (d, q, after) := DynamicSpec(s, p, current, next).value;
            && p + 1 < q <= |s| && IsId(s[p + 1..q - 1]) && s[p..q] == "{" + s[p + 1..q - 1] + "}"
            && ResolveId(s[p + 1..q - 1], next) == Ok((d, after))
  {
    hide ArgId, IsId, RefOf, ResolveId;
    var id := ArgId(s, p + 1);
    IdRead(s, p + 1, id.value.0, id.value.1);
    var q := DynamicSpec(s, p, current, next).value.1;
    Prepended(s, p, q);
    Appended(s, p + 1, q - 1);
    BracesGrouped(s[p + 1..q - 1]);
    RefResolves(s[p + 1..q - 1], next);
  }

  lemma BracesGrouped(id: string)
    ensures "{" + (id + "}") == "{" + id + "}"
  {
  }

  lemma LiteralFits(s: string, p: nat)
    requires p < |s| && IsDigit(s[p]) && RunNumber(s, p).Ok?
    ensures RunEnd(s, p) > p && FitsInt(s[p..RunEnd(s, p)]) && Decimal(s[p..RunEnd(s, p)]) == RunNumber(s, p).value
  {
    assert RunEnd(s, p) == RunEnd(s, p + 1);
  }

  lemma {:induction false} NameChars(s: string, p: nat)
    requires p <= |s|
    ensures forall i :: p <= i < NameEnd(s, p) ==> IsNameStart(s[i]) || IsDigit(s[i])
    decreases |s| - p
  {
    if p < |s| && (IsNameStart(s[p]) || IsDigit(s[p])) { NameChars(s, p + 1); }
  }

  lemma IdRead(s: string, p: nat, ref: ArgRef, q: nat)
    requires p < |s| && ArgId(s, p) == Ok((ref, q)) && q < |s| && (s[q] == '}' || s[q] == ':')
    ensures p <= q && IsId(s[p..q]) && RefOf(s[p..q]) == ref
  {
    var id := s[p..q];
    if IsDigit(s[p]) {
      assert RunEnd(s, p) == RunEnd(s, p + 1);
      if s[p] == '0' {
        assert id == "0" && "0"[..0] == "";
        assert Decimal("0") == 0;
      } else {
        hide RunEnd, Decimal;
        assert AllDigits(id) && id[0] == s[p];
      }
    } else if s[p] != '}' && s[p] != ':' {
      NameChars(s, p + 1);
      assert id[0] == s[p];
      SameCharacters(id[0]);
      forall i | 0 <= i < |id| ensures BeginsName(id[i]) || 48 <= id[i] as int <= 57 {
        assert id[i] == s[p + i];
        SameCharacters(id[i]);
      }
    }
  }

  /** The parts behind those that a state stands for are still absent. */
  predicate Upto(p: Parts, state: State) {
    && p.presentation == "" && (state < 7 ==> !p.localized)
    && (state < 6 ==> !p.point && p.precision.Absent?) && (state < 5 ==> p.width.Absent?)
    && (state < 4 ==> !p.zero) && (state < 3 ==> !p.alt) && (state < 2 ==> p.sign.NoSign?)
    && (state < 1 ==> p.align.NoAlign? && p.fill == "")
  }

  /** A point with nothing behind it is not followed by the closing brace. */
  predicate GoesOn(s: string, pos: nat, p: Parts) {
    p.point && p.precision.Absent? && !p.localized ==> pos < |s| && s[pos] != '}'
  }

  /** What has been read from position p on is the text of these parts, with their meaning. */
  ghost predicate Sofar(s: string, p: nat, next: Counter, t: ArgType, st: SpecState, parts: Parts) {
    && p <= st.pos <= |s| && s[p..st.pos] == SpecText(parts)
    && Upto(parts, st.state) && AllowedParts(parts, t) && Meaning(parts, next) == Ok((st.specs, st.next))
    && GoesOn(s, st.pos, parts)
  }

  lemma OneCharacter(s: string, p: nat)
    requires p < |s|
    ensures s[p..p + 1] == [s[p]]
  {
  }

  lemma Prepended(s: string, p: nat, q: nat)
    requires p < q <= |s|
    ensures s[p..q] == [s[p]] + s[p + 1..q]
  {
  }

  lemma Appended(s: string, p: nat, q: nat)
    requires p <= q < |s|
    ensures s[p..q + 1] == s[p..q] + [s[q]]
  {
  }

  lemma Extended(s: string, p: nat, q: nat, r: nat, text: string, piece: string)
    requires p <= q <= r <= |s| && s[p..q] == text && s[q..r] == piece
    ensures s[p..r] == text + piece
  {
    assert s[p..r] == s[p..q] + s[q..r];
  }

  /** The text up to each part. */
  function ToSign(p: Parts): string { AlignText(p) + SignMark(p.sign) }
  function ToHash(p: Parts): string { ToSign(p) + (if p.alt then "#" else "") }
  function ToZero(p: Parts): string { ToHash(p) + (if p.zero then "0" else "") }
  function ToWidth(p: Parts): string { ToZero(p) + NumberText(p.width) }
  function ToPrecision(p: Parts): string { ToWidth(p) + PrecisionText(p) }
  function ToLocale(p: Parts): string { ToPrecision(p) + (if p.localized then "L" else "") }

  lemma Regrouped(p: Parts)
    ensures SpecText(p) == ToLocale(p) + p.presentation
  {
    hide AlignText, SignMark, NumberText, PrecisionText;
    var a, b, h, z := AlignText(p), SignMark(p.sign), if p.alt then "#" else "", if p.zero then "0" else "";
    var w, e, l := NumberText(p.width), PrecisionText(p), if p.localized then "L" else "";
    calc {
      SpecText(p);
      a + (b + (h + (z + (w + (e + (l + p.presentation))))));
      (a + b) + (h + (z + (w + (e + (l + p.presentation)))));
      (a + b + h) + (z + (w + (e + (l + p.presentation))));
      (a + b + h + z) + (w + (e + (l + p.presentation)));
      (a + b + h + z + w) + (e + (l + p.presentation));
      (a + b + h + z + w + e) + (l + p.presentation);
      (a + b + h + z + w + e + l) + p.presentation;
    }
  }

  /** The text ends with the last part there is. */
  lemma TextUpto(p: Parts)
    ensures Upto(p, 7) ==> SpecText(p) == ToLocale(p)
    ensures Upto(p, 6) ==> SpecText(p) == ToPrecision(p)
    ensures Upto(p, 5) ==> SpecText(p) == ToWidth(p)
    ensures Upto(p, 4) ==> SpecText(p) == ToZero(p)
    ensures Upto(p, 3) ==> SpecText(p) == ToHash(p)
    ensures Upto(p, 2) ==> SpecText(p) == ToSign(p)
    ensures Upto(p, 1) ==> SpecText(p) == AlignText(p)
    ensures Upto(p, 0) ==> SpecText(p) == ""
  {
    Regrouped(p);
    hide SpecText;
  }

  lemma SofarFacts(s: string, p: nat, next: Counter, t: ArgType, st: SpecState, parts: Parts)
    requires Sofar(s, p, next, t, st, parts)
    ensures p <= st.pos <= |s| && s[p..st.pos] == SpecText(parts) && AllowedParts(parts, t)
    ensures IsNumber(parts.width) && IsNumber(parts.precision) && Meaning(parts, next) == Ok((st.specs, st.next))
    ensures Upto(parts, 7) && (st.state < 7 ==> Upto(parts, 6)) && (st.state < 6 ==> Upto(parts, 5))
    ensures (st.state < 5 ==> Upto(parts, 4)) && (st.state < 4 ==> Upto(parts, 3)) && (st.state < 3 ==> Upto(parts, 2))
    ensures (st.state < 2 ==> Upto(parts, 1)) && (st.state < 1 ==> Upto(parts, 0))
  {
    hide SpecText, Meaning, IsFill, IsNumber, Arithmetic, SignedInteger, Floating;
  }

  /** No point without a number is the last thing. */
  predicate Quiet(p: Parts) {
    !(p.point && p.precision.Absent? && !p.localized)
  }

  /** Adding the next part adds its text. */
  lemma WidthText(p: Parts, n: Number)
    requires Upto(p, 4)
    ensures SpecText(p.(width := n)) == SpecText(p) + NumberText(n)
    ensures Upto(p.(width := n), 5) && Quiet(p.(width := n))
  {
    TextUpto(p);
    TextUpto(p.(width := n));
    hide SpecText, SignMark, NumberText;
  }

  lemma PrecisionAdds(p: Parts, n: Number)
    requires Upto(p, 5)
    ensures SpecText(p.(point := true, precision := n)) == SpecText(p) + ("." + NumberText(n))
    ensures Upto(p.(point := true, precision := n), 6) && (Quiet(p.(point := true, precision := n)) || n.Absent?)
  {
    TextUpto(p);
    TextUpto(p.(point := true, precision := n));
    hide SpecText, SignMark, NumberText;
  }

  lemma LocaleText(p: Parts)
    requires Upto(p, 6)
    ensures SpecText(p.(localized := true)) == SpecText(p) + "L"
    ensures Upto(p.(localized := true), 7) && Quiet(p.(localized := true))
  {
    TextUpto(p);
    TextUpto(p.(localized := true));
    hide SpecText, SignMark, NumberText;
  }

  lemma TypeText(p: Parts, c: char)
    requires Upto(p, 7)
    ensures SpecText(p.(presentation := [c])) == SpecText(p) + [c]
  {
    TextUpto(p);
    Regrouped(p.(presentation := [c]));
    hide SpecText, SignMark, NumberText;
  }

  lemma ZeroText(p: Parts)
    requires Upto(p, 3)
    ensures SpecText(p.(zero := true)) == SpecText(p) + "0"
    ensures Upto(p.(zero := true), 4) && Quiet(p.(zero := true))
  {
    TextUpto(p);
    TextUpto(p.(zero := true));
    hide SpecText, SignMark, NumberText;
  }

  lemma HashText(p: Parts)
    requires Upto(p, 2)
    ensures SpecText(p.(alt := true)) == SpecText(p) + "#"
    ensures Upto(p.(alt := true), 3) && Quiet(p.(alt := true))
  {
    TextUpto(p);
    TextUpto(p.(alt := true));
    hide SpecText, SignMark, NumberText;
  }

  lemma SignText(p: Parts, sign: SignSpec)
    requires Upto(p, 1)
    ensures SpecText(p.(sign := sign)) == SpecText(p) + SignMark(sign)
    ensures Upto(p.(sign := sign), 2) && Quiet(p.(sign := sign))
  {
    TextUpto(p);
    TextUpto(p.(sign := sign));
    hide SpecText;
  }

  lemma AlignAdds(p: Parts, align: Align, fill: string)
    requires Upto(p, 0)
    ensures SpecText(p.(align := align, fill := fill)) == AlignText(p.(align := align, fill := fill))
    ensures SpecText(p) == ""
    ensures Upto(p.(align := align, fill := fill), 1) && Quiet(p.(align := align, fill := fill))
  {
    TextUpto(p);
    TextUpto(p.(align := align, fill := fill));
    hide SpecText;
  }

  /** What each part adds to the meaning. */
  lemma MeaningMarks(p: Parts, next: Counter)
    requires IsNumber(p.width) && IsNumber(p.precision) && Meaning(p, next).Ok?
    ensures var (specs, after) := Meaning(p, next).value;
            && Meaning(p.(localized := true), next) == Ok((specs.(localized := true), after))
            && Meaning(p.(alt := true), next) == Ok((specs.(alt := true), after))
            && Meaning(p.(zero := true), next) ==
                 Ok((if specs.align.NoAlign? then specs.(align := Numeric, fill := "0") else specs, after))
  {
    hide Resolve, IsNumber;
  }

  lemma MeaningSign(p: Parts, next: Counter, sign: SignSpec)
    requires IsNumber(p.width) && IsNumber(p.precision) && Meaning(p, next).Ok?
    ensures var (specs, after) := Meaning(p, next).value;
            Meaning(p.(sign := sign), next) == Ok((specs.(sign := sign), after))
  {
    hide Resolve, IsNumber;
  }

  lemma MeaningAlign(p: Parts, next: Counter, align: Align, fill: string)
    requires Upto(p, 0) && !align.NoAlign? && IsNumber(p.width) && IsNumber(p.precision) && Meaning(p, next).Ok?
    ensures var (specs, after) := Meaning(p, next).value;
            Meaning(p.(align := align, fill := fill), next) ==
            Ok((specs.(align := align, fill := if fill == "" then specs.fill else fill), after))
  {
    hide Resolve, IsNumber;
  }

  lemma MeaningWidth(p: Parts, next: Counter, n: Number, width: Dynamic, n1: Counter)
    requires Upto(p, 4) && IsNumber(n) && Meaning(p, next).Ok?
    requires Resolve(n, Meaning(p, next).value.0.width, Meaning(p, next).value.1) == Ok((width, n1))
    ensures Meaning(p.(width := n), next) == Ok((Meaning(p, next).value.0.(width := width), n1))
  {
    AbsentResolves(Fixed(0), next);
    AbsentResolves(Fixed(-1), next);
    AbsentResolves(Fixed(-1), n1);
    hide Resolve, IsNumber;
  }

  lemma MeaningPrecision(p: Parts, next: Counter, n: Number, precision: Dynamic, n2: Counter)
    requires Upto(p, 5) && IsNumber(p.width) && IsNumber(n) && Meaning(p, next).Ok?
    requires Resolve(n, Meaning(p, next).value.0.precision, Meaning(p, next).value.1) == Ok((precision, n2))
    ensures Meaning(p.(point := true, precision := n), next) == Ok((Meaning(p, next).value.0.(precision := precision), n2))
  {
    var width := Resolve(p.width, Fixed(0), next);
    if width.Ok? { AbsentResolves(Fixed(-1), width.value.1); }
    hide Resolve, IsNumber;
  }

  /** Each part added is allowed if it suits the argument. */
  lemma AllowedMarksAdd(p: Parts, t: ArgType)
    requires AllowedParts(p, t) && Arithmetic(t)
    ensures AllowedParts(p.(localized := true), t) && AllowedParts(p.(zero := true), t) && AllowedParts(p.(alt := true), t)
  {
    SameClasses(t);
    hide Arithmetic, IsFill, IsNumber, SignedInteger, Floating, HasPrecision, CanBeSigned, IsNumeric;
  }

  lemma AllowedNumbersAdd(p: Parts, t: ArgType, n: Number)
    requires AllowedParts(p, t) && IsNumber(n)
    ensures (n.Literal? ==> n.digits[0] != '0') ==> AllowedParts(p.(width := n), t)
    ensures Floating(t) || t.StringType? || t.CStringType? ==> AllowedParts(p.(point := true, precision := n), t)
  {
    SameClasses(t);
    hide Arithmetic, IsFill, SignedInteger, Floating, FitsInt, IsId, HasPrecision, CanBeSigned, IsNumeric;
    if n.Literal? { FitsNotEmpty(n.digits); }
  }

  lemma AllowedSignAdd(p: Parts, t: ArgType, sign: SignSpec)
    requires AllowedParts(p, t) && (SignedInteger(t) || Floating(t))
    ensures AllowedParts(p.(sign := sign), t)
  {
    SameClasses(t);
    hide Arithmetic, IsFill, IsNumber, SignedInteger, Floating, HasPrecision, CanBeSigned, IsNumeric;
  }

  lemma AllowedAlignAdd(p: Parts, t: ArgType, align: Align, fill: string)
    requires AllowedParts(p, t) && IsFill(fill) && !align.NoAlign? && !align.Numeric?
    ensures AllowedParts(p.(align := align, fill := fill), t)
  {
    hide IsFill, IsNumber, HasPrecision, CanBeSigned, IsNumeric;
  }

  lemma SofarOf(s: string, p: nat, next: Counter, t: ArgType, st: SpecState, parts: Parts)
    requires p <= st.pos <= |s| && s[p..st.pos] == SpecText(parts) && Upto(parts, st.state)
    requires AllowedParts(parts, t) && Meaning(parts, next) == Ok((st.specs, st.next))
    requires Quiet(parts) || (st.pos < |s| && s[st.pos] != '}')
    ensures Sofar(s, p, next, t, st, parts)
  {
  }

  lemma AddWidth(s: string, p: nat, next: Counter, t: ArgType, st: SpecState, parts: Parts,
                 n: Number, width: Dynamic, q: nat, after: Counter)
    requires Sofar(s, p, next, t, st, parts) && st.state < 5
    requires !n.Absent? && IsNumber(n) && (n.Literal? ==> n.digits[0] != '0')
    requires st.pos <= q <= |s| && s[st.pos..q] == NumberText(n)
    requires Resolve(n, st.specs.width, st.next) == Ok((width, after))
    ensures Sofar(s, p, next, t, SpecState(q, st.specs.(width := width), 5, after), parts.(width := n))
  {
    hide Sofar, SpecText, Meaning, AllowedParts, Upto, Quiet, NumberText, IsNumber, Resolve, IsFill, Arithmetic, Floating,
      SignedInteger, SignMark, AlignText;
    SofarFacts(s, p, next, t, st, parts);
    WidthText(parts, n);
    MeaningWidth(parts, next, n, width, after);
    AllowedNumbersAdd(parts, t, n);
    Extended(s, p, st.pos, q, SpecText(parts), NumberText(n));
    SofarOf(s, p, next, t, SpecState(q, st.specs.(width := width), 5, after), parts.(width := n));
  }

  lemma AddPrecision(s: string, p: nat, next: Counter, t: ArgType, st: SpecState, parts: Parts,
                     n: Number, precision: Dynamic, q: nat, after: Counter)
    requires Sofar(s, p, next, t, st, parts) && st.state < 6 && IsNumber(n)
    requires Floating(t) || t.StringType? || t.CStringType?
    requires st.pos < q <= |s| && s[st.pos] == '.' && s[st.pos + 1..q] == NumberText(n)
    requires n.Absent? ==> q < |s| && s[q] != '}'
    requires Resolve(n, st.specs.precision, st.next) == Ok((precision, after))
    ensures Sofar(s, p, next, t, SpecState(q, st.specs.(precision := precision), 6, after),
                  parts.(point := true, precision := n))
  {
    hide Sofar, SpecText, Meaning, AllowedParts, Upto, Quiet, NumberText, IsNumber, Resolve, IsFill, Arithmetic, Floating,
      SignedInteger, SignMark, AlignText;
    SofarFacts(s, p, next, t, st, parts);
    PrecisionAdds(parts, n);
    MeaningPrecision(parts, next, n, precision, after);
    AllowedNumbersAdd(parts, t, n);
    Prepended(s, st.pos, q);
    Extended(s, p, st.pos, q, SpecText(parts), "." + NumberText(n));
    SofarOf(s, p, next, t, SpecState(q, st.specs.(precision := precision), 6, after),
            parts.(point := true, precision := n));
  }

  lemma AddLocale(s: string, p: nat, next: Counter, t: ArgType, st: SpecState, parts: Parts)
    requires Sofar(s, p, next, t, st, parts) && st.state < 7 && Arithmetic(t) && st.pos < |s| && s[st.pos] == 'L'
    ensures Sofar(s, p, next, t, SpecState(st.pos + 1, st.specs.(localized := true), 7, st.next),
                  parts.(localized := true))
  {
    hide Sofar, SpecText, Meaning, AllowedParts, Upto, Quiet, NumberText, IsNumber, Resolve, IsFill, Arithmetic, Floating,
      SignedInteger, SignMark, AlignText;
    SofarFacts(s, p, next, t, st, parts);
    LocaleText(parts);
    MeaningMarks(parts, next);
    AllowedMarksAdd(parts, t);
    OneCharacter(s, st.pos);
    Extended(s, p, st.pos, st.pos + 1, SpecText(parts), "L");
    SofarOf(s, p, next, t, SpecState(st.pos + 1, st.specs.(localized := true), 7, st.next), parts.(localized := true));
  }

  lemma AddZero(s: string, p: nat, next: Counter, t: ArgType, st: SpecState, parts: Parts)
    requires Sofar(s, p, next, t, st, parts) && st.state < 4 && Arithmetic(t) && st.pos < |s| && s[st.pos] == '0'
    ensures var specs := if st.specs.align.NoAlign? then st.specs.(align := Numeric, fill := "0") else st.specs;
            Sofar(s, p, next, t, SpecState(st.pos + 1, specs, 4, st.next), parts.(zero := true))
  {
    hide Sofar, SpecText, Meaning, AllowedParts, Upto, Quiet, NumberText, IsNumber, Resolve, IsFill, Arithmetic, Floating,
      SignedInteger, SignMark, AlignText;
    SofarFacts(s, p, next, t, st, parts);
    ZeroText(parts);
    MeaningMarks(parts, next);
    AllowedMarksAdd(parts, t);
    OneCharacter(s, st.pos);
    Extended(s, p, st.pos, st.pos + 1, SpecText(parts), "0");
    var specs := if st.specs.align.NoAlign? then st.specs.(align := Numeric, fill := "0") else st.specs;
    SofarOf(s, p, next, t, SpecState(st.pos + 1, specs, 4, st.next), parts.(zero := true));
  }

  lemma AddHash(s: string, p: nat, next: Counter, t: ArgType, st: SpecState, parts: Parts)
    requires Sofar(s, p, next, t, st, parts) && st.state < 3 && Arithmetic(t) && st.pos < |s| && s[st.pos] == '#'
    ensures Sofar(s, p, next, t, SpecState(st.pos + 1, st.specs.(alt := true), 3, st.next), parts.(alt := true))
  {
    hide Sofar, SpecText, Meaning, AllowedParts, Upto, Quiet, NumberText, IsNumber, Resolve, IsFill, Arithmetic, Floating,
      SignedInteger, SignMark, AlignText;
    SofarFacts(s, p, next, t, st, parts);
    HashText(parts);
    MeaningMarks(parts, next);
    AllowedMarksAdd(parts, t);
    OneCharacter(s, st.pos);
    Extended(s, p, st.pos, st.pos + 1, SpecText(parts), "#");
    SofarOf(s, p, next, t, SpecState(st.pos + 1, st.specs.(alt := true), 3, st.next), parts.(alt := true));
  }

  lemma AddSign(s: string, p: nat, next: Counter, t: ArgType, st: SpecState, parts: Parts, sign: SignSpec)
    requires Sofar(s, p, next, t, st, parts) && st.state < 2 && (SignedInteger(t) || Floating(t))
    requires !sign.NoSign? && st.pos < |s| && SignMark(sign) == [s[st.pos]]
    ensures Sofar(s, p, next, t, SpecState(st.pos + 1, st.specs.(sign := sign), 2, st.next), parts.(sign := sign))
  {
    hide Sofar, SpecText, Meaning, AllowedParts, Upto, Quiet, NumberText, IsNumber, Resolve, IsFill, Arithmetic, Floating,
      SignedInteger, SignMark, AlignText;
    SofarFacts(s, p, next, t, st, parts);
    SignText(parts, sign);
    MeaningSign(parts, next, sign);
    AllowedSignAdd(parts, t, sign);
    OneCharacter(s, st.pos);
    Extended(s, p, st.pos, st.pos + 1, SpecText(parts), SignMark(sign));
    SofarOf(s, p, next, t, SpecState(st.pos + 1, st.specs.(sign := sign), 2, st.next), parts.(sign := sign));
  }

  lemma MarkOfAlign(p: Parts, c: char)
    requires !ParseAlign(c).NoAlign? && p.align == ParseAlign(c)
    ensures AlignText(p) == p.fill + [c]
  {
  }

  lemma AddAlign(s: string, p: nat, next: Counter, t: ArgType, st: SpecState, parts: Parts, end: nat, fill: string)
    requires Sofar(s, p, next, t, st, parts) && st.state < 1 && st.pos <= end < |s|
    requires !ParseAlign(s[end]).NoAlign? && s[st.pos..end] == fill && IsFill(fill)
    ensures var specs := st.specs.(align := ParseAlign(s[end]), fill := if fill == "" then st.specs.fill else fill);
            Sofar(s, p, next, t, SpecState(end + 1, specs, 1, st.next),
                  parts.(align := ParseAlign(s[end]), fill := fill))
  {
    hide Sofar, SpecText, Meaning, AllowedParts, Upto, Quiet, NumberText, IsNumber, Resolve, IsFill, Arithmetic, Floating,
      SignedInteger, SignMark, AlignText;
    SofarFacts(s, p, next, t, st, parts);
    var align := ParseAlign(s[end]);
    var parts' := parts.(align := align, fill := fill);
    AlignAdds(parts, align, fill);
    MeaningAlign(parts, next, align, fill);
    AllowedAlignAdd(parts, t, align, fill);
    MarkOfAlign(parts', s[end]);
    Appended(s, st.pos, end);
    Extended(s, p, st.pos, end + 1, SpecText(parts), AlignText(parts'));
    var specs := st.specs.(align := align, fill := if fill == "" then st.specs.fill else fill);
    SofarOf(s, p, next, t, SpecState(end + 1, specs, 1, st.next), parts');
  }

  /** The character that a pass goes by: the next one, or '\0' if an alignment is behind it. */
  predicate Looked(s: string, pos: nat, c: char) {
    pos < |s| && (c == s[pos] || (c == '\0' && pos + 1 < |s| && !ParseAlign(s[pos + 1]).NoAlign?))
  }

  /** A pass over a part without a number adds that part. */
  lemma PlainReads(s: string, p: nat, next: Counter, t: ArgType, st: SpecState, parts: Parts, c: char) returns (more: Parts)
    requires Sofar(s, p, next, t, st, parts) && Looked(s, st.pos, c)
    requires var r := PlainPart(s, c, st.pos, st.specs, st.state, t); r.Ok? && !r.value.last
    ensures var part := PlainPart(s, c, st.pos, st.specs, st.state, t).value;
            Sofar(s, p, next, t, SpecState(part.pos, part.specs, part.state, st.next), more)
  {
    hide Sofar, IsPresentation, PresentationAllowed, Arithmetic, SignedInteger, Floating;
    var pos := st.pos;
    if !ParseAlign(c).NoAlign? {
      AddAlign(s, p, next, t, st, parts, pos, "");
      more := parts.(align := ParseAlign(c), fill := "");
    } else if c == '+' || c == '-' || c == ' ' {
      var sign := if c == '+' then Plus else if c == '-' then Minus else Space;
      AddSign(s, p, next, t, st, parts, sign);
      more := parts.(sign := sign);
    } else if c == '#' {
      AddHash(s, p, next, t, st, parts);
      more := parts.(alt := true);
    } else if c == '0' {
      AddZero(s, p, next, t, st, parts);
      more := parts.(zero := true);
    } else if c == 'L' {
      AddLocale(s, p, next, t, st, parts);
      more := parts.(localized := true);
    } else {
      var end := pos + CodePointLength(s[pos]);
      var fill := s[pos..end];
      assert fill != "" && fill[0] == s[pos];
      SameCharacters(s[pos]);
      AddAlign(s, p, next, t, st, parts, end, fill);
      more := parts.(align := ParseAlign(s[end]), fill := fill);
    }
  }

  /** A pass that goes on adds one part. */
  lemma StepReads(s: string, p: nat, next: Counter, t: ArgType, st: SpecState, parts: Parts, c: char) returns (more: Parts)
    requires Sofar(s, p, next, t, st, parts) && Looked(s, st.pos, c)
    requires var r := SpecStep(s, c, st, t); r.Ok? && r.value.More?
    ensures Sofar(s, p, next, t, SpecStep(s, c, st, t).value.st, more)
  {
    hide Sofar, DynamicSpec, PlainPart, Resolve, IsNumber, Floating;
    var pos, after := st.pos, SpecStep(s, c, st, t).value.st;
    if '1' <= c <= '9' || c == '{' {
      var n := DynamicReads(s, pos, st.specs.width, st.next, after.specs.width, after.pos, after.next);
      AddWidth(s, p, next, t, st, parts, n, after.specs.width, after.pos, after.next);
      more := parts.(width := n);
    } else if c == '.' {
      var n := PointReads(s, pos + 1, st.specs.precision, st.next, after.specs.precision, after.pos, after.next);
      AddPrecision(s, p, next, t, st, parts, n, after.specs.precision, after.pos, after.next);
      more := parts.(point := true, precision := n);
    } else {
      more := PlainReads(s, p, next, t, st, parts, c);
    }
  }

  /** Behind a point stands a number, or nothing. */
  lemma PointReads(s: string, p: nat, current: Dynamic, next: Counter, d: Dynamic, q: nat, after: Counter)
    returns (n: Number)
    requires p < |s| && s[p] != '}' && DynamicSpec(s, p, current, next) == Ok((d, q, after))
    ensures p <= q <= |s| && IsNumber(n) && s[p..q] == NumberText(n)
    ensures Resolve(n, current, next) == Ok((d, after)) && (n.Absent? ==> q == p)
  {
    if IsDigit(s[p]) || s[p] == '{' {
      n := DynamicReads(s, p, current, next, d, q, after);
    } else {
      NothingToRead(s, p, current, next);
      n := Absent;
    }
  }

  /** The text from p to the closing brace at pos is that of these parts, with this meaning. */
  ghost predicate Sentence(s: string, p: nat, pos: nat, next: Counter, t: ArgType, specs: Specs, after: Counter,
                           parts: Parts)
  {
    && Allowed(parts, t) && StandsAt(s, p, SpecText(parts)) && pos == p + |SpecText(parts)|
    && Meaning(parts, next) == Ok((specs, after))
  }

  lemma StandsThere(s: string, p: nat, q: nat, text: string)
    requires p <= q < |s| && s[p..q] == text && s[q] == '}'
    ensures StandsAt(s, p, text) && q == p + |text|
  {
  }

  lemma WholeWithoutType(s: string, p: nat, next: Counter, t: ArgType, st: SpecState, parts: Parts)
    requires Sofar(s, p, next, t, st, parts) && st.pos < |s| && s[st.pos] == '}'
    ensures Sentence(s, p, st.pos, next, t, st.specs, st.next, parts)
  {
    hide SpecText, Meaning, AllowedParts;
  }

  lemma MeaningType(p: Parts, next: Counter, c: char)
    requires IsNumber(p.width) && IsNumber(p.precision) && Meaning(p, next).Ok?
    ensures var (specs, after) := Meaning(p, next).value;
            Meaning(p.(presentation := [c]), next) == Ok((specs.(presentation := [c]), after))
  {
    hide Resolve, IsNumber;
  }

  lemma WholeWithType(s: string, p: nat, next: Counter, t: ArgType, st: SpecState, parts: Parts)
    requires Sofar(s, p, next, t, st, parts) && st.pos + 1 < |s| && s[st.pos + 1] == '}'
    requires IsPresentation(s[st.pos]) && PresentationAllowed(s[st.pos], t)
    ensures Sentence(s, p, st.pos + 1, next, t, st.specs.(presentation := [s[st.pos]]), st.next,
                     parts.(presentation := [s[st.pos]]))
  {
    hide Sofar, SpecText, Meaning, Allowed, AllowedParts, Upto, IsNumber, IsPresentation, PresentationAllowed, StandsAt;
    var c := s[st.pos];
    var all := parts.(presentation := [c]);
    SofarFacts(s, p, next, t, st, parts);
    TypeText(parts, c);
    MeaningType(parts, next, c);
    OneCharacter(s, st.pos);
    AllowedTyped(parts, t, c);
    Extended(s, p, st.pos, st.pos + 1, SpecText(parts), [c]);
    StandsThere(s, p, st.pos + 1, SpecText(all));
  }

  lemma AllowedTyped(p: Parts, t: ArgType, c: char)
    requires AllowedParts(p, t) && IsPresentation(c) && PresentationAllowed(c, t)
    ensures Allowed(p.(presentation := [c]), t)
  {
    assert [c] != "";
    SameLetters(c, t);
    hide IsFill, IsNumber, HasPrecision, CanBeSigned, IsNumeric, TypeLetters, IsPresentation, PresentationAllowed;
  }

  /** A pass that ends before a closing brace leaves a whole sentence. */
  lemma EndReads(s: string, p: nat, next: Counter, t: ArgType, st: SpecState, parts: Parts, c: char) returns (all: Parts)
    requires Sofar(s, p, next, t, st, parts) && Looked(s, st.pos, c)
    requires var r := SpecStep(s, c, st, t); r.Ok? && r.value.Done? && r.value.st.pos < |s| && s[r.value.st.pos] == '}'
    ensures var end := SpecStep(s, c, st, t).value.st; Sentence(s, p, end.pos, next, t, end.specs, end.next, all)
  {
    hide Sofar, DynamicSpec, PresentationAllowed, IsPresentation, Arithmetic, SignedInteger, Floating;
    if SpecStep(s, c, st, t).value.st.pos == st.pos {
      all := parts;
      WholeWithoutType(s, p, next, t, st, parts);
    } else {
      PresentationLetters(c);
      all := parts.(presentation := [c]);
      WholeWithType(s, p, next, t, st, parts);
    }
  }

  lemma {:induction false} LoopReads(s: string, p: nat, next: Counter, t: ArgType, st: SpecState, parts: Parts, c: char)
    returns (all: Parts)
    requires Sofar(s, p, next, t, st, parts) && Looked(s, st.pos, c)
    requires var r := SpecLoop(s, c, st, t); r.Ok? && r.value.pos < |s| && s[r.value.pos] == '}'
    ensures var end := SpecLoop(s, c, st, t).value; Sentence(s, p, end.pos, next, t, end.specs, end.next, all)
    decreases 8 - (if st.state <= 7 then st.state else 8)
  {
    hide Sofar, SpecStep, SpecLoop, Sentence;
    SpecLoopUnfolds(s, c, st, t);
    var step := SpecStep(s, c, st, t).value;
    if step.Done? {
      all := EndReads(s, p, next, t, st, parts, c);
    } else {
      var more := StepReads(s, p, next, t, st, parts, c);
      all := LoopReads(s, p, next, t, step.st, more, s[step.st.pos]);
    }
  }

  const NO_PARTS := Parts("", NoAlign, NoSign, false, false, Absent, false, Absent, false, "")

  lemma NothingYet(s: string, p: nat, next: Counter, t: ArgType)
    requires p <= |s|
    ensures Sofar(s, p, next, t, SpecState(p, DEFAULT_SPECS, 0, next), NO_PARTS)
  {
    TextUpto(NO_PARTS);
    hide SpecText, Arithmetic, SignedInteger, Floating;
    AbsentResolves(Fixed(0), next);
    AbsentResolves(Fixed(-1), next);
  }

  /** The parser reads nothing else: what it reads up to a closing brace is a sentence, with its meaning. */
  lemma ReadsOnlySentences(s: string, p: nat, next: Counter, t: ArgType) returns (parts: Parts)
    requires p <= |s|
    requires var r := ReadSpecs(s, p, next, t); r.Ok? && r.value.pos < |s| && s[r.value.pos] == '}'
    ensures var end := ReadSpecs(s, p, next, t).value; Sentence(s, p, end.pos, next, t, end.specs, end.next, parts)
  {
    hide Sofar, SpecLoop, Sentence;
    NothingYet(s, p, next, t);
    var start := SpecState(p, DEFAULT_SPECS, 0, next);
    var c := if p + 1 < |s| && !ParseAlign(s[p + 1]).NoAlign? then '\0' else s[p];
    parts := LoopReads(s, p, next, t, start, NO_PARTS, c);
  }

  lemma MeaningInParts(p: Parts, next: Counter)
    requires IsNumber(p.width) && IsNumber(p.precision) && (p.align.NoAlign? ==> p.fill == "")
    ensures Meaning(p, next) == SignMeaning(p, WithAlign(p, DEFAULT_SPECS), next)
  {
    hide Resolve, IsNumber;
  }

  /**
    The parser reads every sentence of the grammar: where a specifier that suits the type of the
    argument stands before a closing brace, it is read up to that brace with exactly its meaning,
    whatever follows; and it fails with just the error of an argument id that mixes manual with
    automatic indexing.
  */
  lemma ReadsEverySpecifier(s: string, p: nat, parts: Parts, next: Counter, t: ArgType)
    requires Allowed(parts, t) && StandsAt(s, p, SpecText(parts))
    ensures Gives(ReadSpecs(s, p, next, t), p + |SpecText(parts)|, Meaning(parts, next))
  {
    AllowedMarks(parts, t);
    AllowedNumbers(parts, t);
    MeaningInParts(parts, next);
    hide Allowed, FromSign, ReadSpecs, Meaning, SignMeaning, StandsAt, Gives, IsNumber;
    if parts.align.NoAlign? {
      assert AlignText(parts) + FromSign(parts) == FromSign(parts);
      ReadsUnaligned(s, p, parts, next, t);
    } else {
      ReadsAligned(s, p, parts, next, t);
    }
  }

  /** With which error a specifier is refused whose first part does not suit the argument. */
  lemma RefusesUnsuited(s: string, p: nat, next: Counter, t: ArgType)
    requires p + 1 < |s| && s[p + 1] !in {'<', '>', '^'}
    ensures s[p] in {'+', '-', ' '} && !CanBeSigned(t) ==> ReadSpecs(s, p, next, t) == Err("invalid format specifier")
    ensures s[p] in {'#', 'L'} && !IsNumeric(t) ==> ReadSpecs(s, p, next, t) == Err("invalid format specifier")
    ensures s[p] == '0' && !IsNumeric(t) ==>
              ReadSpecs(s, p, next, t) == Err("format specifier requires numeric argument")
    ensures s[p] == '.' && !HasPrecision(t) ==> ReadSpecs(s, p, next, t) == Err("invalid format specifier")
    ensures s[p] == '.' && HasPrecision(t) && s[p + 1] == '}' ==> ReadSpecs(s, p, next, t) == Err("invalid precision")
    ensures s[p] in {'d', 'o', 'x', 'X', 'b', 'B', 'c', 'a', 'A', 'e', 'E', 'f', 'F', 'g', 'G', 's', 'p', '?'}
            ==> s[p] in TypeLetters(t) || ReadSpecs(s, p, next, t) == Err("invalid format specifier")
  {
    hide SpecStep, SpecLoop, IsPresentation, PresentationAllowed, TypeLetters, Arithmetic, SignedInteger, Floating,
      CanBeSigned, IsNumeric, HasPrecision, PlainPart;
    var start := SpecState(p, DEFAULT_SPECS, 0, next);
    assert ParseAlign(s[p + 1]).NoAlign?;
    assert ReadSpecs(s, p, next, t) == SpecLoop(s, s[p], start, t);
    hide ParseAlign, ReadSpecs;
    SpecLoopUnfolds(s, s[p], start, t);
    SameClasses(t);
    SameLetters(s[p], t);
    AllLetters(s[p]);
    PointRefused(s, start, t);
    PlainPartRefuses(s, p, DEFAULT_SPECS, t);
    if s[p] != '.' && s[p] != '{' && !('1' <= s[p] <= '9') { OtherRefused(s, s[p], start, t); }
  }

  lemma PointRefused(s: string, st: SpecState, t: ArgType)
    requires st.pos + 1 < |s| && st.state == 0
    ensures var admitted := Floating(t) || t.StringType? || t.CStringType?;
            && (!admitted ==> SpecStep(s, '.', st, t) == Err("invalid format specifier"))
            && (admitted && s[st.pos + 1] == '}' ==> SpecStep(s, '.', st, t) == Err("invalid precision"))
  {
    hide DynamicSpec, PlainPart;
  }

  lemma OtherRefused(s: string, c: char, st: SpecState, t: ArgType)
    requires st.pos < |s| && !('1' <= c <= '9') && c != '{' && c != '.'
    ensures var part := PlainPart(s, c, st.pos, st.specs, st.state, t);
            part.Err? ==> SpecStep(s, c, st, t) == Err(part.message)
  {
    hide DynamicSpec, PlainPart;
  }

  lemma PlainPartRefuses(s: string, pos: nat, specs: Specs, t: ArgType)
    requires pos < |s|
    ensures var c, part := s[pos], PlainPart(s, s[pos], pos, specs, 0, t);
            && (c in {'+', '-', ' '} && !SignedInteger(t) && !Floating(t) ==> part == Err("invalid format specifier"))
            && (c in {'#', 'L'} && !Arithmetic(t) ==> part == Err("invalid format specifier"))
            && (c == '0' && !Arithmetic(t) ==> part == Err("format specifier requires numeric argument"))
            && (IsPresentation(c) && !PresentationAllowed(c, t) ==> part == Err("invalid format specifier"))
  {
    PresentationLetters(s[pos]);
    hide IsPresentation, PresentationAllowed, Arithmetic, SignedInteger, Floating, CodePointLength;
  }

  /** An opening brace cannot fill. */
  lemma RefusesBrace(s: string, p: nat, next: Counter, t: ArgType)
    requires p + 1 < |s| && s[p] == '{' && s[p + 1] in {'<', '>', '^'}
    ensures ReadSpecs(s, p, next, t) == Err("invalid fill character '{'")
  {
    var start := SpecState(p, DEFAULT_SPECS, 0, next);
    SpecLoopUnfolds(s, '\0', start, t);
    BraceDoesNotFill(s, start, t);
    hide SpecStep, SpecLoop;
  }

  /** A width that no int holds is refused. */
  lemma RefusesBigWidth(s: string, p: nat, d: string, next: Counter, t: ArgType)
    requires d != "" && AllDigits(d) && d[0] != '0' && !FitsInt(d)
    requires p + |d| < |s| && s[p..p + |d|] == d && !IsDigit(s[p + |d|]) && s[p + 1] !in {'<', '>', '^'}
    ensures ReadSpecs(s, p, next, t) == Err("number is too big")
  {
    assert IsDigit(d[0]);
    hide DynamicSpec, SpecLoop, SpecStep, FitsInt, RunNumber, RunEnd;
    ReadsDigits(s, p, d);
    var start := SpecState(p, DEFAULT_SPECS, 0, next);
    SpecLoopUnfolds(s, s[p], start, t);
    TooBig(s, p, start.specs.width, next);
    StepWidth(s, start, t);
  }

  lemma BraceDoesNotFill(s: string, st: SpecState, t: ArgType)
    requires st.pos + 1 < |s| && st.state == 0 && s[st.pos] == '{'
    ensures SpecStep(s, '\0', st, t) == Err("invalid fill character '{'")
  {
    PresentationLetters('\0');
    hide DynamicSpec, IsPresentation, PresentationAllowed;
  }

  lemma TooBig(s: string, p: nat, current: Dynamic, next: Counter)
    requires p < |s| && IsDigit(s[p]) && RunNumber(s, p).Err?
    ensures DynamicSpec(s, p, current, next) == Err("number is too big")
  {
    hide RunNumber, RunEnd;
  }

  /**
    The parser reads exactly the grammar: a specifier that ends before the closing brace at pos is
    read with a meaning if and only if the text up to there is a sentence with that meaning.
  */
  lemma ReadsExactlyTheGrammar(s: string, p: nat, pos: nat, next: Counter, t: ArgType, specs: Specs, after: Counter)
    requires p <= |s| && pos < |s| && s[pos] == '}'
    ensures Yields(ReadSpecs(s, p, next, t), pos, specs, after) <==>
            exists parts :: Sentence(s, p, pos, next, t, specs, after, parts)
  {
    hide ReadSpecs, Allowed, Meaning, SpecText, StandsAt;
    if Yields(ReadSpecs(s, p, next, t), pos, specs, after) {
      var parts := ReadsOnlySentences(s, p, next, t);
    }
    if parts :| Sentence(s, p, pos, next, t, specs, after, parts) {
      SentenceIsRead(s, p, pos, next, t, specs, after, parts);
    }
  }

  lemma SentenceIsRead(s: string, p: nat, pos: nat, next: Counter, t: ArgType, specs: Specs, after: Counter, parts: Parts)
    requires Sentence(s, p, pos, next, t, specs, after, parts)
    ensures p <= |s| && Yields(ReadSpecs(s, p, next, t), pos, specs, after)
  {
    StandsInside(s, p, SpecText(parts));
    hide ReadSpecs, Allowed, Meaning, SpecText, StandsAt;
    ReadsEverySpecifier(s, p, parts, next, t);
  }

  /**
    parse_format_specs: what it reads up to a closing brace is a sentence of the grammar, with its
    meaning, and every sentence there is read so.
  */
  method ParseFormatSpecs(s: string, begin: nat, next: Counter, t: ArgType) returns (result: Result<SpecState>)
    requires begin <= |s|
    ensures result == ReadSpecs(s, begin, next, t)
    ensures result.Ok? && result.value.pos < |s| && s[result.value.pos] == '}' ==>
              exists parts :: Sentence(s, begin, result.value.pos, next, t, result.value.specs, result.value.next, parts)
    ensures forall pos: nat, parts: Parts, specs: Specs, after: Counter ::
              Sentence(s, begin, pos, next, t, specs, after, parts) ==> Yields(result, pos, specs, after)
    ensures forall parts: Parts :: Allowed(parts, t) && StandsAt(s, begin, SpecText(parts)) ==>
              Gives(result, begin + |SpecText(parts)|, Meaning(parts, next))
  {
    result := RunLoop(s, begin, next, t);
    hide ReadSpecs, Allowed, Meaning, SpecText, StandsAt, Sentence;
    if result.Ok? && result.value.pos < |s| && s[result.value.pos] == '}' {
      ghost var parts := ReadsOnlySentences(s, begin, next, t);
    }
    forall pos: nat, parts: Parts, specs: Specs, after: Counter | Sentence(s, begin, pos, next, t, specs, after, parts)
      ensures Yields(result, pos, specs, after)
    {
      SentenceIsRead(s, begin, pos, next, t, specs, after, parts);
    }
    forall parts: Parts | Allowed(parts, t) && StandsAt(s, begin, SpecText(parts))
      ensures Gives(result, begin + |SpecText(parts)|, Meaning(parts, next))
    {
      ReadsEverySpecifier(s, begin, parts, next, t);
    }
  }

  /** The loop as it is written, one character or part at a time. */
  method RunLoop(s: string, begin: nat, next: Counter, t: ArgType) returns (result: Result<SpecState>)
    requires begin <= |s|
    ensures result == ReadSpecs(s, begin, next, t)
  {
    hide SpecStep, SpecLoop;
    var st := SpecState(begin, DEFAULT_SPECS, 0, next);
    if begin == |s| { return Ok(st); }
    var c := s[begin];
    if begin + 1 < |s| && !ParseAlign(s[begin + 1]).NoAlign? {
      c := '\0';
    }
    ghost var first := c;
    while true
      invariant st.pos < |s|
      invariant SpecLoop(s, c, st, t) == SpecLoop(s, first, SpecState(begin, DEFAULT_SPECS, 0, next), t)
      decreases 8 - (if st.state <= 7 then st.state else 8)
    {
      var step := SpecStep(s, c, st, t);
      SpecLoopUnfolds(s, c, st, t);
      if step.Err? { return Err(step.message); }
      st := step.value.st;
      if step.value.Done? || st.pos == |s| { return Ok(st); }
      c := s[st.pos];
    }
  }
}
