/** do_write_float: a decimal significand and exponent laid out as text, without digit grouping. */
module WriteFloat {
  import opened Powers
  import opened Digits
  import opened FormatSpecs
  import opened Decimals

  // ---------------------------------------------------------------- reading a decimal literal

  datatype Option<+T> = Some(value: T) | None

  /** The number mantissa * 10^scale, with its sign. */
  datatype Literal = Literal(negative: bool, mantissa: nat, scale: int)

  function Unsigned(text: string): string {
    if text != "" && text[0] in "+- " then text[1..] else text
  }

  /** What follows the digits: nothing, or an exponent. */
  function ReadExponent(text: string): Option<int> {
    if text == "" then Some(0)
    else if |text| >= 3 && text[0] in "eE" && text[1] in "+-" && AllDigits(text[2..]) then
      var value: int := Decimal(text[2..]);
      Some(if text[1] == '-' then -value else value)
    else None
  }

  /** Where the digits before the point end, and those behind it. */
  function WholeEnd(s: string): (w: nat)
    ensures w <= |s| && AllDigits(s[0..w])
  {
    RunEnd(s, 0)
  }

  function FractionEnd(s: string): (f: nat)
    ensures WholeEnd(s) <= f <= |s| && (f > WholeEnd(s) ==> AllDigits(s[WholeEnd(s) + 1..f]))
  {
    var w := WholeEnd(s);
    if w < |s| && s[w] == '.' then RunEnd(s, w + 1) else w
  }

  function Fraction(s: string): (fraction: string)
    ensures AllDigits(fraction)
  {
    var w, f := WholeEnd(s), FractionEnd(s);
    if f > w then s[w + 1..f] else ""
  }

  /** A decimal literal: an optional sign, digits, perhaps a point and more digits, perhaps an exponent. */
  function ReadLiteral(text: string): Option<Literal> {
    var s := Unsigned(text);
    var whole, fraction, exponent := s[0..WholeEnd(s)], Fraction(s), ReadExponent(s[FractionEnd(s)..]);
    if whole == "" || exponent.None? then None
    else
      assert AllDigits(whole + fraction);
      Some(Literal(text[0] == '-', Decimal(whole + fraction), exponent.value - |fraction|))
  }

  /** m * 10^e == n * 10^f */
  ghost predicate SameNumber(m: nat, e: int, n: nat, f: int) {
    if e <= f then m == n * Pow(10, f - e) else n == m * Pow(10, e - f)
  }

  predicate IsSign(sign: string) {
    sign == "" || sign == "-" || sign == "+" || sign == " "
  }

  /** What a point and a fraction look like. */
  function Pointed(point: bool, fraction: string): string {
    if point then "." + fraction else ""
  }

  function Unit(whole: string, point: bool, fraction: string, rest: string): string {
    whole + Pointed(point, fraction) + rest
  }

  lemma RestStarts(rest: string)
    requires ReadExponent(rest).Some?
    ensures Stops(rest) && (rest != "" ==> rest[0] != '.')
  {
  }

  lemma WholeEnds(whole: string, point: bool, fraction: string, rest: string)
    requires AllDigits(whole) && ReadExponent(rest).Some? && (!point ==> fraction == "")
    ensures var s := Unit(whole, point, fraction, rest);
            && WholeEnd(s) == |whole| <= |s| && s[0..|whole|] == whole
            && s[|whole|..] == Pointed(point, fraction) + rest
            && (whole != "" ==> s != "" && IsDigit(s[0]))
  {
    RestStarts(rest);
    assert whole != "" ==> IsDigit(whole[0]);
    hide RunEnd, ReadExponent, AllDigits;
    var s, w := Unit(whole, point, fraction, rest), |whole|;
    assert s[0..w] == whole;
    assert s[w..] == Pointed(point, fraction) + rest;
    RunEndOf(s, 0, w);
  }

  lemma PartsEnd(whole: string, point: bool, fraction: string, rest: string)
    requires AllDigits(whole) && AllDigits(fraction) && (!point ==> fraction == "") && ReadExponent(rest).Some?
    ensures var s := Unit(whole, point, fraction, rest);
            && WholeEnd(s) == |whole| <= |s| && s[0..|whole|] == whole
            && FractionEnd(s) <= |s| && s[FractionEnd(s)..] == rest && Fraction(s) == fraction
            && (whole != "" ==> s != "" && IsDigit(s[0]))
  {
    WholeEnds(whole, point, fraction, rest);
    RestStarts(rest);
    hide RunEnd, ReadExponent, AllDigits, Unit, WholeEnd, Fraction, FractionEnd;
    var s := Unit(whole, point, fraction, rest);
    if point {
      FractionEnds(s, fraction, rest);
    } else {
      assert Pointed(point, fraction) + rest == rest;
      NoFraction(s, rest);
    }
  }

  lemma FractionEnds(s: string, fraction: string, rest: string)
    requires s[WholeEnd(s)..] == "." + fraction + rest && AllDigits(fraction) && Stops(rest)
    ensures s[FractionEnd(s)..] == rest && Fraction(s) == fraction
  {
    hide RunEnd, AllDigits;
    var w := WholeEnd(s);
    var f := w + 1 + |fraction|;
    var t := s[w..];
    assert t[1..|fraction| + 1] == fraction && t[|fraction| + 1..] == rest;
    assert s[w] == t[0] && s[w..w + |t|] == t;
    SliceOfSlice(s, w, |t|, 1, |fraction| + 1);
    SliceOfSlice(s, w, |t|, |fraction| + 1, |t|);
    assert t[|fraction| + 1..|t|] == rest && s[f..|s|] == s[f..];
    RunEndOf(s, w + 1, f);
  }

  lemma NoFraction(s: string, rest: string)
    requires s[WholeEnd(s)..] == rest && (rest != "" ==> rest[0] != '.')
    ensures s[FractionEnd(s)..] == rest && Fraction(s) == ""
  {
    assert WholeEnd(s) < |s| ==> s[WholeEnd(s)] == rest[0];
  }

  lemma SignRemoved(sign: string, s: string)
    requires IsSign(sign) && s != "" && IsDigit(s[0])
    ensures Unsigned(sign + s) == s && ((sign + s)[0] == '-' <==> sign == "-")
  {
    if sign != "" {
      assert (sign + s)[1..] == s;
    } else {
      assert sign + s == s;
    }
  }

  /** A text put together from its parts is read as those parts. */
  lemma ReadsBack(sign: string, whole: string, point: bool, fraction: string, rest: string)
    requires IsSign(sign) && whole != "" && AllDigits(whole) && AllDigits(fraction) && (!point ==> fraction == "")
    requires ReadExponent(rest).Some?
    ensures ReadLiteral(sign + Unit(whole, point, fraction, rest))
         == Some(Literal(sign == "-", Decimal(whole + fraction), ReadExponent(rest).value - |fraction|))
  {
    hide WholeEnd, FractionEnd, Fraction, ReadExponent, RunEnd, Unit, Unsigned, IsSign, Decimal;
    var s := Unit(whole, point, fraction, rest);
    PartsEnd(whole, point, fraction, rest);
    SignRemoved(sign, s);
  }

  // ---------------------------------------------------------------- zeros

  /** fill_n with zeros */
  function Zeros(n: nat): (s: string)
    ensures |s| == n && AllDigits(s)
  {
    if n == 0 then "" else Zeros(n - 1) + "0"
  }

  lemma {:induction false} ZerosAreZero(n: nat)
    ensures Decimal(Zeros(n)) == 0
  {
    if n > 0 {
      ZerosAreZero(n - 1);
      assert Zeros(n)[..n - 1] == Zeros(n - 1);
    }
  }

  lemma TrailingZeros(s: string, n: nat)
    requires AllDigits(s)
    ensures AllDigits(s + Zeros(n)) && Decimal(s + Zeros(n)) == Decimal(s) * Pow(10, n)
  {
    DecimalConcat(s, Zeros(n));
    ZerosAreZero(n);
  }

  lemma LeadingZeros(s: string, n: nat)
    requires AllDigits(s)
    ensures AllDigits(Zeros(n) + s) && Decimal(Zeros(n) + s) == Decimal(s)
  {
    DecimalConcat(Zeros(n), s);
    ZerosAreZero(n);
  }

  // ---------------------------------------------------------------- the exponent

  /** A sign and at least two digits that denote exp. */
  ghost predicate IsExponent(text: string, exp: int) {
    && |text| >= 3 && text[0] == (if exp < 0 then '-' else '+') && AllDigits(text[1..])
    && Decimal(text[1..]) == (if exp < 0 then -exp else exp)
  }

  /** exp_digits of do_write_float. */
  function ExponentDigits(exp: int): nat {
    var magnitude := if exp < 0 then -exp else exp;
    if magnitude >= 1000 then 4 else if magnitude >= 100 then 3 else 2
  }

  /** write_exponent */
  method WriteExponent(exp: int) returns (text: string)
    requires -10000 < exp < 10000
    ensures IsExponent(text, exp) && |text| == 1 + ExponentDigits(exp)
    ensures |text| >= 3 && (|text| == 3 || text[1] != '0')
  {
    hide Decimal, AllDigits, Pair;
    var rest := if exp < 0 then -exp else exp;
    ghost var magnitude := rest;
    text := if exp < 0 then "-" else "+";
    ghost var sign, digits := text, "";
    if rest >= 100 {
      var top := Pair(rest / 100);
      if rest >= 1000 {
        text := text + [top[0]];
        digits := [top[0]];
      }
      text := text + [top[1]];
      assert text == sign + (digits + [top[1]]);
      digits := digits + [top[1]];
      assert rest >= 1000 ==> digits == top;
      rest := rest % 100;
    }
    WholeExponent(exp, magnitude, digits);
    var d := Pair(rest);
    text := text + [d[0]];
    text := text + [d[1]];
    assert d == [d[0], d[1]];
    assert text == sign + (digits + d);
    assert text[1..] == digits + d;
  }

  lemma WholeExponent(exp: int, magnitude: nat, digits: string)
    requires magnitude == (if exp < 0 then -exp else exp) < 10000
    requires magnitude >= 1000 ==> digits == Pair(magnitude / 100)
    requires 100 <= magnitude < 1000 ==> digits == [Pair(magnitude / 100)[1]]
    requires magnitude < 100 ==> digits == ""
    ensures var all := digits + Pair(magnitude % 100);
            && AllDigits(all) && Decimal(all) == magnitude && |all| == ExponentDigits(exp)
            && (|all| > 2 ==> all[0] != '0')
  {
    var top := magnitude / 100;
    if top > 0 { TopDigits(top); }
    assert Decimal("") == 0;
    hide Decimal;
    PairAppended(digits, magnitude % 100);
  }

  lemma TopDigits(top: nat)
    requires 1 <= top <= 99
    ensures top >= 10 ==> AllDigits(Pair(top)) && Decimal(Pair(top)) == top
    ensures top < 10 ==> Pair(top)[1] == DigitChar(top) && AllDigits([DigitChar(top)]) && Decimal([DigitChar(top)]) == top
  {
    PairAppended("", top);
    assert "" + Pair(top) == Pair(top);
    if top < 10 {
      DecimalAppend("", top);
      assert "" + [DigitChar(top)] == [DigitChar(top)];
    }
  }

  lemma ExponentRead(c: char, text: string, exp: int)
    requires (c == 'e' || c == 'E') && IsExponent(text, exp)
    ensures ReadExponent([c] + text) == Some(exp)
  {
    assert ([c] + text)[2..] == text[1..];
  }

  // ---------------------------------------------------------------- the four layouts

  datatype FloatFormat = General | Exp | FixedPoint

  datatype FloatSpecs = FloatSpecs(precision: int, format: FloatFormat, sign: SignSpec, upper: bool, showpoint: bool)

  /** The character of a sign, if any. */
  function SignText(sign: SignSpec): (s: string)
    ensures IsSign(s)
  {
    match sign
    case NoSign => ""
    case Minus => "-"
    case Plus => "+"
    case Space => " "
  }

  function OutputExponent(significand: string, exponent: int): int {
    exponent + |significand| - 1
  }

  /** use_exp_format */
  predicate UsesExponent(significand: string, exponent: int, specs: FloatSpecs) {
    var outputExp := OutputExponent(significand, exponent);
    match specs.format
    case Exp => true
    case FixedPoint => false
    case General => outputExp < -4 || outputExp >= (if specs.precision > 0 then specs.precision else 16)
  }

  /**
    The text denotes significand * 10^exponent with the sign, written with `padding` more zeros
    behind it and with as many digits behind the point as the scale says.
  */
  ghost predicate Denotes(text: string, sign: SignSpec, significand: string, exponent: int, scale: int)
    requires AllDigits(significand)
  {
    var r := ReadLiteral(text);
    && r.Some? && r.value.negative == sign.Minus? && r.value.scale == scale
    && SameNumber(r.value.mantissa, scale, Decimal(significand), exponent)
  }

  /** The layout of a text: what stands before and behind the point, and the exponent. */
  datatype Parts = Parts(whole: string, point: bool, fraction: string, rest: string)

  /** The character that a sign is written as, if any. */
  ghost predicate StartsWithSign(text: string, sign: SignSpec, rest: string) {
    match sign
    case NoSign => text == rest
    case Minus => text == "-" + rest
    case Plus => text == "+" + rest
    case Space => text == " " + rest
  }

  /** An exponent mark, a sign, and two digits or as many as the exponent has. */
  ghost predicate IsExponentPart(rest: string, upper: bool, exp: int) {
    && |rest| >= 4 && rest[0] == (if upper then 'E' else 'e') && IsExponent(rest[1..], exp)
    && (|rest| == 4 || rest[2] != '0')
  }

  /**
    In the notation with an exponent one digit stands before the point, and the exponent is that of
    the leading digit. In the other as many digits stand there as the number has, or one, and
    nothing follows the fraction. The point is there if a fraction is or if it is to be shown.
  */
  ghost predicate HasParts(text: string, p: Parts, significand: string, exponent: int, scientific: bool,
                           specs: FloatSpecs) {
    var leading := exponent + |significand| - 1;
    && StartsWithSign(text, specs.sign, p.whole + (if p.point then "." + p.fraction else "") + p.rest)
    && AllDigits(p.whole) && AllDigits(p.fraction) && (p.point <==> p.fraction != "" || specs.showpoint)
    && |p.whole| == (if !scientific && leading > 0 then leading + 1 else 1)
    && |p.fraction| == (if scientific then leading else 0) - Scale(significand, exponent, scientific, specs)
    && (if scientific then IsExponentPart(p.rest, specs.upper, leading) else p.rest == "")
  }

  ghost predicate IsLaidOut(text: string, significand: string, exponent: int, scientific: bool, specs: FloatSpecs) {
    exists p: Parts :: HasParts(text, p, significand, exponent, scientific, specs)
  }

  lemma LaidOut(text: string, p: Parts, significand: string, exponent: int, scientific: bool, specs: FloatSpecs)
    requires AllDigits(p.whole) && AllDigits(p.fraction) && (p.point <==> p.fraction != "" || specs.showpoint)
    requires text == SignText(specs.sign) + Unit(p.whole, p.point, p.fraction, p.rest)
    requires var leading := exponent + |significand| - 1;
             && |p.whole| == (if !scientific && leading > 0 then leading + 1 else 1)
             && |p.fraction| == (if scientific then leading else 0) - Scale(significand, exponent, scientific, specs)
             && (if scientific then IsExponentPart(p.rest, specs.upper, leading) else p.rest == "")
    ensures IsLaidOut(text, significand, exponent, scientific, specs)
  {
    hide IsExponentPart, Scale, AllDigits;
    var unit := p.whole + (if p.point then "." + p.fraction else "") + p.rest;
    assert "" + unit == unit;
    assert HasParts(text, p, significand, exponent, scientific, specs);
  }

  lemma SignChars(sign: SignSpec)
    ensures SignText(sign) == "-" <==> sign.Minus?
  {
  }

  lemma PaddedDenotes(sign: SignSpec, significand: string, exponent: int, padding: nat,
                      whole: string, point: bool, fraction: string, rest: string)
    requires AllDigits(significand) && whole != "" && whole + fraction == significand + Zeros(padding)
    requires AllDigits(whole) && AllDigits(fraction) && (!point ==> fraction == "")
    requires ReadExponent(rest).Some? && ReadExponent(rest).value - |fraction| == exponent - padding
    ensures Denotes(SignText(sign) + Unit(whole, point, fraction, rest), sign, significand, exponent, exponent - padding)
  {
    hide Unit, ReadLiteral, ReadExponent, Decimal, Zeros, AllDigits, AlmostDigits, IsSign, Pow;
    ReadsBack(SignText(sign), whole, point, fraction, rest);
    TrailingZeros(significand, padding);
    SignChars(sign);
  }

  /** 1234e5 as 1.234e+08, perhaps with zeros behind the digits. */
  method WriteScientific(significand: string, exponent: int, specs: FloatSpecs) returns (text: string, size: nat)
    requires AllDigits(significand) && significand != ""
    requires -10000 < OutputExponent(significand, exponent) < 10000
    ensures |text| == size
    ensures Denotes(text, specs.sign, significand, exponent, Scale(significand, exponent, true, specs))
    ensures IsLaidOut(text, significand, exponent, true, specs)
  {
    hide Unit, Denotes, IsExponent, Zeros, Decimal, ExponentDigits, IsLaidOut, SignText, Scale;
    var n, outputExp := |significand|, OutputExponent(significand, exponent);
    size := n + |SignText(specs.sign)|;
    var point, zeros := true, 0;
    if specs.showpoint {
      zeros := specs.precision - n;
      if zeros < 0 { zeros := 0; }
      size := size + zeros;
    } else if n == 1 {
      point := false;
    }
    size := size + (if point then 1 else 0) + 2 + ExponentDigits(outputExp);
    var expChar := if specs.upper then 'E' else 'e';
    text := SignText(specs.sign) + significand[..1];
    if point { text := text + "." + significand[1..]; }
    if zeros > 0 { text := text + Zeros(zeros); }
    var exp := WriteExponent(outputExp);
    text := text + [expChar] + exp;
    ScientificText(significand, exponent, specs, point, zeros, exp, text);
  }

  lemma ScientificText(significand: string, exponent: int, specs: FloatSpecs, point: bool, zeros: nat,
                       exp: string, text: string)
    requires AllDigits(significand) && significand != ""
    requires point <==> specs.showpoint || |significand| > 1
    requires zeros == (if specs.showpoint && specs.precision > |significand| then specs.precision - |significand| else 0)
    requires IsExponent(exp, OutputExponent(significand, exponent)) && |exp| >= 3 && (|exp| == 3 || exp[1] != '0')
    requires text == SignText(specs.sign) + significand[..1] + (if point then "." + significand[1..] else "")
                     + Zeros(zeros) + [if specs.upper then 'E' else 'e'] + exp
    ensures Denotes(text, specs.sign, significand, exponent, Scale(significand, exponent, true, specs))
    ensures IsLaidOut(text, significand, exponent, true, specs)
  {
    hide Unit, Denotes, ReadExponent, IsExponent, Zeros, Decimal, ExponentDigits, IsLaidOut, IsExponentPart, SignText,
      AllDigits;
    var outputExp, first, behind := OutputExponent(significand, exponent), significand[..1], significand[1..];
    var expChar := if specs.upper then 'E' else 'e';
    var fraction := if point then behind + Zeros(zeros) else "";
    ExponentRead(expChar, exp, outputExp);
    ExponentPart(exp, specs.upper, outputExp);
    ScientificDigits(significand, zeros);
    NoZeros(zeros);
    ScientificUnit(SignText(specs.sign), first, behind, Zeros(zeros), expChar, exp, point, text);
    PaddedDenotes(specs.sign, significand, exponent, zeros, first, point, fraction, [expChar] + exp);
    LaidOut(text, Parts(first, point, fraction, [expChar] + exp), significand, exponent, true, specs);
  }

  lemma ScientificDigits(significand: string, zeros: nat)
    requires AllDigits(significand) && significand != ""
    ensures var first, behind := significand[..1], significand[1..];
            && AllDigits(first) && AllDigits(behind + Zeros(zeros)) && AllDigits("")
            && first + (behind + Zeros(zeros)) == significand + Zeros(zeros)
            && (behind == "" && zeros == 0 ==> first + "" == significand + Zeros(zeros))
  {
    hide Zeros;
    TrailingZeros(significand[1..], zeros);
    NoZeros(zeros);
  }

  lemma ScientificUnit(sign: string, first: string, behind: string, zeros: string, expChar: char, exp: string,
                       point: bool, text: string)
    requires !point ==> behind == "" && zeros == ""
    requires text == sign + first + (if point then "." + behind else "") + zeros + [expChar] + exp
    ensures text == sign + Unit(first, point, if point then behind + zeros else "", [expChar] + exp)
  {
    var pointed := if point then "." + behind else "";
    assert pointed + zeros == Pointed(point, if point then behind + zeros else "");
    assert text == sign + (first + (pointed + zeros) + ([expChar] + exp));
  }

  lemma ExponentPart(text: string, upper: bool, exp: int)
    requires IsExponent(text, exp) && |text| >= 3 && (|text| == 3 || text[1] != '0')
    ensures IsExponentPart([if upper then 'E' else 'e'] + text, upper, exp)
  {
    assert ([if upper then 'E' else 'e'] + text)[1..] == text;
  }

  lemma NoZeros(n: nat)
    ensures n == 0 ==> Zeros(n) == ""
  {
  }

  lemma UnitIs(sign: string, whole: string, point: bool, fraction: string, rest: string, text: string)
    requires text == sign + whole + (if point then "." + fraction else "") + rest
    ensures text == sign + Unit(whole, point, fraction, rest)
  {
  }

  lemma {:induction false} ZerosAdd(m: nat, n: nat)
    ensures Zeros(m) + Zeros(n) == Zeros(m + n)
  {
    if n > 0 {
      ZerosAdd(m, n - 1);
      assert Zeros(m) + Zeros(n) == (Zeros(m) + Zeros(n - 1)) + "0";
    } else {
      assert Zeros(m) + "" == Zeros(m);
    }
  }

  /** 1234e5 as 123400000, perhaps with a point and zeros behind it. */
  method WriteIntegral(significand: string, exponent: nat, specs: FloatSpecs) returns (text: string, size: nat)
    requires AllDigits(significand) && significand != ""
    ensures |text| == size
    ensures Denotes(text, specs.sign, significand, exponent, Scale(significand, exponent, false, specs))
    ensures IsLaidOut(text, significand, exponent, false, specs)
  {
    hide Unit, Denotes, ReadExponent, Zeros, Decimal, IsLaidOut, SignText;
    var n := |significand|;
    size := n + |SignText(specs.sign)| + exponent;
    var zeros := specs.precision - (exponent + n);
    if specs.showpoint {
      size := size + 1;
      if zeros <= 0 && !specs.format.FixedPoint? { zeros := 0; }
      if zeros > 0 { size := size + zeros; }
    }
    text := SignText(specs.sign) + significand + Zeros(exponent);
    ghost var behind := if specs.showpoint && zeros > 0 then zeros else 0;
    if specs.showpoint {
      text := text + ".";
      if zeros > 0 { text := text + Zeros(zeros); }
    }
    NoZeros(behind);
    ZerosAdd(exponent, behind);
    TrailingZeros(significand, exponent);
    ghost var whole := significand + Zeros(exponent);
    assert whole + Zeros(behind) == significand + Zeros(exponent + behind);
    assert ReadExponent("") == Some(0) by { EmptyExponent(); }
    UnitIs(SignText(specs.sign), whole, specs.showpoint, Zeros(behind), "", text);
    PaddedDenotes(specs.sign, significand, exponent, exponent + behind, whole, specs.showpoint, Zeros(behind), "");
    LaidOut(text, Parts(whole, specs.showpoint, Zeros(behind), ""), significand, exponent, false, specs);
  }

  lemma EmptyExponent()
    ensures ReadExponent("") == Some(0)
  {
  }

  /** 1234e-2 as 12.34, perhaps with zeros behind the digits. */
  method WriteMixed(significand: string, exponent: int, specs: FloatSpecs) returns (text: string, size: nat)
    requires AllDigits(significand) && exponent < 0 < exponent + |significand|
    ensures |text| == size
    ensures Denotes(text, specs.sign, significand, exponent, Scale(significand, exponent, false, specs))
    ensures IsLaidOut(text, significand, exponent, false, specs)
  {
    hide Unit, Denotes, ReadExponent, Zeros, Decimal, IsLaidOut, SignText;
    var exp := exponent + |significand|;
    var zeros := if specs.showpoint then specs.precision - |significand| else 0;
    size := |significand| + |SignText(specs.sign)| + 1 + (if zeros > 0 then zeros else 0);
    text := SignText(specs.sign) + significand[..exp] + "." + significand[exp..];
    if zeros > 0 { text := text + Zeros(zeros); }
    ghost var behind := if zeros > 0 then zeros else 0;
    ghost var fraction := significand[exp..] + Zeros(behind);
    NoZeros(behind);
    TrailingZeros(significand[exp..], behind);
    assert significand[..exp] + fraction == significand + Zeros(behind);
    EmptyExponent();
    assert text == SignText(specs.sign) + significand[..exp] + ("." + fraction) + "";
    UnitIs(SignText(specs.sign), significand[..exp], true, fraction, "", text);
    PaddedDenotes(specs.sign, significand, exponent, behind, significand[..exp], true, fraction, "");
    LaidOut(text, Parts(significand[..exp], true, fraction, ""), significand, exponent, false, specs);
  }

  /** 1234e-6 as 0.001234; no digits at all as zeros up to the precision. */
  method WriteFraction(significand: string, exponent: int, specs: FloatSpecs) returns (text: string, size: nat)
    requires AllDigits(significand) && exponent < 0 && exponent + |significand| <= 0
    ensures |text| == size
    ensures Denotes(text, specs.sign, significand, exponent, Scale(significand, exponent, false, specs))
    ensures IsLaidOut(text, significand, exponent, false, specs)
  {
    hide Unit, Denotes, Zeros, Decimal, IsLaidOut, SignText;
    var n := |significand|;
    var zeros := -(exponent + n);
    if n == 0 && specs.precision >= 0 && specs.precision < zeros {
      zeros := specs.precision;
    }
    var pointy := zeros != 0 || n != 0 || specs.showpoint;
    size := n + |SignText(specs.sign)| + 1 + (if pointy then 1 else 0) + zeros;
    text := SignText(specs.sign) + "0";
    NoZeros(zeros);
    FractionDenotes(specs.sign, significand, exponent, zeros, pointy);
    if pointy {
      text := text + ".";
      text := text + Zeros(zeros);
      text := text + significand;
    }
    ghost var fraction := Zeros(zeros) + significand;
    assert pointy ==> text == SignText(specs.sign) + "0" + ("." + fraction) + "";
    UnitIs(SignText(specs.sign), "0", pointy, fraction, "", text);
    LaidOut(text, Parts("0", pointy, fraction, ""), significand, exponent, false, specs);
  }

  lemma FractionDenotes(sign: SignSpec, significand: string, exponent: int, zeros: nat, point: bool)
    requires AllDigits(significand) && (significand == "" || exponent == -(zeros + |significand|))
    requires !point ==> Zeros(zeros) + significand == ""
    ensures Denotes(SignText(sign) + Unit("0", point, Zeros(zeros) + significand, ""), sign, significand, exponent,
                    -(zeros + |significand|))
  {
    assert significand == "" ==> Decimal(significand) == 0;
    assert AllDigits("0");
    hide Unit, ReadLiteral, ReadExponent, Decimal, Zeros, IsSign, AllDigits, AlmostDigits, Pow;
    var fraction := Zeros(zeros) + significand;
    LeadingZeros(significand, zeros);
    LeadingZero(fraction);
    EmptyExponent();
    SignChars(sign);
    SameZero(Decimal(significand), exponent, -(zeros + |significand|));
    ReadsBack(SignText(sign), "0", point, fraction, "");
  }

  lemma SameZero(d: nat, e: int, f: int)
    requires d == 0 || e == f
    ensures SameNumber(d, f, d, e)
  {
  }

  lemma LeadingZero(s: string)
    requires AllDigits(s)
    ensures AllDigits("0" + s) && Decimal("0" + s) == Decimal(s)
  {
    assert Zeros(1) == "0" by { NoZeros(0); }
    LeadingZeros(s, 1);
  }

  /**
    The scale of what is written: the exponent, less the zeros that a shown point asks for. Whole
    numbers end before the point.
  */
  function Scale(significand: string, exponent: int, scientific: bool, specs: FloatSpecs): int {
    var n := |significand|;
    var wanted :=
      if !specs.showpoint then 0
      else if !scientific && exponent >= 0 then specs.precision - (exponent + n)
      else specs.precision - n;
    var zeros := if wanted > 0 then wanted else 0;
    if scientific || (exponent < 0 && exponent + n > 0) then exponent - zeros
    else if exponent >= 0 then -zeros
    else if n == 0 && 0 <= specs.precision < -exponent then -specs.precision
    else exponent
  }

  /**
    The notation with an exponent is for the format Exp, and for the general format where the
    decimal exponent of the leading digit is not from -4 up to the precision, or 16 without one.
  */
  ghost predicate NeedsExponent(leading: int, specs: FloatSpecs) {
    || specs.format == Exp
    || (specs.format == General && !(-4 <= leading < if specs.precision > 0 then specs.precision else 16))
  }

  /** A text holds an exponent mark if and only if it is laid out with an exponent. */
  lemma MarkShows(text: string, significand: string, exponent: int, scientific: bool, specs: FloatSpecs)
    requires IsLaidOut(text, significand, exponent, scientific, specs)
    ensures (exists i :: 0 <= i < |text| && (text[i] == 'e' || text[i] == 'E')) <==> scientific
  {
    var p: Parts :| HasParts(text, p, significand, exponent, scientific, specs);
    hide IsExponent, Scale;
    var before := p.whole + if p.point then "." + p.fraction else "";
    var sign := |text| - |before + p.rest|;
    assert text[sign..] == before + p.rest;
    if scientific {
      assert text[sign + |before|] == text[sign..][|before|] == p.rest[0];
    } else {
      forall i | 0 <= i < |text| ensures !(text[i] == 'e' || text[i] == 'E') {
        if i >= sign {
          assert text[i] == before[i - sign];
        }
      }
    }
  }

  /**
    do_write_float: the text is a decimal literal for exactly the given number, in the notation and
    with the digits that the specifiers ask for, and it is as long as the size reserved for it.
  */
  method DoWriteFloat(significand: string, exponent: int, specs: FloatSpecs) returns (text: string, size: nat)
    requires AllDigits(significand) && (significand != "" || (specs.format.FixedPoint? && exponent < 0))
    requires UsesExponent(significand, exponent, specs) ==> -10000 < OutputExponent(significand, exponent) < 10000
    ensures |text| == size
    ensures Denotes(text, specs.sign, significand, exponent,
                    Scale(significand, exponent, UsesExponent(significand, exponent, specs), specs))
    ensures IsLaidOut(text, significand, exponent, NeedsExponent(exponent + |significand| - 1, specs), specs)
    ensures (exists i :: 0 <= i < |text| && (text[i] == 'e' || text[i] == 'E')) <==>
            NeedsExponent(exponent + |significand| - 1, specs)
  {
    hide Denotes, IsLaidOut, Scale;
    if UsesExponent(significand, exponent, specs) {
      text, size := WriteScientific(significand, exponent, specs);
    } else if exponent >= 0 {
      text, size := WriteIntegral(significand, exponent, specs);
    } else if exponent + |significand| > 0 {
      text, size := WriteMixed(significand, exponent, specs);
    } else {
      text, size := WriteFraction(significand, exponent, specs);
    }
    MarkShows(text, significand, exponent, NeedsExponent(exponent + |significand| - 1, specs), specs);
  }
}
