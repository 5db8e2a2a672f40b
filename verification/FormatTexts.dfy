/** Whole format strings as text: what is written for each, said apart from the parser and its handlers. */
module FormatTexts {
  import opened Results
  import opened Digits
  import opened FormatString
  import opened FormatSpecs
  import opened Interpreter
  import opened SpecTexts

  // ---------------------------------------------------------------- the grammar

  /** A character, or a field: an argument id, and perhaps a colon and specifiers. */
  datatype Piece = Character(c: char) | Field(id: string) | Specified(id: string, parts: Parts)

  function PieceText(piece: Piece): string {
    match piece
    case Character(c) => if c == '{' then "{{" else if c == '}' then "}}" else [c]
    case Field(id) => "{" + id + "}"
    case Specified(id, parts) => "{" + id + ":" + SpecText(parts) + "}"
  }

  function FormatText(pieces: seq<Piece>): string {
    if pieces == [] then "" else PieceText(pieces[0]) + FormatText(pieces[1..])
  }

  predicate WellFormed(piece: Piece) {
    && (!piece.Character? ==> IsId(piece.id))
    && (piece.Specified? ==> IsNumber(piece.parts.width) && IsNumber(piece.parts.precision))
  }

  // ---------------------------------------------------------------- what is written

  /** The argument that the id of a field selects, and the counter behind it. No argument has a name. */
  function Select(id: string, next: Counter): Result<(nat, Counter)>
    requires IsId(id)
  {
    var (d, after) :- ResolveId(id, next);
    match d
    case FromArg(k) => Ok((k, after))
    case _ => Err("argument not found")
  }

  /** A width or precision as a number: given, or the value of an argument, which must be a small integer. */
  function Amount<V>(d: Dynamic, what: string, args: seq<Arg<V>>, r: Renderer<V>): Result<int> {
    if d.Fixed? then Ok(d.value)
    else if d.FromName? || d.id >= |args| then Err("argument not found")
    else
      var n := r.number(args[d.id].value);
      var wrapped := n % 18446744073709551616;
      if args[d.id].kind !in {IntType, UIntType, LongLongType, ULongLongType, Int128Type, UInt128Type} then
        Err(what + " is not integer")
      else if n < 0 then Err("negative " + what)
      else if wrapped > 2147483647 then Err("number is too big")
      else Ok(wrapped)
  }

  /** A character, unless it is written as a number, takes no sign, no "#" and no zeros in front. */
  predicate BadForChar(parts: Parts, kind: ArgType) {
    && kind == CharType && parts.presentation in ["", "c", "?"]
    && (parts.sign != NoSign || parts.alt || (parts.zero && parts.align == NoAlign))
  }

  /** What a field with specifiers writes: the argument with these specifiers, and no others. */
  function SpecifiedOutput<V>(k: nat, parts: Parts, next: Counter, args: seq<Arg<V>>, r: Renderer<V>)
    : Result<(string, Counter)>
    requires k < |args| && IsNumber(parts.width) && IsNumber(parts.precision)
  {
    var (w, afterWidth) :- Resolve(parts.width, Fixed(0), next);
    var (p, after) :- Resolve(parts.precision, Fixed(-1), afterWidth);
    var width :- Amount(w, "width", args, r);
    var precision :- Amount(p, "precision", args, r);
    if BadForChar(parts, args[k].kind) then Err("invalid format specifier for char")
    else
      var text :- r.formatted(args[k], Specs(Fixed(width), Fixed(precision), parts.presentation, Aligned(parts).0,
                                             parts.sign, parts.alt, parts.localized, Aligned(parts).1));
      Ok((text, after))
  }

  function PieceOutput<V>(piece: Piece, next: Counter, args: seq<Arg<V>>, r: Renderer<V>): Result<(string, Counter)>
    requires WellFormed(piece)
  {
    if piece.Character? then Ok(([piece.c], next))
    else
      var (k, after) :- Select(piece.id, next);
      if k >= |args| then Err("argument not found")
      else if piece.Specified? then SpecifiedOutput(k, piece.parts, after, args, r)
      else
        var text :- r.plain(args[k]);
        Ok((text, after))
  }

  /** The specifiers of a field suit the type of the argument that it selects, if it selects one. */
  predicate PieceSuits<V>(piece: Piece, next: Counter, args: seq<Arg<V>>) {
    && WellFormed(piece)
    && (piece.Specified? ==>
          var k := Select(piece.id, next);
          k.Ok? && k.value.0 < |args| ==> Allowed(piece.parts, args[k.value.0].kind))
  }

  /** Every field suits its argument, up to one that fails. */
  predicate Suits<V>(pieces: seq<Piece>, next: Counter, args: seq<Arg<V>>, r: Renderer<V>) {
    pieces != [] ==>
      && PieceSuits(pieces[0], next, args)
      && var o := PieceOutput(pieces[0], next, args, r);
         o.Ok? ==> Suits(pieces[1..], o.value.1, args, r)
  }

  /** What a format string writes: what its pieces write, in order; the first error ends it. */
  function Output<V>(pieces: seq<Piece>, next: Counter, args: seq<Arg<V>>, r: Renderer<V>): Result<string>
    requires Suits(pieces, next, args, r)
  {
    if pieces == [] then Ok("")
    else
      var (text, after) :- PieceOutput(pieces[0], next, args, r);
      var rest :- Output(pieces[1..], after, args, r);
      Ok(text + rest)
  }

  lemma SuitsIsWellFormed<V>(piece: Piece, next: Counter, args: seq<Arg<V>>)
    requires PieceSuits(piece, next, args)
    ensures WellFormed(piece)
  {
    hide WellFormed, Select, Allowed;
  }

  // ---------------------------------------------------------------- one field is read

  lemma SelectsTheSame(id: string, next: Counter)
    requires IsId(id)
    ensures ResolveArgId(RefOf(id), next) == Select(id, next)
  {
    RefResolves(id, next);
    hide FitsInt, Decimal, IsName, IsIndex;
  }

  lemma AmountIs<V>(d: Dynamic, what: string, args: seq<Arg<V>>, r: Renderer<V>)
    ensures DynamicNumber(args, r, d, what) == Amount(d, what, args, r)
  {
  }

  lemma CharacterChecked(parts: Parts, next: Counter, kind: ArgType)
    requires IsNumber(parts.width) && IsNumber(parts.precision) && Meaning(parts, next).Ok?
    requires !parts.align.Numeric?
    ensures BadForChar(parts, kind) <==> kind.CharType? && !CharSpecsAllowed(Meaning(parts, next).value.0)
  {
    hide Resolve, IsNumber;
  }

  /** The place of an id behind an opening brace. */
  lemma IdIsRead(s: string, p: nat, id: string)
    requires IsId(id) && p + 1 + |id| < |s| && s[p + 1..p + 1 + |id|] == id
    requires s[p + 1 + |id|] == '}' || s[p + 1 + |id|] == ':'
    ensures s[p + 1] != '{'
    ensures (if s[p + 1] == '}' then Ok((Auto, p + 1)) else ArgId(s, p + 1)) == Ok((RefOf(id), p + 1 + |id|))
  {
    ReadsId(s, p + 1, id);
    if id != "" {
      assert s[p + 1] == id[0];
    }
  }

  lemma OutputFollowsMeaning<V>(k: nat, parts: Parts, next: Counter, args: seq<Arg<V>>, r: Renderer<V>)
    requires k < |args| && IsNumber(parts.width) && IsNumber(parts.precision)
    ensures Meaning(parts, next).Err? ==> SpecifiedOutput(k, parts, next, args, r) == Err(Meaning(parts, next).message)
    ensures Meaning(parts, next).Ok? ==>
              var (specs, after) := Meaning(parts, next).value;
              SpecifiedOutput(k, parts, next, args, r) == MeantOutput(k, parts, specs, after, args, r)
  {
    hide Resolve, IsNumber, Amount, BadForChar;
  }

  /** What specifiers with a known meaning write. */
  function MeantOutput<V>(k: nat, parts: Parts, specs: Specs, after: Counter, args: seq<Arg<V>>, r: Renderer<V>)
    : Result<(string, Counter)>
    requires k < |args|
  {
    var width :- Amount(specs.width, "width", args, r);
    var precision :- Amount(specs.precision, "precision", args, r);
    if BadForChar(parts, args[k].kind) then Err("invalid format specifier for char")
    else
      var text :- r.formatted(args[k], specs.(width := Fixed(width), precision := Fixed(precision)));
      Ok((text, after))
  }

  lemma MeaningIsWritten<V>(s: string, st: SpecState, out: string, k: nat, parts: Parts, next: Counter,
                            args: seq<Arg<V>>, r: Renderer<V>)
    requires k < |args| && st.pos < |s| && s[st.pos] == '}' && !parts.align.Numeric?
    requires IsNumber(parts.width) && IsNumber(parts.precision) && Meaning(parts, next) == Ok((st.specs, st.next))
    ensures var o := MeantOutput(k, parts, st.specs, st.next, args, r);
            SpecifiedField(s, st, out, args[k], args, r) ==
            if o.Ok? then Ok((Context(o.value.1, out + o.value.0), st.pos + 1)) else Err(o.message)
  {
    AmountIs(st.specs.width, "width", args, r);
    AmountIs(st.specs.precision, "precision", args, r);
    CharacterChecked(parts, next, args[k].kind);
    hide Meaning, IsNumber, Amount, DynamicNumber, BadForChar, CharSpecsAllowed;
  }

  lemma BraceBehind(s: string, p: nat, text: string)
    requires StandsAt(s, p, text)
    ensures p + |text| < |s| && s[p + |text|] == '}'
  {
  }

  lemma SpecifiedIsRead<V>(s: string, q: nat, k: nat, parts: Parts, next: Counter, out: string,
                           args: seq<Arg<V>>, r: Renderer<V>)
    requires k < |args| && Allowed(parts, args[k].kind) && q < |s| && s[q] == ':' && StandsAt(s, q + 1, SpecText(parts))
    ensures IsNumber(parts.width) && IsNumber(parts.precision)
    ensures var o := SpecifiedOutput(k, parts, next, args, r);
            FieldAt(s, q, k, next, out, args, r) ==
            if o.Ok? then Ok((Context(o.value.1, out + o.value.0), q + |SpecText(parts)| + 2)) else Err(o.message)
  {
    hide ReadSpecs, Allowed, StandsAt, SpecText, Meaning, IsNumber, SpecifiedOutput, MeantOutput, SpecifiedField;
    var kind := args[k].kind;
    ReadsEverySpecifier(s, q + 1, parts, next, kind);
    AllowedNumbers(parts, kind);
    AllowedMarks(parts, kind);
    BraceBehind(s, q + 1, SpecText(parts));
    OutputFollowsMeaning(k, parts, next, args, r);
    if Meaning(parts, next).Ok? {
      MeaningIsWritten(s, ReadSpecs(s, q + 1, next, kind).value, out, k, parts, next, args, r);
    }
  }

  /** Where the pieces of a field stand. */
  lemma FieldSplits(s: string, p: nat, id: string, rest: string)
    requires p + |id| + |rest| + 1 <= |s| && s[p..p + |id| + |rest| + 1] == "{" + id + rest
    ensures s[p] == '{' && s[p + 1..p + 1 + |id|] == id && s[p + 1 + |id|..p + 1 + |id| + |rest|] == rest
    ensures rest != "" ==> s[p + 1 + |id|] == rest[0]
  {
    var text := "{" + id + rest;
    var n := |id|;
    assert text[1..1 + n] == id && text[1 + n..] == rest && text[0] == '{';
    SliceOfSlice(s, p, |text|, 1, 1 + n);
    SliceOfSlice(s, p, |text|, 1 + n, |text|);
    assert s[p] == s[p..p + |text|][0];
    assert rest != "" ==> s[p + 1 + n] == s[p..p + |text|][1 + n] == text[1 + n];
  }

  /** A field is that of the argument which its id selects. */
  lemma HeadIsRead<V>(s: string, p: nat, id: string, st: Context, args: seq<Arg<V>>, r: Renderer<V>)
    requires IsId(id) && p + 1 + |id| < |s| && s[p] == '{' && s[p + 1..p + 1 + |id|] == id
    requires s[p + 1 + |id|] == '}' || s[p + 1 + |id|] == ':'
    ensures var k := Select(id, st.next);
            Interpreter.Field(s, p, st, args, r) ==
            if k.Ok? then FieldAt(s, p + 1 + |id|, k.value.0, k.value.1, st.out, args, r) else Err(k.message)
  {
    hide ArgId, RefOf, IsId, Select, ResolveArgId, FieldAt;
    IdIsRead(s, p, id);
    SelectsTheSame(id, st.next);
  }

  /** The text of a field and what it writes, by its parts. */
  lemma FieldParts<V>(piece: Piece, next: Counter, args: seq<Arg<V>>, r: Renderer<V>) returns (rest: string)
    requires !piece.Character? && PieceSuits(piece, next, args)
    ensures WellFormed(piece) && IsId(piece.id)
    ensures rest == if piece.Field? then "}" else ":" + SpecText(piece.parts) + "}"
    ensures PieceText(piece) == "{" + piece.id + rest && rest != "" && rest[0] == (if piece.Field? then '}' else ':')
    ensures |PieceText(piece)| == 1 + |piece.id| + |rest|
    ensures |rest| == if piece.Field? then 1 else |SpecText(piece.parts)| + 2
    ensures var k, o := Select(piece.id, next), PieceOutput(piece, next, args, r);
            if k.Err? then o == Err(k.message)
            else if k.value.0 >= |args| then o == Err("argument not found")
            else if piece.Specified? then
              && Allowed(piece.parts, args[k.value.0].kind)
              && o == SpecifiedOutput(k.value.0, piece.parts, k.value.1, args, r)
            else
              var text := r.plain(args[k.value.0]);
              o == if text.Ok? then Ok((text.value, k.value.1)) else Err(text.message)
  {
    hide SpecText, Select, SpecifiedOutput, Allowed, IsNumber, IsId;
    rest := if piece.Field? then "}" else ":" + SpecText(piece.parts) + "}";
    assert piece.Specified? ==> "{" + piece.id + ":" + SpecText(piece.parts) + "}" == "{" + piece.id + rest;
  }

  /** What stands behind the id of a field is read for an argument that there is. */
  lemma BodyIsRead<V>(s: string, q: nat, piece: Piece, rest: string, k: nat, next: Counter, out: string,
                      args: seq<Arg<V>>, r: Renderer<V>)
    requires !piece.Character? && k < |args| && (piece.Specified? ==> Allowed(piece.parts, args[k].kind))
    requires rest == if piece.Field? then "}" else ":" + SpecText(piece.parts) + "}"
    requires q + |rest| <= |s| && s[q..q + |rest|] == rest && s[q] == (if piece.Field? then '}' else ':')
    ensures piece.Specified? ==> IsNumber(piece.parts.width) && IsNumber(piece.parts.precision)
    ensures var written := FieldAt(s, q, k, next, out, args, r);
            if piece.Field? then
              var text := r.plain(args[k]);
              written == if text.Ok? then Ok((Context(next, out + text.value), q + |rest|)) else Err(text.message)
            else
              var o := SpecifiedOutput(k, piece.parts, next, args, r);
              written == if o.Ok? then Ok((Context(o.value.1, out + o.value.0), q + |rest|)) else Err(o.message)
  {
    hide SpecText, SpecifiedOutput, FieldAt, Allowed, IsNumber, StandsAt;
    if piece.Specified? {
      SpecStands(s, q, SpecText(piece.parts), rest);
      SpecifiedIsRead(s, q, k, piece.parts, next, out, args, r);
    } else {
      PlainIsRead(s, q, k, next, out, args, r);
    }
  }

  lemma FieldIsRead<V>(s: string, p: nat, piece: Piece, st: Context, args: seq<Arg<V>>, r: Renderer<V>)
    requires !piece.Character? && PieceSuits(piece, st.next, args)
    requires p + |PieceText(piece)| <= |s| && s[p..p + |PieceText(piece)|] == PieceText(piece)
    ensures WellFormed(piece)
    ensures var o := PieceOutput(piece, st.next, args, r);
            Interpreter.Field(s, p, st, args, r) ==
            if o.Ok? then Ok((Context(o.value.1, st.out + o.value.0), p + |PieceText(piece)|)) else Err(o.message)
    ensures p < |s| && s[p] == '{'
  {
    hide SpecText, IsId, Select, SpecifiedOutput, FieldAt, Allowed, IsNumber, PieceText, PieceSuits, PieceOutput,
      WellFormed, Interpreter.Field, StandsAt;
    var rest := FieldParts(piece, st.next, args, r);
    FieldSplits(s, p, piece.id, rest);
    HeadIsRead(s, p, piece.id, st, args, r);
    var k, q := Select(piece.id, st.next), p + 1 + |piece.id|;
    if k.Ok? && k.value.0 < |args| {
      BodyIsRead(s, q, piece, rest, k.value.0, k.value.1, st.out, args, r);
    } else if k.Ok? {
      AbsentIsRefused(s, q, k.value.0, k.value.1, st.out, args, r);
    }
  }

  /** Specifiers behind which no closing brace stands are refused, once the numbers they need are found. */
  lemma BraceIsMissing<V>(s: string, q: nat, k: nat, next: Counter, out: string, args: seq<Arg<V>>, r: Renderer<V>)
    requires q < |s| && s[q] == ':' && k < |args| && ReadSpecs(s, q + 1, next, args[k].kind).Ok?
    requires var specs := ReadSpecs(s, q + 1, next, args[k].kind).value;
             && (specs.pos == |s| || s[specs.pos] != '}')
             && Amount(specs.specs.width, "width", args, r).Ok? && Amount(specs.specs.precision, "precision", args, r).Ok?
    ensures FieldAt(s, q, k, next, out, args, r) == Err("missing '}' in format string")
  {
    var specs := ReadSpecs(s, q + 1, next, args[k].kind).value.specs;
    AmountIs(specs.width, "width", args, r);
    AmountIs(specs.precision, "precision", args, r);
    hide ReadSpecs, Amount, DynamicNumber, WriteSpecified;
  }

  lemma PlainIsRead<V>(s: string, q: nat, k: nat, next: Counter, out: string, args: seq<Arg<V>>, r: Renderer<V>)
    requires q < |s| && s[q] == '}' && k < |args|
    ensures var text := r.plain(args[k]);
            FieldAt(s, q, k, next, out, args, r) ==
            if text.Ok? then Ok((Context(next, out + text.value), q + 1)) else Err(text.message)
  {
  }

  lemma AbsentIsRefused<V>(s: string, q: nat, k: nat, next: Counter, out: string, args: seq<Arg<V>>, r: Renderer<V>)
    requires q < |s| && (s[q] == '}' || s[q] == ':') && k >= |args|
    ensures FieldAt(s, q, k, next, out, args, r) == Err("argument not found")
  {
  }

  lemma SpecStands(s: string, q: nat, text: string, all: string)
    requires all == ":" + text + "}" && q + |all| <= |s| && s[q..q + |all|] == all
    ensures StandsAt(s, q + 1, text)
  {
    assert all[1..1 + |text|] == text && all[|text| + 1] == '}';
    SliceOfSlice(s, q, |all|, 1, 1 + |text|);
    assert s[q + 1 + |text|] == s[q..q + |all|][|text| + 1];
  }

  // ---------------------------------------------------------------- every text is written

  lemma CharacterIsWritten<V>(s: string, p: nat, c: char, st: Context, args: seq<Arg<V>>, r: Renderer<V>)
    requires Proper(FormatHandler(args, r))
    requires p + |PieceText(Character(c))| <= |s|
    requires s[p..p + |PieceText(Character(c))|] == PieceText(Character(c))
    ensures Parse(s, FormatHandler(args, r), p, st) ==
            Parse(s, FormatHandler(args, r), p + |PieceText(Character(c))|, Context(st.next, st.out + [c]))
  {
    var n := |PieceText(Character(c))|;
    assert s[p] == s[p..p + n][0] == c;
    assert n == 2 ==> s[p + 1] == s[p..p + n][1] == c;
    ParseUnfolds(s, FormatHandler(args, r), p, st);
    hide Parse;
  }

  lemma PieceIsWritten<V>(s: string, p: nat, piece: Piece, st: Context, args: seq<Arg<V>>, r: Renderer<V>)
    requires Proper(FormatHandler(args, r)) && PieceSuits(piece, st.next, args)
    requires p + |PieceText(piece)| <= |s| && s[p..p + |PieceText(piece)|] == PieceText(piece)
    ensures var o, parsed := PieceOutput(piece, st.next, args, r), Parse(s, FormatHandler(args, r), p, st);
            parsed ==
            if o.Err? then Err(o.message)
            else Parse(s, FormatHandler(args, r), p + |PieceText(piece)|, Context(o.value.1, st.out + o.value.0))
  {
    hide Parse, SpecText, Select, SpecifiedOutput, Allowed, IsNumber, IsId;
    if piece.Character? {
      CharacterIsWritten(s, p, piece.c, st, args, r);
    } else {
      FieldIsRead(s, p, piece, st, args, r);
      OpensField(piece);
      ParseUnfolds(s, FormatHandler(args, r), p, st);
    }
  }

  lemma OpensField(piece: Piece)
    ensures PieceText(piece) != ""
  {
  }

  /** The text of pieces is written, whatever stands before and behind it. */
  lemma {:induction false} TextIsWritten<V>(before: string, pieces: seq<Piece>, tail: string, st: Context,
                                            args: seq<Arg<V>>, r: Renderer<V>) returns (next: Counter)
    requires Proper(FormatHandler(args, r)) && Suits(pieces, st.next, args, r)
    ensures var s, h := before + FormatText(pieces) + tail, FormatHandler(args, r);
            var o := Output(pieces, st.next, args, r);
            Parse(s, h, |before|, st) ==
            if o.Ok? then Parse(s, h, |before + FormatText(pieces)|, Context(next, st.out + o.value))
            else Err(o.message)
    decreases |pieces|
  {
    hide Parse, PieceText, PieceOutput, PieceSuits, WellFormed;
    if pieces != [] { SuitsIsWellFormed(pieces[0], st.next, args); }
    var s, p := before + FormatText(pieces) + tail, |before|;
    next := st.next;
    if pieces == [] {
      assert st.out + "" == st.out;
    } else {
      var text, rest := PieceText(pieces[0]), FormatText(pieces[1..]);
      assert s == (before + text) + rest + tail;
      assert s[p..p + |text|] == text;
      PieceIsWritten(s, p, pieces[0], st, args, r);
      var o := PieceOutput(pieces[0], st.next, args, r);
      if o.Ok? {
        next := TextIsWritten(before + text, pieces[1..], tail, Context(o.value.1, st.out + o.value.0), args, r);
        var others := Output(pieces[1..], o.value.1, args, r);
        if others.Ok? {
          assert (st.out + o.value.0) + others.value == st.out + (o.value.0 + others.value);
        }
      }
    }
  }

  // ---------------------------------------------------------------- nothing else is

  lemma Reassembled(s: string, p: nat, q: nat, id: string)
    requires p + 1 <= q < |s| && s[p] == '{' && s[p + 1..q] == id
    ensures s[q] == '}' ==> s[p..q + 1] == "{" + id + "}"
    ensures s[q] == ':' ==> s[p..q + 1] == "{" + id + ":"
  {
    Prepended(s, p, q);
    Appended(s, p, q);
  }

  /** What a field is read from, up to where it ends, is a piece that suits. */
  lemma FieldReads<V>(s: string, p: nat, st: Context, args: seq<Arg<V>>, r: Renderer<V>) returns (piece: Piece)
    requires p + 1 < |s| && s[p] == '{' && s[p + 1] != '{' && Interpreter.Field(s, p, st, args, r).Ok?
    ensures !piece.Character? && PieceSuits(piece, st.next, args)
    ensures s[p..Interpreter.Field(s, p, st, args, r).value.1] == PieceText(piece)
  {
    hide IsId, FieldAt, Select, Allowed, SpecText, Interpreter.Field, PieceText, PieceSuits;
    var q, k, after := HeadReads(s, p, st, args, r);
    FieldEnds(s, q, k, after, st.out, args, r);
    Reassembled(s, p, q, s[p + 1..q]);
    if s[q] == '}' {
      piece := Field(s[p + 1..q]);
      FieldPiece(s[p + 1..q], st.next, args);
    } else {
      piece := SpecifiedReads(s, p, q, k, st.next, after, after, args);
    }
  }

  lemma FieldPiece<V>(id: string, next: Counter, args: seq<Arg<V>>)
    requires IsId(id)
    ensures PieceSuits(Field(id), next, args) && PieceText(Field(id)) == "{" + id + "}"
  {
    hide IsId;
  }

  lemma SpecifiedPiece<V>(id: string, parts: Parts, next: Counter, k: nat, after: Counter, args: seq<Arg<V>>)
    requires IsId(id) && IsNumber(parts.width) && IsNumber(parts.precision) && Select(id, next) == Ok((k, after))
    requires k < |args| && Allowed(parts, args[k].kind)
    ensures PieceSuits(Specified(id, parts), next, args)
    ensures PieceText(Specified(id, parts)) == ("{" + id + ":") + (SpecText(parts) + "}")
  {
    hide IsId, IsNumber, Select, Allowed, SpecText;
  }

  /** Specifiers that are read from some counter on are those of a piece that suits. */
  lemma SpecifiedReads<V>(s: string, p: nat, q: nat, k: nat, next: Counter, after: Counter,
                          from: Counter, args: seq<Arg<V>>)
    returns (piece: Piece)
    requires p < q < |s| && s[q] == ':' && IsId(s[p + 1..q]) && s[p..q + 1] == "{" + s[p + 1..q] + ":"
    requires Select(s[p + 1..q], next) == Ok((k, after)) && k < |args|
    requires var specs := ReadSpecs(s, q + 1, from, args[k].kind);
             specs.Ok? && specs.value.pos < |s| && s[specs.value.pos] == '}'
    ensures !piece.Character? && PieceSuits(piece, next, args)
    ensures s[p..ReadSpecs(s, q + 1, from, args[k].kind).value.pos + 1] == PieceText(piece)
  {
    hide IsId, Select, Allowed, SpecText, ReadSpecs, PieceText, PieceSuits, Sentence, IsNumber;
    var parts := ReadsOnlySentences(s, q + 1, from, args[k].kind);
    var id := s[p + 1..q];
    piece := Specified(id, parts);
    SentenceParts(s, q + 1, from, args[k].kind, parts);
    var end := ReadSpecs(s, q + 1, from, args[k].kind).value.pos;
    SpecifiedPiece(id, parts, next, k, after, args);
    Appended(s, q + 1, end);
    Extended(s, p, q + 1, end + 1, "{" + id + ":", SpecText(parts) + "}");
  }

  /** The id of a field that is written is one of the grammar, and the field is that of its argument. */
  lemma HeadReads<V>(s: string, p: nat, st: Context, args: seq<Arg<V>>, r: Renderer<V>)
    returns (q: nat, k: nat, after: Counter)
    requires p + 1 < |s| && s[p] == '{' && s[p + 1] != '{' && Interpreter.Field(s, p, st, args, r).Ok?
    ensures p < q < |s| && (s[q] == '}' || s[q] == ':') && IsId(s[p + 1..q])
    ensures Select(s[p + 1..q], st.next) == Ok((k, after))
    ensures Interpreter.Field(s, p, st, args, r) == FieldAt(s, q, k, after, st.out, args, r)
  {
    hide ArgId, RefOf, IsId, ResolveArgId, FieldAt, Select;
    var found := if s[p + 1] == '}' then Ok((Auto, p + 1)) else ArgId(s, p + 1);
    q := found.value.1;
    IdStands(s, p + 1, found.value.0, q, st.next);
    SelectsTheSame(s[p + 1..q], st.next);
    k, after := Select(s[p + 1..q], st.next).value.0, Select(s[p + 1..q], st.next).value.1;
  }

  /** An id that is resolved ends before a closing brace or a colon, and is one of the grammar. */
  lemma IdStands(s: string, p: nat, ref: ArgRef, q: nat, next: Counter)
    requires p < |s| && (if s[p] == '}' then Ok((Auto, p)) else ArgId(s, p)) == Ok((ref, q))
    requires ResolveArgId(ref, next).Ok?
    ensures p <= q < |s| && (s[q] == '}' || s[q] == ':') && IsId(s[p..q]) && RefOf(s[p..q]) == ref
  {
    IdEnds(s, p, ref, q, next);
    hide ArgId, RefOf, IsId, ResolveArgId;
    if s[p] == '}' {
      NoId(s, p);
    } else {
      IdRead(s, p, ref, q);
    }
  }

  lemma IdEnds(s: string, p: nat, ref: ArgRef, q: nat, next: Counter)
    requires p < |s| && (if s[p] == '}' then Ok((Auto, p)) else ArgId(s, p)) == Ok((ref, q))
    requires ResolveArgId(ref, next).Ok?
    ensures p <= q < |s| && (s[q] == '}' || s[q] == ':')
  {
    hide RunNumber, RunEnd, NameEnd;
  }

  lemma NoId(s: string, p: nat)
    requires p <= |s|
    ensures IsId(s[p..p]) && RefOf(s[p..p]) == Auto
  {
    assert s[p..p] == "";
  }

  /** A field that is written ends with a closing brace, behind its id or its specifiers. */
  lemma FieldEnds<V>(s: string, q: nat, k: nat, next: Counter, out: string, args: seq<Arg<V>>, r: Renderer<V>)
    requires q < |s| && (s[q] == '}' || s[q] == ':') && FieldAt(s, q, k, next, out, args, r).Ok?
    ensures k < |args|
    ensures s[q] == '}' ==> FieldAt(s, q, k, next, out, args, r).value.1 == q + 1
    ensures s[q] == ':' ==>
              var specs := ReadSpecs(s, q + 1, next, args[k].kind);
              && specs.Ok? && specs.value.pos < |s| && s[specs.value.pos] == '}'
              && FieldAt(s, q, k, next, out, args, r).value.1 == specs.value.pos + 1
  {
    hide ReadSpecs, DynamicNumber, WriteSpecified;
  }

  lemma SentenceParts(s: string, p: nat, next: Counter, kind: ArgType, parts: Parts)
    requires p <= |s|
    requires var end := ReadSpecs(s, p, next, kind);
             end.Ok? && Sentence(s, p, end.value.pos, next, kind, end.value.specs, end.value.next, parts)
    ensures Allowed(parts, kind) && IsNumber(parts.width) && IsNumber(parts.precision)
    ensures var end := ReadSpecs(s, p, next, kind).value.pos;
            p <= end < |s| && s[p..end] == SpecText(parts) && s[end] == '}'
  {
    hide ReadSpecs, SpecText, Meaning;
    AllowedNumbers(parts, kind);
    hide Allowed;
  }

  /** What the interpreter accepts is the text of pieces that suit their arguments. */
  lemma {:induction false} OnlyTexts<V>(s: string, p: nat, st: Context, args: seq<Arg<V>>, r: Renderer<V>)
    returns (pieces: seq<Piece>)
    requires Proper(FormatHandler(args, r)) && p <= |s| && Parse(s, FormatHandler(args, r), p, st).Ok?
    ensures FormatText(pieces) == s[p..] && Suits(pieces, st.next, args, r)
    decreases |s| - p
  {
    hide Parse, PieceSuits, PieceOutput, PieceText, WellFormed, Interpreter.Field;
    if p == |s| {
      pieces := [];
    } else {
      var piece, q := FirstReads(s, p, st, args, r);
      SuitsIsWellFormed(piece, st.next, args);
      var o := PieceOutput(piece, st.next, args, r);
      PieceIsWritten(s, p, piece, st, args, r);
      var rest := OnlyTexts(s, q, Context(o.value.1, st.out + o.value.0), args, r);
      pieces := [piece] + rest;
      assert pieces[1..] == rest;
      assert s[p..q] + s[q..] == s[p..];
    }
  }

  lemma FirstReads<V>(s: string, p: nat, st: Context, args: seq<Arg<V>>, r: Renderer<V>) returns (piece: Piece, q: nat)
    requires Proper(FormatHandler(args, r)) && p < |s| && Parse(s, FormatHandler(args, r), p, st).Ok?
    ensures p < q <= |s| && q == p + |PieceText(piece)| && s[p..q] == PieceText(piece)
    ensures PieceSuits(piece, st.next, args)
  {
    hide Parse, SpecText, Allowed, Select, ArgId, ResolveArgId, FieldAt, IsNumber, IsId;
    ParseUnfolds(s, FormatHandler(args, r), p, st);
    if s[p] == '{' && s[p + 1] != '{' {
      piece := FieldReads(s, p, st, args, r);
      q := p + |PieceText(piece)|;
    } else {
      piece := Character(s[p]);
      q := p + |PieceText(piece)|;
      OneCharacter(s, p);
      if q == p + 2 {
        Prepended(s, p, q);
        OneCharacter(s, p + 1);
      }
    }
  }

  // ---------------------------------------------------------------- format strings

  /**
    A format string is written as its pieces say, errors included: its characters, its fields by
    the arguments that their ids select, each with just its own specifiers.
  */
  lemma WritesEveryText<V>(pieces: seq<Piece>, args: seq<Arg<V>>, r: Renderer<V>)
    requires Suits(pieces, 0, args, r)
    ensures Interpret(FormatText(pieces), args, r) == Output(pieces, 0, args, r)
  {
    HandlerIsProper(args, r);
    hide Parse, Suits, Output, FormatText;
    var text, o := FormatText(pieces), Output(pieces, 0, args, r);
    var next := TextIsWritten("", pieces, "", Context(0, ""), args, r);
    assert "" + text + "" == text && |"" + text| == |text|;
    if o.Ok? {
      assert "" + o.value == o.value;
      ParseEnds(text, FormatHandler(args, r), Context(next, o.value));
    }
  }

  /**
    A closing brace that no other follows is refused, and so is an opening one at the end, once
    what stands before has been written.
  */
  lemma LoneBraces<V>(pieces: seq<Piece>, behind: string, args: seq<Arg<V>>, r: Renderer<V>)
    requires Suits(pieces, 0, args, r) && Output(pieces, 0, args, r).Ok?
    ensures behind == "" || behind[0] != '}' ==>
              Interpret(FormatText(pieces) + ("}" + behind), args, r) == Err("unmatched '}' in format string")
    ensures Interpret(FormatText(pieces) + "{", args, r) == Err("invalid format string")
  {
    HandlerIsProper(args, r);
    hide Parse, Suits, Output, FormatText;
    var h, text := FormatHandler(args, r), FormatText(pieces);
    var o := Output(pieces, 0, args, r).value;
    var n1 := TextIsWritten("", pieces, "}" + behind, Context(0, ""), args, r);
    var n2 := TextIsWritten("", pieces, "{", Context(0, ""), args, r);
    var s1, s2 := text + ("}" + behind), text + "{";
    assert "" + text + ("}" + behind) == s1 && "" + text + "{" == s2 && |"" + text| == |text|;
    ParseUnfolds(s1, h, |text|, Context(n1, "" + o));
    ParseUnfolds(s2, h, |text|, Context(n2, "" + o));
    assert s1[|text|] == '}' && (behind != "" ==> s1[|text| + 1] == behind[0]);
  }

  /** Only such strings are accepted. */
  lemma AcceptsOnlyTexts<V>(s: string, args: seq<Arg<V>>, r: Renderer<V>) returns (pieces: seq<Piece>)
    requires Interpret(s, args, r).Ok?
    ensures FormatText(pieces) == s && Suits(pieces, 0, args, r) && Interpret(s, args, r) == Output(pieces, 0, args, r)
  {
    HandlerIsProper(args, r);
    pieces := OnlyTexts(s, 0, Context(0, ""), args, r);
    assert s[0..] == s;
    WritesEveryText(pieces, args, r);
  }

  /** vformat_to, with its shortcut for "{}". */
  method VFormatTo<V>(s: string, args: seq<Arg<V>>, r: Renderer<V>) returns (result: Result<string>)
    ensures result == Interpret(s, args, r)
    ensures forall pieces :: FormatText(pieces) == s && Suits(pieces, 0, args, r) ==> result == Output(pieces, 0, args, r)
    ensures result.Ok? ==> exists pieces :: FormatText(pieces) == s && Suits(pieces, 0, args, r)
  {
    HandlerIsProper(args, r);
    forall pieces | FormatText(pieces) == s && Suits(pieces, 0, args, r)
      ensures Interpret(s, args, r) == Output(pieces, 0, args, r)
    {
      WritesEveryText(pieces, args, r);
    }
    if Interpret(s, args, r).Ok? {
      ghost var pieces := AcceptsOnlyTexts(s, args, r);
    }
    hide FormatText, Suits, Output;
    var h := FormatHandler(args, r);
    if |s| == 2 && s[0] == '{' && s[1] == '}' {
      assert s == "{}";
      ShortcutAgrees(args, r);
      if |args| == 0 { return Err(NOT_FOUND); }
      result := r.plain(args[0]);
      return;
    }
    var final := ParseFormatString(s, h, Context(0, ""));
    result := if final.Ok? then Ok(final.value.out) else Err(final.message);
  }
}
