/** What compiled format strings write, misread ones included, said apart from compilation and its trees. */
module CompiledTexts {
  import opened Results
  import opened FormatString
  import opened FormatSpecs
  import opened Interpreter
  import opened SpecTexts
  import opened FormatTexts
  import opened Compiler

  // ---------------------------------------------------------------- the grammar

  /** A piece of a format string, or a closing brace with the character behind it, whatever that is. */
  datatype LoosePiece = Whole(piece: Piece) | Lone(behind: char)

  function LooseText(l: LoosePiece): string {
    match l
    case Whole(piece) => PieceText(piece)
    case Lone(c) => ['}', c]
  }

  function LooseFormatText(ls: seq<LoosePiece>): string {
    if ls == [] then "" else LooseText(ls[0]) + LooseFormatText(ls[1..])
  }

  /**
    What a field with specifiers writes when it is compiled, and the counter behind it. In a
    numbered field automatic widths and precisions count from 0.
  */
  function CompiledOutput<V>(k: nat, parts: Parts, after: Counter, args: seq<Arg<V>>, r: Renderer<V>)
    : Result<(string, Counter)>
    requires k < |args| && IsNumber(parts.width) && IsNumber(parts.precision)
  {
    var (text, behind) :- SpecifiedOutput(k, parts, if after == -1 then 0 else after, args, r);
    Ok((text, if after == -1 then after else behind))
  }

  /** What a piece writes. A closing brace stands for itself and hides the character behind it. */
  function LooseOutput<V>(l: LoosePiece, next: Counter, args: seq<Arg<V>>, r: Renderer<V>): Result<(string, Counter)>
    requires l.Whole? ==> WellFormed(l.piece)
  {
    if l.Lone? then Ok(("}", next))
    else if !l.piece.Specified? then PieceOutput(l.piece, next, args, r)
    else
      var (k, after) :- Select(l.piece.id, next);
      if k >= |args| then Err("argument not found") else CompiledOutput(k, l.piece.parts, after, args, r)
  }

  predicate LooseSuits<V>(ls: seq<LoosePiece>, next: Counter, args: seq<Arg<V>>, r: Renderer<V>) {
    ls != [] ==>
      && (ls[0].Whole? ==> PieceSuits(ls[0].piece, next, args))
      && var o := LooseOutput(ls[0], next, args, r);
         o.Ok? ==> LooseSuits(ls[1..], o.value.1, args, r)
  }

  function LooseOutputs<V>(ls: seq<LoosePiece>, next: Counter, args: seq<Arg<V>>, r: Renderer<V>): Result<string>
    requires LooseSuits(ls, next, args, r)
  {
    if ls == [] then Ok("")
    else
      var (text, after) :- LooseOutput(ls[0], next, args, r);
      var rest :- LooseOutputs(ls[1..], after, args, r);
      Ok(text + rest)
  }

  // ---------------------------------------------------------------- the rest of a compiled string

  /** What is compiled from pos on and writes something. */
  ghost function Rest<V>(s: string, pos: nat, id: Counter, args: seq<Arg<V>>, r: Renderer<V>): Result<string>
    requires pos <= |s|
  {
    if pos == |s| then Ok("")
    else
      var c := CompileFormatString(s, pos, id, Kinds(args));
      if Writes(c, args, r) then Format(c.value.tree, args, r) else Err("")
  }

  /** Text in front of something written, or nothing. */
  function InFront(text: Result<string>, rest: Result<string>): Result<string> {
    if text.Ok? && rest.Ok? then Ok(text.value + rest.value) else Err("")
  }

  ghost function Written<V>(c: Result<Compiled>, args: seq<Arg<V>>, r: Renderer<V>): Result<string> {
    if Writes(c, args, r) then Format(c.value.tree, args, r) else Err("")
  }

  lemma TailWrites<V>(head: Tree, s: string, pos: nat, id: Counter, args: seq<Arg<V>>, r: Renderer<V>)
    requires pos <= |s|
    ensures Written(CompileTail(head, s, pos, id, Kinds(args)), args, r)
         == InFront(Format(head, args, r), Rest(s, pos, id, args, r))
  {
    hide CompileFormatString;
    var f := Format(head, args, r);
    if pos == |s| && f.Ok? {
      assert f.value + "" == f.value;
    }
  }

  lemma TextContinues(s: string, p: nat)
    requires p + 1 < |s| && s[p + 1] != '{' && s[p + 1] != '}'
    ensures TextEnd(s, p + 1) == TextEnd(s, p + 2) > p + 1
  {
  }

  lemma RestOfText<V>(s: string, p: nat, id: Counter, args: seq<Arg<V>>, r: Renderer<V>)
    requires p < |s| && s[p] != '{' && s[p] != '}'
    ensures var end := TextEnd(s, p + 1); Rest(s, p, id, args, r) == InFront(Ok(s[p..end]), Rest(s, end, id, args, r))
  {
    hide CompileTail, TextEnd;
    var end := TextEnd(s, p + 1);
    OneCharacter(s, p);
    TailWrites(if end - p > 1 then Text(s[p..end]) else CodeUnit(s[p]), s, end, id, args, r);
    hide Rest;
    RestIs(s, p, id, args, r);
  }

  lemma RestIs<V>(s: string, p: nat, id: Counter, args: seq<Arg<V>>, r: Renderer<V>)
    requires p < |s|
    ensures Rest(s, p, id, args, r) == Written(CompileFormatString(s, p, id, Kinds(args)), args, r)
  {
    hide CompileFormatString;
  }

  /** Compiled text is written character by character. */
  lemma RestOfCharacter<V>(s: string, p: nat, id: Counter, args: seq<Arg<V>>, r: Renderer<V>)
    requires p < |s| && s[p] != '{' && s[p] != '}'
    ensures Rest(s, p, id, args, r) == InFront(Ok([s[p]]), Rest(s, p + 1, id, args, r))
  {
    hide Rest, TextEnd;
    RestOfText(s, p, id, args, r);
    OneCharacter(s, p);
    if p + 1 < |s| && s[p + 1] != '{' && s[p + 1] != '}' {
      TextContinues(s, p);
      RestOfText(s, p + 1, id, args, r);
      var end := TextEnd(s, p + 1);
      var rest := Rest(s, end, id, args, r);
      Prepended(s, p, end);
      if rest.Ok? {
        assert ([s[p]] + s[p + 1..end]) + rest.value == [s[p]] + (s[p + 1..end] + rest.value);
      }
    } else {
      TextStops(s, p);
    }
  }

  lemma TextStops(s: string, p: nat)
    requires p < |s| && (p + 1 == |s| || s[p + 1] == '{' || s[p + 1] == '}')
    ensures TextEnd(s, p + 1) == p + 1
  {
  }

  lemma RestOfBrace<V>(s: string, p: nat, id: Counter, args: seq<Arg<V>>, r: Renderer<V>)
    requires p < |s| && (s[p] == '}' || (s[p] == '{' && p + 1 < |s| && s[p + 1] == '{'))
    ensures p + 1 == |s| ==> Rest(s, p, id, args, r) == Err("")
    ensures p + 1 < |s| ==> Rest(s, p, id, args, r) == InFront(Ok([s[p]]), Rest(s, p + 2, id, args, r))
  {
    OneCharacter(s, p);
    hide CompileTail;
    RestIs(s, p, id, args, r);
    if p + 1 < |s| {
      TailWrites(Text(s[p..p + 1]), s, p + 2, id, args, r);
    }
    hide Rest;
  }

  // ---------------------------------------------------------------- fields

  /** compile_format_string at a field whose id is read. */
  lemma HeadUnfolds(s: string, p: nat, ref: ArgRef, q: nat, next: Counter, kinds: seq<ArgType>)
    requires p + 1 <= q < |s| && s[p] == '{' && s[p + 1] != '{' && (s[q] == '}' || s[q] == ':')
    requires (if s[p + 1] == '}' || s[p + 1] == ':' then Ok((Auto, p + 1)) else ArgId(s, p + 1)) == Ok((ref, q))
    requires ref.Auto? ==> q == p + 1
    ensures var k, c := ResolveArgId(ref, next), CompileFormatString(s, p, next, kinds);
            && (k.Ok? ==> c == CompileField(s, q, k.value.0, k.value.1, kinds))
            && (k.Err? ==> c.Err? || c.value.UnknownFormat? ||
                           (ref.Name? && c == CompileTail(RuntimeNamed(ref.name), s, q + 1, next, kinds)))
  {
    hide CompileField, CompileTail, ArgId;
  }

  /** A field is compiled for the argument that its id selects; without one nothing is written. */
  lemma HeadCompiles<V>(s: string, p: nat, q: nat, next: Counter, args: seq<Arg<V>>, r: Renderer<V>)
    requires p < q < |s| && s[p] == '{' && IsId(s[p + 1..q]) && (s[q] == '}' || s[q] == ':')
    ensures var k := Select(s[p + 1..q], next);
            && (k.Ok? ==> CompileFormatString(s, p, next, Kinds(args)) ==
                            CompileField(s, q, k.value.0, k.value.1, Kinds(args)))
            && (k.Err? ==> Rest(s, p, next, args, r) == Err(""))
  {
    hide CompileField, CompileTail, CompileFormatString, IsId, ArgId, RefOf, Select, ResolveArgId, Rest;
    RestIs(s, p, next, args, r);
    var id := s[p + 1..q];
    IdIsRead(s, p, id);
    SelectsTheSame(id, next);
    if s[p + 1] == ':' { NothingBeforeColon(s, p + 1); }
    OnlyEmptyIsAuto(id);
    HeadUnfolds(s, p, RefOf(id), q, next, Kinds(args));
    if RefOf(id).Name? {
      TailWrites(RuntimeNamed(RefOf(id).name), s, q + 1, next, args, r);
    }
  }

  lemma OnlyEmptyIsAuto(id: string)
    requires IsId(id)
    ensures RefOf(id).Auto? ==> id == ""
  {
  }

  lemma NothingBeforeColon(s: string, p: nat)
    requires p < |s| && s[p] == ':'
    ensures ArgId(s, p) == Ok((Auto, p))
  {
  }

  lemma PlainCompiles<V>(s: string, q: nat, k: nat, after: Counter, args: seq<Arg<V>>, r: Renderer<V>)
    requires q < |s| && s[q] == '}'
    ensures Written(CompileField(s, q, k, after, Kinds(args)), args, r) ==
            if k < |args| then InFront(r.plain(args[k]), Rest(s, q + 1, after, args, r)) else Err("")
  {
    hide CompileTail, Rest;
    if k < |args| { TailWrites(Plain(k), s, q + 1, after, args, r); }
  }

  lemma WritesMeaning<V>(k: nat, parts: Parts, next: Counter, specs: Specs, after: Counter,
                         args: seq<Arg<V>>, r: Renderer<V>)
    requires k < |args| && IsNumber(parts.width) && IsNumber(parts.precision) && !parts.align.Numeric?
    requires Meaning(parts, next) == Ok((specs, after))
    ensures var o := MeantOutput(k, parts, specs, after, args, r);
            && WriteSpecified(args, r, args[k], specs) == (if o.Ok? then Ok(o.value.0) else Err(o.message))
            && (o.Ok? ==> o.value.1 == after && (args[k].kind.CharType? ==> CharSpecsAllowed(specs)))
  {
    AmountIs(specs.width, "width", args, r);
    AmountIs(specs.precision, "precision", args, r);
    CharacterChecked(parts, next, args[k].kind);
    hide Meaning, IsNumber, Amount, DynamicNumber, BadForChar, CharSpecsAllowed;
  }

  lemma SpecifiedCompiles<V>(s: string, q: nat, k: nat, parts: Parts, after: Counter, args: seq<Arg<V>>, r: Renderer<V>)
    requires k < |args| && Allowed(parts, args[k].kind) && after != 0
    requires q < |s| && s[q] == ':' && StandsAt(s, q + 1, SpecText(parts))
    ensures IsNumber(parts.width) && IsNumber(parts.precision)
    ensures q + 2 + |SpecText(parts)| <= |s|
    ensures var o, end := CompiledOutput(k, parts, after, args, r), q + 2 + |SpecText(parts)|;
            Written(CompileField(s, q, k, after, Kinds(args)), args, r) ==
            if o.Ok? then InFront(Ok(o.value.0), Rest(s, end, o.value.1, args, r)) else Err("")
  {
    hide ReadSpecs, Allowed, StandsAt, SpecText, Meaning, IsNumber, SpecifiedOutput, MeantOutput, WriteSpecified, Rest,
      CompileTail, CharSpecsAllowed;
    var kind, next := args[k].kind, if after == -1 then 0 else after;
    ReadsEverySpecifier(s, q + 1, parts, next, kind);
    AllowedNumbers(parts, kind);
    AllowedMarks(parts, kind);
    BraceBehind(s, q + 1, SpecText(parts));
    OutputFollowsMeaning(k, parts, next, args, r);
    var m := Meaning(parts, next);
    if m.Ok? {
      WritesMeaning(k, parts, next, m.value.0, m.value.1, args, r);
      TailWrites(Tree.Specified(k, m.value.0), s, q + 2 + |SpecText(parts)|, if after == -1 then after else m.value.1,
                 args, r);
    }
  }

  // ---------------------------------------------------------------- every text is written

  lemma CounterMoves(id: string, next: Counter)
    requires IsId(id) && Select(id, next).Ok?
    ensures Select(id, next).value.1 != 0
  {
    hide FitsInt, IsName, IsIndex;
  }

  lemma LooseFieldOutput<V>(piece: Piece, next: Counter, args: seq<Arg<V>>, r: Renderer<V>)
    requires !piece.Character? && WellFormed(piece)
    ensures var k, o := Select(piece.id, next), LooseOutput(Whole(piece), next, args, r);
            if k.Err? then o.Err?
            else if k.value.0 >= |args| then o.Err?
            else if piece.Specified? then o == CompiledOutput(k.value.0, piece.parts, k.value.1, args, r)
            else o == PieceOutput(piece, next, args, r)
  {
    hide Select, CompiledOutput, SpecifiedOutput, IsNumber, IsId;
  }

  /** What stands behind the id of a compiled field, for an argument that there is. */
  lemma BodyIsCompiled<V>(s: string, q: nat, piece: Piece, rest: string, k: nat, after: Counter,
                          args: seq<Arg<V>>, r: Renderer<V>)
    requires !piece.Character? && k < |args| && after != 0 && (piece.Specified? ==> Allowed(piece.parts, args[k].kind))
    requires rest == if piece.Field? then "}" else ":" + SpecText(piece.parts) + "}"
    requires |rest| == (if piece.Field? then 1 else |SpecText(piece.parts)| + 2)
    requires q + |rest| <= |s| && s[q..q + |rest|] == rest && s[q] == (if piece.Field? then '}' else ':')
    ensures piece.Specified? ==> IsNumber(piece.parts.width) && IsNumber(piece.parts.precision)
    ensures var written, end := Written(CompileField(s, q, k, after, Kinds(args)), args, r), q + |rest|;
            if piece.Field? then written == InFront(r.plain(args[k]), Rest(s, end, after, args, r))
            else
              var o := CompiledOutput(k, piece.parts, after, args, r);
              written == if o.Ok? then InFront(Ok(o.value.0), Rest(s, end, o.value.1, args, r)) else Err("")
  {
    hide SpecText, CompiledOutput, CompileField, Allowed, IsNumber, StandsAt, Rest, Written;
    if piece.Specified? {
      SpecStands(s, q, SpecText(piece.parts), rest);
      SpecifiedCompiles(s, q, k, piece.parts, after, args, r);
    } else {
      PlainCompiles(s, q, k, after, args, r);
    }
  }

  lemma FieldIsCompiled<V>(s: string, p: nat, piece: Piece, next: Counter, args: seq<Arg<V>>, r: Renderer<V>)
    requires !piece.Character? && PieceSuits(piece, next, args)
    requires p + |PieceText(piece)| <= |s| && s[p..p + |PieceText(piece)|] == PieceText(piece)
    ensures WellFormed(piece)
    ensures var o, q := LooseOutput(Whole(piece), next, args, r), p + |PieceText(piece)|;
            && p < q
            && Rest(s, p, next, args, r) ==
               if o.Ok? then InFront(Ok(o.value.0), Rest(s, q, o.value.1, args, r)) else Err("")
  {
    hide SpecText, IsId, Select, CompiledOutput, SpecifiedOutput, Allowed, IsNumber, CompileField, CompileFormatString,
      Rest, PieceText, PieceSuits, PieceOutput, WellFormed, LooseOutput, StandsAt, Written;
    var rest := FieldParts(piece, next, args, r);
    FieldSplits(s, p, piece.id, rest);
    var k, q := Select(piece.id, next), p + 1 + |piece.id|;
    HeadCompiles(s, p, q, next, args, r);
    RestIs(s, p, next, args, r);
    LooseFieldOutput(piece, next, args, r);
    if k.Ok? {
      CounterMoves(piece.id, next);
      if k.value.0 < |args| {
        BodyIsCompiled(s, q, piece, rest, k.value.0, k.value.1, args, r);
      } else {
        NotCompiled(s, q, k.value.0, k.value.1, args, r);
      }
    }
  }

  lemma NotCompiled<V>(s: string, q: nat, k: nat, after: Counter, args: seq<Arg<V>>, r: Renderer<V>)
    requires q < |s| && k >= |args|
    ensures Written(CompileField(s, q, k, after, Kinds(args)), args, r) == Err("")
  {
  }

  lemma LooseIsCompiled<V>(s: string, p: nat, l: LoosePiece, next: Counter, args: seq<Arg<V>>, r: Renderer<V>)
    requires l.Whole? ==> PieceSuits(l.piece, next, args)
    requires p + |LooseText(l)| <= |s| && s[p..p + |LooseText(l)|] == LooseText(l)
    ensures l.Whole? ==> WellFormed(l.piece)
    ensures var o, q := LooseOutput(l, next, args, r), p + |LooseText(l)|;
            && p < q
            && Rest(s, p, next, args, r) ==
               if o.Ok? then InFront(Ok(o.value.0), Rest(s, q, o.value.1, args, r)) else Err("")
  {
    hide SpecText, Select, CompiledOutput, Allowed, IsNumber, IsId, Rest;
    if l.Whole? && !l.piece.Character? {
      FieldIsCompiled(s, p, l.piece, next, args, r);
    } else {
      var text := LooseText(l);
      assert s[p] == s[p..p + |text|][0];
      assert |text| == 2 ==> s[p + 1] == s[p..p + |text|][1];
      if |text| == 2 {
        RestOfBrace(s, p, next, args, r);
      } else {
        RestOfCharacter(s, p, next, args, r);
      }
    }
  }

  lemma RestAtEnd<V>(s: string, next: Counter, args: seq<Arg<V>>, r: Renderer<V>)
    ensures Rest(s, |s|, next, args, r) == Ok("")
  {
  }

  lemma {:induction false} LooseTextIsCompiled<V>(before: string, ls: seq<LoosePiece>, next: Counter,
                                                  args: seq<Arg<V>>, r: Renderer<V>)
    requires LooseSuits(ls, next, args, r)
    ensures var o := LooseOutputs(ls, next, args, r);
            Rest(before + LooseFormatText(ls), |before|, next, args, r) == if o.Ok? then o else Err("")
    decreases |ls|
  {
    hide LooseText, LooseOutput, PieceSuits, WellFormed, Rest, CompileFormatString;
    var s, p := before + LooseFormatText(ls), |before|;
    if ls == [] {
      RestAtEnd(s, next, args, r);
    } else {
      var text, rest := LooseText(ls[0]), LooseFormatText(ls[1..]);
      if ls[0].Whole? { SuitsIsWellFormed(ls[0].piece, next, args); }
      assert s == (before + text) + rest;
      assert s[p..p + |text|] == text;
      LooseIsCompiled(s, p, ls[0], next, args, r);
      var o := LooseOutput(ls[0], next, args, r);
      if o.Ok? {
        LooseTextIsCompiled(before + text, ls[1..], o.value.1, args, r);
      }
    }
  }

  // ---------------------------------------------------------------- nothing else is

  lemma {:induction false} OnlyLooseTexts<V>(s: string, p: nat, next: Counter, args: seq<Arg<V>>, r: Renderer<V>)
    returns (ls: seq<LoosePiece>)
    requires p <= |s| && Rest(s, p, next, args, r).Ok?
    ensures LooseFormatText(ls) == s[p..] && LooseSuits(ls, next, args, r)
    decreases |s| - p
  {
    hide Rest, LooseText, LooseOutput, PieceSuits, WellFormed;
    if p == |s| {
      ls := [];
    } else {
      var l := FirstIsLoose(s, p, next, args, r);
      var q := p + |LooseText(l)|;
      LooseIsCompiled(s, p, l, next, args, r);
      var rest := OnlyLooseTexts(s, q, LooseOutput(l, next, args, r).value.1, args, r);
      ls := [l] + rest;
      assert ls[1..] == rest;
      assert s[p..q] + s[q..] == s[p..];
    }
  }

  lemma FirstIsLoose<V>(s: string, p: nat, next: Counter, args: seq<Arg<V>>, r: Renderer<V>) returns (l: LoosePiece)
    requires p < |s| && Rest(s, p, next, args, r).Ok?
    ensures p + |LooseText(l)| <= |s| && s[p..p + |LooseText(l)|] == LooseText(l)
    ensures l.Whole? ==> PieceSuits(l.piece, next, args)
  {
    hide Rest, SpecText, Allowed, Select, IsNumber, IsId;
    OneCharacter(s, p);
    if s[p] == '}' {
      RestOfBrace(s, p, next, args, r);
      l := Lone(s[p + 1]);
      assert s[p..p + 2] == ['}', s[p + 1]];
    } else if s[p] != '{' {
      l := Whole(Character(s[p]));
    } else {
      OpeningGoesOn(s, p, next, args, r);
      if s[p + 1] == '{' {
        l := Whole(Character('{'));
        assert s[p..p + 2] == "{{";
      } else {
        var piece := FieldIsLoose(s, p, next, args, r);
        l := Whole(piece);
      }
    }
  }

  lemma OpeningGoesOn<V>(s: string, p: nat, next: Counter, args: seq<Arg<V>>, r: Renderer<V>)
    requires p < |s| && s[p] == '{' && Rest(s, p, next, args, r).Ok?
    ensures p + 1 < |s|
  {
  }

  /** The id of a compiled field is one of the grammar and selects an argument. */
  lemma HeadIsLoose<V>(s: string, p: nat, next: Counter, args: seq<Arg<V>>, r: Renderer<V>)
    returns (q: nat, k: nat, after: Counter)
    requires p + 1 < |s| && s[p] == '{' && s[p + 1] != '{' && Rest(s, p, next, args, r).Ok?
    ensures p < q < |s| && (s[q] == '}' || s[q] == ':') && IsId(s[p + 1..q])
    ensures Select(s[p + 1..q], next) == Ok((k, after))
    ensures Written(CompileField(s, q, k, after, Kinds(args)), args, r).Ok?
  {
    hide CompileField, CompileTail, IsId, RefOf, Select, Rest;
    RestIs(s, p, next, args, r);
    if s[p + 1] == '}' || s[p + 1] == ':' {
      q := p + 1;
      NoId(s, q);
    } else {
      var found := ArgId(s, p + 1).value;
      q := found.1;
      IdRead(s, p + 1, found.0, q);
    }
    HeadCompiles(s, p, q, next, args, r);
    k, after := Select(s[p + 1..q], next).value.0, Select(s[p + 1..q], next).value.1;
  }

  lemma FieldIsLoose<V>(s: string, p: nat, next: Counter, args: seq<Arg<V>>, r: Renderer<V>) returns (piece: Piece)
    requires p + 1 < |s| && s[p] == '{' && s[p + 1] != '{' && Rest(s, p, next, args, r).Ok?
    ensures p + |PieceText(piece)| <= |s| && s[p..p + |PieceText(piece)|] == PieceText(piece)
    ensures PieceSuits(piece, next, args)
  {
    hide IsId, Select, Allowed, SpecText, PieceText, PieceSuits, Rest, CompileTail, ReadSpecs;
    var q, k, after := HeadIsLoose(s, p, next, args, r);
    Reassembled(s, p, q, s[p + 1..q]);
    if s[q] == '}' {
      piece := Piece.Field(s[p + 1..q]);
      FieldPiece(s[p + 1..q], next, args);
    } else {
      var from := if after == -1 then 0 else after;
      piece := SpecifiedReads(s, p, q, k, next, after, from, args);
    }
  }

  // ---------------------------------------------------------------- format strings

  /** A string is compiled and written exactly as its rest from the start is. */
  lemma CompiledIsRest<V>(s: string, args: seq<Arg<V>>, r: Renderer<V>)
    ensures var c, rest := FormatCompiled(s, args, r), Rest(s, 0, 0, args, r);
            (c.Ok? <==> rest.Ok?) && (c.Ok? ==> c == rest)
  {
    hide CompileFormatString, Parse, Misread;
    HandlerIsProper(args, r);
    if s == "{}" {
      assert s[0..2] == PieceText(Piece.Field(""));
      FieldIsCompiled(s, 0, Piece.Field(""), 0, args, r);
      if |args| > 0 && r.plain(args[0]).Ok? {
        var text := r.plain(args[0]).value;
        assert text + "" == text;
      }
    } else if s != "" {
      StringAgrees(s, 0, Context(0, ""), args, r);
    }
  }

  /**
    A compiled format string writes what its loose pieces do: every text that they make up is
    compiled and written so if they write anything, and nothing else is.
  */
  lemma CompiledWrites<V>(s: string, args: seq<Arg<V>>, r: Renderer<V>, text: string)
    ensures FormatCompiled(s, args, r) == Ok(text) <==>
            exists ls ::
              && LooseFormatText(ls) == s && LooseSuits(ls, 0, args, r)
              && LooseOutputs(ls, 0, args, r) == Ok(text)
  {
    hide Rest, FormatCompiled, LooseFormatText, LooseSuits, LooseOutputs;
    CompiledIsRest(s, args, r);
    if FormatCompiled(s, args, r) == Ok(text) {
      var ls := OnlyLooseTexts(s, 0, 0, args, r);
      assert s[0..] == s;
      AllCompiled(ls, args, r);
    }
    forall ls | LooseFormatText(ls) == s && LooseSuits(ls, 0, args, r) && LooseOutputs(ls, 0, args, r) == Ok(text)
      ensures FormatCompiled(s, args, r) == Ok(text)
    {
      AllCompiled(ls, args, r);
    }
  }

  lemma AllCompiled<V>(ls: seq<LoosePiece>, args: seq<Arg<V>>, r: Renderer<V>)
    requires LooseSuits(ls, 0, args, r)
    ensures var o := LooseOutputs(ls, 0, args, r);
            Rest(LooseFormatText(ls), 0, 0, args, r) == if o.Ok? then o else Err("")
  {
    LooseTextIsCompiled("", ls, 0, args, r);
    hide Rest, LooseFormatText, LooseSuits, LooseOutputs;
    assert "" + LooseFormatText(ls) == LooseFormatText(ls);
  }
}
