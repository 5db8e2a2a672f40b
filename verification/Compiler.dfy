/**
  compile: format strings turned into trees of text and fields before any argument is known, and
  what the trees write, compared with the interpreter.
*/
module Compiler {
  import opened Results
  import opened FormatString
  import opened FormatSpecs
  import opened Interpreter
  import FormatTexts

  // ---------------------------------------------------------------- trees

  datatype Tree =
    | Text(data: string)
    | CodeUnit(value: char)
    | Plain(arg: nat)
    | Specified(arg: nat, specs: Specs)
    | RuntimeNamed(name: string)
    | Concat(left: Tree, right: Tree)

  /** The result of a compilation; a field that cannot be compiled makes the whole unknown. */
  datatype Compiled = Known(tree: Tree) | UnknownFormat

  /** What a tree writes for given arguments. */
  function Format<V>(tree: Tree, args: seq<Arg<V>>, r: Renderer<V>): Result<string> {
    match tree
    case Text(data) => Ok(data)
    case CodeUnit(c) => Ok([c])
    case Plain(id) => if id >= |args| then Err(NOT_FOUND) else r.plain(args[id])
    case Specified(id, specs) => if id >= |args| then Err(NOT_FOUND) else WriteSpecified(args, r, args[id], specs)
    case RuntimeNamed(_) => Err("argument with specified name is not found")
    case Concat(left, right) =>
      var a :- Format(left, args, r);
      var b :- Format(right, args, r);
      Ok(a + b)
  }

  function Kinds<V>(args: seq<Arg<V>>): (kinds: seq<ArgType>)
    ensures |kinds| == |args| && forall i :: 0 <= i < |args| ==> kinds[i] == args[i].kind
  {
    seq(|args|, i requires 0 <= i < |args| => args[i].kind)
  }

  // ---------------------------------------------------------------- compilation

  /** Where the text that starts before pos ends. */
  function TextEnd(s: string, pos: nat): (end: nat)
    requires pos <= |s|
    ensures pos <= end <= |s| && NoBraces(s[pos..end])
    ensures end < |s| ==> s[end] == '{' || s[end] == '}'
    decreases |s| - pos
  {
    if pos == |s| || s[pos] == '{' || s[pos] == '}' then pos
    else
      var end := TextEnd(s, pos + 1);
      assert s[pos..end] == [s[pos]] + s[pos + 1..end];
      end
  }

  /** parse_text */
  method ParseText(s: string, pos: nat) returns (end: nat)
    requires pos <= |s|
    ensures end == TextEnd(s, pos)
  {
    end := pos;
    while end != |s|
      invariant pos <= end <= |s| && TextEnd(s, end) == TextEnd(s, pos)
      decreases |s| - end
    {
      if s[end] == '{' || s[end] == '}' { break; }
      end := end + 1;
    }
  }

  /**
    parse_specs: the specifiers, with the id that the rest of the string starts from. The counter
    0 stands for manual indexing, which makes the parser forget that it is in that mode.
  */
  function CompileSpecs(s: string, pos: nat, next: nat, kind: ArgType): (result: Result<(Specs, nat, Counter)>)
    requires pos <= |s|
    ensures result.Ok? ==> pos <= result.value.1 <= |s|
  {
    var st :- ReadSpecs(s, pos, next, kind);
    if kind.CharType? && !CharSpecsAllowed(st.specs) then Err(INVALID_FOR_CHAR)
    else if next == 0 then
      var manual: Counter := -1;
      Ok((st.specs, st.pos, manual))
    else
      Ok((st.specs, st.pos, st.next))
  }

  /** parse_tail: the head followed by whatever the rest compiles to. */
  function CompileTail(head: Tree, s: string, pos: nat, id: Counter, kinds: seq<ArgType>): Result<Compiled>
    requires pos <= |s|
    decreases |s| - pos, 1
  {
    if pos == |s| then Ok(Known(head))
    else
      var tail :- CompileFormatString(s, pos, id, kinds);
      if tail.UnknownFormat? then Ok(UnknownFormat) else Ok(Known(Concat(head, tail.tree)))
  }

  /** parse_replacement_field_then_tail for argument `arg`, whose id ends at `end`. */
  function CompileField(s: string, end: nat, arg: nat, next: Counter, kinds: seq<ArgType>): Result<Compiled>
    requires end <= |s|
    decreases |s| - end, 2
  {
    if arg >= |kinds| then Err("index is out of bounds")
    else
      var c := if end < |s| then s[end] else '\0';
      if c == '}' then CompileTail(Plain(arg), s, end + 1, next, kinds)
      else if c != ':' then Err("expected ':'")
      else
        var (specs, q, after) :- CompileSpecs(s, end + 1, if next == -1 then 0 else next, kinds[arg]);
        if q >= |s| || s[q] != '}' then Err("expected '}'")
        else CompileTail(Specified(arg, specs), s, q + 1, after, kinds)
  }

  /** compile_format_string from position pos on, with the next automatic id. */
  function CompileFormatString(s: string, pos: nat, id: Counter, kinds: seq<ArgType>): Result<Compiled>
    requires pos < |s|
    decreases |s| - pos, 0
  {
    if s[pos] == '{' then
      if pos + 1 == |s| then Err("unmatched '{' in format string")
      else if s[pos + 1] == '{' then CompileTail(Text(s[pos..pos + 1]), s, pos + 2, id, kinds)
      else if s[pos + 1] == '}' || s[pos + 1] == ':' then
        if id == -1 then Err(SWITCH_TO_AUTOMATIC)
        else CompileField(s, pos + 1, id, id + 1, kinds)
      else
        var (ref, q) :- ArgId(s, pos + 1);
        if q == |s| || (s[q] != '}' && s[q] != ':') then Err("missing '}' in format string")
        else if ref.Index? then
          if id > 0 then Err(SWITCH_TO_MANUAL) else CompileField(s, q, ref.id, -1, kinds)
        else if s[q] == '}' && ref.Name? then CompileTail(RuntimeNamed(ref.name), s, q + 1, id, kinds)
        else Ok(UnknownFormat)
    else if s[pos] == '}' then
      if pos + 1 == |s| then Err(UNMATCHED)
      else CompileTail(Text(s[pos..pos + 1]), s, pos + 2, id, kinds)
    else
      var end := TextEnd(s, pos + 1);
      if end - pos > 1 then CompileTail(Text(s[pos..end]), s, end, id, kinds)
      else CompileTail(CodeUnit(s[pos]), s, end, id, kinds)
  }

  /** compile */
  function Compile(s: string, kinds: seq<ArgType>): Result<Compiled> {
    if s == "" then Ok(Known(Text(""))) else CompileFormatString(s, 0, 0, kinds)
  }

  /** format of a compiled string, with its shortcut for "{}" and its fall-back. */
  ghost function FormatCompiled<V>(s: string, args: seq<Arg<V>>, r: Renderer<V>): Result<string> {
    if s == "{}" then
      if |args| == 0 then Err("no argument") else r.plain(args[0])
    else
      var compiled :- Compile(s, Kinds(args));
      if compiled.UnknownFormat? then Interpret(s, args, r) else Format(compiled.tree, args, r)
  }

  // ---------------------------------------------------------------- specifiers under manual indexing

  predicate Forgets(st: SpecState) {
    st.next == 0 || st.next == -1
  }

  /**
    Whatever specifiers parse to under manual indexing, they parse to with the counter at 0 as
    well. The other way round they are refused if and only if they use an automatic id, which
    leaves the counter above 0.
  */
  predicate SameButForSwitch(manual: Result<SpecState>, forgetful: Result<SpecState>) {
    if forgetful.Err? then manual == forgetful || manual == Err(SWITCH_TO_AUTOMATIC)
    else if Forgets(forgetful.value) then manual == Ok(forgetful.value.(next := -1))
    else manual == Err(SWITCH_TO_AUTOMATIC)
  }

  lemma ManualDynamic(s: string, p: nat, d: Dynamic, next: Counter)
    requires p < |s| && (next == 0 || next == -1)
    ensures var manual, forgetful := DynamicSpec(s, p, d, -1), DynamicSpec(s, p, d, next);
            if forgetful.Err? then manual == forgetful || manual == Err(SWITCH_TO_AUTOMATIC)
            else if forgetful.value.2 <= 0 then manual == Ok((forgetful.value.0, forgetful.value.1, -1))
            else manual == Err(SWITCH_TO_AUTOMATIC)
  {
    hide ArgId, RunNumber, RunEnd;
  }

  function StepState(r: Result<Step>): Result<SpecState> {
    if r.Err? then Err(r.message) else Ok(r.value.st)
  }

  lemma ManualStep(s: string, c: char, st: SpecState, t: ArgType)
    requires st.pos < |s| && Forgets(st)
    ensures var manual, forgetful := SpecStep(s, c, st.(next := -1), t), SpecStep(s, c, st, t);
            && SameButForSwitch(StepState(manual), StepState(forgetful))
            && (manual.Ok? ==> forgetful.Ok? && manual.value.Done? == forgetful.value.Done?)
  {
    hide DynamicSpec, PlainPart;
    ManualDynamic(s, st.pos, st.specs.width, st.next);
    if st.pos + 1 < |s| {
      ManualDynamic(s, st.pos + 1, st.specs.precision, st.next);
    }
  }

  lemma {:induction false} ManualLoop(s: string, c: char, st: SpecState, t: ArgType)
    requires st.pos < |s| && Forgets(st)
    ensures SameButForSwitch(SpecLoop(s, c, st.(next := -1), t), SpecLoop(s, c, st, t))
    decreases 8 - (if st.state <= 7 then st.state else 8)
  {
    hide SpecStep;
    ManualStep(s, c, st, t);
    var forgetful := SpecStep(s, c, st, t);
    if forgetful.Ok? && forgetful.value.More? && forgetful.value.st.pos < |s| && Forgets(forgetful.value.st) {
      ManualLoop(s, s[forgetful.value.st.pos], forgetful.value.st, t);
    }
  }

  lemma ManualSpecs(s: string, p: nat, t: ArgType)
    requires p <= |s|
    ensures SameButForSwitch(ReadSpecs(s, p, -1, t), ReadSpecs(s, p, 0, t))
  {
    var start := SpecState(p, DEFAULT_SPECS, 0, 0);
    if p + 1 < |s| {
      ManualLoop(s, if ParseAlign(s[p + 1]).NoAlign? then s[p] else '\0', start, t);
    } else if p < |s| {
      ManualLoop(s, s[p], start, t);
    }
  }

  // ---------------------------------------------------------------- what compilation does not look for

  /** As for Misread, behind a piece of the string that ends at pos. */
  predicate MisreadTail(s: string, pos: nat, id: Counter, kinds: seq<ArgType>)
    requires pos <= |s|
    decreases |s| - pos, 1
  {
    pos < |s| && Misread(s, pos, id, kinds)
  }

  /** As for Misread, from the end of the id of argument `arg`. */
  predicate MisreadField(s: string, end: nat, arg: nat, next: Counter, kinds: seq<ArgType>)
    requires end < |s|
    decreases |s| - end, 2
  {
    && arg < |kinds|
    && if s[end] != ':' then MisreadTail(s, end + 1, next, kinds)
       else
         var st := ReadSpecs(s, end + 1, if next == -1 then 0 else next, kinds[arg]);
         && st.Ok?
         && (|| (next == -1 && st.value.next > 0)
             || (st.value.pos < |s| && MisreadTail(s, st.value.pos + 1, if next == -1 then -1 else st.value.next, kinds)))
  }

  /**
    Something from pos on, with the next automatic id `id`, is compiled without being looked at as
    closely as the interpreter does: a closing brace that no other follows, or an automatic width
    or precision in a field numbered by hand.
  */
  predicate Misread(s: string, pos: nat, id: Counter, kinds: seq<ArgType>)
    requires pos < |s|
    decreases |s| - pos, 0
  {
    if s[pos] == '{' then
      && pos + 1 < |s|
      && if s[pos + 1] == '{' then MisreadTail(s, pos + 2, id, kinds)
         else if s[pos + 1] == '}' || s[pos + 1] == ':' then id != -1 && MisreadField(s, pos + 1, id, id + 1, kinds)
         else
           var ref := ArgId(s, pos + 1);
           && ref.Ok? && ref.value.1 < |s|
           && if ref.value.0.Index? then MisreadField(s, ref.value.1, ref.value.0.id, -1, kinds)
              else MisreadTail(s, ref.value.1 + 1, id, kinds)
    else if s[pos] == '}' then
      pos + 1 < |s| && (s[pos + 1] != '}' || MisreadTail(s, pos + 2, id, kinds))
    else
      MisreadTail(s, TextEnd(s, pos + 1), id, kinds)
  }

  // ---------------------------------------------------------------- compilation preserves meaning

  /**
    A compiled rest of the string against what the interpreter does with it after writing `out`:
    what the interpreter accepts is compiled and written alike; what is compiled and written is
    accepted if and only if nothing was misread, and otherwise refused with one of two errors.
  */
  ghost predicate Matches<V>(c: Result<Compiled>, i: Result<Context>, out: string, misread: bool,
                             args: seq<Arg<V>>, r: Renderer<V>)
  {
    && (i.Ok? ==> Writes(c, args, r) && i.value.out == out + Format(c.value.tree, args, r).value)
    && (Writes(c, args, r) ==> (i.Ok? <==> !misread))
    && (Writes(c, args, r) ==> i.Ok? || i.message == UNMATCHED || i.message == SWITCH_TO_AUTOMATIC)
  }

  ghost predicate Writes<V>(c: Result<Compiled>, args: seq<Arg<V>>, r: Renderer<V>) {
    c.Ok? && c.value.Known? && Format(c.value.tree, args, r).Ok?
  }

  /** What the interpreter does from pos on, if it got there by writing the head. */
  ghost function After<V>(head: Tree, s: string, pos: nat, id: Counter, out: string,
                          args: seq<Arg<V>>, r: Renderer<V>): Result<Context>
    requires pos <= |s| && Proper(FormatHandler(args, r))
  {
    var text :- Format(head, args, r);
    Parse(s, FormatHandler(args, r), pos, Context(id, out + text))
  }

  lemma {:induction false} TailAgrees<V>(head: Tree, s: string, pos: nat, id: Counter, out: string,
                                         args: seq<Arg<V>>, r: Renderer<V>)
    requires pos <= |s| && Proper(FormatHandler(args, r))
    ensures Matches(CompileTail(head, s, pos, id, Kinds(args)), After(head, s, pos, id, out, args, r), out,
                    MisreadTail(s, pos, id, Kinds(args)), args, r)
    ensures Format(head, args, r).Err? ==> !Writes(CompileTail(head, s, pos, id, Kinds(args)), args, r)
    decreases |s| - pos, 1
  {
    hide CompileFormatString, Parse, Misread;
    var f := Format(head, args, r);
    if f.Ok? {
      if pos == |s| {
        ParseEnds(s, FormatHandler(args, r), Context(id, out + f.value));
      } else {
        StringAgrees(s, pos, Context(id, out + f.value), args, r);
        var c := CompileFormatString(s, pos, id, Kinds(args));
        if Writes(c, args, r) {
          var rest := Format(c.value.tree, args, r).value;
          assert (out + f.value) + rest == out + (f.value + rest);
        }
      }
    }
  }

  ghost function Continued<V>(s: string, i: Result<(Context, nat)>, args: seq<Arg<V>>, r: Renderer<V>): Result<Context>
    requires Proper(FormatHandler(args, r)) && (i.Ok? ==> i.value.1 <= |s|)
  {
    if i.Err? then Err(i.message) else Parse(s, FormatHandler(args, r), i.value.1, i.value.0)
  }

  lemma {:induction false} FieldAgrees<V>(s: string, end: nat, arg: nat, next: Counter, out: string,
                                          args: seq<Arg<V>>, r: Renderer<V>)
    requires end < |s| && (s[end] == '}' || s[end] == ':') && next != 0 && Proper(FormatHandler(args, r))
    ensures Matches(CompileField(s, end, arg, next, Kinds(args)),
                    Continued(s, FieldAt(s, end, arg, next, out, args, r), args, r), out,
                    MisreadField(s, end, arg, next, Kinds(args)), args, r)
    decreases |s| - end, 2
  {
    hide CompileFormatString, CompileTail, MisreadTail, Parse, ReadSpecs, WriteSpecified, DynamicNumber;
    if arg < |args| && s[end] == '}' {
      TailAgrees(Plain(arg), s, end + 1, next, out, args, r);
    } else if arg < |args| {
      var kind := args[arg].kind;
      if next == -1 { ManualSpecs(s, end + 1, kind); }
      var st := ReadSpecs(s, end + 1, if next == -1 then 0 else next, kind);
      if st.Ok? && st.value.pos < |s| && s[st.value.pos] == '}' {
        var after := if next == -1 then -1 else st.value.next;
        TailAgrees(Specified(arg, st.value.specs), s, st.value.pos + 1, after, out, args, r);
        SpecifiedWrites(args, r, args[arg], st.value.specs);
        var i := FieldAt(s, end, arg, next, out, args, r);
        assert ReadSpecs(s, end + 1, next, kind).Ok? ==>
          (i.Ok? <==> WriteSpecified(args, r, args[arg], st.value.specs).Ok?);
      }
    }
  }

  lemma SpecifiedWrites<V>(args: seq<Arg<V>>, r: Renderer<V>, arg: Arg<V>, specs: Specs)
    ensures WriteSpecified(args, r, arg, specs).Ok? ==>
              && DynamicNumber(args, r, specs.width, "width").Ok?
              && DynamicNumber(args, r, specs.precision, "precision").Ok?
              && (arg.kind.CharType? ==> CharSpecsAllowed(specs))
  {
    hide DynamicNumber;
  }

  lemma {:induction false} StringAgrees<V>(s: string, p: nat, st: Context, args: seq<Arg<V>>, r: Renderer<V>)
    requires p < |s| && Proper(FormatHandler(args, r))
    ensures Matches(CompileFormatString(s, p, st.next, Kinds(args)),
                    Parse(s, FormatHandler(args, r), p, st), st.out, Misread(s, p, st.next, Kinds(args)), args, r)
    decreases |s| - p, 0
  {
    hide CompileTail, CompileField, MisreadTail, MisreadField, FieldAt, Parse;
    var h := FormatHandler(args, r);
    ParseUnfolds(s, h, p, st);
    if s[p] == '{' {
      OpeningAgrees(s, p, st, args, r);
    } else if s[p] == '}' {
      if p + 1 < |s| {
        assert s[p..p + 1] == "}";
        TailAgrees(Text(s[p..p + 1]), s, p + 2, st.next, st.out, args, r);
      }
    } else {
      var end := TextEnd(s, p + 1);
      assert s[p..end] == [s[p]] + s[p + 1..end];
      FormatString.ParseText(s, h, p, end, st);
      TailAgrees(if end - p > 1 then Text(s[p..end]) else CodeUnit(s[p]), s, end, st.next, st.out, args, r);
    }
  }

  lemma {:induction false} OpeningAgrees<V>(s: string, p: nat, st: Context, args: seq<Arg<V>>, r: Renderer<V>)
    requires p < |s| && s[p] == '{' && Proper(FormatHandler(args, r))
    ensures Matches(CompileFormatString(s, p, st.next, Kinds(args)),
                    Continued(s, Field(s, p, st, args, r), args, r), st.out, Misread(s, p, st.next, Kinds(args)),
                    args, r)
    decreases |s| - p, 0, 0
  {
    hide CompileTail, CompileField, MisreadTail, MisreadField, FieldAt, Parse;
    if p + 1 < |s| {
      if s[p + 1] == '{' {
        assert s[p..p + 1] == "{";
        TailAgrees(Text(s[p..p + 1]), s, p + 2, st.next, st.out, args, r);
      } else if s[p + 1] == '}' || s[p + 1] == ':' {
        if st.next >= 0 { FieldAgrees(s, p + 1, st.next, st.next + 1, st.out, args, r); }
      } else {
        var id := ArgId(s, p + 1);
        if id.Ok? && id.value.0.Index? && st.next <= 0 {
          FieldAgrees(s, id.value.1, id.value.0.id, -1, st.out, args, r);
        } else if id.Ok? && id.value.0.Name? && id.value.1 < |s| && s[id.value.1] == '}' {
          TailAgrees(RuntimeNamed(id.value.0.name), s, id.value.1 + 1, st.next, st.out, args, r);
        }
      }
    }
  }

  /** Somewhere in the string compilation does not look closely enough. */
  predicate MisreadString(s: string, kinds: seq<ArgType>) {
    s != "" && Misread(s, 0, 0, kinds)
  }

  /**
    Compiling preserves meaning. Whatever the interpreter accepts, the compiled string writes
    alike; and what the compiled string writes the interpreter writes too if and only if nothing
    in the string is misread, which the string and the types of the arguments tell.
  */
  lemma CompilationPreservesMeaning<V>(s: string, args: seq<Arg<V>>, r: Renderer<V>)
    ensures var i, c := Interpret(s, args, r), FormatCompiled(s, args, r);
            && (i.Ok? ==> c == i)
            && (c.Ok? ==> (i == c <==> !MisreadString(s, Kinds(args))))
            && (c.Ok? ==> i == c || i == Err(UNMATCHED) || i == Err(SWITCH_TO_AUTOMATIC))
  {
    hide CompileFormatString, Parse, Misread;
    HandlerIsProper(args, r);
    if s == "{}" {
      ShortcutAgrees(args, r);
      NothingMisread(Kinds(args));
    } else if s == "" {
      ParseEnds(s, FormatHandler(args, r), Context(0, ""));
    } else {
      StringAgrees(s, 0, Context(0, ""), args, r);
      var c := Compile(s, Kinds(args));
      if Writes(c, args, r) {
        var o := Format(c.value.tree, args, r).value;
        assert "" + o == o;
      }
    }
  }

  lemma NothingMisread(kinds: seq<ArgType>)
    ensures !MisreadString("{}", kinds)
  {
    assert !MisreadTail("{}", 2, 1, kinds);
  }

  /** The first exception: the character after a closing brace is not looked at. */
  lemma UnmatchedBraceCompiles<V>(args: seq<Arg<V>>, r: Renderer<V>)
    ensures Interpret("}x", args, r) == Err(UNMATCHED)
    ensures FormatCompiled("}x", args, r) == Ok("}")
  {
    var s := "}x";
    HandlerIsProper(args, r);
    ParseUnfolds(s, FormatHandler(args, r), 0, Context(0, ""));
    assert s[0..1] == "}";
    assert CompileFormatString(s, 0, 0, Kinds(args)) == CompileTail(Text("}"), s, 2, 0, Kinds(args));
  }

  /** The second: an automatic width in a manually indexed field. */
  lemma AutomaticWidthCompiles<V>(args: seq<Arg<V>>, r: Renderer<V>)
    requires |args| > 0
    ensures Interpret("{0:{}}", args, r) == Err(SWITCH_TO_AUTOMATIC)
    ensures FormatCompiled("{0:{}}", args, r) ==
            var width := FormatTexts.Amount(FromArg(0), "width", args, r);
            if width.Err? then Err(width.message)
            else r.formatted(args[0], Specs(Fixed(width.value), Fixed(-1), "", NoAlign, NoSign, false, false, " "))
  {
    var s := "{0:{}}";
    CompiledWidth(s, Kinds(args));
    WidthFromFirst(args, r);
    SwitchRefused(s, args, r);
    hide CompileFormatString, WriteSpecified, Interpret;
  }

  lemma SwitchRefused<V>(s: string, args: seq<Arg<V>>, r: Renderer<V>)
    requires s == "{0:{}}" && |args| > 0
    ensures Interpret(s, args, r) == Err(SWITCH_TO_AUTOMATIC)
  {
    hide Parse, ReadSpecs;
    HandlerIsProper(args, r);
    ParseUnfolds(s, FormatHandler(args, r), 0, Context(0, ""));
    assert ArgId(s, 1) == Ok((Index(0), 2));
    ReadsWidth(s, args[0].kind);
  }

  lemma CompiledWidth(s: string, kinds: seq<ArgType>)
    requires s == "{0:{}}" && |kinds| > 0
    ensures CompileFormatString(s, 0, 0, kinds) == Ok(Known(Specified(0, DEFAULT_SPECS.(width := FromArg(0)))))
  {
    hide ReadSpecs;
    ReadsWidth(s, kinds[0]);
    assert ArgId(s, 1) == Ok((Index(0), 2));
    var tree := Specified(0, DEFAULT_SPECS.(width := FromArg(0)));
    assert CompileTail(tree, s, 6, -1, kinds) == Ok(Known(tree));
  }

  lemma WidthFromFirst<V>(args: seq<Arg<V>>, r: Renderer<V>)
    requires |args| > 0
    ensures WriteSpecified(args, r, args[0], DEFAULT_SPECS.(width := FromArg(0))) ==
            var width := FormatTexts.Amount(FromArg(0), "width", args, r);
            if width.Err? then Err(width.message)
            else r.formatted(args[0], Specs(Fixed(width.value), Fixed(-1), "", NoAlign, NoSign, false, false, " "))
  {
    FormatTexts.AmountIs(FromArg(0), "width", args, r);
  }

  lemma ReadsWidth(s: string, t: ArgType)
    requires s == "{0:{}}"
    ensures ReadSpecs(s, 3, 0, t) == Ok(SpecState(5, DEFAULT_SPECS.(width := FromArg(0)), 5, 1))
    ensures ReadSpecs(s, 3, -1, t) == Err(SWITCH_TO_AUTOMATIC)
  {
    var st := SpecState(3, DEFAULT_SPECS, 0, 0);
    var after := SpecState(5, DEFAULT_SPECS.(width := FromArg(0)), 5, 1);
    WidthSteps(s, t);
    hide SpecStep;
    assert SpecLoop(s, '}', after, t) == Ok(after);
    assert SpecLoop(s, '{', st, t) == Ok(after);
  }

  lemma WidthSteps(s: string, t: ArgType)
    requires s == "{0:{}}"
    ensures var st, after := SpecState(3, DEFAULT_SPECS, 0, 0),
                             SpecState(5, DEFAULT_SPECS.(width := FromArg(0)), 5, 1);
            && SpecStep(s, '{', st, t) == Ok(More(after))
            && SpecStep(s, '{', st.(next := -1), t) == Err(SWITCH_TO_AUTOMATIC)
            && SpecStep(s, '}', after, t) == Ok(Done(after))
  {
    AutomaticWidth(s);
    hide DynamicSpec;
    assert s[5] == '}';
  }

  lemma AutomaticWidth(s: string)
    requires s == "{0:{}}"
    ensures DynamicSpec(s, 3, Fixed(0), 0) == Ok((FromArg(0), 5, 1))
    ensures DynamicSpec(s, 3, Fixed(0), -1) == Err(SWITCH_TO_AUTOMATIC)
  {
    assert ArgId(s, 4) == Ok((Auto, 4));
  }
}
