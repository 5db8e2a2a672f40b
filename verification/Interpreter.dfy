/** vformat_to: the handler that writes formatted arguments while the format string is parsed. */
module Interpreter {
  import opened Results
  import opened FormatString
  import opened FormatSpecs

  /** An argument: its type as the formatter sees it, and its value. */
  datatype Arg<V> = Arg(kind: ArgType, value: V)

  /**
    How values are written: with no specifiers, with specifiers whose width and precision are
    known, and the number that an integer argument holds. What they write is not modelled.
  */
  datatype Renderer<!V> = Renderer(plain: Arg<V> -> Result<string>,
                                   formatted: (Arg<V>, Specs) -> Result<string>,
                                   number: V -> int)

  const NOT_FOUND := "argument not found"
  const TWO_TO_64: nat := 0x1_0000_0000_0000_0000

  /** The parse context's counter, and the output so far. */
  datatype Context = Context(next: Counter, out: string)

  // ---------------------------------------------------------------- one field

  /** get_dynamic_spec with width_checker or precision_checker: `what` names which. */
  function DynamicNumber<V>(args: seq<Arg<V>>, r: Renderer<V>, d: Dynamic, what: string): Result<int> {
    match d
    case Fixed(value) => Ok(value)
    case FromName(_) => Err(NOT_FOUND)
    case FromArg(id) =>
      if id >= |args| then Err(NOT_FOUND)
      else if !SignedInteger(args[id].kind) && !UnsignedInteger(args[id].kind) then Err(what + " is not integer")
      else
        var n := r.number(args[id].value);
        if n < 0 then Err("negative " + what)
        else if n % TWO_TO_64 > INT_MAX then Err("number is too big")
        else Ok(n % TWO_TO_64)
  }

  /** check_char_specs: a character written as a character takes no numeric specifiers. */
  predicate CharSpecsAllowed(specs: Specs) {
    specs.presentation in ["", "c", "?"] ==> !specs.align.Numeric? && specs.sign.NoSign? && !specs.alt
  }

  const INVALID_FOR_CHAR := "invalid format specifier for char"

  /** The argument written with its specifiers, after width and precision are looked up. */
  function WriteSpecified<V>(args: seq<Arg<V>>, r: Renderer<V>, arg: Arg<V>, specs: Specs): Result<string> {
    var width :- DynamicNumber(args, r, specs.width, "width");
    var precision :- DynamicNumber(args, r, specs.precision, "precision");
    if arg.kind.CharType? && !CharSpecsAllowed(specs) then Err(INVALID_FOR_CHAR)
    else r.formatted(arg, specs.(width := Fixed(width), precision := Fixed(precision)))
  }

  /** on_arg_id in its three forms. No argument has a name. */
  function ResolveArgId(ref: ArgRef, next: Counter): Result<(nat, Counter)> {
    match ref
    case Auto => NextArgId(next)
    case Index(id) => var after :- CheckArgId(next); Ok((id, after))
    case Name(_) => Err(NOT_FOUND)
  }

  /**
    parse_replacement_field with the formatting handler. Once an id is resolved, '}' or ':'
    follows it: only a named argument could be followed by anything else.
  */
  function Field<V>(s: string, p: nat, st: Context, args: seq<Arg<V>>, r: Renderer<V>): (result: Result<(Context, nat)>)
    ensures result.Ok? ==> p < result.value.1 <= |s|
  {
    if p + 1 >= |s| then Err(INVALID)
    else if s[p + 1] == '{' then
      Ok((st.(out := st.out + "{"), p + 2))
    else
      var (ref, q) :- if s[p + 1] == '}' then Ok((Auto, p + 1)) else ArgId(s, p + 1);
      var (id, next) :- ResolveArgId(ref, st.next);
      FieldAt(s, q, id, next, st.out, args, r)
  }

  /** on_replacement_field and on_format_specs for the argument whose id ends at q. */
  function FieldAt<V>(s: string, q: nat, id: nat, next: Counter, out: string, args: seq<Arg<V>>, r: Renderer<V>)
    : (result: Result<(Context, nat)>)
    requires q < |s| && (s[q] == '}' || s[q] == ':')
    ensures result.Ok? ==> q < result.value.1 <= |s|
  {
    if id >= |args| then Err(NOT_FOUND)
    else if s[q] == '}' then
      var text :- r.plain(args[id]);
      Ok((Context(next, out + text), q + 1))
    else
      var specs :- ReadSpecs(s, q + 1, next, args[id].kind);
      SpecifiedField(s, specs, out, args[id], args, r)
  }

  /** on_format_specs once the specifiers are parsed. */
  function SpecifiedField<V>(s: string, st: SpecState, out: string, arg: Arg<V>, args: seq<Arg<V>>, r: Renderer<V>)
    : (result: Result<(Context, nat)>)
    requires st.pos <= |s|
    ensures result.Ok? ==> result.value.1 == st.pos + 1 <= |s|
  {
    var width :- DynamicNumber(args, r, st.specs.width, "width");
    var precision :- DynamicNumber(args, r, st.specs.precision, "precision");
    if st.pos == |s| || s[st.pos] != '}' then Err("missing '}' in format string")
    else
      var text :- WriteSpecified(args, r, arg, st.specs);
      Ok((Context(st.next, out + text), st.pos + 1))
  }

  // ---------------------------------------------------------------- the whole string

  function TextHandler(): (Context, string) -> Context {
    (st: Context, text: string) => st.(out := st.out + text)
  }

  function FormatHandler<V>(args: seq<Arg<V>>, r: Renderer<V>): Handler<Context> {
    Handler(TextHandler(), (s, p, st) => Field(s, p, st, args, r))
  }

  lemma HandlerIsProper<V>(args: seq<Arg<V>>, r: Renderer<V>)
    ensures Proper(FormatHandler(args, r)) && KeepsDoubledBraces(FormatHandler(args, r))
  {
    var h := FormatHandler(args, r);
    forall st: Context, a: string, b: string ensures h.text(h.text(st, a), b) == h.text(st, a + b) {
      assert (st.out + a) + b == st.out + (a + b);
    }
    forall s: string, p: nat, st: Context
      ensures Advances(s, p, h.field(s, p, st)) && DoubledBraceIsText(s, p, h, st)
    {
    }
  }

  /** What a format string means: its text, and its fields written in order. */
  ghost function Interpret<V>(s: string, args: seq<Arg<V>>, r: Renderer<V>): Result<string> {
    HandlerIsProper(args, r);
    var final :- Parse(s, FormatHandler(args, r), 0, Context(0, ""));
    Ok(final.out)
  }

  /** The shortcut for "{}" does what the parser would. */
  lemma ShortcutAgrees<V>(args: seq<Arg<V>>, r: Renderer<V>)
    ensures Interpret("{}", args, r) == if |args| == 0 then Err(NOT_FOUND) else r.plain(args[0])
  {
    HandlerIsProper(args, r);
    var h, st := FormatHandler(args, r), Context(0, "");
    var field := Field("{}", 0, st, args, r);
    assert h.field("{}", 0, st) == field;
    if field.Ok? {
      assert field.value == (Context(1, "" + r.plain(args[0]).value), 2);
      assert "" + r.plain(args[0]).value == r.plain(args[0]).value;
      assert Parse("{}", h, 2, field.value.0) == Ok(field.value.0);
    }
  }

  /** Text with its braces doubled is written back unchanged, whatever the arguments. */
  lemma EscapedTextIsWritten<V>(text: string, args: seq<Arg<V>>, r: Renderer<V>)
    ensures Interpret(Escaped(text), args, r) == Ok(text)
  {
    HandlerIsProper(args, r);
    EscapedTextParsesBack(text, FormatHandler(args, r), Context(0, ""));
    assert "" + text == text;
  }
}
