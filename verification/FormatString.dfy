/** Results that are a value or the message of a format_error. */
module Results {
  datatype Result<+T> = Ok(value: T) | Err(message: string) {
    predicate IsFailure() {
      Err?
    }

    function PropagateFailure<U>(): Result<U>
      requires Err?
    {
      Err(message)
    }

    function Extract(): T
      requires Ok?
    {
      value
    }
  }
}

/**
  parse_format_string: the simple one-pass loop and the two-pass loop built on find. Both are
  proved to do what one recursive definition says, for every handler whose text callbacks
  concatenate.
*/
module FormatString {
  import opened Results

  /**
    A handler with state S: what on_text does, and what parse_replacement_field does with the
    field that starts at a position, returning the position after it.
  */
  datatype Handler<!S> = Handler(text: (S, string) -> S, field: (string, nat, S) -> Result<(S, nat)>)

  ghost predicate Proper<S(!new)>(h: Handler<S>) {
    && (forall st: S :: h.text(st, "") == st)
    && (forall st: S, a: string, b: string :: h.text(h.text(st, a), b) == h.text(st, a + b))
    && (forall s: string, p: nat, st: S :: Advances(s, p, h.field(s, p, st)))
  }

  predicate Advances<S>(s: string, p: nat, r: Result<(S, nat)>) {
    r.Ok? ==> p < r.value.1 <= |s|
  }

  const UNMATCHED := "unmatched '}' in format string"

  /** The meaning of a format string from position p on: one character or field at a time. */
  ghost function Parse<S(!new)>(s: string, h: Handler<S>, p: nat, st: S): Result<S>
    requires Proper(h) && p <= |s|
    decreases |s| - p
  {
    if p == |s| then Ok(st)
    else if s[p] == '{' then
      var r := h.field(s, p, st);
      (if r.Err? then Err(r.message)
       else assert Advances(s, p, r); Parse(s, h, r.value.1, r.value.0))
    else if s[p] == '}' then
      (if p + 1 == |s| || s[p + 1] != '}' then Err(UNMATCHED)
       else Parse(s, h, p + 2, h.text(st, "}")))
    else Parse(s, h, p + 1, h.text(st, [s[p]]))
  }

  predicate NoBraces(s: string) {
    forall i :: 0 <= i < |s| ==> s[i] != '{' && s[i] != '}'
  }

  /** Characters other than braces are passed on as one text. */
  lemma {:induction false} ParseText<S(!new)>(s: string, h: Handler<S>, from: nat, to: nat, st: S)
    requires Proper(h) && from <= to <= |s| && NoBraces(s[from..to])
    ensures Parse(s, h, from, st) == Parse(s, h, to, h.text(st, s[from..to]))
    decreases |s| - from
  {
    hide Parse;
    if from < to {
      var c := s[from];
      assert c == s[from..to][0];
      assert s[from + 1..to] == s[from..to][1..];
      ParseUnfolds(s, h, from, st);
      ParseText(s, h, from + 1, to, h.text(st, [c]));
      assert [c] + s[from + 1..to] == s[from..to];
    } else {
      assert s[from..to] == "";
    }
  }

  lemma ParseEnds<S(!new)>(s: string, h: Handler<S>, st: S)
    requires Proper(h)
    ensures Parse(s, h, |s|, st) == Ok(st)
  {
  }

  lemma ParseUnfolds<S(!new)>(s: string, h: Handler<S>, p: nat, st: S)
    requires Proper(h) && p < |s|
    ensures s[p] == '{' ==>
              var r := h.field(s, p, st);
              && Advances(s, p, r)
              && Parse(s, h, p, st) == if r.Err? then Err(r.message) else Parse(s, h, r.value.1, r.value.0)
    ensures s[p] != '{' && s[p] != '}' ==> Parse(s, h, p, st) == Parse(s, h, p + 1, h.text(st, [s[p]]))
    ensures s[p] == '}' && (p + 1 == |s| || s[p + 1] != '}') ==> Parse(s, h, p, st) == Err(UNMATCHED)
    ensures s[p] == '}' && p + 1 < |s| && s[p + 1] == '}' ==> Parse(s, h, p, st) == Parse(s, h, p + 2, h.text(st, "}"))
  {
    if s[p] == '{' {
      assert Advances(s, p, h.field(s, p, st));
    }
  }

  // ---------------------------------------------------------------- the one-pass loop

  /**
    The loop for short strings: `begin` is where the text not yet passed on starts. A doubled
    brace passes on the text up to and including its first character.
  */
  method ParseOnePass<S(!new)>(s: string, h: Handler<S>, initial: S) returns (result: Result<S>)
    requires Proper(h)
    ensures result == Parse(s, h, 0, initial)
  {
    hide Parse;
    var begin, p, st := 0, 0, initial;
    while p != |s|
      invariant 0 <= begin <= p <= |s| && NoBraces(s[begin..p])
      invariant Parse(s, h, 0, initial) == Parse(s, h, begin, st)
      decreases |s| - p
    {
      var c := s[p];
      p := p + 1;
      if c == '{' {
        ParseText(s, h, begin, p - 1, st);
        st := h.text(st, s[begin..p - 1]);
        ParseUnfolds(s, h, p - 1, st);
        var r := h.field(s, p - 1, st);
        if r.Err? { return Err(r.message); }
        st, p := r.value.0, r.value.1;
        begin := p;
      } else if c == '}' {
        ParseText(s, h, begin, p - 1, st);
        ParseUnfolds(s, h, p - 1, h.text(st, s[begin..p - 1]));
        if p == |s| || s[p] != '}' {
          return Err(UNMATCHED);
        }
        assert s[begin..p] == s[begin..p - 1] + "}";
        st := h.text(st, s[begin..p]);
        p := p + 1;
        begin := p;
      } else {
        assert s[begin..p] == s[begin..p - 1] + [c];
      }
    }
    ParseText(s, h, begin, |s|, st);
    ParseEnds(s, h, h.text(st, s[begin..|s|]));
    return Ok(h.text(st, s[begin..|s|]));
  }

  // ---------------------------------------------------------------- the two-pass loop

  /** memchr: the first position of c in [from, to). */
  method Find(s: string, from: nat, to: nat, c: char) returns (found: bool, at: nat)
    requires from <= to <= |s|
    ensures found ==> from <= at < to && s[at] == c && forall i :: from <= i < at ==> s[i] != c
    ensures !found ==> forall i :: from <= i < to ==> s[i] != c
  {
    at := from;
    while at != to
      invariant from <= at <= to
      invariant forall i :: from <= i < at ==> s[i] != c
    {
      if s[at] == c { return true, at; }
      at := at + 1;
    }
    found := false;
  }

  /** The meaning of a stretch that holds no opening brace. */
  ghost function Stretch<S(!new)>(s: string, h: Handler<S>, p: nat, to: nat, st: S): Result<S>
    requires p <= to <= |s|
    decreases |s| - p
  {
    if p == to then Ok(st)
    else if s[p] == '}' then
      (if p + 1 == to || s[p + 1] != '}' then Err(UNMATCHED)
       else Stretch(s, h, p + 2, to, h.text(st, "}")))
    else Stretch(s, h, p + 1, to, h.text(st, [s[p]]))
  }

  lemma {:induction false} StretchText<S(!new)>(s: string, h: Handler<S>, from: nat, mid: nat, to: nat, st: S)
    requires Proper(h) && from <= mid <= to <= |s| && NoBraces(s[from..mid])
    ensures Stretch(s, h, from, to, st) == Stretch(s, h, mid, to, h.text(st, s[from..mid]))
    decreases |s| - from
  {
    if from < mid {
      var c := s[from];
      assert c == s[from..mid][0];
      assert s[from + 1..mid] == s[from..mid][1..];
      StretchText(s, h, from + 1, mid, to, h.text(st, [c]));
      assert [c] + s[from + 1..mid] == s[from..mid];
    } else {
      assert s[from..mid] == "";
    }
  }

  /** A stretch up to an opening brace or the end is parsed on its own. */
  lemma {:induction false} ParseStretch<S(!new)>(s: string, h: Handler<S>, p: nat, to: nat, st: S)
    requires Proper(h) && p <= to <= |s| && (to < |s| ==> s[to] == '{')
    requires forall i :: p <= i < to ==> s[i] != '{'
    ensures Stretch(s, h, p, to, st).Err? ==> Parse(s, h, p, st) == Err(Stretch(s, h, p, to, st).message)
    ensures Stretch(s, h, p, to, st).Ok? ==> Parse(s, h, p, st) == Parse(s, h, to, Stretch(s, h, p, to, st).value)
    decreases |s| - p
  {
    if p < to {
      if s[p] != '}' {
        ParseStretch(s, h, p + 1, to, h.text(st, [s[p]]));
      } else if p + 1 < to && s[p + 1] == '}' {
        ParseStretch(s, h, p + 2, to, h.text(st, "}"));
      }
    }
  }

  /** The local `writer`, which looks for closing braces with find. */
  method Write<S(!new)>(s: string, h: Handler<S>, begin: nat, to: nat, initial: S) returns (result: Result<S>)
    requires Proper(h) && begin <= to <= |s|
    requires forall i :: begin <= i < to ==> s[i] != '{'
    ensures result == Stretch(s, h, begin, to, initial)
  {
    if begin == to { return Ok(initial); }
    var from, st := begin, initial;
    while true
      invariant begin <= from <= to
      invariant Stretch(s, h, begin, to, initial) == Stretch(s, h, from, to, st)
      decreases |s| - from
    {
      var found, p := Find(s, from, to, '}');
      if !found {
        StretchText(s, h, from, to, to, st);
        return Ok(h.text(st, s[from..to]));
      }
      StretchText(s, h, from, p, to, st);
      p := p + 1;
      if p == to || s[p] != '}' {
        return Err(UNMATCHED);
      }
      assert s[from..p] == s[from..p - 1] + "}";
      assert h.text(h.text(st, s[from..p - 1]), "}") == h.text(st, s[from..p]);
      st := h.text(st, s[from..p]);
      from := p + 1;
    }
  }

  /** The loop for long strings: find the next opening brace, write what precedes it. */
  method ParseTwoPass<S(!new)>(s: string, h: Handler<S>, initial: S) returns (result: Result<S>)
    requires Proper(h)
    ensures result == Parse(s, h, 0, initial)
  {
    var begin, st := 0, initial;
    while begin != |s|
      invariant begin <= |s|
      invariant Parse(s, h, 0, initial) == Parse(s, h, begin, st)
      decreases |s| - begin
    {
      var p := begin;
      if s[begin] != '{' {
        var found, at := Find(s, begin + 1, |s|, '{');
        if !found {
          ParseStretch(s, h, begin, |s|, st);
          result := Write(s, h, begin, |s|, st);
          return;
        }
        p := at;
      }
      ParseStretch(s, h, begin, p, st);
      var w := Write(s, h, begin, p, st);
      if w.Err? { return w; }
      var r := h.field(s, p, w.value);
      assert Advances(s, p, r);
      if r.Err? { return Err(r.message); }
      st, begin := r.value.0, r.value.1;
    }
    return Ok(st);
  }

  /** parse_format_string chooses by length; the choice never shows. */
  method ParseFormatString<S(!new)>(s: string, h: Handler<S>, initial: S) returns (result: Result<S>)
    requires Proper(h)
    ensures result == Parse(s, h, 0, initial)
  {
    if |s| < 32 {
      result := ParseOnePass(s, h, initial);
    } else {
      result := ParseTwoPass(s, h, initial);
    }
  }

  // ---------------------------------------------------------------- escaped text

  function Doubled(c: char): string {
    if c == '{' || c == '}' then [c, c] else [c]
  }

  /** Text with every brace doubled. */
  function Escaped(text: string): string {
    if text == "" then "" else Doubled(text[0]) + Escaped(text[1..])
  }

  /** Two opening braces are passed on as the text of one, as parse_replacement_field does. */
  ghost predicate KeepsDoubledBraces<S(!new)>(h: Handler<S>) {
    forall s: string, p: nat, st: S :: DoubledBraceIsText(s, p, h, st)
  }

  ghost predicate DoubledBraceIsText<S(!new)>(s: string, p: nat, h: Handler<S>, st: S) {
    p + 1 < |s| && s[p] == '{' && s[p + 1] == '{' ==> h.field(s, p, st) == Ok((h.text(st, "{"), p + 2))
  }

  /** Escaping any text and parsing it back gives the text, with no field. */
  lemma EscapedTextParsesBack<S(!new)>(text: string, h: Handler<S>, st: S)
    requires Proper(h) && KeepsDoubledBraces(h)
    ensures Parse(Escaped(text), h, 0, st) == Ok(h.text(st, text))
  {
    EscapedFrom("", text, h, st);
    assert "" + Escaped(text) == Escaped(text);
  }

  lemma EscapedStep(before: string, text: string)
    requires text != ""
    ensures var s, c := before + Escaped(text), text[0];
            && s == (before + Doubled(c)) + Escaped(text[1..])
            && |before| < |s| && s[|before|] == c
            && |before + Doubled(c)| == |before| + (if c == '{' || c == '}' then 2 else 1)
            && (c == '{' || c == '}' ==> |before| + 1 < |s| && s[|before| + 1] == c)
  {
  }

  lemma {:induction false} EscapedFrom<S(!new)>(before: string, text: string, h: Handler<S>, st: S)
    requires Proper(h) && KeepsDoubledBraces(h)
    ensures Parse(before + Escaped(text), h, |before|, st) == Ok(h.text(st, text))
    decreases |text|
  {
    hide Parse;
    if text == "" {
      ParseEnds(before + Escaped(text), h, st);
    } else {
      var c, rest := text[0], text[1..];
      var s := before + Escaped(text);
      EscapedStep(before, text);
      hide Escaped, Doubled;
      assert DoubledBraceIsText(s, |before|, h, st);
      ParseUnfolds(s, h, |before|, st);
      EscapedFrom(before + Doubled(c), rest, h, h.text(st, [c]));
      assert [c] + rest == text;
    }
  }
}
