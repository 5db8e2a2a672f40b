/** UTF-8, UTF-16 and UTF-32: the branchless decoder, the loop over code points, the converters. */
module Utf {
  type byte = bv8
  type codepoint = bv32

  // ---------------------------------------------------------------- well-formed sequences

  predicate Tail(b: byte) {
    0x80 <= b <= 0xBF
  }

  /** The syntax of section 4 of RFC 3629, for sequences of one to four bytes. */
  predicate IsOne(b0: byte) {
    b0 <= 0x7F
  }

  predicate IsTwo(b0: byte, b1: byte) {
    0xC2 <= b0 <= 0xDF && Tail(b1)
  }

  predicate IsThree(b0: byte, b1: byte, b2: byte) {
    && Tail(b2)
    && (|| (b0 == 0xE0 && 0xA0 <= b1 <= 0xBF)
        || (0xE1 <= b0 <= 0xEC && Tail(b1))
        || (b0 == 0xED && 0x80 <= b1 <= 0x9F)
        || (0xEE <= b0 <= 0xEF && Tail(b1)))
  }

  predicate IsFour(b0: byte, b1: byte, b2: byte, b3: byte) {
    && Tail(b2) && Tail(b3)
    && (|| (b0 == 0xF0 && 0x90 <= b1 <= 0xBF)
        || (0xF1 <= b0 <= 0xF3 && Tail(b1))
        || (b0 == 0xF4 && 0x80 <= b1 <= 0x8F))
  }

  /** How many bytes the well-formed sequence takes that s starts with; 0 when there is none. */
  function Prefix(s: seq<byte>): (n: nat)
    ensures n <= 4 && n <= |s|
  {
    if |s| >= 1 && IsOne(s[0]) then 1
    else if |s| >= 2 && IsTwo(s[0], s[1]) then 2
    else if |s| >= 3 && IsThree(s[0], s[1], s[2]) then 3
    else if |s| >= 4 && IsFour(s[0], s[1], s[2], s[3]) then 4
    else 0
  }

  /** Code points that have an encoding: no surrogates, nothing above 10FFFF. */
  predicate IsScalar(c: codepoint) {
    c <= 0x10FFFF && !(0xD800 <= c <= 0xDFFF)
  }

  /** static_cast<char> */
  function Cast(c: bv32): byte {
    (c & 0xFF) as byte
  }

  /** The first byte of an encoding of n bytes, and the byte with the six bits from 12, 6 or 0 up. */
  function Lead(c: codepoint, n: nat): byte {
    if n == 1 then Cast(c)
    else if n == 2 then Cast(0xC0 | (c >> 6))
    else if n == 3 then Cast(0xE0 | (c >> 12))
    else Cast(0xF0 | (c >> 18))
  }

  function Bits12(c: codepoint): byte {
    Cast(0x80 | ((c >> 12) & 0x3F))
  }

  function Bits6(c: codepoint): byte {
    Cast(0x80 | ((c >> 6) & 0x3F))
  }

  function Bits0(c: codepoint): byte {
    Cast(0x80 | (c & 0x3F))
  }

  /** The encoding of a code point, the table of section 3 of RFC 3629. */
  function Encode(c: codepoint): (s: seq<byte>)
    requires IsScalar(c)
    ensures 1 <= |s| <= 4
  {
    if c < 0x80 then [Lead(c, 1)]
    else if c < 0x800 then [Lead(c, 2), Bits0(c)]
    else if c < 0x10000 then [Lead(c, 3), Bits6(c), Bits0(c)]
    else [Lead(c, 4), Bits12(c), Bits6(c), Bits0(c)]
  }

  // ---------------------------------------------------------------- utf8_decode

  datatype Decoded = Decoded(advance: nat, c: codepoint, error: bv32)

  /** The table of lengths, indexed by the top five bits of the first byte. */
  function TableLength(b0: byte): (len: nat)
    ensures len <= 4
  {
    var i := b0 >> 3;
    if i < 16 then 1 else if i < 24 then 0 else if i < 28 then 2 else if i < 30 then 3 else if i < 31 then 4 else 0
  }

  function Masked(b0: byte, len: nat): byte {
    if len == 0 then b0 & 0x00
    else if len == 1 then b0 & 0x7F
    else if len == 2 then b0 & 0x1F
    else if len == 3 then b0 & 0x0F
    else b0 & 0x07
  }

  function Least(len: nat): codepoint {
    if len == 0 then 4194304 else if len == 1 then 0 else if len == 2 then 128 else if len == 3 then 2048 else 65536
  }

  function ShiftCode(c: bv32, len: nat): bv32 {
    if len == 1 then c >> 18 else if len == 2 then c >> 12 else if len == 3 then c >> 6 else c
  }

  function ShiftError(e: bv32, len: nat): bv32 {
    if len == 1 then e >> 6 else if len == 2 then e >> 4 else if len == 3 then e >> 2 else e
  }

  function Flag(b: bool): bv32 {
    if b then 1 else 0
  }

  /** The code point before its errors are looked at. */
  function Assembled(b0: byte, b1: byte, b2: byte, b3: byte): codepoint {
    var len := TableLength(b0);
    ShiftCode(((Masked(b0, len) as bv32) << 18) | (((b1 & 0x3F) as bv32) << 12)
              | (((b2 & 0x3F) as bv32) << 6) | ((b3 & 0x3F) as bv32), len)
  }

  /** utf8_decode on the four bytes it reads. */
  function Decode(b0: byte, b1: byte, b2: byte, b3: byte): Decoded {
    var len := TableLength(b0);
    var c := Assembled(b0, b1, b2, b3);
    var e := (Flag(c < Least(len)) << 6) | (Flag((c >> 11) == 0x1B) << 7) | (Flag(c > 0x10FFFF) << 8)
             | (((b1 & 0xC0) >> 2) as bv32) | (((b2 & 0xC0) >> 4) as bv32) | ((b3 >> 6) as bv32);
    Decoded(if len == 0 then 1 else len, c, ShiftError(e ^ 0x2A, len))
  }

  lemma DecodeNone(b0: byte, b1: byte, b2: byte, b3: byte)
    requires TableLength(b0) == 0
    ensures Decode(b0, b1, b2, b3).error != 0 && 0x80 <= b0 && !(0xC2 <= b0 <= 0xF4)
  {
  }

  lemma DecodeOne(b0: byte, b1: byte, b2: byte, b3: byte)
    requires b0 >> 3 < 16
    ensures var d := Decode(b0, b1, b2, b3);
            d.error == 0 && IsOne(b0) && d.c < 0x80 && Lead(d.c, 1) == b0
  {
  }

  lemma DecodeTwo(b0: byte, b1: byte, b2: byte, b3: byte)
    requires 24 <= b0 >> 3 < 28
    ensures var d := Decode(b0, b1, b2, b3);
            && (d.error == 0 <==> IsTwo(b0, b1))
            && (d.error == 0 ==> 0x80 <= d.c < 0x800)
            && (d.error == 0 ==> Lead(d.c, 2) == b0 && Bits0(d.c) == b1)
  {
  }

  lemma DecodeThree(b0: byte, b1: byte, b2: byte, b3: byte)
    requires 28 <= b0 >> 3 < 30
    ensures var d := Decode(b0, b1, b2, b3);
            && (d.error == 0 <==> IsThree(b0, b1, b2))
            && (d.error == 0 ==> IsScalar(d.c) && 0x800 <= d.c < 0x10000)
  {
  }

  lemma BytesOfThree(b0: byte, b1: byte, b2: byte, b3: byte)
    requires 28 <= b0 >> 3 < 30 && Tail(b1) && Tail(b2)
    ensures var c := Assembled(b0, b1, b2, b3); Lead(c, 3) == b0 && Bits6(c) == b1 && Bits0(c) == b2
  {
  }

  lemma DecodeFour(b0: byte, b1: byte, b2: byte, b3: byte)
    requires b0 >> 3 == 30
    ensures var d := Decode(b0, b1, b2, b3);
            && (d.error == 0 <==> IsFour(b0, b1, b2, b3))
            && (d.error == 0 ==> IsScalar(d.c) && 0x10000 <= d.c)
  {
  }

  lemma BytesOfFour(b0: byte, b1: byte, b2: byte, b3: byte)
    requires b0 >> 3 == 30 && Tail(b1) && Tail(b2) && Tail(b3)
    ensures var c := Assembled(b0, b1, b2, b3);
            Lead(c, 4) == b0 && Bits12(c) == b1 && Bits6(c) == b2 && Bits0(c) == b3
  {
  }

  /** The first byte alone tells which form a sequence can have. */
  lemma Leads(b0: byte, b1: byte, b2: byte, b3: byte)
    ensures IsOne(b0) ==> TableLength(b0) == 1 && b0 >> 3 < 16
    ensures IsTwo(b0, b1) ==> TableLength(b0) == 2 && 24 <= b0 >> 3 < 28
    ensures IsThree(b0, b1, b2) ==> TableLength(b0) == 3 && 28 <= b0 >> 3 < 30
    ensures IsFour(b0, b1, b2, b3) ==> TableLength(b0) == 4 && b0 >> 3 == 30
    ensures TableLength(b0) == 1 ==> b0 >> 3 < 16
    ensures TableLength(b0) == 2 ==> 24 <= b0 >> 3 < 28
    ensures TableLength(b0) == 3 ==> 28 <= b0 >> 3 < 30
    ensures TableLength(b0) == 4 ==> b0 >> 3 == 30
  {
  }

  /**
    utf8_decode reports no error exactly on well-formed sequences. Then it steps over the sequence,
    and the code point is the one whose encoding it is.
  */
  lemma DecodeExact(b0: byte, b1: byte, b2: byte, b3: byte)
    ensures var d, n := Decode(b0, b1, b2, b3), Prefix([b0, b1, b2, b3]);
            && (d.error == 0 <==> n > 0)
            && (d.error == 0 ==> d.advance == n && IsScalar(d.c) && Encode(d.c) == [b0, b1, b2, b3][..n])
  {
    Leads(b0, b1, b2, b3);
    var len := TableLength(b0);
    if len == 0 { DecodeNone(b0, b1, b2, b3); }
    if len == 1 { DecodeOne(b0, b1, b2, b3); }
    if len == 2 { DecodeTwo(b0, b1, b2, b3); }
    if len == 3 { DecodeThree(b0, b1, b2, b3); }
    if len == 4 { DecodeFour(b0, b1, b2, b3); }
    if IsThree(b0, b1, b2) { BytesOfThree(b0, b1, b2, b3); }
    if IsFour(b0, b1, b2, b3) { BytesOfFour(b0, b1, b2, b3); }
    var d := Decode(b0, b1, b2, b3);
    assert d.advance == if len == 0 then 1 else len;
    hide Decode, IsOne, IsTwo, IsThree, IsFour, TableLength, Lead, Bits12, Bits6, Bits0;
  }

  // ---------------------------------------------------------------- strings as code points

  const INVALID_CODE_POINT: codepoint := 0xFFFF_FFFF

  /** Strings end in zero bytes for the decoder. */
  function At(s: seq<byte>, i: nat): byte {
    if i < |s| then s[i] else 0
  }

  function DecodeFront(s: seq<byte>): Decoded {
    Decode(At(s, 0), At(s, 1), At(s, 2), At(s, 3))
  }

  /** The zeros after the end never complete a sequence. */
  lemma FrontExact(s: seq<byte>)
    requires s != []
    ensures var d, n := DecodeFront(s), Prefix(s);
            && (d.error == 0 <==> n > 0)
            && (d.error == 0 ==> d.advance == n && IsScalar(d.c) && Encode(d.c) == s[..n])
  {
    var b := [At(s, 0), At(s, 1), At(s, 2), At(s, 3)];
    DecodeExact(b[0], b[1], b[2], b[3]);
    hide Decode, Encode;
    assert Prefix(b) == Prefix(s);
    assert b[..Prefix(s)] == s[..Prefix(s)];
  }

  datatype Piece = Piece(code: codepoint, bytes: seq<byte>)

  /** The first code point of a string with its bytes; one byte that starts none is invalid. */
  function FirstPiece(s: seq<byte>): (p: Piece)
    requires s != []
    ensures 1 <= |p.bytes| <= |s| && p.bytes == s[..|p.bytes|]
  {
    var n := Prefix(s);
    if n == 0 then Piece(INVALID_CODE_POINT, s[..1]) else Piece(DecodeFront(s).c, s[..n])
  }

  /** The pieces that a string falls into. */
  function Pieces(s: seq<byte>): seq<Piece> {
    if s == [] then [] else [FirstPiece(s)] + Pieces(s[|FirstPiece(s).bytes|..])
  }

  function Joined(pieces: seq<Piece>): seq<byte> {
    if pieces == [] then [] else pieces[0].bytes + Joined(pieces[1..])
  }

  predicate Proper(p: Piece) {
    if p.code == INVALID_CODE_POINT then |p.bytes| == 1 && !IsOne(p.bytes[0])
    else IsScalar(p.code) && p.bytes == Encode(p.code)
  }

  lemma FirstIsProper(s: seq<byte>)
    requires s != []
    ensures Proper(FirstPiece(s))
  {
    FrontExact(s);
    hide Decode, Encode;
  }

  /** Every string is partitioned into encodings of code points and single invalid bytes. */
  lemma {:induction false} PiecesPartition(s: seq<byte>)
    ensures Joined(Pieces(s)) == s
    ensures forall p :: p in Pieces(s) ==> Proper(p)
  {
    hide Decode, Encode, Proper, Prefix;
    if s != [] {
      var p := FirstPiece(s);
      FirstIsProper(s);
      PiecesPartition(s[|p.bytes|..]);
      assert s == p.bytes + s[|p.bytes|..];
    }
  }

  /** What visiting the pieces in order leaves, for a callback that may stop. */
  function Visit<S>(pieces: seq<Piece>, f: (S, codepoint, seq<byte>) -> (S, bool), st: S): S {
    if pieces == [] then st
    else
      var (next, goOn) := f(st, pieces[0].code, pieces[0].bytes);
      if goOn then Visit(pieces[1..], f, next) else next
  }

  /**
    A visit calls back with the code points and bytes of the pieces in order, every call with the
    state that the last one left. It ends with the first call that says stop, or after all pieces.
  */
  lemma {:induction false} VisitsInOrder<S>(pieces: seq<Piece>, f: (S, codepoint, seq<byte>) -> (S, bool), st: S)
    returns (states: seq<S>)
    ensures 1 <= |states| <= |pieces| + 1 && states[0] == st && states[|states| - 1] == Visit(pieces, f, st)
    ensures forall i :: 0 <= i < |states| - 1 ==> states[i + 1] == f(states[i], pieces[i].code, pieces[i].bytes).0
    ensures forall i :: 0 <= i < |states| - 2 ==> f(states[i], pieces[i].code, pieces[i].bytes).1
    ensures |states| <= |pieces| ==>
              var last := |states| - 2;
              last >= 0 && !f(states[last], pieces[last].code, pieces[last].bytes).1
  {
    states := [st];
    if pieces != [] {
      var (next, goOn) := f(st, pieces[0].code, pieces[0].bytes);
      if goOn {
        var rest := VisitsInOrder(pieces[1..], f, next);
        states := [st] + rest;
        forall i | 0 <= i < |states| - 1
          ensures states[i + 1] == f(states[i], pieces[i].code, pieces[i].bytes).0
          ensures i < |states| - 2 ==> f(states[i], pieces[i].code, pieces[i].bytes).1
          ensures i == |states| - 2 && |states| <= |pieces| ==> !f(states[i], pieces[i].code, pieces[i].bytes).1
        {
          if i > 0 {
            assert states[i] == rest[i - 1] && pieces[i] == pieces[1..][i - 1];
          }
        }
      } else {
        states := [st, next];
      }
    }
  }

  /** The local `decode`: how far it gets, whether it goes on, and the new state. */
  method DecodeStep<S>(b0: byte, b1: byte, b2: byte, b3: byte, ghost s: seq<byte>, text: seq<byte>,
                       f: (S, codepoint, seq<byte>) -> (S, bool), st: S)
    returns (step: nat, goOn: bool, next: S)
    requires s != [] && b0 == At(s, 0) && b1 == At(s, 1) && b2 == At(s, 2) && b3 == At(s, 3)
    requires |text| <= 4 && |text| <= |s| && text == s[..|text|] && (|text| == 4 || text == s)
    ensures step == |FirstPiece(s).bytes|
    ensures Visit(Pieces(s), f, st) == if goOn then Visit(Pieces(s[step..]), f, next) else next
  {
    FrontExact(s);
    hide Decode, Encode;
    var d := Decode(b0, b1, b2, b3);
    var bytes := text[..if d.error != 0 then 1 else d.advance];
    var (next', goOn') := f(st, if d.error != 0 then INVALID_CODE_POINT else d.c, bytes);
    next, goOn := next', goOn';
    step := if d.error != 0 then 1 else d.advance;
    assert bytes == FirstPiece(s).bytes;
    assert Pieces(s)[1..] == Pieces(s[step..]);
  }

  /** for_each_codepoint: blocks of four bytes, then the last three or fewer in a padded buffer. */
  method ForEachCodepoint<S>(s: seq<byte>, f: (S, codepoint, seq<byte>) -> (S, bool), initial: S) returns (st: S)
    ensures st == Visit(Pieces(s), f, initial)
  {
    hide Visit, Pieces;
    st := initial;
    var p := 0;
    while p + 4 <= |s|
      invariant p <= |s|
      invariant Visit(Pieces(s[p..]), f, st) == Visit(Pieces(s), f, initial)
      decreases |s| - p
    {
      var step, goOn;
      step, goOn, st := DecodeStep(s[p], s[p + 1], s[p + 2], s[p + 3], s[p..], s[p..p + 4], f, st);
      assert s[p..][step..] == s[p + step..];
      if !goOn { return; }
      p := p + step;
    }
    if p < |s| {
      st := LastBytes(s[p..], f, st);
    } else {
      NothingLeft(s[p..], f, st);
    }
  }

  lemma NothingLeft<S>(s: seq<byte>, f: (S, codepoint, seq<byte>) -> (S, bool), st: S)
    requires s == []
    ensures Visit(Pieces(s), f, st) == st
  {
  }

  /** The buffer is padded with zeros, which the decoder may read. */
  method LastBytes<S>(s: seq<byte>, f: (S, codepoint, seq<byte>) -> (S, bool), initial: S) returns (st: S)
    requires 1 <= |s| <= 3
    ensures st == Visit(Pieces(s), f, initial)
  {
    hide Visit, Pieces;
    var buf := new byte[7](i => 0);
    forall i | 0 <= i < |s| { buf[i] := s[i]; }
    st := initial;
    var p := 0;
    while true
      invariant 0 <= p < |s|
      invariant forall i :: 0 <= i < 7 ==> buf[i] == At(s, i)
      invariant Visit(Pieces(s[p..]), f, st) == Visit(Pieces(s), f, initial)
      decreases |s| - p
    {
      var step, goOn;
      step, goOn, st := DecodeStep(buf[p], buf[p + 1], buf[p + 2], buf[p + 3], s[p..], s[p..], f, st);
      assert s[p..][step..] == s[p + step..];
      if !goOn { return; }
      p := p + step;
      if p >= |s| { break; }
    }
    NothingLeft(s[p..], f, st);
  }

  // ---------------------------------------------------------------- UTF-8 to UTF-16

  predicate Valid(s: seq<byte>) {
    forall p :: p in Pieces(s) ==> p.code != INVALID_CODE_POINT
  }

  predicate AllScalar(codes: seq<codepoint>) {
    forall i :: 0 <= i < |codes| ==> IsScalar(codes[i])
  }

  function Codes(pieces: seq<Piece>): (codes: seq<codepoint>)
    ensures |codes| == |pieces|
  {
    seq(|pieces|, i requires 0 <= i < |pieces| => pieces[i].code)
  }

  function EncodeAll(codes: seq<codepoint>): seq<byte>
    requires AllScalar(codes)
  {
    if codes == [] then [] else Encode(codes[0]) + EncodeAll(codes[1..])
  }

  /** One or two code units, section 2.1 of RFC 2781. */
  function Units(c: codepoint): (u: seq<bv32>)
    ensures 1 <= |u| <= 2
  {
    if c <= 0xFFFF then [c] else [0xD800 + ((c - 0x10000) >> 10), 0xDC00 + ((c - 0x10000) & 0x3FF)]
  }

  function UnitsAll(codes: seq<codepoint>): seq<bv32> {
    if codes == [] then [] else Units(codes[0]) + UnitsAll(codes[1..])
  }

  /** What the constructor's callback leaves: units, or that it threw. */
  datatype Buffer = Buffer(units: seq<bv32>, thrown: bool)

  function PushUnits(buffer: Buffer, cp: codepoint, text: seq<byte>): (Buffer, bool) {
    if cp == INVALID_CODE_POINT then (buffer.(thrown := true), false)
    else if cp <= 0xFFFF then (buffer.(units := buffer.units + [cp]), true)
    else
      var rest := cp - 0x10000;
      (buffer.(units := buffer.units + [0xD800 + (rest >> 10), 0xDC00 + (rest & 0x3FF)]), true)
  }

  /** utf8_to_utf16: the buffer ends in a zero unit; invalid UTF-8 throws. */
  method Utf8ToUtf16(s: seq<byte>) returns (thrown: bool, buffer: seq<bv32>)
    ensures thrown <==> !Valid(s)
    ensures !thrown ==> buffer == UnitsAll(Codes(Pieces(s))) + [0]
  {
    var b := ForEachCodepoint(s, PushUnits, Buffer([], false));
    VisitPushes(Pieces(s), Buffer([], false));
    assert [] + UnitsAll(Codes(Pieces(s))) == UnitsAll(Codes(Pieces(s)));
    thrown, buffer := b.thrown, b.units + [0];
  }

  lemma {:induction false} VisitPushes(pieces: seq<Piece>, b: Buffer)
    requires !b.thrown
    ensures var r := Visit(pieces, PushUnits, b);
            && (r.thrown <==> exists p :: p in pieces && p.code == INVALID_CODE_POINT)
            && (!r.thrown ==> r.units == b.units + UnitsAll(Codes(pieces)))
  {
    if pieces != [] {
      var p := pieces[0];
      assert pieces == [p] + pieces[1..];
      if p.code != INVALID_CODE_POINT {
        var next := PushUnits(b, p.code, p.bytes).0;
        assert next.units == b.units + Units(p.code);
        VisitPushes(pieces[1..], next);
        assert Codes(pieces)[1..] == Codes(pieces[1..]);
        var us := UnitsAll(Codes(pieces[1..]));
        assert (b.units + Units(p.code)) + us == b.units + (Units(p.code) + us);
      }
    }
  }

  // ---------------------------------------------------------------- UTF-16 or UTF-32 to UTF-8

  predicate Surrogate(u: bv32) {
    0xD800 <= u <= 0xDFFF
  }

  /** (c & 0xfc00) != 0xd800 and so on: a high surrogate and a low one. */
  predicate IsPair(high: bv32, low: bv32) {
    (high & 0xFC00) == 0xD800 && (low & 0xFC00) == 0xDC00
  }

  function Combined(high: bv32, low: bv32): codepoint {
    ((high << 10) + low) - 0x35FDC00
  }

  lemma PairIsScalar(high: bv32, low: bv32)
    requires Surrogate(high) && IsPair(high, low) && low <= 0xFFFF
    ensures var c := Combined(high, low);
            && 0x10000 <= c <= 0x10FFFF && IsScalar(c)
            && 0xD800 + ((c - 0x10000) >> 10) == high && 0xDC00 + ((c - 0x10000) & 0x3FF) == low
  {
  }

  lemma PairOf(c: codepoint)
    requires 0x10000 <= c <= 0x10FFFF
    ensures var high, low := 0xD800 + ((c - 0x10000) >> 10), 0xDC00 + ((c - 0x10000) & 0x3FF);
            Surrogate(high) && IsPair(high, low) && high <= 0xFFFF && low <= 0xFFFF && Combined(high, low) == c
  {
  }

  datatype Option<+T> = Some(value: T) | None

  /** Units of 16 bits, when narrow. */
  predicate Fit(units: seq<bv32>, narrow: bool) {
    narrow ==> forall i :: 0 <= i < |units| ==> units[i] <= 0xFFFF
  }

  /** The code points that units denote, if they are well-formed: narrow units pair surrogates. */
  function FromUnits(units: seq<bv32>, narrow: bool): (r: Option<seq<codepoint>>)
    requires Fit(units, narrow)
    ensures r.Some? ==> AllScalar(r.value)
  {
    if units == [] then Some([])
    else if narrow && Surrogate(units[0]) then
      if |units| == 1 || !IsPair(units[0], units[1]) then None
      else
        PairIsScalar(units[0], units[1]);
        Front(Combined(units[0], units[1]), FromUnits(units[2..], narrow))
    else if !IsScalar(units[0]) then None
    else Front(units[0], FromUnits(units[1..], narrow))
  }

  function Front(c: codepoint, rest: Option<seq<codepoint>>): Option<seq<codepoint>> {
    if rest.None? then None else Some([c] + rest.value)
  }

  /** The bytes that convert pushes for one code point; nothing for one that has no encoding. */
  method PushEncoding(buf: seq<byte>, c: codepoint) returns (ok: bool, after: seq<byte>)
    ensures ok <==> IsScalar(c)
    ensures ok ==> after == buf + Encode(c)
  {
    if c < 0x80 {
      after := buf + [Cast(c)];
    } else if c < 0x800 {
      LowBits(c);
      after := buf + [Cast(0xC0 | (c >> 6))];
      after := after + [Cast(0x80 | (c & 0x3F))];
    } else if (c >= 0x800 && c <= 0xD7FF) || (c >= 0xE000 && c <= 0xFFFF) {
      LowBits(c);
      after := buf + [Cast(0xE0 | (c >> 12))];
      after := after + [Cast(0x80 | ((c & 0xFFF) >> 6))];
      after := after + [Cast(0x80 | (c & 0x3F))];
    } else if c >= 0x10000 && c <= 0x10FFFF {
      LowBits(c);
      after := buf + [Cast(0xF0 | (c >> 18))];
      after := after + [Cast(0x80 | ((c & 0x3FFFF) >> 12))];
      after := after + [Cast(0x80 | ((c & 0xFFF) >> 6))];
      after := after + [Cast(0x80 | (c & 0x3F))];
    } else {
      return false, buf;
    }
    ok := true;
  }

  lemma LowBits(c: codepoint)
    ensures Cast(0x80 | ((c & 0xFFF) >> 6)) == Bits6(c)
    ensures Cast(0x80 | ((c & 0x3FFFF) >> 12)) == Bits12(c)
  {
  }

  /** unicode_to_utf8::convert */
  method Convert(units: seq<bv32>, narrow: bool, initial: seq<byte>) returns (ok: bool, buf: seq<byte>)
    requires Fit(units, narrow)
    ensures ok <==> FromUnits(units, narrow).Some?
    ensures ok ==> buf == initial + EncodeAll(FromUnits(units, narrow).value)
  {
    hide Encode, Surrogate, IsPair, IsScalar, Combined;
    var p := 0;
    buf := initial;
    while p != |units|
      invariant p <= |units|
      invariant Consumed(units, narrow, initial, p, buf)
      decreases |units| - p
    {
      ghost var start, before := p, buf;
      FromUnitsAt(units, narrow, p);
      var c := units[p];
      if narrow && Surrogate(c) {
        p := p + 1;
        if p == |units| || !IsPair(c, units[p]) {
          return false, buf;
        }
        c := Combined(c, units[p]);
      }
      ok, buf := PushEncoding(buf, c);
      if !ok { return; }
      ConsumeStep(units, narrow, initial, start, before, c, p + 1 - start);
      p := p + 1;
    }
    ok := true;
    assert units[p..] == [];
    assert buf + [] == buf;
  }

  /** What is left to convert, after what is already in the buffer, makes up the whole. */
  ghost predicate Consumed(units: seq<bv32>, narrow: bool, initial: seq<byte>, p: nat, buf: seq<byte>)
    requires p <= |units| && Fit(units, narrow)
  {
    var whole, rest := FromUnits(units, narrow), FromUnits(units[p..], narrow);
    && (whole.Some? <==> rest.Some?)
    && (rest.Some? ==> initial + EncodeAll(whole.value) == buf + EncodeAll(rest.value))
  }

  lemma FromUnitsAt(units: seq<bv32>, narrow: bool, p: nat)
    requires p < |units| && Fit(units, narrow)
    ensures var r := FromUnits(units[p..], narrow);
            if narrow && Surrogate(units[p]) then
              if p + 1 == |units| || !IsPair(units[p], units[p + 1]) then r == None
              else
                && IsScalar(Combined(units[p], units[p + 1]))
                && r == Front(Combined(units[p], units[p + 1]), FromUnits(units[p + 2..], narrow))
            else if !IsScalar(units[p]) then r == None
            else r == Front(units[p], FromUnits(units[p + 1..], narrow))
  {
    assert units[p..][1..] == units[p + 1..];
    if p + 1 < |units| {
      assert units[p..][2..] == units[p + 2..];
      if narrow && Surrogate(units[p]) && IsPair(units[p], units[p + 1]) {
        PairIsScalar(units[p], units[p + 1]);
      }
    }
  }

  lemma ConsumeStep(units: seq<bv32>, narrow: bool, initial: seq<byte>, p: nat, buf: seq<byte>, c: codepoint, n: nat)
    requires p + n <= |units| && Fit(units, narrow) && Consumed(units, narrow, initial, p, buf) && IsScalar(c)
    requires FromUnits(units[p..], narrow) == Front(c, FromUnits(units[p + n..], narrow))
    ensures Consumed(units, narrow, initial, p + n, buf + Encode(c))
  {
    hide Encode, IsScalar, FromUnits;
    var rest := FromUnits(units[p + n..], narrow);
    if rest.Some? {
      assert ([c] + rest.value)[1..] == rest.value;
      assert buf + (Encode(c) + EncodeAll(rest.value)) == (buf + Encode(c)) + EncodeAll(rest.value);
    }
  }

  // ---------------------------------------------------------------- pieces

  /** Whether the encoding of c stands at the front of s. */
  ghost predicate StartsWith(s: seq<byte>, c: codepoint) {
    IsScalar(c) && Encode(c) <= s
  }

  /**
    The pieces of s, told by encodings alone: the encoding at the front of s with its code point,
    and where none is, one byte with the marker of all ones; and so on behind it.
  */
  ghost predicate FallsInto(s: seq<byte>, pieces: seq<Piece>)
    decreases |pieces|
  {
    if s == [] || pieces == [] then s == [] && pieces == []
    else
      var p := pieces[0];
      && (if exists c :: StartsWith(s, c) then StartsWith(s, p.code) && p.bytes == Encode(p.code)
          else p == Piece(0xFFFF_FFFF, s[..1]))
      && |p.bytes| <= |s|
      && FallsInto(s[|p.bytes|..], pieces[1..])
  }

  lemma StartHasPrefix(s: seq<byte>, c: codepoint)
    requires StartsWith(s, c)
    ensures Prefix(s) > 0
  {
    EncodeIsPrefix(c, s[|Encode(c)|..]);
    hide Encode, IsScalar;
    assert s == Encode(c) + s[|Encode(c)|..];
  }

  lemma {:induction false} PiecesAreEncodings(s: seq<byte>)
    ensures FallsInto(s, Pieces(s))
  {
    hide Decode, Encode, IsScalar;
    if s != [] {
      var p := FirstPiece(s);
      FrontExact(s);
      forall c | StartsWith(s, c)
        ensures Prefix(s) > 0
      {
        StartHasPrefix(s, c);
      }
      assert Prefix(s) > 0 ==> StartsWith(s, p.code);
      PiecesAreEncodings(s[|p.bytes|..]);
      assert Pieces(s)[1..] == Pieces(s[|p.bytes|..]);
    }
  }

  // ---------------------------------------------------------------- round trips

  lemma ShortInjective(c: codepoint, d: codepoint)
    ensures c < 0x80 && d < 0x80 && Lead(c, 1) == Lead(d, 1) ==> c == d
    ensures c < 0x800 && d < 0x800 && Lead(c, 2) == Lead(d, 2) && Bits0(c) == Bits0(d) ==> c == d
  {
  }

  lemma ThreeInjective(c: codepoint, d: codepoint)
    requires c < 0x10000 && d < 0x10000 && Lead(c, 3) == Lead(d, 3) && Bits6(c) == Bits6(d) && Bits0(c) == Bits0(d)
    ensures c == d
  {
  }

  lemma FourInjective(c: codepoint, d: codepoint)
    requires c <= 0x10FFFF && d <= 0x10FFFF && Lead(c, 4) == Lead(d, 4)
    requires Bits12(c) == Bits12(d) && Bits6(c) == Bits6(d) && Bits0(c) == Bits0(d)
    ensures c == d
  {
  }

  lemma EncodeInjective(c: codepoint, d: codepoint)
    requires IsScalar(c) && IsScalar(d) && Encode(c) == Encode(d)
    ensures c == d
  {
    hide Lead, Bits12, Bits6, Bits0;
    ShortInjective(c, d);
    var s, t := Encode(c), Encode(d);
    assert s[0] == t[0];
    if |s| >= 2 { assert s[1] == t[1]; }
    if |s| >= 3 { assert s[2] == t[2]; }
    if |s| == 3 { ThreeInjective(c, d); }
    if |s| == 4 {
      assert s[3] == t[3];
      FourInjective(c, d);
    }
  }

  lemma EncodeIsPrefix(c: codepoint, rest: seq<byte>)
    requires IsScalar(c)
    ensures Prefix(Encode(c) + rest) == |Encode(c)|
  {
  }

  /** An encoding in front of any bytes is their first piece. */
  lemma FirstPieceOfEncoding(c: codepoint, rest: seq<byte>)
    requires IsScalar(c)
    ensures FirstPiece(Encode(c) + rest) == Piece(c, Encode(c))
  {
    EncodeIsPrefix(c, rest);
    var s := Encode(c) + rest;
    FrontExact(s);
    assert s[..|Encode(c)|] == Encode(c);
    EncodeInjective(c, DecodeFront(s).c);
    hide Decode, Encode;
  }

  lemma {:induction false} PiecesOfEncoding(codes: seq<codepoint>)
    requires AllScalar(codes)
    ensures Codes(Pieces(EncodeAll(codes))) == codes && Valid(EncodeAll(codes))
  {
    hide Decode, Encode, Prefix;
    if codes != [] {
      var c, rest := codes[0], EncodeAll(codes[1..]);
      FirstPieceOfEncoding(c, rest);
      PiecesOfEncoding(codes[1..]);
      var s := Encode(c) + rest;
      assert s[|Encode(c)|..] == rest;
      assert Pieces(s) == [Piece(c, Encode(c))] + Pieces(rest);
      assert Codes(Pieces(s)) == [c] + Codes(Pieces(rest));
    }
  }

  lemma {:induction false} EncodingOfPieces(s: seq<byte>)
    requires Valid(s)
    ensures AllScalar(Codes(Pieces(s))) && EncodeAll(Codes(Pieces(s))) == s
  {
    hide Decode, Encode, Prefix, FirstPiece, IsScalar;
    if s != [] {
      var p := FirstPiece(s);
      var rest := s[|p.bytes|..];
      FirstIsProper(s);
      assert Pieces(s) == [p] + Pieces(rest);
      assert p in Pieces(s);
      assert forall q :: q in Pieces(rest) ==> q in Pieces(s);
      EncodingOfPieces(rest);
      assert Codes(Pieces(s)) == [p.code] + Codes(Pieces(rest));
      assert s == p.bytes + rest;
    }
  }

  lemma UnitsOfOne(c: codepoint)
    requires IsScalar(c)
    ensures |Units(c)| == 1 ==> Units(c) == [c] && c <= 0xFFFF && !Surrogate(c)
    ensures |Units(c)| == 2 ==>
              var u := Units(c);
              Surrogate(u[0]) && IsPair(u[0], u[1]) && u[0] <= 0xFFFF && u[1] <= 0xFFFF && Combined(u[0], u[1]) == c
  {
    if c > 0xFFFF { PairOf(c); }
  }

  lemma {:induction false} FromUnitsAll(codes: seq<codepoint>)
    requires AllScalar(codes)
    ensures Fit(UnitsAll(codes), true) && FromUnits(UnitsAll(codes), true) == Some(codes)
  {
    if codes != [] {
      hide Surrogate, IsPair, Combined, IsScalar, Units;
      var c, u := codes[0], UnitsAll(codes);
      UnitsOfOne(c);
      FromUnitsAll(codes[1..]);
      var n := |Units(c)|;
      assert u[..n] == Units(c) && u[n..] == UnitsAll(codes[1..]);
      assert Fit(u, true) by {
        forall i | 0 <= i < |u| ensures u[i] <= 0xFFFF {
          if i < n { assert u[i] == Units(c)[i]; } else { assert u[i] == u[n..][i - n]; }
        }
      }
      FromUnitsAt(u, true, 0);
      assert u[0..] == u;
      hide FromUnits, UnitsAll;
      assert [c] + codes[1..] == codes;
    }
  }

  lemma UnitsOfPair(high: bv32, low: bv32)
    requires Surrogate(high) && IsPair(high, low) && low <= 0xFFFF
    ensures Units(Combined(high, low)) == [high, low]
  {
    PairIsScalar(high, low);
  }

  lemma {:induction false} UnitsOfFrom(units: seq<bv32>)
    requires Fit(units, true) && FromUnits(units, true).Some?
    ensures UnitsAll(FromUnits(units, true).value) == units
  {
    if units != [] {
      FromUnitsAt(units, true, 0);
      assert units[0..] == units;
      if Surrogate(units[0]) {
        UnitsOfPair(units[0], units[1]);
        hide Surrogate, IsPair, Combined, IsScalar, Units, FromUnits;
        UnitsOfFrom(units[2..]);
        var rest := FromUnits(units[2..], true).value;
        assert ([Combined(units[0], units[1])] + rest)[1..] == rest;
        assert units == [units[0], units[1]] + units[2..];
      } else {
        assert Units(units[0]) == [units[0]];
        hide Surrogate, IsPair, Combined, IsScalar, Units, FromUnits;
        UnitsOfFrom(units[1..]);
        var rest := FromUnits(units[1..], true).value;
        assert ([units[0]] + rest)[1..] == rest;
        assert units == [units[0]] + units[1..];
      }
    }
  }

  /** UTF-8 to UTF-16 and back is the identity on every valid string. */
  lemma Utf8ThroughUtf16(s: seq<byte>)
    requires Valid(s)
    ensures var units := UnitsAll(Codes(Pieces(s)));
            && Fit(units, true) && FromUnits(units, true).Some?
            && EncodeAll(FromUnits(units, true).value) == s
  {
    EncodingOfPieces(s);
    FromUnitsAll(Codes(Pieces(s)));
  }

  /** Well-formed UTF-16 to UTF-8 and back is the identity as well. */
  lemma Utf16ThroughUtf8(units: seq<bv32>)
    requires Fit(units, true) && FromUnits(units, true).Some?
    ensures var s := EncodeAll(FromUnits(units, true).value);
            Valid(s) && UnitsAll(Codes(Pieces(s))) == units
  {
    PiecesOfEncoding(FromUnits(units, true).value);
    UnitsOfFrom(units);
  }

  /** UTF-32 to UTF-8 fails on surrogates and large values only, and otherwise loses nothing. */
  lemma {:induction false} Utf32ThroughUtf8(units: seq<bv32>)
    ensures FromUnits(units, false) == if AllScalar(units) then Some(units) else None
    ensures AllScalar(units) ==> Codes(Pieces(EncodeAll(units))) == units
  {
    if AllScalar(units) {
      PiecesOfEncoding(units);
    }
    if units != [] {
      Utf32ThroughUtf8(units[1..]);
      assert units == [units[0]] + units[1..];
    }
  }
}
