/** Base64Unescape, its table builder, and the encoding of section 4 of RFC 4648 that it inverts. */
module Base64 {
  type byte = bv8

  // ---------------------------------------------------------------- the table

  function Range(from: char, n: nat): (s: string)
    requires from as int + n <= 128
    ensures |s| == n && forall i :: 0 <= i < n ==> s[i] as int == from as int + i
  {
    seq(n, i requires 0 <= i < n => (from as int + i) as char)
  }

  /** kBase64: A to Z, a to z, 0 to 9, + and /. */
  function Alphabet(): (s: string)
    ensures |s| == 64
  {
    Range('A', 26) + Range('a', 26) + Range('0', 10) + "+/"
  }

  /** UnBase64Impl: the position of c in the rest of the alphabet, or 65. */
  function UnBase64(c: char, base64: string, carry: nat): nat {
    if base64 == "" then 65 else if base64[0] == c then carry else UnBase64(c, base64[1..], carry + 1)
  }

  /** kUnBase64[c] */
  function Sextet(c: char): nat {
    UnBase64(c, Alphabet(), 0)
  }

  lemma {:induction false} FirstPosition(c: char, base64: string, carry: nat, i: nat)
    requires i <= |base64| && forall j :: 0 <= j < i ==> base64[j] != c
    ensures i < |base64| && base64[i] == c ==> UnBase64(c, base64, carry) == carry + i
    ensures i == |base64| ==> UnBase64(c, base64, carry) == 65
    decreases i
  {
    if i > 0 {
      FirstPosition(c, base64[1..], carry + 1, i - 1);
    }
  }

  /** The value of a character by its code, or -1: Table 1 of RFC 4648. */
  function LetterValue(c: char): (v: int)
    ensures -1 <= v < 64
  {
    var code := c as int;
    if 65 <= code <= 90 then code - 65
    else if 97 <= code <= 122 then code - 97 + 26
    else if 48 <= code <= 57 then code - 48 + 52
    else if code == 43 then 62
    else if code == 47 then 63
    else -1
  }

  /** The table holds the values of RFC 4648 and inverts the alphabet; it is 65 everywhere else. */
  lemma TableInverts(c: char, v: nat)
    ensures v < 64 ==> Sextet(Alphabet()[v]) == v
    ensures Sextet(c) < 64 ==> Alphabet()[Sextet(c)] == c
    ensures c !in Alphabet() <==> Sextet(c) == 65
    ensures Sextet(c) == if LetterValue(c) >= 0 then LetterValue(c) else 65
  {
    var a := Alphabet();
    if v < 64 {
      assert forall j :: 0 <= j < v ==> a[j] != a[v];
      FirstPosition(a[v], a, 0, v);
    }
    LetterPlace(c);
    if c in a {
      var i :| 0 <= i < 64 && a[i] == c;
      assert forall j :: 0 <= j < i ==> a[j] != a[i];
      FirstPosition(c, a, 0, i);
    } else {
      FirstPosition(c, a, 0, 64);
    }
  }

  lemma LetterPlace(c: char)
    ensures c in Alphabet() <==> LetterValue(c) >= 0
    ensures LetterValue(c) >= 0 ==> LetterValue(c) < 64 && Alphabet()[LetterValue(c)] == c
    ensures forall i, j :: 0 <= i < j < 64 ==> Alphabet()[i] != Alphabet()[j]
  {
  }

  // ---------------------------------------------------------------- characters

  predicate IsSpace(c: char) {
    c == ' ' || 9 <= c as int <= 13
  }

  predicate Skipped(c: char) {
    IsSpace(c) || c == '='
  }

  predicate Ascii(s: string) {
    forall i :: 0 <= i < |s| ==> s[i] as int < 128
  }

  /** White space by its codes (tab to carriage return, and blank), and the padding '='. */
  predicate Blank(c: char) {
    c as int in {9, 10, 11, 12, 13, 32, 61}
  }

  /** The text without white space and padding. */
  function Significant(s: string): string {
    if s == "" then ""
    else (if Blank(s[0]) then "" else [s[0]]) + Significant(s[1..])
  }

  predicate InAlphabet(s: string) {
    forall c :: c in s ==> LetterValue(c) >= 0
  }

  /** The six-bit values of letters of the alphabet. */
  function Values(s: string): (v: seq<byte>)
    requires InAlphabet(s)
    ensures |v| == |s| && forall i :: 0 <= i < |s| ==> v[i] < 64
  {
    if s == "" then [] else [LetterValue(s[0]) as byte] + Values(s[1..])
  }

  // ---------------------------------------------------------------- groups

  /** The four values of three bytes, and the three bytes of four values. */
  function V0(x: byte): byte { x >> 2 }
  function V1(x: byte, y: byte): byte { ((x & 0x03) << 4) | (y >> 4) }
  function V2(y: byte, z: byte): byte { ((y & 0x0F) << 2) | (z >> 6) }
  function V3(z: byte): byte { z & 0x3F }
  function B0(v: byte, w: byte): byte { (v << 2) | (w >> 4) }
  function B1(v: byte, w: byte): byte { (v << 4) | (w >> 2) }
  function B2(v: byte, w: byte): byte { (v << 6) | w }

  /** Eight bits from the values, four values to three bytes; what is left over is dropped. */
  function Bytes(v: seq<byte>): seq<byte> {
    if |v| >= 4 then [B0(v[0], v[1]), B1(v[1], v[2]), B2(v[2], v[3])] + Bytes(v[4..])
    else if |v| == 3 then [B0(v[0], v[1]), B1(v[1], v[2])]
    else if |v| == 2 then [B0(v[0], v[1])]
    else []
  }

  /** Six bits from the bytes, three bytes to four values; missing bits are zero. */
  function Split(b: seq<byte>): (v: seq<byte>)
    ensures forall i :: 0 <= i < |v| ==> v[i] < 64
  {
    if |b| >= 3 then [V0(b[0]), V1(b[0], b[1]), V2(b[1], b[2]), V3(b[2])] + Split(b[3..])
    else if |b| == 2 then [V0(b[0]), V1(b[0], b[1]), V2(b[1], 0)]
    else if |b| == 1 then [V0(b[0]), V1(b[0], 0)]
    else []
  }

  lemma GroupBits(x: byte, y: byte, z: byte)
    ensures B0(V0(x), V1(x, y)) == x && B1(V1(x, y), V2(y, z)) == y && B2(V2(y, z), V3(z)) == z
  {
  }

  lemma {:induction false} BytesOfSplit(b: seq<byte>)
    ensures Bytes(Split(b)) == b
  {
    hide V0, V1, V2, V3, B0, B1, B2;
    if |b| >= 3 {
      GroupBits(b[0], b[1], b[2]);
      BytesOfSplit(b[3..]);
      assert Split(b)[4..] == Split(b[3..]);
      assert b == [b[0], b[1], b[2]] + b[3..];
    } else if |b| == 2 {
      GroupBits(b[0], b[1], 0);
      assert b == [b[0], b[1]];
    } else if |b| == 1 {
      GroupBits(b[0], 0, 0);
      assert b == [b[0]];
    }
  }

  // ---------------------------------------------------------------- bits

  /** The bit of x that is worth two to the power k. */
  predicate Bit(x: byte, k: nat)
    requires k < 8
  {
    x & (if k == 0 then 1 else if k == 1 then 2 else if k == 2 then 4 else if k == 3 then 8
         else if k == 4 then 16 else if k == 5 then 32 else if k == 6 then 64 else 128) != 0
  }

  lemma BinaryDigits(x: byte)
    ensures x == (if Bit(x, 7) then 128 else 0) + (if Bit(x, 6) then 64 else 0) + (if Bit(x, 5) then 32 else 0)
                 + (if Bit(x, 4) then 16 else 0) + (if Bit(x, 3) then 8 else 0) + (if Bit(x, 2) then 4 else 0)
                 + (if Bit(x, 1) then 2 else 0) + (if Bit(x, 0) then 1 else 0)
  {
  }

  /** The eight bits of a byte and the six bits of a value, highest first. */
  function Octet(x: byte): (s: seq<bool>)
    ensures |s| == 8
  {
    seq(8, i requires 0 <= i < 8 => Bit(x, 7 - i))
  }

  function Six(x: byte): (s: seq<bool>)
    ensures |s| == 6
  {
    seq(6, i requires 0 <= i < 6 => Bit(x, 5 - i))
  }

  function OctetBits(b: seq<byte>): (s: seq<bool>)
    ensures |s| == 8 * |b|
  {
    if b == [] then [] else Octet(b[0]) + OctetBits(b[1..])
  }

  function SextetBits(v: seq<byte>): (s: seq<bool>)
    ensures |s| == 6 * |v|
  {
    if v == [] then [] else Six(v[0]) + SextetBits(v[1..])
  }

  lemma BitsOfThree(a: byte, b: byte, c: byte)
    ensures OctetBits([a, b, c]) == Octet(a) + Octet(b) + Octet(c)
  {
    hide Octet;
    assert [a, b, c][1..] == [b, c] && [b, c][1..] == [c] && [c][1..] == [];
    assert OctetBits([c]) == Octet(c) + [] == Octet(c);
    assert Octet(a) + (Octet(b) + Octet(c)) == Octet(a) + Octet(b) + Octet(c);
  }

  lemma BitsOfFour(a: byte, b: byte, c: byte, d: byte)
    ensures SextetBits([a, b, c, d]) == Six(a) + Six(b) + Six(c) + Six(d)
  {
    hide Six;
    assert [a, b, c, d][1..] == [b, c, d] && [b, c, d][1..] == [c, d] && [c, d][1..] == [d] && [d][1..] == [];
    assert SextetBits([d]) == Six(d) + [] == Six(d);
    assert SextetBits([b, c, d]) == Six(b) + (Six(c) + Six(d));
    assert Six(a) + (Six(b) + (Six(c) + Six(d))) == Six(a) + Six(b) + Six(c) + Six(d);
  }

  lemma GroupBit(v: byte, w: byte, i: nat)
    requires v < 64 && w < 64 && i < 8
    ensures Bit(B0(v, w), 7 - i) == if i < 6 then Bit(v, 5 - i) else Bit(w, 11 - i)
    ensures Bit(B1(v, w), 7 - i) == if i < 4 then Bit(v, 3 - i) else Bit(w, 9 - i)
    ensures Bit(B2(v, w), 7 - i) == if i < 2 then Bit(v, 1 - i) else Bit(w, 7 - i)
  {
  }

  /** The first 6 - k bits of o are the last of a, and the others are the first of b. */
  lemma JoinBits(a: seq<bool>, b: seq<bool>, k: nat, o: seq<bool>)
    requires |a| == 6 && |b| == 6 && k <= 4 && |o| == 8
    requires forall i :: 0 <= i < 8 ==> o[i] == if i < 6 - k then a[i + k] else b[i - (6 - k)]
    ensures o == a[k..] + b[..k + 2]
  {
  }

  lemma OctetOfTwo(v: byte, w: byte)
    requires v < 64 && w < 64
    ensures Octet(B0(v, w)) == Six(v) + Six(w)[..2]
    ensures Octet(B1(v, w)) == Six(v)[2..] + Six(w)[..4]
    ensures Octet(B2(v, w)) == Six(v)[4..] + Six(w)
  {
    hide B0, B1, B2, Bit;
    var a, b := Six(v), Six(w);
    forall i | 0 <= i < 8
      ensures Octet(B0(v, w))[i] == if i < 6 - 0 then a[i + 0] else b[i - (6 - 0)]
      ensures Octet(B1(v, w))[i] == if i < 6 - 2 then a[i + 2] else b[i - (6 - 2)]
      ensures Octet(B2(v, w))[i] == if i < 6 - 4 then a[i + 4] else b[i - (6 - 4)]
    {
      GroupBit(v, w, i);
    }
    JoinBits(a, b, 0, Octet(B0(v, w)));
    JoinBits(a, b, 2, Octet(B1(v, w)));
    JoinBits(a, b, 4, Octet(B2(v, w)));
    assert Six(v)[0..] == Six(v) && Six(w)[..6] == Six(w);
  }

  lemma Regroup(a: seq<bool>, b: seq<bool>, c: seq<bool>, d: seq<bool>)
    requires |b| == 6 && |c| == 6
    ensures (a + b[..2]) + (b[2..] + c[..4]) + (c[4..] + d) == a + b + c + d
  {
  }

  lemma BytesOfGroup(v: seq<byte>)
    requires |v| == 4 && forall i :: 0 <= i < 4 ==> v[i] < 64
    ensures OctetBits([B0(v[0], v[1]), B1(v[1], v[2]), B2(v[2], v[3])]) == SextetBits(v)
  {
    hide B0, B1, B2, Octet, Six, OctetBits, SextetBits;
    OctetOfTwo(v[0], v[1]);
    OctetOfTwo(v[1], v[2]);
    OctetOfTwo(v[2], v[3]);
    Regroup(Six(v[0]), Six(v[1]), Six(v[2]), Six(v[3]));
    BitsOfThree(B0(v[0], v[1]), B1(v[1], v[2]), B2(v[2], v[3]));
    BitsOfFour(v[0], v[1], v[2], v[3]);
    assert v == [v[0], v[1], v[2], v[3]];
  }

  lemma {:induction false} BitsSplit(v: seq<byte>, n: nat)
    requires n <= |v|
    ensures SextetBits(v) == SextetBits(v[..n]) + SextetBits(v[n..])
    ensures OctetBits(v) == OctetBits(v[..n]) + OctetBits(v[n..])
  {
    hide Octet, Six;
    if n == 0 {
      assert v[..0] == [] && v[0..] == v;
    } else {
      BitsSplit(v[1..], n - 1);
      assert v[..n][0] == v[0];
      assert v[..n][1..] == v[1..][..n - 1] && v[1..][n - 1..] == v[n..];
    }
  }

  /** The bytes are as many whole octets of the bits of the values as there are, in order. */
  lemma {:induction false} BytesAreTheBits(v: seq<byte>)
    requires forall i :: 0 <= i < |v| ==> v[i] < 64
    ensures |Bytes(v)| == 6 * |v| / 8
    ensures OctetBits(Bytes(v)) == SextetBits(v)[..8 * |Bytes(v)|]
  {
    hide B0, B1, B2, OctetBits, SextetBits;
    if |v| >= 4 {
      var group := [B0(v[0], v[1]), B1(v[1], v[2]), B2(v[2], v[3])];
      BytesAreTheBits(v[4..]);
      BytesOfGroup(v[..4]);
      BitsSplit(v, 4);
      BitsSplit(Bytes(v), 3);
      assert Bytes(v)[..3] == group && Bytes(v)[3..] == Bytes(v[4..]);
    } else {
      // The values that are missing in the last group are as good as zero.
      LastBits(v, v + seq(4 - |v|, i requires 0 <= i < 4 - |v| => 0));
    }
  }

  lemma LastBits(v: seq<byte>, full: seq<byte>)
    requires |v| < 4 == |full| && v == full[..|v|] && forall i :: 0 <= i < 4 ==> full[i] < 64
    requires forall i :: |v| <= i < 4 ==> full[i] == 0
    ensures |Bytes(v)| == 6 * |v| / 8
    ensures OctetBits(Bytes(v)) == SextetBits(v)[..8 * |Bytes(v)|]
  {
    hide B0, B1, B2, OctetBits, SextetBits, Bytes;
    var group := [B0(full[0], full[1]), B1(full[1], full[2]), B2(full[2], full[3])];
    var n := 6 * |v| / 8;
    BytesOfGroup(full);
    BitsSplit(full, |v|);
    LastBytes(v, full);
    BitsSplit(group, n);
    assert OctetBits(Bytes(v)) == OctetBits(group)[..8 * n];
    assert SextetBits(v) == SextetBits(full)[..6 * |v|];
  }

  lemma LastBytes(v: seq<byte>, full: seq<byte>)
    requires |v| < 4 == |full| && v == full[..|v|] && forall i :: 0 <= i < 4 ==> full[i] < 64
    requires forall i :: |v| <= i < 4 ==> full[i] == 0
    ensures |Bytes(v)| == 6 * |v| / 8
    ensures Bytes(v) == [B0(full[0], full[1]), B1(full[1], full[2]), B2(full[2], full[3])][..|Bytes(v)|]
  {
    hide B0, B1, B2;
  }

  /** The byte that one more value completes, if it completes one. */
  function Completed(v: seq<byte>, w: byte): seq<byte> {
    var k := |v| % 4;
    if k == 0 then []
    else if k == 1 then [B0(v[|v| - 1], w)]
    else if k == 2 then [B1(v[|v| - 1], w)]
    else [B2(v[|v| - 1], w)]
  }

  lemma {:induction false} BytesOfOneMore(v: seq<byte>, w: byte)
    ensures Bytes(v + [w]) == Bytes(v) + Completed(v, w)
  {
    hide B0, B1, B2;
    if |v| >= 4 {
      BytesOfOneMore(v[4..], w);
      assert (v + [w])[4..] == v[4..] + [w];
      assert Completed(v, w) == Completed(v[4..], w);
    } else {
      assert |v| % 4 == |v|;
    }
  }

  // ---------------------------------------------------------------- Base64Unescape

  /** The bits of the last value that have not become part of a byte yet, and where they end. */
  ghost predicate Pending(v: seq<byte>, bitPos: int, dst: byte) {
    var k := |v| % 4;
    if k == 0 then bitPos == 0 && dst == 0
    else if k == 1 then bitPos == 6 && dst == LeftBy(v[|v| - 1], 2)
    else if k == 2 then bitPos == 4 && dst == LeftBy(v[|v| - 1], 4)
    else bitPos == 2 && dst == LeftBy(v[|v| - 1], 6)
  }

  lemma {:induction false} SignificantOneMore(s: string, c: char)
    ensures Significant(s + [c]) == Significant(s) + (if Blank(c) then "" else [c])
    ensures Skipped(c) <==> Blank(c)
  {
    if s == "" {
      assert s + [c] == [c];
      assert [c][1..] == "";
    } else {
      SignificantOneMore(s[1..], c);
      assert (s + [c])[1..] == s[1..] + [c];
    }
  }

  lemma {:induction false} ValuesOneMore(s: string, c: char)
    requires InAlphabet(s) && LetterValue(c) >= 0
    ensures InAlphabet(s + [c]) && Values(s + [c]) == Values(s) + [LetterValue(c) as byte]
  {
    if s == "" {
      assert s + [c] == [c];
      assert [c][1..] == "";
    } else {
      assert InAlphabet(s[1..]);
      ValuesOneMore(s[1..], c);
      assert (s + [c])[1..] == s[1..] + [c];
    }
  }

  lemma {:induction false} SignificantHolds(s: string, i: nat)
    requires i < |s| && !Blank(s[i])
    ensures s[i] in Significant(s)
  {
    if i > 0 {
      assert s[i] == s[1..][i - 1];
      SignificantHolds(s[1..], i - 1);
    }
  }

  /**
    Base64Unescape: white space and '=' are skipped anywhere; any other character outside the
    alphabet makes it fail with nothing decoded. What is decoded are the bits of the values in
    order, eight to a byte; bits that do not fill a byte are dropped.
  */
  method Base64Unescape(encoded: string) returns (ok: bool, decoded: seq<byte>)
    requires Ascii(encoded)
    ensures ok <==> InAlphabet(Significant(encoded))
    ensures ok ==> decoded == Bytes(Values(Significant(encoded)))
    ensures ok ==>
              && |decoded| == 6 * |Significant(encoded)| / 8
              && OctetBits(decoded) == SextetBits(Values(Significant(encoded)))[..8 * |decoded|]
    ensures !ok ==> decoded == []
  {
    hide Sextet, Values, Bytes, Significant, Alphabet, LetterValue, Skipped, Blank, OctetBits, SextetBits;
    decoded := [];
    var bitPos, dst: byte := 0, 0;
    ghost var v := [];
    NothingSignificant();
    var i := 0;
    while i < |encoded|
      invariant i <= |encoded| && InAlphabet(Significant(encoded[..i])) && v == Values(Significant(encoded[..i]))
      invariant decoded == Bytes(v) && Pending(v, bitPos, dst)
    {
      var c := encoded[i];
      assert encoded[..i + 1] == encoded[..i] + [c];
      SignificantOneMore(encoded[..i], c);
      i := i + 1;
      if Skipped(c) {
        assert Significant(encoded[..i]) == Significant(encoded[..i - 1]);
        continue;
      }
      TableInverts(c, 0);
      var value := Sextet(c);
      if value >= 64 {
        SignificantHolds(encoded, i - 1);
        return false, [];
      }
      ValuesOneMore(Significant(encoded[..i - 1]), c);
      BytesOfOneMore(v, value as byte);
      v := v + [value as byte];
      decoded, dst, bitPos := Consume(decoded, dst, bitPos, value as byte, v[..|v| - 1]);
    }
    assert encoded[..i] == encoded;
    BytesAreTheBits(v);
    ok := true;
  }

  lemma NothingSignificant()
    ensures Significant("") == "" && InAlphabet("") && Values("") == [] && Bytes([]) == []
  {
  }

  /** What one value does to the state of the decoder. */
  method Consume(decoded: seq<byte>, dst: byte, bitPos: int, value: byte, ghost v: seq<byte>)
    returns (decoded': seq<byte>, dst': byte, bitPos': int)
    requires Pending(v, bitPos, dst) && value < 64
    ensures Pending(v + [value], bitPos', dst') && decoded' == decoded + Completed(v, value)
  {
    hide Pending, Completed, RightBy, LeftBy, Or;
    PendingNext(v, bitPos, dst, value);
    if bitPos == 0 {
      return decoded, Or(dst, LeftBy(value, 2)), 6;
    }
    dst' := Or(dst, RightBy(value, bitPos - 2));
    decoded' := decoded + [dst'];
    dst' := LeftBy(value, 10 - bitPos);
    bitPos' := (bitPos + 6) % 8;
  }

  lemma PendingNext(v: seq<byte>, bitPos: int, dst: byte, value: byte)
    requires Pending(v, bitPos, dst) && value < 64
    ensures bitPos == 0 || bitPos == 2 || bitPos == 4 || bitPos == 6
    ensures bitPos == 0 ==> Pending(v + [value], 6, Or(dst, LeftBy(value, 2))) && Completed(v, value) == []
    ensures bitPos != 0 ==>
              && Pending(v + [value], (bitPos + 6) % 8, LeftBy(value, 10 - bitPos))
              && Completed(v, value) == [Or(dst, RightBy(value, bitPos - 2))]
  {
    hide B0, B1, B2, RightBy, LeftBy, Or;
    var n, w := |v|, v + [value];
    NextInGroup(n);
    assert |w| == n + 1 && w[n] == value;
    if n % 4 == 0 {
      ShiftsOf(0, value);
    } else {
      CompletesByte(v, bitPos, dst, value);
      ShiftsOf(v[n - 1], value);
    }
  }

  lemma CompletesByte(v: seq<byte>, bitPos: int, dst: byte, value: byte)
    requires Pending(v, bitPos, dst) && |v| % 4 != 0
    ensures bitPos == 2 || bitPos == 4 || bitPos == 6
    ensures Completed(v, value) == [Or(dst, RightBy(value, bitPos - 2))]
  {
    ShiftsOf(v[|v| - 1], value);
    hide B0, B1, B2, RightBy, LeftBy, Or;
  }

  lemma NextInGroup(n: nat)
    ensures n % 4 == 0 ==> (n + 1) % 4 == 1
    ensures n % 4 == 1 ==> (n + 1) % 4 == 2
    ensures n % 4 == 2 ==> (n + 1) % 4 == 3
    ensures n % 4 == 3 ==> (n + 1) % 4 == 0
  {
  }

  lemma ShiftsOf(last: byte, value: byte)
    ensures Or(0, LeftBy(value, 2)) == LeftBy(value, 2)
    ensures Or(LeftBy(last, 2), RightBy(value, 4)) == B0(last, value)
    ensures Or(LeftBy(last, 4), RightBy(value, 2)) == B1(last, value)
    ensures Or(LeftBy(last, 6), RightBy(value, 0)) == B2(last, value) && LeftBy(value, 8) == 0
  {
  }

  /** The shifts that occur; a shift by 8 leaves nothing in a char. */
  function RightBy(value: byte, n: int): byte
    requires n == 0 || n == 2 || n == 4
  {
    if n == 0 then value else if n == 2 then value >> 2 else value >> 4
  }

  function Or(a: byte, b: byte): byte {
    a | b
  }

  function LeftBy(value: byte, n: int): byte
    requires n == 2 || n == 4 || n == 6 || n == 8
  {
    if n == 2 then value << 2 else if n == 4 then value << 4 else if n == 6 then value << 6 else 0
  }

  // ---------------------------------------------------------------- the encoding

  function Letters(v: seq<byte>): string
    requires forall i :: 0 <= i < |v| ==> v[i] < 64
  {
    if v == [] then "" else [LetterOf(v[0] as int)] + Letters(v[1..])
  }

  /** The character with a value, by its code: Table 1 of RFC 4648. */
  function LetterOf(v: int): char
    requires 0 <= v < 64
  {
    (if v < 26 then 65 + v else if v < 52 then 97 + v - 26 else if v < 62 then 48 + v - 52
     else if v == 62 then 43 else 47) as char
  }

  /** The encoding of section 4 of RFC 4648, padded to groups of four characters. */
  function Encode(b: seq<byte>): string {
    Letters(Split(b)) + (if |b| % 3 == 1 then "==" else if |b| % 3 == 2 then "=" else "")
  }

  lemma {:induction false} LettersHaveValues(v: seq<byte>)
    requires forall i :: 0 <= i < |v| ==> v[i] < 64
    ensures Significant(Letters(v)) == Letters(v) && InAlphabet(Letters(v)) && Values(Letters(v)) == v
    ensures |Letters(v)| == |v|
  {
    if v != [] {
      LettersHaveValues(v[1..]);
      LetterIsSignificant(v[0] as int);
      hide LetterValue, LetterOf, Blank;
      assert Letters(v)[1..] == Letters(v[1..]);
      assert v == [v[0]] + v[1..];
    }
  }

  lemma LetterIsSignificant(v: int)
    requires 0 <= v < 64
    ensures !Blank(LetterOf(v)) && LetterValue(LetterOf(v)) == v
  {
  }

  /** The encoding carries the bits of the bytes in order and fills groups of four characters. */
  lemma EncodingShape(b: seq<byte>)
    ensures |Letters(Split(b))| == |Split(b)| == (8 * |b| + 5) / 6
    ensures SextetBits(Split(b))[..8 * |b|] == OctetBits(b)
    ensures |Encode(b)| == (|b| + 2) / 3 * 4
  {
    hide Split, Letters, Bytes, OctetBits, SextetBits;
    SplitLength(b);
    PaddedLength(|b|);
    LettersHaveValues(Split(b));
    BytesOfSplit(b);
    BytesAreTheBits(Split(b));
  }

  lemma PaddedLength(n: nat)
    ensures (8 * n + 5) / 6 + (if n % 3 == 1 then 2 else if n % 3 == 2 then 1 else 0) == (n + 2) / 3 * 4
  {
    var q := n / 3;
    assert n == 3 * q || n == 3 * q + 1 || n == 3 * q + 2;
  }

  lemma {:induction false} SplitLength(b: seq<byte>)
    ensures |Split(b)| == (8 * |b| + 5) / 6
  {
    if |b| >= 3 {
      SplitLength(b[3..]);
    }
  }

  lemma SignificantOfEncoding(b: seq<byte>)
    ensures Significant(Encode(b)) == Letters(Split(b))
  {
    hide Split, Letters, Significant;
    var letters := Letters(Split(b));
    LettersHaveValues(Split(b));
    SignificantOneMore(letters, '=');
    SignificantOneMore(letters + ['='], '=');
    assert letters + "=" == letters + ['='];
    assert letters + "==" == letters + ['='] + ['='];
    assert letters + "" == letters;
  }

  /**
    Decoding inverts encoding: a text that differs from the encoding of some bytes only in where
    white space and '=' stand is decoded to those bytes.
  */
  lemma DecodingInvertsEncoding(b: seq<byte>, encoded: string)
    requires Significant(encoded) == Significant(Encode(b))
    ensures InAlphabet(Significant(encoded)) && Bytes(Values(Significant(encoded))) == b
  {
    SignificantOfEncoding(b);
    LettersHaveValues(Split(b));
    BytesOfSplit(b);
  }
}
