/** Base64 encoding with a 32-bit accumulator. */
module Base64 {
  import opened Common
  import opened Text

  type Byte = b: int | 0 <= b < 256

  /** The value of a sum or shift kept in a 32-bit two's complement int. */
  function Int32(x: int): int {
    (x + 0x8000_0000) % 0x1_0000_0000 - 0x8000_0000
  }

  // ----- what an encoding is: three bytes to four letters, with one or two '=' at the end

  /** The lookup table: A to Z, a to z, 0 to 9, '+', '/'. */
  function Letter(i: nat): char
    requires i < 64
  {
    if i < 26 then ('A' as int + i) as char
    else if i < 52 then ('a' as int + i - 26) as char
    else if i < 62 then ('0' as int + i - 52) as char
    else if i == 62 then '+' else '/'
  }

  function Triple(a: Byte, b: Byte, c: Byte): string {
    [Letter(a / 4), Letter((a % 4) * 16 + b / 16), Letter((b % 16) * 4 + c / 64), Letter(c % 64)]
  }

  function Encoded(s: seq<Byte>): (e: string)
    ensures |e| == (|s| + 2) / 3 * 4
  {
    if |s| == 0 then ""
    else if |s| == 1 then [Letter(s[0] / 4), Letter((s[0] % 4) * 16), '=', '=']
    else if |s| == 2 then [Letter(s[0] / 4), Letter((s[0] % 4) * 16 + s[1] / 16), Letter((s[1] % 16) * 4), '=']
    else Triple(s[0], s[1], s[2]) + Encoded(s[3..])
  }

  // ----- a strict decoder, section 4 of RFC 4648

  function Sextet(c: char): Option<nat> {
    if 'A' <= c <= 'Z' then Some(c as int - 'A' as int)
    else if 'a' <= c <= 'z' then Some(c as int - 'a' as int + 26)
    else if '0' <= c <= '9' then Some(c as int - '0' as int + 52)
    else if c == '+' then Some(62)
    else if c == '/' then Some(63)
    else None
  }

  lemma SextetOfLetter(i: nat)
    requires i < 64
    ensures Sextet(Letter(i)) == Some(i)
  {
  }

  lemma LetterOfSextet(c: char)
    ensures Sextet(c).Some? ==> Sextet(c).value < 64 && Letter(Sextet(c).value) == c
  {
  }

  function Quad(w: nat, x: nat, y: nat, z: nat): (s: seq<Byte>)
    requires w < 64 && x < 64 && y < 64 && z < 64
  {
    [w * 4 + x / 16, (x % 16) * 16 + y / 4, (y % 4) * 64 + z]
  }

  function Decode(e: string): Option<seq<Byte>> {
    if e == "" then Some([])
    else if |e| < 4 then None
    else
      var w, x, y, z := Sextet(e[0]), Sextet(e[1]), Sextet(e[2]), Sextet(e[3]);
      if w.None? || x.None? then None
      else if e[2..] == "==" then
        if x.value % 16 == 0 then Some([w.value * 4 + x.value / 16]) else None
      else if y.None? then None
      else if e[3..] == "=" then
        if y.value % 4 == 0 then Some([w.value * 4 + x.value / 16, (x.value % 16) * 16 + y.value / 4]) else None
      else if z.None? then None
      else
        var rest := Decode(e[4..]);
        if rest.None? then None else Some(Quad(w.value, x.value, y.value, z.value) + rest.value)
  }

  lemma QuadOfTriple(a: Byte, b: Byte, c: Byte)
    ensures Quad(a / 4, (a % 4) * 16 + b / 16, (b % 16) * 4 + c / 64, c % 64) == [a, b, c]
  {
  }

  lemma {:induction false} DecodeTriple(a: Byte, b: Byte, c: Byte, rest: string)
    ensures Decode(Triple(a, b, c) + rest) ==
            if Decode(rest).None? then None else Some([a, b, c] + Decode(rest).value)
  {
    var e := Triple(a, b, c) + rest;
    SextetOfLetter(a / 4);
    SextetOfLetter((a % 4) * 16 + b / 16);
    SextetOfLetter((b % 16) * 4 + c / 64);
    SextetOfLetter(c % 64);
    QuadOfTriple(a, b, c);
    assert e[4..] == rest;
    assert e[2..][0] == e[2] && e[3..][0] == e[3];
  }

  lemma DecodeOne(a: Byte)
    ensures Decode(Encoded([a])) == Some([a])
  {
    var e := [Letter(a / 4), Letter((a % 4) * 16), '=', '='];
    SextetOfLetter(a / 4);
    SextetOfLetter((a % 4) * 16);
    assert e[2..] == "==";
    assert a / 4 * 4 + (a % 4) * 16 / 16 == a && (a % 4) * 16 % 16 == 0;
  }

  lemma TwoBytes(a: Byte, b: Byte)
    ensures var x, y := (a % 4) * 16 + b / 16, (b % 16) * 4;
            a / 4 * 4 + x / 16 == a && (x % 16) * 16 + y / 4 == b && y % 4 == 0
  {
    DivMod(a % 4, b / 16, 16);
    DivMod(b % 16, 0, 4);
  }

  lemma DecodeTwo(a: Byte, b: Byte)
    ensures Decode(Encoded([a, b])) == Some([a, b])
  {
    var e := [Letter(a / 4), Letter((a % 4) * 16 + b / 16), Letter((b % 16) * 4), '='];
    SextetOfLetter(a / 4);
    SextetOfLetter((a % 4) * 16 + b / 16);
    SextetOfLetter((b % 16) * 4);
    assert e[3..] == "=" && e[2..][0] == e[2];
    TwoBytes(a, b);
  }

  /** Decoding undoes encoding. */
  lemma {:induction false} DecodeOfEncoded(s: seq<Byte>)
    ensures Decode(Encoded(s)) == Some(s)
  {
    if |s| == 0 {
    } else if |s| == 1 {
      assert s == [s[0]];
      DecodeOne(s[0]);
    } else if |s| == 2 {
      assert s == [s[0], s[1]];
      DecodeTwo(s[0], s[1]);
    } else {
      assert s == [s[0], s[1], s[2]] + s[3..];
      DecodeOfEncoded(s[3..]);
      DecodeMore(s[0], s[1], s[2], s[3..]);
    }
  }

  lemma {:induction false} DecodeMore(a: Byte, b: Byte, c: Byte, rest: seq<Byte>)
    requires Decode(Encoded(rest)) == Some(rest)
    ensures Decode(Encoded([a, b, c] + rest)) == Some([a, b, c] + rest)
  {
    var s := [a, b, c] + rest;
    assert s[3..] == rest;
    DecodeTriple(a, b, c, Encoded(rest));
  }

  lemma DivMod(q: nat, r: nat, n: nat)
    requires n == 4 || n == 16 || n == 64
    requires r < n
    ensures (q * n + r) / n == q && (q * n + r) % n == r
  {
  }

  lemma {:induction false} TripleOfQuad(w: nat, x: nat, y: nat, z: nat)
    requires w < 64 && x < 64 && y < 64 && z < 64
    ensures var s := Quad(w, x, y, z); Triple(s[0], s[1], s[2]) == [Letter(w), Letter(x), Letter(y), Letter(z)]
  {
    hide Letter;
    DivMod(w, x / 16, 4);
    DivMod(x % 16, y / 4, 16);
    DivMod(y % 4, z, 64);
    assert x / 16 * 16 + x % 16 == x && y / 4 * 4 + y % 4 == y;
  }

  lemma {:induction false} DecodesOnlyEncoded(e: string)
    requires Decode(e).Some?
    ensures Encoded(Decode(e).value) == e
  {
    if e == "" {
    } else if e[2..] == "==" {
      FirstFour(e);
      OneDecoded(e[0], e[1]);
    } else if e[3..] == "=" {
      FirstFour(e);
      TwoDecoded(e[0], e[1], e[2]);
    } else {
      DecodesOnlyEncoded(e[4..]);
      FirstFour(e);
      MoreDecoded(e[0], e[1], e[2], e[3], e[4..]);
    }
  }

  lemma FirstFour(e: string)
    requires |e| >= 4
    ensures e == [e[0], e[1], e[2], e[3]] + e[4..]
    ensures e[2..] == "==" ==> e == [e[0], e[1], '=', '=']
    ensures e[3..] == "=" ==> e == [e[0], e[1], e[2], '=']
  {
    if e[2..] == "==" {
      assert e[2] == e[2..][0] && e[3] == e[2..][1];
    }
    if e[3..] == "=" {
      assert e[3] == e[3..][0];
    }
  }

  lemma OneDecoded(p: char, q: char)
    requires Decode([p, q, '=', '=']).Some?
    ensures Encoded(Decode([p, q, '=', '=']).value) == [p, q, '=', '=']
  {
    assert [p, q, '=', '='][2..] == "==";
    LetterOfSextet(p);
    LetterOfSextet(q);
    EncodedOne(Sextet(p).value, Sextet(q).value);
  }

  lemma {:induction false} TwoDecoded(p: char, q: char, r: char)
    requires r != '=' && Decode([p, q, r, '=']).Some?
    ensures Encoded(Decode([p, q, r, '=']).value) == [p, q, r, '=']
  {
    assert [p, q, r, '='][3..] == "=" && [p, q, r, '='][2..][0] == r;
    LetterOfSextet(p);
    LetterOfSextet(q);
    LetterOfSextet(r);
    EncodedTwo(Sextet(p).value, Sextet(q).value, Sextet(r).value);
  }

  lemma {:induction false} MoreDecoded(p: char, q: char, r: char, u: char, rest: string)
    requires Decode(rest).Some? && Encoded(Decode(rest).value) == rest
    requires ([p, q, r, u] + rest)[2..] != "==" && ([p, q, r, u] + rest)[3..] != "="
    requires Decode([p, q, r, u] + rest).Some?
    ensures Encoded(Decode([p, q, r, u] + rest).value) == [p, q, r, u] + rest
  {
    assert ([p, q, r, u] + rest)[4..] == rest;
    LetterOfSextet(p);
    LetterOfSextet(q);
    LetterOfSextet(r);
    LetterOfSextet(u);
    EncodedMore(Sextet(p).value, Sextet(q).value, Sextet(r).value, Sextet(u).value, Decode(rest).value);
  }

  lemma EncodedOne(w: nat, x: nat)
    requires w < 64 && x < 64 && x % 16 == 0
    ensures Encoded([w * 4 + x / 16]) == [Letter(w), Letter(x), '=', '=']
  {
    DivMod(w, x / 16, 4);
  }

  lemma EncodedTwo(w: nat, x: nat, y: nat)
    requires w < 64 && x < 64 && y < 64 && y % 4 == 0
    ensures Encoded([w * 4 + x / 16, (x % 16) * 16 + y / 4]) == [Letter(w), Letter(x), Letter(y), '=']
  {
    DivMod(w, x / 16, 4);
    DivMod(x % 16, y / 4, 16);
  }

  lemma {:induction false} EncodedMore(w: nat, x: nat, y: nat, z: nat, rest: seq<Byte>)
    requires w < 64 && x < 64 && y < 64 && z < 64
    ensures Encoded(Quad(w, x, y, z) + rest) == [Letter(w), Letter(x), Letter(y), Letter(z)] + Encoded(rest)
  {
    var s := Quad(w, x, y, z) + rest;
    TripleOfQuad(w, x, y, z);
    assert s[3..] == rest;
  }

  /** A string decodes to s exactly when it is the encoding of s; so the encoding is injective and every
      string the decoder accepts is canonical. */
  lemma {:induction false} DecodesIffEncoded(e: string, s: seq<Byte>)
    ensures Decode(e) == Some(s) <==> e == Encoded(s)
  {
    DecodeOfEncoded(s);
    if Decode(e) == Some(s) { DecodesOnlyEncoded(e); }
  }

  // ----- the loop

  /** The letters for the complete triples of s. */
  function Whole(s: seq<Byte>): (w: string)
    ensures |w| % 4 == 0
  {
    if |s| < 3 then "" else Triple(s[0], s[1], s[2]) + Whole(s[3..])
  }

  /** The letters already complete in a rest of at most two bytes. */
  function Partial(rest: seq<Byte>): string {
    if |rest| == 1 then [Letter(rest[0] / 4)]
    else if |rest| == 2 then [Letter(rest[0] / 4), Letter((rest[0] % 4) * 16 + rest[1] / 16)]
    else ""
  }

  /** What the low bits of the accumulator must still know. */
  predicate Knows(val: int, rest: seq<Byte>) {
    if |rest| == 1 then val % 0x100 == rest[0]
    else |rest| == 2 ==> val % 0x1_0000 == (rest[0] as int) * 0x100 + rest[1]
  }

  /** The state of the loop after complete triples and a rest. */
  ghost predicate After(triples: seq<Byte>, rest: seq<Byte>, val: int, valb: int, out: string) {
    && |triples| % 3 == 0 && |rest| < 3 && valb == 2 * |rest| - 6
    && out == Whole(triples) + Partial(rest) && Knows(val, rest)
  }

  lemma {:induction false} WholeSnoc(s: seq<Byte>, a: Byte, b: Byte, c: Byte)
    requires |s| % 3 == 0
    ensures Whole(s + [a, b, c]) == Whole(s) + Triple(a, b, c)
  {
    var t := s + [a, b, c];
    if s == [] {
      assert t[3..] == [];
    } else {
      assert t[3..] == s[3..] + [a, b, c];
      WholeSnoc(s[3..], a, b, c);
    }
  }

  lemma {:induction false} EncodedSplit(triples: seq<Byte>, rest: seq<Byte>)
    requires |triples| % 3 == 0
    ensures Encoded(triples + rest) == Whole(triples) + Encoded(rest)
  {
    if triples == [] {
      assert triples + rest == rest;
    } else {
      var t := triples[3..];
      EncodedSplit(t, rest);
      FirstThree(triples, rest);
      EncodedCons(triples[0], triples[1], triples[2], t + rest);
      Assoc(Triple(triples[0], triples[1], triples[2]), Whole(t), Encoded(rest));
    }
  }

  lemma FirstThree<T>(a: seq<T>, b: seq<T>)
    requires |a| >= 3
    ensures a + b == [a[0], a[1], a[2]] + (a[3..] + b)
  {
  }

  lemma EncodedCons(a: Byte, b: Byte, c: Byte, rest: seq<Byte>)
    ensures Encoded([a, b, c] + rest) == Triple(a, b, c) + Encoded(rest)
  {
    assert ([a, b, c] + rest)[3..] == rest;
  }

  lemma DivPlus(q: int, r: int, n: nat)
    requires n == 4 || n == 16 || n == 64 || n == 0x100 || n == 0x1_0000
    ensures (q * n + r) / n == q + r / n && (q * n + r) % n == r % n
  {
    if n == 4 { assert (q * 4 + r) / 4 == q + r / 4; }
    else if n == 16 { assert (q * 16 + r) / 16 == q + r / 16; }
    else if n == 64 { assert (q * 64 + r) / 64 == q + r / 64; }
    else if n == 0x100 { assert (q * 0x100 + r) / 0x100 == q + r / 0x100; }
    else { assert (q * 0x1_0000 + r) / 0x1_0000 == q + r / 0x1_0000; }
  }

  /** What the next value must know of a byte shifted in and of the one before it. */
  predicate ShiftedIn(val: int, c: Byte, val': int) {
    val' % 0x100 == c && val' % 0x1_0000 == (val % 0x100) * 0x100 + c
  }

  /** Wrapping to 32 bits does not touch the low 16 bits. */
  lemma Shifted(val: int, c: Byte)
    ensures ShiftedIn(val, c, Int32(val * 0x100) + c)
  {
    var x := val * 0x100;
    var k := (x + 0x8000_0000) / 0x1_0000_0000;
    assert Int32(x) == x - k * 0x1_0000_0000;
    DivPlus(val - k * 0x100_0000, c, 0x100);
    DivPlus(val / 0x100 - k * 0x1_0000, (val % 0x100) * 0x100 + c, 0x1_0000);
  }

  function Exp2(n: nat): (p: nat)
    ensures p > 0
  {
    if n == 0 then 1 else 2 * Exp2(n - 1)
  }

  lemma Powers()
    ensures Exp2(0) == 1 && Exp2(2) == 4 && Exp2(4) == 16 && Exp2(6) == 64
  {
    assert Exp2(1) == 2 && Exp2(3) == 8 && Exp2(5) == 32;
  }

  /** The letter for the six bits above position n; the division is an arithmetic right shift. */
  function Bits(val: int, n: nat): char {
    Letter((val / Exp2(n)) % 64)
  }

  /** The inner loop: the letters that have become complete. */
  method Flush(val: int, valb0: int, out0: string) returns (valb: int, out: string)
    requires valb0 == 2 || valb0 == 4 || valb0 == 6
    ensures Flushed(val, valb0, out0, valb, out)
  {
    valb, out := valb0, out0;
    while valb >= 0
      invariant (valb == valb0 && out == out0)
             || (valb == valb0 - 6 && out == out0 + [Bits(val, valb0)])
             || (valb0 == 6 && valb == -6 && out == out0 + [Bits(val, 6), Bits(val, 0)])
    {
      out := out + [Bits(val, valb)];
      valb := valb - 6;
    }
  }

  /** A shift that stays below bit 16 sees only the low 16 bits. */
  lemma {:induction false} LowBits(val: int, q: int, low: nat)
    requires val == q * 0x1_0000 + low && low < 0x1_0000
    ensures (val / 4) % 64 == (low / 4) % 64
    ensures (val / 16) % 64 == (low / 16) % 64
    ensures (val / 64) % 64 == (low / 64) % 64
    ensures val % 64 == low % 64 && val % 0x100 == low % 0x100
  {
    DivPlus(q * 0x4000, low, 4);
    DivPlus(q * 0x1000, low, 16);
    DivPlus(q * 0x400, low, 64);
    DivPlus(q * 0x100, low / 4, 64);
    DivPlus(q * 0x40, low / 16, 64);
    DivPlus(q * 0x10, low / 64, 64);
    DivPlus(q * 0x100, low, 0x100);
  }

  /** The six-bit groups in two adjacent bytes. */
  lemma Groups(a: Byte, b: Byte)
    ensures var low := (a as int) * 0x100 + b;
            && (low / 16) % 64 == (a % 4) * 16 + b / 16
            && (low / 64) % 64 == (a % 16) * 4 + b / 64
            && (low / 4) % 64 == b / 4 && low % 64 == b % 64
  {
    LowGroup(a, b);
    MiddleGroup(a, b);
    HighGroup(a, b);
  }

  lemma LowGroup(a: Byte, b: Byte)
    ensures (((a as int) * 0x100 + b) / 4) % 64 == b / 4
  {
    DivPlus((a as int) * 64, b, 4);
    DivPlus(a, b / 4, 64);
  }

  lemma HighGroup(a: Byte, b: Byte)
    ensures (((a as int) * 0x100 + b) / 64) % 64 == (a % 16) * 4 + b / 64
    ensures ((a as int) * 0x100 + b) % 64 == b % 64
  {
    DivPlus((a as int) * 4, b, 64);
    DivPlus(a / 16, a % 16 * 4 + b / 64, 64);
  }

  lemma MiddleGroup(a: Byte, b: Byte)
    ensures (((a as int) * 0x100 + b) / 16) % 64 == (a % 4) * 16 + b / 16
  {
    DivPlus((a as int) * 16, b, 16);
    DivPlus(a / 4, a % 4 * 16 + b / 16, 64);
  }

  lemma {:induction false} BitsOf(val: int, a: Byte, b: Byte)
    requires val % 0x1_0000 == (a as int) * 0x100 + b
    ensures (val / 4) % 64 == b / 4
    ensures (val / 16) % 64 == (a % 4) * 16 + b / 16
    ensures (val / 64) % 64 == (a % 16) * 4 + b / 64 && val % 64 == b % 64
  {
    LowBits(val, val / 0x1_0000, val % 0x1_0000);
    Groups(a, b);
  }

  ghost function Triples(triples: seq<Byte>, rest: seq<Byte>, c: Byte): seq<Byte> {
    if |rest| == 2 then triples + (rest + [c]) else triples
  }

  ghost function Rest(rest: seq<Byte>, c: Byte): seq<Byte> {
    if |rest| == 2 then [] else rest + [c]
  }

  /** What the inner loop leaves behind. */
  ghost predicate Flushed(val: int, valb0: int, out0: string, valb: int, out: string)
    requires 0 <= valb0
  {
    if valb0 < 6 then valb == valb0 - 6 && out == out0 + [Bits(val, valb0)]
    else valb == -6 && out == out0 + [Bits(val, 6), Bits(val, 0)]
  }

  /** One byte keeps the loop's state; what precedes the rest in the accumulator does not matter. */
  lemma {:induction false} StepKeeps(triples: seq<Byte>, rest: seq<Byte>, val: int, valb: int, out: string, c: Byte,
                                     val': int, valb': int, out': string)
    requires After(triples, rest, val, valb, out) && ShiftedIn(val, c, val')
    requires Flushed(val', valb + 8, out, valb', out')
    ensures After(Triples(triples, rest, c), Rest(rest, c), val', valb', out')
  {
    hide Bits, Whole, Int32;
    if |rest| == 0 {
      StepZero(triples, rest, val, valb, out, c, val', valb', out');
    } else if |rest| == 1 {
      StepOne(triples, rest, val, valb, out, c, val', valb', out');
    } else {
      var a, b := rest[0], rest[1];
      assert rest == [a, b] && rest + [c] == [a, b, c];
      LowByte(val, a, b);
      StepTwo(triples, a, b, c, val');
      assert Whole(triples + [a, b, c]) + "" == Whole(triples + [a, b, c]);
    }
  }

  lemma {:induction false} StepZero(triples: seq<Byte>, rest: seq<Byte>, val: int, valb: int, out: string, c: Byte,
                                    val': int, valb': int, out': string)
    requires After(triples, rest, val, valb, out) && ShiftedIn(val, c, val')
    requires Flushed(val', valb + 8, out, valb', out')
    requires |rest| == 0
    ensures After(Triples(triples, rest, c), Rest(rest, c), val', valb', out')
  {
    FirstBits(val', c);
    assert Rest(rest, c) == [c];
    assert Whole(triples) + "" == Whole(triples);
  }

  lemma {:induction false} StepOne(triples: seq<Byte>, rest: seq<Byte>, val: int, valb: int, out: string, c: Byte,
                                   val': int, valb': int, out': string)
    requires After(triples, rest, val, valb, out) && ShiftedIn(val, c, val')
    requires Flushed(val', valb + 8, out, valb', out')
    requires |rest| == 1
    ensures After(Triples(triples, rest, c), Rest(rest, c), val', valb', out')
  {
    SecondBits(val', rest[0], c);
    assert Partial(Rest(rest, c)) == Partial(rest) + [Bits(val', 4)];
    Assoc(Whole(triples), Partial(rest), [Bits(val', 4)]);
  }

  /** The two letters of a byte that completes a group. */
  lemma {:induction false} StepTwo(triples: seq<Byte>, a: Byte, b: Byte, c: Byte, val: int)
    requires |triples| % 3 == 0 && val % 0x1_0000 == (b as int) * 0x100 + c
    ensures Whole(triples) + Partial([a, b]) + [Bits(val, 6), Bits(val, 0)] == Whole(triples + [a, b, c])
  {
    LastBits(val, b, c);
    WholeSnoc(triples, a, b, c);
    Assoc(Whole(triples), Partial([a, b]), [Bits(val, 6), Bits(val, 0)]);
    assert Partial([a, b]) + [Bits(val, 6), Bits(val, 0)] == Triple(a, b, c);
  }

  lemma LowByte(val: int, a: Byte, b: Byte)
    requires val % 0x1_0000 == (a as int) * 0x100 + b
    ensures val % 0x100 == b
  {
    LowBits(val, val / 0x1_0000, val % 0x1_0000);
    DivPlus(a, b, 0x100);
  }

  lemma FirstBits(val: int, c: Byte)
    requires val % 0x100 == c
    ensures Bits(val, 2) == Letter(c / 4)
  {
    Powers();
    DivPlus((val / 0x100) * 0x40, c, 4);
    DivPlus(val / 0x100, c / 4, 64);
  }

  lemma {:induction false} SecondBits(val: int, a: Byte, c: Byte)
    requires val % 0x1_0000 == (a as int) * 0x100 + c
    ensures Bits(val, 4) == Letter((a % 4) * 16 + c / 16)
  {
    Powers();
    BitsOf(val, a, c);
  }

  lemma {:induction false} LastBits(val: int, b: Byte, c: Byte)
    requires val % 0x1_0000 == (b as int) * 0x100 + c
    ensures Bits(val, 6) == Letter((b % 16) * 4 + c / 64) && Bits(val, 0) == Letter(c % 64)
  {
    Powers();
    BitsOf(val, b, c);
  }

  lemma {:induction false} TailOne(val: int, a: Byte)
    requires val % 0x100 == a
    ensures Bits(Int32(val * 0x100), 4) == Letter((a % 4) * 16)
  {
    Shifted(val, 0);
    SecondBits(Int32(val * 0x100), a, 0);
  }

  lemma {:induction false} TailTwo(val: int, a: Byte, b: Byte)
    requires val % 0x1_0000 == (a as int) * 0x100 + b
    ensures Bits(Int32(val * 0x100), 6) == Letter((b % 16) * 4)
  {
    Shifted(val, 0);
    LowByte(val, a, b);
    LastBits(Int32(val * 0x100), b, 0);
  }

  function Pads(k: nat): string {
    seq(k, _ => '=')
  }

  function Padded(s: string): string {
    s + Pads((4 - |s| % 4) % 4)
  }

  method Pad(out0: string) returns (out: string)
    ensures out == Padded(out0)
  {
    out := out0;
    var k: nat := 0;
    while |out| % 4 != 0
      invariant k <= (4 - |out0| % 4) % 4 && out == out0 + Pads(k)
      decreases (4 - |out0| % 4) % 4 - k
    {
      out := out + ['='];
      k := k + 1;
    }
  }

  /** After the last byte, the remaining bits and the padding complete the encoding. */
  lemma Finished(triples: seq<Byte>, rest: seq<Byte>, val: int, valb: int, out: string)
    requires After(triples, rest, val, valb, out)
    ensures var full := if valb > -6 then out + [Bits(Int32(val * 0x100), valb + 8)] else out;
            Padded(full) == Encoded(triples + rest)
  {
    hide Encoded, Padded;
    EncodedSplit(triples, rest);
    if |rest| == 0 {
      NothingToFinish(out);
    } else if |rest| == 1 {
      assert rest == [rest[0]];
      FinishedOne(Whole(triples), rest[0], val);
    } else {
      assert rest == [rest[0], rest[1]];
      FinishedTwo(Whole(triples), rest[0], rest[1], val);
    }
  }

  lemma NothingToFinish(w: string)
    requires |w| % 4 == 0
    ensures Padded(w) == w && Encoded([]) == ""
  {
  }

  lemma {:induction false} FinishedOne(w: string, a: Byte, val: int)
    requires |w| % 4 == 0 && val % 0x100 == a
    ensures var full := w + [Letter(a / 4)] + [Bits(Int32(val * 0x100), 4)];
            Padded(full) == w + Encoded([a])
  {
    TailOne(val, a);
    PadTwo(w, Letter(a / 4), Letter((a % 4) * 16));
  }

  lemma {:induction false} FinishedTwo(w: string, a: Byte, b: Byte, val: int)
    requires |w| % 4 == 0 && val % 0x1_0000 == (a as int) * 0x100 + b
    ensures var full := w + [Letter(a / 4), Letter((a % 4) * 16 + b / 16)] + [Bits(Int32(val * 0x100), 6)];
            Padded(full) == w + Encoded([a, b])
  {
    TailTwo(val, a, b);
    PadOne(w, Letter(a / 4), Letter((a % 4) * 16 + b / 16), Letter((b % 16) * 4));
  }

  lemma PadTwo(w: string, x: char, y: char)
    requires |w| % 4 == 0
    ensures var full := w + [x] + [y]; Padded(full) == w + [x, y, '=', '=']
  {
    assert Pads(2) == "==";
  }

  lemma PadOne(w: string, x: char, y: char, z: char)
    requires |w| % 4 == 0
    ensures var full := w + [x, y] + [z]; Padded(full) == w + [x, y, z, '=']
  {
    assert Pads(1) == "=";
  }

  method Base64Encode(s: seq<Byte>) returns (out: string)
    ensures out == Encoded(s)
  {
    out := "";
    var val, valb := 0, -6;
    ghost var triples: seq<Byte>, rest: seq<Byte> := [], [];
    for i := 0 to |s|
      invariant After(triples, rest, val, valb, out) && triples + rest == s[..i]
    {
      ghost var val0, valb0, out0 := val, valb, out;
      val := Int32(val * 0x100) + s[i];
      valb := valb + 8;
      valb, out := Flush(val, valb, out);
      Shifted(val0, s[i]);
      StepKeeps(triples, rest, val0, valb0, out0, s[i], val, valb, out);
      triples, rest := Triples(triples, rest, s[i]), Rest(rest, s[i]);
      assert s[..i + 1] == s[..i] + [s[i]];
    }
    assert s[..|s|] == s;
    Finished(triples, rest, val, valb, out);
    if valb > -6 {
      out := out + [Bits(Int32(val * 0x100), valb + 8)];
    }
    out := Pad(out);
  }

  /** Table 1 of RFC 4648. */
  lemma LetterIsTable(i: nat)
    requires i < 63
    ensures Letter(0) == 'A' && Letter(25) == 'Z' && Letter(26) == 'a' && Letter(51) == 'z'
    ensures Letter(52) == '0' && Letter(61) == '9' && Letter(62) == '+' && Letter(63) == '/'
    ensures i != 25 && i != 51 && i != 61 && i != 62 ==> Letter(i + 1) as int == Letter(i) as int + 1
  {
  }

  /** What is kept in an int: the same number modulo 2 to the 32nd, within its range. */
  lemma Int32Is(x: int)
    ensures -0x8000_0000 <= Int32(x) < 0x8000_0000 && (Int32(x) - x) % 0x1_0000_0000 == 0
    ensures -0x8000_0000 <= x < 0x8000_0000 ==> Int32(x) == x
  {
    var q := (x + 0x8000_0000) / 0x1_0000_0000;
    assert Int32(x) - x == -q * 0x1_0000_0000;
    assert (-q * 0x1_0000_0000) % 0x1_0000_0000 == 0 by { DividesProduct(-q); }
  }

  lemma DividesProduct(q: int)
    ensures (q * 0x1_0000_0000) % 0x1_0000_0000 == 0
  {
  }
}
