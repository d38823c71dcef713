/** Query strings: percent coding of components, and printing and parsing of parameters. */
module Query {
  import opened Common
  import opened Text

  /** Every character stands for a byte. */
  ghost predicate IsBytes(s: string) {
    forall i :: 0 <= i < |s| ==> s[i] as int < 256
  }

  // ----- component coding

  function HexUpper(d: nat): char
    requires d < 16
  {
    if d < 10 then ('0' as int + d) as char else ('A' as int + d - 10) as char
  }

  /** The characters that stand for themselves, space and '+' aside. */
  predicate IsQuerySafe(c: char) {
    || IsAlnum(c) || c == '-' || c == '.' || c == '_' || c == '~'
    || c == '!' || c == '$' || c == '\'' || c == '(' || c == ')' || c == '*' || c == ',' || c == ';'
    || c == ':' || c == '@' || c == '/' || c == '?'
  }

  function EncodeChar(c: char, spaceAsPlus: bool): string
    requires c as int < 256
  {
    if IsQuerySafe(c) then [c]
    else if c == ' ' then (if spaceAsPlus then "+" else "%20")
    else if c == '+' then (if spaceAsPlus then "%2B" else "+")
    else ['%', HexUpper(c as int / 16), HexUpper(c as int % 16)]
  }

  function Encode(s: string, spaceAsPlus: bool): string
    requires IsBytes(s)
  {
    if s == "" then "" else Encode(s[..|s| - 1], spaceAsPlus) + EncodeChar(s[|s| - 1], spaceAsPlus)
  }

  method EncodeQueryComponent(component: string, spaceAsPlus: bool) returns (result: string)
    requires IsBytes(component)
    ensures result == Encode(component, spaceAsPlus)
  {
    result := "";
    for i := 0 to |component|
      invariant result == Encode(component[..i], spaceAsPlus)
    {
      assert component[..i + 1][..i] == component[..i];
      var c := component[i];
      if IsQuerySafe(c) {
        result := result + [c];
      } else if c == ' ' {
        result := result + (if spaceAsPlus then "+" else "%20");
      } else if c == '+' {
        result := result + (if spaceAsPlus then "%2B" else [c]);
      } else {
        result := result + ['%', HexUpper(c as int / 16), HexUpper(c as int % 16)];
      }
    }
    assert component[..|component|] == component;
  }

  /** strtoul on two characters in base 16, when it consumes both: two digits, or a blank or sign and one
      digit. The result is truncated to a byte, so a minus counts down from 256. */
  function PairValue(a: char, b: char): (v: Option<nat>)
    ensures v.Some? ==> v.value < 256
  {
    if !IsHexDigit(b) then None
    else if IsHexDigit(a) then Some(DigitValue(a) * 16 + DigitValue(b))
    else if IsSpace(a) || a == '+' then Some(DigitValue(b))
    else if a == '-' then Some((256 - DigitValue(b)) % 256)
    else None
  }

  function Decode(s: string, plusAsSpace: bool): string {
    if s == "" then ""
    else if s[0] == '%' && |s| > 2 && PairValue(s[1], s[2]).Some? then
      [PairValue(s[1], s[2]).value as char] + Decode(s[3..], plusAsSpace)
    else [if s[0] == '+' && plusAsSpace then ' ' else s[0]] + Decode(s[1..], plusAsSpace)
  }

  method DecodeQueryComponent(component: string, plusAsSpace: bool) returns (result: string)
    ensures result == Decode(component, plusAsSpace)
  {
    result := "";
    var i := 0;
    assert component[0..] == component;
    while i < |component|
      invariant 0 <= i <= |component|
      invariant result + Decode(component[i..], plusAsSpace) == Decode(component, plusAsSpace)
    {
      ghost var rest := component[i..];
      var n, c := 1, component[i];
      if component[i] == '%' && i + 2 < |component| {
        var value := PairValue(component[i + 1], component[i + 2]);
        if value.Some? {
          n, c := 3, value.value as char;
        }
      } else if component[i] == '+' && plusAsSpace {
        c := ' ';
      }
      assert component[i + n..] == rest[n..];
      Assoc(result, [c], Decode(rest[n..], plusAsSpace));
      result := result + [c];
      i := i + n;
    }
  }

  lemma DecodeOfChar(c: char, rest: string, flag: bool)
    requires c as int < 256
    ensures Decode(EncodeChar(c, flag) + rest, flag) == [c] + Decode(rest, flag)
  {
    hide Decode;
    var e := EncodeChar(c, flag);
    if |e| == 1 {
      DecodeSingle(e[0], rest, flag);
    } else {
      DecodeEscape(e[1], e[2], rest, flag);
      assert e == ['%', e[1], e[2]];
    }
  }

  lemma {:induction false} DecodeSingle(x: char, rest: string, flag: bool)
    requires x != '%'
    ensures Decode([x] + rest, flag) == [if x == '+' && flag then ' ' else x] + Decode(rest, flag)
  {
    assert ([x] + rest)[1..] == rest;
  }

  lemma {:induction false} DecodeEscape(x: char, y: char, rest: string, flag: bool)
    requires PairValue(x, y).Some?
    ensures Decode(['%', x, y] + rest, flag) == [PairValue(x, y).value as char] + Decode(rest, flag)
  {
    var s := ['%', x, y] + rest;
    assert s[3..] == rest && s[1] == x && s[2] == y;
  }

  lemma {:induction false} DecodeOfEncodeThen(s: string, rest: string, flag: bool)
    requires IsBytes(s)
    ensures Decode(Encode(s, flag) + rest, flag) == s + Decode(rest, flag)
    decreases |s|
  {
    if s == "" {
      assert Encode(s, flag) + rest == rest;
    } else {
      var init, c := s[..|s| - 1], s[|s| - 1];
      Assoc(Encode(init, flag), EncodeChar(c, flag), rest);
      DecodeOfEncodeThen(init, EncodeChar(c, flag) + rest, flag);
      DecodeOfChar(c, rest, flag);
      assert init + [c] == s;
      Assoc(init, [c], Decode(rest, flag));
    }
  }

  /** Decoding undoes encoding of any byte string, with either treatment of spaces. */
  lemma ComponentRoundTrip(s: string, flag: bool)
    requires IsBytes(s)
    ensures Decode(Encode(s, flag), flag) == s
  {
    DecodeOfEncodeThen(s, "", flag);
    assert Encode(s, flag) + "" == Encode(s, flag) && s + "" == s;
  }

  predicate IsPlain(c: char) {
    c != '&' && c != '=' && !IsSpaceOrTab(c)
  }

  /** What the printed form of parameters relies on: no delimiter and no blank in an encoded component. */
  lemma {:induction false} EncodedIsPlain(s: string, flag: bool)
    requires IsBytes(s)
    ensures forall i :: 0 <= i < |Encode(s, flag)| ==> IsPlain(Encode(s, flag)[i])
    ensures Encode(s, flag) == "" <==> s == ""
  {
    hide EncodeChar;
    if s != "" {
      EncodedIsPlain(s[..|s| - 1], flag);
      CharIsPlain(s[|s| - 1], flag);
    }
  }

  lemma CharIsPlain(c: char, flag: bool)
    requires c as int < 256
    ensures EncodeChar(c, flag) != "" && forall i :: 0 <= i < |EncodeChar(c, flag)| ==> IsPlain(EncodeChar(c, flag)[i])
  {
  }

  // ----- parameters: a multimap, kept in key order with equal keys in order of insertion

  datatype Param = Param(key: string, value: string)

  predicate Less(a: string, b: string) {
    if b == "" then false
    else if a == "" then true
    else if a[0] != b[0] then a[0] < b[0]
    else Less(a[1..], b[1..])
  }

  ghost predicate AllBytes(m: seq<Param>) {
    forall i :: 0 <= i < |m| ==> IsBytes(m[i].key) && IsBytes(m[i].value)
  }

  ghost predicate IsMultimap(m: seq<Param>) {
    && AllBytes(m)
    && (forall i, j :: 0 <= i < j < |m| ==> !Less(m[j].key, m[i].key))
  }

  /** Behind every entry whose key is not greater. */
  function Emplace(m: seq<Param>, p: Param): seq<Param> {
    if m == [] then [p]
    else if Less(p.key, m[0].key) then [p] + m
    else [m[0]] + Emplace(m[1..], p)
  }

  function Piece(p: Param): string
    requires IsBytes(p.key) && IsBytes(p.value)
  {
    Encode(p.key, true) + "=" + Encode(p.value, true)
  }

  function Print(m: seq<Param>): string
    requires AllBytes(m)
  {
    if m == [] then ""
    else if |m| == 1 then Piece(m[0])
    else Print(m[..|m| - 1]) + "&" + Piece(m[|m| - 1])
  }

  method ParamsToQueryStr(m: seq<Param>) returns (query: string)
    requires AllBytes(m)
    ensures query == Print(m)
  {
    query := "";
    for i := 0 to |m|
      invariant query == Print(m[..i])
    {
      PrintNext(m, i);
      if i != 0 { query := query + "&"; }
      var k := EncodeQueryComponent(m[i].key, true);
      var v := EncodeQueryComponent(m[i].value, true);
      query := query + (k + "=" + v);
    }
    assert m[..|m|] == m;
  }

  lemma PrintNext(m: seq<Param>, i: nat)
    requires i < |m| && AllBytes(m)
    ensures Print(m[..i + 1]) == (if i != 0 then Print(m[..i]) + "&" else Print(m[..i])) + Piece(m[i])
  {
    assert m[..i + 1][..i] == m[..i];
    assert i == 0 ==> "" + Piece(m[i]) == Piece(m[i]);
  }

  // ----- parsing

  /** seen holds the raw parts met so far; a part met again is skipped. */
  datatype Parsed = Parsed(seen: set<string>, params: seq<Param>)

  function ParsePart(r: Parsed, kv: string): Parsed {
    if kv in r.seen then r
    else
      var i := IndexOf(kv, '=');
      var key := kv[..i];
      var val := if i < |kv| then kv[i + 1..] else "";
      Parsed(r.seen + {kv},
             if key != "" then Emplace(r.params, Param(Decode(key, true), Decode(val, true))) else r.params)
  }

  function ParseParts(parts: seq<string>, params: seq<Param>): Parsed {
    if parts == [] then Parsed({}, params)
    else ParsePart(ParseParts(parts[..|parts| - 1], params), parts[|parts| - 1])
  }

  function Parse(s: string, params: seq<Param>): seq<Param> {
    ParseParts(Split(s, '&'), params).params
  }

  method ParseQueryText(s: string, params0: seq<Param>) returns (params: seq<Param>)
    ensures params == Parse(s, params0)
  {
    var parts := SplitLoop(s, '&');
    var seen: set<string> := {};
    params := params0;
    for i := 0 to |parts|
      invariant Parsed(seen, params) == ParseParts(parts[..i], params0)
    {
      assert parts[..i + 1][..i] == parts[..i];
      var kv := parts[i];
      if kv in seen { continue; }
      seen := seen + {kv};
      var at := IndexOf(kv, '=');
      var key, val := kv[..at], if at < |kv| then kv[at + 1..] else "";
      if key != "" {
        var k := DecodeQueryComponent(key, true);
        var v := DecodeQueryComponent(val, true);
        params := Emplace(params, Param(k, v));
      }
    }
    assert parts[..|parts|] == parts;
  }

  // ----- the round trip

  /** How a printed parameter comes apart again. */
  lemma PieceParts(p: Param)
    requires IsBytes(p.key) && IsBytes(p.value)
    ensures var kv := Piece(p);
            var i := IndexOf(kv, '=');
            i < |kv| && kv[..i] == Encode(p.key, true) && kv[i + 1..] == Encode(p.value, true)
  {
    var k, v := Encode(p.key, true), Encode(p.value, true);
    EncodedIsPlain(p.key, true);
    assert '=' !in k;
    IndexOfAt(k, '=', v);
    assert Piece(p) == k + ['='] + v;
    assert Piece(p)[..|k|] == k && Piece(p)[|k| + 1..] == v;
  }

  lemma PieceInjective(p: Param, q: Param)
    requires IsBytes(p.key) && IsBytes(p.value) && IsBytes(q.key) && IsBytes(q.value) && Piece(p) == Piece(q)
    ensures p == q
  {
    PieceParts(p);
    PieceParts(q);
    ComponentRoundTrip(p.key, true);
    ComponentRoundTrip(q.key, true);
    ComponentRoundTrip(p.value, true);
    ComponentRoundTrip(q.value, true);
  }

  lemma PieceIsOneField(p: Param)
    requires IsBytes(p.key) && IsBytes(p.value)
    ensures Split(Piece(p), '&') == [Piece(p)]
  {
    EncodedIsPlain(p.key, true);
    EncodedIsPlain(p.value, true);
    var kv := Piece(p);
    assert forall i :: 0 <= i < |kv| ==> kv[i] == '=' || IsPlain(kv[i]);
    TrimIdentity(kv);
    SplitOne(kv, '&');
  }

  function Pieces(m: seq<Param>): seq<string>
    requires AllBytes(m)
  {
    if m == [] then [] else Pieces(m[..|m| - 1]) + [Piece(m[|m| - 1])]
  }

  lemma {:induction false} SplitOfPrint(m: seq<Param>)
    requires AllBytes(m)
    ensures Split(Print(m), '&') == Pieces(m)
  {
    if m != [] {
      var init, p := m[..|m| - 1], m[|m| - 1];
      PieceIsOneField(p);
      if |m| == 1 {
        assert Pieces(init) == [];
      } else {
        SplitOfPrint(init);
        SplitConcat(Print(init), '&', Piece(p));
        assert "&" == ['&'];
      }
    }
  }

  /** The entries with a non-empty key, an exact repetition of an earlier entry left out. */
  function Kept(m: seq<Param>): seq<Param> {
    if m == [] then []
    else
      var init, p := m[..|m| - 1], m[|m| - 1];
      if p.key != "" && p !in init then Kept(init) + [p] else Kept(init)
  }

  lemma {:induction false} KeptIsFrom(m: seq<Param>, i: nat)
    requires i < |Kept(m)|
    ensures Kept(m)[i] in m
  {
    if i < |Kept(m[..|m| - 1])| { KeptIsFrom(m[..|m| - 1], i); }
  }

  lemma {:induction false} EmplaceAtEnd(m: seq<Param>, p: Param)
    requires forall i :: 0 <= i < |m| ==> !Less(p.key, m[i].key)
    ensures Emplace(m, p) == m + [p]
  {
    if m != [] {
      EmplaceAtEnd(m[1..], p);
      Assoc([m[0]], m[1..], [p]);
      assert [m[0]] + m[1..] == m;
    }
  }

  /** One printed parameter parsed in the state its predecessors left. */
  lemma ParsePiece(m: seq<Param>, p: Param, r: Parsed)
    requires IsBytes(p.key) && IsBytes(p.value)
    requires IsMultimap(m + [p]) && r.params == Kept(m)
    requires Piece(p) in r.seen <==> p in m
    ensures ParsePart(r, Piece(p)).params == Kept(m + [p])
  {
    var all := m + [p];
    assert all[|m|] == p && all[..|all| - 1] == m;
    PieceParts(p);
    ComponentRoundTrip(p.key, true);
    ComponentRoundTrip(p.value, true);
    EncodedIsPlain(p.key, true);
    if p !in m && p.key != "" {
      forall i | 0 <= i < |Kept(m)| ensures !Less(p.key, Kept(m)[i].key) {
        KeptIsFrom(m, i);
        var j :| 0 <= j < |m| && m[j] == Kept(m)[i];
        assert all[j] == m[j];
      }
      EmplaceAtEnd(Kept(m), p);
    }
  }

  lemma {:induction false} ParseOfPieces(m: seq<Param>)
    requires IsMultimap(m)
    ensures ParseParts(Pieces(m), []).params == Kept(m)
    ensures forall q: Param :: IsBytes(q.key) && IsBytes(q.value) ==>
              (Piece(q) in ParseParts(Pieces(m), []).seen <==> q in m)
  {
    hide Piece;
    if m != [] {
      var init, p := m[..|m| - 1], m[|m| - 1];
      var parts, r := Pieces(init), ParseParts(Pieces(init), []);
      ParseOfPieces(init);
      assert init + [p] == m;
      ParsePiece(init, p, r);
      assert Pieces(m)[..|Pieces(m)| - 1] == parts;
      forall q: Param | IsBytes(q.key) && IsBytes(q.value)
        ensures Piece(q) in ParseParts(Pieces(m), []).seen <==> q in m
      {
        if Piece(q) == Piece(p) { PieceInjective(p, q); }
      }
    }
  }

  /** Printing any multimap of byte strings and parsing it gives it back in order, without the entries
      whose key is empty and without exact repetitions. */
  lemma {:induction false} QueryRoundTrip(m: seq<Param>)
    requires IsMultimap(m)
    ensures Parse(Print(m), []) == Kept(m)
  {
    SplitOfPrint(m);
    ParseOfPieces(m);
  }

  /** So it comes back unchanged exactly when it has neither. */
  lemma {:induction false} QueryRoundTripIff(m: seq<Param>)
    requires IsMultimap(m)
    ensures Parse(Print(m), []) == m <==>
            (forall i :: 0 <= i < |m| ==> m[i].key != "") && forall i, j :: 0 <= i < j < |m| ==> m[i] != m[j]
  {
    QueryRoundTrip(m);
    KeptAllIff(m);
  }

  lemma {:induction false} KeptAllIff(m: seq<Param>)
    ensures |Kept(m)| <= |m|
    ensures Kept(m) == m <==>
            (forall i :: 0 <= i < |m| ==> m[i].key != "") && forall i, j :: 0 <= i < j < |m| ==> m[i] != m[j]
  {
    if m != [] {
      var init, p := m[..|m| - 1], m[|m| - 1];
      KeptAllIff(init);
      assert m == init + [p];
    }
  }

  // ----- any component

  /** Exactly these characters stand for themselves; every other byte becomes a percent sign and its two
      upper-case hexadecimal digits, a space perhaps a plus. */
  lemma EncodeCharIs(c: char, flag: bool)
    requires c as int < 256
    ensures var e := EncodeChar(c, flag);
            if IsDigit(c) || IsAlpha(c) || c in "-._~!$'()*,;:@/?" || (c == '+' && !flag) then e == [c]
            else if c == ' ' && flag then e == "+"
            else && |e| == 3 && e[0] == '%' && IsNumeral(e[1..], 16) && Value(e[1..], 16) == c as int
                 && forall i :: 1 <= i < 3 ==> !('a' <= e[i] <= 'f')
  {
    var e := EncodeChar(c, flag);
    if |e| == 3 {
      PairIs(e[1], e[2]);
      assert e[1..] == [e[1], e[2]];
      assert c as int / 16 * 16 + c as int % 16 == c as int;
    }
  }

  lemma {:induction false} PairIs(a: char, b: char)
    requires IsHexDigit(a) && IsHexDigit(b)
    ensures IsNumeral([a, b], 16) && Value([a, b], 16) == DigitValue(a) * 16 + DigitValue(b) < 256
  {
    assert "" + [a] == [a] && [a] + [b] == [a, b];
    ValueSnoc("", a, 16);
    ValueSnoc([a], b, 16);
  }

  /** Which two characters after a percent sign are taken for a number: two digits, or a blank or a sign and one
      digit, as strtoul reads them. */
  lemma PairValueIff(a: char, b: char)
    ensures PairValue(a, b).Some? <==> IsHexDigit(b) && (IsHexDigit(a) || IsSpace(a) || a == '+' || a == '-')
    ensures IsHexDigit(a) && IsHexDigit(b) ==> PairValue(a, b) == Some(Value([a, b], 16))
    ensures IsHexDigit(b) && (IsSpace(a) || a == '+') ==> PairValue(a, b) == Some(DigitValue(b))
    ensures IsHexDigit(b) && a == '-' ==>
              PairValue(a, b) == Some(if DigitValue(b) == 0 then 0 else 256 - DigitValue(b))
  {
    if IsHexDigit(a) && IsHexDigit(b) { PairIs(a, b); }
  }

  /** A percent sign that begins no number stays, and so does what follows it. */
  lemma {:induction false} DecodeLone(rest: string, flag: bool)
    requires |rest| < 2 || PairValue(rest[0], rest[1]).None?
    ensures Decode("%" + rest, flag) == "%" + Decode(rest, flag)
  {
    var s := "%" + rest;
    assert s[1..] == rest && (|s| > 2 ==> s[1] == rest[0] && s[2] == rest[1]);
  }

  // ----- any query text, read into any parameters

  /** The values of a key, in order. */
  function ValuesOf(m: seq<Param>, key: string): seq<string> {
    if m == [] then []
    else (if m[0].key == key then [m[0].value] else []) + ValuesOf(m[1..], key)
  }

  predicate Sorted(m: seq<Param>) {
    forall i, j :: 0 <= i < j < |m| ==> !Less(m[j].key, m[i].key)
  }

  lemma {:induction false} LessTransitive(a: string, b: string, c: string)
    requires Less(a, b) && Less(b, c)
    ensures Less(a, c)
    decreases |a|
  {
    if a != "" && a[0] == b[0] == c[0] { LessTransitive(a[1..], b[1..], c[1..]); }
  }

  lemma SameStart(a: string, b: string, n: nat)
    requires n <= |a| && n <= |b|
    ensures n > 0 && a[..n] == b[..n] ==> a[0] == b[0]
  {
    if n > 0 { assert a[..n][0] == a[0] && b[..n][0] == b[0]; }
  }

  /** The order of the keys: one is a proper beginning of the other, or they first differ in a smaller character. */
  lemma {:induction false} LessIff(a: string, b: string)
    ensures Less(a, b) <==>
            exists n: nat :: n <= |a| && n < |b| && a[..n] == b[..n] && (n == |a| || a[n] < b[n])
    decreases |a|
  {
    if b != "" && a != "" {
      if a[0] == b[0] {
        LessIff(a[1..], b[1..]);
        if n: nat :| n <= |a[1..]| && n < |b[1..]| && a[1..][..n] == b[1..][..n]
                     && (n == |a[1..]| || a[1..][n] < b[1..][n]) {
          assert a[..n + 1] == [a[0]] + a[1..][..n] && b[..n + 1] == [b[0]] + b[1..][..n];
        }
        if n: nat :| n <= |a| && n < |b| && a[..n] == b[..n] && (n == |a| || a[n] < b[n]) {
          assert n > 0;
          assert a[1..][..n - 1] == a[..n][1..] && b[1..][..n - 1] == b[..n][1..];
        }
      } else {
        if n: nat :| n <= |a| && n < |b| && a[..n] == b[..n] && (n == |a| || a[n] < b[n]) {
          SameStart(a, b, n);
        }
        if a[0] < b[0] { assert a[..0] == b[..0]; }
      }
    } else if b != "" {
      assert a[..0] == b[..0];
    }
  }

  lemma {:induction false} LessIrreflexive(a: string)
    ensures !Less(a, a)
    decreases |a|
  {
    if a != "" { LessIrreflexive(a[1..]); }
  }

  lemma {:induction false} NoValues(m: seq<Param>, key: string)
    requires forall i :: 0 <= i < |m| ==> m[i].key != key
    ensures ValuesOf(m, key) == []
    decreases |m|
  {
    if m != [] { NoValues(m[1..], key); }
  }

  /** Nothing of the key comes from an entry on that is greater. */
  lemma AllGreater(m: seq<Param>, key: string)
    requires Sorted(m) && m != [] && Less(key, m[0].key)
    ensures forall i :: 0 <= i < |m| ==> m[i].key != key && !Less(m[i].key, key)
  {
    hide Less;
    forall i | 0 <= i < |m| ensures m[i].key != key && !Less(m[i].key, key) {
      LessIrreflexive(m[0].key);
      if Less(m[i].key, key) { LessTransitive(m[i].key, key, m[0].key); }
    }
  }

  lemma {:induction false} EmplaceIn(m: seq<Param>, p: Param)
    ensures forall q :: q in Emplace(m, p) <==> q in m || q == p
    ensures multiset(Emplace(m, p)) == multiset(m) + multiset{p}
    decreases |m|
  {
    hide Less;
    if m != [] {
      assert m == [m[0]] + m[1..];
      EmplaceIn(m[1..], p);
    }
  }

  lemma {:induction false} EmplaceSorted(m: seq<Param>, p: Param)
    requires Sorted(m)
    ensures Sorted(Emplace(m, p))
    decreases |m|
  {
    hide Less;
    if m != [] {
      if Less(p.key, m[0].key) {
        AllGreater(m, p.key);
      } else {
        var rest := Emplace(m[1..], p);
        EmplaceSorted(m[1..], p);
        EmplaceIn(m[1..], p);
        forall i | 0 <= i < |rest| ensures !Less(rest[i].key, m[0].key) {
          assert rest[i] in rest;
          if rest[i] != p { var j :| 0 <= j < |m[1..]| && m[1..][j] == rest[i]; assert m[j + 1] == rest[i]; }
        }
      }
    }
  }

  lemma {:induction false} EmplaceValues(m: seq<Param>, p: Param, key: string)
    requires Sorted(m)
    ensures ValuesOf(Emplace(m, p), key) == ValuesOf(m, key) + if p.key == key then [p.value] else []
    decreases |m|
  {
    hide Less;
    var mine := if p.key == key then [p.value] else [];
    if m == [] {
      assert [p][1..] == [] && mine + [] == [] + mine;
    } else if Less(p.key, m[0].key) {
      AllGreater(m, p.key);
      hide Sorted;
      if p.key == key { NoValues(m, key); }
      ValuesCons(p, m, key);
      assert [] + ValuesOf(m, key) == ValuesOf(m, key) + [] == ValuesOf(m, key);
    } else {
      EmplaceValues(m[1..], p, key);
      ValuesCons(m[0], Emplace(m[1..], p), key);
      Assoc(if m[0].key == key then [m[0].value] else [], ValuesOf(m[1..], key), mine);
    }
  }

  lemma ValuesCons(p: Param, m: seq<Param>, key: string)
    ensures ValuesOf([p] + m, key) == (if p.key == key then [p.value] else []) + ValuesOf(m, key)
  {
    assert ([p] + m)[1..] == m;
  }

  /** A new entry comes behind the others of its key and leaves the order and all other keys alone. */
  lemma {:induction false} EmplaceKeeps(m: seq<Param>, p: Param, key: string)
    requires Sorted(m)
    ensures Sorted(Emplace(m, p)) && multiset(Emplace(m, p)) == multiset(m) + multiset{p}
    ensures ValuesOf(Emplace(m, p), key) == ValuesOf(m, key) + if p.key == key then [p.value] else []
  {
    hide Sorted, Emplace, ValuesOf;
    EmplaceSorted(m, p);
    EmplaceIn(m, p);
    EmplaceValues(m, p, key);
  }

  lemma {:induction false} SeenIsParts(parts: seq<string>, params: seq<Param>)
    ensures forall kv :: kv in ParseParts(parts, params).seen <==> kv in parts
    decreases |parts|
  {
    hide Decode;
    if parts != [] {
      SeenIsParts(parts[..|parts| - 1], params);
      assert parts == parts[..|parts| - 1] + [parts[|parts| - 1]];
    }
  }

  lemma {:induction false} PartsKeep(parts: seq<string>, params: seq<Param>, key: string)
    requires Sorted(params)
    ensures Sorted(ParseParts(parts, params).params) && Sorted(ParseParts(parts, []).params)
    ensures ParseParts(parts, params).seen == ParseParts(parts, []).seen
    ensures ValuesOf(ParseParts(parts, params).params, key) ==
            ValuesOf(params, key) + ValuesOf(ParseParts(parts, []).params, key)
    decreases |parts|
  {
    hide Decode, Emplace, Sorted, ValuesOf;
    if parts == [] {
      EmptyValues(key);
      assert ValuesOf(params, key) + [] == ValuesOf(params, key);
    } else {
      var init, kv := parts[..|parts| - 1], parts[|parts| - 1];
      PartsKeep(init, params, key);
      var a, b := ParseParts(init, params), ParseParts(init, []);
      var i := IndexOf(kv, '=');
      var p := Param(Decode(kv[..i], true), Decode(if i < |kv| then kv[i + 1..] else "", true));
      EmplaceKeeps(a.params, p, key);
      EmplaceKeeps(b.params, p, key);
      Assoc(ValuesOf(params, key), ValuesOf(b.params, key), if p.key == key then [p.value] else []);
    }
  }

  lemma EmptyValues(key: string)
    ensures ValuesOf([], key) == [] && Sorted([])
  {
  }

  /** Reading a query text into parameters that are there already, as a form body after the query of the request
      line: they all stay, and the values read come behind those that were there, key by key. */
  lemma {:induction false} ParseAppends(s: string, params: seq<Param>, key: string)
    requires Sorted(params)
    ensures Sorted(Parse(s, params))
    ensures ValuesOf(Parse(s, params), key) == ValuesOf(params, key) + ValuesOf(Parse(s, []), key)
  {
    hide ParseParts, Split, Sorted;
    PartsKeep(Split(s, '&'), params, key);
  }

  /** One more part of any form: skipped if it stood before exactly so, or if nothing comes before its first equals
      sign; otherwise the key is what comes before it, the value what comes after, both decoded. */
  lemma {:induction false} ParseMore(s: string, k: string, sign: bool, v: string, params: seq<Param>)
    requires '=' !in k && (!sign ==> v == "")
    requires var t := if sign then k + ['='] + v else k; t != "" && Trimmed(t) && '&' !in t
    ensures var t := if sign then k + ['='] + v else k;
            Parse(s + "&" + t, params) ==
            if t in Split(s, '&') || k == "" then Parse(s, params)
            else Emplace(Parse(s, params), Param(Decode(k, true), Decode(v, true)))
  {
    hide Decode, Emplace, Split;
    var t := if sign then k + ['='] + v else k;
    var parts := Split(s, '&');
    PlainField(t);
    SplitConcat(s, '&', t);
    assert (parts + [t])[..|parts|] == parts;
    SeenIsParts(parts, params);
    if sign {
      IndexOfAt(k, '=', v);
      assert t[..|k|] == k && t[|k| + 1..] == v;
    } else {
      forall i | 0 <= i < |k| ensures k[i] != '=' { assert k[i] in k; }
      assert t[..|k|] == k;
    }
  }

  lemma PlainField(t: string)
    requires t != "" && Trimmed(t) && '&' !in t
    ensures Split(t, '&') == [t]
  {
    SplitOne(t, '&');
    TrimIdentity(t);
  }
}
