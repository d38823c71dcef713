/** Header lines and values of any shape: exactly which are accepted, and what is made of them. */
module HeaderGrammar {
  import opened Common
  import opened Text
  import opened SocketStream
  import opened Headers

  // ----- characters

  /** Section 5.6.2 of RFC 9110: a token character is a visible one that is no delimiter. */
  lemma TokenCharIff(c: char)
    ensures IsTokenChar(c) <==> '!' <= c <= '~' && c !in "\"(),/:;<=>?@[\\]{}"
  {
  }

  /** Between ASCII texts case-insensitive equality is equality up to the case of letters. */
  lemma IgnoringCaseIff(a: string, b: string)
    requires (forall c :: c in a ==> c as int < 128) && forall c :: c in b ==> c as int < 128
    ensures EqualIgnoringCase(a, b) <==>
            |a| == |b| && forall i :: 0 <= i < |a| ==>
              a[i] == b[i] || (IsAlpha(a[i]) && IsAlpha(b[i])
                               && (a[i] as int - b[i] as int == 32 || b[i] as int - a[i] as int == 32))
  {
    if |a| == |b| {
      forall i | 0 <= i < |a|
        ensures ToLower(a[i]) == ToLower(b[i]) <==>
                a[i] == b[i] || (IsAlpha(a[i]) && IsAlpha(b[i])
                                 && (a[i] as int - b[i] as int == 32 || b[i] as int - a[i] as int == 32))
      {
        assert a[i] in a && b[i] in b;
        CaseOfChar(a[i], b[i]);
      }
    }
  }

  lemma CaseOfChar(x: char, y: char)
    requires x as int < 128 && y as int < 128
    ensures ToLower(x) == ToLower(y) <==>
            x == y || (IsAlpha(x) && IsAlpha(y) && (x as int - y as int == 32 || y as int - x as int == 32))
  {
  }

  /** Beyond ASCII the upper-case letters of Latin-1, from 192 to 222 without the multiplication sign, and their lower
      case are equal, and nothing else is. */
  lemma CaseOfLatin(x: char, y: char)
    requires x as int < 256 && y as int < 256 && (x as int >= 128 || y as int >= 128)
    ensures ToLower(x) == ToLower(y) <==>
            || x == y
            || (192 <= x as int <= 222 && x as int != 215 && y as int == x as int + 32)
            || (192 <= y as int <= 222 && y as int != 215 && x as int == y as int + 32)
  {
  }

  /** Fields that carry a URL of their own are kept as they are, all others percent-decoded. */
  lemma StoredIs(name: string, value: string)
    ensures Stored(name, value).name == name
    ensures Stored(name, value).value ==
            if EqualIgnoringCase(name, "location") || EqualIgnoringCase(name, "referer") then value
            else DecodePath(value)
  {
    assert EqualIgnoringCase("Location", "location") && EqualIgnoringCase("Referer", "referer");
  }

  // ----- one line

  predicate Blanks(s: string) {
    forall i :: 0 <= i < |s| ==> IsSpaceOrTab(s[i])
  }

  /** A field line: a name, a colon, blanks, a value, blanks. */
  predicate LineParts(line: string, name: string, left: string, value: string, right: string) {
    && line == name + ":" + (left + (value + right))
    && IsFieldName(name) && Blanks(left) && IsFieldValue(value) && Blanks(right)
  }

  ghost predicate IsFieldLine(line: string, name: string, value: string) {
    exists left, right :: LineParts(line, name, left, value, right)
  }

  lemma {:induction false} RightBlanks(s: string) returns (right: string)
    ensures s == TrimRight(s) + right && Blanks(right)
  {
    if s != "" && IsSpaceOrTab(s[|s| - 1]) {
      right := RightBlanks(s[..|s| - 1]);
      right := right + [s[|s| - 1]];
    } else {
      right := "";
      assert s + "" == s;
    }
  }

  lemma {:induction false} LeftBlanks(s: string) returns (left: string)
    ensures s == left + TrimLeft(s) && Blanks(left)
  {
    if s != "" && IsSpaceOrTab(s[0]) {
      left := LeftBlanks(s[1..]);
      left := [s[0]] + left;
    } else {
      left := "";
      assert "" + s == s;
    }
  }

  lemma FieldLineFound(line: string)
    requires ParseLine(line).Some?
    ensures exists value :: IsFieldLine(line, ParseLine(line).value.name, value)
                            && ParseLine(line).value == Stored(ParseLine(line).value.name, value)
  {
    hide IsFieldName, IsFieldValue, TrimLeft, TrimRight, EqualIgnoringCase, DecodePath;
    var t := TrimRight(line);
    var p := IndexOf(t, ':');
    var name, value := t[..p], TrimLeft(t[p + 1..]);
    var right := RightBlanks(line);
    var left := LeftBlanks(t[p + 1..]);
    assert t == name + ":" + (left + value);
    Glue(name + ":", left, value, right);
    assert LineParts(line, name, left, value, right);
    assert IsFieldLine(line, name, value);
  }

  lemma Glue(a: string, b: string, c: string, d: string)
    ensures (a + (b + c)) + d == a + (b + (c + d))
  {
    Assoc(a, b + c, d);
    Assoc(b, c, d);
  }

  lemma TokenNoColon(name: string)
    requires IsFieldName(name)
    ensures (forall i :: 0 <= i < |name| ==> name[i] != ':' && !IsSpaceOrTab(name[i])) && name != ""
  {
  }

  lemma {:induction false} FieldLineParsed(line: string, name: string, left: string, value: string, right: string)
    requires LineParts(line, name, left, value, right)
    ensures ParseLine(line) == Some(Stored(name, value))
  {
    hide TrimLeft, TrimRight, EqualIgnoringCase, DecodePath, IsFieldName;
    TokenNoColon(name);
    var n, v := |name|, |left| + |value|;
    assert line[..n] == name && line[n] == ':';
    // without a value the blanks before it go as well
    var end := if value == "" then n + 1 else n + 1 + v;
    forall i | end <= i < |line| ensures IsSpaceOrTab(line[i]) {
      var j := i - (n + 1);
      assert line[i] == (left + (value + right))[j];
      assert j < |left| ==> line[i] == left[j];
      assert j >= v ==> line[i] == right[j - v];
    }
    if value != "" {
      assert line[end - 1] == (left + (value + right))[v - 1] == value[|value| - 1];
    }
    TrimRightAt(line, end);
    var t := line[..end];
    assert t[..n] == name && t[n] == ':';
    FirstIndex(t, n);
    var rest := t[n + 1..];
    if value == "" {
      assert rest == "";
      TrimLeftAt(rest, 0);
    } else {
      assert rest == left + value;
      assert forall i :: 0 <= i < |left| ==> rest[i] == left[i];
      assert rest[|left|] == value[0];
      TrimLeftAt(rest, |left|);
      assert rest[|left|..] == value;
    }
  }

  lemma FirstIndex(t: string, n: nat)
    requires n < |t| && t[n] == ':' && forall i :: 0 <= i < n ==> t[..n][i] != ':'
    ensures IndexOf(t, ':') == n
  {
    assert t == t[..n] + [':'] + t[n + 1..];
    assert ':' !in t[..n];
    IndexOfAt(t[..n], ':', t[n + 1..]);
  }

  /** A line is accepted exactly if it is a field name, a colon and a field value, with blanks allowed around
      the value only; and then it is stored under that name, with that value. */
  lemma ParseLineIff(line: string, name: string, value: string)
    ensures IsFieldLine(line, name, value) ==> ParseLine(line) == Some(Stored(name, value))
    ensures ParseLine(line).Some? <==> exists n, v :: IsFieldLine(line, n, v)
  {
    hide ParseLine, LineParts;
    if left, right :| LineParts(line, name, left, value, right) { FieldLineParsed(line, name, left, value, right); }
    if ParseLine(line).Some? { FieldLineFound(line); }
    if n, v :| IsFieldLine(line, n, v) {
      var left, right :| LineParts(line, n, left, v, right);
      FieldLineParsed(line, n, left, v, right);
    }
  }

  // ----- percent decoding

  /** What a value may be made of: a character that stands for itself; a byte as a percent sign and two digits;
      a code as a percent sign, "u" and four digits; a percent sign that begins neither. */
  datatype Token = Plain(c: char) | Escaped(digits: string) | Code(digits: string) | Lone

  predicate TokenOk(t: Token) {
    match t
    case Plain(c) => c != '%'
    case Escaped(d) => |d| == 2 && IsNumeral(d, 16)
    case Code(d) => |d| == 4 && IsNumeral(d, 16)
    case Lone => true
  }

  function TokenText(t: Token): string {
    match t
    case Plain(c) => [c]
    case Escaped(d) => "%" + d
    case Code(d) => "%u" + d
    case Lone => "%"
  }

  function TokenMeans(t: Token): string
    requires TokenOk(t)
  {
    match t
    case Plain(c) => [c]
    case Escaped(d) =>
      EscapedValue(d);
      [Value(d, 16) as char]
    case Code(d) =>
      CodeValue(d);
      Utf8(Value(d, 16))
    case Lone => "%"
  }

  lemma {:induction false} EscapedValue(d: string)
    requires |d| == 2 && IsNumeral(d, 16)
    ensures Value(d, 16) == DigitValue(d[0]) * 16 + DigitValue(d[1]) < 256
  {
    assert d == [d[0]] + [d[1]] && [d[0]][..0] == "";
    assert IsNumeral("", 16) && Value("", 16) == 0;
    ValueSnoc("", d[0], 16);
    assert "" + [d[0]] == [d[0]];
    ValueSnoc([d[0]], d[1], 16);
  }

  lemma {:induction false} CodeValue(d: string)
    requires |d| == 4 && IsNumeral(d, 16)
    ensures Value(d, 16) ==
            ((DigitValue(d[0]) * 16 + DigitValue(d[1])) * 16 + DigitValue(d[2])) * 16 + DigitValue(d[3]) < 0x1_0000
  {
    EscapedValue(d[..2]);
    assert d[..3] == d[..2] + [d[2]] && d == d[..3] + [d[3]];
    ValueSnoc(d[..2], d[2], 16);
    ValueSnoc(d[..3], d[3], 16);
  }

  /** A lone percent sign is one that what follows does not make an escape. */
  predicate NoEscape(rest: string) {
    && !(|rest| >= 2 && IsHexDigit(rest[0]) && IsHexDigit(rest[1]))
    && !(|rest| >= 5 && rest[0] == 'u' && IsNumeral(rest[1..5], 16))
  }

  function TextOf(ts: seq<Token>): string {
    if ts == [] then "" else TokenText(ts[0]) + TextOf(ts[1..])
  }

  function MeaningOf(ts: seq<Token>): string
    requires forall i :: 0 <= i < |ts| ==> TokenOk(ts[i])
  {
    if ts == [] then "" else TokenMeans(ts[0]) + MeaningOf(ts[1..])
  }

  predicate TokensOk(ts: seq<Token>) {
    && (forall i :: 0 <= i < |ts| ==> TokenOk(ts[i]))
    && forall i :: 0 <= i < |ts| && ts[i] == Lone ==> NoEscape(TextOf(ts[i + 1..]))
  }

  lemma TwoDigits(s: string, i: nat)
    requires i + 2 <= |s|
    ensures HexValue(s, i, 2).Some? <==> IsNumeral(s[i..i + 2], 16)
    ensures IsNumeral(s[i..i + 2], 16) ==> HexValue(s, i, 2) == Some(Value(s[i..i + 2], 16))
  {
    var d := s[i..i + 2];
    assert d[0] == s[i] && d[1] == s[i + 1];
    assert HexValue(s, i, 1) == if IsHexDigit(s[i]) then Some(DigitValue(s[i])) else None;
    if IsNumeral(d, 16) { EscapedValue(d); }
  }

  lemma FourDigits(s: string, i: nat)
    requires i + 4 <= |s|
    ensures HexValue(s, i, 4).Some? <==> IsNumeral(s[i..i + 4], 16)
    ensures IsNumeral(s[i..i + 4], 16) ==> HexValue(s, i, 4) == Some(Value(s[i..i + 4], 16))
  {
    var d := s[i..i + 4];
    assert d[0] == s[i] && d[1] == s[i + 1] && d[2] == s[i + 2] && d[3] == s[i + 3] && d[..2] == s[i..i + 2];
    TwoDigits(s, i);
    assert HexValue(s, i, 3) ==
           if HexValue(s, i, 2).Some? && IsHexDigit(s[i + 2])
           then Some(HexValue(s, i, 2).value * 16 + DigitValue(s[i + 2]))
           else None;
    if IsNumeral(d, 16) {
      CodeValue(d);
      EscapedValue(d[..2]);
    }
  }

  /** One token at the front. */
  lemma {:induction false} DecodeToken(t: Token, rest: string)
    requires TokenOk(t) && (t == Lone ==> NoEscape(rest))
    ensures DecodePath(TokenText(t) + rest) == TokenMeans(t) + DecodePath(rest)
  {
    hide HexValue, IsNumeral, Value, Utf8;
    var s := TokenText(t) + rest;
    match t
    case Plain(c) => assert s[1..] == rest;
    case Escaped(d) =>
      assert s[1..3] == d && s[3..] == rest && s[1] == d[0];
      TwoDigits(s, 1);
      DigitNotU(d);
    case Code(d) =>
      assert s[2..6] == d && s[6..] == rest && s[1] == 'u';
      FourDigits(s, 2);
    case Lone =>
      assert s[1..] == rest;
      LoneIs(s, rest);
  }

  lemma DigitNotU(d: string)
    requires |d| == 2 && IsNumeral(d, 16)
    ensures d[0] != 'u'
  {
  }

  lemma LoneIs(s: string, rest: string)
    requires s == "%" + rest && NoEscape(rest)
    ensures |s| > 1 && s[1] == 'u' ==> HexValue(s, 2, 4).None?
    ensures |s| > 1 && s[1] != 'u' ==> HexValue(s, 1, 2).None?
  {
    if |s| >= 6 { FourDigits(s, 2); assert s[2..6] == rest[1..5]; }
    if |s| >= 3 { TwoDigits(s, 1); assert s[1] == rest[0] && s[2] == rest[1]; }
  }

  /** Decoding replaces every escape by what it stands for and leaves everything else, escapes that are not
      well formed included. */
  lemma {:induction false} DecodePathIs(ts: seq<Token>)
    requires TokensOk(ts)
    ensures DecodePath(TextOf(ts)) == MeaningOf(ts)
    decreases |ts|
  {
    hide DecodePath, TokenText, TokenMeans, TokenOk, NoEscape;
    if ts == [] {
      NothingToDecode();
    } else {
      forall i | 0 <= i < |ts| - 1 && ts[1..][i] == Lone ensures NoEscape(TextOf(ts[1..][i + 1..])) {
        assert ts[1..][i + 1..] == ts[i + 2..] && ts[i + 1] == Lone;
      }
      DecodePathIs(ts[1..]);
      DecodeToken(ts[0], TextOf(ts[1..]));
    }
  }

  lemma NothingToDecode()
    ensures DecodePath("") == ""
  {
  }

  /** Any byte string in percent encoding, upper or lower case, is decoded to itself. */
  lemma {:induction false} EncodedBytesDecode(s: string, digits: seq<string>)
    requires |digits| == |s|
    requires forall i :: 0 <= i < |s| ==>
               |digits[i]| == 2 && IsNumeral(digits[i], 16) && Value(digits[i], 16) == s[i] as int
    ensures DecodePath(AllEscaped(digits)) == s
    decreases |s|
  {
    hide DecodePath, Value, IsNumeral;
    if s == "" {
      NothingToDecode();
    } else {
      EncodedBytesDecode(s[1..], digits[1..]);
      DecodeToken(Escaped(digits[0]), AllEscaped(digits[1..]));
      assert [s[0]] + s[1..] == s;
    }
  }

  function AllEscaped(digits: seq<string>): string {
    if digits == [] then "" else ("%" + digits[0]) + AllEscaped(digits[1..])
  }

  /** The bytes of a code are its UTF-8 encoding, section 3 of RFC 3629: the lead byte tells the length, and the
      payload bits put together are the code. */
  lemma Utf8Is(code: nat)
    requires code < 0x1_0000
    ensures var u := Utf8(code);
            if 0xD800 <= code < 0xE000 then u == ""
            else if code < 0x80 then |u| == 1 && u[0] as int == code
            else if code < 0x800 then
              && |u| == 2 && 0xC2 <= u[0] as int <= 0xDF && 0x80 <= u[1] as int <= 0xBF
              && (u[0] as int - 0xC0) * 0x40 + (u[1] as int - 0x80) == code
            else
              && |u| == 3 && 0xE0 <= u[0] as int <= 0xEF && 0x80 <= u[1] as int <= 0xBF && 0x80 <= u[2] as int <= 0xBF
              && ((u[0] as int - 0xE0) * 0x40 + (u[1] as int - 0x80)) * 0x40 + (u[2] as int - 0x80) == code
  {
    assert code / 4096 == code / 64 / 64;
  }

  // ----- a block of any lines

  /** A line of a block without its end: not blank, no carriage return, not over the reader's limit. */
  predicate BlockText(line: string) {
    line != "" && (forall i :: 0 <= i < |line| ==> line[i] != '\r') && |line| + 2 <= MAX_LINE_LENGTH
  }

  predicate AllText(lines: seq<string>) {
    forall i :: 0 <= i < |lines| ==> BlockText(lines[i])
  }

  function LinesOf(lines: seq<string>, tail: string): string {
    if lines == [] then tail else lines[0] + CRLF + LinesOf(lines[1..], tail)
  }

  /** Every line is a field line of at most 8192 bytes, and there are at most 100. */
  predicate Acceptable(lines: seq<string>) {
    |lines| <= 100 && forall i :: 0 <= i < |lines| ==> |lines[i]| + 2 <= 8192 && ParseLine(lines[i]).Some?
  }

  function Fields(lines: seq<string>): (hs: seq<Header>)
    requires Acceptable(lines)
    ensures |hs| == |lines| && forall i :: 0 <= i < |lines| ==> hs[i] == ParseLine(lines[i]).value
  {
    seq(|lines|, i requires 0 <= i < |lines| => ParseLine(lines[i]).value)
  }

  lemma {:induction false} OneBlockLine(line: string, rest: string, count: nat)
    requires BlockText(line)
    ensures ReadBlock(line + CRLF + rest, count) ==
            if |line| + 2 > 8192 || count >= 100 || ParseLine(line).None? then None
            else Prepend([ParseLine(line).value], ReadBlock(rest, count + 1))
  {
    hide ParseLine;
    CrlfLine(line, rest);
    var s, end := line + CRLF + rest, line + CRLF;
    assert LineEnd(s) == |end| && s[..|end|] == end && s[|end|..] == rest && end[..|end| - 2] == line;
  }

  /** A block of any lines up to the blank one is read exactly if it is acceptable, as the fields of its lines, in
      order; and reading stops right after the blank line. */
  lemma {:induction false} BlockReadIff(lines: seq<string>, tail: string, count: nat)
    requires AllText(lines)
    ensures ReadBlock(LinesOf(lines, CRLF + tail), count) ==
            if Acceptable(lines) && count + |lines| <= 100 then Some(Block(Fields(lines), tail))
            else if lines == [] then Some(Block([], tail))
            else None
    decreases |lines|
  {
    hide ParseLine, ReadBlock, BlockText;
    if lines == [] {
      EmptyBlock(tail, count);
      assert count <= 100 ==> Fields(lines) == [];
    } else {
      OneBlockLine(lines[0], LinesOf(lines[1..], CRLF + tail), count);
      BlockReadIff(lines[1..], tail, count + 1);
      AcceptableFirst(lines);
      if Acceptable(lines) { assert Fields(lines) == [ParseLine(lines[0]).value] + Fields(lines[1..]); }
    }
  }

  lemma AcceptableFirst(lines: seq<string>)
    requires lines != []
    ensures Acceptable(lines) <==>
            |lines| <= 100 && |lines[0]| + 2 <= 8192 && ParseLine(lines[0]).Some? && Acceptable(lines[1..])
  {
    hide ParseLine;
    assert forall i :: 1 <= i < |lines| ==> lines[i] == lines[1..][i - 1];
  }

  /** Without a blank line there is no block: a stream that ends before it is refused. */
  lemma {:induction false} UnfinishedBlock(lines: seq<string>, last: string, count: nat)
    requires AllText(lines) && forall i :: 0 <= i < |last| ==> last[i] != '\r'
    ensures ReadBlock(LinesOf(lines, last), count) == None
    decreases |lines|
  {
    hide ParseLine, ReadBlock, BlockText;
    if lines == [] {
      UnfinishedLine(last, count);
    } else {
      OneBlockLine(lines[0], LinesOf(lines[1..], last), count);
      UnfinishedBlock(lines[1..], last, count + 1);
    }
  }

  lemma {:induction false} UnfinishedLine(last: string, count: nat)
    requires forall i :: 0 <= i < |last| ==> last[i] != '\r'
    ensures ReadBlock(last, count) == None
  {
    LineEndNone(last);
    assert last[..|last|] == last && last[|last|..] == "";
    assert ReadBlock("", count) == None;
  }

  // ----- what is written

  function FieldTexts(hs: seq<Header>): (lines: seq<string>)
    ensures |lines| == |hs| && forall i :: 0 <= i < |hs| ==> lines[i] == hs[i].name + ": " + hs[i].value
  {
    seq(|hs|, i requires 0 <= i < |hs| => hs[i].name + ": " + hs[i].value)
  }

  /** Every field is written as its name, a colon, a blank and its value, in a line of its own; then comes a blank
      line. */
  lemma {:induction false} WrittenLines(hs: seq<Header>)
    ensures WriteBlock(hs) == LinesOf(FieldTexts(hs), "\r\n")
    decreases |hs|
  {
    if hs != [] {
      WrittenLines(hs[1..]);
      assert FieldTexts(hs)[1..] == FieldTexts(hs[1..]);
    }
  }
}
