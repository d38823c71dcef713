/** Header fields: validation, percent decoding, writing a header block and reading it back. */
module Headers {
  import opened Common
  import opened Text
  import opened SocketStream

  const HEADER_MAX_LENGTH := 8192
  const HEADER_MAX_COUNT := 100

  datatype Header = Header(name: string, value: string)

  // ----- field names and values

  predicate IsTokenChar(c: char) {
    || IsAlnum(c) || c == '!' || c == '#' || c == '$' || c == '%' || c == '&' || c == '\'' || c == '*'
    || c == '+' || c == '-' || c == '.' || c == '^' || c == '_' || c == '`' || c == '|' || c == '~'
  }

  predicate IsFieldName(s: string) {
    s != "" && forall i :: 0 <= i < |s| ==> IsTokenChar(s[i])
  }

  /** Visible ASCII, or a byte with the high bit set. */
  predicate IsFieldVchar(c: char) {
    '!' <= c <= '~' || c as int >= 128
  }

  /** Empty, or visible at both ends with blanks allowed between. */
  predicate IsFieldValue(s: string) {
    s == "" || (IsFieldVchar(s[0]) && IsFieldVchar(s[|s| - 1])
                && forall i :: 0 <= i < |s| ==> IsSpaceOrTab(s[i]) || IsFieldVchar(s[i]))
  }

  method IsFieldContent(s: string) returns (ok: bool)
    ensures ok == IsFieldValue(s)
  {
    if s == "" { return true; }
    if |s| == 1 {
      return IsFieldVchar(s[0]);
    } else if |s| == 2 {
      return IsFieldVchar(s[0]) && IsFieldVchar(s[1]);
    } else {
      var i := 0;
      if !IsFieldVchar(s[i]) { return false; }
      i := i + 1;
      while i < |s| - 1
        invariant 1 <= i <= |s| - 1
        invariant forall j :: 0 <= j < i ==> IsSpaceOrTab(s[j]) || IsFieldVchar(s[j])
      {
        var c := s[i];
        i := i + 1;
        if c == ' ' || c == '\t' || IsFieldVchar(c) {
        } else {
          return false;
        }
      }
      return IsFieldVchar(s[i]);
    }
  }

  // ----- case-insensitive comparison

  /** The table covers Latin-1: A to Z and the upper-case letters from 192 on, the multiplication sign aside. */
  function ToLower(c: char): char {
    var n := c as int;
    if 65 <= n <= 90 || (192 <= n <= 222 && n != 215) then (n + 32) as char else c
  }

  predicate EqualIgnoringCase(a: string, b: string) {
    |a| == |b| && forall i :: 0 <= i < |a| ==> ToLower(a[i]) == ToLower(b[i])
  }

  // ----- percent decoding of header values

  function HexValue(s: string, i: nat, count: nat): Option<nat> {
    if count == 0 then Some(0)
    else if i + count > |s| || !IsHexDigit(s[i + count - 1]) then None
    else
      var init := HexValue(s, i, count - 1);
      if init.None? then None else Some(init.value * 16 + DigitValue(s[i + count - 1]))
  }

  lemma HexBound(s: string, i: nat)
    ensures HexValue(s, i, 2).Some? ==> i + 2 <= |s| && HexValue(s, i, 2).value < 256
    ensures HexValue(s, i, 4).Some? ==> i + 4 <= |s| && HexValue(s, i, 4).value < 0x1_0000
  {
    assert HexValue(s, i, 1).Some? ==> HexValue(s, i, 1).value < 16;
    assert HexValue(s, i, 3).Some? ==> HexValue(s, i, 3).value < 0x1000;
  }

  /** The UTF-8 bytes of a code below 0x10000; none for a surrogate. */
  function Utf8(code: nat): string
    requires code < 0x1_0000
  {
    if code < 0x80 then [code as char]
    else if code < 0x800 then [(0xC0 + code / 64) as char, (0x80 + code % 64) as char]
    else if 0xD800 <= code < 0xE000 then ""
    else [(0xE0 + code / 4096) as char, (0x80 + code / 64 % 64) as char, (0x80 + code % 64) as char]
  }

  function DecodePath(s: string): string {
    if s == "" then ""
    else
      HexBound(s, 1);
      HexBound(s, 2);
      if s[0] == '%' && |s| > 1 && s[1] == 'u' && HexValue(s, 2, 4).Some? then
        Utf8(HexValue(s, 2, 4).value) + DecodePath(s[6..])
      else if s[0] == '%' && |s| > 1 && s[1] != 'u' && HexValue(s, 1, 2).Some? then
        [HexValue(s, 1, 2).value as char] + DecodePath(s[3..])
      else [s[0]] + DecodePath(s[1..])
  }

  method DecodePathComponent(component: string) returns (result: string)
    ensures result == DecodePath(component)
  {
    result := "";
    var i := 0;
    assert component[0..] == component;
    while i < |component|
      invariant 0 <= i <= |component|
      invariant result + DecodePath(component[i..]) == DecodePath(component)
    {
      ghost var rest := component[i..];
      HexBound(rest, 1);
      HexBound(rest, 2);
      var n, piece := 1, [component[i]];
      if component[i] == '%' && i + 1 < |component| {
        if component[i + 1] == 'u' {
          var val := HexValue(component[i..], 2, 4);
          if val.Some? {
            n, piece := 6, Utf8(val.value);
          }
        } else {
          var val := HexValue(component[i..], 1, 2);
          if val.Some? {
            n, piece := 3, [val.value as char];
          }
        }
      }
      assert component[i + n..] == rest[n..];
      Assoc(result, piece, DecodePath(rest[n..]));
      result := result + piece;
      i := i + n;
    }
  }

  lemma {:induction false} DecodePathIdentity(s: string)
    requires '%' !in s
    ensures DecodePath(s) == s
  {
    if s != "" {
      assert s[0] in s && s[0] != '%';
      DecodePathIdentity(s[1..]);
      assert [s[0]] + s[1..] == s;
    }
  }

  // ----- one line

  /** What is stored for a field: the value is percent-decoded unless it is a URL of its own. */
  function Stored(name: string, value: string): Header {
    Header(name, if EqualIgnoringCase(name, "Location") || EqualIgnoringCase(name, "Referer") then value
                 else DecodePath(value))
  }

  /** The line without its terminator. */
  function ParseLine(s: string): Option<Header> {
    var t := TrimRight(s);
    var p := IndexOf(t, ':');
    if !IsFieldName(t[..p]) || p == |t| then None
    else
      var value := TrimLeft(t[p + 1..]);
      if IsFieldValue(value) then Some(Stored(t[..p], value)) else None
  }

  /** The three scans of the line: over blanks at its end, to the colon, over blanks after the colon. */
  method ScanBlanksBack(s: string) returns (end: nat)
    ensures end <= |s| && s[..end] == TrimRight(s)
  {
    end := |s|;
    while 0 < end && IsSpaceOrTab(s[end - 1])
      invariant end <= |s|
      invariant forall i :: end <= i < |s| ==> IsSpaceOrTab(s[i])
    {
      end := end - 1;
    }
    TrimRightAt(s, end);
  }

  method ScanToColon(s: string, end: nat) returns (p: nat)
    requires end <= |s|
    ensures p == IndexOf(s[..end], ':')
  {
    p := 0;
    while p < end && s[p] != ':'
      invariant p <= end
      invariant forall i :: 0 <= i < p ==> s[..end][i] != ':'
    {
      p := p + 1;
    }
  }

  method ScanBlanks(s: string, from: nat, end: nat) returns (p: nat)
    requires from <= end <= |s|
    ensures from <= p <= end && s[p..end] == TrimLeft(s[from..end])
  {
    p := from;
    while p < end && IsSpaceOrTab(s[p])
      invariant from <= p <= end
      invariant forall i :: from <= i < p ==> IsSpaceOrTab(s[i])
    {
      p := p + 1;
    }
    TrimLeftAt(s[from..end], p - from);
    assert s[from..end][p - from..] == s[p..end];
  }

  method ParseHeader(s: string) returns (header: Option<Header>)
    ensures header == ParseLine(s)
  {
    var end := ScanBlanksBack(s);
    var p := ScanToColon(s, end);
    assert s[..end][..p] == s[..p];
    var name := s[..p];
    if !IsFieldName(name) || p == end {
      return None;
    }
    assert s[..end][p + 1..] == s[p + 1..end];
    p := ScanBlanks(s, p + 1, end);
    var value := s[p..end];
    var valid := IsFieldContent(value);
    if !valid {
      return None;
    }
    if EqualIgnoringCase(name, "Location") || EqualIgnoringCase(name, "Referer") {
      return Some(Header(name, value));
    } else {
      var decoded := DecodePathComponent(value);
      return Some(Header(name, decoded));
    }
  }

  // ----- a block

  const CRLF := "\r\n"

  function WriteLine(h: Header): string {
    h.name + ": " + h.value + CRLF
  }

  function WriteBlock(hs: seq<Header>): string {
    if hs == [] then CRLF else WriteLine(hs[0]) + WriteBlock(hs[1..])
  }

  /** Writing goes to a memory buffer, which takes everything. hs is the order in which the map is walked. */
  method WriteHeaders(hs: seq<Header>) returns (out: string)
    ensures out == WriteBlock(hs)
  {
    out := "";
    for i := 0 to |hs|
      invariant out + WriteBlock(hs[i..]) == WriteBlock(hs)
    {
      var s := hs[i].name;
      s := s + ": ";
      s := s + hs[i].value;
      s := s + CRLF;
      Assoc(out, s, WriteBlock(hs[i + 1..]));
      assert hs[i..][1..] == hs[i + 1..];
      out := out + s;
    }
    out := out + CRLF;
  }

  datatype Block = Block(headers: seq<Header>, rest: string)

  /** What one line is to the reader: no line or an unacceptable one, one that is skipped because the
      stream ended inside it, the blank line, or a field. */
  datatype Line = Bad | Skipped | Blank | Field(header: Header)

  function Classify(line: string, count: nat): Line {
    if !EndsWithCrlf(line) then Skipped
    else if |line| == 2 then Blank
    else if |line| > HEADER_MAX_LENGTH || count >= HEADER_MAX_COUNT then Bad
    else
      var header := ParseLine(line[..|line| - 2]);
      if header.None? then Bad else Field(header.value)
  }

  /** The first line of s and what follows it. */
  function NextLine(s: string, count: nat): (Line, string) {
    if LineFits(s) then (Classify(s[..LineEnd(s)], count), s[LineEnd(s)..]) else (Bad, s)
  }

  /** What reading a block from the bytes s amounts to, count headers having been read before. */
  function ReadBlock(s: string, count: nat): Option<Block>
    decreases |s|
  {
    var (line, rest) := NextLine(s, count);
    match line
    case Bad => None
    case Skipped => ReadBlock(rest, count)
    case Blank => Some(Block([], rest))
    case Field(h) => Prepend([h], ReadBlock(rest, count + 1))
  }

  function Prepend(hs: seq<Header>, b: Option<Block>): Option<Block> {
    if b.None? then None else Some(b.value.(headers := hs + b.value.headers))
  }

  /** One round of the loop, up to what it does with the line. */
  method ReadLine(lineReader: StreamLineReader, count: nat) returns (line: Line)
    requires lineReader.Valid()
    modifies lineReader, lineReader.fixedBuffer, lineReader.strm, lineReader.strm.readBuff, lineReader.strm.sock
    ensures lineReader.Valid() && (old(lineReader.strm.sock.failed) ==> lineReader.strm.sock.failed)
    ensures !line.Bad? ==> (line, lineReader.strm.Remaining()) == NextLine(old(lineReader.strm.Remaining()), count)
    ensures line.Bad? ==> NextLine(old(lineReader.strm.Remaining()), count).0 == Bad || lineReader.strm.sock.failed
  {
    ghost var s := lineReader.strm.Remaining();
    var got := lineReader.GetLine();
    if !got {
      return Bad;
    }
    var text := lineReader.Line();
    assert lineReader.strm.Remaining() == s[|text|..];
    if EndsWithCrlf(text) {
      if |text| == 2 { return Blank; }
    } else {
      return Skipped;
    }
    if |text| > HEADER_MAX_LENGTH { return Bad; }
    if count >= HEADER_MAX_COUNT { return Bad; }
    var header := ParseHeader(text[..|text| - 2]);
    return if header.None? then Bad else Field(header.value);
  }

  /** Reads header lines up to the blank line. */
  method ReadHeaders(strm: SocketStream) returns (ok: bool, headers: seq<Header>)
    requires strm.Valid()
    modifies strm, strm.readBuff, strm.sock
    ensures strm.Valid() && (old(strm.sock.failed) ==> strm.sock.failed)
    ensures ok ==> ReadBlock(old(strm.Remaining()), 0) == Some(Block(headers, strm.Remaining()))
    ensures !ok ==> ReadBlock(old(strm.Remaining()), 0) == None || strm.sock.failed
  {
    headers := [];
    var lineReader := new StreamLineReader(strm, 2048);
    ghost var target := ReadBlock(strm.Remaining(), 0);
    PrependNone(target);
    var headerCount: nat := 0;
    while true
      invariant lineReader.Valid() && fresh(lineReader) && fresh(lineReader.fixedBuffer) && lineReader.strm == strm
      invariant old(strm.sock.failed) ==> strm.sock.failed
      invariant target == Prepend(headers, ReadBlock(strm.Remaining(), headerCount))
      decreases |strm.Remaining()|
    {
      var line := ReadLine(lineReader, headerCount);
      if line.Bad? {
        return false, headers;
      } else if line.Blank? {
        EndOfBlock(headers, strm.Remaining());
        return true, headers;
      } else if line.Field? {
        PrependOne(headers, line.header, ReadBlock(strm.Remaining(), headerCount + 1));
        headers := headers + [line.header];
        headerCount := headerCount + 1;
      }
    }
  }

  lemma EndOfBlock(hs: seq<Header>, rest: string)
    ensures Prepend(hs, Some(Block([], rest))) == Some(Block(hs, rest))
  {
    assert hs + [] == hs;
  }

  lemma PrependNone(b: Option<Block>)
    ensures Prepend([], b) == b
  {
    if b.Some? { assert [] + b.value.headers == b.value.headers; }
  }

  lemma PrependOne(hs: seq<Header>, h: Header, b: Option<Block>)
    ensures Prepend(hs, Prepend([h], b)) == Prepend(hs + [h], b)
  {
    if b.Some? { Assoc(hs, [h], b.value.headers); }
  }

  // ----- the round trip

  /** What set_header lets in. */
  predicate Settable(h: Header) {
    IsFieldName(h.name) && IsFieldValue(h.value)
  }

  lemma NoCrInside(h: Header)
    requires Settable(h)
    ensures var s := h.name + ": " + h.value; forall i :: 0 <= i < |s| ==> s[i] != '\r'
  {
  }

  /** The first line of a written block is the first header. */
  lemma FirstLine(h: Header, rest: string)
    requires Settable(h)
    ensures LineEnd(WriteLine(h) + rest) == |WriteLine(h)|
    ensures (WriteLine(h) + rest)[..|WriteLine(h)|] == WriteLine(h) && (WriteLine(h) + rest)[|WriteLine(h)|..] == rest
    ensures EndsWithCrlf(WriteLine(h)) && |WriteLine(h)| > 2
    ensures WriteLine(h)[..|WriteLine(h)| - 2] == h.name + ": " + h.value
  {
    NoCrInside(h);
    CrlfLine(h.name + ": " + h.value, rest);
  }

  lemma TrimmedLine(h: Header)
    requires Settable(h)
    ensures TrimRight(h.name + ": " + h.value) == if h.value == "" then h.name + ":" else h.name + ": " + h.value
  {
    var s := h.name + ": " + h.value;
    if h.value == "" {
      TrimRightAt(s, |s| - 1);
      assert s[..|s| - 1] == h.name + ":";
    } else {
      assert s[|s| - 1] == h.value[|h.value| - 1];
      TrimRightAt(s, |s|);
      assert s[..|s|] == s;
    }
  }

  lemma ParseOfLine(h: Header)
    requires Settable(h)
    ensures ParseLine(h.name + ": " + h.value) == Some(Stored(h.name, h.value))
  {
    TrimmedLine(h);
    var after := if h.value == "" then "" else " " + h.value;
    var t := h.name + [':'] + after;
    assert t == TrimRight(h.name + ": " + h.value);
    forall c | c in h.name ensures c != ':' { var i :| 0 <= i < |h.name| && h.name[i] == c; }
    IndexOfAt(h.name, ':', after);
    assert t[..|h.name|] == h.name && t[|h.name| + 1..] == after;
    if h.value != "" {
      TrimLeftAt(after, 1);
      assert after[1..] == h.value;
    }
  }

  function StoredAll(hs: seq<Header>): seq<Header> {
    if hs == [] then [] else [Stored(hs[0].name, hs[0].value)] + StoredAll(hs[1..])
  }

  predicate WithinLimits(hs: seq<Header>, count: nat) {
    count + |hs| <= HEADER_MAX_COUNT && forall i :: 0 <= i < |hs| ==> |WriteLine(hs[i])| <= HEADER_MAX_LENGTH
  }

  predicate AllSettable(hs: seq<Header>) {
    forall i :: 0 <= i < |hs| ==> Settable(hs[i])
  }

  /** What is to be read back. */
  function Expected(hs: seq<Header>, tail: string, count: nat): Option<Block> {
    if WithinLimits(hs, count) then Some(Block(StoredAll(hs), tail)) else None
  }

  lemma ExpectedStep(hs: seq<Header>, tail: string, count: nat)
    requires hs != []
    ensures Expected(hs, tail, count) ==
            if |WriteLine(hs[0])| <= HEADER_MAX_LENGTH && count < HEADER_MAX_COUNT
            then Prepend([Stored(hs[0].name, hs[0].value)], Expected(hs[1..], tail, count + 1))
            else None
  {
    LimitsTail(hs, count);
  }

  function WriteThen(hs: seq<Header>, tail: string): string {
    if hs == [] then CRLF + tail else WriteLine(hs[0]) + WriteThen(hs[1..], tail)
  }

  lemma {:induction false} WriteThenIsBlock(hs: seq<Header>, tail: string)
    ensures WriteThen(hs, tail) == WriteBlock(hs) + tail
  {
    if hs != [] {
      WriteThenIsBlock(hs[1..], tail);
      Assoc(WriteLine(hs[0]), WriteBlock(hs[1..]), tail);
    }
  }

  lemma {:induction false} ReadThenWritten(hs: seq<Header>, tail: string, count: nat)
    requires count <= HEADER_MAX_COUNT && AllSettable(hs)
    ensures ReadBlock(WriteThen(hs, tail), count) == Expected(hs, tail, count)
    decreases |hs|
  {
    if hs == [] {
      EmptyBlock(tail, count);
    } else {
      if count < HEADER_MAX_COUNT { ReadThenWritten(hs[1..], tail, count + 1); }
      ReadFirst(hs[0], WriteThen(hs[1..], tail), count);
      ExpectedStep(hs, tail, count);
    }
  }

  /** Section 5 of RFC 9112: a written block of settable headers, followed by anything, is read back
      exactly when it keeps within the limits; then each value comes back percent-decoded, except URLs,
      and reading stops right after the blank line. */
  lemma {:induction false} BlockRoundTripIff(hs: seq<Header>, tail: string)
    requires AllSettable(hs)
    ensures ReadBlock(WriteBlock(hs) + tail, 0) == Expected(hs, tail, 0)
  {
    WriteThenIsBlock(hs, tail);
    ReadThenWritten(hs, tail, 0);
  }

  lemma LimitsTail(hs: seq<Header>, count: nat)
    requires hs != []
    ensures WithinLimits(hs, count) <==> |WriteLine(hs[0])| <= HEADER_MAX_LENGTH && WithinLimits(hs[1..], count + 1)
  {
    forall i | 0 < i < |hs| ensures hs[i] == hs[1..][i - 1] {}
  }

  lemma ReadFirst(h: Header, rest: string, count: nat)
    requires Settable(h)
    ensures ReadBlock(WriteLine(h) + rest, count) ==
            if |WriteLine(h)| <= HEADER_MAX_LENGTH && count < HEADER_MAX_COUNT
            then Prepend([Stored(h.name, h.value)], ReadBlock(rest, count + 1))
            else None
  {
    FirstLine(h, rest);
    ParseOfLine(h);
  }

  lemma EmptyBlock(tail: string, count: nat)
    ensures ReadBlock(CRLF + tail, count) == Some(Block([], tail))
  {
    var s := CRLF + tail;
    LineEndAt(s, 2);
    assert s[..2] == CRLF && s[2..] == tail;
  }

  /** Values without a percent sign come back unchanged. */
  lemma {:induction false} StoredUnchanged(hs: seq<Header>)
    requires forall i :: 0 <= i < |hs| ==> '%' !in hs[i].value
    ensures StoredAll(hs) == hs
  {
    if hs != [] {
      DecodePathIdentity(hs[0].value);
      StoredUnchanged(hs[1..]);
      assert [hs[0]] + hs[1..] == hs;
    }
  }
}
