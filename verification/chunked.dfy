/** The chunked transfer coding, written by a content provider and read back from a stream. */
module Chunked {
  import opened Common
  import opened Text
  import opened SocketStream
  import opened Headers

  const ULONG_MAX := 0xffff_ffff_ffff_ffff

  // ----- writing

  /** The receiving end of a write: it may take part of the data, or fail. */
  class OutStream {
    var written: string
    var failed: bool

    constructor ()
      ensures written == "" && !failed
    {
      written, failed := "", false;
    }

    method WaitWritable() returns (ok: bool)
      modifies this`failed
      ensures failed == (old(failed) || !ok)
    {
      ok := *;
      failed := failed || !ok;
    }

    method Write(data: string) returns (n: int)
      requires data != ""
      modifies this
      ensures n < 0 ==> failed && written == old(written)
      ensures n >= 0 ==> 0 < n <= |data| && failed == old(failed) && written == old(written) + data[..n]
    {
      var broken: bool, some: nat := *, *;
      if broken {
        failed, n := true, -1;
      } else {
        n := if 0 < some < |data| then some else |data|;
        written := written + data[..n];
      }
    }
  }

  method WriteData(strm: OutStream, d: string) returns (ok: bool)
    modifies strm
    ensures ok ==> strm.written == old(strm.written) + d && strm.failed == old(strm.failed)
    ensures !ok ==> strm.failed
  {
    var offset := 0;
    while offset < |d|
      invariant 0 <= offset <= |d|
      invariant strm.written == old(strm.written) + d[..offset] && strm.failed == old(strm.failed)
    {
      var length := strm.Write(d[offset..]);
      if length < 0 { return false; }
      assert d[..offset] + d[offset..][..length] == d[..offset + length];
      Assoc(old(strm.written), d[..offset], d[offset..][..length]);
      offset := offset + length;
    }
    assert d[..offset] == d;
    return true;
  }

  function Chunk(d: string): string {
    if d == "" then "" else Print(|d|, 16) + CRLF + d + CRLF
  }

  function Lines(hs: seq<Header>): string {
    if hs == [] then "" else Lines(hs[..|hs| - 1]) + WriteLine(hs[|hs| - 1])
  }

  function LastChunk(trailer: seq<Header>): string {
    "0" + CRLF + Lines(trailer) + CRLF
  }

  /** What a content provider does with its sink: write data, or finish with trailers (none for done()). */
  datatype SinkOp = Write(data: string) | Done(trailer: seq<Header>)

  /** One call of the provider: whether the server is shutting down by then, so that it is not made; what it
      does with the sink; and what it returns. */
  datatype Call = Call(stopping: bool, ops: seq<SinkOp>, result: bool)

  function Emit(op: SinkOp): string {
    match op
    case Write(d) => Chunk(d)
    case Done(trailer) => LastChunk(trailer)
  }

  function EmitAll(ops: seq<SinkOp>): string {
    if ops == [] then "" else EmitAll(ops[..|ops| - 1]) + Emit(ops[|ops| - 1])
  }

  /** Whether the provider is called again: a write of nothing ends the content as Done does. */
  function More(ops: seq<SinkOp>): bool {
    ops == [] || (ops[|ops| - 1].Write? && ops[|ops| - 1].data != "")
  }

  /** The variables the sink's closures share; the compressor is the identity. */
  class DataSink {
    const strm: OutStream
    var offset: nat
    var dataAvailable: bool
    var ok: bool

    constructor (strm: OutStream)
      ensures this.strm == strm && offset == 0 && dataAvailable && ok
    {
      this.strm, offset, dataAvailable, ok := strm, 0, true, true;
    }

    method Write(d: string)
      requires ok
      modifies this, strm
      ensures dataAvailable == (d != "") && offset == old(offset) + |d|
      ensures ok ==> strm.written == old(strm.written) + Chunk(d) && strm.failed == old(strm.failed)
      ensures ok && d != "" ==> strm.written == old(strm.written) + (Print(|d|, 16) + "\r\n" + d + "\r\n")
      ensures ok && d == "" ==> strm.written == old(strm.written)
      ensures !ok ==> strm.failed
    {
      dataAvailable := |d| > 0;
      offset := offset + |d|;
      var payload := d;
      if payload != "" {
        var size := ToHex(|payload|);
        ok := WriteData(strm, size + CRLF + payload + CRLF);
      } else {
        assert strm.written + "" == strm.written;
      }
    }

    method Done(trailer: seq<Header>)
      requires ok
      modifies this, strm
      ensures !dataAvailable && offset == old(offset)
      ensures ok ==> strm.written == old(strm.written) + LastChunk(trailer) && strm.failed == old(strm.failed)
      ensures ok && trailer == [] ==> strm.written == old(strm.written) + "0\r\n\r\n"
      ensures !ok ==> strm.failed
    {
      dataAvailable := false;
      var sent := WriteData(strm, "0" + CRLF);
      if !sent { ok := false; }
      for i := 0 to |trailer|
        invariant !dataAvailable && offset == old(offset)
        invariant ok ==> strm.written == old(strm.written) + ("0" + CRLF + Lines(trailer[..i]))
        invariant ok ==> strm.failed == old(strm.failed)
        invariant !ok ==> strm.failed
      {
        assert trailer[..i + 1][..i] == trailer[..i];
        ghost var before := "0" + CRLF + Lines(trailer[..i]);
        var line := trailer[i].name + ": " + trailer[i].value + CRLF;
        Assoc(old(strm.written), before, line);
        Assoc("0" + CRLF, Lines(trailer[..i]), line);
        sent := WriteData(strm, line);
        if !sent { ok := false; }
      }
      assert trailer[..|trailer|] == trailer;
      Assoc(old(strm.written), "0" + CRLF + Lines(trailer), CRLF);
      sent := WriteData(strm, CRLF);
      if !sent { ok := false; }
    }
  }

  datatype Outcome = Sent | Canceled | WriteError

  /** What a provider's calls put on the wire when no write fails. A provider that runs out of calls while
      more is expected counts as one that returns false. */
  function Serve(calls: seq<Call>): (string, Outcome) {
    if calls == [] then ("", Canceled)
    else if calls[0].stopping then ("", Sent)
    else if !calls[0].result then (EmitAll(calls[0].ops), Canceled)
    else if !More(calls[0].ops) then (EmitAll(calls[0].ops), Sent)
    else
      var (rest, outcome) := Serve(calls[1..]);
      (EmitAll(calls[0].ops) + rest, outcome)
  }

  method Perform(sink: DataSink, op: SinkOp)
    requires sink.ok
    modifies sink, sink.strm
    ensures sink.dataAvailable == (op.Write? && op.data != "")
    ensures sink.ok ==> sink.strm.written == old(sink.strm.written) + Emit(op)
    ensures sink.ok ==> sink.strm.failed == old(sink.strm.failed)
    ensures !sink.ok ==> sink.strm.failed
  {
    match op
    case Write(d) => sink.Write(d);
    case Done(trailer) => sink.Done(trailer);
  }

  lemma {:induction false} EmitNext(before: string, ops: seq<SinkOp>, i: nat)
    requires i < |ops|
    ensures before + EmitAll(ops[..i]) + Emit(ops[i]) == before + EmitAll(ops[..i + 1])
  {
    assert ops[..i + 1][..i] == ops[..i];
    Assoc(before, EmitAll(ops[..i]), Emit(ops[i]));
  }

  /** One call of the content provider. Once a write has failed the sink does nothing more. */
  method Provide(sink: DataSink, ops: seq<SinkOp>)
    requires sink.ok && sink.dataAvailable
    modifies sink, sink.strm
    ensures sink.ok ==> sink.strm.written == old(sink.strm.written) + EmitAll(ops)
    ensures sink.ok ==> sink.dataAvailable == More(ops) && sink.strm.failed == old(sink.strm.failed)
    ensures !sink.ok ==> sink.strm.failed
  {
    assert sink.strm.written + "" == sink.strm.written;
    for i := 0 to |ops|
      invariant sink.ok ==> sink.strm.written == old(sink.strm.written) + EmitAll(ops[..i])
      invariant sink.ok ==> sink.dataAvailable == More(ops[..i]) && sink.strm.failed == old(sink.strm.failed)
      invariant !sink.ok ==> sink.strm.failed
    {
      if sink.ok {
        EmitNext(old(sink.strm.written), ops, i);
        Perform(sink, ops[i]);
      }
    }
    assert ops[..|ops|] == ops;
  }

  method WriteContentChunked(strm: OutStream, calls: seq<Call>) returns (outcome: Outcome)
    modifies strm
    ensures strm.failed || (strm.written, outcome) == (old(strm.written) + Serve(calls).0, Serve(calls).1)
    ensures outcome.WriteError? ==> strm.failed
  {
    hide EmitAll;
    var sink := new DataSink(strm);
    var i := 0;
    ghost var done := "";
    assert strm.written + "" == strm.written;
    assert calls[0..] == calls && "" + Serve(calls).0 == Serve(calls).0;
    while sink.dataAvailable && !(i < |calls| && calls[i].stopping)
      invariant 0 <= i <= |calls| && fresh(sink) && sink.strm == strm && sink.ok
      invariant strm.failed || strm.written == old(strm.written) + done
      invariant sink.dataAvailable ==> Serve(calls) == (done + Serve(calls[i..]).0, Serve(calls[i..]).1)
      invariant !sink.dataAvailable ==> Serve(calls) == (done, Sent)
      decreases |calls| - i, sink.dataAvailable
    {
      var writable := strm.WaitWritable();
      if !writable { return WriteError; }
      if i == |calls| {
        assert done + "" == done;
        return Canceled;
      }
      ghost var rest := Serve(calls[i + 1..]).0;
      assert calls[i..][1..] == calls[i + 1..];
      var call := calls[i];
      Provide(sink, call.ops);
      i := i + 1;
      Assoc(old(strm.written), done, EmitAll(call.ops));
      Assoc(done, EmitAll(call.ops), rest);
      done := done + EmitAll(call.ops);
      if !call.result { return Canceled; }
      if !sink.ok { return WriteError; }
    }
    assert done + "" == done;
    return Sent;
  }

  // ----- reading: the size line

  /** The length of the longest prefix of hexadecimal digits. */
  function HexSpan(s: string): (n: nat)
    ensures n <= |s| && IsNumeral(s[..n], 16)
    ensures n < |s| ==> !IsHexDigit(s[n])
  {
    if s != "" && IsHexDigit(s[0]) then 1 + HexSpan(s[1..]) else 0
  }

  function AfterSign(a: string): string {
    if a != "" && (a[0] == '-' || a[0] == '+') then a[1..] else a
  }

  function AfterPrefix(b: string): string {
    if |b| > 2 && b[0] == '0' && (b[1] == 'x' || b[1] == 'X') && IsHexDigit(b[2]) then b[2..] else b
  }

  /** strtoul in base 16 on a 64-bit machine: blanks, a sign and a 0x prefix are accepted, a minus wraps
      around, an overflow gives ULONG_MAX; None when there is no number. */
  function Strtoul(s: string): Option<nat> {
    var a := SkipSpace(s);
    var negative := a != "" && a[0] == '-';
    var c := AfterPrefix(AfterSign(a));
    var digits := c[..HexSpan(c)];
    if digits == "" then None
    else
      var v := Value(digits, 16);
      if v > ULONG_MAX then Some(ULONG_MAX)
      else if negative then Some((ULONG_MAX + 1 - v) % (ULONG_MAX + 1))
      else Some(v)
  }

  lemma {:induction false} HexSpanAt(s: string, n: nat)
    requires n <= |s| && forall i :: 0 <= i < n ==> IsHexDigit(s[i])
    requires n < |s| ==> !IsHexDigit(s[n])
    ensures HexSpan(s) == n
  {
    if n > 0 { HexSpanAt(s[1..], n - 1); }
  }

  /** What strtoul makes of a text, part by part: blanks, a sign, a prefix, digits, and whatever follows. */
  predicate NumberText(blanks: string, sign: string, prefix: string, digits: string, rest: string) {
    && (forall i :: 0 <= i < |blanks| ==> IsSpace(blanks[i]))
    && sign in {"", "+", "-"} && prefix in {"", "0x", "0X"}
    && digits != "" && IsNumeral(digits, 16) && (rest == "" || !IsHexDigit(rest[0]))
    && !(prefix == "" && digits == "0" && |rest| > 1 && rest[0] in {'x', 'X'} && IsHexDigit(rest[1]))
  }

  lemma {:induction false} SkipBlanks(blanks: string, s: string)
    requires (forall i :: 0 <= i < |blanks| ==> IsSpace(blanks[i])) && (s == "" || !IsSpace(s[0]))
    ensures SkipSpace(blanks + s) == s
  {
    if blanks == "" {
      assert blanks + s == s;
    } else {
      assert (blanks + s)[1..] == blanks[1..] + s;
      SkipBlanks(blanks[1..], s);
    }
  }

  /** The number is read, wrapped around after a minus, and cut off at the largest; the rest is not looked at. */
  lemma {:induction false} StrtoulIs(blanks: string, sign: string, prefix: string, digits: string, rest: string)
    requires NumberText(blanks, sign, prefix, digits, rest)
    ensures var v := Value(digits, 16);
            Strtoul(blanks + (sign + (prefix + (digits + rest)))) ==
            Some(if v > ULONG_MAX then ULONG_MAX
                 else if sign == "-" && v > 0 then ULONG_MAX + 1 - v
                 else v)
  {
    hide SkipSpace, Value, HexSpan, AfterSign, AfterPrefix;
    var c := digits + rest;
    var b := prefix + c;
    var a := sign + b;
    PrefixOff(sign, prefix, digits, rest);
    SkipBlanks(blanks, a);
    assert forall i :: 0 <= i < |digits| ==> c[i] == digits[i] && IsHexDigit(c[i]);
    assert |digits| < |c| ==> c[|digits|] == rest[0];
    HexSpanAt(c, |digits|);
    assert c[..|digits|] == digits;
  }

  lemma PrefixOff(sign: string, prefix: string, digits: string, rest: string)
    requires NumberText("", sign, prefix, digits, rest)
    ensures AfterPrefix(prefix + (digits + rest)) == digits + rest
    ensures var a := sign + (prefix + (digits + rest));
            AfterSign(a) == prefix + (digits + rest) && !IsSpace(a[0]) && (a[0] == '-' <==> sign == "-")
  {
    hide Value;
    var c := digits + rest;
    var b := prefix + c;
    assert c[0] == digits[0] && IsHexDigit(digits[0]);
    if prefix == "" {
      assert b == c;
      assert |c| > 1 ==> c[1] == if |digits| > 1 then digits[1] else rest[0];
      assert |c| > 2 && |digits| == 1 ==> c[2] == rest[1];
    } else {
      assert b[2..] == c && b[2] == c[0] && b[1] == prefix[1] && b[0] == '0';
    }
    if sign == "" { assert sign + b == b; } else { assert (sign + b)[1..] == b; }
  }

  /** Without a digit after blanks and a sign there is no number. */
  lemma {:induction false} StrtoulNone(blanks: string, sign: string, rest: string)
    requires (forall i :: 0 <= i < |blanks| ==> IsSpace(blanks[i])) && sign in {"", "+", "-"}
    requires rest == "" || (!IsHexDigit(rest[0]) && !(sign == "" && (IsSpace(rest[0]) || rest[0] in {'+', '-'})))
    ensures Strtoul(blanks + (sign + rest)) == None
  {
    hide SkipSpace, Value, HexSpan;
    var a := sign + rest;
    SkipBlanks(blanks, a);
    assert sign != "" ==> a[1..] == rest && a[0] == sign[0];
    assert sign == "" ==> a == rest;
    HexSpanAt(rest, 0);
  }

  lemma StrtoulOfDigits(p: string)
    requires p != "" && IsNumeral(p, 16) && Value(p, 16) < ULONG_MAX
    ensures Strtoul(p + CRLF) == Some(Value(p, 16))
  {
    var s := p + CRLF;
    assert forall i :: 0 <= i < |p| ==> s[i] == p[i];
    assert s[|p|] == '\r';
    assert SkipSpace(s) == s;
    HexSpanAt(s, |p|);
    assert s[..|p|] == p;
  }

  /** Reading the size line undoes printing it. */
  lemma StrtoulOfPrint(n: nat)
    requires n < ULONG_MAX
    ensures Strtoul(Print(n, 16) + CRLF) == Some(n)
  {
    ValueOfPrint(n, 16);
    StrtoulOfDigits(Print(n, 16));
  }

  // ----- reading: what the bytes mean

  datatype Result = Error | PayloadTooLarge | Content(body: string, trailers: seq<Header>, rest: string)

  /** The names the trailer fields may have: those the Trailer header declares, framing and routing fields
      excepted. */
  const PROHIBITED: seq<string> := [
    "transfer-encoding", "content-length", "host", "authorization", "www-authenticate", "proxy-authenticate",
    "proxy-authorization", "cookie", "set-cookie", "cache-control", "expect", "max-forwards", "pragma", "range", "te",
    "age", "expires", "date", "location", "retry-after", "vary", "warning",
    "content-encoding", "content-type", "content-range", "trailer"]

  predicate Among(name: string, names: seq<string>) {
    exists i :: 0 <= i < |names| && EqualIgnoringCase(name, names[i])
  }

  function Allowed(names: seq<string>): seq<string> {
    if names == [] then []
    else
      var init := Allowed(names[..|names| - 1]);
      if Among(names[|names| - 1], PROHIBITED) then init else init + [names[|names| - 1]]
  }

  function Declared(trailerHeader: Option<string>): seq<string> {
    if trailerHeader.None? then [] else Allowed(Split(trailerHeader.value, ','))
  }

  /** The trailer section from one of its lines on; count fields have been kept so far. A line that does
      not parse, or is not declared, is passed over. */
  function Trailers(s: string, declared: seq<string>, count: nat): Result
    decreases |s|
  {
    if !LineFits(s) then Error
    else
      var line, rest := s[..LineEnd(s)], s[LineEnd(s)..];
      if line == CRLF then Content("", [], rest)
      else if |line| > HEADER_MAX_LENGTH || count >= HEADER_MAX_COUNT then Error
      else
        var field := ParseLine(line[..if |line| < 2 then 0 else |line| - 2]);
        if field.Some? && Among(field.value.name, declared) then
          WithTrailer(field.value, Trailers(rest, declared, count + 1))
        else Trailers(rest, declared, count)
  }

  function WithTrailer(h: Header, r: Result): Result {
    if r.Content? then r.(trailers := [h] + r.trailers) else r
  }

  function WithData(d: string, r: Result): Result {
    if r.Content? then r.(body := d + r.body) else r
  }

  /** After the last chunk: the trailer section, which may be missing altogether. */
  function AfterLastChunk(s: string, declared: seq<string>): Result {
    if LineFits(s) then Trailers(s, declared, 0) else Content("", [], s[Wasted(s)..])
  }

  /** The size line at the beginning of s, and what follows it. */
  function NextSize(s: string): Option<(nat, string)> {
    if !LineFits(s) then None
    else
      var n := Strtoul(s[..LineEnd(s)]);
      if n.None? || n.value == ULONG_MAX then None else Some((n.value, s[LineEnd(s)..]))
  }

  /** What follows a line that is nothing but its end. */
  function AfterCrlf(s: string): Option<string> {
    if LineFits(s) && s[..LineEnd(s)] == CRLF then Some(s[2..]) else None
  }

  /** One round of the reader: an error, a chunk over the limit, the last chunk, or a chunk of data. */
  datatype Round = Broken | Big | Last | Piece(data: string)

  /** The round the bytes s begin with, and what follows it. */
  function RoundAt(s: string, total: nat, limit: nat): (r: (Round, string))
    ensures r.0.Piece? ==> |r.1| < |s|
  {
    match NextSize(s)
    case None => (Broken, s)
    case Some((n, rest)) =>
      if n == 0 then (Last, rest)
      else if total > limit || limit - total < n then (Big, rest)
      else if |rest| < n then (Broken, s)
      else
        var next := AfterCrlf(rest[n..]);
        if next.None? then (Broken, s) else (Piece(rest[..n]), next.value)
  }

  /** What the bytes s amount to after total bytes of content. */
  function Dechunk(s: string, total: nat, limit: nat, declared: seq<string>): Result
    decreases |s|
  {
    var (round, rest) := RoundAt(s, total, limit);
    match round
    case Broken => Error
    case Big => PayloadTooLarge
    case Last => AfterLastChunk(rest, declared)
    case Piece(d) => WithData(d, Dechunk(rest, total + |d|, limit, declared))
  }

  // ----- reading: the methods

  /** Reads exactly len bytes; the receiver takes them all. */
  method ReadContentWithLength(strm: SocketStream, len: nat) returns (ok: bool, data: string)
    requires strm.Valid()
    modifies strm, strm.readBuff, strm.sock
    ensures strm.Valid() && (old(strm.sock.failed) ==> strm.sock.failed)
    ensures old(strm.Remaining()) == data + strm.Remaining() && |data| <= len
    ensures ok ==> |data| == len
    ensures !ok ==> strm.sock.failed || |old(strm.Remaining())| < len
  {
    data := "";
    ghost var all := strm.Remaining();
    while |data| < len
      invariant strm.Valid() && (old(strm.sock.failed) ==> strm.sock.failed)
      invariant all == data + strm.Remaining() && |data| <= len
      decreases len - |data|
    {
      var readLen := len - |data|;
      var n, piece := strm.Read(if readLen < RECV_BUFSIZ then readLen else RECV_BUFSIZ);
      if n <= 0 { return false, data; }
      Assoc(data, piece, strm.Remaining());
      data := data + piece;
    }
    return true, data;
  }

  /** getline and strtoul for a size line; None is an error. */
  method ReadSize(lineReader: StreamLineReader) returns (size: Option<nat>)
    requires lineReader.Valid()
    modifies lineReader, lineReader.fixedBuffer, lineReader.strm, lineReader.strm.readBuff, lineReader.strm.sock
    ensures lineReader.Valid() && (old(lineReader.strm.sock.failed) ==> lineReader.strm.sock.failed)
    ensures size.Some? ==> NextSize(old(lineReader.strm.Remaining())) == Some((size.value, lineReader.strm.Remaining()))
    ensures size.None? ==> NextSize(old(lineReader.strm.Remaining())) == None || lineReader.strm.sock.failed
  {
    ghost var s := lineReader.strm.Remaining();
    var got := lineReader.GetLine();
    if !got { return None; }
    var line := lineReader.Line();
    assert lineReader.strm.Remaining() == s[|line|..];
    var chunkLen := Strtoul(line);
    return if chunkLen.None? || chunkLen.value == ULONG_MAX then None else chunkLen;
  }

  /** The line end after a chunk's data. */
  method ReadCrlf(lineReader: StreamLineReader) returns (ok: bool)
    requires lineReader.Valid()
    modifies lineReader, lineReader.fixedBuffer, lineReader.strm, lineReader.strm.readBuff, lineReader.strm.sock
    ensures lineReader.Valid() && (old(lineReader.strm.sock.failed) ==> lineReader.strm.sock.failed)
    ensures ok ==> AfterCrlf(old(lineReader.strm.Remaining())) == Some(lineReader.strm.Remaining())
    ensures !ok ==> AfterCrlf(old(lineReader.strm.Remaining())) == None || lineReader.strm.sock.failed
  {
    ghost var s := lineReader.strm.Remaining();
    var got := lineReader.GetLine();
    if !got { return false; }
    var line := lineReader.Line();
    assert lineReader.strm.Remaining() == s[|line|..];
    return line == CRLF;
  }

  method DeclaredTrailers(trailerHeader: Option<string>) returns (declared: seq<string>)
    ensures declared == Declared(trailerHeader)
  {
    hide Among, Split;
    declared := [];
    if trailerHeader.Some? {
      var names := SplitLoop(trailerHeader.value, ',');
      for i := 0 to |names|
        invariant declared == Allowed(names[..i])
      {
        assert names[..i + 1][..i] == names[..i];
        if !Among(names[i], PROHIBITED) {
          declared := declared + [names[i]];
        }
      }
      assert names[..|names|] == names;
    }
  }

  function WithTrailers(hs: seq<Header>, r: Result): Result {
    if r.Content? then r.(trailers := hs + r.trailers) else r
  }

  lemma TrailerSnoc(hs: seq<Header>, h: Header, r: Result)
    ensures WithTrailers(hs, WithTrailer(h, r)) == WithTrailers(hs + [h], r)
  {
    if r.Content? { Assoc(hs, [h], r.trailers); }
  }

  lemma NoTrailers(hs: seq<Header>, r: Result)
    ensures WithTrailers([], r) == r
    ensures r.Content? && r.trailers == [] ==> WithTrailers(hs, r) == r.(trailers := hs)
  {
    if r.Content? { assert [] + r.trailers == r.trailers && hs + [] == hs; }
  }

  /** One line of the trailer section that is not the last. */
  datatype TrailerLine = Refuse | Skip | Keep(field: Header)

  function ClassifyTrailer(line: string, declared: seq<string>, count: nat): TrailerLine {
    if |line| > HEADER_MAX_LENGTH || count >= HEADER_MAX_COUNT then Refuse
    else
      var field := ParseLine(line[..if |line| < 2 then 0 else |line| - 2]);
      if field.Some? && Among(field.value.name, declared) then Keep(field.value) else Skip
  }

  method ReadTrailer(line: string, declared: seq<string>, count: nat) returns (kind: TrailerLine)
    ensures kind == ClassifyTrailer(line, declared, count)
  {
    if |line| > HEADER_MAX_LENGTH { return Refuse; }
    if count >= HEADER_MAX_COUNT { return Refuse; }
    var field := ParseHeader(line[..if |line| < 2 then 0 else |line| - 2]);
    return if field.Some? && Among(field.value.name, declared) then Keep(field.value) else Skip;
  }

  /** How the section goes on after a line. */
  lemma TrailersStep(s: string, line: string, rest: string, declared: seq<string>, count: nat)
    requires IsFirstLine(s, line) && rest == s[|line|..] && line != CRLF
    ensures Trailers(s, declared, count) ==
            match ClassifyTrailer(line, declared, count)
            case Refuse => Error
            case Skip => Trailers(rest, declared, count)
            case Keep(h) => WithTrailer(h, Trailers(rest, declared, count + 1))
  {
  }

  /** The trailer section, after the last chunk; without a line to read there is none. */
  method ReadTrailers(lineReader: StreamLineReader, declared: seq<string>) returns (ok: bool, trailers: seq<Header>)
    requires lineReader.Valid()
    modifies lineReader, lineReader.fixedBuffer, lineReader.strm, lineReader.strm.readBuff, lineReader.strm.sock
    ensures lineReader.Valid() && (old(lineReader.strm.sock.failed) ==> lineReader.strm.sock.failed)
    ensures lineReader.strm.sock.failed
         || AfterLastChunk(old(lineReader.strm.Remaining()), declared) ==
            if ok then Content("", trailers, lineReader.strm.Remaining()) else Error
  {
    trailers := [];
    ghost var s := lineReader.strm.Remaining();
    ghost var target := AfterLastChunk(s, declared);
    var got := lineReader.GetLine();
    if !got {
      assert lineReader.strm.sock.failed || lineReader.strm.Remaining() == s[Wasted(s)..];
      return true, trailers;
    }
    NoTrailers([], target);
    var count: nat := 0;
    while lineReader.Line() != CRLF
      invariant lineReader.Valid() && (old(lineReader.strm.sock.failed) ==> lineReader.strm.sock.failed)
      invariant IsFirstLine(s, lineReader.Line()) && lineReader.strm.Remaining() == s[|lineReader.Line()|..]
      invariant target == WithTrailers(trailers, Trailers(s, declared, count))
      decreases |s|
    {
      var line := lineReader.Line();
      ghost var rest := lineReader.strm.Remaining();
      TrailersStep(s, line, rest, declared, count);
      var kind := ReadTrailer(line, declared, count);
      if kind.Refuse? { return false, trailers; }
      if kind.Keep? {
        TrailerSnoc(trailers, kind.field, Trailers(rest, declared, count + 1));
        trailers := trailers + [kind.field];
        count := count + 1;
      }
      s := rest;
      got := lineReader.GetLine();
      if !got { return false, trailers; }
      assert lineReader.strm.Remaining() == s[|lineReader.Line()|..];
    }
    NoTrailers(trailers, Trailers(s, declared, count));
    return true, trailers;
  }

  lemma DataSnoc(body: string, d: string, r: Result)
    ensures WithData(body, WithData(d, r)) == WithData(body + d, r)
    ensures WithData("", r) == r
  {
    if r.Content? {
      Assoc(body, d, r.body);
      assert "" + r.body == r.body;
    }
  }

  /** A chunk's data and the line end after it. */
  function PieceAt(s: string, n: nat): Option<string> {
    if |s| < n || AfterCrlf(s[n..]) == None then None else Some(s[..n])
  }

  method ReadPiece(lineReader: StreamLineReader, n: nat) returns (piece: Option<string>)
    requires lineReader.Valid()
    modifies lineReader, lineReader.fixedBuffer, lineReader.strm, lineReader.strm.readBuff, lineReader.strm.sock
    ensures lineReader.Valid() && (old(lineReader.strm.sock.failed) ==> lineReader.strm.sock.failed)
    ensures lineReader.strm.sock.failed || piece == PieceAt(old(lineReader.strm.Remaining()), n)
    ensures piece.Some? ==>
              && piece == PieceAt(old(lineReader.strm.Remaining()), n)
              && AfterCrlf(old(lineReader.strm.Remaining())[n..]) == Some(lineReader.strm.Remaining())
  {
    ghost var s := lineReader.strm.Remaining();
    var ok, data := ReadContentWithLength(lineReader.strm, n);
    if !ok { return None; }
    assert lineReader.strm.Remaining() == s[n..] && data == s[..n];
    ok := ReadCrlf(lineReader);
    return if ok then Some(data) else None;
  }

  /** One round of the loop: size line, data, line end. */
  method ReadRound(lineReader: StreamLineReader, total: nat, limit: nat) returns (round: Round)
    requires lineReader.Valid()
    modifies lineReader, lineReader.fixedBuffer, lineReader.strm, lineReader.strm.readBuff, lineReader.strm.sock
    ensures lineReader.Valid() && (old(lineReader.strm.sock.failed) ==> lineReader.strm.sock.failed)
    ensures lineReader.strm.sock.failed || round == RoundAt(old(lineReader.strm.Remaining()), total, limit).0
    ensures round.Piece? || round.Last? ==>
              (round, lineReader.strm.Remaining()) == RoundAt(old(lineReader.strm.Remaining()), total, limit)
  {
    var chunkLen := ReadSize(lineReader);
    if chunkLen.None? { return Broken; }
    var n := chunkLen.value;
    if n == 0 { return Last; }
    if total > limit || limit - total < n { return Big; }
    var piece := ReadPiece(lineReader, n);
    return if piece.None? then Broken else Piece(piece.value);
  }

  lemma {:induction false} NextRound(s: string, body: string, d: string, rest: string,
                                     total: nat, limit: nat, declared: seq<string>)
    requires RoundAt(s, total, limit) == (Piece(d), rest)
    ensures WithData(body, Dechunk(s, total, limit, declared)) ==
            WithData(body + d, Dechunk(rest, total + |d|, limit, declared))
  {
    hide RoundAt, AfterLastChunk;
    DataSnoc(body, d, Dechunk(rest, total + |d|, limit, declared));
  }

  /** The chunks up to the last one, or to what stops the reader. */
  method ReadChunks(lineReader: StreamLineReader, limit: nat, ghost declared: seq<string>)
    returns (stop: Round, body: string)
    requires lineReader.Valid()
    modifies lineReader, lineReader.fixedBuffer, lineReader.strm, lineReader.strm.readBuff, lineReader.strm.sock
    ensures lineReader.Valid() && (old(lineReader.strm.sock.failed) ==> lineReader.strm.sock.failed)
    ensures !stop.Piece?
    ensures lineReader.strm.sock.failed
         || Dechunk(old(lineReader.strm.Remaining()), 0, limit, declared) ==
            if stop.Broken? then Error else if stop.Big? then PayloadTooLarge
            else WithData(body, AfterLastChunk(lineReader.strm.Remaining(), declared))
  {
    hide RoundAt, AfterLastChunk;
    body := "";
    var totalLen: nat := 0;
    ghost var target := Dechunk(lineReader.strm.Remaining(), 0, limit, declared);
    DataSnoc("", "", target);
    while true
      invariant lineReader.Valid() && (old(lineReader.strm.sock.failed) ==> lineReader.strm.sock.failed)
      invariant target == WithData(body, Dechunk(lineReader.strm.Remaining(), totalLen, limit, declared))
      decreases |lineReader.strm.Remaining()|
    {
      ghost var s := lineReader.strm.Remaining();
      var round := ReadRound(lineReader, totalLen, limit);
      if !round.Piece? { return round, body; }
      NextRound(s, body, round.data, lineReader.strm.Remaining(), totalLen, limit, declared);
      body := body + round.data;
      totalLen := totalLen + |round.data|;
    }
  }

  datatype ReadResult = Success | TooLarge | Failure

  ghost predicate Agrees(r: Result, result: ReadResult, body: string, trailers: seq<Header>, rest: string) {
    match result
    case Success => r == Content(body, trailers, rest)
    case TooLarge => r == PayloadTooLarge
    case Failure => r == Error
  }

  /** Without a read error the outcome, the data delivered and what is left in the stream depend only on
      the bytes, not on how they arrive. */
  method ReadContentChunked(strm: SocketStream, limit: nat, trailerHeader: Option<string>)
    returns (result: ReadResult, body: string, trailers: seq<Header>)
    requires strm.Valid()
    modifies strm, strm.readBuff, strm.sock
    ensures strm.Valid() && (old(strm.sock.failed) ==> strm.sock.failed)
    ensures strm.sock.failed
         || Agrees(Dechunk(old(strm.Remaining()), 0, limit, Declared(trailerHeader)),
                   result, body, trailers, strm.Remaining())
    ensures strm.sock.failed
         || AsWritten(old(strm.Remaining()), limit, trailerHeader, result, body, trailers, strm.Remaining())
  {
    hide Dechunk, Declared, AsWritten;
    trailers := [];
    var lineReader := new StreamLineReader(strm, 16);
    var stop;
    stop, body := ReadChunks(lineReader, limit, Declared(trailerHeader));
    if stop.Broken? || stop.Big? {
      result := if stop.Broken? then Failure else TooLarge;
      if !strm.sock.failed {
        WrittenAgrees(old(strm.Remaining()), limit, trailerHeader, result, body, trailers, strm.Remaining());
      }
      return;
    }
    var declared := DeclaredTrailers(trailerHeader);
    var ok;
    ok, trailers := ReadTrailers(lineReader, declared);
    DataSnoc(body, "", Content("", trailers, strm.Remaining()));
    assert body + "" == body;
    result := if ok then Success else Failure;
    if !strm.sock.failed {
      WrittenAgrees(old(strm.Remaining()), limit, trailerHeader, result, body, trailers, strm.Remaining());
    }
  }

  // ----- the round trip

  lemma HexDigitsAreNoCr(n: nat)
    requires n < ULONG_MAX
    ensures |Print(n, 16)| <= 16 && forall j :: 0 <= j < |Print(n, 16)| ==> Print(n, 16)[j] != '\r'
  {
    var p := Print(n, 16);
    forall j | 0 <= j < |p| ensures p[j] != '\r' { assert p[j] in p; }
    assert Pow16(2) == 0x100 && Pow16(4) == 0x1_0000 && Pow16(6) == 0x100_0000 && Pow16(8) == 0x1_0000_0000;
    assert Pow16(10) == 0x100_0000_0000 && Pow16(12) == 0x1_0000_0000_0000 && Pow16(14) == 0x100_0000_0000_0000;
    assert Pow16(16) == ULONG_MAX + 1;
    PrintLength(n, 16);
  }

  /** The size line of a chunk is read as its size. */
  lemma SizeOfPrinted(n: nat, rest: string)
    requires n < ULONG_MAX
    ensures NextSize(Print(n, 16) + CRLF + rest) == Some((n, rest))
  {
    var p := Print(n, 16);
    HexDigitsAreNoCr(n);
    CrlfLine(p, rest);
    StrtoulOfPrint(n);
  }

  lemma CrlfThen(rest: string)
    ensures AfterCrlf(CRLF + rest) == Some(rest)
  {
    CrlfLine("", rest);
    assert "" + "\r\n" + rest == CRLF + rest;
    assert "" + "\r\n" == CRLF;
  }

  /** A chunk at the front of the bytes is the next round, if it fits the limit. */
  lemma RoundOfChunk(d: string, rest: string, total: nat, limit: nat)
    requires 0 < |d| < ULONG_MAX && total <= limit
    ensures total + |d| <= limit ==> RoundAt(Chunk(d) + rest, total, limit) == (Piece(d), rest)
    ensures total + |d| > limit ==> RoundAt(Chunk(d) + rest, total, limit).0 == Big
  {
    hide NextSize, AfterCrlf;
    var after := d + (CRLF + rest);
    assert Chunk(d) + rest == Print(|d|, 16) + CRLF + after;
    SizeOfPrinted(|d|, after);
    assert after[..|d|] == d && after[|d|..] == CRLF + rest;
    CrlfThen(rest);
  }

  function Sum(ws: seq<string>): nat {
    if ws == [] then 0 else |ws[0]| + Sum(ws[1..])
  }

  function ChunksThen(ws: seq<string>, end: string): string {
    if ws == [] then end else Chunk(ws[0]) + ChunksThen(ws[1..], end)
  }

  predicate AllChunks(ws: seq<string>) {
    forall i :: 0 <= i < |ws| ==> 0 < |ws[i]| < ULONG_MAX
  }

  /** Written chunks, followed by an end whose meaning is known, are read as their concatenation. */
  lemma {:induction false} DechunkOfChunks(ws: seq<string>, end: string, total: nat, limit: nat, declared: seq<string>)
    requires AllChunks(ws) && total <= limit
    ensures Dechunk(ChunksThen(ws, end), total, limit, declared) ==
            if total + Sum(ws) <= limit then WithData(Concat(ws), Dechunk(end, total + Sum(ws), limit, declared))
            else PayloadTooLarge
    decreases |ws|
  {
    hide RoundAt, AfterLastChunk, Chunk;
    if ws == [] {
      DataSnoc("", "", Dechunk(end, total, limit, declared));
    } else {
      var d, rest := ws[0], ChunksThen(ws[1..], end);
      RoundOfChunk(d, rest, total, limit);
      if total + |d| <= limit {
        DechunkOfChunks(ws[1..], end, total + |d|, limit, declared);
        DataSnoc(d, Concat(ws[1..]), Dechunk(end, total + Sum(ws), limit, declared));
      }
    }
  }

  function LinesThen(hs: seq<Header>, tail: string): string {
    if hs == [] then CRLF + tail else WriteLine(hs[0]) + LinesThen(hs[1..], tail)
  }

  /** The trailer fields the reader keeps. */
  function KeptTrailers(hs: seq<Header>, declared: seq<string>): seq<Header> {
    if hs == [] then []
    else
      var rest := KeptTrailers(hs[1..], declared);
      if Among(hs[0].name, declared) then [Stored(hs[0].name, hs[0].value)] + rest else rest
  }

  lemma LastTrailerLine(tail: string, declared: seq<string>, count: nat)
    ensures LineFits(CRLF + tail) && Trailers(CRLF + tail, declared, count) == Content("", [], tail)
  {
    CrlfThen(tail);
  }

  lemma {:induction false} OneTrailerLine(h: Header, rest: string, declared: seq<string>, count: nat)
    requires Settable(h) && |WriteLine(h)| <= HEADER_MAX_LENGTH && count < HEADER_MAX_COUNT
    ensures LineFits(WriteLine(h) + rest)
    ensures Trailers(WriteLine(h) + rest, declared, count) ==
            if Among(h.name, declared) then WithTrailer(Stored(h.name, h.value), Trailers(rest, declared, count + 1))
            else Trailers(rest, declared, count)
  {
    var line := WriteLine(h);
    FirstLine(h, rest);
    ParseOfLine(h);
    TrailersStep(line + rest, line, rest, declared, count);
  }

  lemma {:induction false} TrailersOfLines(hs: seq<Header>, tail: string, declared: seq<string>, count: nat)
    requires AllSettable(hs) && WithinLimits(hs, count)
    ensures LineFits(LinesThen(hs, tail))
    ensures Trailers(LinesThen(hs, tail), declared, count) == Content("", KeptTrailers(hs, declared), tail)
    decreases |hs|
  {
    hide LineFits, Stored, WriteLine, Among;
    if hs == [] {
      LastTrailerLine(tail, declared, count);
    } else {
      var h, rest := hs[0], LinesThen(hs[1..], tail);
      TrailerLimits(hs, count);
      OneTrailerLine(h, rest, declared, count);
      TrailersOfLines(hs[1..], tail, declared, count);
      TrailersOfLines(hs[1..], tail, declared, count + 1);
    }
  }

  lemma TrailerLimits(hs: seq<Header>, count: nat)
    requires hs != [] && AllSettable(hs) && WithinLimits(hs, count)
    ensures Settable(hs[0]) && |WriteLine(hs[0])| <= HEADER_MAX_LENGTH && count < HEADER_MAX_COUNT
    ensures AllSettable(hs[1..]) && WithinLimits(hs[1..], count) && WithinLimits(hs[1..], count + 1)
  {
    forall i | 0 < i < |hs| ensures hs[i] == hs[1..][i - 1] {}
  }

  /** The last chunk and the trailer section. */
  lemma DechunkOfLast(hs: seq<Header>, tail: string, total: nat, limit: nat, declared: seq<string>)
    requires AllSettable(hs) && WithinLimits(hs, 0)
    ensures Dechunk("0" + CRLF + LinesThen(hs, tail), total, limit, declared) ==
            Content("", KeptTrailers(hs, declared), tail)
  {
    hide NextSize, Trailers;
    var rest := LinesThen(hs, tail);
    assert Print(0, 16) == "0";
    SizeOfPrinted(0, rest);
    TrailersOfLines(hs, tail, declared, 0);
  }

  lemma {:induction false} EmitConcat(a: seq<SinkOp>, b: seq<SinkOp>)
    ensures EmitAll(a + b) == EmitAll(a) + EmitAll(b)
  {
    hide Emit;
    if b == [] {
      assert a + b == a && EmitAll(a) + "" == EmitAll(a);
    } else {
      var b' := b[..|b| - 1];
      EmitConcat(a, b');
      assert (a + b)[..|a + b| - 1] == a + b';
      Assoc(EmitAll(a), EmitAll(b'), Emit(b[|b| - 1]));
    }
  }

  function Writes(ws: seq<string>): seq<SinkOp> {
    if ws == [] then [] else [Write(ws[0])] + Writes(ws[1..])
  }

  lemma {:induction false} EmitOfWrites(ws: seq<string>, end: string)
    ensures EmitAll(Writes(ws)) + end == ChunksThen(ws, end)
  {
    hide Chunk;
    if ws == [] {
      assert "" + end == end;
    } else {
      var one := [Write(ws[0])];
      EmitOfWrites(ws[1..], end);
      EmitConcat(one, Writes(ws[1..]));
      assert one[..0] == [] && "" + Chunk(ws[0]) == Chunk(ws[0]);
      Assoc(Chunk(ws[0]), EmitAll(Writes(ws[1..])), end);
    }
  }

  lemma {:induction false} LinesIsLinesThen(hs: seq<Header>, mid: seq<Header>, tail: string)
    ensures Lines(hs) + LinesThen(mid, tail) == LinesThen(hs + mid, tail)
  {
    hide WriteLine;
    if hs == [] {
      assert hs + mid == mid && "" + LinesThen(mid, tail) == LinesThen(mid, tail);
    } else {
      var init, h := hs[..|hs| - 1], hs[|hs| - 1];
      LinesIsLinesThen(init, [h] + mid, tail);
      Assoc(Lines(init), WriteLine(h), LinesThen(mid, tail));
      assert ([h] + mid)[1..] == mid;
      assert init + ([h] + mid) == hs + mid;
    }
  }

  lemma LastChunkThen(hs: seq<Header>, tail: string)
    ensures LastChunk(hs) + tail == "0" + CRLF + LinesThen(hs, tail)
  {
    hide Lines, LinesThen;
    assert LinesThen([], tail) == CRLF + tail by { NoLines(tail); }
    LinesIsLinesThen(hs, [], tail);
    assert hs + [] == hs;
    assert "0" + CRLF + Lines(hs) + CRLF + tail == "0" + CRLF + (Lines(hs) + (CRLF + tail));
  }

  lemma NoLines(tail: string)
    ensures LinesThen([], tail) == CRLF + tail
  {
  }

  /** What finishing content written in non-empty pieces puts on the wire. */
  function Encoded(ws: seq<string>, hs: seq<Header>): string {
    EmitAll(Writes(ws) + [Done(hs)])
  }

  lemma EncodedThen(ws: seq<string>, hs: seq<Header>, tail: string)
    ensures Encoded(ws, hs) + tail == ChunksThen(ws, "0" + CRLF + LinesThen(hs, tail))
  {
    hide LastChunk, LinesThen;
    var last := [Done(hs)];
    EmitConcat(Writes(ws), last);
    assert last[..0] == [] && "" + LastChunk(hs) == LastChunk(hs);
    Assoc(EmitAll(Writes(ws)), LastChunk(hs), tail);
    LastChunkThen(hs, tail);
    EmitOfWrites(ws, LastChunk(hs) + tail);
  }

  /** Section 7.1 of RFC 9112: content written in non-empty pieces and finished, followed by anything, is
      read back as the concatenation of the pieces, with the declared trailers, and reading stops right
      after it, exactly when it is within the payload limit; otherwise it is too large. */
  lemma {:induction false} ChunkedRoundTripIff(ws: seq<string>, hs: seq<Header>, tail: string,
                                               limit: nat, declared: seq<string>)
    requires AllChunks(ws) && AllSettable(hs) && WithinLimits(hs, 0)
    ensures Dechunk(Encoded(ws, hs) + tail, 0, limit, declared) ==
            if Sum(ws) <= limit then Content(Concat(ws), KeptTrailers(hs, declared), tail) else PayloadTooLarge
  {
    hide Dechunk, LinesThen, Encoded, ChunksThen, KeptTrailers;
    var end := "0" + CRLF + LinesThen(hs, tail);
    EncodedThen(ws, hs, tail);
    DechunkOfLast(hs, tail, Sum(ws), limit, declared);
    DechunkOfChunks(ws, end, 0, limit, declared);
    assert Concat(ws) + "" == Concat(ws);
  }

  // ----- the provider's calls

  function Flatten(calls: seq<Call>): seq<SinkOp> {
    if calls == [] then [] else calls[0].ops + Flatten(calls[1..])
  }

  /** Non-empty writes and nothing else. */
  predicate OnlyWrites(ops: seq<SinkOp>) {
    forall i :: 0 <= i < |ops| ==> ops[i].Write? && ops[i].data != ""
  }

  /** What ends the content: finishing it, or a write of zero bytes. */
  predicate Ends(op: SinkOp) {
    op.Done? || op.data == ""
  }

  /** A provider that succeeds, spreads its writes over its calls as it likes and ends the content in its
      last one is served completely. */
  lemma {:induction false} ServedCompletely(calls: seq<Call>, writes: seq<SinkOp>, last: SinkOp)
    requires calls != [] && forall i :: 0 <= i < |calls| ==> calls[i].result && !calls[i].stopping
    requires OnlyWrites(writes) && Ends(last)
    requires Flatten(calls) == writes + [last] && calls[|calls| - 1].ops != []
    ensures Serve(calls) == (EmitAll(writes + [last]), Sent)
    decreases |calls|
  {
    hide Emit;
    var ops, rest := calls[0].ops, calls[1..];
    if rest == [] {
      assert ops + [] == ops;
      assert ops[|ops| - 1] == last;
    } else {
      LastIsKept(rest);
      var more := Flatten(rest);
      SplitBeforeLast(ops, more, writes, last);
      ServedCompletely(rest, writes[|ops|..], last);
      EmitConcat(ops, more);
    }
  }

  lemma SplitBeforeLast<T>(a: seq<T>, b: seq<T>, s: seq<T>, last: T)
    requires a + b == s + [last] && b != []
    ensures |a| <= |s| && a == s[..|a|] && b == s[|a|..] + [last]
  {
    assert |a| + |b| == |s| + 1;
    assert (a + b)[..|a|] == a && (a + b)[|a|..] == b;
    assert (s + [last])[..|a|] == s[..|a|];
  }

  lemma {:induction false} LastIsKept(calls: seq<Call>)
    requires calls != [] && calls[|calls| - 1].ops != []
    ensures Flatten(calls) != []
  {
    if |calls| > 1 { LastIsKept(calls[1..]); }
  }

  // ----- when what was sent can be read

  /** What the provider does before it is not called any more. */
  function Performed(calls: seq<Call>): seq<SinkOp> {
    if calls == [] || calls[0].stopping then []
    else if !calls[0].result || !More(calls[0].ops) then calls[0].ops
    else calls[0].ops + Performed(calls[1..])
  }

  /** The non-empty writes before the content is finished for the first time, */
  function Pieces(ops: seq<SinkOp>): seq<string> {
    if ops == [] || ops[0].Done? then []
    else (if ops[0].data == "" then [] else [ops[0].data]) + Pieces(ops[1..])
  }

  /** and everything from there on. */
  function FromDone(ops: seq<SinkOp>): (from: seq<SinkOp>)
    ensures from == [] || from[0].Done?
  {
    if ops == [] || ops[0].Done? then ops else FromDone(ops[1..])
  }

  predicate Sendable(op: SinkOp) {
    match op
    case Write(d) => |d| < ULONG_MAX
    case Done(hs) => AllSettable(hs) && WithinLimits(hs, 0)
  }

  lemma {:induction false} ServeEmits(calls: seq<Call>)
    ensures Serve(calls).0 == EmitAll(Performed(calls))
  {
    hide Emit;
    if calls != [] && !calls[0].stopping && calls[0].result && More(calls[0].ops) {
      ServeEmits(calls[1..]);
      EmitConcat(calls[0].ops, Performed(calls[1..]));
    }
  }

  lemma {:induction false} EmitFirst(ops: seq<SinkOp>)
    requires ops != []
    ensures EmitAll(ops) == Emit(ops[0]) + EmitAll(ops[1..])
  {
    hide Emit;
    assert ops == [ops[0]] + ops[1..];
    EmitConcat([ops[0]], ops[1..]);
    assert [ops[0]][..0] == [] && "" + Emit(ops[0]) == Emit(ops[0]);
  }

  lemma {:induction false} EmitSplit(ops: seq<SinkOp>)
    ensures EmitAll(ops) == ChunksThen(Pieces(ops), EmitAll(FromDone(ops)))
  {
    hide Chunk, EmitAll, ChunksThen;
    NoChunks(EmitAll(ops));
    if ops != [] && ops[0].Write? {
      var d, end := ops[0].data, EmitAll(FromDone(ops));
      EmitFirst(ops);
      EmitSplit(ops[1..]);
      if d == "" {
        EmptyChunk(EmitAll(ops[1..]));
        assert [] + Pieces(ops[1..]) == Pieces(ops[1..]);
      } else {
        OneMoreChunk(d, Pieces(ops[1..]), end);
      }
    }
  }

  lemma NoChunks(end: string)
    ensures ChunksThen([], end) == end
  {
  }

  lemma {:induction false} OneMoreChunk(d: string, ws: seq<string>, end: string)
    ensures ChunksThen([d] + ws, end) == Chunk(d) + ChunksThen(ws, end)
  {
    hide Chunk;
    assert ([d] + ws)[1..] == ws;
  }

  lemma EmptyChunk(rest: string)
    ensures Chunk("") + rest == rest
  {
  }

  lemma {:induction false} PiecesAreChunks(ops: seq<SinkOp>)
    requires forall i :: 0 <= i < |ops| ==> Sendable(ops[i])
    ensures AllChunks(Pieces(ops))
    ensures FromDone(ops) == [] || (FromDone(ops)[0].Done? && Sendable(FromDone(ops)[0]))
    ensures FromDone(ops) == [] <==> forall i :: 0 <= i < |ops| ==> ops[i].Write?
  {
    if ops != [] && ops[0].Write? {
      PiecesAreChunks(ops[1..]);
      assert forall i :: 0 < i < |ops| ==> ops[i] == ops[1..][i - 1];
    }
  }

  /** For every provider, whatever it does and returns and whenever the server shuts down: what its calls put
      on the wire is read as the writes before it finishes, with the trailers it finishes with; as an error
      if it never does; and as too large if they exceed the payload limit. */
  lemma {:induction false} ReadBackOfServed(calls: seq<Call>, limit: nat, declared: seq<string>)
    requires forall i :: 0 <= i < |Performed(calls)| ==> Sendable(Performed(calls)[i])
    ensures var ws, from := Pieces(Performed(calls)), FromDone(Performed(calls));
            Dechunk(Serve(calls).0, 0, limit, declared) ==
            if Sum(ws) > limit then PayloadTooLarge
            else if from == [] then Error
            else Content(Concat(ws), KeptTrailers(from[0].trailer, declared), EmitAll(from[1..]))
  {
    hide Dechunk, EmitAll, ChunksThen, KeptTrailers, Performed, Pieces, FromDone, Serve;
    var ops := Performed(calls);
    var ws, from := Pieces(ops), FromDone(ops);
    ServeEmits(calls);
    EmitSplit(ops);
    PiecesAreChunks(ops);
    DechunkOfChunks(ws, EmitAll(from), 0, limit, declared);
    ReadEnd(from, Sum(ws), limit, declared);
    assert Concat(ws) + "" == Concat(ws);
  }

  lemma {:induction false} ReadEnd(from: seq<SinkOp>, total: nat, limit: nat, declared: seq<string>)
    requires from == [] || (from[0].Done? && Sendable(from[0]))
    ensures Dechunk(EmitAll(from), total, limit, declared) ==
            if from == [] then Error else Content("", KeptTrailers(from[0].trailer, declared), EmitAll(from[1..]))
  {
    hide Dechunk, EmitAll, LastChunk, LinesThen, KeptTrailers;
    if from == [] {
      NothingToRead(total, limit, declared);
    } else {
      EmitFirst(from);
      LastChunkThen(from[0].trailer, EmitAll(from[1..]));
      DechunkOfLast(from[0].trailer, EmitAll(from[1..]), total, limit, declared);
    }
  }

  lemma {:induction false} NothingToRead(total: nat, limit: nat, declared: seq<string>)
    ensures Dechunk(EmitAll([]), total, limit, declared) == Error
  {
    assert EmitAll([]) == "";
  }

  /** Success of sending says too little: after it, within the payload limit, the content can be read
      exactly if the provider has finished it. It has not when a write of zero bytes, or the shutdown of the
      server, has ended it instead. */
  lemma {:induction false} SentReadsBackIff(calls: seq<Call>, limit: nat, declared: seq<string>)
    requires Serve(calls).1 == Sent && Sum(Pieces(Performed(calls))) <= limit
    requires forall i :: 0 <= i < |Performed(calls)| ==> Sendable(Performed(calls)[i])
    ensures Dechunk(Serve(calls).0, 0, limit, declared).Content? <==>
            exists i :: 0 <= i < |Performed(calls)| && Performed(calls)[i].Done?
  {
    hide Dechunk, Performed, Pieces, FromDone, Serve;
    ReadBackOfServed(calls, limit, declared);
    PiecesAreChunks(Performed(calls));
  }

  /** In particular for a provider whose only ending is its last one. */
  lemma {:induction false} EndedReadsBackIff(calls: seq<Call>, writes: seq<SinkOp>, last: SinkOp,
                                             limit: nat, declared: seq<string>)
    requires calls != [] && forall i :: 0 <= i < |calls| ==> calls[i].result && !calls[i].stopping
    requires OnlyWrites(writes) && Ends(last) && Sendable(last)
    requires Flatten(calls) == writes + [last] && calls[|calls| - 1].ops != []
    requires Sum(Pieces(writes)) <= limit && forall i :: 0 <= i < |writes| ==> Sendable(writes[i])
    ensures Serve(calls).1 == Sent
    ensures Dechunk(Serve(calls).0, 0, limit, declared).Content? <==> last.Done?
  {
    hide Dechunk, Pieces, FromDone, Serve, Sendable;
    ServedCompletely(calls, writes, last);
    AllPerformed(calls, writes, last);
    var ops := writes + [last];
    PiecesOfEnded(writes, last);
    assert forall i :: 0 <= i < |ops| ==> Sendable(ops[i]);
    SentReadsBackIff(calls, limit, declared);
    assert ops[|writes|] == last;
  }

  lemma {:induction false} AllPerformed(calls: seq<Call>, writes: seq<SinkOp>, last: SinkOp)
    requires calls != [] && forall i :: 0 <= i < |calls| ==> calls[i].result && !calls[i].stopping
    requires OnlyWrites(writes) && Ends(last)
    requires Flatten(calls) == writes + [last] && calls[|calls| - 1].ops != []
    ensures Performed(calls) == writes + [last]
    decreases |calls|
  {
    var ops, rest := calls[0].ops, calls[1..];
    if rest == [] {
      assert ops + [] == ops;
      assert ops[|ops| - 1] == last;
    } else {
      LastIsKept(rest);
      SplitBeforeLast(ops, Flatten(rest), writes, last);
      AllPerformed(rest, writes[|ops|..], last);
    }
  }

  lemma {:induction false} PiecesOfEnded(writes: seq<SinkOp>, last: SinkOp)
    requires OnlyWrites(writes) && Ends(last)
    ensures Pieces(writes + [last]) == Pieces(writes)
  {
    if writes == [] {
      assert ([] + [last])[1..] == [] && writes + [last] == [last];
    } else {
      assert (writes + [last])[1..] == writes[1..] + [last];
      PiecesOfEnded(writes[1..], last);
    }
  }

  // ----- the trailers, from the Trailer header and the lines of the section

  /** A name in the Trailer header with the blanks around it. */
  datatype Listed = Listed(left: string, name: string, right: string)

  predicate Blanks(s: string) {
    forall i :: 0 <= i < |s| ==> IsSpaceOrTab(s[i])
  }

  predicate AllListed(ls: seq<Listed>) {
    forall i :: 0 <= i < |ls| ==> Blanks(ls[i].left) && Blanks(ls[i].right) && IsFieldName(ls[i].name)
  }

  function ListText(l: Listed): string {
    l.left + l.name + l.right
  }

  /** The names joined by commas. */
  function ListOf(ls: seq<Listed>): string
    requires ls != []
  {
    if |ls| == 1 then ListText(ls[0]) else ListOf(ls[..|ls| - 1]) + [','] + ListText(ls[|ls| - 1])
  }

  function Names(ls: seq<Listed>): (names: seq<string>)
    ensures |names| == |ls| && forall i :: 0 <= i < |ls| ==> names[i] == ls[i].name
  {
    seq(|ls|, i requires 0 <= i < |ls| => ls[i].name)
  }

  /** A field of this name may be delivered: the header lists it, and it is none of those that section 4.1.2 of
      RFC 7230 keeps out of trailers. Case does not matter. */
  predicate Wanted(name: string, ls: seq<Listed>) {
    && (exists i :: 0 <= i < |ls| && EqualIgnoringCase(name, ls[i].name))
    && !Among(name, [
         "transfer-encoding", "content-length", "host", "authorization", "www-authenticate", "proxy-authenticate",
         "proxy-authorization", "cookie", "set-cookie", "cache-control", "expect", "max-forwards", "pragma", "range",
         "te", "age", "expires", "date", "location", "retry-after", "vary", "warning", "content-encoding",
         "content-type", "content-range", "trailer"])
  }

  lemma {:induction false} ListedField(l: Listed)
    requires Blanks(l.left) && Blanks(l.right) && IsFieldName(l.name)
    ensures Split(ListText(l), ',') == [l.name]
  {
    hide Trim;
    var s, a := ListText(l), |l.left|;
    var b := a + |l.name|;
    forall i | 0 <= i < |s|
      ensures s[i] != ',' && (i < a || i >= b ==> IsSpaceOrTab(s[i])) && (a <= i < b ==> s[i] == l.name[i - a])
    {
      if a <= i < b { assert s[i] == l.name[i - a] && IsTokenChar(l.name[i - a]); }
    }
    assert IsTokenChar(s[a]) && IsTokenChar(s[b - 1]);
    TrimAt(s, a, b);
    assert s[a..b] == l.name;
    SplitOne(s, ',');
  }

  lemma {:induction false} SplitOfList(ls: seq<Listed>)
    requires ls != [] && AllListed(ls)
    ensures Split(ListOf(ls), ',') == Names(ls)
    decreases |ls|
  {
    hide Split, ListText, Blanks, IsFieldName;
    var init, l := ls[..|ls| - 1], ls[|ls| - 1];
    ListedField(l);
    if |ls| > 1 {
      SplitOfList(init);
      SplitConcat(ListOf(init), ',', ListText(l));
      assert Names(ls) == Names(init) + [l.name];
    }
  }

  lemma {:induction false} AmongAllowed(name: string, names: seq<string>)
    ensures Among(name, Allowed(names)) <==>
            exists i :: 0 <= i < |names| && EqualIgnoringCase(name, names[i]) && !Among(names[i], PROHIBITED)
    decreases |names|
  {
    hide EqualIgnoringCase;
    if names != [] {
      var init, last := names[..|names| - 1], names[|names| - 1];
      AmongAllowed(name, init);
      AmongSnoc(name, Allowed(init), last);
      if i :| 0 <= i < |init| && EqualIgnoringCase(name, init[i]) && !Among(init[i], PROHIBITED) {
        assert names[i] == init[i];
      }
      if i :| 0 <= i < |names| && EqualIgnoringCase(name, names[i]) && !Among(names[i], PROHIBITED) {
        if i < |init| { assert init[i] == names[i]; }
      }
    }
  }

  lemma AmongSnoc(name: string, names: seq<string>, last: string)
    ensures Among(name, names + [last]) <==> Among(name, names) || EqualIgnoringCase(name, last)
  {
    hide EqualIgnoringCase;
    var all := names + [last];
    if i :| 0 <= i < |names| && EqualIgnoringCase(name, names[i]) { assert all[i] == names[i]; }
    assert all[|names|] == last;
  }

  lemma AmongSame(a: string, b: string, names: seq<string>)
    requires EqualIgnoringCase(a, b)
    ensures Among(a, names) <==> Among(b, names)
  {
    if i :| 0 <= i < |names| && EqualIgnoringCase(a, names[i]) { assert EqualIgnoringCase(b, names[i]); }
    if i :| 0 <= i < |names| && EqualIgnoringCase(b, names[i]) { assert EqualIgnoringCase(a, names[i]); }
  }

  /** What the Trailer header declares: exactly the wanted names. */
  lemma {:induction false} DeclaredIff(ls: seq<Listed>, name: string)
    requires ls != [] && AllListed(ls)
    ensures Among(name, Declared(Some(ListOf(ls)))) <==> Wanted(name, ls)
    ensures !Among(name, Declared(None))
  {
    hide EqualIgnoringCase, Split, Allowed, Among, ListOf;
    SplitOfList(ls);
    var names := Names(ls);
    AmongAllowed(name, names);
    if i :| 0 <= i < |names| && EqualIgnoringCase(name, names[i]) && !Among(names[i], PROHIBITED) {
      AmongSame(name, ls[i].name, PROHIBITED);
    }
    if Wanted(name, ls) {
      var i :| 0 <= i < |ls| && EqualIgnoringCase(name, ls[i].name);
      AmongSame(name, names[i], PROHIBITED);
    }
    NoneAllowed(name);
  }

  lemma NoneAllowed(name: string)
    ensures !Among(name, Declared(None))
  {
  }

  /** A line of the section, without its end: not blank, no carriage return, and not over the reader's limit. */
  predicate TrailerText(line: string) {
    line != "" && (forall i :: 0 <= i < |line| ==> line[i] != '\r') && |line| + 2 <= MAX_LINE_LENGTH
  }

  /** A trailer section of any lines, the blank line, and what follows. */
  function Section(lines: seq<string>, tail: string): string {
    if lines == [] then CRLF + tail else lines[0] + CRLF + Section(lines[1..], tail)
  }

  /** The fields delivered: those of the lines that parse and whose names are wanted. */
  function Delivered(lines: seq<string>, ls: seq<Listed>): seq<Header> {
    if lines == [] then []
    else
      var init, field := Delivered(lines[..|lines| - 1], ls), ParseLine(lines[|lines| - 1]);
      if field.Some? && Wanted(field.value.name, ls) then init + [field.value] else init
  }

  /** The section is accepted: no line is over 8192 bytes, and none comes after 100 fields have been taken. */
  predicate SectionOk(lines: seq<string>, ls: seq<Listed>) {
    forall i :: 0 <= i < |lines| ==> LineAccepted(lines, i, ls)
  }

  predicate LineAccepted(lines: seq<string>, i: nat, ls: seq<Listed>)
    requires i < |lines|
  {
    |lines[i]| + 2 <= 8192 && |Delivered(lines[..i], ls)| < 100
  }

  lemma {:induction false} OneSectionLine(line: string, rest: string, declared: seq<string>, count: nat)
    requires TrailerText(line)
    ensures LineFits(line + CRLF + rest)
    ensures Trailers(line + CRLF + rest, declared, count) ==
            if |line| + 2 > 8192 || count >= 100 then Error
            else if ParseLine(line).Some? && Among(ParseLine(line).value.name, declared) then
              WithTrailer(ParseLine(line).value, Trailers(rest, declared, count + 1))
            else Trailers(rest, declared, count)
  {
    hide Among, ParseLine;
    CrlfLine(line, rest);
    var s, end := line + CRLF + rest, line + CRLF;
    assert LineEnd(s) == |end| && s[..|end|] == end && s[|end|..] == rest && end[..|end| - 2] == line && end != CRLF;
  }

  lemma {:induction false} FitsAtAll(lines: seq<string>, tail: string)
    requires forall i :: 0 <= i < |lines| ==> TrailerText(lines[i])
    ensures LineFits(Section(lines, tail))
  {
    hide LineFits;
    if lines == [] {
      LastTrailerLine(tail, [], 0);
    } else {
      OneSectionLine(lines[0], Section(lines[1..], tail), [], 0);
    }
  }

  /** From line i on, when the lines before it have been taken. */
  lemma {:induction false} SectionFrom(lines: seq<string>, i: nat, tail: string, ls: seq<Listed>, declared: seq<string>)
    requires i <= |lines| && forall j :: 0 <= j < |lines| ==> TrailerText(lines[j])
    requires forall name :: Among(name, declared) <==> Wanted(name, ls)
    requires SectionOk(lines[..i], ls)
    ensures var taken := Delivered(lines[..i], ls);
            WithTrailers(taken, Trailers(Section(lines[i..], tail), declared, |taken|)) ==
            if SectionOk(lines, ls) then Content("", Delivered(lines, ls), tail) else Error
    decreases |lines| - i
  {
    hide Among, ParseLine, Wanted, Trailers, LineFits;
    var taken := Delivered(lines[..i], ls);
    if i == |lines| {
      assert lines[i..] == [] && lines[..i] == lines;
      LastTrailerLine(tail, declared, |taken|);
      assert taken + [] == taken;
    } else {
      var line, rest := lines[i], Section(lines[i + 1..], tail);
      assert lines[i..][0] == line && lines[i..][1..] == lines[i + 1..];
      OneSectionLine(line, rest, declared, |taken|);
      assert lines[..i + 1][..i] == lines[..i] && lines[..i + 1][i] == line;
      if |line| + 2 > 8192 || |taken| >= 100 {
        assert !LineAccepted(lines, i, ls);
      } else {
        SectionOkNext(lines, i, ls);
        SectionFrom(lines, i + 1, tail, ls, declared);
        if ParseLine(line).Some? && Among(ParseLine(line).value.name, declared) {
          TrailerSnoc(taken, ParseLine(line).value, Trailers(rest, declared, |taken| + 1));
        }
      }
    }
  }

  lemma SectionOkNext(lines: seq<string>, i: nat, ls: seq<Listed>)
    requires i < |lines| && SectionOk(lines[..i], ls) && |lines[i]| + 2 <= 8192 && |Delivered(lines[..i], ls)| < 100
    ensures SectionOk(lines[..i + 1], ls)
  {
    hide Delivered;
    var more := lines[..i + 1];
    forall j | 0 <= j < |more| ensures LineAccepted(more, j, ls) {
      assert more[..j] == lines[..j];
      if j < i {
        assert LineAccepted(lines[..i], j, ls);
        assert lines[..i][j] == lines[j] && lines[..i][..j] == lines[..j];
      }
    }
  }

  /** The last chunk with any trailer section, read under any Trailer header. */
  lemma {:induction false} SectionRead(lines: seq<string>, tail: string, ls: seq<Listed>, total: nat, limit: nat)
    requires forall j :: 0 <= j < |lines| ==> TrailerText(lines[j])
    requires ls != [] && AllListed(ls)
    ensures Dechunk("0" + CRLF + Section(lines, tail), total, limit, Declared(Some(ListOf(ls)))) ==
            if SectionOk(lines, ls) then Content("", Delivered(lines, ls), tail) else Error
  {
    hide NextSize, Trailers, LineFits, Declared, Wanted, Among, ListOf;
    var declared := Declared(Some(ListOf(ls)));
    forall name ensures Among(name, declared) <==> Wanted(name, ls) { DeclaredIff(ls, name); }
    assert Print(0, 16) == "0";
    SizeOfPrinted(0, Section(lines, tail));
    FitsAtAll(lines, tail);
    assert lines[..0] == [] && lines[0..] == lines;
    SectionFrom(lines, 0, tail, ls, declared);
    NoTrailers([], Trailers(Section(lines, tail), declared, 0));
  }

  /** Content in chunks, then a trailer section of any lines. */
  ghost predicate Holds(s: string, ws: seq<string>, lines: seq<string>, tail: string) {
    && AllChunks(ws) && (forall j :: 0 <= j < |lines| ==> TrailerText(lines[j]))
    && s == ChunksThen(ws, "0" + CRLF + Section(lines, tail))
  }

  /** Section 7.1.2 of RFC 9112: the trailer fields delivered are exactly those whose lines parse, whose names the
      Trailer header lists and which are not prohibited, in order; any other line is passed over. */
  lemma {:induction false} TrailersRead(s: string, ws: seq<string>, lines: seq<string>, tail: string, ls: seq<Listed>,
                                        limit: nat)
    requires Holds(s, ws, lines, tail) && ls != [] && AllListed(ls)
    ensures Dechunk(s, 0, limit, Declared(Some(ListOf(ls)))) ==
            if Sum(ws) > limit then PayloadTooLarge
            else if SectionOk(lines, ls) then Content(Concat(ws), Delivered(lines, ls), tail) else Error
  {
    hide Dechunk, Section, SectionOk, Delivered, Declared, ListOf, ChunksThen;
    SectionRead(lines, tail, ls, Sum(ws), limit);
    DechunkOfChunks(ws, "0" + CRLF + Section(lines, tail), 0, limit, Declared(Some(ListOf(ls))));
    assert Concat(ws) + "" == Concat(ws);
  }

  /** What the reader returns and leaves for content in chunks and any trailer section, in terms of these. */
  ghost predicate AsWritten(s: string, limit: nat, trailerHeader: Option<string>,
                            result: ReadResult, body: string, trailers: seq<Header>, rest: string) {
    forall ws, lines, tail, ls ::
      Holds(s, ws, lines, tail) && ls != [] && AllListed(ls) && trailerHeader == Some(ListOf(ls)) ==>
      if Sum(ws) > limit then result == TooLarge
      else if SectionOk(lines, ls) then
        result == Success && body == Concat(ws) && trailers == Delivered(lines, ls) && rest == tail
      else result == Failure
  }

  lemma WrittenAgrees(s: string, limit: nat, trailerHeader: Option<string>,
                      result: ReadResult, body: string, trailers: seq<Header>, rest: string)
    requires Agrees(Dechunk(s, 0, limit, Declared(trailerHeader)), result, body, trailers, rest)
    ensures AsWritten(s, limit, trailerHeader, result, body, trailers, rest)
  {
    hide Dechunk, Declared, Holds, SectionOk, Delivered, AllListed, ListOf, Concat, Sum;
    forall ws, lines, tail, ls |
      Holds(s, ws, lines, tail) && ls != [] && AllListed(ls) && trailerHeader == Some(ListOf(ls))
      ensures if Sum(ws) > limit then result == TooLarge
              else if SectionOk(lines, ls) then
                result == Success && body == Concat(ws) && trailers == Delivered(lines, ls) && rest == tail
              else result == Failure
    {
      TrailersRead(s, ws, lines, tail, ls, limit);
    }
  }

  /** Each field delivered is the field of a line, and wanted; and the field of every line that is wanted is
      delivered. */
  lemma {:induction false} DeliveredIff(lines: seq<string>, ls: seq<Listed>, h: Header)
    ensures h in Delivered(lines, ls) <==>
            Wanted(h.name, ls) && exists i :: 0 <= i < |lines| && ParseLine(lines[i]) == Some(h)
    decreases |lines|
  {
    hide ParseLine, Wanted;
    if lines != [] {
      var init := lines[..|lines| - 1];
      DeliveredIff(init, ls, h);
      if i :| 0 <= i < |init| && ParseLine(init[i]) == Some(h) { assert lines[i] == init[i]; }
      if i :| 0 <= i < |lines| && ParseLine(lines[i]) == Some(h) { if i < |init| { assert init[i] == lines[i]; } }
    }
  }

  // ----- when sending succeeds

  /** The provider is called again after this call. */
  predicate GoesOn(call: Call) {
    && !call.stopping && call.result
    && (call.ops == [] || (call.ops[|call.ops| - 1].Write? && call.ops[|call.ops| - 1].data != ""))
  }

  /** Sending succeeds exactly if the provider goes on until the server is shutting down, or until a call that
      succeeds and whose last act finishes the content or writes zero bytes; otherwise it is canceled. */
  lemma {:induction false} SentIff(calls: seq<Call>)
    ensures Serve(calls).1 == Sent <==>
            exists j :: 0 <= j < |calls| && (forall i :: 0 <= i < j ==> GoesOn(calls[i]))
                        && !GoesOn(calls[j]) && (calls[j].stopping || calls[j].result)
    ensures Serve(calls).1 == Sent || Serve(calls).1 == Canceled
    decreases |calls|
  {
    hide EmitAll;
    if calls != [] {
      var rest := calls[1..];
      SentIff(rest);
      if GoesOn(calls[0]) {
        if j :| 0 <= j < |rest| && (forall i :: 0 <= i < j ==> GoesOn(rest[i]))
                && !GoesOn(rest[j]) && (rest[j].stopping || rest[j].result) {
          assert calls[j + 1] == rest[j];
          assert forall i :: 0 < i < j + 1 ==> calls[i] == rest[i - 1];
        }
        if j :| 0 <= j < |calls| && (forall i :: 0 <= i < j ==> GoesOn(calls[i]))
                && !GoesOn(calls[j]) && (calls[j].stopping || calls[j].result) {
          assert rest[j - 1] == calls[j];
          assert forall i :: 0 <= i < j - 1 ==> rest[i] == calls[i + 1];
        }
      }
    }
  }

  // ----- rounds of any shape

  /** What a round is, from its size line and what follows: an error without a size, or if the data or its line end is
      missing; too large by what is left of the payload limit; the end of the content; or the data. */
  lemma {:induction false} RoundIs(line: string, rest: string, total: nat, limit: nat, declared: seq<string>)
    requires TrailerText(line)
    ensures var size := Strtoul(line + "\r\n");
            Dechunk(line + "\r\n" + rest, total, limit, declared) ==
            if size == None || size == Some(0xffff_ffff_ffff_ffff) then Error
            else if size == Some(0) then AfterLastChunk(rest, declared)
            else if total + size.value > limit then PayloadTooLarge
            else if |rest| < size.value + 2 || rest[size.value..size.value + 2] != "\r\n" then Error
            else WithData(rest[..size.value], Dechunk(rest[size.value + 2..], total + size.value, limit, declared))
  {
    hide AfterLastChunk, Strtoul, LineFits, Dechunk, Trailers, ParseLine, Among, WithTrailer, WithData;
    OneSectionLine(line, rest, [], 0);
    CrlfLine(line, rest);
    var s, end := line + "\r\n" + rest, line + "\r\n";
    assert s[..LineEnd(s)] == end && s[LineEnd(s)..] == rest;
    RoundOfSize(s, rest, total, limit, declared);
  }

  lemma {:induction false} RoundOfSize(s: string, rest: string, total: nat, limit: nat, declared: seq<string>)
    requires LineFits(s) && rest == s[LineEnd(s)..]
    ensures var size := Strtoul(s[..LineEnd(s)]);
            Dechunk(s, total, limit, declared) ==
            if size == None || size == Some(0xffff_ffff_ffff_ffff) then Error
            else if size == Some(0) then AfterLastChunk(rest, declared)
            else if total + size.value > limit then PayloadTooLarge
            else if |rest| < size.value + 2 || rest[size.value..size.value + 2] != "\r\n" then Error
            else WithData(rest[..size.value], Dechunk(rest[size.value + 2..], total + size.value, limit, declared))
  {
    hide AfterLastChunk, Strtoul, LineFits, RoundAt, WithData;
    RoundAtSize(s, rest, total, limit);
  }

  lemma RoundAtSize(s: string, rest: string, total: nat, limit: nat)
    requires LineFits(s) && rest == s[LineEnd(s)..]
    ensures var size := Strtoul(s[..LineEnd(s)]);
            var round := RoundAt(s, total, limit);
            if size == None || size == Some(0xffff_ffff_ffff_ffff) then round.0 == Broken
            else if size == Some(0) then round == (Last, rest)
            else if total + size.value > limit then round.0 == Big
            else if |rest| < size.value + 2 || rest[size.value..size.value + 2] != "\r\n" then round.0 == Broken
            else round == (Piece(rest[..size.value]), rest[size.value + 2..])
  {
    hide Strtoul, LineFits, AfterCrlf;
    var size := Strtoul(s[..LineEnd(s)]);
    if size.Some? && size.value <= |rest| {
      CrlfNext(rest, size.value);
    }
  }

  lemma CrlfNext(rest: string, n: nat)
    requires n <= |rest|
    ensures AfterCrlf(rest[n..]) == if |rest| >= n + 2 && rest[n..n + 2] == "\r\n" then Some(rest[n + 2..]) else None
  {
    var s := rest[n..];
    assert |rest| >= n + 2 ==> s[..2] == rest[n..n + 2] && s[2..] == rest[n + 2..];
    if |s| >= 2 && s[..2] == "\r\n" {
      assert s == CRLF + s[2..];
      CrlfThen(s[2..]);
    } else {
      assert s[..LineEnd(s)] == CRLF ==> LineEnd(s) == 2;
    }
  }

  /** The trailer section may be missing altogether. */
  lemma {:induction false} SectionMissing(total: nat, limit: nat, declared: seq<string>)
    ensures Dechunk("0\r\n", total, limit, declared) == Content("", [], "")
  {
    hide NextSize;
    assert Print(0, 16) == "0";
    assert "0\r\n" == "0" + CRLF + "";
    SizeOfPrinted(0, "");
  }
}
