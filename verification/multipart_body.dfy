/** A multipart body, cut into chunks in any way, is parsed into its parts. */
module MultipartBody {
  import opened Common
  import opened Text
  import opened Headers
  import opened MultipartSpec
  import opened MultipartHeaders

  // ----- what is to be parsed

  predicate BoundaryChars(b: string) {
    forall i :: 0 <= i < |b| ==> IsAlnum(b[i]) || b[i] == '-' || b[i] == '_'
  }

  predicate BoundaryOk(b: string) {
    b != "" && BoundaryChars(b)
  }

  method IsMultipartBoundaryCharsValid(boundary: string) returns (valid: bool)
    ensures valid == BoundaryChars(boundary)
    ensures valid <==> forall c :: c in boundary ==> IsDigit(c) || IsAlpha(c) || c in "-_"
  {
    valid := true;
    for i := 0 to |boundary|
      invariant valid && BoundaryChars(boundary[..i])
    {
      var c := boundary[i];
      if !IsAlnum(c) && c != '-' && c != '_' {
        valid := false;
        break;
      }
    }
    assert boundary[..|boundary|] == boundary;
  }

  ghost predicate FreeOf(content: string, d: string) {
    forall j :: 0 <= j ==> !MatchAt(content, d, j)
  }

  /** A part as it stands in a body: its header lines and its content. */
  datatype Raw = Raw(lines: seq<string>, content: string)

  /** The lines are real lines and the content does not contain the delimiter. */
  ghost predicate WellFormed(raw: Raw, b: string) {
    && (forall i :: 0 <= i < |raw.lines| ==> raw.lines[i] != "" && NoCr(raw.lines[i]))
    && FreeOf(raw.content, Delimiter(b))
  }

  ghost predicate Taken(raw: Raw) {
    forall i :: 0 <= i < |raw.lines| ==> Takeable(raw.lines[i])
  }

  predicate Short(raw: Raw) {
    forall i :: 0 <= i < |raw.lines| ==> |raw.lines[i]| < 8192
  }

  ghost predicate Safe(raw: Raw, b: string) {
    WellFormed(raw, b) && Taken(raw) && Short(raw)
  }

  ghost predicate AllSafe(raws: seq<Raw>, b: string) {
    forall i :: 0 <= i < |raws| ==> Safe(raws[i], b)
  }

  // ----- what the lines make of a part

  function Fold(file: Part, lines: seq<string>): Option<Part> {
    if lines == [] then Some(file)
    else
      var f := Fold(file, lines[..|lines| - 1]);
      if f.None? then None else HeaderInto(f.value, lines[|lines| - 1])
  }

  /** Lines that are all taken make a part, which has no content yet. */
  lemma {:induction false} FoldTaken(file: Part, lines: seq<string>)
    ensures Fold(file, lines).Some? <==> forall i :: 0 <= i < |lines| ==> Takeable(lines[i])
    ensures Fold(file, lines).Some? ==> Fold(file, lines).value.content == file.content
  {
    hide HeaderInto, Takeable;
    if lines != [] {
      var init, line := lines[..|lines| - 1], lines[|lines| - 1];
      FoldTaken(file, init);
      if Fold(file, init).Some? {
        var f := Fold(file, init).value;
        TakenIff(f, line);
        KeepsContent(f, line);
      }
    }
  }

  lemma KeepsContent(file: Part, line: string)
    ensures HeaderInto(file, line).Some? ==> HeaderInto(file, line).value.content == file.content
  {
  }

  lemma {:induction false} FoldNext(lines: seq<string>, k: nat)
    requires k < |lines| && forall i :: 0 <= i < |lines| ==> Takeable(lines[i])
    ensures Fold(BLANK, lines[..k]).Some?
    ensures Fold(BLANK, lines[..k + 1]) == HeaderInto(Fold(BLANK, lines[..k]).value, lines[k])
    ensures Fold(BLANK, lines[..k + 1]).Some?
  {
    hide HeaderInto, Takeable;
    FoldTaken(BLANK, lines[..k]);
    FoldTaken(BLANK, lines[..k + 1]);
    assert lines[..k + 1][..k] == lines[..k];
  }

  function Head(raw: Raw): Part {
    match Fold(BLANK, raw.lines)
    case Some(file) => file
    case None => BLANK
  }

  function Made(raw: Raw): Part {
    Head(raw).(content := raw.content)
  }

  function MadeAll(raws: seq<Raw>): (parts: seq<Part>)
    ensures |parts| == |raws|
  {
    seq(|raws|, i requires 0 <= i < |raws| => Made(raws[i]))
  }

  // ----- the bytes, seen from the parser's positions

  /** Header lines, the blank line, and x after them. */
  function LinesThen(lines: seq<string>, x: string): string {
    if lines == [] then CRLF + x else lines[0] + (CRLF + LinesThen(lines[1..], x))
  }

  /** From the first content on. */
  function FromContent(rest: seq<Raw>, b: string, e: string): string
    requires rest != []
    decreases |rest|, 0
  {
    rest[0].content + (Delimiter(b) + FromDelimiter(rest[1..], b, e))
  }

  function FromHeaders(rest: seq<Raw>, b: string, e: string): string
    requires rest != []
    decreases |rest|, 1
  {
    LinesThen(rest[0].lines, FromContent(rest, b, e))
  }

  /** After a delimiter; rest are the parts still to come, e is what follows the closing boundary. */
  function FromDelimiter(rest: seq<Raw>, b: string, e: string): string
    decreases |rest|, 2
  {
    if rest == [] then DASH + e else CRLF + FromHeaders(rest, b, e)
  }

  /** A body up to its closing boundary. */
  function Closed(raws: seq<Raw>, b: string): string
    requires raws != []
  {
    Opening(b) + FromHeaders(raws, b, "")
  }

  lemma {:induction false} LinesThenAppends(lines: seq<string>, x: string, e: string)
    ensures LinesThen(lines, x + e) == LinesThen(lines, x) + e
  {
    if lines == [] {
      Assoc(CRLF, x, e);
    } else {
      LinesThenAppends(lines[1..], x, e);
      AppendTo(lines[0], CRLF, LinesThen(lines[1..], x), e);
    }
  }

  lemma {:induction false} EpilogueLast(rest: seq<Raw>, b: string, e: string)
    requires rest != []
    ensures FromHeaders(rest, b, e) == FromHeaders(rest, b, "") + e
    decreases |rest|
  {
    hide Delimiter, LinesThen;
    var d, x := Delimiter(b), FromDelimiter(rest[1..], b, "");
    assert FromDelimiter(rest[1..], b, e) == x + e by {
      if rest[1..] != [] {
        EpilogueLast(rest[1..], b, e);
        Assoc(CRLF, FromHeaders(rest[1..], b, ""), e);
      } else {
        assert DASH + "" == DASH;
      }
    }
    AppendTo(rest[0].content, d, x, e);
    LinesThenAppends(rest[0].lines, FromContent(rest, b, ""), e);
  }

  lemma AppendTo(a: string, c: string, x: string, e: string)
    ensures a + (c + (x + e)) == (a + (c + x)) + e
  {
    Assoc(c, x, e);
    Assoc(a, c + x, e);
  }

  // ----- what has arrived

  lemma Cut(buf: string, future: string, a: string, x: string)
    requires buf + future == a + x && |a| <= |buf|
    ensures buf[..|a|] == a && buf[|a|..] + future == x
  {
    assert (buf + future)[..|a|] == buf[..|a|];
    assert (a + x)[..|a|] == a;
    assert (buf + future)[|a|..] == buf[|a|..] + future;
    assert (a + x)[|a|..] == x;
  }

  ghost predicate NoCr(s: string) {
    forall i :: 0 <= i < |s| ==> s[i] != '\r'
  }

  /** A search for a text that begins with a carriage return and has no other. */
  lemma FirstCr(a: string, d: string, x: string)
    requires d != "" && d[0] == '\r' && NoCr(d[1..]) && FreeOf(a, d)
    ensures FirstAt(a + (d + x), d, |a|)
  {
    var s := a + (d + x);
    assert s[|a|..|a| + |d|] == d;
    forall j | 0 <= j < |a| ensures !MatchAt(s, d, j) {
      assert !MatchAt(a, d, j);
      if j + |d| <= |a| {
        assert a[j..j + |d|] == s[j..j + |d|];
      } else {
        var k := |a| - j;
        assert d[k] == d[1..][k - 1] != s[j..j + |d|][k] == s[|a|];
      }
    }
  }

  lemma {:induction false} DelimiterArrived(buf: string, future: string, a: string, d: string, x: string)
    requires d != "" && d[0] == '\r' && NoCr(d[1..]) && FreeOf(a, d)
    requires buf + future == a + (d + x)
    ensures FindIn(buf, d) == if |a| + |d| <= |buf| then |a| else |buf|
    ensures |a| + |d| <= |buf| ==> buf[..|a|] == a && buf[|a| + |d|..] + future == x
  {
    FirstCr(a, d, x);
    FindInPrefix(buf, future, d, |a|);
    if |a| + |d| <= |buf| {
      Assoc(a, d, x);
      Cut(buf, future, a + d, x);
      Cut(buf, future, a, d + x);
    }
  }

  lemma {:induction false} LineArrived(buf: string, future: string, line: string, x: string)
    requires NoCr(line) && buf + future == line + (CRLF + x)
    ensures FindIn(buf, CRLF) == if |line| + 2 <= |buf| then |line| else |buf|
    ensures |line| + 2 <= |buf| ==> buf[..|line|] == line && buf[|line| + 2..] + future == x
  {
    NoCrNoLineEnd(line);
    DelimiterArrived(buf, future, line, CRLF, x);
  }

  lemma NoCrNoLineEnd(line: string)
    requires NoCr(line)
    ensures CRLF[0] == '\r' && NoCr(CRLF[1..]) && FreeOf(line, CRLF)
  {
    forall j | 0 <= j ensures !MatchAt(line, CRLF, j) {
      if j + 2 <= |line| { assert line[j..j + 2][0] == line[j] != CRLF[0]; }
    }
  }

  /** A preamble is whatever comes before the first opening boundary. */
  ghost predicate Preamble(pre: string, o: string) {
    FirstAt(pre + o, o, |pre|)
  }

  lemma {:induction false} OpeningArrived(buf: string, future: string, pre: string, o: string, x: string)
    requires o != "" && Preamble(pre, o) && buf + future == pre + (o + x)
    ensures FindIn(buf, o) == if |pre| + |o| <= |buf| then |pre| else |buf|
    ensures |pre| + |o| <= |buf| ==> buf[|pre| + |o|..] + future == x
  {
    hide FindIn;
    var s := pre + (o + x);
    Assoc(pre, o, x);
    assert s[|pre|..|pre| + |o|] == o;
    forall j | 0 <= j < |pre| ensures !MatchAt(s, o, j) {
      assert s[j..j + |o|] == (pre + o)[j..j + |o|];
      assert !MatchAt(pre + o, o, j);
    }
    FindInPrefix(buf, future, o, |pre|);
    if |pre| + |o| <= |buf| { Cut(buf, future, pre + o, x); }
  }

  lemma NoPreamble(o: string)
    ensures Preamble("", o)
  {
    assert "" + o == o && o[0..|o|] == o;
  }

  lemma DelimiterShape(b: string)
    requires BoundaryOk(b)
    ensures var d := Delimiter(b); |d| >= 5 && d[0] == '\r' && NoCr(d[1..])
  {
    var d := Delimiter(b);
    forall i | 0 <= i < |d| - 1 ensures d[1..][i] != '\r' {
      if i >= 3 { assert d[1..][i] == b[i - 3]; }
    }
  }

  // ----- what may follow the closing boundary

  /** Lines that are read as header lines of a part that does not come: none is blank, not takeable or too long,
      the last one possibly incomplete. */
  ghost predicate QuietLines(s: string) {
    var i := FindIn(s, CRLF);
    if i == |s| then |s| <= 8192
    else 0 < i < 8192 && Takeable(s[..i]) && QuietLines(s[i + 2..])
  }

  /** An epilogue that leaves no trace: all that follows its first line end is quiet. */
  ghost predicate Quiet(e: string) {
    var i := FindIn(e, CRLF);
    i == |e| || QuietLines(e[i + 2..])
  }

  lemma QuietAfterLineEnd(s: string)
    requires Quiet(CRLF + s)
    ensures QuietLines(s)
  {
    hide QuietLines;
    assert (CRLF + s)[..2] == CRLF && (CRLF + s)[2..] == s;
  }

  /** The second half of a line end belongs to the line that follows. */
  lemma {:induction false} QuietSuffix(a: string, s: string)
    requires Quiet(a + s)
    ensures Quiet(s)
    decreases |a|
  {
    hide QuietLines, FindIn, Takeable;
    if a == "" {
      assert a + s == s;
    } else {
      assert (a + s)[1..] == a[1..] + s;
      QuietTail(a + s);
      QuietSuffix(a[1..], s);
    }
  }

  lemma {:induction false} QuietTail(t: string)
    requires t != "" && Quiet(t)
    ensures Quiet(t[1..])
  {
    hide Takeable;
    if |t| >= 2 && t[..2] == CRLF {
      FindLater(t[1..], t[2..]);
      var i := FindIn(t[2..], CRLF);
      if i < |t[2..]| {
        assert t[2..][i + 2..] == t[1..][1 + i + 2..];
      }
    } else {
      var i := FindIn(t[1..], CRLF);
      if i < |t[1..]| {
        assert t[1..][i + 2..] == t[1 + i + 2..];
      }
    }
  }

  lemma FindLater(s: string, rest: string)
    requires s != "" && s[0] != '\r' && rest == s[1..]
    ensures FindIn(s, CRLF) == if FindIn(rest, CRLF) == |rest| then |s| else 1 + FindIn(rest, CRLF)
  {
    if |s| >= 2 { assert s[..2][0] == s[0]; }
  }

  /** Whatever part of quiet lines has arrived, it is taken without a trace. */
  lemma {:induction false} QuietLinesTaken(p: Parser, future: string)
    requires QuietLines(p.buf + future)
    ensures FindIn(p.buf, CRLF) <= HEADER_MAX_LENGTH
    ensures HeaderLines(p).Return?
    ensures var q := HeaderLines(p).p; q == p.(file := q.file, buf := q.buf) && QuietLines(q.buf + future)
    decreases |p.buf|
  {
    hide HeaderInto, Takeable, FindIn;
    var t := p.buf + future;
    var i := FindIn(t, CRLF);
    FindInIs(t, CRLF);
    if i == |t| {
      NoneInPrefix(p.buf, future, CRLF);
    } else {
      FindInPrefix(p.buf, future, CRLF, i);
      if i + 2 <= |p.buf| {
        TakenIff(p.file, p.buf[..i]);
        assert t[..i] == p.buf[..i] && t[i + 2..] == p.buf[i + 2..] + future;
        QuietLinesTaken(p.(file := HeaderInto(p.file, p.buf[..i]).value, buf := p.buf[i + 2..]), future);
      }
    }
  }

  // ----- where the parser is

  /** The position of the parser in the body: done are the parts already delivered, rest the others, the
      current one first; read is how many of its header lines have been read. */
  datatype Where =
    | AtOpening(pre: string, rest: seq<Raw>)
    | AtPart(done: seq<Raw>, rest: seq<Raw>)
    | InHeaders(done: seq<Raw>, rest: seq<Raw>, read: nat)
    | InBody(done: seq<Raw>, rest: seq<Raw>, got: string, left: string)
    | AtDelimiter(done: seq<Raw>, rest: seq<Raw>)
    | Finished(done: seq<Raw>)

  function Raws(w: Where): seq<Raw> {
    match w
    case AtOpening(_, rest) => rest
    case AtPart(done, rest) => done + rest
    case InHeaders(done, rest, _) => done + rest
    case InBody(done, rest, _, _) => done + rest
    case AtDelimiter(done, rest) => done + rest
    case Finished(done) => done
  }

  /** The parser is at w when it holds buf and the bytes of future are still to come. */
  ghost predicate OnTrack(p: Parser, future: string, b: string, e: string, w: Where) {
    var t := p.buf + future;
    match w
    case AtOpening(pre, rest) =>
      && p.state == 0 && !p.valid && p.parts == [] && rest != [] && Preamble(pre, Opening(b))
      && t == pre + (Opening(b) + FromHeaders(rest, b, e))
    case AtPart(done, rest) =>
      && p.state == 1 && !p.valid && p.parts == MadeAll(done) && |done| <= FORM_DATA_MAX_COUNT
      && rest != [] && t == FromHeaders(rest, b, e)
    case InHeaders(done, rest, read) =>
      && p.state == 2 && !p.valid && p.parts == MadeAll(done) && |done| <= FORM_DATA_MAX_COUNT
      && rest != [] && read <= |rest[0].lines| && Fold(BLANK, rest[0].lines[..read]) == Some(p.file)
      && t == LinesThen(rest[0].lines[read..], FromContent(rest, b, e))
    case InBody(done, rest, got, left) =>
      && p.state == 3 && !p.valid && rest != [] && |done| < FORM_DATA_MAX_COUNT
      && p.parts == MadeAll(done) + [Head(rest[0]).(content := got)]
      && got + left == rest[0].content && t == left + (Delimiter(b) + FromDelimiter(rest[1..], b, e))
    case AtDelimiter(done, rest) =>
      && p.state == 4 && !p.valid && p.parts == MadeAll(done) && |done| <= FORM_DATA_MAX_COUNT
      && t == FromDelimiter(rest, b, e)
    case Finished(done) =>
      && p.valid && p.parts == MadeAll(done) && |done| <= FORM_DATA_MAX_COUNT
      && ((p.state == 4 && Quiet(t)) || ((p.state == 1 || p.state == 2) && QuietLines(t)))
  }

  /** What a step may do: stay on track, or refuse a part too many. */
  ghost predicate GoodStep(step: Step, future: string, b: string, e: string, w: Where, w': Where) {
    match step
    case Go(q) => OnTrack(q, future, b, e, w') && Raws(w') == Raws(w)
    case Return(q) => OnTrack(q, future, b, e, w') && Raws(w') == Raws(w) && (future == "" ==> w'.Finished?)
    case Fail => |Raws(w)| > FORM_DATA_MAX_COUNT
  }

  // ----- the header lines

  lemma {:induction false} NextHeaderLine(p: Parser, future: string, line: string, file: Part, x: string)
    requires line != "" && NoCr(line) && p.buf + future == line + (CRLF + x) && HeaderInto(p.file, line) == Some(file)
    ensures if |line| + 2 <= |p.buf|
            then var q := p.(file := file, buf := p.buf[|line| + 2..]);
                 HeaderLines(p) == HeaderLines(q) && q.buf + future == x
            else HeaderLines(p) == Return(p)
  {
    hide HeaderInto, FindIn, NoCr;
    LineArrived(p.buf, future, line, x);
  }

  lemma {:induction false} BlankStep(p: Parser, future: string, b: string, e: string, w: Where) returns (w': Where)
    requires w.InHeaders? && OnTrack(p, future, b, e, w) && w.read == |w.rest[0].lines|
    ensures GoodStep(HeaderLines(p), future, b, e, w, w')
  {
    hide Delimiter, HeaderInto, FromDelimiter, FindIn, MadeAll, Fold;
    var raw, x := w.rest[0], FromContent(w.rest, b, e);
    assert raw.lines[w.read..] == [] && raw.lines[..w.read] == raw.lines;
    assert p.buf + future == "" + (CRLF + x);
    LineArrived(p.buf, future, "", x);
    w' := if |p.buf| < 2 then w else InBody(w.done, w.rest, "", raw.content);
    FoldTaken(BLANK, raw.lines);
    assert "" + raw.content == raw.content;
  }

  /** One line of the part after the other, as far as they have arrived. */
  lemma {:induction false} LinesStep(p: Parser, future: string, b: string, e: string, w: Where) returns (w': Where)
    requires w.InHeaders? && OnTrack(p, future, b, e, w) && Safe(w.rest[0], b)
    ensures GoodStep(HeaderLines(p), future, b, e, w, w')
    decreases |w.rest[0].lines| - w.read
  {
    hide Delimiter, HeaderInto, FromContent, MadeAll, Fold, HeaderLines, NoCr, FreeOf, Takeable, Quiet, QuietLines,
         FindIn;
    var lines := w.rest[0].lines;
    if w.read == |lines| {
      w' := BlankStep(p, future, b, e, w);
    } else {
      var line, x := lines[w.read], LinesThen(lines[w.read + 1..], FromContent(w.rest, b, e));
      assert lines[w.read..][0] == line && lines[w.read..][1..] == lines[w.read + 1..];
      FoldNext(lines, w.read);
      var file := HeaderInto(p.file, line).value;
      NextHeaderLine(p, future, line, file, x);
      if |line| + 2 <= |p.buf| {
        var q := p.(file := file, buf := p.buf[|line| + 2..]);
        w' := LinesStep(q, future, b, e, InHeaders(w.done, w.rest, w.read + 1));
      } else {
        w' := w;
      }
    }
  }

  /** The limit on a header line is not hit while only a part of a line has arrived. */
  lemma {:induction false} LineWithinLimit(p: Parser, future: string, line: string, x: string)
    requires NoCr(line) && |line| < HEADER_MAX_LENGTH && p.buf + future == line + (CRLF + x)
    ensures FindIn(p.buf, CRLF) <= HEADER_MAX_LENGTH
  {
    hide FindIn;
    LineArrived(p.buf, future, line, x);
  }

  lemma {:induction false} HeadersStep(p: Parser, future: string, b: string, e: string, w: Where) returns (w': Where)
    requires w.InHeaders? && OnTrack(p, future, b, e, w) && Safe(w.rest[0], b) && p.buf != ""
    ensures GoodStep(StepOnce(p, b), future, b, e, w, w')
  {
    hide HeaderInto, HeaderLines, FromContent, Takeable, Fold, MadeAll, Quiet, QuietLines, FindIn, FreeOf, GoodStep;
    var lines, x := w.rest[0].lines, FromContent(w.rest, b, e);
    if w.read == |lines| {
      assert lines[w.read..] == [] && CRLF + x == "" + (CRLF + x);
      LineWithinLimit(p, future, "", x);
    } else {
      assert lines[w.read..][0] == lines[w.read] && lines[w.read..][1..] == lines[w.read + 1..];
      LineWithinLimit(p, future, lines[w.read], LinesThen(lines[w.read + 1..], x));
    }
    w' := LinesStep(p, future, b, e, w);
  }

  // ----- the other states

  lemma OpeningStep(p: Parser, future: string, b: string, e: string, w: Where) returns (w': Where)
    requires w.AtOpening? && OnTrack(p, future, b, e, w) && p.buf != ""
    ensures GoodStep(StepOnce(p, b), future, b, e, w, w')
  {
    hide FromHeaders;
    OpeningArrived(p.buf, future, w.pre, Opening(b), FromHeaders(w.rest, b, e));
    w' := if |w.pre| + |Opening(b)| <= |p.buf| then AtPart([], w.rest) else w;
    assert [] + w.rest == w.rest;
  }

  lemma NoMatchInRest(content: string, got: string, left: string, d: string)
    requires got + left == content && FreeOf(content, d)
    ensures FreeOf(left, d)
  {
    forall j | 0 <= j && MatchAt(left, d, j) ensures MatchAt(content, d, |got| + j) {
      assert content[|got| + j..|got| + j + |d|] == left[j..j + |d|];
    }
  }

  lemma {:induction false} BodyEnds(p: Parser, future: string, b: string, e: string, w: Where) returns (w': Where)
    requires w.InBody? && OnTrack(p, future, b, e, w)
    requires var n := |w.left| + |Delimiter(b)|;
             && Delimiter(b) != "" && n <= |p.buf| && FindIn(p.buf, Delimiter(b)) == |w.left|
             && p.buf[..|w.left|] == w.left && p.buf[n..] + future == FromDelimiter(w.rest[1..], b, e)
    ensures GoodStep(BodyOnce(p, Delimiter(b)), future, b, e, w, w')
  {
    hide Head, Delimiter, FromDelimiter, FindIn;
    w' := AtDelimiter(w.done + [w.rest[0]], w.rest[1..]);
    DoneOneMore(w.done, w.rest[0], w.rest);
    Delivered(w.done, w.rest[0], w.got, w.left);
  }

  lemma BodyContinues(p: Parser, future: string, b: string, e: string, w: Where) returns (w': Where)
    requires w.InBody? && OnTrack(p, future, b, e, w)
    requires Delimiter(b) != "" && |p.buf| < |w.left| + |Delimiter(b)| && FindIn(p.buf, Delimiter(b)) == |p.buf|
    ensures GoodStep(BodyOnce(p, Delimiter(b)), future, b, e, w, w')
  {
    hide Head, Delimiter, FromDelimiter, FindIn;
    var d := Delimiter(b);
    assert |p.buf + future| == |w.left| + |d| + |FromDelimiter(w.rest[1..], b, e)|;
    if |d| < |p.buf| {
      var len := |p.buf| - |d|;
      var data := p.buf[..len];
      Advance(p.buf, future, w.left, d + FromDelimiter(w.rest[1..], b, e), len);
      w' := InBody(w.done, w.rest, w.got + data, w.left[len..]);
      Delivered(w.done, w.rest[0], w.got, data);
      Assoc(w.got, data, w.left[len..]);
    } else {
      w' := w;
    }
  }

  lemma {:induction false} BodyStep(p: Parser, future: string, b: string, e: string, w: Where) returns (w': Where)
    requires w.InBody? && OnTrack(p, future, b, e, w) && Safe(w.rest[0], b) && BoundaryOk(b) && p.buf != ""
    ensures GoodStep(StepOnce(p, b), future, b, e, w, w')
  {
    hide Head, Delimiter, FromDelimiter, Taken, Short, BoundaryOk, BodyOnce, GoodStep;
    var d := Delimiter(b);
    DelimiterShape(b);
    NoMatchInRest(w.rest[0].content, w.got, w.left, d);
    DelimiterArrived(p.buf, future, w.left, d, FromDelimiter(w.rest[1..], b, e));
    if |w.left| + |d| <= |p.buf| {
      w' := BodyEnds(p, future, b, e, w);
    } else {
      w' := BodyContinues(p, future, b, e, w);
    }
  }

  lemma DoneOneMore(done: seq<Raw>, raw: Raw, rest: seq<Raw>)
    requires rest != [] && rest[0] == raw
    ensures (done + [raw]) + rest[1..] == done + rest
    ensures MadeAll(done + [raw]) == MadeAll(done) + [Made(raw)]
  {
    assert (done + [raw])[..|done|] == done;
  }

  lemma Delivered(done: seq<Raw>, raw: Raw, got: string, data: string)
    ensures AddContent(MadeAll(done) + [Head(raw).(content := got)], data) ==
            MadeAll(done) + [Head(raw).(content := got + data)]
  {
  }

  lemma Advance(buf: string, future: string, left: string, x: string, len: nat)
    requires buf + future == left + x && len <= |buf| && len <= |left|
    ensures buf[..len] == left[..len] && buf[len..] + future == left[len..] + x
    ensures left == buf[..len] + left[len..]
  {
    assert left + x == left[..len] + (left[len..] + x);
    Cut(buf, future, left[..len], left[len..] + x);
  }

  lemma DelimiterStep(p: Parser, future: string, b: string, e: string, w: Where) returns (w': Where)
    requires w.AtDelimiter? && OnTrack(p, future, b, e, w) && p.buf != "" && Quiet(e)
    ensures GoodStep(StepOnce(p, b), future, b, e, w, w')
  {
    hide FromHeaders, Quiet;
    if |p.buf| < 2 {
      w' := w;
    } else if w.rest == [] {
      Cut(p.buf, future, DASH, e);
      QuietSuffix(p.buf[2..], future);
      assert "" + future == future;
      w' := Finished(w.done);
      assert w.done + [] == w.done;
    } else {
      Cut(p.buf, future, CRLF, FromHeaders(w.rest, b, e));
      w' := AtPart(w.done, w.rest);
    }
  }

  lemma FinishedStep(p: Parser, future: string, b: string, e: string, w: Where) returns (w': Where)
    requires w.Finished? && OnTrack(p, future, b, e, w) && p.buf != ""
    ensures GoodStep(StepOnce(p, b), future, b, e, w, w')
  {
    hide Quiet, QuietLines, MadeAll;
    w' := w;
    if p.state == 2 {
      QuietLinesTaken(p, future);
    } else if p.state == 4 && |p.buf| >= 2 {
      assert p.buf + future == p.buf[..2] + (p.buf[2..] + future);
      if p.buf[..2] == CRLF {
        QuietAfterLineEnd(p.buf[2..] + future);
      } else if p.buf[..2] == DASH {
        QuietSuffix(p.buf, future);
        assert "" + future == future;
      }
    }
  }

  /** Every step of the parser keeps it on track. */
  lemma StepOnTrack(p: Parser, future: string, b: string, e: string, w: Where) returns (w': Where)
    requires OnTrack(p, future, b, e, w) && AllSafe(Raws(w), b) && BoundaryOk(b) && Quiet(e) && p.buf != ""
    ensures GoodStep(StepOnce(p, b), future, b, e, w, w')
  {
    hide StepOnce, Safe, Quiet, QuietLines, LinesThen, FromContent, FromDelimiter, Head, MadeAll;
    match w {
      case AtOpening(_, _) => w' := OpeningStep(p, future, b, e, w);
      case AtPart(done, rest) =>
        w' := InHeaders(done, rest, 0);
        assert rest[0].lines[..0] == [] && rest[0].lines[0..] == rest[0].lines;
        NewPart(p, b);
      case InHeaders(done, rest, _) =>
        assert Raws(w)[|done|] == rest[0];
        w' := HeadersStep(p, future, b, e, w);
      case InBody(done, rest, _, _) =>
        assert Raws(w)[|done|] == rest[0];
        w' := BodyStep(p, future, b, e, w);
      case AtDelimiter(_, _) => w' := DelimiterStep(p, future, b, e, w);
      case Finished(_) => w' := FinishedStep(p, future, b, e, w);
    }
  }

  lemma NewPart(p: Parser, b: string)
    requires p.state == 1 && p.buf != ""
    ensures StepOnce(p, b) == Go(p.(state := 2, file := BLANK))
  {
  }

  lemma OnlyAtTheEnd(p: Parser, b: string, e: string, w: Where)
    requires OnTrack(p, "", b, e, w) && p.buf == ""
    ensures w.Finished?
  {
    hide LinesThen, FromContent, FromDelimiter, Delimiter, MadeAll, Fold, Quiet, QuietLines;
    assert p.buf + "" == "";
    match w {
      case AtPart(_, rest) => LinesNotEmpty(rest[0].lines, FromContent(rest, b, e));
      case InHeaders(_, rest, read) => LinesNotEmpty(rest[0].lines[read..], FromContent(rest, b, e));
      case InBody(_, rest, _, _) => DelimiterNotEmpty(rest, b, e);
      case AtDelimiter(_, rest) => DelimiterNotEmpty(rest, b, e);
      case _ =>
    }
  }

  lemma LinesNotEmpty(lines: seq<string>, x: string)
    ensures LinesThen(lines, x) != ""
  {
  }

  lemma DelimiterNotEmpty(rest: seq<Raw>, b: string, e: string)
    ensures Delimiter(b) != "" && FromDelimiter(rest, b, e) != ""
  {
  }

  lemma {:induction false} RunOnTrack(p: Parser, future: string, b: string, e: string, w: Where) returns (w': Where)
    requires OnTrack(p, future, b, e, w) && AllSafe(Raws(w), b) && BoundaryOk(b) && Quiet(e)
    ensures var (q, ok) := Run(p, b);
            && (ok ==> OnTrack(q, future, b, e, w') && Raws(w') == Raws(w) && (future == "" ==> w'.Finished?))
            && (!ok ==> |Raws(w)| > FORM_DATA_MAX_COUNT)
    decreases |p.buf|, if p.state == 1 then 1 else 0
  {
    hide StepOnce, OnTrack, AllSafe, BoundaryOk, Quiet;
    if p.buf == "" {
      w' := w;
      if future == "" { OnlyAtTheEnd(p, b, e, w); }
    } else {
      w' := StepOnTrack(p, future, b, e, w);
      var step := StepOnce(p, b);
      if step.Go? {
        w' := RunOnTrack(step.p, future, b, e, w');
      }
    }
  }

  lemma {:induction false} FeedOnTrack(p: Parser, chunks: seq<string>, b: string, e: string, w: Where)
    returns (w': Where)
    requires OnTrack(p, Concat(chunks), b, e, w) && AllSafe(Raws(w), b) && BoundaryOk(b) && Quiet(e)
    requires Concat(chunks) == "" ==> w.Finished?
    ensures var (q, ok) := FeedAll(p, chunks, b);
            && (ok ==> OnTrack(q, "", b, e, w') && Raws(w') == Raws(w) && w'.Finished?)
            && (!ok ==> |Raws(w)| > FORM_DATA_MAX_COUNT)
    decreases |chunks|
  {
    hide Run, AllSafe, BoundaryOk, Quiet;
    w' := w;
    if chunks != [] {
      var future := Concat(chunks[1..]);
      var p' := p.(buf := p.buf + chunks[0]);
      Assoc(p.buf, chunks[0], future);
      Refilled(p, chunks[0], future, b, e, w);
      w' := RunOnTrack(p', future, b, e, w);
      var (q, ok) := Run(p', b);
      if ok {
        w' := FeedOnTrack(q, chunks[1..], b, e, w');
      }
    }
  }

  lemma {:induction false} Refilled(p: Parser, chunk: string, future: string, b: string, e: string, w: Where)
    requires OnTrack(p, chunk + future, b, e, w)
    ensures OnTrack(p.(buf := p.buf + chunk), future, b, e, w)
  {
    hide LinesThen, FromHeaders, FromContent, FromDelimiter, Head, Fold, Delimiter, Opening, Quiet, QuietLines;
    Assoc(p.buf, chunk, future);
  }

  /** With any preamble before the opening boundary and a quiet epilogue after the closing one, however the bytes
      are cut, the parser succeeds exactly when there are no more parts than the receiver takes, ends valid, and
      has then handed over every part, in order and complete. */
  lemma {:induction false} PreambleRoundTripIff(raws: seq<Raw>, b: string, pre: string, e: string, chunks: seq<string>)
    requires raws != [] && BoundaryOk(b) && AllSafe(raws, b) && Preamble(pre, Opening(b)) && Quiet(e)
    requires Concat(chunks) == pre + (Closed(raws, b) + e)
    ensures var (p, ok) := FeedAll(START, chunks, b);
            && (ok <==> |raws| <= 1024)
            && (ok ==> p.valid && p.parts == MadeAll(raws))
  {
    hide AllSafe, BoundaryOk, FromHeaders, Run, Quiet, Preamble;
    EpilogueLast(raws, b, e);
    Assoc(Opening(b), FromHeaders(raws, b, ""), e);
    var w := AtOpening(pre, raws);
    assert START.buf + Concat(chunks) == Concat(chunks);
    assert Concat(chunks) != "" by { assert |Opening(b)| > 0; }
    var w' := FeedOnTrack(START, chunks, b, e, w);
  }

  lemma {:induction false} BodyRoundTripIff(raws: seq<Raw>, b: string, e: string, chunks: seq<string>)
    requires raws != [] && BoundaryOk(b) && AllSafe(raws, b) && Quiet(e)
    requires Concat(chunks) == Closed(raws, b) + e
    ensures var (p, ok) := FeedAll(START, chunks, b);
            && (ok <==> |raws| <= 1024)
            && (ok ==> p.valid && p.parts == MadeAll(raws))
  {
    hide AllSafe, BoundaryOk, Quiet, Closed, FeedAll, Concat, Preamble;
    NoPreamble(Opening(b));
    assert "" + (Closed(raws, b) + e) == Closed(raws, b) + e;
    PreambleRoundTripIff(raws, b, "", e, chunks);
  }
}
