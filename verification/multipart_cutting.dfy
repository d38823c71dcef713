/** Where the cutting of a multipart body into chunks matters: exactly when a header line or the epilogue
    makes the outcome depend on it. */
module MultipartCutting {
  import opened Common
  import opened Text
  import opened Headers
  import opened MultipartSpec
  import opened MultipartHeaders
  import opened MultipartBody

  // ----- whole parts in one buffer

  /** Whole parts up to the beginning of the next one, and x after them. */
  function RawsThen(raws: seq<Raw>, b: string, x: string): string {
    if raws == [] then x
    else LinesThen(raws[0].lines, raws[0].content + (Delimiter(b) + (CRLF + RawsThen(raws[1..], b, x))))
  }

  ghost predicate AllWellFormed(raws: seq<Raw>, b: string) {
    forall i :: 0 <= i < |raws| ==> WellFormed(raws[i], b)
  }

  predicate FirstFits(raw: Raw) {
    raw.lines != [] ==> |raw.lines[0]| <= 8192
  }

  /** Taken in one piece. */
  ghost predicate Fits(raw: Raw) {
    Taken(raw) && FirstFits(raw)
  }

  ghost predicate AllFit(raws: seq<Raw>) {
    forall i :: 0 <= i < |raws| ==> Fits(raws[i])
  }

  lemma HeadersOfFirst(rest: seq<Raw>, b: string, e: string)
    requires rest != []
    ensures FromHeaders(rest, b, e) ==
            LinesThen(rest[0].lines, rest[0].content + (Delimiter(b) + FromDelimiter(rest[1..], b, e)))
  {
  }

  lemma {:induction false} HeadersOfMany(raws: seq<Raw>, k: nat, b: string, e: string)
    requires k < |raws|
    ensures FromHeaders(raws, b, e) == RawsThen(raws[..k], b, FromHeaders(raws[k..], b, e))
    decreases k
  {
    hide FromHeaders, LinesThen;
    if k == 0 {
      assert raws[0..] == raws;
    } else {
      HeadersOfFirst(raws, b, e);
      HeadersOfMany(raws[1..], k - 1, b, e);
      assert raws[1..][..k - 1] == raws[..k][1..] && raws[1..][k - 1..] == raws[k..];
    }
  }

  /** At a new part, the parser goes on in its headers. */
  lemma {:induction false} RunNewPart(p: Parser, b: string)
    requires p.state == 1 && p.buf != ""
    ensures Run(p, b) == Run(p.(state := 2, file := BLANK), b)
  {
    hide StepOnce;
    NewPart(p, b);
  }

  lemma {:induction false} RunStep(p: Parser, b: string, q: Parser)
    requires p.buf != "" && StepOnce(p, b) == Go(q)
    ensures Run(p, b) == Run(q, b)
  {
    hide StepOnce;
  }

  /** A whole header block is taken, whatever the length of its lines: the limit is looked at only before
      the first. */
  lemma {:induction false} TakeLines(p: Parser, lines: seq<string>, k: nat, x: string)
    requires p.state == 2 && |p.parts| < FORM_DATA_MAX_COUNT && k <= |lines| && Fold(BLANK, lines[..k]) == Some(p.file)
    requires forall i :: 0 <= i < |lines| ==> lines[i] != "" && NoCr(lines[i]) && Takeable(lines[i])
    requires p.buf == LinesThen(lines[k..], x)
    ensures Fold(BLANK, lines).Some?
    ensures var file := Fold(BLANK, lines).value;
            HeaderLines(p) == Go(p.(state := 3, file := file, buf := x, parts := p.parts + [file]))
    decreases |lines| - k
  {
    hide HeaderInto, FindIn, Fold, Takeable, HeaderLines, NoCr;
    assert p.buf + "" == p.buf;
    if k == |lines| {
      assert lines[k..] == [] && lines[..k] == lines;
      TakeBlank(p, x);
    } else {
      var line, y := lines[k], LinesThen(lines[k + 1..], x);
      assert lines[k..][0] == line && lines[k..][1..] == lines[k + 1..];
      FoldNext(lines, k);
      var file := HeaderInto(p.file, line).value;
      NextHeaderLine(p, "", line, file, y);
      var q := p.(file := file, buf := p.buf[|line| + 2..]);
      assert q.buf + "" == q.buf;
      TakeLines(q, lines, k + 1, x);
    }
  }

  /** The first line is what the limit is compared with. */
  lemma {:induction false} FirstLineFound(lines: seq<string>, x: string)
    requires forall i :: 0 <= i < |lines| ==> NoCr(lines[i])
    ensures FindIn(LinesThen(lines, x), CRLF) == if lines == [] then 0 else |lines[0]|
    ensures LinesThen(lines, x) != ""
  {
    hide FindIn;
    var s := LinesThen(lines, x);
    assert s + "" == s;
    if lines == [] {
      assert s == "" + (CRLF + x);
      LineArrived(s, "", "", x);
    } else {
      LineArrived(s, "", lines[0], LinesThen(lines[1..], x));
    }
  }

  lemma {:induction false} TakeBlank(p: Parser, x: string)
    requires p.buf == CRLF + x && |p.parts| < FORM_DATA_MAX_COUNT
    ensures HeaderLines(p) == Go(p.(state := 3, buf := x, parts := p.parts + [p.file]))
  {
    hide HeaderInto, FindIn;
    assert p.buf + "" == "" + (CRLF + x);
    LineArrived(p.buf, "", "", x);
    assert p.buf[2..] == x;
  }

  /** A whole part in the buffer is delivered at once. */
  lemma {:induction false} RunPart(p: Parser, raw: Raw, y: string, b: string)
    requires p.state == 1 && |p.parts| < FORM_DATA_MAX_COUNT && BoundaryOk(b) && WellFormed(raw, b) && Fits(raw)
    requires p.buf == LinesThen(raw.lines, raw.content + (Delimiter(b) + y))
    ensures Run(p, b) == Run(p.(state := 4, file := Head(raw), buf := y, parts := p.parts + [Made(raw)]), b)
  {
    hide BoundaryOk, HeaderLines, FindIn, Run, BodyOnce, LinesThen, Delimiter, FreeOf, Fold, Takeable;
    var x := raw.content + (Delimiter(b) + y);
    var p2 := p.(state := 2, file := BLANK);
    FirstLineFound(raw.lines, x);
    RunNewPart(p, b);
    assert raw.lines[..0] == [] && raw.lines[0..] == raw.lines && Fold(BLANK, []) == Some(BLANK) by { NoLines(); }
    TakeLines(p2, raw.lines, 0, x);
    var p3 := p2.(state := 3, file := Head(raw), buf := x, parts := p.parts + [Head(raw)]);
    StepInHeaders(p2, b);
    RunStep(p2, b, p3);
    DelimiterShape(b);
    WholeBody(p3, raw.content, Delimiter(b), y);
    PartDone(p.parts, raw);
    assert x != "" by { assert Delimiter(b) != ""; }
    RunStep(p3, b, p3.(state := 4, buf := y, parts := p.parts + [Made(raw)]));
  }

  lemma NoLines()
    ensures Fold(BLANK, []) == Some(BLANK)
  {
  }

  lemma StepInHeaders(p: Parser, b: string)
    requires p.state == 2 && p.buf != ""
    ensures StepOnce(p, b) == if FindIn(p.buf, CRLF) > HEADER_MAX_LENGTH then Fail else HeaderLines(p)
  {
    hide FindIn, HeaderLines;
  }

  lemma {:induction false} WholeBody(p: Parser, content: string, d: string, y: string)
    requires d != "" && d[0] == '\r' && NoCr(d[1..]) && FreeOf(content, d) && p.buf == content + (d + y)
    ensures BodyOnce(p, d) == Go(p.(state := 4, buf := y, parts := AddContent(p.parts, content)))
  {
    hide FindIn, NoCr, FreeOf;
    assert p.buf + "" == p.buf;
    DelimiterArrived(p.buf, "", content, d, y);
    assert p.buf[|content| + |d|..] + "" == p.buf[|content| + |d|..];
  }

  lemma PartDone(parts: seq<Part>, raw: Raw)
    ensures AddContent(parts + [Head(raw)], raw.content) == parts + [Made(raw)]
  {
    hide Fold;
    FoldTaken(BLANK, raw.lines);
    assert "" + raw.content == raw.content;
  }

  /** After a boundary that is not the closing one a new part begins. */
  lemma {:induction false} RunBoundary(p: Parser, x: string, b: string)
    requires p.state == 4 && p.buf == CRLF + x
    ensures Run(p, b) == Run(p.(state := 1, buf := x), b)
  {
    assert p.buf[..2] == CRLF && p.buf[2..] == x;
    RunStep(p, b, p.(state := 1, buf := x));
  }

  lemma {:induction false} RunParts(p: Parser, raws: seq<Raw>, x: string, b: string) returns (q: Parser)
    requires p.state == 1 && |p.parts| + |raws| <= FORM_DATA_MAX_COUNT && BoundaryOk(b)
    requires AllWellFormed(raws, b) && AllFit(raws) && p.buf == RawsThen(raws, b, x)
    ensures q == p.(file := q.file, buf := x, parts := p.parts + MadeAll(raws))
    ensures Run(p, b) == Run(q, b)
    decreases |raws|
  {
    hide WellFormed, Fits, BoundaryOk, Run, LinesThen, Made, Head;
    if raws == [] {
      q := p;
      assert p.parts + [] == p.parts;
    } else {
      var raw, rest := raws[0], RawsThen(raws[1..], b, x);
      RunPart(p, raw, CRLF + rest, b);
      var p4 := p.(state := 4, file := Head(raw), buf := CRLF + rest, parts := p.parts + [Made(raw)]);
      RunBoundary(p4, rest, b);
      q := RunParts(p4.(state := 1, buf := rest), raws[1..], x, b);
      MadeFirst(raws);
      Assoc(p.parts, [Made(raw)], MadeAll(raws[1..]));
    }
  }

  lemma MadeFirst(raws: seq<Raw>)
    requires raws != []
    ensures MadeAll(raws) == [Made(raws[0])] + MadeAll(raws[1..])
  {
    hide Made;
  }

  lemma {:induction false} RunOpening(x: string, b: string)
    ensures Feed(START, Opening(b) + x, b) == Run(START.(state := 1, buf := x), b)
  {
    hide FindIn;
    var p := START.(buf := Opening(b) + x);
    assert "" + (Opening(b) + x) == Opening(b) + x && p.buf + "" == p.buf;
    NoPreamble(Opening(b));
    assert p.buf + "" == "" + (Opening(b) + x);
    OpeningArrived(p.buf, "", "", Opening(b), x);
    assert p.buf[|Opening(b)|..] + "" == p.buf[|Opening(b)|..];
    RunStep(p, b, p.(state := 1, buf := x));
  }

  /** From the beginning through the first k parts. */
  lemma {:induction false} FeedParts(raws: seq<Raw>, k: nat, x: string, b: string) returns (q: Parser)
    requires k <= |raws| && k <= FORM_DATA_MAX_COUNT && BoundaryOk(b)
    requires AllWellFormed(raws[..k], b) && AllFit(raws[..k])
    ensures q == Parser(1, false, q.file, x, MadeAll(raws[..k]))
    ensures Feed(START, Opening(b) + RawsThen(raws[..k], b, x), b) == Run(q, b)
  {
    hide AllWellFormed, AllFit, BoundaryOk, Run, RawsThen, Feed, MadeAll;
    var y := RawsThen(raws[..k], b, x);
    RunOpening(y, b);
    q := RunParts(START.(state := 1, buf := y), raws[..k], x, b);
    assert [] + MadeAll(raws[..k]) == MadeAll(raws[..k]);
  }

  /** What comes in one chunk up to and with a part, and what follows. */
  lemma {:induction false} ClosedAt(raws: seq<Raw>, k: nat, b: string, e: string)
    requires k < |raws|
    ensures Closed(raws, b) + e == Opening(b) + RawsThen(raws[..k], b, FromHeaders(raws[k..], b, e))
  {
    hide FromHeaders, Opening, RawsThen;
    EpilogueLast(raws, b, e);
    Assoc(Opening(b), FromHeaders(raws, b, ""), e);
    HeadersOfMany(raws, k, b, e);
  }

  // ----- header lines at the limit

  ghost predicate AllGood(raws: seq<Raw>) {
    forall i :: 0 <= i < |raws| ==> Taken(raws[i]) && Short(raws[i])
  }

  ghost predicate GoodLine(line: string) {
    Takeable(line) && |line| < 8192
  }

  ghost predicate GoodLines(lines: seq<string>) {
    forall i :: 0 <= i < |lines| ==> GoodLine(lines[i])
  }

  lemma {:induction false} FirstBadPart(raws: seq<Raw>) returns (k: nat)
    requires !AllGood(raws)
    ensures k < |raws| && !GoodLines(raws[k].lines) && AllGood(raws[..k])
  {
    hide Takeable;
    if GoodLines(raws[0].lines) {
      assert Taken(raws[0]) && Short(raws[0]) by {
        assert forall i :: 0 <= i < |raws[0].lines| ==> GoodLine(raws[0].lines[i]);
      }
      k := FirstBadPart(raws[1..]);
      k := k + 1;
      assert forall i :: 1 <= i < k ==> raws[i] == raws[1..][..k - 1][i - 1];
    } else {
      k := 0;
    }
  }

  lemma {:induction false} FirstBadLine(lines: seq<string>) returns (j: nat)
    requires !GoodLines(lines)
    ensures j < |lines| && !GoodLine(lines[j]) && GoodLines(lines[..j])
  {
    hide GoodLine;
    if GoodLine(lines[0]) {
      j := FirstBadLine(lines[1..]);
      j := j + 1;
      assert forall i :: 1 <= i < j ==> lines[i] == lines[1..][..j - 1][i - 1];
    } else {
      j := 0;
    }
  }

  lemma GoodFits(raws: seq<Raw>)
    requires AllGood(raws)
    ensures AllFit(raws)
  {
    hide Taken;
  }

  /** A line of the limit or more that begins the buffer and lacks its line feed makes parse fail. */
  lemma {:induction false} UnfinishedLineFails(p: Parser, line: string, b: string)
    requires p.state == 2 && NoCr(line) && |line| >= HEADER_MAX_LENGTH && p.buf == line + "\r"
    ensures !Run(p, b).1
  {
    hide HeaderLines, FindIn;
    assert p.buf + "\n" == line + (CRLF + "");
    LineArrived(p.buf, "\n", line, "");
    StepInHeaders(p, b);
  }

  /** Header lines without the blank one, and x after them. */
  function LinesBefore(lines: seq<string>, x: string): string {
    if lines == [] then x else lines[0] + (CRLF + LinesBefore(lines[1..], x))
  }

  lemma {:induction false} LinesSplit(lines: seq<string>, j: nat, x: string)
    requires j <= |lines|
    ensures LinesThen(lines, x) == LinesBefore(lines[..j], LinesThen(lines[j..], x))
    decreases j
  {
    if j == 0 {
      assert lines[0..] == lines;
    } else {
      LinesSplit(lines[1..], j - 1, x);
      assert lines[1..][..j - 1] == lines[..j][1..] && lines[1..][j - 1..] == lines[j..];
    }
  }

  lemma {:induction false} BeforeAppends(lines: seq<string>, x: string)
    ensures LinesBefore(lines, x) == LinesBefore(lines, "") + x
  {
    if lines == [] {
      assert "" + x == x;
    } else {
      BeforeAppends(lines[1..], x);
      AppendTo(lines[0], CRLF, LinesBefore(lines[1..], ""), x);
    }
  }

  lemma {:induction false} ThenAppends(raws: seq<Raw>, b: string, x: string)
    ensures RawsThen(raws, b, x) == RawsThen(raws, b, "") + x
  {
    if raws == [] {
      assert "" + x == x;
    } else {
      hide LinesThen, Delimiter;
      var y := RawsThen(raws[1..], b, "");
      ThenAppends(raws[1..], b, x);
      AppendTo(Delimiter(b), CRLF, y, x);
      Assoc(raws[0].content, Delimiter(b) + (CRLF + y), x);
      LinesThenAppends(raws[0].lines, raws[0].content + (Delimiter(b) + (CRLF + y)), x);
    }
  }

  /** What comes before line j of part k, the line, and what follows its carriage return. */
  lemma {:induction false} CutAtLine(raws: seq<Raw>, k: nat, j: nat, b: string, e: string) returns (rest: string)
    requires k < |raws| && j < |raws[k].lines|
    ensures Closed(raws, b) + e ==
            Opening(b) + RawsThen(raws[..k], b, LinesBefore(raws[k].lines[..j], ""))
            + ((raws[k].lines[j] + "\r") + rest)
  {
    hide Opening, Closed, RawsThen, LinesThen, LinesBefore, FromContent;
    var lines, x := raws[k].lines, FromContent(raws[k..], b, e);
    ClosedAt(raws, k, b, e);
    assert FromHeaders(raws[k..], b, e) == LinesThen(lines, x);
    LinesSplit(lines, j, x);
    var y := LinesThen(lines[j..], x);
    LineFirst(lines, j, x);
    rest := "\n" + LinesThen(lines[j + 1..], x);
    CutLine(lines[j], LinesThen(lines[j + 1..], x));
    BeforeAppends(lines[..j], y);
    var before := LinesBefore(lines[..j], "");
    ThenAppends(raws[..k], b, before + y);
    ThenAppends(raws[..k], b, before);
    Regrouped(Opening(b), RawsThen(raws[..k], b, ""), before, y);
  }

  lemma LineFirst(lines: seq<string>, j: nat, x: string)
    requires j < |lines|
    ensures LinesThen(lines[j..], x) == lines[j] + (CRLF + LinesThen(lines[j + 1..], x))
  {
    assert lines[j..][1..] == lines[j + 1..];
  }

  lemma CutLine(line: string, x: string)
    ensures line + (CRLF + x) == (line + "\r") + ("\n" + x)
  {
    Assoc("\r", "\n", x);
    Assoc(line, "\r", "\n" + x);
    assert "\r" + "\n" == CRLF;
  }

  lemma Regrouped(o: string, i: string, d: string, t: string)
    ensures o + (i + (d + t)) == (o + (i + d)) + t
  {
    Assoc(i, d, t);
    Assoc(o, i + d, t);
  }

  lemma {:induction false} FeedFirst(p: Parser, first: string, more: seq<string>, b: string)
    ensures Concat([first] + more) == first + Concat(more)
    ensures var (q, ok) := Feed(p, first, b);
            if ok then FeedAll(p, [first] + more, b) == FeedAll(q, more, b) else !FeedAll(p, [first] + more, b).1
  {
    hide Feed;
    assert ([first] + more)[1..] == more;
  }

  lemma {:induction false} ConcatOne(s: string)
    ensures Concat([s]) == s
  {
    assert [s][1..] == [] && s + "" == s;
  }

  /** When the chunk before the line is taken and the unfinished line fails, so do the three chunks. */
  lemma {:induction false} ThreeChunks(a: string, line: string, rest: string, q: Parser, b: string)
    requires Feed(START, a, b) == (q, true) && !Feed(q, line, b).1
    ensures !FeedAll(START, [a, line, rest], b).1
    ensures Concat([a, line, rest]) == a + (line + rest)
  {
    hide Feed, FeedAll, Concat;
    assert [a, line, rest] == [a] + ([line] + [rest]);
    FeedFirst(START, a, [line] + [rest], b);
    FeedFirst(q, line, [rest], b);
    ConcatOne(rest);
  }

  lemma {:induction false} NothingLeft(p: Parser, b: string)
    requires p.buf == ""
    ensures Run(p, b) == (p, true)
  {
  }

  lemma {:induction false} NoLineYet(p: Parser)
    requires p.buf == ""
    ensures HeaderLines(p) == Step.Return(p)
  {
  }

  /** Good lines are taken one after the other, and the parser waits for the next. */
  lemma {:induction false} TakeLinesBefore(p: Parser, lines: seq<string>, x: string) returns (file: Part)
    requires p.state == 2 && p.buf == LinesBefore(lines, x)
    requires forall i :: 0 <= i < |lines| ==> lines[i] != "" && NoCr(lines[i]) && Takeable(lines[i])
    ensures HeaderLines(p) == HeaderLines(p.(file := file, buf := x))
    decreases |lines|
  {
    hide HeaderInto, FindIn, Takeable, HeaderLines, NoCr;
    if lines == [] {
      file := p.file;
    } else {
      assert p.buf + "" == p.buf;
      TakenIff(p.file, lines[0]);
      var f := HeaderInto(p.file, lines[0]).value;
      NextHeaderLine(p, "", lines[0], f, LinesBefore(lines[1..], x));
      var q := p.(file := f, buf := p.buf[|lines[0]| + 2..]);
      assert q.buf + "" == q.buf;
      file := TakeLinesBefore(q, lines[1..], x);
    }
  }

  /** Before line j of a part whose earlier lines are good, nothing is left in the buffer. */
  lemma {:induction false} RunToLine(p: Parser, lines: seq<string>, b: string) returns (q: Parser)
    requires p.state == 1 && p.buf == LinesBefore(lines, "") && GoodLines(lines)
    requires forall i :: 0 <= i < |lines| ==> lines[i] != "" && NoCr(lines[i])
    ensures Run(p, b) == (q, true) && (q.state == 1 || q.state == 2) && q.buf == ""
  {
    hide HeaderLines, FindIn, Takeable, NoCr, Run;
    if lines == [] {
      q := p;
      NothingLeft(p, b);
    } else {
      var p2 := p.(state := 2, file := BLANK);
      RunNewPart(p, b);
      var y := LinesBefore(lines[1..], "");
      assert p.buf + "" == lines[0] + (CRLF + y);
      assert GoodLine(lines[0]);
      LineArrived(p.buf, "", lines[0], y);
      assert forall i :: 0 <= i < |lines| ==> GoodLine(lines[i]);
      var file := TakeLinesBefore(p2, lines, "");
      q := p2.(file := file, buf := "");
      NoLineYet(q);
      StepInHeaders(p2, b);
      RunWaits(p2, b, q);
    }
  }

  lemma {:induction false} RunWaits(p: Parser, b: string, q: Parser)
    requires p.buf != "" && StepOnce(p, b) == Step.Return(q)
    ensures Run(p, b) == (q, true)
  {
    hide StepOnce;
  }

  lemma {:induction false} FirstLineTooLong(p: Parser, b: string)
    requires p.state == 2 && p.buf != "" && FindIn(p.buf, CRLF) > HEADER_MAX_LENGTH
    ensures !Run(p, b).1
  {
    hide HeaderLines, FindIn;
    StepInHeaders(p, b);
  }

  lemma {:induction false} LongLineFails(raws: seq<Raw>, k: nat, j: nat, b: string, e: string)
    returns (chunks: seq<string>)
    requires k < |raws| <= FORM_DATA_MAX_COUNT && BoundaryOk(b) && AllWellFormed(raws, b) && AllGood(raws[..k])
    requires j < |raws[k].lines| && GoodLines(raws[k].lines[..j]) && |raws[k].lines[j]| >= HEADER_MAX_LENGTH
    ensures Concat(chunks) == Closed(raws, b) + e && !FeedAll(START, chunks, b).1
  {
    hide Opening, RawsThen, LinesBefore, Run, FeedAll, Concat, AllGood, GoodLines, BoundaryOk, MadeAll, Closed, FreeOf,
         Delimiter;
    var lines := raws[k].lines;
    assert WellFormed(raws[k], b);
    var line := lines[j] + "\r";
    var rest := CutAtLine(raws, k, j, b, e);
    GoodFits(raws[..k]);
    var before := LinesBefore(lines[..j], "");
    var p := FeedParts(raws, k, before, b);
    var a := Opening(b) + RawsThen(raws[..k], b, before);
    var q := RunToLine(p, lines[..j], b);
    UnfinishedChunk(q, lines[j], b);
    chunks := [a, line, rest];
    ThreeChunks(a, line, rest, q, b);
  }

  lemma {:induction false} UnfinishedChunk(q: Parser, line: string, b: string)
    requires (q.state == 1 || q.state == 2) && q.buf == "" && NoCr(line) && |line| >= HEADER_MAX_LENGTH
    ensures !Feed(q, line + "\r", b).1
  {
    hide Run;
    var chunk := line + "\r";
    assert "" + chunk == chunk;
    if q.state == 1 {
      RunNewPart(q.(buf := chunk), b);
      UnfinishedLineFails(q.(state := 2, file := BLANK, buf := chunk), line, b);
    } else {
      UnfinishedLineFails(q.(buf := chunk), line, b);
    }
  }

  /** A line that is not takeable makes parse fail, after any takeable ones before it. */
  lemma {:induction false} RefusedLineFails(p: Parser, lines: seq<string>, j: nat, x: string)
    requires p.state == 2 && j < |lines| && p.buf == LinesThen(lines, x) && !Takeable(lines[j])
    requires forall i :: 0 <= i < |lines| ==> lines[i] != "" && NoCr(lines[i])
    requires forall i :: 0 <= i < j ==> Takeable(lines[i])
    ensures HeaderLines(p).Fail?
  {
    hide HeaderInto, FindIn, Takeable, HeaderLines, NoCr, LinesThen, LinesBefore;
    LinesSplit(lines, j, x);
    LineFirst(lines, j, x);
    var y := LinesThen(lines[j + 1..], x);
    var file := TakeLinesBefore(p, lines[..j], LinesThen(lines[j..], x));
    var q := p.(file := file, buf := lines[j] + (CRLF + y));
    TakenIff(file, lines[j]);
    RefusedFirst(q, lines[j], y);
  }

  lemma {:induction false} RefusedFirst(p: Parser, line: string, y: string)
    requires p.buf == line + (CRLF + y) && line != "" && NoCr(line) && HeaderInto(p.file, line).None?
    ensures HeaderLines(p).Fail?
  {
    hide HeaderInto, FindIn, NoCr;
    assert p.buf + "" == p.buf;
    LineArrived(p.buf, "", line, y);
  }

  /** A part that does not fit makes a body in one chunk fail. */
  lemma {:induction false} UnfitPartFails(raws: seq<Raw>, k: nat, b: string, e: string)
    requires k < |raws| <= FORM_DATA_MAX_COUNT && BoundaryOk(b) && AllWellFormed(raws, b)
    requires AllFit(raws[..k]) && !Fits(raws[k])
    ensures !Feed(START, Closed(raws, b) + e, b).1
  {
    hide Opening, RawsThen, Run, AllFit, BoundaryOk, MadeAll, FromContent, Feed, HeaderLines, FindIn, Closed, LinesThen,
         Takeable, NoCr, FreeOf, Delimiter;
    var lines, x := raws[k].lines, FromContent(raws[k..], b, e);
    var h := LinesThen(lines, x);
    assert WellFormed(raws[k], b);
    ClosedAt(raws, k, b, e);
    assert FromHeaders(raws[k..], b, e) == h;
    var q := FeedParts(raws, k, h, b);
    FirstLineFound(lines, x);
    RunNewPart(q, b);
    var p2 := q.(state := 2, file := BLANK);
    StepInHeaders(p2, b);
    if FirstFits(raws[k]) {
      var j := FirstRefused(lines);
      RefusedLineFails(p2, lines, j, x);
    }
    RunFails(p2, b);
  }

  lemma {:induction false} RunFails(p: Parser, b: string)
    requires p.buf != "" && StepOnce(p, b).Fail?
    ensures !Run(p, b).1
  {
    hide StepOnce;
  }

  lemma {:induction false} FirstRefused(lines: seq<string>) returns (j: nat)
    requires exists i :: 0 <= i < |lines| && !Takeable(lines[i])
    ensures j < |lines| && !Takeable(lines[j]) && forall i :: 0 <= i < j ==> Takeable(lines[i])
  {
    hide Takeable;
    if Takeable(lines[0]) {
      var i :| 0 <= i < |lines| && !Takeable(lines[i]);
      assert lines[1..][i - 1] == lines[i];
      j := FirstRefused(lines[1..]);
      j := j + 1;
      assert forall l :: 1 <= l < j ==> lines[l] == lines[1..][l - 1];
    } else {
      j := 0;
    }
  }

  /** What every cutting needs: every way of cutting a body of at most 1024 parts is parsed if and only if
      every header line is takeable and shorter than the limit. */
  lemma {:induction false} EveryCuttingSucceedsIff(raws: seq<Raw>, b: string)
    requires raws != [] && |raws| <= 1024 && BoundaryOk(b) && AllWellFormed(raws, b)
    ensures (forall chunks :: Concat(chunks) == Closed(raws, b) + CRLF ==> FeedAll(START, chunks, b).1)
            <==> AllGood(raws)
  {
    hide BoundaryOk, FeedAll, Concat, Closed, Taken, Short, Takeable;
    if AllGood(raws) {
      forall chunks | Concat(chunks) == Closed(raws, b) + CRLF ensures FeedAll(START, chunks, b).1 {
        assert AllSafe(raws, b);
        LineEndIsQuiet();
        BodyRoundTripIff(raws, b, CRLF, chunks);
      }
    } else {
      var k := FirstBadPart(raws);
      var j := FirstBadLine(raws[k].lines);
      var chunks;
      if |raws[k].lines[j]| >= HEADER_MAX_LENGTH {
        chunks := LongLineFails(raws, k, j, b, CRLF);
      } else {
        var body := Closed(raws, b) + CRLF;
        GoodFits(raws[..k]);
        NotTaken(raws[k], j);
        UnfitPartFails(raws, k, b, CRLF);
        OneChunkFails(body, b);
        chunks := [body];
      }
      assert Concat(chunks) == Closed(raws, b) + CRLF && !FeedAll(START, chunks, b).1;
    }
  }

  lemma NotTaken(raw: Raw, j: nat)
    requires j < |raw.lines| && !Takeable(raw.lines[j])
    ensures !Fits(raw)
  {
    hide Takeable;
  }

  lemma LineEndIsQuiet()
    ensures Quiet(CRLF)
  {
    assert CRLF[..2] == CRLF && CRLF[2..] == "";
  }

  lemma {:induction false} OneChunkFails(chunk: string, b: string)
    requires !Feed(START, chunk, b).1
    ensures !FeedAll(START, [chunk], b).1 && Concat([chunk]) == chunk
  {
    hide Feed, FeedAll, Concat;
    assert [chunk] == [chunk] + [];
    FeedFirst(START, chunk, [], b);
    ConcatOne(chunk);
  }

  /** In one piece only the first line of each part is measured: it may have the limit itself, and the others
      any length. */
  lemma {:induction false} OneChunkSucceedsIff(raws: seq<Raw>, b: string, e: string)
    requires raws != [] && |raws| <= 1024 && BoundaryOk(b) && AllWellFormed(raws, b)
    ensures Feed(START, Closed(raws, b) + e, b).1 <==> AllFit(raws)
  {
    hide BoundaryOk, Feed, Fits, Closed, MadeAll, WellFormed;
    if AllFit(raws) {
      var file := FeedClosed(raws, b, e);
    } else {
      var k := FirstUnfit(raws);
      UnfitPartFails(raws, k, b, e);
    }
  }

  lemma {:induction false} FirstUnfit(raws: seq<Raw>) returns (k: nat)
    requires !AllFit(raws)
    ensures k < |raws| && !Fits(raws[k]) && AllFit(raws[..k])
  {
    hide Fits;
    if Fits(raws[0]) {
      k := FirstUnfit(raws[1..]);
      k := k + 1;
      assert forall i :: 1 <= i < k ==> raws[i] == raws[1..][..k - 1][i - 1];
    } else {
      k := 0;
    }
  }

  // ----- the epilogue

  /** The closing boundary in one chunk with everything before it: the rest of the chunk is dropped. */
  lemma {:induction false} FeedClosed(raws: seq<Raw>, b: string, e: string) returns (file: Part)
    requires raws != [] && |raws| <= FORM_DATA_MAX_COUNT && BoundaryOk(b)
    requires AllWellFormed(raws, b) && AllFit(raws)
    ensures Feed(START, Closed(raws, b) + e, b) == (Parser(4, true, file, "", MadeAll(raws)), true)
  {
    hide Opening, RawsThen, LinesThen, Run, Fits, BoundaryOk, MadeAll, Feed, Made, Head, WellFormed, Delimiter, Closed;
    var k := |raws| - 1;
    var raw := raws[k];
    var h := FromHeaders(raws[k..], b, e);
    ClosedAt(raws, k, b, e);
    HeadersOfFirst(raws[k..], b, e);
    assert raws[k..][1..] == [];
    var q := FeedParts(raws, k, h, b);
    RunPart(q, raw, DASH + e, b);
    file := Head(raw);
    MadeLast(raws);
    RunClosing(Parser(4, false, file, DASH + e, MadeAll(raws)), e, b);
  }

  lemma MadeLast(raws: seq<Raw>)
    requires raws != []
    ensures MadeAll(raws) == MadeAll(raws[..|raws| - 1]) + [Made(raws[|raws| - 1])]
  {
    hide Made;
  }

  /** What follows the closing boundary in the same chunk is ignored. */
  lemma {:induction false} RunClosing(p: Parser, e: string, b: string)
    requires p.state == 4 && p.buf == DASH + e
    ensures Run(p, b) == (p.(valid := true, buf := ""), true)
  {
    var q := p.(valid := true, buf := "");
    assert p.buf[..2] == DASH;
    RunStep(p, b, q);
    NothingLeft(q, b);
  }

  /** The complete lines of s are all taken as header lines of a part. */
  ghost predicate AllTaken(s: string) {
    var i := FindIn(s, CRLF);
    i == |s| || (0 < i && Takeable(s[..i]) && AllTaken(s[i + 2..]))
  }

  lemma {:induction false} HeaderLinesTakenIff(p: Parser)
    requires p.state == 2
    ensures AllTaken(p.buf) ==> HeaderLines(p).Return? && HeaderLines(p).p.parts == p.parts
    ensures !AllTaken(p.buf) ==> HeaderLines(p).Fail? || (HeaderLines(p).Go? && |HeaderLines(p).p.parts| > |p.parts|)
    decreases |p.buf|
  {
    hide HeaderInto, FindIn, Takeable;
    var i := FindIn(p.buf, CRLF);
    if 0 < i < |p.buf| {
      TakenIff(p.file, p.buf[..i]);
      if Takeable(p.buf[..i]) {
        HeaderLinesTakenIff(p.(file := HeaderInto(p.file, p.buf[..i]).value, buf := p.buf[i + 2..]));
      }
    }
  }

  lemma {:induction false} HeaderLinesKeepParts(p: Parser)
    ensures !HeaderLines(p).Fail? ==> |HeaderLines(p).p.parts| >= |p.parts|
    decreases |p.buf|
  {
    hide HeaderInto, FindIn;
    var i := FindIn(p.buf, CRLF);
    if 0 < i < |p.buf| && HeaderLine(p, i).Some? {
      HeaderLinesKeepParts(HeaderLine(p, i).value);
    }
  }

  lemma {:induction false} StepKeepsParts(p: Parser, b: string)
    requires p.buf != ""
    ensures !StepOnce(p, b).Fail? ==> |StepOnce(p, b).p.parts| >= |p.parts|
  {
    hide HeaderLines, FindIn;
    HeaderLinesKeepParts(p);
  }

  /** Parts are never taken back. */
  lemma {:induction false} RunKeepsParts(p: Parser, b: string)
    ensures |Run(p, b).0.parts| >= |p.parts|
    decreases |p.buf|, if p.state == 1 then 1 else 0
  {
    hide StepOnce;
    if p.buf != "" {
      StepKeepsParts(p, b);
      if StepOnce(p, b).Go? { RunKeepsParts(StepOnce(p, b).p, b); }
    }
  }

  lemma {:induction false} FeedAllKeepsParts(p: Parser, chunks: seq<string>, b: string)
    ensures |FeedAll(p, chunks, b).0.parts| >= |p.parts|
    decreases |chunks|
  {
    hide Run;
    if chunks != [] {
      RunKeepsParts(p.(buf := p.buf + chunks[0]), b);
      if Feed(p, chunks[0], b).1 { FeedAllKeepsParts(Feed(p, chunks[0], b).0, chunks[1..], b); }
    }
  }

  /** What one chunk t after the closing boundary does: it leaves no trace exactly if it does not begin with a
      line end, or the first line after that is within the limit and no complete line is blank or refused. */
  ghost predicate Harmless(t: string) {
    CRLF <= t ==> FindIn(t[2..], CRLF) <= 8192 && AllTaken(t[2..])
  }

  lemma {:induction false} EpilogueChunkIgnoredIff(p: Parser, t: string, b: string)
    requires p.state == 4 && p.valid && p.buf == ""
    ensures var (q, ok) := Feed(p, t, b);
            (ok && q.valid && q.parts == p.parts) <==> Harmless(t)
  {
    hide FindIn, AllTaken;
    var p0 := p.(buf := t);
    assert "" + t == t;
    if CRLF <= t {
      assert t[..2] == CRLF && t == CRLF + t[2..];
      RunBoundary(p0, t[2..], b);
      PartAfterClosing(p0.(state := 1, buf := t[2..]), b);
    } else if t != "" && StepOnce(p0, b).Go? {
      assert t[..2] == DASH && t == DASH + t[2..];
      RunClosing(p0, t[2..], b);
    }
  }

  lemma {:induction false} PartAfterClosing(p: Parser, b: string)
    requires p.state == 1 && p.valid
    ensures var (q, ok) := Run(p, b);
            (ok && q.valid && q.parts == p.parts) <==> FindIn(p.buf, CRLF) <= HEADER_MAX_LENGTH && AllTaken(p.buf)
  {
    hide FindIn, HeaderLines, StepOnce;
    if p.buf == "" {
      NothingTaken();
    } else {
      var p2 := p.(state := 2, file := BLANK);
      RunNewPart(p, b);
      StepInHeaders(p2, b);
      HeaderLinesTakenIff(p2);
      HeaderLinesStayValid(p2);
      var step := StepOnce(p2, b);
      if step.Go? {
        RunStep(p2, b, step.p);
        RunKeepsParts(step.p, b);
      }
    }
  }

  lemma NothingTaken()
    ensures FindIn("", CRLF) == 0 && AllTaken("")
  {
  }

  lemma {:induction false} HeaderLinesStayValid(p: Parser)
    ensures !HeaderLines(p).Fail? ==> HeaderLines(p).p.valid == p.valid
    decreases |p.buf|
  {
    hide HeaderInto, FindIn;
    var i := FindIn(p.buf, CRLF);
    if 0 < i < |p.buf| && HeaderLine(p, i).Some? {
      HeaderLinesStayValid(HeaderLine(p, i).value);
    }
  }

  /** Two line ends are enough for a part that nobody sent: the parser stays valid and delivers it, blank. */
  lemma {:induction false} ExtraPart(p: Parser, b: string)
    requires p.state == 4 && p.valid && p.buf == "" && |p.parts| < FORM_DATA_MAX_COUNT
    ensures Feed(p, CRLF + CRLF, b) == (Parser(3, true, BLANK, "", p.parts + [BLANK]), true)
  {
    hide FindIn, HeaderLines;
    var p0 := p.(buf := CRLF + CRLF);
    assert "" + (CRLF + CRLF) == CRLF + CRLF;
    RunBoundary(p0, CRLF, b);
    RunNewPart(p0.(state := 1, buf := CRLF), b);
    var p2 := p0.(state := 2, file := BLANK, buf := CRLF);
    assert CRLF + "" == "" + (CRLF + "");
    LineArrived(CRLF, "", "", "");
    TakeBlank(p2, "");
    StepInHeaders(p2, b);
    var last := Parser(3, true, BLANK, "", p.parts + [BLANK]);
    RunStep(p2, b, last);
    NothingLeft(last, b);
  }

  // ----- the epilogue under every cutting

  ghost predicate Delivers(chunks: seq<string>, b: string, raws: seq<Raw>) {
    var (p, ok) := FeedAll(START, chunks, b);
    ok && p.valid && p.parts == MadeAll(raws)
  }

  ghost predicate LeavesTrace(p: Parser, chunks: seq<string>, b: string) {
    var (q, ok) := FeedAll(p, chunks, b);
    !ok || |q.parts| > |p.parts|
  }

  lemma {:induction false} FirstChunkFails(p: Parser, chunk: string, rest: string, b: string)
    requires !Feed(p, chunk, b).1
    ensures LeavesTrace(p, [chunk, rest], b) && Concat([chunk, rest]) == chunk + rest
  {
    hide Feed, FeedAll, Concat;
    assert [chunk, rest] == [chunk] + [rest];
    FeedFirst(p, chunk, [rest], b);
    ConcatOne(rest);
  }

  lemma {:induction false} FirstChunkAdds(p: Parser, chunk: string, rest: string, b: string)
    requires Feed(p, chunk, b).1 && |Feed(p, chunk, b).0.parts| > |p.parts|
    ensures LeavesTrace(p, [chunk, rest], b) && Concat([chunk, rest]) == chunk + rest
  {
    hide Feed, FeedAll, Concat;
    assert [chunk, rest] == [chunk] + [rest];
    FeedFirst(p, chunk, [rest], b);
    ConcatOne(rest);
    FeedAllKeepsParts(Feed(p, chunk, b).0, [rest], b);
  }

  lemma {:induction false} TraceLater(p: Parser, chunk: string, q: Parser, chunks: seq<string>, b: string)
    requires Feed(p, chunk, b) == (q, true) && q.parts == p.parts && LeavesTrace(q, chunks, b)
    ensures LeavesTrace(p, [chunk] + chunks, b) && Concat([chunk] + chunks) == chunk + Concat(chunks)
  {
    hide Feed, FeedAll, Concat;
    FeedFirst(p, chunk, chunks, b);
  }

  /** In the headers with nothing buffered, or at a new part, one chunk is a line or a part of one. */
  lemma {:induction false} FeedInHeaders(p: Parser, chunk: string, b: string)
    requires (p.state == 1 || p.state == 2) && p.buf == "" && chunk != ""
    ensures exists file :: Feed(p, chunk, b) == Run(Parser(2, p.valid, file, chunk, p.parts), b)
  {
    hide Run;
    assert "" + chunk == chunk;
    if p.state == 1 {
      RunNewPart(p.(buf := chunk), b);
      assert Feed(p, chunk, b) == Run(Parser(2, p.valid, BLANK, chunk, p.parts), b);
    } else {
      assert Feed(p, chunk, b) == Run(Parser(2, p.valid, p.file, chunk, p.parts), b);
    }
  }

  lemma {:induction false} FeedTooLong(p: Parser, chunk: string, b: string)
    requires (p.state == 1 || p.state == 2) && p.buf == "" && FindIn(chunk, CRLF) > HEADER_MAX_LENGTH
    ensures !Feed(p, chunk, b).1
  {
    hide Run, Feed, FindIn;
    FeedInHeaders(p, chunk, b);
    var file :| Feed(p, chunk, b) == Run(Parser(2, p.valid, file, chunk, p.parts), b);
    FirstLineTooLong(Parser(2, p.valid, file, chunk, p.parts), b);
  }

  /** One complete line: blank, refused, or taken. */
  lemma {:induction false} FeedLine(p: Parser, line: string, b: string)
    requires (p.state == 1 || p.state == 2) && p.buf == "" && |line| < HEADER_MAX_LENGTH
    requires FindIn(line + CRLF, CRLF) == |line|
    ensures var (q, ok) := Feed(p, line + CRLF, b);
            if line == "" then !ok || |q.parts| > |p.parts|
            else if !Takeable(line) then !ok
            else ok && q.state == 2 && q.buf == "" && q.parts == p.parts
  {
    hide Run, Feed, FindIn, HeaderInto, Takeable, HeaderLines, StepOnce;
    var chunk := line + CRLF;
    FeedInHeaders(p, chunk, b);
    var file :| Feed(p, chunk, b) == Run(Parser(2, p.valid, file, chunk, p.parts), b);
    var p2 := Parser(2, p.valid, file, chunk, p.parts);
    assert chunk[..|line|] == line && chunk[|line| + 2..] == "";
    TakenIff(file, line);
    StepInHeaders(p2, b);
    LineStep(p2, line);
    RunOnce(p2, b);
    var step := HeaderLines(p2);
    if step.Go? { RunKeepsParts(step.p, b); }
  }

  lemma {:induction false} LineStep(p: Parser, line: string)
    requires p.buf == line + CRLF && FindIn(p.buf, CRLF) == |line|
    ensures var step := HeaderLines(p);
            if line == "" then step.Fail? || (step.Go? && |step.p.parts| > |p.parts|)
            else if HeaderInto(p.file, line).None? then step.Fail?
            else step == Step.Return(p.(file := HeaderInto(p.file, line).value, buf := ""))
  {
    hide HeaderInto, FindIn;
    assert p.buf[..|line|] == line && p.buf[|line| + 2..] == "";
    if line != "" && HeaderInto(p.file, line).Some? {
      NoLineYet(p.(file := HeaderInto(p.file, line).value, buf := ""));
    }
  }

  lemma {:induction false} RunOnce(p: Parser, b: string)
    requires p.buf != ""
    ensures match StepOnce(p, b)
            case Go(q) => Run(p, b) == Run(q, b)
            case Return(q) => Run(p, b) == (q, true)
            case Fail => !Run(p, b).1
  {
    hide StepOnce;
  }

  /** Lines that are not quiet can be cut so that they leave a trace. */
  lemma {:induction false} CutNoisyLines(p: Parser, s: string, b: string) returns (chunks: seq<string>)
    requires (p.state == 1 || p.state == 2) && p.buf == "" && !QuietLines(s)
    ensures Concat(chunks) == s && LeavesTrace(p, chunks, b)
    decreases |s|
  {
    hide Feed, FindIn, Takeable, LeavesTrace, Concat;
    var i := FindIn(s, CRLF);
    FindInIs(s, CRLF);
    if i == |s| {
      FeedTooLong(p, s, b);
      FirstChunkFails(p, s, "", b);
      chunks := [s, ""];
      assert s + "" == s;
    } else if i >= HEADER_MAX_LENGTH {
      var chunk, rest := s[..i + 1], s[i + 1..];
      assert chunk + rest == s;
      CutBeforeLineFeed(s, i);
      FeedTooLong(p, chunk, b);
      FirstChunkFails(p, chunk, rest, b);
      chunks := [chunk, rest];
    } else {
      var line, rest := s[..i], s[i + 2..];
      assert (line + CRLF) + rest == s;
      LineAlone(s, i);
      FeedLine(p, line, b);
      if line == "" || !Takeable(line) {
        if Feed(p, line + CRLF, b).1 {
          FirstChunkAdds(p, line + CRLF, rest, b);
        } else {
          FirstChunkFails(p, line + CRLF, rest, b);
        }
        chunks := [line + CRLF, rest];
      } else {
        var q := Feed(p, line + CRLF, b).0;
        var more := CutNoisyLines(q, rest, b);
        TraceLater(p, line + CRLF, q, more, b);
        chunks := [line + CRLF] + more;
      }
    }
  }

  lemma CutBeforeLineFeed(s: string, i: nat)
    requires FirstAt(s, CRLF, i)
    ensures FindIn(s[..i + 1], CRLF) == i + 1
  {
    assert s[..i + 1] + s[i + 1..] == s;
    FindInPrefix(s[..i + 1], s[i + 1..], CRLF, i);
  }

  lemma LineAlone(s: string, i: nat)
    requires FirstAt(s, CRLF, i)
    ensures FindIn(s[..i] + CRLF, CRLF) == i && s == s[..i] + CRLF + s[i + 2..]
  {
    assert s[i..i + 2] == CRLF;
    assert s == (s[..i] + CRLF) + s[i + 2..];
    FindInPrefix(s[..i] + CRLF, s[i + 2..], CRLF, i);
  }

  /** If the epilogue is not quiet, one cutting does harm: everything before its first line end at once, that
      line end, and the lines after it. */
  lemma {:induction false} CutNoisyEpilogue(raws: seq<Raw>, b: string, e: string) returns (chunks: seq<string>)
    requires raws != [] && |raws| <= FORM_DATA_MAX_COUNT && BoundaryOk(b) && AllSafe(raws, b) && !Quiet(e)
    ensures Concat(chunks) == Closed(raws, b) + e && !Delivers(chunks, b, raws)
  {
    hide Feed, FindIn, QuietLines, BoundaryOk, Safe, Closed, MadeAll, Concat;
    var i := FindIn(e, CRLF);
    FindInIs(e, CRLF);
    LineAlone(e, i);
    var first, rest := Closed(raws, b) + e[..i], e[i + 2..];
    SafeFit(raws, b);
    var file := FeedClosed(raws, b, e[..i]);
    var p := Parser(4, true, file, "", MadeAll(raws));
    var q := p.(state := 1);
    FeedLineEnd(p, b);
    var more := CutNoisyLines(q, rest, b);
    TraceLater(p, CRLF, q, more, b);
    chunks := [first] + ([CRLF] + more);
    FeedFirst(START, first, [CRLF] + more, b);
    assert first + (CRLF + rest) == Closed(raws, b) + e by {
      Assoc(Closed(raws, b), e[..i], CRLF + rest);
      Assoc(e[..i], CRLF, rest);
    }
  }

  lemma SafeFit(raws: seq<Raw>, b: string)
    requires AllSafe(raws, b)
    ensures AllWellFormed(raws, b) && AllFit(raws)
  {
    hide WellFormed, Takeable;
    forall i | 0 <= i < |raws| ensures WellFormed(raws[i], b) && Fits(raws[i]) {
      assert Safe(raws[i], b);
    }
  }

  lemma {:induction false} FeedLineEnd(p: Parser, b: string)
    requires p.state == 4 && p.buf == ""
    ensures Feed(p, CRLF, b) == (p.(state := 1), true)
  {
    assert "" + CRLF == CRLF + "" == CRLF;
    RunBoundary(p.(buf := CRLF), "", b);
    NothingLeft(p.(state := 1), b);
  }

  /** Section 5.1.1 of RFC 2046 has the epilogue ignored. Every way of cutting the body and the epilogue e
      delivers just the parts if and only if e is quiet. */
  lemma {:induction false} EpilogueIgnoredIff(raws: seq<Raw>, b: string, e: string)
    requires raws != [] && |raws| <= 1024 && BoundaryOk(b) && AllSafe(raws, b)
    ensures (forall chunks :: Concat(chunks) == Closed(raws, b) + e ==> Delivers(chunks, b, raws)) <==> Quiet(e)
  {
    hide BoundaryOk, FeedAll, Concat, Closed, AllSafe, Quiet, MadeAll;
    if Quiet(e) {
      forall chunks | Concat(chunks) == Closed(raws, b) + e ensures Delivers(chunks, b, raws) {
        BodyRoundTripIff(raws, b, e, chunks);
      }
    } else {
      var chunks := CutNoisyEpilogue(raws, b, e);
    }
  }

  // ----- after a boundary

  /** Two bytes after a boundary that are neither a line end nor the closing dashes leave the parser waiting for
      ever: whatever comes is kept, and neither parts nor validity change any more. */
  lemma {:induction false} StuckAfterBoundary(p: Parser, chunks: seq<string>, b: string)
    requires p.state == 4 && |p.buf| >= 2 && p.buf[..2] != CRLF && p.buf[..2] != DASH
    ensures FeedAll(p, chunks, b) == (p.(buf := p.buf + Concat(chunks)), true)
    decreases |chunks|
  {
    if chunks == [] {
      assert p.buf + "" == p.buf;
    } else {
      var q := p.(buf := p.buf + chunks[0]);
      assert q.buf[..2] == p.buf[..2];
      RunWaits(q, b, q);
      StuckAfterBoundary(q, chunks[1..], b);
      Assoc(p.buf, chunks[0], Concat(chunks[1..]));
    }
  }
}
