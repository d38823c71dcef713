/** Multipart form data as values: the parser's step function, and the serializer. */
module MultipartSpec {
  import opened Common
  import opened Text
  import opened Headers

  const FORM_DATA_MAX_COUNT := 1024
  const DASH := "--"

  /** A part as the parser hands it over. */
  datatype Part = Part(name: string, filename: string, contentType: string, headers: seq<Header>, content: string)

  const BLANK := Part("", "", "", [], "")

  // ----- searching

  ghost predicate MatchAt(s: string, n: string, i: nat) {
    i + |n| <= |s| && s[i..i + |n|] == n
  }

  ghost predicate FirstAt(s: string, n: string, i: nat) {
    MatchAt(s, n, i) && forall j :: 0 <= j < i ==> !MatchAt(s, n, j)
  }

  /** The first position of n in s, or |s|. */
  function FindIn(s: string, n: string): (i: nat)
    ensures i <= |s|
    ensures i < |s| ==> i + |n| <= |s| && s[i..i + |n|] == n
  {
    if |s| < |n| || s == "" then |s|
    else if s[..|n|] == n then 0
    else
      var i := FindIn(s[1..], n);
      if i < |s[1..]| then SliceOfSlice(s, 1, |s|, i, i + |n|); 1 + i else |s|
  }

  lemma {:induction false} FindFirst(s: string, n: string, i: nat)
    requires n != "" && FirstAt(s, n, i)
    ensures FindIn(s, n) == i
  {
    if i == 0 {
      assert s[0..|n|] == s[..|n|];
    } else {
      assert !MatchAt(s, n, 0);
      assert s[0..|n|] == s[..|n|];
      var t := s[1..];
      forall j | 0 <= j && MatchAt(t, n, j) ensures MatchAt(s, n, j + 1) {
        SliceOfSlice(s, 1, |s|, j, j + |n|);
      }
      SliceOfSlice(s, 1, |s|, i - 1, i - 1 + |n|);
      assert MatchAt(t, n, i - 1);
      FindFirst(t, n, i - 1);
    }
  }

  lemma {:induction false} FindNone(s: string, n: string)
    requires n != "" && forall j :: 0 <= j ==> !MatchAt(s, n, j)
    ensures FindIn(s, n) == |s|
  {
    if s != "" {
      assert !MatchAt(s, n, 0);
      var t := s[1..];
      forall j | 0 <= j && MatchAt(t, n, j) ensures MatchAt(s, n, j + 1) {
        SliceOfSlice(s, 1, |s|, j, j + |n|);
      }
      if |s| >= |n| { assert s[0..|n|] == s[..|n|]; }
      FindNone(t, n);
    }
  }

  lemma {:induction false} FindInIs(s: string, n: string)
    requires n != ""
    ensures FindIn(s, n) < |s| ==> FirstAt(s, n, FindIn(s, n))
    ensures FindIn(s, n) == |s| ==> forall j :: 0 <= j ==> !MatchAt(s, n, j)
  {
    if |s| >= |n| {
      var t := s[1..];
      FindInIs(t, n);
      assert s[0..|n|] == s[..|n|];
      forall j | 0 < j && MatchAt(s, n, j) ensures MatchAt(t, n, j - 1) {
        SliceOfSlice(s, 1, |s|, j - 1, j - 1 + |n|);
      }
    }
  }

  lemma NoneInPrefix(buf: string, future: string, n: string)
    requires n != "" && forall j :: 0 <= j ==> !MatchAt(buf + future, n, j)
    ensures FindIn(buf, n) == |buf|
  {
    forall j | 0 <= j && MatchAt(buf, n, j) ensures MatchAt(buf + future, n, j) {
      assert (buf + future)[j..j + |n|] == buf[j..j + |n|];
    }
    FindNone(buf, n);
  }

  /** What a search sees when only the beginning of the bytes has arrived. */
  lemma {:induction false} FindInPrefix(buf: string, future: string, n: string, i: nat)
    requires n != "" && FirstAt(buf + future, n, i)
    ensures FindIn(buf, n) == if i + |n| <= |buf| then i else |buf|
  {
    var s := buf + future;
    forall j | 0 <= j && MatchAt(buf, n, j) ensures MatchAt(s, n, j) {
      assert s[j..j + |n|] == buf[j..j + |n|];
    }
    if i + |n| <= |buf| {
      assert s[i..i + |n|] == buf[i..i + |n|];
      FindFirst(buf, n, i);
    } else {
      FindNone(buf, n);
    }
  }

  // ----- one header line of a part

  predicate StartsWithIgnoringCase(s: string, prefix: string) {
    |s| >= |prefix| && EqualIgnoringCase(s[..|prefix|], prefix)
  }

  function Unquoted(s: string): string {
    if |s| >= 2 && s[0] == '"' && s[|s| - 1] == '"' then s[1..|s| - 1] else s
  }

  /** One parameter: the first part between '=' signs is the key, the last other one the value. */
  function Parameter(kv: string): seq<Header> {
    var parts := Split(kv, '=');
    if parts == [] then []
    else [Header(Unquoted(parts[0]), Unquoted(if |parts| == 1 then "" else parts[|parts| - 1]))]
  }

  /** The parameters between ';' signs, exact repetitions left out. */
  function Parameters(parts: seq<string>): seq<Header> {
    if parts == [] then []
    else
      var init, kv := parts[..|parts| - 1], parts[|parts| - 1];
      if kv in init then Parameters(init) else Parameters(init) + Parameter(kv)
  }

  function Find(params: seq<Header>, key: string): Option<string> {
    if params == [] then None
    else if params[0].name == key then Some(params[0].value)
    else Find(params[1..], key)
  }

  const CD_NAME := "Content-Disposition"
  const CT_NAME := "Content-Type"
  const CONTENT_DISPOSITION := CD_NAME + ":"
  const CONTENT_TYPE := CT_NAME + ":"
  const FORM_DATA := "form-data;"
  const UTF_8 := "UTF-8''"

  /** What the regular expression for a form-data disposition captures: everything after the blanks that
      follow "form-data;". */
  function DispositionParams(header: string): Option<string> {
    if !StartsWithIgnoringCase(header, CONTENT_DISPOSITION) then None
    else
      var s := SkipSpace(header[|CONTENT_DISPOSITION|..]);
      if !StartsWithIgnoringCase(s, FORM_DATA) then None else Some(SkipSpace(s[|FORM_DATA|..]))
  }

  /** The names in the disposition; None when there is no name, or an extended file name that is not
      UTF-8. */
  function Named(file: Part, params: seq<Header>): Option<Part> {
    var name, filename, extended := Find(params, "name"), Find(params, "filename"), Find(params, "filename*");
    if name.None? then None
    else
      var f := file.(name := name.value, filename := if filename.Some? then filename.value else file.filename);
      if extended.None? then Some(f)
      else if StartsWithIgnoringCase(extended.value, UTF_8) && |extended.value| > |UTF_8| then
        Some(f.(filename := DecodePath(extended.value[|UTF_8|..])))
      else None
  }

  function HeaderInto(file: Part, header: string): Option<Part> {
    var parsed := ParseLine(header);
    if parsed.None? then None
    else
      var f := file.(headers := file.headers + [parsed.value]);
      if StartsWithIgnoringCase(header, CONTENT_TYPE) then
        Some(f.(contentType := Trim(header[|CONTENT_TYPE|..])))
      else
        var params := DispositionParams(header);
        if params.None? then Some(f) else Named(f, Parameters(Split(params.value, ';')))
  }

  // ----- the parser

  /** state is 0 before the first boundary, 1 at a new part, 2 in its headers, 3 in its body, 4 after a
      boundary. buf holds the bytes not yet consumed, parts what the receiver has been given. */
  datatype Parser = Parser(state: nat, valid: bool, file: Part, buf: string, parts: seq<Part>)

  const START := Parser(0, false, BLANK, "", [])

  /** The outcome of a step: the loop goes on, or parse returns. After a false return the state does not
      matter any more. */
  datatype Step = Go(p: Parser) | Return(p: Parser) | Fail

  function Opening(boundary: string): string {
    DASH + boundary + CRLF
  }

  function Delimiter(boundary: string): string {
    CRLF + DASH + boundary
  }

  /** The header line that ends at pos; the blank one ends the headers. The receiver takes at most
      FORM_DATA_MAX_COUNT parts. */
  function HeaderLine(p: Parser, pos: nat): (next: Option<Parser>)
    requires pos + 2 <= |p.buf|
    ensures next.Some? ==> |next.value.buf| < |p.buf|
  {
    if pos == 0 then
      if |p.parts| == FORM_DATA_MAX_COUNT then None
      else Some(p.(state := 3, buf := p.buf[2..], parts := p.parts + [p.file]))
    else
      var file := HeaderInto(p.file, p.buf[..pos]);
      if file.None? then None else Some(p.(file := file.value, buf := p.buf[pos + 2..]))
  }

  /** The header lines that are complete, up to the blank line. */
  function HeaderLines(p: Parser): (step: Step)
    ensures step.Go? ==> |step.p.buf| < |p.buf|
    decreases |p.buf|
  {
    var pos := FindIn(p.buf, CRLF);
    if pos == |p.buf| then Return(p)
    else
      match HeaderLine(p, pos)
      case None => Fail
      case Some(next) => if pos == 0 then Go(next) else HeaderLines(next)
  }

  function AddContent(parts: seq<Part>, data: string): seq<Part> {
    if parts == [] then []
    else parts[|parts| - 1 := parts[|parts| - 1].(content := parts[|parts| - 1].content + data)]
  }

  /** The bytes before the delimiter d, or as many as cannot be the beginning of one. */
  function BodyOnce(p: Parser, d: string): (step: Step)
    requires d != ""
    ensures step.Go? ==> |step.p.buf| < |p.buf|
  {
    var pos := FindIn(p.buf, d);
    if |d| > |p.buf| then Return(p)
    else if pos < |p.buf| then
      Go(p.(state := 4, parts := AddContent(p.parts, p.buf[..pos]), buf := p.buf[pos + |d|..]))
    else
      var len := |p.buf| - |d|;
      Return(if len > 0 then p.(parts := AddContent(p.parts, p.buf[..len]), buf := p.buf[len..]) else p)
  }

  function StepOnce(p: Parser, boundary: string): (step: Step)
    requires p.buf != ""
    ensures step.Go? ==> |step.p.buf| < |p.buf| || (p.state == 1 && step.p.state == 2 && step.p.buf == p.buf)
  {
    if p.state == 0 then
      var pos := FindIn(p.buf, Opening(boundary));
      if pos == |p.buf| then Return(p)
      else Go(p.(state := 1, buf := p.buf[pos + |Opening(boundary)|..]))
    else if p.state == 1 then Go(p.(state := 2, file := BLANK))
    else if p.state == 2 then
      if FindIn(p.buf, CRLF) > HEADER_MAX_LENGTH then Fail else HeaderLines(p)
    else if p.state == 3 then BodyOnce(p, Delimiter(boundary))
    else
      if |p.buf| < 2 then Return(p)
      else if p.buf[..2] == CRLF then Go(p.(state := 1, buf := p.buf[2..]))
      else if p.buf[..2] == DASH then Go(p.(valid := true, buf := ""))
      else Return(p)
  }

  /** The loop of parse; false when it fails. */
  function Run(p: Parser, boundary: string): (Parser, bool)
    decreases |p.buf|, if p.state == 1 then 1 else 0
  {
    if p.buf == "" then (p, true)
    else
      match StepOnce(p, boundary)
      case Go(next) => Run(next, boundary)
      case Return(last) => (last, true)
      case Fail => (p, false)
  }

  function Feed(p: Parser, chunk: string, boundary: string): (Parser, bool) {
    Run(p.(buf := p.buf + chunk), boundary)
  }

  /** Chunks are fed until one fails. */
  function FeedAll(p: Parser, chunks: seq<string>, boundary: string): (Parser, bool)
    decreases |chunks|
  {
    if chunks == [] then (p, true)
    else
      var (next, ok) := Feed(p, chunks[0], boundary);
      if ok then FeedAll(next, chunks[1..], boundary) else (next, false)
  }

  // ----- the serializer

  datatype Item = Item(name: string, content: string, filename: string, contentType: string)

  function DispositionLine(item: Item): string {
    CONTENT_DISPOSITION + " " + FORM_DATA + " name=\"" + item.name + "\""
    + (if item.filename == "" then "" else "; filename=\"" + item.filename + "\"")
  }

  function ContentTypeLine(item: Item): string {
    CONTENT_TYPE + " " + item.contentType
  }

  /** The header block of an item, without the boundary before it. */
  function ItemHeaders(item: Item): string {
    DispositionLine(item) + CRLF + (if item.contentType == "" then "" else ContentTypeLine(item) + CRLF) + CRLF
  }

  function Serialized(items: seq<Item>, boundary: string): string {
    if items == [] then DASH + boundary + DASH + CRLF
    else
      Opening(boundary) + ItemHeaders(items[0]) + items[0].content + CRLF + Serialized(items[1..], boundary)
  }

  method SerializeItemBegin(item: Item, boundary: string) returns (body: string)
    ensures body == Opening(boundary) + ItemHeaders(item)
  {
    body := "--" + boundary + CRLF;
    body := body + (CONTENT_DISPOSITION + " " + FORM_DATA + " name=\"" + item.name + "\"");
    if item.filename != "" {
      body := body + ("; filename=\"" + item.filename + "\"");
    }
    body := body + CRLF;
    if item.contentType != "" {
      body := body + (CONTENT_TYPE + " " + item.contentType + CRLF);
    }
    body := body + CRLF;
  }

  method SerializeFormData(items: seq<Item>, boundary: string) returns (body: string)
    ensures body == Serialized(items, boundary)
  {
    body := "";
    for i := 0 to |items|
      invariant body + Serialized(items[i..], boundary) == Serialized(items, boundary)
    {
      var begin := SerializeItemBegin(items[i], boundary);
      assert items[i..][1..] == items[i + 1..];
      var content := items[i].content + CRLF;
      Assoc(begin, items[i].content, CRLF);
      Assoc(body, begin + content, Serialized(items[i + 1..], boundary));
      Assoc(body, begin, content);
      body := body + begin;
      body := body + content;
    }
    body := body + ("--" + boundary + "--" + CRLF);
  }
}
