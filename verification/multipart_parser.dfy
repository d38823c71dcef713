/** The streaming parser itself: a sliding buffer, five states, and the receiver it hands parts to. */
module MultipartParser {
  import opened Common
  import opened Text
  import opened Headers
  import opened MultipartSpec
  import opened MultipartBody
  import opened MultipartCutting
  import opened MultipartRoundTrip

  /** What the server does with the parts: it counts them and appends their contents. */
  class FormReceiver {
    var parts: seq<Part>
    var count: nat

    ghost predicate Valid()
      reads this
    {
      count == |parts|
    }

    constructor ()
      ensures Valid() && parts == []
    {
      parts, count := [], 0;
    }

    method OnHeader(file: Part) returns (ok: bool)
      requires Valid()
      modifies this
      ensures ok == (|old(parts)| != 1024)
      ensures ok ==> Valid() && parts == old(parts) + [file]
    {
      count := count + 1;
      if count - 1 == FORM_DATA_MAX_COUNT {
        return false;
      }
      parts := parts + [file];
      return true;
    }

    method OnContent(data: string)
      requires Valid() && parts != []
      modifies this
      ensures Valid() && |parts| == |old(parts)| && parts == AddContent(old(parts), data)
    {
      var last := parts[|parts| - 1];
      parts := parts[|parts| - 1 := last.(content := last.content + data)];
    }
  }

  /** Go round the loop again, or return from parse. */
  datatype Outcome = Continue | Exit(ok: bool)

  class FormDataParser {
    const boundary: string
    const dashBoundaryCrlf: string
    const crlfDashBoundary: string
    var state: nat
    var isValid: bool
    var file: Part
    var buf: array<char>
    var bufSpos: nat
    var bufEpos: nat

    ghost predicate Valid()
      reads this
    {
      && dashBoundaryCrlf == Opening(boundary) && crlfDashBoundary == Delimiter(boundary)
      && bufSpos <= bufEpos <= buf.Length && state <= 4
    }

    /** The bytes not yet consumed. */
    ghost function Bytes(): string
      reads this, buf
      requires Valid()
    {
      buf[bufSpos..bufEpos]
    }

    /** In the body there is a part to append to. */
    ghost predicate Ready(receiver: FormReceiver)
      reads this, receiver
    {
      Valid() && receiver.Valid() && (state == 3 ==> receiver.parts != [])
    }

    ghost function View(receiver: FormReceiver): Parser
      reads this, buf, receiver
      requires Valid()
    {
      Parser(state, isValid, file, Bytes(), receiver.parts)
    }

    constructor (boundary: string)
      ensures Valid() && fresh(buf) && this.boundary == boundary
      ensures state == 0 && !isValid && file == BLANK && Bytes() == ""
    {
      this.boundary := boundary;
      dashBoundaryCrlf := DASH + boundary + CRLF;
      crlfDashBoundary := CRLF + DASH + boundary;
      state, isValid, file := 0, false, BLANK;
      buf, bufSpos, bufEpos := new char[0], 0, 0;
    }

    // ----- the buffer

    function BufSize(): nat
      reads this
      requires Valid()
    {
      bufEpos - bufSpos
    }

    lemma SliceOfBytes(i: nat, j: nat)
      requires Valid() && i <= j <= BufSize()
      ensures Bytes()[i..j] == buf[bufSpos + i..bufSpos + j]
    {
      var u, v := Bytes()[i..j], buf[bufSpos + i..bufSpos + j];
      forall x | 0 <= x < |u| ensures u[x] == v[x] {
        assert u[x] == buf[bufSpos + i + x];
      }
    }

    method StartWith(spos: nat, epos: nat, b: string) returns (r: bool)
      requires spos <= epos <= buf.Length
      ensures r == (|b| <= epos - spos && buf[spos..spos + |b|] == b)
    {
      if epos - spos < |b| {
        return false;
      }
      for i := 0 to |b|
        invariant buf[spos..spos + i] == b[..i]
      {
        if buf[i + spos] != b[i] {
          assert buf[spos..spos + |b|][i] != b[i];
          return false;
        }
      }
      return true;
    }

    method BufStartWith(s: string) returns (r: bool)
      requires Valid()
      ensures r == (|s| <= BufSize() && Bytes()[..|s|] == s)
    {
      r := StartWith(bufSpos, bufEpos, s);
      if |s| <= BufSize() {
        assert Bytes()[..|s|] == buf[bufSpos..bufSpos + |s|];
      }
    }

    /** The position of the next c, or the end. */
    method FindChar(c: char, off: nat) returns (pos: nat)
      requires Valid() && bufSpos <= off <= bufEpos
      ensures off <= pos <= bufEpos && (pos < bufEpos ==> Bytes()[pos - bufSpos] == c)
      ensures forall j :: off - bufSpos <= j < pos - bufSpos ==> Bytes()[j] != c
    {
      pos := off;
      while pos != bufEpos && buf[pos] != c
        invariant off <= pos <= bufEpos
        invariant forall j :: off - bufSpos <= j < pos - bufSpos ==> Bytes()[j] != c
        decreases bufEpos - pos
      {
        pos := pos + 1;
      }
    }

    method MatchHere(s: string, pos: nat) returns (r: bool)
      requires Valid() && bufSpos <= pos <= bufEpos
      ensures r == MatchAt(Bytes(), s, pos - bufSpos)
    {
      r := StartWith(pos, bufEpos, s);
      if |s| <= bufEpos - pos {
        SliceOfBytes(pos - bufSpos, pos - bufSpos + |s|);
      }
    }

    method BufFind(s: string) returns (pos: nat)
      requires Valid() && s != ""
      ensures pos == FindIn(Bytes(), s)
    {
      hide FindIn, MatchAt;
      var off := bufSpos;
      while off < bufEpos
        invariant bufSpos <= off <= bufEpos
        invariant NoneBefore(Bytes(), s, off - bufSpos)
      {
        var p := FindChar(s[0], off);
        SkipOthers(Bytes(), s, off - bufSpos, p - bufSpos);
        if |s| > bufEpos - p {
          NoneAtAll(Bytes(), s, p - bufSpos);
          return BufSize();
        }
        var found := MatchHere(s, p);
        if found {
          FindFirst(Bytes(), s, p - bufSpos);
          return p - bufSpos;
        }
        off := p + 1;
      }
      NoneAtAll(Bytes(), s, off - bufSpos);
      return BufSize();
    }

    method BufAppend(data: string)
      requires Valid()
      modifies this`buf, this`bufSpos, this`bufEpos, buf
      ensures Valid() && (buf == old(buf) || fresh(buf))
      ensures Bytes() == old(Bytes()) + data
    {
      ghost var was := Bytes();
      var remaining := BufSize();
      MakeRoom();
      if remaining + |data| > buf.Length {
        Resize(remaining + |data|);
      }
      CopyIn(data);
      bufEpos := bufEpos + |data|;
      forall k | 0 <= k < |was| + |data| ensures Bytes()[k] == (was + data)[k] {
        if k >= |was| { assert buf[remaining + (k - |was|)] == data[k - |was|]; }
      }
    }

    /** Moves the bytes to the beginning, unless they are there. */
    method MakeRoom()
      requires Valid()
      modifies this`bufSpos, this`bufEpos, buf
      ensures Valid() && bufSpos == 0 && bufEpos == |old(Bytes())|
      ensures forall k :: 0 <= k < bufEpos ==> buf[k] == old(Bytes())[k]
    {
      var remaining := BufSize();
      if remaining > 0 && bufSpos > 0 {
        ShiftDown();
      }
      bufSpos, bufEpos := 0, remaining;
    }

    method ShiftDown()
      requires Valid() && bufSpos > 0
      modifies buf
      ensures forall k :: 0 <= k < BufSize() ==> buf[k] == old(buf[bufSpos + k])
    {
      for i := 0 to BufSize()
        invariant forall k :: 0 <= k < i ==> buf[k] == old(buf[bufSpos + k])
        invariant forall k :: bufSpos + i <= k < buf.Length ==> buf[k] == old(buf[k])
      {
        buf[i] := buf[bufSpos + i];
      }
    }

    method CopyIn(data: string)
      requires bufEpos + |data| <= buf.Length
      modifies buf
      ensures forall k :: 0 <= k < bufEpos ==> buf[k] == old(buf[k])
      ensures forall k :: 0 <= k < |data| ==> buf[bufEpos + k] == data[k]
    {
      for i := 0 to |data|
        invariant forall k :: 0 <= k < bufEpos ==> buf[k] == old(buf[k])
        invariant forall k :: 0 <= k < i ==> buf[bufEpos + k] == data[k]
      {
        buf[bufEpos + i] := data[i];
      }
    }

    method Resize(size: nat)
      requires size >= buf.Length
      modifies this`buf
      ensures fresh(buf) && buf.Length == size
      ensures forall k :: 0 <= k < old(buf.Length) ==> buf[k] == old(buf[k])
    {
      var bigger := new char[size];
      forall i | 0 <= i < buf.Length {
        bigger[i] := buf[i];
      }
      buf := bigger;
    }

    method BufErase(size: nat)
      requires Valid() && size <= BufSize()
      modifies this`bufSpos
      ensures Valid() && Bytes() == old(Bytes())[size..]
    {
      bufSpos := bufSpos + size;
    }

    // ----- a header line

    method ReadHeader(header: string) returns (ok: bool)
      modifies this`file, this`isValid
      ensures HeaderInto(old(file), header) == if ok then Some(file) else None
      ensures if ok then isValid == old(isValid) else !isValid
    {
      var parsed := ParseHeader(header);
      if parsed.None? {
        isValid := false;
        return false;
      }
      file := file.(headers := file.headers + [parsed.value]);
      var isType := StartWithCaseIgnore(header, CONTENT_TYPE);
      if isType {
        var value := TrimCopy(header[|CONTENT_TYPE|..]);
        file := file.(contentType := value);
        return true;
      }
      var text := DispositionParams(header);
      if text.Some? {
        ok := ReadNames(text.value);
        return ok;
      }
      return true;
    }

    method ReadNames(text: string) returns (ok: bool)
      modifies this`file, this`isValid
      ensures Named(old(file), Parameters(Split(text, ';'))) == if ok then Some(file) else None
      ensures if ok then isValid == old(isValid) else !isValid
    {
      var params := ParseDispositionParams(text);
      var it := Find(params, "name");
      if it.None? {
        isValid := false;
        return false;
      }
      file := file.(name := it.value);
      it := Find(params, "filename");
      if it.Some? {
        file := file.(filename := it.value);
      }
      it := Find(params, "filename*");
      if it.Some? {
        if StartsWithIgnoringCase(it.value, UTF_8) && |it.value| > |UTF_8| {
          var decoded := DecodePathComponent(it.value[|UTF_8|..]);
          file := file.(filename := decoded);
        } else {
          isValid := false;
          return false;
        }
      }
      return true;
    }

    // ----- the states

    /** One header line; state 3 after the blank one. */
    method TakeHeaderLine(pos: nat, receiver: FormReceiver) returns (ok: bool)
      requires Ready(receiver) && state == 2 && pos == FindIn(Bytes(), CRLF) < BufSize()
      modifies this`state, this`isValid, this`file, this`bufSpos, receiver
      ensures ok ==> Ready(receiver) && state == if pos == 0 then 3 else 2
      ensures HeaderLine(old(View(receiver)), pos) == if ok then Some(View(receiver)) else None
    {
      hide HeaderInto, FindIn;
      if pos == 0 {
        ok := receiver.OnHeader(file);
        if !ok {
          isValid := false;
          return;
        }
        BufErase(|CRLF|);
        state := 3;
      } else {
        var header := buf[bufSpos..bufSpos + pos];
        assert header == Bytes()[..pos];
        ok := ReadHeader(header);
        if ok {
          BufErase(pos + |CRLF|);
        }
      }
    }

    method HeaderState(receiver: FormReceiver) returns (outcome: Outcome)
      requires Ready(receiver) && state == 2 && Bytes() != ""
      modifies this`state, this`isValid, this`file, this`bufSpos, receiver
      ensures Follows(StepOnce(old(View(receiver)), boundary), outcome, receiver)
    {
      hide FindIn, HeaderLine;
      var pos := BufFind(CRLF);
      if pos > HEADER_MAX_LENGTH {
        return Exit(false);
      }
      ghost var start := HeaderLines(View(receiver));
      while pos < BufSize()
        invariant Ready(receiver) && state == 2 && pos == FindIn(Bytes(), CRLF)
        invariant HeaderLines(View(receiver)) == start
        decreases BufSize()
      {
        var ok := TakeHeaderLine(pos, receiver);
        if !ok {
          return Exit(false);
        }
        if state == 3 {
          break;
        }
        pos := BufFind(CRLF);
      }
      return if state != 3 then Exit(true) else Continue;
    }

    /** Hands over the first len bytes. */
    method Deliver(len: nat, receiver: FormReceiver)
      requires Ready(receiver) && state == 3 && len <= BufSize()
      modifies receiver
      ensures Ready(receiver) && receiver.parts == AddContent(old(receiver.parts), Bytes()[..len])
    {
      SliceOfBytes(0, len);
      receiver.OnContent(buf[bufSpos..bufSpos + len]);
    }

    method BodyState(receiver: FormReceiver) returns (outcome: Outcome)
      requires Ready(receiver) && state == 3 && crlfDashBoundary != ""
      modifies this`state, this`isValid, this`file, this`bufSpos, receiver
      ensures Follows(BodyOnce(old(View(receiver)), crlfDashBoundary), outcome, receiver)
    {
      hide FindIn, AddContent, Opening, Delimiter;
      if |crlfDashBoundary| > BufSize() {
        return Exit(true);
      }
      var pos := BufFind(crlfDashBoundary);
      if pos < BufSize() {
        Deliver(pos, receiver);
        BufErase(pos + |crlfDashBoundary|);
        state := 4;
        return Continue;
      } else {
        var len := BufSize() - |crlfDashBoundary|;
        if len > 0 {
          Deliver(len, receiver);
          BufErase(len);
        }
        return Exit(true);
      }
    }

    method BoundaryState(receiver: FormReceiver) returns (outcome: Outcome)
      requires Ready(receiver) && state == 4 && Bytes() != ""
      modifies this`state, this`isValid, this`file, this`bufSpos, receiver
      ensures Follows(StepOnce(old(View(receiver)), boundary), outcome, receiver)
    {
      if |CRLF| > BufSize() {
        return Exit(true);
      }
      var r := BufStartWith(CRLF);
      if r {
        BufErase(|CRLF|);
        state := 1;
        return Continue;
      }
      if |DASH| > BufSize() {
        return Exit(true);
      }
      r := BufStartWith(DASH);
      if r {
        BufErase(|DASH|);
        isValid := true;
        BufErase(BufSize());
        return Continue;
      }
      return Exit(true);
    }

    /** The outcome of a state, and the state after it, are those of a step. */
    ghost predicate Follows(step: Step, outcome: Outcome, receiver: FormReceiver)
      reads this, buf, receiver
    {
      match step
      case Go(q) => outcome == Continue && Ready(receiver) && View(receiver) == q
      case Return(q) => outcome == Exit(true) && Ready(receiver) && View(receiver) == q
      case Fail => outcome == Exit(false)
    }

    method TakeStep(receiver: FormReceiver) returns (outcome: Outcome)
      requires Ready(receiver) && Bytes() != ""
      modifies this`state, this`isValid, this`file, this`bufSpos, receiver
      ensures Follows(StepOnce(old(View(receiver)), boundary), outcome, receiver)
    {
      hide FindIn, HeaderLines, BodyOnce;
      match state {
        case 0 =>
          var pos := BufFind(dashBoundaryCrlf);
          if pos == BufSize() {
            return Exit(true);
          }
          BufErase(pos + |dashBoundaryCrlf|);
          state := 1;
          return Continue;
        case 1 =>
          file := BLANK;
          state := 2;
          return Continue;
        case 2 => outcome := HeaderState(receiver);
        case 3 => outcome := BodyState(receiver);
        case _ => outcome := BoundaryState(receiver);
      }
    }

    /** One chunk. It succeeds exactly when the specification does, with the same state and the same parts. */
    method Parse(data: string, receiver: FormReceiver) returns (ok: bool)
      requires Ready(receiver)
      modifies this, buf, receiver
      ensures buf == old(buf) || fresh(buf)
      ensures var (next, success) := Feed(old(View(receiver)), data, boundary);
              ok == success && (ok ==> Ready(receiver) && View(receiver) == next)
    {
      hide StepOnce;
      BufAppend(data);
      ghost var start := Run(View(receiver), boundary);
      ghost var now := buf;
      while BufSize() > 0
        invariant buf == now && Ready(receiver)
        invariant Run(View(receiver), boundary) == start
        decreases BufSize(), if state == 1 then 1 else 0
      {
        var outcome := TakeStep(receiver);
        if outcome.Exit? {
          return outcome.ok;
        }
      }
      return true;
    }
  }

  /** The multipart side of reading a request: every chunk of the body is parsed, and at the end the parser
      must be valid. */
  method ReadFormData(boundary: string, chunks: seq<string>) returns (ok: bool, parts: seq<Part>)
    ensures var (p, success) := FeedAll(START, chunks, boundary);
            ok == (success && p.valid) && (ok ==> parts == p.parts)
    ensures forall items: seq<Item> ::
              items != [] && BoundaryOk(boundary) && SafeItems(items, boundary)
              && Concat(chunks) == Serialized(items, boundary)
              ==> (ok <==> |items| <= 1024) && (ok ==> parts == ParsedAll(items))
    ensures forall ds: seq<Dressed> ::
              ds != [] && BoundaryOk(boundary) && AllSound(ds, boundary) && AllShort(ds)
              && Concat(chunks) == Closed(RawsOf(ds), boundary) + CRLF
              ==> (ok <==> |ds| <= 1024) && (ok ==> parts == PartsOf(ds))
  {
    hide Run, Serialized, Closed, RawsOf, PartsOf, ParsedAll, AllSound, AllShort, SafeItems, BoundaryOk, Quiet;
    forall items: seq<Item> |
      items != [] && BoundaryOk(boundary) && SafeItems(items, boundary) && Concat(chunks) == Serialized(items, boundary)
      ensures var (p, success) := FeedAll(START, chunks, boundary);
              (success <==> |items| <= FORM_DATA_MAX_COUNT) && (success ==> p.valid && p.parts == ParsedAll(items))
    {
      MultipartRoundTripIff(items, boundary, chunks);
    }
    forall ds: seq<Dressed> |
      ds != [] && BoundaryOk(boundary) && AllSound(ds, boundary) && AllShort(ds)
      && Concat(chunks) == Closed(RawsOf(ds), boundary) + CRLF
      ensures var (p, success) := FeedAll(START, chunks, boundary);
              (success <==> |ds| <= FORM_DATA_MAX_COUNT) && (success ==> p.valid && p.parts == PartsOf(ds))
    {
      LineEndIsQuiet();
      OtherFieldsDelivered(ds, boundary, CRLF, chunks);
    }
    var parser := new FormDataParser(boundary);
    var receiver := new FormReceiver();
    assert parser.View(receiver) == START;
    for i := 0 to |chunks|
      invariant fresh(parser) && fresh(receiver) && fresh(parser.buf) && parser.Ready(receiver)
      invariant FeedAll(START, chunks, boundary) == FeedAll(parser.View(receiver), chunks[i..], boundary)
    {
      assert chunks[i..][0] == chunks[i] && chunks[i..][1..] == chunks[i + 1..];
      ok := parser.Parse(chunks[i], receiver);
      if !ok {
        return false, [];
      }
    }
    return parser.isValid, receiver.parts;
  }

  ghost predicate NoneBefore(t: string, s: string, n: nat) {
    forall j :: 0 <= j < n ==> !MatchAt(t, s, j)
  }

  /** A position with another character is no match. */
  lemma SkipOthers(t: string, s: string, i: nat, n: nat)
    requires s != "" && i <= n <= |t| && NoneBefore(t, s, i) && forall j :: i <= j < n ==> t[j] != s[0]
    ensures NoneBefore(t, s, n)
  {
    forall j | i <= j < n ensures !MatchAt(t, s, j) {
      if j + |s| <= |t| {
        assert t[j..j + |s|][0] == t[j];
      }
    }
  }

  lemma NoneAtAll(t: string, s: string, n: nat)
    requires s != "" && NoneBefore(t, s, n) && |s| > |t| - n
    ensures FindIn(t, s) == |t|
  {
    FindNone(t, s);
  }

  method StartWithCaseIgnore(a: string, b: string) returns (r: bool)
    ensures r == StartsWithIgnoringCase(a, b)
  {
    if |a| < |b| {
      return false;
    }
    for i := 0 to |b|
      invariant forall j :: 0 <= j < i ==> ToLower(a[..|b|][j]) == ToLower(b[j])
    {
      if ToLower(a[i]) != ToLower(b[i]) {
        assert ToLower(a[..|b|][i]) != ToLower(b[i]);
        return false;
      }
    }
    return true;
  }

  method TrimDoubleQuotesCopy(s: string) returns (t: string)
    ensures t == Unquoted(s)
  {
    if |s| >= 2 && s[0] == '"' && s[|s| - 1] == '"' {
      return s[1..|s| - 1];
    }
    return s;
  }

  method ParseDispositionParams(s: string) returns (params: seq<Header>)
    ensures params == Parameters(Split(s, ';'))
  {
    hide Split, Unquoted;
    var cache: set<string> := {};
    params := [];
    var parts := SplitLoop(s, ';');
    for i := 0 to |parts|
      invariant params == Parameters(parts[..i])
      invariant forall kv :: kv in cache <==> kv in parts[..i]
    {
      var kv := parts[i];
      assert parts[..i + 1][..i] == parts[..i] && parts[..i + 1] == parts[..i] + [kv];
      if kv !in cache {
        cache := cache + {kv};
        var param := ParseParameter(kv);
        params := params + param;
      }
    }
    assert parts[..|parts|] == parts;
  }

  method ParseParameter(kv: string) returns (param: seq<Header>)
    ensures param == Parameter(kv)
  {
    hide Split, Unquoted;
    var key, val := "", "";
    var parts := SplitLoop(kv, '=');
    PartsNotEmpty(kv, '=');
    for i := 0 to |parts|
      invariant key == if i == 0 then "" else parts[0]
      invariant val == if i <= 1 then "" else parts[i - 1]
    {
      if key == "" {
        key := parts[i];
      } else {
        val := parts[i];
      }
    }
    if key == "" {
      return [];
    }
    key := TrimDoubleQuotesCopy(key);
    val := TrimDoubleQuotesCopy(val);
    return [Header(key, val)];
  }

  lemma {:induction false} PartsNotEmpty(s: string, d: char)
    ensures forall i :: 0 <= i < |Split(s, d)| ==> Split(s, d)[i] != ""
    decreases |s|
  {
    var i := IndexOf(s, d);
    if i < |s| { PartsNotEmpty(s[i + 1..], d); }
  }
}
