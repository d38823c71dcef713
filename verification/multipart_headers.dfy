/** What the parser makes of the header lines the serializer writes. */
module MultipartHeaders {
  import opened Common
  import opened Text
  import opened Headers
  import opened MultipartSpec

  /** A character that is safe in a quoted name: the disposition is split at ';' and '=' and unquoted. */
  predicate IsPlainChar(c: char) {
    (IsSpaceOrTab(c) || IsFieldVchar(c)) && c != ';' && c != '=' && c != '"'
  }

  predicate IsPlainText(s: string) {
    forall i :: 0 <= i < |s| ==> IsPlainChar(s[i])
  }

  predicate PlainItem(item: Item) {
    IsPlainText(item.name) && IsPlainText(item.filename) && IsFieldValue(item.contentType)
  }

  /** name="..." or filename="..." */
  function Quoted(key: string, text: string): string {
    key + "=\"" + text + "\""
  }

  function DispositionValue(item: Item): string {
    FORM_DATA + " " + Quoted("name", item.name)
    + (if item.filename == "" then "" else "; " + Quoted("filename", item.filename))
  }

  lemma DispositionLineIs(item: Item)
    ensures DispositionLine(item) == CD_NAME + ": " + DispositionValue(item)
    ensures DispositionLine(item) == CONTENT_DISPOSITION + (" " + DispositionValue(item))
  {
    var n := " name=\"" + item.name + "\"";
    var f := if item.filename == "" then "" else "; filename=\"" + item.filename + "\"";
    hide Quoted;
    LedQuoted(" ", "name", item.name);
    LedQuoted("; ", "filename", item.filename);
    assert " name=\"" == " " + "name" + "=\"" && "; filename=\"" == "; " + "filename" + "=\"";
    Grouping(CONTENT_DISPOSITION, " ", FORM_DATA, Quoted("name", item.name), f);
    assert DispositionLine(item) == CONTENT_DISPOSITION + " " + FORM_DATA + n + f;
    assert CD_NAME + ": " == CONTENT_DISPOSITION + " ";
  }

  lemma LedQuoted(lead: string, key: string, text: string)
    ensures (lead + key + "=\"") + text + "\"" == lead + Quoted(key, text)
  {
  }

  lemma Grouping(cd: string, sp: string, fd: string, n: string, f: string)
    ensures cd + sp + fd + (sp + n) + f == (cd + sp) + (fd + sp + n + f) == cd + (sp + (fd + sp + n + f))
  {
  }

  lemma NamesAreTokens()
    ensures IsFieldName(CD_NAME) && IsFieldName(CT_NAME)
  {
  }

  lemma DispositionSettable(item: Item)
    requires PlainItem(item)
    ensures Settable(Header(CD_NAME, DispositionValue(item)))
  {
    NamesAreTokens();
    var v := DispositionValue(item);
    assert v[0] == 'f' && v[|v| - 1] == '"';
    forall i | 0 <= i < |v| ensures IsSpaceOrTab(v[i]) || IsFieldVchar(v[i]) {
    }
  }

  // ----- the parameters

  /** A trimmed part that has no delimiter is split off as it is, with or without a blank before it. */
  lemma OnePart(s: string, d: char)
    requires s != "" && Trimmed(s) && d !in s && d != ' '
    ensures Split(s, d) == [s] && Split(" " + s, d) == [s]
  {
    TrimIdentity(s);
    SplitOne(s, d);
    SplitOne(" " + s, d);
    assert (" " + s)[1..] == s;
  }

  lemma {:induction false} TwoParts(a: string, d: char, b: string)
    requires a != "" && b != "" && Trimmed(a) && Trimmed(b) && d !in a && d !in b && d != ' '
    ensures Split(a + [d] + b, d) == [a, b]
    ensures Split(a + [d] + (" " + b), d) == [a, b]
  {
    OnePart(a, d);
    OnePart(b, d);
    SplitConcat(a, d, b);
    SplitConcat(a, d, " " + b);
  }

  lemma InQuotes(text: string)
    requires IsPlainText(text)
    ensures var q := "\"" + text + "\"";
            Trimmed(q) && ';' !in q && '=' !in q && Unquoted(q) == text
  {
    var q := "\"" + text + "\"";
    forall c | c in q ensures c != ';' && c != '=' {
      var i :| 0 <= i < |q| && q[i] == c;
      if 0 < i < |q| - 1 { assert q[i] == text[i - 1]; }
    }
  }

  lemma QuotedParts(key: string, text: string)
    requires IsPlainText(text) && (key == "name" || key == "filename")
    ensures Parameter(Quoted(key, text)) == [Header(key, text)]
  {
    hide Split, Trimmed, Unquoted, IsPlainText;
    var q := "\"" + text + "\"";
    InQuotes(text);
    KeyIsPlain(key);
    TwoParts(key, '=', q);
    assert Quoted(key, text) == key + ['='] + q;
  }

  lemma KeyIsPlain(key: string)
    requires key == "name" || key == "filename"
    ensures key != "" && '=' !in key && Trimmed(key) && Unquoted(key) == key
  {
  }

  lemma QuotedIsOnePart(key: string, text: string)
    requires IsPlainText(text) && (key == "name" || key == "filename")
    ensures var kv := Quoted(key, text); kv != "" && Trimmed(kv) && ';' !in kv
  {
    var q := "\"" + text + "\"";
    InQuotes(text);
    assert Quoted(key, text) == key + ['='] + q;
    assert ';' !in key;
  }

  /** The value as the regular expression captures it. */
  function ParamText(item: Item): string {
    Quoted("name", item.name) + (if item.filename == "" then "" else "; " + Quoted("filename", item.filename))
  }

  lemma {:induction false} ParametersOf(item: Item)
    requires PlainItem(item)
    ensures Parameters(Split(ParamText(item), ';')) ==
            [Header("name", item.name)] + (if item.filename == "" then [] else [Header("filename", item.filename)])
  {
    hide Parameter, Split, Quoted;
    var n, f := Quoted("name", item.name), Quoted("filename", item.filename);
    QuotedIsOnePart("name", item.name);
    QuotedIsOnePart("filename", item.filename);
    QuotedParts("name", item.name);
    QuotedParts("filename", item.filename);
    if item.filename == "" {
      assert ParamText(item) == n;
      OnePart(n, ';');
      OneParameter(n);
    } else {
      assert ParamText(item) == n + [';'] + (" " + f);
      TwoParts(n, ';', f);
      assert n != f by { QuotedDiffer(item.name, item.filename); }
      TwoParameters(n, f);
    }
  }

  lemma QuotedDiffer(a: string, b: string)
    ensures Quoted("name", a) != Quoted("filename", b)
  {
    assert Quoted("name", a)[0] != Quoted("filename", b)[0];
  }

  lemma OneParameter(kv: string)
    ensures Parameters([kv]) == Parameter(kv)
  {
    assert [kv][..0] == [];
  }

  lemma TwoParameters(a: string, b: string)
    requires a != b
    ensures Parameters([a, b]) == Parameter(a) + Parameter(b)
  {
    OneParameter(a);
    assert [a, b][..1] == [a];
  }

  // ----- the header lines

  lemma SameCase(s: string, prefix: string)
    ensures StartsWithIgnoringCase(prefix + s, prefix) && (prefix + s)[|prefix|..] == s
  {
    assert (prefix + s)[..|prefix|] == prefix;
  }

  lemma SkipOneSpace(s: string)
    requires s != "" && !IsSpace(s[0])
    ensures SkipSpace(" " + s) == s && SkipSpace(s) == s
  {
    assert (" " + s)[1..] == s;
  }

  /** What the regular expression captures of a written disposition. */
  lemma CapturedParams(item: Item)
    requires PlainItem(item)
    ensures DispositionParams(DispositionLine(item)) == Some(ParamText(item))
  {
    hide StartsWithIgnoringCase, SkipSpace;
    var v, p := DispositionValue(item), ParamText(item);
    DispositionLineIs(item);
    SameCase(" " + v, CONTENT_DISPOSITION);
    ValueIs(item);
    SkipOneSpace(v);
    SameCase(" " + p, FORM_DATA);
    SkipOneSpace(p);
  }

  lemma ValueIs(item: Item)
    ensures DispositionValue(item) == FORM_DATA + (" " + ParamText(item))
    ensures DispositionValue(item)[0] == 'f' && ParamText(item)[0] == 'n'
  {
  }

  lemma NotAContentType(item: Item)
    ensures !StartsWithIgnoringCase(DispositionLine(item), CONTENT_TYPE)
  {
    var s := DispositionLine(item);
    DispositionLineIs(item);
    assert s[8] == CD_NAME[8] == 'D';
    assert CONTENT_TYPE[8] == 'T';
    if |s| >= |CONTENT_TYPE| {
      assert s[..|CONTENT_TYPE|][8] == s[8];
    }
  }

  lemma FindNames(name: string, filename: string)
    ensures var one := [Header("name", name)];
            Find(one, "name") == Some(name) && Find(one, "filename") == None && Find(one, "filename*") == None
    ensures var two := [Header("name", name), Header("filename", filename)];
            && Find(two, "name") == Some(name) && Find(two, "filename") == Some(filename)
            && Find(two, "filename*") == None
  {
    assert "name"[0] != "filename"[0] && "name"[0] != "filename*"[0] && |"filename"| != |"filename*"|;
    assert [Header("name", name)][1..] == [];
    assert [Header("name", name), Header("filename", filename)][1..] == [Header("filename", filename)];
    assert [Header("filename", filename)][1..] == [];
  }

  /** Whatever was read before, a written disposition gives back the names and a written type the type. */
  lemma {:induction false} ReadDisposition(file: Part, item: Item)
    requires PlainItem(item)
    ensures HeaderInto(file, DispositionLine(item)) ==
            Some(file.(name := item.name, headers := file.headers + [Stored(CD_NAME, DispositionValue(item))],
                       filename := if item.filename == "" then file.filename else item.filename))
  {
    hide Settable, ParseLine, StartsWithIgnoringCase, DispositionParams, Parameters, Find, DispositionLine,
         Stored, DispositionValue, ParamText;
    DispositionLineIs(item);
    DispositionSettable(item);
    ParseOfLine(Header(CD_NAME, DispositionValue(item)));
    NotAContentType(item);
    CapturedParams(item);
    ParametersOf(item);
    FindNames(item.name, item.filename);
    assert [Header("name", item.name)] + [] == [Header("name", item.name)];
    assert [Header("name", item.name)] + [Header("filename", item.filename)] ==
           [Header("name", item.name), Header("filename", item.filename)];
  }

  lemma {:induction false} ReadContentType(file: Part, item: Item)
    requires PlainItem(item) && item.contentType != ""
    ensures HeaderInto(file, ContentTypeLine(item)) ==
            Some(file.(contentType := item.contentType, headers := file.headers + [Stored(CT_NAME, item.contentType)]))
  {
    hide ParseLine, Stored;
    NamesAreTokens();
    ParseOfLine(Header(CT_NAME, item.contentType));
    assert ContentTypeLine(item) == CT_NAME + ": " + item.contentType;
    assert ContentTypeLine(item) == CONTENT_TYPE + (" " + item.contentType);
    SameCase(" " + item.contentType, CONTENT_TYPE);
    BlankBefore(item.contentType);
  }

  lemma BlankBefore(s: string)
    requires s != "" && Trimmed(s)
    ensures Trim(" " + s) == s
  {
    TrimIdentity(s);
    assert (" " + s)[1..] == s;
  }

  /** No header line contains a carriage return. */
  lemma LinesHaveNoCr(item: Item)
    requires PlainItem(item)
    ensures forall i :: 0 <= i < |DispositionLine(item)| ==> DispositionLine(item)[i] != '\r'
    ensures forall i :: 0 <= i < |ContentTypeLine(item)| ==> ContentTypeLine(item)[i] != '\r'
    ensures DispositionLine(item) != "" && ContentTypeLine(item) != ""
  {
    DispositionLineIs(item);
    DispositionSettable(item);
    NamesAreTokens();
    NoCrInside(Header(CD_NAME, DispositionValue(item)));
    NoCrInside(Header(CT_NAME, item.contentType));
    assert ContentTypeLine(item) == CT_NAME + ": " + item.contentType;
  }

  // ----- any header line

  predicate AllSpace(s: string) {
    forall i :: 0 <= i < |s| ==> IsSpace(s[i])
  }

  /** The line is a form-data disposition: its parts are the field name, blanks, "form-data;", blanks, and the
      parameters. */
  predicate FormDataParts(line: string, name: string, a: string, kind: string, c: string, params: string) {
    && line == name + ":" + (a + (kind + (c + params)))
    && EqualIgnoringCase(name, "Content-Disposition") && EqualIgnoringCase(kind, "form-data;")
    && AllSpace(a) && AllSpace(c) && (params == "" || !IsSpace(params[0]))
  }

  ghost predicate IsFormData(line: string, params: string) {
    exists name, a, kind, c :: FormDataParts(line, name, a, kind, c, params)
  }

  lemma {:induction false} SkipSpaceIs(a: string, s: string)
    requires AllSpace(a) && (s == "" || !IsSpace(s[0]))
    ensures SkipSpace(a + s) == s
  {
    if a == "" {
      assert a + s == s;
    } else {
      assert (a + s)[1..] == a[1..] + s;
      SkipSpaceIs(a[1..], s);
    }
  }

  lemma {:induction false} SkipSpaceSplits(s: string) returns (a: string)
    ensures s == a + SkipSpace(s) && AllSpace(a) && (SkipSpace(s) == "" || !IsSpace(SkipSpace(s)[0]))
  {
    if s != "" && IsSpace(s[0]) {
      a := SkipSpaceSplits(s[1..]);
      a := [s[0]] + a;
    } else {
      a := "";
    }
  }

  /** What the regular expression matches and captures, both ways. */
  lemma FormDataIff(line: string, params: string)
    ensures DispositionParams(line) == Some(params) <==> IsFormData(line, params)
  {
    if DispositionParams(line) == Some(params) {
      FormDataFound(line, params);
    }
    if name, a, kind, c :| FormDataParts(line, name, a, kind, c, params) {
      FormDataCaptured(line, name, a, kind, c, params);
    }
  }

  lemma CaseOfColon(name: string, s: string)
    requires |s| == |name| + 1
    ensures EqualIgnoringCase(s, name + ":") <==> EqualIgnoringCase(s[..|name|], name) && s[|name|] == ':'
  {
    var t := name + ":";
    assert forall i :: 0 <= i < |name| ==> t[i] == name[i] && s[..|name|][i] == s[i];
    if EqualIgnoringCase(s, t) {
      assert ToLower(s[|name|]) == ToLower(t[|name|]);
    }
  }

  lemma FormDataFound(line: string, params: string)
    requires DispositionParams(line) == Some(params)
    ensures IsFormData(line, params)
  {
    hide SkipSpace, EqualIgnoringCase;
    var n := |CONTENT_DISPOSITION|;
    CaseOfColon("Content-Disposition", line[..n]);
    var name, rest := line[..n - 1], line[n..];
    assert line[..n][..n - 1] == name;
    assert line == name + ":" + rest;
    var a := SkipSpaceSplits(rest);
    var s := SkipSpace(rest);
    var kind, more := s[..|FORM_DATA|], s[|FORM_DATA|..];
    assert s == kind + more;
    var c := SkipSpaceSplits(more);
    assert FormDataParts(line, name, a, kind, c, params);
  }

  lemma FormDataCaptured(line: string, name: string, a: string, kind: string, c: string, params: string)
    requires FormDataParts(line, name, a, kind, c, params)
    ensures DispositionParams(line) == Some(params)
  {
    hide SkipSpace, EqualIgnoringCase;
    var n := |CONTENT_DISPOSITION|;
    var rest := a + (kind + (c + params));
    assert |name| == n - 1 && |kind| == |FORM_DATA| by { SameLengths(name, kind); }
    assert line[..n] == name + ":" && line[n..] == rest;
    assert line[..n][..n - 1] == name;
    CaseOfColon("Content-Disposition", line[..n]);
    FirstNotSpace(kind);
    assert (kind + (c + params))[0] == kind[0];
    SkipSpaceIs(a, kind + (c + params));
    assert (kind + (c + params))[..|FORM_DATA|] == kind && (kind + (c + params))[|FORM_DATA|..] == c + params;
    SkipSpaceIs(c, params);
  }

  lemma SameLengths(name: string, kind: string)
    requires EqualIgnoringCase(name, "Content-Disposition") && EqualIgnoringCase(kind, "form-data;")
    ensures |name| == |CONTENT_DISPOSITION| - 1 && |kind| == |FORM_DATA|
  {
  }

  lemma FirstNotSpace(kind: string)
    requires EqualIgnoringCase(kind, "form-data;")
    ensures kind != "" && !IsSpace(kind[0])
  {
    assert ToLower(kind[0]) == ToLower("form-data;"[0]);
  }

  /** Whether a line is about the type is decided by its field name. */
  lemma ContentTypeIff(line: string)
    requires ParseLine(line).Some?
    ensures StartsWithIgnoringCase(line, CONTENT_TYPE) <==>
            EqualIgnoringCase(ParseLine(line).value.name, "Content-Type")
  {
    hide EqualIgnoringCase;
    var t := TrimRight(line);
    var p := IndexOf(t, ':');
    TrimRightIsPrefix(line);
    NameBeforeColon(line);
    var n := |CONTENT_TYPE|;
    if |line| >= n {
      CaseOfColon("Content-Type", line[..n]);
      assert line[..n][..n - 1] == line[..n - 1];
      if StartsWithIgnoringCase(line, CONTENT_TYPE) {
        NoColonIn(line[..n - 1]);
        assert forall j :: 0 <= j < n - 1 ==> line[j] == line[..n - 1][j];
        FirstColon(line, n - 1, p);
      }
    }
    if EqualIgnoringCase(line[..p], "Content-Type") {
      SameLength(line[..p], "Content-Type");
    }
  }

  lemma SameLength(a: string, b: string)
    requires EqualIgnoringCase(a, b)
    ensures |a| == |b|
  {
  }

  lemma NoColonIn(name: string)
    requires EqualIgnoringCase(name, "Content-Type")
    ensures forall i :: 0 <= i < |name| ==> name[i] != ':'
  {
    forall i | 0 <= i < |name| ensures name[i] != ':' {
      assert ToLower(name[i]) == ToLower("Content-Type"[i]) != ToLower(':');
    }
  }

  /** Two positions of the first colon are the same. */
  lemma FirstColon(s: string, i: nat, p: nat)
    requires i < |s| && p < |s| && s[i] == s[p] == ':'
    requires (forall j :: 0 <= j < i ==> s[j] != ':') && forall j :: 0 <= j < p ==> s[j] != ':'
    ensures i == p
  {
  }

  lemma {:induction false} TrimRightIsPrefix(s: string)
    ensures TrimRight(s) <= s
  {
    if s != "" && IsSpaceOrTab(s[|s| - 1]) { TrimRightIsPrefix(s[..|s| - 1]); }
  }

  lemma NameBeforeColon(line: string)
    requires ParseLine(line).Some?
    ensures var p := IndexOf(TrimRight(line), ':');
            p < |line| && line[p] == ':' && (forall j :: 0 <= j < p ==> line[j] != ':')
            && ParseLine(line).value.name == line[..p]
  {
    TrimRightIsPrefix(line);
    var t := TrimRight(line);
    var p := IndexOf(t, ':');
    assert t[..p] == line[..p];
  }

  /** The file name that "filename*" carries: the encoding must be UTF-8, the language empty. */
  predicate ExtendedName(value: string) {
    |value| > 7 && EqualIgnoringCase(value[..7], "UTF-8''")
  }

  /** The value found for a key is that of the first parameter of this name. */
  ghost predicate FirstOf(params: seq<Header>, key: string, value: string) {
    exists i :: 0 <= i < |params| && params[i] == Header(key, value) && forall j :: 0 <= j < i ==> params[j].name != key
  }

  lemma {:induction false} FindIff(params: seq<Header>, key: string, value: string)
    ensures Find(params, key) == Some(value) <==> FirstOf(params, key, value)
    ensures Find(params, key) == None <==> forall i :: 0 <= i < |params| ==> params[i].name != key
  {
    if params != [] {
      var rest := params[1..];
      FindIff(rest, key, value);
      if params[0].name == key {
        if params[0].value == value { assert params[0] == Header(key, value); }
      } else {
        if i :| 0 <= i < |rest| && rest[i] == Header(key, value) && forall j :: 0 <= j < i ==> rest[j].name != key {
          assert params[i + 1] == rest[i];
          assert forall j :: 0 < j < i + 1 ==> params[j] == rest[j - 1];
        }
        if i :| 0 <= i < |params| && params[i] == Header(key, value)
                && forall j :: 0 <= j < i ==> params[j].name != key {
          assert rest[i - 1] == params[i];
          assert forall j :: 0 <= j < i - 1 ==> rest[j] == params[j + 1];
        }
        assert forall j :: 0 < j < |params| ==> params[j] == rest[j - 1];
      }
    }
  }

  /** The parameters name the part: there is a name, and an extended file name only if it is a good one. */
  predicate NamesOk(params: seq<Header>) {
    var extended := Find(params, "filename*");
    Find(params, "name").Some? && (extended.Some? ==> ExtendedName(extended.value))
  }

  /** A line that the parser takes: a header field; and if it is a form-data disposition, one whose parameters
      name the part. Any other field is taken whatever it says. */
  ghost predicate Takeable(line: string) {
    && ParseLine(line).Some?
    && (EqualIgnoringCase(ParseLine(line).value.name, "Content-Type")
        || forall text :: IsFormData(line, text) ==> NamesOk(Parameters(Split(text, ';'))))
  }

  /** Exactly the takeable lines are taken, whatever was read before. */
  lemma TakenIff(file: Part, line: string)
    ensures HeaderInto(file, line).Some? <==> Takeable(line)
  {
    hide ParseLine, StartsWithIgnoringCase, DispositionParams, IsFormData, Parameters, Split, NamesOk, Named;
    if ParseLine(line).Some? {
      ContentTypeIff(line);
      var params := DispositionParams(line);
      forall text ensures params == Some(text) <==> IsFormData(line, text) { FormDataIff(line, text); }
      if params.Some? {
        NamedIs(file.(headers := file.headers + [ParseLine(line).value]), Parameters(Split(params.value, ';')));
      }
    }
  }

  /** What the parameters make of the part. */
  predicate NamedBy(f: Part, file: Part, params: seq<Header>) {
    var name, filename, extended := Find(params, "name"), Find(params, "filename"), Find(params, "filename*");
    && name == Some(f.name)
    && f.contentType == file.contentType && f.headers == file.headers && f.content == file.content
    && f.filename == if extended.Some? && |extended.value| >= 7 then DecodePath(extended.value[7..])
                     else if filename.Some? then filename.value
                     else file.filename
  }

  lemma NamedIs(file: Part, params: seq<Header>)
    ensures Named(file, params).Some? <==> NamesOk(params)
    ensures NamesOk(params) ==> NamedBy(Named(file, params).value, file, params)
  {
    hide Find, EqualIgnoringCase, DecodePath;
    assert UTF_8 == "UTF-8''";
  }

  /** What a taken line does to the part: the field joins its headers; a type line sets the type, a form-data
      disposition the names; any other line changes nothing else. */
  ghost predicate TakenAs(f: Part, file: Part, line: string, field: Header) {
    var g := file.(headers := file.headers + [field]);
    if EqualIgnoringCase(field.name, "Content-Type") then |line| >= 13 && f == g.(contentType := Trim(line[13..]))
    else if forall text :: !IsFormData(line, text) then f == g
    else forall text :: IsFormData(line, text) ==> NamedBy(f, g, Parameters(Split(text, ';')))
  }

  lemma TakenInto(file: Part, line: string)
    requires Takeable(line)
    ensures HeaderInto(file, line).Some? && TakenAs(HeaderInto(file, line).value, file, line, ParseLine(line).value)
  {
    hide ParseLine, StartsWithIgnoringCase, DispositionParams, IsFormData, Parameters, Split, NamesOk, Named, NamedBy,
         EqualIgnoringCase;
    TakenIff(file, line);
    ContentTypeIff(line);
    TypeIsLong(line);
    var params := DispositionParams(line);
    forall text ensures params == Some(text) <==> IsFormData(line, text) { FormDataIff(line, text); }
    if params.Some? {
      NamedIs(file.(headers := file.headers + [ParseLine(line).value]), Parameters(Split(params.value, ';')));
    }
  }

  lemma TypeIsLong(line: string)
    ensures |CONTENT_TYPE| == 13 && (StartsWithIgnoringCase(line, CONTENT_TYPE) ==> |line| >= 13)
  {
  }

  /** A line of any other field than the two, as it is written. */
  function FieldLine(h: Header): string {
    h.name + ": " + h.value
  }

  predicate OtherField(h: Header) {
    && Settable(h)
    && !EqualIgnoringCase(h.name, "Content-Type") && !EqualIgnoringCase(h.name, "Content-Disposition")
  }

  lemma ReadOther(file: Part, h: Header)
    requires OtherField(h)
    ensures HeaderInto(file, FieldLine(h)) == Some(file.(headers := file.headers + [Stored(h.name, h.value)]))
  {
    hide ParseLine, IsFormData, EqualIgnoringCase, Settable, Parameters, Split;
    ParseOfLine(h);
    var line := FieldLine(h);
    assert Stored(h.name, h.value).name == h.name;
    forall text ensures !IsFormData(line, text) { NotFormData(h, text); }
    TakenInto(file, line);
  }

  lemma NotFormData(h: Header, text: string)
    requires OtherField(h)
    ensures !IsFormData(FieldLine(h), text)
  {
    hide ParseLine, EqualIgnoringCase, Settable, FormDataParts;
    ParseOfLine(h);
    StoredName(h);
    if name, a, kind, c :| FormDataParts(FieldLine(h), name, a, kind, c, text) {
      FormDataField(FieldLine(h), name, a, kind, c, text);
    }
  }

  lemma FormDataField(line: string, name: string, a: string, kind: string, c: string, text: string)
    requires FormDataParts(line, name, a, kind, c, text) && ParseLine(line).Some?
    ensures EqualIgnoringCase(ParseLine(line).value.name, "Content-Disposition")
  {
    hide ParseLine, EqualIgnoringCase;
    NameBeforeColon(line);
    Beginning(name, a + (kind + (c + text)));
    NoColonInside(name);
    assert forall j :: 0 <= j < |name| ==> line[j] == name[j];
    FirstColon(line, |name|, IndexOf(TrimRight(line), ':'));
  }

  lemma StoredName(h: Header)
    ensures Stored(h.name, h.value).name == h.name
  {
  }

  lemma Beginning(name: string, rest: string)
    ensures (name + ":" + rest)[..|name|] == name && (name + ":" + rest)[|name|] == ':'
  {
  }

  lemma NoColonInside(name: string)
    requires EqualIgnoringCase(name, "Content-Disposition")
    ensures forall i :: 0 <= i < |name| ==> name[i] != ':'
  {
    forall i | 0 <= i < |name| ensures name[i] != ':' {
      assert ToLower(name[i]) == ToLower("Content-Disposition"[i]) != ToLower(':');
    }
  }

  // ----- any list of parameters

  /** A parameter of a disposition, with its value in quotes or not. */
  datatype Written = Written(key: string, text: string, quoted: bool)

  predicate PlainParam(w: Written) {
    && w.key != "" && Trimmed(w.key) && IsPlainText(w.key) && IsPlainText(w.text)
    && (w.quoted || (w.text != "" && Trimmed(w.text)))
  }

  function ValueText(w: Written): string {
    if w.quoted then "\"" + w.text + "\"" else w.text
  }

  function ParamPiece(w: Written): string {
    w.key + ['='] + ValueText(w)
  }

  function ParamList(ws: seq<Written>): string {
    if ws == [] then ""
    else if |ws| == 1 then ParamPiece(ws[0])
    else ParamList(ws[..|ws| - 1]) + [';'] + (" " + ParamPiece(ws[|ws| - 1]))
  }

  function ParamPieces(ws: seq<Written>): (ps: seq<string>)
    ensures |ps| == |ws| && forall i :: 0 <= i < |ws| ==> ps[i] == ParamPiece(ws[i])
  {
    seq(|ws|, i requires 0 <= i < |ws| => ParamPiece(ws[i]))
  }

  function ParamFields(ws: seq<Written>): (hs: seq<Header>)
    ensures |hs| == |ws| && forall i :: 0 <= i < |ws| ==> hs[i] == Header(ws[i].key, ws[i].text)
  {
    seq(|ws|, i requires 0 <= i < |ws| => Header(ws[i].key, ws[i].text))
  }

  lemma PlainHasNone(s: string)
    requires IsPlainText(s)
    ensures '=' !in s && ';' !in s && Unquoted(s) == s
  {
  }

  lemma OneParam(w: Written)
    requires PlainParam(w)
    ensures Parameter(ParamPiece(w)) == [Header(w.key, w.text)]
    ensures var kv := ParamPiece(w); kv != "" && Trimmed(kv) && ';' !in kv
  {
    hide Split, Trimmed, Unquoted, IsPlainText;
    PlainHasNone(w.key);
    PlainHasNone(w.text);
    InQuotes(w.text);
    TwoParts(w.key, '=', ValueText(w));
    PieceTrimmed(w.key, ValueText(w));
  }

  lemma PieceTrimmed(a: string, b: string)
    requires a != "" && b != "" && Trimmed(a) && Trimmed(b)
    ensures Trimmed(a + ['='] + b)
  {
    var s := a + ['='] + b;
    assert s[0] == a[0] && s[|s| - 1] == b[|b| - 1];
  }

  lemma {:induction false} SplitOfParams(ws: seq<Written>)
    requires ws != [] && forall i :: 0 <= i < |ws| ==> PlainParam(ws[i])
    ensures Split(ParamList(ws), ';') == ParamPieces(ws)
    decreases |ws|
  {
    hide Split, PlainParam, ParamPiece, Trimmed;
    var init, w := ws[..|ws| - 1], ws[|ws| - 1];
    OneParam(w);
    OnePart(ParamPiece(w), ';');
    if |ws| > 1 {
      SplitOfParams(init);
      SplitConcat(ParamList(init), ';', " " + ParamPiece(w));
    }
  }

  /** A parameter that is repeated exactly is counted once. */
  lemma {:induction false} RepeatedParameter(parts: seq<string>, kv: string)
    ensures Parameters(parts + [kv]) == if kv in parts then Parameters(parts) else Parameters(parts) + Parameter(kv)
  {
    assert (parts + [kv])[..|parts|] == parts;
  }

  lemma {:induction false} ParametersOfPieces(ws: seq<Written>)
    requires forall i :: 0 <= i < |ws| ==> PlainParam(ws[i])
    requires forall i, j :: 0 <= i < j < |ws| ==> ParamPiece(ws[i]) != ParamPiece(ws[j])
    ensures Parameters(ParamPieces(ws)) == ParamFields(ws)
    decreases |ws|
  {
    hide PlainParam, ParamPiece, Parameter, Parameters;
    if ws == [] {
      NoParameters();
      assert ParamPieces(ws) == [];
    } else {
      var init, w := ws[..|ws| - 1], ws[|ws| - 1];
      OneParam(w);
      ParametersOfPieces(init);
      assert ParamPieces(ws) == ParamPieces(init) + [ParamPiece(w)];
      RepeatedParameter(ParamPieces(init), ParamPiece(w));
    }
  }

  lemma NoParameters()
    ensures Parameters([]) == []
  {
  }

  /** Any list of different parameters is read as it was written, in order. */
  lemma {:induction false} ParameterListRead(ws: seq<Written>)
    requires ws != [] && forall i :: 0 <= i < |ws| ==> PlainParam(ws[i])
    requires forall i, j :: 0 <= i < j < |ws| ==> ParamPiece(ws[i]) != ParamPiece(ws[j])
    ensures Parameters(Split(ParamList(ws), ';')) == ParamFields(ws)
  {
    hide Split, Parameters, PlainParam, ParamPiece;
    SplitOfParams(ws);
    ParametersOfPieces(ws);
  }

  // ----- what is written

  /** The lines of an item, spelled out. */
  lemma {:induction false} WrittenLines(item: Item)
    ensures item.filename == "" ==>
              DispositionLine(item) == "Content-Disposition: form-data; name=\"" + item.name + "\""
    ensures item.filename != "" ==>
              DispositionLine(item) ==
              "Content-Disposition: form-data; name=\"" + item.name + "\"" + ("; filename=\"" + item.filename + "\"")
    ensures ContentTypeLine(item) == "Content-Type: " + item.contentType
  {
    var start := CONTENT_DISPOSITION + " " + FORM_DATA + " name=\"";
    assert start == "Content-Disposition: form-data; name=\"";
    assert CONTENT_TYPE + " " == "Content-Type: ";
  }

  /** Quotes are taken off a value exactly if it has one at each end. */
  lemma UnquotedIff(s: string, t: string)
    ensures s == "\"" + t + "\"" ==> Unquoted(s) == t
    ensures !(|s| >= 2 && s[0] == '"' && s[|s| - 1] == '"') ==> Unquoted(s) == s
  {
  }

  /** A parameter of any form: without an equals sign it has an empty value, with more than one the text after the
      last is its value, and with nothing but signs and blanks it is none. */
  lemma {:induction false} ParameterForms(kv: string, v: string)
    requires v != "" && Trimmed(v) && '=' !in v
    ensures Parameter(v) == [Header(Unquoted(v), "")]
    ensures Split(kv, '=') != [] ==>
              Parameter(kv + "=" + v) == [Header(Unquoted(Split(kv, '=')[0]), Unquoted(v))]
    ensures Split(kv, '=') == [] ==> Parameter(kv) == [] && Parameter(kv + "=" + v) == [Header(Unquoted(v), "")]
  {
    hide Split, Trimmed;
    OnePart(v, '=');
    SplitConcat(kv, '=', v);
    assert kv + "=" + v == kv + ['='] + v;
    assert Unquoted("") == "";
  }
}
