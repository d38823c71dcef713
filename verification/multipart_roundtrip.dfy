/** Serialized form data, with any other header fields in its parts, cut into chunks in any way, is parsed
    back to the same parts. */
module MultipartRoundTrip {
  import opened Common
  import opened Text
  import opened Headers
  import opened MultipartSpec
  import opened MultipartHeaders
  import opened MultipartBody
  import opened MultipartCutting

  // ----- items with other fields around their own

  /** An item and the fields before its disposition, after it, and after its content type. */
  datatype Dressed = Dressed(item: Item, before: seq<Header>, middle: seq<Header>, after: seq<Header>)

  function FieldLines(hs: seq<Header>): (lines: seq<string>)
    ensures |lines| == |hs| && forall i :: 0 <= i < |hs| ==> lines[i] == FieldLine(hs[i])
  {
    seq(|hs|, i requires 0 <= i < |hs| => FieldLine(hs[i]))
  }

  function TypeLines(item: Item): seq<string> {
    if item.contentType == "" then [] else [ContentTypeLine(item)]
  }

  function RawOf(d: Dressed): Raw {
    var lines := FieldLines(d.before) + [DispositionLine(d.item)] + FieldLines(d.middle) + TypeLines(d.item)
                 + FieldLines(d.after);
    Raw(lines, d.item.content)
  }

  function RawsOf(ds: seq<Dressed>): (raws: seq<Raw>)
    ensures |raws| == |ds| && forall i :: 0 <= i < |ds| ==> raws[i] == RawOf(ds[i])
  {
    seq(|ds|, i requires 0 <= i < |ds| => RawOf(ds[i]))
  }

  predicate AllOther(hs: seq<Header>) {
    forall i :: 0 <= i < |hs| ==> OtherField(hs[i])
  }

  /** A plain item and any other fields, whose content does not contain the delimiter. */
  ghost predicate Sound(d: Dressed, b: string) {
    && PlainItem(d.item) && AllOther(d.before) && AllOther(d.middle) && AllOther(d.after)
    && FreeOf(d.item.content, Delimiter(b))
  }

  ghost predicate AllSound(ds: seq<Dressed>, b: string) {
    forall i :: 0 <= i < |ds| ==> Sound(ds[i], b)
  }

  predicate AllShort(ds: seq<Dressed>) {
    forall i :: 0 <= i < |ds| ==> Short(RawOf(ds[i]))
  }

  /** The part as it is to be delivered: the item, and all fields in the order they came. */
  function PartOf(d: Dressed): Part {
    var fields := StoredAll(d.before) + [Stored(CD_NAME, DispositionValue(d.item))] + StoredAll(d.middle)
                  + (if d.item.contentType == "" then [] else [Stored(CT_NAME, d.item.contentType)])
                  + StoredAll(d.after);
    Part(d.item.name, d.item.filename, d.item.contentType, fields, d.item.content)
  }

  function PartsOf(ds: seq<Dressed>): (parts: seq<Part>)
    ensures |parts| == |ds| && forall i :: 0 <= i < |ds| ==> parts[i] == PartOf(ds[i])
  {
    seq(|ds|, i requires 0 <= i < |ds| => PartOf(ds[i]))
  }

  // ----- what their lines make of a part

  lemma {:induction false} FoldConcat(file: Part, a: seq<string>, c: seq<string>)
    ensures Fold(file, a + c) == match Fold(file, a) case None => None case Some(f) => Fold(f, c)
  {
    hide HeaderInto;
    if c == [] {
      assert a + c == a;
    } else {
      var init := c[..|c| - 1];
      FoldConcat(file, a, init);
      assert (a + c)[..|a + c| - 1] == a + init;
    }
  }

  lemma {:induction false} FoldOne(file: Part, line: string)
    ensures Fold(file, [line]) == HeaderInto(file, line)
  {
    hide HeaderInto;
    assert [line][..0] == [];
  }

  lemma {:induction false} FoldFields(file: Part, hs: seq<Header>)
    requires AllOther(hs)
    ensures Fold(file, FieldLines(hs)) == Some(file.(headers := file.headers + StoredAll(hs)))
    decreases |hs|
  {
    hide HeaderInto, OtherField, FieldLine, Stored;
    if hs == [] {
      assert file.headers + [] == file.headers;
      assert FieldLines(hs) == [];
    } else {
      var h, rest := hs[0], hs[1..];
      var f := file.(headers := file.headers + [Stored(h.name, h.value)]);
      ReadOther(file, h);
      FoldOne(file, FieldLine(h));
      assert FieldLines(hs) == [FieldLine(h)] + FieldLines(rest);
      FoldConcat(file, [FieldLine(h)], FieldLines(rest));
      FoldFields(f, rest);
      Assoc(file.headers, [Stored(h.name, h.value)], StoredAll(rest));
    }
  }

  lemma {:induction false} FoldIs(d: Dressed, b: string)
    requires Sound(d, b)
    ensures Fold(BLANK, RawOf(d).lines) == Some(PartOf(d).(content := "")) && Made(RawOf(d)) == PartOf(d)
  {
    hide HeaderInto, Fold, AllOther, PlainItem, FreeOf, Stored, DispositionLine, ContentTypeLine, DispositionValue;
    var item := d.item;
    var l0, l1, l2 := FieldLines(d.before), FieldLines(d.middle), FieldLines(d.after);
    var disp, types := [DispositionLine(item)], TypeLines(item);
    FoldFields(BLANK, d.before);
    var f0 := BLANK.(headers := [] + StoredAll(d.before));
    ReadDisposition(f0, item);
    FoldOne(f0, DispositionLine(item));
    var f1 := f0.(name := item.name, filename := item.filename,
                  headers := f0.headers + [Stored(CD_NAME, DispositionValue(item))]);
    FoldFields(f1, d.middle);
    var f2 := f1.(headers := f1.headers + StoredAll(d.middle));
    var f3 := FoldType(f2, item);
    FoldFields(f3, d.after);
    FoldConcat(BLANK, l0, disp);
    FoldConcat(BLANK, l0 + disp, l1);
    FoldConcat(BLANK, l0 + disp + l1, types);
    FoldConcat(BLANK, l0 + disp + l1 + types, l2);
    assert [] + StoredAll(d.before) == StoredAll(d.before);
  }

  lemma {:induction false} FoldType(file: Part, item: Item) returns (f: Part)
    requires PlainItem(item) && (item.contentType == "" ==> file.contentType == "")
    ensures f == file.(contentType := item.contentType,
                       headers := file.headers
                         + if item.contentType == "" then [] else [Stored(CT_NAME, item.contentType)])
    ensures Fold(file, TypeLines(item)) == Some(f)
  {
    hide HeaderInto, ContentTypeLine, Stored;
    if item.contentType == "" {
      assert file.headers + [] == file.headers;
      f := file;
    } else {
      ReadContentType(file, item);
      FoldOne(file, ContentTypeLine(item));
      f := file.(contentType := item.contentType, headers := file.headers + [Stored(CT_NAME, item.contentType)]);
    }
  }

  ghost predicate Real(lines: seq<string>) {
    forall i :: 0 <= i < |lines| ==> lines[i] != "" && NoCr(lines[i])
  }

  lemma RealConcat(a: seq<string>, c: seq<string>)
    requires Real(a) && Real(c)
    ensures Real(a + c)
  {
    hide NoCr;
  }

  lemma FieldsReal(hs: seq<Header>)
    requires AllOther(hs)
    ensures Real(FieldLines(hs))
  {
    hide OtherField, FieldLine, NoCr;
    forall i | 0 <= i < |hs| ensures FieldLine(hs[i]) != "" && NoCr(FieldLine(hs[i])) { FieldHasNoCr(hs[i]); }
  }

  lemma OwnLinesReal(item: Item)
    requires PlainItem(item)
    ensures Real([DispositionLine(item)]) && Real(TypeLines(item))
  {
    hide DispositionLine, ContentTypeLine, PlainItem;
    LinesHaveNoCr(item);
    NoCrIn(DispositionLine(item));
    NoCrIn(ContentTypeLine(item));
  }

  lemma {:induction false} SoundIsWell(d: Dressed, b: string)
    requires Sound(d, b)
    ensures WellFormed(RawOf(d), b) && Taken(RawOf(d))
  {
    hide Takeable, PlainItem, DispositionLine, TypeLines, FieldLines, FreeOf, NoCr, Fold, AllOther;
    FoldIs(d, b);
    FoldTaken(BLANK, RawOf(d).lines);
    var l0, l1, l2 := FieldLines(d.before), FieldLines(d.middle), FieldLines(d.after);
    var disp, types := [DispositionLine(d.item)], TypeLines(d.item);
    OwnLinesReal(d.item);
    FieldsReal(d.before);
    FieldsReal(d.middle);
    FieldsReal(d.after);
    RealConcat(l0, disp);
    RealConcat(l0 + disp, l1);
    RealConcat(l0 + disp + l1, types);
    RealConcat(l0 + disp + l1 + types, l2);
  }

  lemma NoCrIn(s: string)
    requires forall i :: 0 <= i < |s| ==> s[i] != '\r'
    ensures NoCr(s)
  {
  }

  lemma FieldHasNoCr(h: Header)
    requires OtherField(h)
    ensures FieldLine(h) != "" && NoCr(FieldLine(h))
  {
    hide Settable, EqualIgnoringCase;
    NoCrInside(h);
  }

  lemma {:induction false} AllSoundWell(ds: seq<Dressed>, b: string)
    requires AllSound(ds, b)
    ensures AllWellFormed(RawsOf(ds), b) && MadeAll(RawsOf(ds)) == PartsOf(ds)
    ensures AllShort(ds) <==> AllGood(RawsOf(ds))
    ensures AllShort(ds) ==> AllSafe(RawsOf(ds), b)
  {
    hide Sound, WellFormed, Taken, Short, RawOf, Made, PartOf;
    var raws := RawsOf(ds);
    forall i | 0 <= i < |ds| ensures WellFormed(raws[i], b) && Taken(raws[i]) && Made(raws[i]) == PartOf(ds[i]) {
      SoundIsWell(ds[i], b);
      FoldIs(ds[i], b);
    }
    assert forall i :: 0 <= i < |ds| ==> MadeAll(raws)[i] == PartsOf(ds)[i];
  }

  /** Other fields do no harm and get lost nowhere: for all plain items with any settable fields of other names
      anywhere in their headers, and every cutting, the parts delivered are the items with those fields added, in
      the order in which they came. */
  lemma {:induction false} OtherFieldsDelivered(ds: seq<Dressed>, b: string, e: string, chunks: seq<string>)
    requires ds != [] && BoundaryOk(b) && AllSound(ds, b) && AllShort(ds) && Quiet(e)
    requires Concat(chunks) == Closed(RawsOf(ds), b) + e
    ensures var (p, ok) := FeedAll(START, chunks, b);
            && (ok <==> |ds| <= 1024)
            && (ok ==> p.valid && p.parts == PartsOf(ds))
  {
    hide AllSound, AllShort, BoundaryOk, Quiet, Closed, FeedAll, Concat, MadeAll, PartsOf;
    AllSoundWell(ds, b);
    BodyRoundTripIff(RawsOf(ds), b, e, chunks);
  }

  /** Every cutting of them succeeds if and only if all their lines are below the limit. */
  lemma {:induction false} OtherFieldsEveryCuttingIff(ds: seq<Dressed>, b: string)
    requires ds != [] && |ds| <= 1024 && BoundaryOk(b) && AllSound(ds, b)
    ensures (forall chunks :: Concat(chunks) == Closed(RawsOf(ds), b) + CRLF ==> FeedAll(START, chunks, b).1)
            <==> AllShort(ds)
  {
    hide AllSound, AllShort, BoundaryOk, Closed, FeedAll, Concat, MadeAll, PartsOf;
    AllSoundWell(ds, b);
    EveryCuttingSucceedsIff(RawsOf(ds), b);
  }

  // ----- what the serializer writes

  function Bare(item: Item): Dressed {
    Dressed(item, [], [], [])
  }

  function Bares(items: seq<Item>): (ds: seq<Dressed>)
    ensures |ds| == |items| && forall i :: 0 <= i < |items| ==> ds[i] == Bare(items[i])
  {
    seq(|items|, i requires 0 <= i < |items| => Bare(items[i]))
  }

  predicate ShortLines(item: Item) {
    |DispositionLine(item)| < 8192 && |ContentTypeLine(item)| < 8192
  }

  /** A plain item whose header lines are below the limit and whose content does not contain the delimiter. */
  ghost predicate SafeItem(item: Item, b: string) {
    PlainItem(item) && ShortLines(item) && FreeOf(item.content, Delimiter(b))
  }

  ghost predicate SafeItems(items: seq<Item>, b: string) {
    forall i :: 0 <= i < |items| ==> SafeItem(items[i], b)
  }

  function ParsedAll(items: seq<Item>): seq<Part> {
    PartsOf(Bares(items))
  }

  lemma BareLines(item: Item)
    ensures RawOf(Bare(item)).lines == [DispositionLine(item)] + TypeLines(item)
  {
    hide DispositionLine, ContentTypeLine;
    assert FieldLines([]) == [];
  }

  lemma ItemsAreSound(items: seq<Item>, b: string)
    requires SafeItems(items, b)
    ensures AllSound(Bares(items), b) && AllShort(Bares(items))
  {
    hide PlainItem, FreeOf, DispositionLine, ContentTypeLine, RawOf;
    forall i | 0 <= i < |items| ensures Sound(Bares(items)[i], b) && Short(RawOf(Bares(items)[i])) {
      assert SafeItem(items[i], b);
      BareLines(items[i]);
    }
  }

  lemma {:induction false} HeadersAre(item: Item, x: string)
    ensures ItemHeaders(item) + x == LinesThen(RawOf(Bare(item)).lines, x)
  {
    hide DispositionLine, ContentTypeLine, RawOf, LinesThen;
    BareLines(item);
    var d, t := DispositionLine(item), ContentTypeLine(item);
    if item.contentType == "" {
      assert [d] + [] == [d];
      OneLine(d, x);
      assert ItemHeaders(item) == d + CRLF + "" + CRLF;
      WithoutType(d, CRLF, x);
    } else {
      assert [d] + [t] == [d, t];
      TwoLines(d, t, x);
      WithType(d, CRLF, t, x);
    }
  }

  lemma WithoutType(d: string, l: string, x: string)
    ensures (d + l + "" + l) + x == d + (l + (l + x))
  {
  }

  lemma WithType(d: string, l: string, t: string, x: string)
    ensures (d + l + (t + l) + l) + x == d + (l + (t + (l + (l + x))))
  {
  }

  lemma {:induction false} OneLine(d: string, x: string)
    ensures LinesThen([d], x) == d + (CRLF + (CRLF + x))
  {
    assert [d][1..] == [];
  }

  lemma {:induction false} TwoLines(d: string, t: string, x: string)
    ensures LinesThen([d, t], x) == d + (CRLF + (t + (CRLF + (CRLF + x))))
  {
    assert [d, t][1..] == [t];
    OneLine(t, x);
  }

  lemma {:induction false} SerializedIs(items: seq<Item>, b: string)
    requires items != []
    ensures Serialized(items, b) == Opening(b) + FromHeaders(RawsOf(Bares(items)), b, CRLF)
    decreases |items|
  {
    hide RawOf, LinesThen, ItemHeaders;
    var item, rest := items[0], items[1..];
    var raws := RawsOf(Bares(items));
    assert raws[1..] == RawsOf(Bares(rest));
    var x := CRLF + Serialized(rest, b);
    assert x == Delimiter(b) + FromDelimiter(raws[1..], b, CRLF) by {
      if rest == [] {
        assert CRLF + (DASH + b + DASH + CRLF) == (CRLF + DASH + b) + (DASH + CRLF);
      } else {
        SerializedIs(rest, b);
        var h := FromHeaders(raws[1..], b, CRLF);
        assert CRLF + ((DASH + b + CRLF) + h) == (CRLF + DASH + b) + (CRLF + h);
      }
    }
    ContentOf(item);
    HeadersAre(item, item.content + x);
    SerializedStep(Opening(b), ItemHeaders(item), item.content, CRLF, Serialized(rest, b));
  }

  lemma ContentOf(item: Item)
    ensures RawOf(Bare(item)).content == item.content
  {
  }

  lemma SerializedStep(o: string, h: string, c: string, l: string, s: string)
    ensures o + h + c + l + s == o + (h + (c + (l + s)))
  {
    Assoc(o + h + c, l, s);
    Assoc(o + h, c, l + s);
    Assoc(o, h, c + (l + s));
  }

  lemma {:induction false} SerializedIsClosed(items: seq<Item>, b: string)
    requires items != []
    ensures Serialized(items, b) == Closed(RawsOf(Bares(items)), b) + CRLF
  {
    hide FromHeaders, Serialized, RawsOf, Bares;
    SerializedIs(items, b);
    var raws := RawsOf(Bares(items));
    EpilogueLast(raws, b, CRLF);
    Assoc(Opening(b), FromHeaders(raws, b, ""), CRLF);
  }

  /** Section 5.1.1 of RFC 2046, for what the serializer writes: however it is cut, parsing succeeds exactly when
      there are no more items than the receiver takes, ends valid, and has handed over every item, in order. */
  lemma {:induction false} MultipartRoundTripIff(items: seq<Item>, b: string, chunks: seq<string>)
    requires items != [] && BoundaryOk(b) && SafeItems(items, b) && Concat(chunks) == Serialized(items, b)
    ensures var (p, ok) := FeedAll(START, chunks, b);
            && (ok <==> |items| <= 1024)
            && (ok ==> p.valid && p.parts == ParsedAll(items))
  {
    hide SafeItems, BoundaryOk, FeedAll, Quiet, Serialized, Closed, AllSound, AllShort, Concat, PartsOf, RawsOf, Bares;
    ItemsAreSound(items, b);
    SerializedIsClosed(items, b);
    LineEndIsQuiet();
    assert |Bares(items)| == |items|;
    OtherFieldsDelivered(Bares(items), b, CRLF, chunks);
  }

  predicate Carries(part: Part, item: Item) {
    && part.name == item.name && part.filename == item.filename
    && part.contentType == item.contentType && part.content == item.content
  }

  /** Every part carries its item's names, type and content. */
  lemma ParsedCarry(items: seq<Item>)
    ensures |ParsedAll(items)| == |items| && forall i :: 0 <= i < |items| ==> Carries(ParsedAll(items)[i], items[i])
  {
    hide StoredAll, Stored, DispositionValue;
  }
}
