/** Printing and parsing the Range header. */
module RangeHeader {
  import opened Common
  import opened Text
  import opened Ranges

  const INT64_MAX := 0x7fff_ffff_ffff_ffff

  /** -1 means absent; at most one end is, and the ends are in order when both are there. */
  predicate ValidRange(r: Range) {
    && -1 <= r.first <= INT64_MAX && -1 <= r.last <= INT64_MAX
    && !(r.first == -1 && r.last == -1)
    && (r.first != -1 && r.last != -1 ==> r.first <= r.last)
  }

  function ToString(n: int): string {
    if n < 0 then "-" + Print(-n, 10) else Print(n, 10)
  }

  function PrintRange(r: Range): string {
    (if r.first != -1 then ToString(r.first) else "") + "-" + (if r.last != -1 then ToString(r.last) else "")
  }

  function Join(rs: seq<Range>): string {
    if rs == [] then ""
    else if |rs| == 1 then PrintRange(rs[0])
    else Join(rs[..|rs| - 1]) + ", " + PrintRange(rs[|rs| - 1])
  }

  lemma JoinNext(rs: seq<Range>, i: nat)
    requires i < |rs|
    ensures Join(rs[..i + 1]) == Join(rs[..i]) + (if i != 0 then ", " else "") + PrintRange(rs[i])
  {
    assert rs[..i + 1][..i] == rs[..i];
  }

  lemma {:induction false} FieldNext(rs: seq<Range>, i: nat, field: string)
    requires i < |rs| && field == "bytes=" + Join(rs[..i])
    ensures (if i != 0 then field + ", " else field) + PrintRange(rs[i]) == "bytes=" + Join(rs[..i + 1])
  {
    JoinNext(rs, i);
    Glue("bytes=", Join(rs[..i]), ", ", PrintRange(rs[i]));
    Glue("bytes=", Join(rs[..i]), "", PrintRange(rs[i]));
  }

  lemma Glue(prefix: string, done: string, separator: string, one: string)
    ensures ((prefix + done) + separator) + one == prefix + ((done + separator) + one)
    ensures (prefix + done) + "" == prefix + done && done + "" == done
  {
  }

  method AppendRange(field: string, r: Range) returns (longer: string)
    ensures longer == field + PrintRange(r)
  {
    longer := field;
    if r.first != -1 { longer := longer + ToString(r.first); }
    longer := longer + "-";
    if r.last != -1 { longer := longer + ToString(r.last); }
  }

  /** The value of the header field. */
  method MakeRangeHeader(rs: seq<Range>) returns (field: string)
    ensures field == "bytes=" + Join(rs)
  {
    field := "bytes=";
    for i := 0 to |rs|
      invariant field == "bytes=" + Join(rs[..i])
    {
      FieldNext(rs, i, field);
      if i != 0 { field := field + ", "; }
      field := AppendRange(field, rs[i]);
    }
    assert rs[..|rs|] == rs;
  }

  // ----- parsing

  predicate AllDigits(s: string) {
    forall c :: c in s ==> IsDigit(c)
  }

  /** stoll on digits, empty meaning absent; None is its out_of_range exception. */
  function Position(s: string): Option<int>
    requires AllDigits(s)
  {
    assert IsNumeral(s, 10) by { forall i | 0 <= i < |s| ensures IsDigit(s[i]) { assert s[i] in s; } }
    var v: int := Value(s, 10);
    if s == "" then Some(-1) else if v > INT64_MAX then None else Some(v)
  }

  function ParseOne(p: string): Option<Range> {
    var i := IndexOf(p, '-');
    if i == |p| then None
    else if !AllDigits(p[..i]) || !AllDigits(p[i + 1..]) then None
    else
      var first, last := Position(p[..i]), Position(p[i + 1..]);
      if first.None? || last.None? then None
      else if (first.value == -1 && last.value == -1)
           || (first.value != -1 && last.value != -1 && first.value > last.value) then None
      else Some(Range(first.value, last.value))
  }

  function ParseAll(parts: seq<string>): Option<seq<Range>> {
    if parts == [] then Some([])
    else
      var init, r := ParseAll(parts[..|parts| - 1]), ParseOne(parts[|parts| - 1]);
      if init.None? || r.None? then None else Some(init.value + [r.value])
  }

  function ParseHeader(s: string): Option<seq<Range>> {
    if |s| > 7 && s[..6] == "bytes=" then
      var rs := ParseAll(Split(s[6..], ','));
      if rs == Some([]) then None else rs
    else None
  }

  lemma ParseAllSnoc(parts: seq<string>, p: string)
    ensures ParseAll(parts + [p]) ==
            var init, r := ParseAll(parts), ParseOne(p);
            if init.None? || r.None? then None else Some(init.value + [r.value])
  {
    assert (parts + [p])[..|parts + [p]| - 1] == parts;
  }

  /** The callback of split: after the first bad part nothing more is looked at. The ranges matter only
      when the result is true. */
  method ParseParts(parts: seq<string>) returns (allValidRanges: bool, ranges: seq<Range>)
    ensures allValidRanges <==> ParseAll(parts).Some?
    ensures allValidRanges ==> ParseAll(parts) == Some(ranges)
  {
    ranges := [];
    allValidRanges := true;
    for i := 0 to |parts|
      invariant allValidRanges <==> ParseAll(parts[..i]).Some?
      invariant allValidRanges ==> ParseAll(parts[..i]) == Some(ranges)
    {
      ParseAllSnoc(parts[..i], parts[i]);
      assert parts[..i] + [parts[i]] == parts[..i + 1];
      if allValidRanges {
        var r := ParseOne(parts[i]);
        if r.Some? {
          ranges := ranges + [r.value];
        } else {
          allValidRanges := false;
        }
      }
    }
    assert parts[..|parts|] == parts;
  }

  method ParseRangeHeader(s: string) returns (ok: bool, ranges: seq<Range>)
    ensures ok <==> ParseHeader(s).Some?
    ensures ok ==> ParseHeader(s) == Some(ranges)
  {
    if |s| > 7 && s[..6] == "bytes=" {
      var parts := SplitLoop(s[6..], ',');
      ok, ranges := ParseParts(parts);
      ok := ok && ranges != [];
    } else {
      ok, ranges := false, [];
    }
  }

  // ----- the round trip

  lemma ParsedIsValid(p: string)
    ensures ParseOne(p).Some? ==> ValidRange(ParseOne(p).value)
  {
  }

  lemma {:induction false} AllParsedAreValid(parts: seq<string>)
    ensures ParseAll(parts).Some? ==>
              forall i :: 0 <= i < |ParseAll(parts).value| ==> ValidRange(ParseAll(parts).value[i])
  {
    if parts != [] {
      AllParsedAreValid(parts[..|parts| - 1]);
      ParsedIsValid(parts[|parts| - 1]);
    }
  }

  lemma PositionOfPrint(n: int)
    requires -1 <= n <= INT64_MAX
    ensures var s := if n != -1 then ToString(n) else "";
            AllDigits(s) && '-' !in s && Position(s) == Some(n)
  {
    if n != -1 { ValueOfPrint(n, 10); }
  }

  lemma ParseOfPrint(r: Range)
    requires ValidRange(r)
    ensures ParseOne(PrintRange(r)) == Some(r)
  {
    var a := if r.first != -1 then ToString(r.first) else "";
    var b := if r.last != -1 then ToString(r.last) else "";
    PositionOfPrint(r.first);
    PositionOfPrint(r.last);
    IndexOfAt(a, '-', b);
    assert PrintRange(r) == a + ['-'] + b;
    assert PrintRange(r)[..|a|] == a && PrintRange(r)[|a| + 1..] == b;
  }

  /** A printed range survives being split off with a blank before it. */
  lemma {:induction false} FieldOfPrint(r: Range)
    requires ValidRange(r)
    ensures ',' !in PrintRange(r)
    ensures Split(PrintRange(r), ',') == [PrintRange(r)]
    ensures Split([' '] + PrintRange(r), ',') == [PrintRange(r)]
  {
    var p := PrintRange(r);
    PositionOfPrint(r.first);
    PositionOfPrint(r.last);
    forall c | c in p ensures IsDigit(c) || c == '-' {
    }
    assert p[0] in p && p[|p| - 1] in p;
    TrimIdentity(p);
    SplitOne(p, ',');
    SplitOne([' '] + p, ',');
    assert ([' '] + p)[1..] == p;
  }

  function PrintAll(rs: seq<Range>): seq<string> {
    if rs == [] then [] else PrintAll(rs[..|rs| - 1]) + [PrintRange(rs[|rs| - 1])]
  }

  lemma {:induction false} SplitOfJoin(rs: seq<Range>)
    requires rs != [] && forall i :: 0 <= i < |rs| ==> ValidRange(rs[i])
    ensures Split(Join(rs), ',') == PrintAll(rs)
  {
    var init, r := rs[..|rs| - 1], rs[|rs| - 1];
    FieldOfPrint(r);
    if |rs| > 1 {
      SplitOfJoin(init);
      SplitConcat(Join(init), ',', [' '] + PrintRange(r));
      assert Join(rs) == Join(init) + [','] + ([' '] + PrintRange(r));
    } else {
      assert PrintAll(init) == [];
    }
  }

  lemma {:induction false} ParseOfPrintAll(rs: seq<Range>)
    requires forall i :: 0 <= i < |rs| ==> ValidRange(rs[i])
    ensures ParseAll(PrintAll(rs)) == Some(rs)
  {
    if rs != [] {
      var init := rs[..|rs| - 1];
      ParseOfPrintAll(init);
      ParseOfPrint(rs[|rs| - 1]);
      ParseAllSnoc(PrintAll(init), PrintRange(rs[|rs| - 1]));
      assert init + [rs[|rs| - 1]] == rs;
    }
  }

  lemma JoinIsLong(rs: seq<Range>)
    requires rs != [] && forall i :: 0 <= i < |rs| ==> ValidRange(rs[i])
    ensures |Join(rs)| >= 2
  {
    if |rs| > 1 { JoinIsLong(rs[..|rs| - 1]); }
  }

  /** Section 14.1.2 of RFC 9110: a list of ranges printed into the header is parsed back to itself
      exactly when it is not empty and each range in it is valid. */
  lemma {:induction false} RoundTripIff(rs: seq<Range>)
    ensures ParseHeader("bytes=" + Join(rs)) == Some(rs) <==>
            rs != [] && forall i :: 0 <= i < |rs| ==> ValidRange(rs[i])
  {
    var s := "bytes=" + Join(rs);
    assert s[..6] == "bytes=" && s[6..] == Join(rs);
    AllParsedAreValid(Split(Join(rs), ','));
    if rs != [] && forall i :: 0 <= i < |rs| ==> ValidRange(rs[i]) {
      SplitOfJoin(rs);
      ParseOfPrintAll(rs);
      JoinIsLong(rs);
    }
  }

  // ----- any header value

  /** The text of one range: at least one position, digits within 64 bits, in order. */
  predicate RangeText(p: string, r: Range, first: string, last: string) {
    && p == first + "-" + last && AllDigits(first) && AllDigits(last)
    && IsNumeral(first, 10) && IsNumeral(last, 10)
    && !(first == "" && last == "")
    && (if first == "" then r.first == -1 else r.first == Value(first, 10) <= INT64_MAX)
    && (if last == "" then r.last == -1 else r.last == Value(last, 10) <= INT64_MAX)
    && (first != "" && last != "" ==> r.first <= r.last)
  }

  ghost predicate IsRangeText(p: string, r: Range) {
    exists first, last :: RangeText(p, r, first, last)
  }

  lemma DigitsAreNumeral(s: string)
    requires AllDigits(s)
    ensures IsNumeral(s, 10) && '-' !in s
  {
    forall i | 0 <= i < |s| ensures IsDigit(s[i]) { assert s[i] in s; }
  }

  lemma ParseOneIff(p: string, r: Range)
    ensures ParseOne(p) == Some(r) <==> IsRangeText(p, r)
  {
    if ParseOne(p) == Some(r) {
      var i := IndexOf(p, '-');
      DigitsAreNumeral(p[..i]);
      DigitsAreNumeral(p[i + 1..]);
      assert p == p[..i] + "-" + p[i + 1..];
      assert RangeText(p, r, p[..i], p[i + 1..]);
    }
    if first, last :| RangeText(p, r, first, last) {
      DigitsAreNumeral(first);
      assert p == first + ['-'] + last;
      IndexOfAt(first, '-', last);
      assert p[..|first|] == first && p[|first| + 1..] == last;
    }
  }

  lemma {:induction false} ParseAllIff(parts: seq<string>, rs: seq<Range>)
    ensures ParseAll(parts) == Some(rs) <==>
            |parts| == |rs| && forall i :: 0 <= i < |rs| ==> IsRangeText(parts[i], rs[i])
    decreases |parts|
  {
    hide ParseOne, IsRangeText;
    if parts == [] {
    } else if rs != [] {
      var init, last := parts[..|parts| - 1], rs[..|rs| - 1];
      ParseAllIff(init, last);
      ParseOneIff(parts[|parts| - 1], rs[|rs| - 1]);
      if |parts| == |rs| && forall i :: 0 <= i < |rs| ==> IsRangeText(parts[i], rs[i]) {
        assert forall i :: 0 <= i < |last| ==> init[i] == parts[i] && last[i] == rs[i];
        assert rs == last + [rs[|rs| - 1]];
      }
      if ParseAll(parts) == Some(rs) {
        var a := ParseAll(init).value;
        assert a == last;
        forall i | 0 <= i < |rs| ensures IsRangeText(parts[i], rs[i]) {
          if i < |last| { assert init[i] == parts[i] && last[i] == rs[i]; }
        }
      }
    }
  }

  /** A header value is accepted, and read as these ranges, exactly if it is "bytes=" and a list of at least one
      range, separated by commas with blanks around them. */
  lemma ParseHeaderIff(s: string, rs: seq<Range>)
    ensures ParseHeader(s) == Some(rs) <==>
            && |s| > 7 && s[..6] == "bytes=" && rs != []
            && |Split(s[6..], ',')| == |rs|
            && forall i :: 0 <= i < |rs| ==> IsRangeText(Split(s[6..], ',')[i], rs[i])
  {
    hide Split, ParseAll, IsRangeText;
    if |s| > 7 { ParseAllIff(Split(s[6..], ','), rs); }
  }
}
