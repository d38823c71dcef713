/** Byte ranges: validation and coalescing before a response is sent. */
module Ranges {
  import opened Common

  /** -1 stands for an absent position. */
  datatype Range = Range(first: int, last: int)

  const RANGE_MAX_COUNT := 1024

  class Request {
    var ranges: seq<Range>

    constructor (ranges: seq<Range>)
      ensures this.ranges == ranges
    {
      this.ranges := ranges;
    }
  }

  // ----- what is asked for, in terms of the request as it came

  /** Byte b of a content of len bytes is among those the range asks for. */
  predicate Asks(r: Range, len: nat, b: int) {
    && 0 <= b < len
    && if r.first == -1 && r.last == -1 then true
       else if r.first == -1 then len - r.last <= b
       else if r.last == -1 then r.first <= b
       else r.first <= b <= r.last
  }

  /** The range can be served from a content of len bytes. */
  predicate Satisfiable(r: Range, len: nat) {
    if r.first == -1 && r.last == -1 then len > 0
    else if r.first == -1 then 1 <= r.last <= len
    else if r.last == -1 then 0 <= r.first < len
    else 0 <= r.first <= r.last && r.first < len
  }

  ghost predicate Requested(rs: seq<Range>, len: nat, b: int) {
    exists i :: 0 <= i < |rs| && Asks(rs[i], len, b)
  }

  /** Range i asks for a byte that an earlier one asks for. */
  ghost predicate AsksAgain(rs: seq<Range>, len: nat, i: nat)
    requires i < |rs|
  {
    exists b :: Requested(rs[..i], len, b) && Asks(rs[i], len, b)
  }

  ghost function Repeats(rs: seq<Range>, len: nat): set<nat> {
    set i: nat | i < |rs| && AsksAgain(rs, len, i)
  }

  /** What a request must be to be served. */
  ghost predicate Servable(rs: seq<Range>, len: nat) {
    && |rs| <= 1024 && (forall i :: 0 <= i < |rs| ==> Satisfiable(rs[i], len))
    && |Repeats(rs, len)| <= 2
  }

  // ----- the same after normalising

  function Normal(r: Range, len: nat): Range {
    var a := if r.first == -1 && r.last == -1 then Range(0, len) else r;
    var b := if a.first == -1 then Range(len - a.last, len - 1) else a;
    if b.last == -1 || b.last >= len then Range(b.first, len - 1) else b
  }

  function Normals(rs: seq<Range>, len: nat): (ns: seq<Range>)
    ensures |ns| == |rs| && forall i :: 0 <= i < |rs| ==> ns[i] == Normal(rs[i], len)
  {
    seq(|rs|, i requires 0 <= i < |rs| => Normal(rs[i], len))
  }

  predicate InBounds(r: Range, len: nat) {
    0 <= r.first <= r.last < len
  }

  predicate AllInBounds(rs: seq<Range>, len: nat) {
    forall i :: 0 <= i < |rs| ==> InBounds(rs[i], len)
  }

  predicate Overlap(a: Range, b: Range) {
    !(a.last < b.first || a.first > b.last)
  }

  predicate OverlapsAny(rs: seq<Range>, r: Range) {
    exists i :: 0 <= i < |rs| && Overlap(r, rs[i])
  }

  /** How many of the ranges overlap an earlier one. */
  function Overlapping(rs: seq<Range>): nat {
    if rs == [] then 0
    else
      var init, r := rs[..|rs| - 1], rs[|rs| - 1];
      Overlapping(init) + if OverlapsAny(init, r) then 1 else 0
  }

  /** What the validating loop accepts. */
  predicate Acceptable(rs: seq<Range>, len: nat) {
    |rs| <= RANGE_MAX_COUNT && AllInBounds(Normals(rs, len), len) && Overlapping(Normals(rs, len)) <= 2
  }

  // ----- coalescing

  predicate SortedByFirst(rs: seq<Range>) {
    forall i, j :: 0 <= i < j < |rs| ==> rs[i].first <= rs[j].first
  }

  /** What std::sort may return: ranges with equal first positions can come out in any order. */
  ghost predicate SortOf(p: seq<Range>, rs: seq<Range>) {
    multiset(p) == multiset(rs) && SortedByFirst(p)
  }

  function InsertByFirst(p: seq<Range>, r: Range): (q: seq<Range>)
    ensures multiset(q) == multiset(p) + multiset{r}
  {
    if p == [] || r.first <= p[0].first then [r] + p
    else
      assert p == [p[0]] + p[1..];
      [p[0]] + InsertByFirst(p[1..], r)
  }

  lemma {:induction false} InsertSorted(p: seq<Range>, r: Range)
    requires SortedByFirst(p)
    ensures SortedByFirst(InsertByFirst(p, r))
  {
    if p != [] && r.first > p[0].first {
      InsertSorted(p[1..], r);
      var q := InsertByFirst(p[1..], r);
      forall i | 0 <= i < |q| ensures p[0].first <= q[i].first {
        assert q[i] in multiset(q);
        assert q[i] == r || q[i] in p[1..];
      }
    }
  }

  method SortByFirst(rs: seq<Range>) returns (p: seq<Range>)
    ensures SortOf(p, rs)
  {
    p := [];
    for i := 0 to |rs|
      invariant SortOf(p, rs[..i])
    {
      InsertSorted(p, rs[i]);
      p := InsertByFirst(p, rs[i]);
      assert rs[..i + 1] == rs[..i] + [rs[i]];
    }
    assert rs[..|rs|] == rs;
  }

  /** The rewriting of one range that both loops do. */
  method Rewrite(r: Range, len: nat) returns (n: Range)
    ensures n == Normal(r, len)
  {
    var firstPos, lastPos := r.first, r.last;
    if firstPos == -1 && lastPos == -1 {
      firstPos, lastPos := 0, len;
    }
    if firstPos == -1 {
      firstPos, lastPos := len - lastPos, len - 1;
    }
    if lastPos == -1 || lastPos >= len {
      lastPos := len - 1;
    }
    n := Range(firstPos, lastPos);
  }

  /** The inner loop over the ranges already processed; it stops at the first overlap. */
  method OverlapsProcessed(processed: seq<Range>, r: Range) returns (found: bool)
    ensures found == OverlapsAny(processed, r)
  {
    for j := 0 to |processed|
      invariant !OverlapsAny(processed[..j], r)
    {
      if !(r.last < processed[j].first || r.first > processed[j].last) {
        assert Overlap(r, processed[j]);
        return true;
      }
      assert forall l :: 0 <= l < j ==> processed[..j][l] == processed[l];
    }
    assert processed[..|processed|] == processed;
    return false;
  }

  /** One more range of the sorted list: dropped if invalid, merged into the previous one if it touches
      it and is not equal to it, appended otherwise. */
  function MergeOne(done: seq<Range>, raw: Range, len: nat): seq<Range> {
    var r := Normal(raw, len);
    if !InBounds(r, len) then done
    else if done == [] then [r]
    else
      var prev := done[|done| - 1];
      if r.first <= prev.last + 1 && r != prev then
        done[|done| - 1 := Range(prev.first, if prev.last < r.last then r.last else prev.last)]
      else done + [r]
  }

  function Merge(p: seq<Range>, len: nat): seq<Range> {
    if p == [] then [] else MergeOne(Merge(p[..|p| - 1], len), p[|p| - 1], len)
  }

  /** The list a coalescing run leaves behind; p is the order the sort chose. */
  ghost predicate Coalesced(out: seq<Range>, rs: seq<Range>, len: nat) {
    if |rs| <= 1 then out == rs else exists p :: SortOf(p, rs) && out == Merge(p, len)
  }

  method CoalesceRanges(req: Request, len: nat)
    modifies req
    ensures Coalesced(req.ranges, old(req.ranges), len)
  {
    if |req.ranges| <= 1 { return; }
    req.ranges := SortByFirst(req.ranges);
    var p := req.ranges;
    var coalesced: seq<Range> := [];
    for i := 0 to |p|
      invariant coalesced == Merge(p[..i], len)
    {
      assert p[..i + 1][..i] == p[..i];
      var r := Rewrite(p[i], len);
      if !(0 <= r.first <= r.last < len) {
        continue;
      }
      if coalesced != [] {
        var prev := coalesced[|coalesced| - 1];
        if r.first <= prev.last + 1 && !(r.first == prev.first && r.last == prev.last) {
          var last := if prev.last < r.last then r.last else prev.last;
          coalesced := coalesced[|coalesced| - 1 := Range(prev.first, last)];
          continue;
        }
      }
      coalesced := coalesced + [r];
    }
    assert p[..|p|] == p;
    req.ranges := coalesced;
  }

  /** The first n ranges have been normalised in place, the others not yet. */
  predicate Rewritten(now: seq<Range>, was: seq<Range>, len: nat, n: nat) {
    && |now| == |was| && n <= |was|
    && forall i :: 0 <= i < |was| ==> now[i] == if i < n then Normal(was[i], len) else was[i]
  }

  /** The validating loop; it stops at the first range it cannot accept. */
  method Validate(req: Request, len: nat) returns (err: bool)
    requires |req.ranges| <= RANGE_MAX_COUNT
    modifies req
    ensures err <==> !Acceptable(old(req.ranges), len)
    ensures !err ==> req.ranges == Normals(old(req.ranges), len)
    ensures exists n: nat :: Rewritten(req.ranges, old(req.ranges), len, n)
  {
    ghost var rs := req.ranges;
    ghost var ns := Normals(rs, len);
    var processed: seq<Range> := [];
    var overwrapping := 0;
    for i := 0 to |req.ranges|
      invariant Rewritten(req.ranges, rs, len, i)
      invariant processed == ns[..i] && AllInBounds(processed, len)
      invariant overwrapping == Overlapping(processed) <= 2
    {
      var r := Rewrite(req.ranges[i], len);
      req.ranges := req.ranges[i := r];
      assert Rewritten(req.ranges, rs, len, i + 1) && r == ns[i];
      if !(0 <= r.first <= r.last <= len - 1) {
        return true;
      }
      var found := OverlapsProcessed(processed, r);
      if found {
        overwrapping := overwrapping + 1;
      }
      Snoc(processed, r, len);
      processed := processed + [r];
      assert processed == ns[..i + 1];
      if overwrapping > 2 {
        OverlappingPrefix(ns, i + 1);
        return true;
      }
    }
    assert ns[..|rs|] == ns && req.ranges == ns;
    return false;
  }

  /** True means the request is answered 416. The ranges are rewritten in place, so a rejected request is
      left with those up to the offending one normalised. */
  method RangeError(req: Request, status: int, len: nat) returns (err: bool)
    modifies req
    ensures err <==> old(req.ranges) != [] && 200 <= status < 300 && !Servable(old(req.ranges), len)
    ensures !err && old(req.ranges) != [] && 200 <= status < 300 ==> Served(req.ranges, old(req.ranges), len)
    ensures old(req.ranges) == [] || !(200 <= status < 300) ==> req.ranges == old(req.ranges)
    ensures err ==> exists n: nat :: Rewritten(req.ranges, old(req.ranges), len, n)
  {
    AcceptableIff(req.ranges, len);
    if req.ranges != [] && 200 <= status < 300 {
      if |req.ranges| > RANGE_MAX_COUNT {
        assert Rewritten(req.ranges, req.ranges, len, 0);
        return true;
      }
      err := Validate(req, len);
      if err {
        return true;
      }
      CoalesceRanges(req, len);
      AcceptedRanges(old(req.ranges), len, req.ranges);
    }
    return false;
  }

  lemma Snoc(p: seq<Range>, r: Range, len: nat)
    ensures Merge(p + [r], len) == MergeOne(Merge(p, len), r, len)
    ensures Overlapping(p + [r]) == Overlapping(p) + if OverlapsAny(p, r) then 1 else 0
    ensures Total(p + [r]) == Total(p) + Length(r)
  {
    assert (p + [r])[..|p + [r]| - 1] == p;
  }

  lemma {:induction false} OverlappingPrefix(rs: seq<Range>, n: nat)
    requires n <= |rs|
    ensures Overlapping(rs[..n]) <= Overlapping(rs)
    decreases |rs|
  {
    if n < |rs| {
      OverlappingPrefix(rs[..|rs| - 1], n);
      assert rs[..|rs| - 1][..n] == rs[..n];
    } else {
      assert rs[..n] == rs;
    }
  }

  // ----- what an accepted request amounts to

  ghost predicate Covers(rs: seq<Range>, b: int) {
    exists i :: 0 <= i < |rs| && rs[i].first <= b <= rs[i].last
  }

  function Length(r: Range): int {
    r.last - r.first + 1
  }

  function Total(rs: seq<Range>): int {
    if rs == [] then 0 else Total(rs[..|rs| - 1]) + Length(rs[|rs| - 1])
  }

  ghost function Interval(a: int, b: int): (s: set<int>)
    ensures forall x :: x in s <==> a <= x <= b
    ensures |s| == if a <= b then b - a + 1 else 0
    decreases b - a
  {
    if a > b then {} else Interval(a, b - 1) + {b}
  }

  /** The bytes of the ranges that overlap no earlier range. */
  ghost function Fresh(rs: seq<Range>): set<int> {
    if rs == [] then {}
    else
      var init, r := rs[..|rs| - 1], rs[|rs| - 1];
      if OverlapsAny(init, r) then Fresh(init) else Fresh(init) + Interval(r.first, r.last)
  }

  lemma {:induction false} FreshIsCovered(rs: seq<Range>, b: int)
    requires b in Fresh(rs)
    ensures Covers(rs, b)
  {
    var init, r := rs[..|rs| - 1], rs[|rs| - 1];
    if b in Fresh(init) {
      FreshIsCovered(init, b);
      var i :| 0 <= i < |init| && init[i].first <= b <= init[i].last;
      assert rs[i] == init[i];
    }
  }

  lemma FreshStep(rs: seq<Range>)
    requires rs != []
    ensures var init, r := rs[..|rs| - 1], rs[|rs| - 1];
            !OverlapsAny(init, r) && r.first <= r.last ==> |Fresh(rs)| == |Fresh(init)| + Length(r)
  {
    var init, r := rs[..|rs| - 1], rs[|rs| - 1];
    if !OverlapsAny(init, r) {
      forall b | b in Fresh(init) ensures b !in Interval(r.first, r.last) {
        FreshIsCovered(init, b);
        var i :| 0 <= i < |init| && init[i].first <= b <= init[i].last;
        assert !Overlap(r, init[i]);
      }
    }
  }

  lemma {:induction false} FreshInside(rs: seq<Range>, len: nat)
    requires AllInBounds(rs, len)
    ensures Fresh(rs) <= Interval(0, len - 1)
  {
    if rs != [] {
      var init, r := rs[..|rs| - 1], rs[|rs| - 1];
      assert forall i :: 0 <= i < |init| ==> init[i] == rs[i];
      assert InBounds(r, len);
      FreshInside(init, len);
    }
  }

  /** Ranges that overlap no earlier one are disjoint, so together they are within the content; each of
      the others adds at most the whole content once more. */
  lemma {:induction false} TotalBound(rs: seq<Range>, len: nat)
    requires AllInBounds(rs, len)
    ensures Total(rs) <= |Fresh(rs)| + Overlapping(rs) * len
  {
    if rs != [] {
      var init, r := rs[..|rs| - 1], rs[|rs| - 1];
      assert forall i :: 0 <= i < |init| ==> init[i] == rs[i];
      assert InBounds(r, len);
      TotalBound(init, len);
      FreshStep(rs);
      OneMoreTime(Overlapping(init), len);
    }
  }

  lemma OneMoreTime(n: nat, len: nat)
    ensures (n + 1) * len == n * len + len
  {
  }

  lemma Twice(n: nat, len: nat)
    requires n <= 2
    ensures n * len <= 2 * len
  {
  }

  /** Section 14.2 of RFC 9110: an accepted request asks for at most three times the content in total. */
  lemma AcceptedTotal(rs: seq<Range>, len: nat)
    requires Acceptable(rs, len)
    ensures Total(Normals(rs, len)) <= 3 * len
  {
    var ns := Normals(rs, len);
    TotalBound(ns, len);
    FreshInside(ns, len);
    SubsetSize(Fresh(ns), Interval(0, len - 1));
    Twice(Overlapping(ns), len);
  }

  // ----- what coalescing keeps

  lemma {:induction false} TotalConcat(a: seq<Range>, b: seq<Range>)
    ensures Total(a + b) == Total(a) + Total(b)
  {
    if b == [] {
      assert a + b == a;
    } else {
      var b' := b[..|b| - 1];
      TotalConcat(a, b');
      assert (a + b)[..|a + b| - 1] == a + b';
    }
  }

  /** Taking one range out. */
  lemma {:induction false} TotalWithout(q: seq<Range>, i: nat)
    requires i < |q|
    ensures Total(q) == Total(q[..i] + q[i + 1..]) + Length(q[i])
  {
    var a, r, b := q[..i], [q[i]], q[i + 1..];
    assert q == a + (r + b);
    TotalConcat(a, r + b);
    TotalConcat(r, b);
    TotalConcat(a, b);
    assert r[..0] == [];
  }

  lemma MultisetWithout(q: seq<Range>, i: nat)
    requires i < |q|
    ensures multiset(q) == multiset(q[..i] + q[i + 1..]) + multiset{q[i]}
  {
    assert q == q[..i] + [q[i]] + q[i + 1..];
  }

  lemma {:induction false} TotalOfPermutation(p: seq<Range>, q: seq<Range>)
    requires multiset(p) == multiset(q)
    ensures Total(p) == Total(q)
    decreases |p|
  {
    if p == [] {
      assert |multiset(q)| == 0;
    } else {
      var n := |p| - 1;
      assert p[n] in multiset(q);
      var i :| 0 <= i < |q| && q[i] == p[n];
      TotalWithout(q, i);
      TotalWithout(p, n);
      MultisetWithout(q, i);
      MultisetWithout(p, n);
      assert p[..n] + p[n + 1..] == p[..n];
      assert multiset(p[..n]) == multiset(p) - multiset{p[n]};
      assert multiset(q[..i] + q[i + 1..]) == multiset(q) - multiset{p[n]};
      TotalOfPermutation(p[..n], q[..i] + q[i + 1..]);
    }
  }

  /** Two ranges of the list leave a gap between them, or begin together and the later one ends no sooner. */
  predicate Apart(rs: seq<Range>) {
    forall i, j :: 0 <= i < j < |rs| ==>
      rs[i].last + 1 < rs[j].first || (rs[i].first == rs[j].first && rs[i].last <= rs[j].last)
  }

  /** The state of the coalescing loop after a prefix p of the sorted ranges. */
  ghost predicate MergeInv(done: seq<Range>, p: seq<Range>, len: nat) {
    && AllInBounds(done, len) && SortedByFirst(done) && Apart(done)
    && Total(done) <= Total(p)
    && (forall b :: Covers(done, b) <==> Covers(p, b))
    && (p == [] ==> done == [])
    && (p != [] ==> done != [] && done[|done| - 1].first <= p[|p| - 1].first)
  }

  lemma {:induction false} MergeOneKeeps(done: seq<Range>, p: seq<Range>, r: Range, len: nat)
    requires MergeInv(done, p, len) && InBounds(r, len) && SortedByFirst(p + [r])
    ensures MergeInv(MergeOne(done, r, len), p + [r], len)
  {
    var next, q := MergeOne(done, r, len), p + [r];
    assert Normal(r, len) == r;
    assert p != [] ==> q[|p| - 1].first <= q[|p|].first;
    if done == [] || next == done + [r] {
      AppendKeeps(done, p, r, len);
    } else {
      ExtendKeeps(done, p, r, len);
    }
  }

  lemma AppendKeeps(done: seq<Range>, p: seq<Range>, r: Range, len: nat)
    requires MergeInv(done, p, len) && InBounds(r, len) && (p != [] ==> p[|p| - 1].first <= r.first)
    requires done != [] ==> done[|done| - 1].last + 1 < r.first || done[|done| - 1] == r
    ensures MergeInv(done + [r], p + [r], len)
  {
    hide Covers, AllInBounds, SortedByFirst, Apart;
    AppendInOrder(done, r, len);
    Snoc(p, r, len);
    CoversSnoc(p, r);
    Snoc(done, r, len);
    CoversSnoc(done, r);
  }

  lemma AppendInOrder(done: seq<Range>, r: Range, len: nat)
    requires AllInBounds(done, len) && SortedByFirst(done) && Apart(done) && InBounds(r, len)
    requires done != [] ==> done[|done| - 1].last + 1 < r.first || done[|done| - 1] == r
    ensures AllInBounds(done + [r], len) && SortedByFirst(done + [r]) && Apart(done + [r])
  {
  }

  lemma ExtendKeeps(done: seq<Range>, p: seq<Range>, r: Range, len: nat)
    requires MergeInv(done, p, len) && InBounds(r, len) && p != [] && p[|p| - 1].first <= r.first
    requires r.first <= done[|done| - 1].last + 1
    ensures var prev := done[|done| - 1];
            var next := done[|done| - 1 := Range(prev.first, if prev.last < r.last then r.last else prev.last)];
            MergeInv(next, p + [r], len)
  {
    hide Covers;
    Snoc(p, r, len);
    CoversSnoc(p, r);
    ExtendLast(done, r);
  }

  /** Extending the last range over one that starts within reach of it. */
  lemma ExtendLast(done: seq<Range>, r: Range)
    requires done != [] && r.first <= r.last
    requires var prev := done[|done| - 1]; prev.first <= r.first <= prev.last + 1 && prev.first <= prev.last
    ensures var prev := done[|done| - 1];
            var next := done[|done| - 1 := Range(prev.first, if prev.last < r.last then r.last else prev.last)];
            && Total(next) <= Total(done) + Length(r)
            && forall b :: Covers(next, b) <==> Covers(done, b) || r.first <= b <= r.last
  {
    var init, prev := done[..|done| - 1], done[|done| - 1];
    var wide := Range(prev.first, if prev.last < r.last then r.last else prev.last);
    assert done == init + [prev] && done[|done| - 1 := wide] == init + [wide];
    Snoc(init, prev, 0);
    Snoc(init, wide, 0);
    CoversSnoc(init, prev);
    CoversSnoc(init, wide);
  }

  lemma CoversSnoc(a: seq<Range>, r: Range)
    ensures forall b :: Covers(a + [r], b) <==> Covers(a, b) || r.first <= b <= r.last
  {
    forall b ensures Covers(a + [r], b) <==> Covers(a, b) || r.first <= b <= r.last {
      var c := a + [r];
      if Covers(a, b) {
        var i :| 0 <= i < |a| && a[i].first <= b <= a[i].last;
        assert c[i] == a[i];
      } else if r.first <= b <= r.last {
        assert c[|a|] == r;
      }
    }
  }

  lemma {:induction false} MergeKeeps(p: seq<Range>, len: nat)
    requires AllInBounds(p, len) && SortedByFirst(p)
    ensures MergeInv(Merge(p, len), p, len)
  {
    if p != [] {
      var init, r := p[..|p| - 1], p[|p| - 1];
      assert p == init + [r];
      MergeKeeps(init, len);
      MergeOneKeeps(Merge(init, len), init, r, len);
    }
  }

  lemma PermutationFacts(p: seq<Range>, rs: seq<Range>, len: nat)
    requires multiset(p) == multiset(rs) && AllInBounds(rs, len)
    ensures AllInBounds(p, len)
    ensures forall b :: Covers(p, b) <==> Covers(rs, b)
  {
    forall r ensures r in p <==> r in rs {
      assert r in p <==> r in multiset(p);
      assert r in rs <==> r in multiset(rs);
    }
    forall i | 0 <= i < |p| ensures InBounds(p[i], len) {
      assert p[i] in rs;
    }
    forall b ensures Covers(p, b) <==> Covers(rs, b) {
      if Covers(p, b) {
        var i :| 0 <= i < |p| && p[i].first <= b <= p[i].last;
        assert p[i] in rs;
      }
      if Covers(rs, b) {
        var i :| 0 <= i < |rs| && rs[i].first <= b <= rs[i].last;
        assert rs[i] in p;
      }
    }
  }

  // ----- back to the request as it came

  lemma AsksIsNormal(r: Range, len: nat)
    ensures Satisfiable(r, len) <==> InBounds(Normal(r, len), len)
    ensures Satisfiable(r, len) ==>
              forall b :: Asks(r, len, b) <==> Normal(r, len).first <= b <= Normal(r, len).last
  {
  }

  lemma RequestedIsCovered(rs: seq<Range>, len: nat)
    requires forall i :: 0 <= i < |rs| ==> Satisfiable(rs[i], len)
    ensures forall b :: Requested(rs, len, b) <==> Covers(Normals(rs, len), b)
  {
    forall i | 0 <= i < |rs|
      ensures forall b :: Asks(rs[i], len, b) <==> Normals(rs, len)[i].first <= b <= Normals(rs, len)[i].last
    {
      AsksIsNormal(rs[i], len);
    }
    forall b ensures Requested(rs, len, b) <==> Covers(Normals(rs, len), b) {
      if Requested(rs, len, b) {
        var i :| 0 <= i < |rs| && Asks(rs[i], len, b);
        assert Normals(rs, len)[i].first <= b <= Normals(rs, len)[i].last;
      }
    }
  }

  /** Two ranges overlap if they have a byte in common. */
  lemma OverlapHasByte(ns: seq<Range>, r: Range, len: nat)
    requires AllInBounds(ns, len) && InBounds(r, len)
    ensures OverlapsAny(ns, r) <==> exists b :: Covers(ns, b) && r.first <= b <= r.last
  {
    if i :| 0 <= i < |ns| && Overlap(r, ns[i]) {
      var b := if r.first < ns[i].first then ns[i].first else r.first;
      assert Covers(ns, b) && r.first <= b <= r.last;
    }
    if b :| Covers(ns, b) && r.first <= b <= r.last {
      var i :| 0 <= i < |ns| && ns[i].first <= b <= ns[i].last;
      assert Overlap(r, ns[i]);
    }
  }

  lemma {:induction false} RepeatsCount(rs: seq<Range>, len: nat)
    requires forall i :: 0 <= i < |rs| ==> Satisfiable(rs[i], len)
    ensures |Repeats(rs, len)| == Overlapping(Normals(rs, len))
    decreases |rs|
  {
    if rs == [] {
      assert Repeats(rs, len) == {};
    } else {
      var n := |rs| - 1;
      var init, r := rs[..n], rs[n];
      var ns := Normals(init, len);
      RepeatsCount(init, len);
      assert Normals(rs, len) == ns + [Normal(r, len)];
      Snoc(ns, Normal(r, len), len);
      LastRepeat(rs, len);
      RepeatsSnoc(rs, len);
    }
  }

  lemma RepeatsSnoc(rs: seq<Range>, len: nat)
    requires rs != []
    ensures var n := |rs| - 1;
            n !in Repeats(rs[..n], len)
            && Repeats(rs, len) == Repeats(rs[..n], len) + if AsksAgain(rs, len, n) then {n} else {}
  {
    var init := rs[..|rs| - 1];
    forall i: nat | i < |init| ensures AsksAgain(init, len, i) <==> AsksAgain(rs, len, i) {
      assert init[..i] == rs[..i];
    }
  }

  lemma LastRepeat(rs: seq<Range>, len: nat)
    requires rs != [] && forall i :: 0 <= i < |rs| ==> Satisfiable(rs[i], len)
    ensures var n := |rs| - 1;
            AsksAgain(rs, len, n) <==> OverlapsAny(Normals(rs[..n], len), Normal(rs[n], len))
  {
    var n := |rs| - 1;
    var ns, r := Normals(rs[..n], len), Normal(rs[n], len);
    forall i | 0 <= i < n ensures InBounds(ns[i], len) { AsksIsNormal(rs[i], len); }
    AsksIsNormal(rs[n], len);
    RequestedIsCovered(rs[..n], len);
    OverlapHasByte(ns, r, len);
    assert AsksAgain(rs, len, n) <==> exists b :: Covers(ns, b) && r.first <= b <= r.last by {
      if b :| Requested(rs[..n], len, b) && Asks(rs[n], len, b) { assert Covers(ns, b); }
      if b :| Covers(ns, b) && r.first <= b <= r.last { assert Requested(rs[..n], len, b); }
    }
  }

  /** The loop accepts exactly the requests that can be served: few enough ranges, each satisfiable, and at
      most two that ask for a byte an earlier one asks for. */
  lemma AcceptableIff(rs: seq<Range>, len: nat)
    ensures Acceptable(rs, len) <==> Servable(rs, len)
  {
    var ns := Normals(rs, len);
    forall i | 0 <= i < |rs| ensures Satisfiable(rs[i], len) <==> InBounds(ns[i], len) { AsksIsNormal(rs[i], len); }
    if forall i :: 0 <= i < |rs| ==> Satisfiable(rs[i], len) {
      RepeatsCount(rs, len);
    } else {
      var i :| 0 <= i < |rs| && !Satisfiable(rs[i], len);
      assert !InBounds(ns[i], len);
    }
  }

  /** What is served: ranges inside the content, in order and coalesced, that cover exactly the bytes asked
      for, and no more than three times the content in total. */
  ghost predicate Served(out: seq<Range>, rs: seq<Range>, len: nat) {
    && (forall i :: 0 <= i < |out| ==> 0 <= out[i].first <= out[i].last < len)
    && SortedByFirst(out) && Apart(out)
    && (forall b :: Covers(out, b) <==> Requested(rs, len, b))
    && Total(out) <= 3 * len
  }

  /** What the ranges of an accepted request are when the response is written, whatever order the sort
      gave equal first positions. */
  lemma AcceptedRanges(rs: seq<Range>, len: nat, out: seq<Range>)
    requires Acceptable(rs, len) && Coalesced(out, Normals(rs, len), len)
    ensures Served(out, rs, len)
  {
    var ns := Normals(rs, len);
    forall i | 0 <= i < |rs| ensures Satisfiable(rs[i], len) {
      assert InBounds(ns[i], len);
      AsksIsNormal(rs[i], len);
    }
    RequestedIsCovered(rs, len);
    AcceptedNormals(rs, len, out);
  }

  lemma AcceptedNormals(rs: seq<Range>, len: nat, out: seq<Range>)
    requires Acceptable(rs, len) && Coalesced(out, Normals(rs, len), len)
    ensures AllInBounds(out, len) && SortedByFirst(out) && Apart(out)
    ensures forall b :: Covers(out, b) <==> Covers(Normals(rs, len), b)
    ensures Total(out) <= 3 * len
  {
    hide Covers, Acceptable;
    var ns := Normals(rs, len);
    AcceptedTotal(rs, len);
    assert AllInBounds(ns, len) by { AcceptableInBounds(rs, len); }
    if |ns| > 1 {
      var p :| SortOf(p, ns) && out == Merge(p, len);
      PermutationFacts(p, ns, len);
      TotalOfPermutation(p, ns);
      MergeKeeps(p, len);
    }
  }

  lemma AcceptableInBounds(rs: seq<Range>, len: nat)
    requires Acceptable(rs, len)
    ensures AllInBounds(Normals(rs, len), len)
  {
  }

  // ----- distinct ranges leave gaps

  predicate Gaps(rs: seq<Range>) {
    forall i, j :: 0 <= i < j < |rs| ==> rs[i].last + 1 < rs[j].first
  }

  predicate AllDistinct(rs: seq<Range>) {
    forall i, j :: 0 <= i < j < |rs| ==> rs[i] != rs[j]
  }

  /** The last range so far ends where one of the ranges of its beginning or after ends. */
  ghost predicate EndIsFrom(done: seq<Range>, p: seq<Range>) {
    done != [] ==>
      exists i :: 0 <= i < |p| && p[i].last == done[|done| - 1].last && done[|done| - 1].first <= p[i].first
  }

  lemma {:induction false} DistinctGaps(p: seq<Range>, len: nat)
    requires AllInBounds(p, len) && SortedByFirst(p) && AllDistinct(p)
    ensures Gaps(Merge(p, len)) && EndIsFrom(Merge(p, len), p)
    decreases |p|
  {
    if p != [] {
      var init, r := p[..|p| - 1], p[|p| - 1];
      assert p == init + [r];
      DistinctGaps(init, len);
      MergeKeeps(init, len);
      DistinctStep(Merge(init, len), init, r, len);
    }
  }

  lemma DistinctStep(done: seq<Range>, p: seq<Range>, r: Range, len: nat)
    requires MergeInv(done, p, len) && Gaps(done) && EndIsFrom(done, p) && InBounds(r, len)
    requires SortedByFirst(p + [r]) && AllDistinct(p + [r])
    ensures var next := MergeOne(done, r, len); Gaps(next) && EndIsFrom(next, p + [r])
  {
    hide Covers, Total;
    var q := p + [r];
    assert Normal(r, len) == r && q[|p|] == r;
    if done != [] {
      var prev := done[|done| - 1];
      var i :| 0 <= i < |p| && p[i].last == prev.last && prev.first <= p[i].first;
      assert q[i] == p[i] && q[i].first <= q[|p|].first && q[i] != q[|p|];
      assert prev != r;
    }
  }

  /** If no two of the requested ranges ask for the same bytes, the served ones are separate: together with
      the bytes they cover this determines them. */
  lemma DistinctAreSeparate(rs: seq<Range>, len: nat, out: seq<Range>)
    requires Acceptable(rs, len) && Coalesced(out, Normals(rs, len), len)
    requires forall i, j :: 0 <= i < j < |rs| ==> exists b :: Asks(rs[i], len, b) != Asks(rs[j], len, b)
    ensures Gaps(out)
  {
    hide Covers;
    var ns := Normals(rs, len);
    forall i, j | 0 <= i < j < |rs| ensures ns[i] != ns[j] {
      assert InBounds(ns[i], len) && InBounds(ns[j], len);
      AsksIsNormal(rs[i], len);
      AsksIsNormal(rs[j], len);
      var b :| Asks(rs[i], len, b) != Asks(rs[j], len, b);
    }
    if |ns| > 1 {
      var p :| SortOf(p, ns) && out == Merge(p, len);
      PermutationFacts(p, ns, len);
      DistinctPermutation(p, ns);
      DistinctGaps(p, len);
    }
  }

  lemma DistinctPermutation(p: seq<Range>, rs: seq<Range>)
    requires multiset(p) == multiset(rs) && AllDistinct(rs)
    ensures AllDistinct(p)
  {
    forall i, j | 0 <= i < j < |p| ensures p[i] != p[j] {
      if p[i] == p[j] {
        TwiceIn(p, i, j);
        OnceIn(rs, p[i]);
      }
    }
  }

  lemma TwiceIn(p: seq<Range>, i: nat, j: nat)
    requires i < j < |p| && p[i] == p[j]
    ensures multiset(p)[p[i]] >= 2
  {
    assert p == p[..j] + p[j..];
    assert p[i] in p[..j] && p[j] in p[j..];
  }

  lemma {:induction false} OnceIn(rs: seq<Range>, r: Range)
    requires AllDistinct(rs)
    ensures multiset(rs)[r] <= 1
    decreases |rs|
  {
    if rs != [] {
      var init := rs[..|rs| - 1];
      OnceIn(init, r);
      assert rs == init + [rs[|rs| - 1]];
      if r in init { var i :| 0 <= i < |init| && init[i] == r; assert rs[i] == r; }
    }
  }

  lemma ThreeEqual(p: seq<Range>, r: Range)
    requires multiset(p) == multiset([r, r, r])
    ensures p == [r, r, r]
  {
    assert |multiset(p)| == 3;
    forall i | 0 <= i < 3 ensures p[i] == r {
      assert p[i] in multiset([r, r, r]);
    }
  }

  lemma OneMore(p: seq<Range>, r: Range, len: nat)
    requires InBounds(r, len) && Merge(p, len) == p && (p == [] || p[|p| - 1] == r)
    ensures Merge(p + [r], len) == p + [r]
    ensures Total(p + [r]) == Total(p) + Length(r)
    ensures Overlapping(p + [r]) <= Overlapping(p) + 1
  {
    Snoc(p, r, len);
    assert Normal(r, len) == r;
  }

  lemma ThreeCopies(r: Range, len: nat)
    requires InBounds(r, len)
    ensures Merge([r, r, r], len) == [r, r, r]
    ensures Total([r, r, r]) == 3 * Length(r)
    ensures Overlapping([r, r, r]) <= 2
  {
    OneMore([], r, len);
    Snoc([], r, len);
    assert [] + [r] == [r];
    OneMore([r], r, len);
    assert [r] + [r] == [r, r];
    OneMore([r, r], r, len);
    assert [r, r] + [r] == [r, r, r];
  }

  /** The factor three is reached: the whole content asked for three times is served three times. */
  lemma ThreeTimesIsReached(len: nat, out: seq<Range>)
    requires len >= 1
    requires Coalesced(out, Normals([Range(0, -1), Range(0, -1), Range(0, -1)], len), len)
    ensures Acceptable([Range(0, -1), Range(0, -1), Range(0, -1)], len)
    ensures Total(out) == 3 * len
  {
    var r := Range(0, len - 1);
    var ns := Normals([Range(0, -1), Range(0, -1), Range(0, -1)], len);
    assert ns == [r, r, r];
    ThreeCopies(r, len);
    var p :| SortOf(p, ns) && out == Merge(p, len);
    ThreeEqual(p, r);
  }

  /** A suffix range is served only if the content is at least as long as the suffix. Section 14.1.2 of
      RFC 9110 would serve the whole content for a longer suffix; the code answers 416. */
  lemma SuffixAcceptedIff(n: nat, len: nat)
    ensures Acceptable([Range(-1, n)], len) <==> 1 <= n <= len
  {
    var rs := [Range(-1, n)];
    var ns := Normals(rs, len);
    assert ns[0] == Normal(rs[0], len);
    assert ns[..0] == [] && Overlapping(ns[..0]) == 0;
    assert Overlapping(ns) <= 1;
    assert InBounds(ns[0], len) <==> 1 <= n <= len;
  }
}
