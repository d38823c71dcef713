/** Characters, trimming, splitting and number printing, shared by the HTTP components. A string stands
    for a byte string: one character per byte. */
module Text {
  import opened Common

  predicate IsDigit(c: char) {
    '0' <= c <= '9'
  }

  predicate IsAlpha(c: char) {
    'a' <= c <= 'z' || 'A' <= c <= 'Z'
  }

  predicate IsAlnum(c: char) {
    IsDigit(c) || IsAlpha(c)
  }

  /** isspace in the C locale. */
  predicate IsSpace(c: char) {
    c == ' ' || '\t' <= c <= '\r'
  }

  function SkipSpace(s: string): string {
    if s != "" && IsSpace(s[0]) then SkipSpace(s[1..]) else s
  }

  predicate IsSpaceOrTab(c: char) {
    c == ' ' || c == '\t'
  }

  // ----- trimming

  function TrimLeft(s: string): string {
    if s != "" && IsSpaceOrTab(s[0]) then TrimLeft(s[1..]) else s
  }

  function TrimRight(s: string): string {
    if s != "" && IsSpaceOrTab(s[|s| - 1]) then TrimRight(s[..|s| - 1]) else s
  }

  function Trim(s: string): string {
    TrimRight(TrimLeft(s))
  }

  /** Nothing to trim: empty, or with both ends neither space nor tab. */
  predicate Trimmed(s: string) {
    s == "" || (!IsSpaceOrTab(s[0]) && !IsSpaceOrTab(s[|s| - 1]))
  }

  lemma TrimIdentity(s: string)
    requires Trimmed(s)
    ensures Trim(s) == s && TrimRight(s) == s
  {
  }

  lemma TrimLeftAt(s: string, n: nat)
    requires n <= |s| && forall i :: 0 <= i < n ==> IsSpaceOrTab(s[i])
    requires n < |s| ==> !IsSpaceOrTab(s[n])
    ensures TrimLeft(s) == s[n..]
  {
    if n > 0 { TrimLeftAt(s[1..], n - 1); }
  }

  lemma TrimRightAt(s: string, n: nat)
    requires n <= |s| && forall i :: n <= i < |s| ==> IsSpaceOrTab(s[i])
    requires n > 0 ==> !IsSpaceOrTab(s[n - 1])
    ensures TrimRight(s) == s[..n]
    decreases |s|
  {
    if n < |s| {
      var t := s[..|s| - 1];
      TrimRightAt(t, n);
      assert t[..n] == s[..n];
    } else {
      assert s[..n] == s;
    }
  }

  lemma TrimAt(s: string, a: nat, b: nat)
    requires a < b <= |s| && !IsSpaceOrTab(s[a]) && !IsSpaceOrTab(s[b - 1])
    requires forall i :: 0 <= i < a ==> IsSpaceOrTab(s[i])
    requires forall i :: b <= i < |s| ==> IsSpaceOrTab(s[i])
    ensures Trim(s) == s[a..b]
  {
    TrimLeftAt(s, a);
    TrimRightAt(s[a..], b - a);
    assert s[a..][..b - a] == s[a..b];
  }

  /** trim on the part of s between two positions. Its loops are bounded by the ends of s, not by those
      of the part, so on blank parts the two positions may pass each other. */
  method TrimBetween(s: string, left: nat, right: nat) returns (l: nat, r: nat)
    requires left <= right <= |s|
    ensures l <= |s| && r <= |s|
    ensures l < r <==> Trim(s[left..right]) != ""
    ensures l < r ==> s[l..r] == Trim(s[left..right])
  {
    l, r := left, right;
    while l < |s| && IsSpaceOrTab(s[l])
      invariant left <= l <= |s|
      invariant forall i :: left <= i < l ==> IsSpaceOrTab(s[i])
    {
      l := l + 1;
    }
    while r > 0 && IsSpaceOrTab(s[r - 1])
      invariant r <= right
      invariant forall i :: r <= i < right ==> IsSpaceOrTab(s[i])
    {
      r := r - 1;
    }
    if l < right {
      assert l < r;
      TrimAt(s[left..right], l - left, r - left);
      SliceOfSlice(s, left, right, l - left, r - left);
    } else {
      assert r <= left;
      TrimLeftAt(s[left..right], right - left);
    }
  }

  method TrimCopy(s: string) returns (t: string)
    ensures t == Trim(s)
  {
    var l, r := TrimBetween(s, 0, |s|);
    assert s[0..|s|] == s;
    t := if l < r then s[l..r] else "";
  }

  // ----- finding and splitting

  function IndexOf(s: string, c: char): (i: nat)
    ensures i <= |s|
    ensures i < |s| ==> s[i] == c
    ensures forall j :: 0 <= j < i ==> s[j] != c
  {
    if s == "" || s[0] == c then 0 else 1 + IndexOf(s[1..], c)
  }

  lemma IndexOfAt(a: string, c: char, b: string)
    requires c !in a
    ensures IndexOf(a + [c] + b, c) == |a|
  {
    var s := a + [c] + b;
    assert s[|a|] == c;
    assert forall j :: 0 <= j < |a| ==> s[j] == a[j];
  }

  function Field(p: string): seq<string> {
    if Trim(p) == "" then [] else [Trim(p)]
  }

  /** The trimmed non-empty parts of s between the delimiters. */
  function Split(s: string, d: char): seq<string> {
    var i := IndexOf(s, d);
    if i == |s| then Field(s) else Field(s[..i]) + Split(s[i + 1..], d)
  }

  lemma SplitOne(a: string, d: char)
    requires d !in a
    ensures Split(a, d) == Field(a)
  {
    forall j | 0 <= j < |a| ensures a[j] != d { assert a[j] in a; }
  }

  lemma SplitCons(a: string, d: char, b: string)
    requires d !in a
    ensures Split(a + [d] + b, d) == Field(a) + Split(b, d)
  {
    IndexOfAt(a, d, b);
    assert (a + [d] + b)[..|a|] == a && (a + [d] + b)[|a| + 1..] == b;
  }

  lemma Regroup(p: string, d: char, q: string, b: string)
    ensures (p + [d] + q) + [d] + b == p + [d] + (q + [d] + b)
  {
  }

  lemma {:induction false} SplitConcat(a: string, d: char, b: string)
    ensures Split(a + [d] + b, d) == Split(a, d) + Split(b, d)
    decreases |a|
  {
    hide Split, Field;
    var i := IndexOf(a, d);
    if i == |a| {
      forall x | x in a ensures x != d { var j :| 0 <= j < |a| && a[j] == x; }
      SplitOne(a, d);
      SplitCons(a, d, b);
    } else {
      var p, q := a[..i], a[i + 1..];
      assert d !in p && a == p + [d] + q;
      SplitCons(p, d, q);
      SplitCons(p, d, q + [d] + b);
      SplitConcat(q, d, b);
      Regroup(p, d, q, b);
      Assoc(Field(p), Split(q, d), Split(b, d));
    }
  }

  /** Where the loop meets a delimiter it hands over the part before it. */
  lemma SplitAt(s: string, beg: nat, i: nat, d: char)
    requires beg <= i < |s| && s[i] == d && forall j :: beg <= j < i ==> s[j] != d
    ensures Split(s[beg..], d) == Field(s[beg..i]) + Split(s[i + 1..], d)
  {
    hide Split, Field;
    SplitCons(s[beg..i], d, s[i + 1..]);
    assert s[beg..] == s[beg..i] + [d] + s[i + 1..];
  }

  /** The callback is called for a part unless nothing is left of it after trimming. */
  method HandOver(s: string, beg: nat, end: nat) returns (part: seq<string>)
    requires beg <= end <= |s|
    ensures part == Field(s[beg..end])
  {
    var l, r := TrimBetween(s, beg, end);
    part := if l < r then [s[l..r]] else [];
  }

  lemma SplitLast(s: string, beg: nat, d: char)
    requires beg <= |s| && forall j :: beg <= j < |s| ==> s[j] != d
    ensures Split(s[beg..], d) == Field(s[beg..|s|])
  {
    assert s[beg..] == s[beg..|s|];
    forall j | 0 <= j < |s| - beg ensures s[beg..][j] != d { assert s[beg..][j] == s[beg + j]; }
    SplitOne(s[beg..], d);
  }

  lemma SplitStep(s: string, beg: nat, i: nat, d: char, parts: seq<string>)
    requires beg <= i < |s| && s[i] == d && forall j :: beg <= j < i ==> s[j] != d
    ensures parts + Split(s[beg..], d) == (parts + Field(s[beg..i])) + Split(s[i + 1..], d)
  {
    SplitAt(s, beg, i, d);
    Assoc(parts, Field(s[beg..i]), Split(s[i + 1..], d));
  }

  lemma NothingInField()
    ensures Field("") == []
  {
  }

  /** split, with the parts handed to the callback collected in order. */
  method SplitLoop(s: string, d: char) returns (parts: seq<string>)
    ensures parts == Split(s, d)
  {
    hide Field, Trim;
    var i, beg := 0, 0;
    parts := [];
    ghost var all := Split(s, d);
    assert s[0..] == s && [] + all == all;
    while i < |s|
      invariant 0 <= beg <= i <= |s|
      invariant forall j :: beg <= j < i ==> s[j] != d
      invariant all == parts + Split(s[beg..], d)
    {
      if s[i] == d {
        SplitStep(s, beg, i, d, parts);
        var part := HandOver(s, beg, i);
        parts := parts + part;
        beg := i + 1;
      }
      i := i + 1;
    }
    SplitLast(s, beg, d);
    NothingInField();
    if i > 0 {
      var part := HandOver(s, beg, i);
      parts := parts + part;
    } else {
      assert s[beg..|s|] == "";
    }
  }

  // ----- numbers

  const DIGITS := "0123456789abcdef"

  predicate IsHexDigit(c: char) {
    IsDigit(c) || 'a' <= c <= 'f' || 'A' <= c <= 'F'
  }

  function DigitValue(c: char): (v: nat)
    requires IsHexDigit(c)
    ensures v < 16 && (IsDigit(c) ==> v < 10)
  {
    if IsDigit(c) then c as int - '0' as int
    else if c >= 'a' then c as int - 'a' as int + 10
    else c as int - 'A' as int + 10
  }

  /** The number printed in the base, without leading zeros. */
  function Print(n: nat, base: nat): (s: string)
    requires base == 10 || base == 16
    ensures s != "" && forall c :: c in s ==> IsHexDigit(c) && (base == 10 ==> IsDigit(c))
    decreases n
  {
    if n < base then [DIGITS[n]] else Print(n / base, base) + [DIGITS[n % base]]
  }

  predicate IsNumeral(s: string, base: nat) {
    forall i :: 0 <= i < |s| ==> IsHexDigit(s[i]) && DigitValue(s[i]) < base
  }

  function Value(s: string, base: nat): nat
    requires IsNumeral(s, base)
  {
    if s == "" then 0 else Value(s[..|s| - 1], base) * base + DigitValue(s[|s| - 1])
  }

  lemma DigitRoundTrip(d: nat)
    requires d < 16
    ensures IsHexDigit(DIGITS[d]) && DigitValue(DIGITS[d]) == d && (d < 10 ==> IsDigit(DIGITS[d]))
  {
  }

  lemma ValueSnoc(s: string, c: char, base: nat)
    requires IsNumeral(s, base) && IsHexDigit(c) && DigitValue(c) < base
    ensures IsNumeral(s + [c], base) && Value(s + [c], base) == Value(s, base) * base + DigitValue(c)
  {
    assert (s + [c])[..|s + [c]| - 1] == s;
  }

  lemma {:induction false} ValueOfPrint(n: nat, base: nat)
    requires base == 10 || base == 16
    ensures IsNumeral(Print(n, base), base) && Value(Print(n, base), base) == n
    decreases n
  {
    if n < base {
      DigitRoundTrip(n);
      ValueSnoc("", DIGITS[n], base);
      assert "" + [DIGITS[n]] == [DIGITS[n]];
    } else {
      ValueOfPrint(n / base, base);
      DigitRoundTrip(n % base);
      ValueSnoc(Print(n / base, base), DIGITS[n % base], base);
      assert base == 10 ==> n == (n / 10) * 10 + n % 10;
      assert base == 16 ==> n == (n / 16) * 16 + n % 16;
    }
  }

  function Pow16(k: nat): nat {
    if k == 0 then 1 else 16 * Pow16(k - 1)
  }

  lemma {:induction false} PrintLength(n: nat, k: nat)
    requires k >= 1 && n < Pow16(k)
    ensures |Print(n, 16)| <= k
    decreases k
  {
    if n >= 16 {
      assert Pow16(0) == 1;
      assert n / 16 < Pow16(k - 1);
      PrintLength(n / 16, k - 1);
    }
  }

  /** from_i_to_hex: the loop puts the low digit in front and shifts. */
  method ToHex(n0: nat) returns (s: string)
    ensures s == Print(n0, 16)
  {
    s := [DIGITS[n0 % 16]];
    var n: nat := n0 / 16;
    while n > 0
      invariant Print(n0, 16) == (if n == 0 then "" else Print(n, 16)) + s
    {
      Assoc(if n < 16 then "" else Print(n / 16, 16), [DIGITS[n % 16]], s);
      s := [DIGITS[n % 16]] + s;
      n := n / 16;
    }
  }

  function Concat(ws: seq<string>): string {
    if ws == [] then "" else ws[0] + Concat(ws[1..])
  }

  /** The printed form is the only one without leading zeros, in lower case. */
  lemma {:induction false} PrintCanonical(n: nat, base: nat)
    requires base == 10 || base == 16
    ensures n == 0 ==> Print(n, base) == "0"
    ensures n > 0 ==> Print(n, base)[0] != '0'
    ensures forall c :: c in Print(n, base) ==> IsDigit(c) || 'a' <= c <= 'f'
    decreases n
  {
    if n >= base { PrintCanonical(n / base, base); }
  }

  /** Blanks are no part: nothing is handed over for them. */
  lemma {:induction false} BlankField(s: string)
    requires forall i :: 0 <= i < |s| ==> IsSpaceOrTab(s[i])
    ensures Field(s) == []
  {
    TrimLeftAt(s, |s|);
    TrimRightAt(s, 0);
    assert s[|s|..] == "";
  }
}
