/** What every component needs. */
module Common {
  datatype Option<+T> = None | Some(value: T)

  lemma SubsetSize<T>(a: set<T>, b: set<T>)
    requires a <= b
    ensures |a| <= |b|
  {
    assert b == a + (b - a);
  }

  /** Concatenation may be regrouped, and a part of a part taken at once. */
  lemma Assoc<T>(a: seq<T>, b: seq<T>, c: seq<T>)
    ensures (a + b) + c == a + (b + c)
  {
  }

  lemma SliceOfSlice<T>(s: seq<T>, a: nat, b: nat, c: nat, d: nat)
    requires a <= b <= |s| && c <= d <= b - a
    ensures s[a..b][c..d] == s[a + c..a + d]
  {
    var u, v := s[a..b][c..d], s[a + c..a + d];
    assert |u| == |v| && forall i :: 0 <= i < |u| ==> u[i] == v[i];
  }

  /** The sequence without its element at i. */
  function RemoveAt<T>(s: seq<T>, i: nat): seq<T>
    requires i < |s|
  {
    s[..i] + s[i + 1..]
  }

  lemma RemoveUpdated<T>(s: seq<T>, i: nat, x: T)
    requires i < |s|
    ensures s[i := x][i] == x && RemoveAt(s[i := x], i) == RemoveAt(s, i)
  {
    assert s[i := x][..i] == s[..i] && s[i := x][i + 1..] == s[i + 1..];
  }

  lemma RemoveAtKeepsPrefix<T>(s: seq<T>, t: seq<T>, i: nat)
    requires s <= t && i < |s|
    ensures RemoveAt(s, i) <= RemoveAt(t, i)
  {
    var u, v := RemoveAt(s, i), RemoveAt(t, i);
    forall x | 0 <= x < |u| ensures u[x] == v[x] {
      assert u[x] == s[if x < i then x else x + 1] && v[x] == t[if x < i then x else x + 1];
    }
  }

  lemma PrefixBeforeRemoved<T>(s: seq<T>, i: nat, n: nat)
    requires n <= i < |s|
    ensures RemoveAt(s, i)[..n] == s[..n]
  {
    var u := RemoveAt(s, i);
    assert forall x :: 0 <= x < n ==> u[x] == s[x];
  }

  lemma PrefixAfterRemoved<T>(s: seq<T>, i: nat, n: nat)
    requires i < n <= |s|
    ensures RemoveAt(s, i)[..n - 1] == RemoveAt(s[..n], i) == s[..i] + s[i + 1..n]
  {
    var u, v := RemoveAt(s, i), s[..i] + s[i + 1..n];
    var t := s[..n];
    assert |v| == n - 1 && t[..i] == s[..i] && t[i + 1..] == s[i + 1..n];
    forall x | 0 <= x < n - 1 ensures u[x] == v[x] {
      assert u[x] == s[if x < i then x else x + 1] && v[x] == s[if x < i then x else x + 1];
    }
  }

  lemma PrefixOfCons<T>(x: T, s: seq<T>, n: nat)
    requires n <= |s|
    ensures ([x] + s)[..n + 1] == [x] + s[..n]
  {
    var u, v := ([x] + s)[..n + 1], [x] + s[..n];
    forall i | 0 <= i < n + 1 ensures u[i] == v[i] {
      if i > 0 { assert u[i] == s[i - 1] && v[i] == s[i - 1]; }
    }
  }
}
