/** The recency list of one cache shard as a value: most recently used entry first.
    These functions say what the operations of the shard class mean; the laws below are about them. */
module Recency {
  import opened Common

  datatype Entry = Entry(key: string, value: string)

  /** One operation on a shard. */
  datatype Op = Get(key: string) | Put(key: string, value: string) | Remove(key: string)

  ghost predicate Distinct(s: seq<Entry>) {
    forall i, j :: 0 <= i < j < |s| ==> s[i].key != s[j].key
  }

  /** The position of the entry for k, or |s| when there is none. */
  function Find(s: seq<Entry>, k: string): (i: nat)
    ensures i <= |s|
    ensures i < |s| ==> s[i].key == k
    ensures forall j :: 0 <= j < i ==> s[j].key != k
  {
    if s == [] || s[0].key == k then 0 else 1 + Find(s[1..], k)
  }

  predicate Has(s: seq<Entry>, k: string) {
    Find(s, k) < |s|
  }

  function Lookup(s: seq<Entry>, k: string): Option<string> {
    if Has(s, k) then Some(s[Find(s, k)].value) else None
  }

  function Without(s: seq<Entry>, k: string): seq<Entry> {
    var i := Find(s, k);
    if i < |s| then RemoveAt(s, i) else s
  }

  function AfterGet(s: seq<Entry>, k: string): seq<Entry> {
    if Has(s, k) then [s[Find(s, k)]] + Without(s, k) else s
  }

  function AfterPut(s: seq<Entry>, capacity: nat, k: string, v: string): seq<Entry> {
    if Has(s, k) then [Entry(k, v)] + Without(s, k)
    else if s != [] && |s| >= capacity then [Entry(k, v)] + s[..|s| - 1]
    else [Entry(k, v)] + s
  }

  function Apply(s: seq<Entry>, capacity: nat, op: Op): seq<Entry> {
    match op
    case Get(k) => AfterGet(s, k)
    case Put(k, v) => AfterPut(s, capacity, k, v)
    case Remove(k) => Without(s, k)
  }

  /** The list after a trace of operations on an empty shard; the last operation is the latest. */
  function Run(capacity: nat, ops: seq<Op>): seq<Entry> {
    if ops == [] then [] else Apply(Run(capacity, ops[..|ops| - 1]), capacity, ops[|ops| - 1])
  }

  ghost predicate Legal(s: seq<Entry>, capacity: nat) {
    Distinct(s) && |s| <= capacity
  }

  ghost function Keys(s: seq<Entry>): set<string> {
    set i | 0 <= i < |s| :: s[i].key
  }

  // ----- basic facts

  lemma FindUnique(s: seq<Entry>, k: string, i: nat)
    requires Distinct(s) && i < |s| && s[i].key == k
    ensures Find(s, k) == i
  {
  }

  lemma HasIffKey(s: seq<Entry>, k: string)
    ensures Has(s, k) <==> k in Keys(s)
  {
    if k in Keys(s) {
      var i :| 0 <= i < |s| && s[i].key == k;
    }
  }

  lemma LookupFront(e: Entry, s: seq<Entry>, k: string)
    ensures Lookup([e] + s, k) == if e.key == k then Some(e.value) else Lookup(s, k)
    ensures e.key != k ==> Find([e] + s, k) == Find(s, k) + 1
  {
    assert ([e] + s)[1..] == s;
  }

  lemma WithoutFacts(s: seq<Entry>, gone: string, k: string)
    requires Distinct(s)
    ensures Distinct(Without(s, gone)) && !Has(Without(s, gone), gone)
    ensures k != gone ==> Lookup(Without(s, gone), k) == Lookup(s, k)
  {
    var i := Find(s, gone);
    var t := Without(s, gone);
    if k != gone && Has(s, k) {
      var n := Find(s, k);
      FindUnique(t, k, if n < i then n else n - 1);
    }
  }

  lemma DropLastFacts(s: seq<Entry>, k: string)
    requires s != [] && Distinct(s)
    ensures Distinct(s[..|s| - 1])
    ensures Lookup(s[..|s| - 1], k) == if s[|s| - 1].key == k then None else Lookup(s, k)
  {
    var t := s[..|s| - 1];
    if Has(s, k) && Find(s, k) < |t| {
      FindUnique(t, k, Find(s, k));
    }
  }

  lemma DistinctFront(e: Entry, s: seq<Entry>)
    requires Distinct(s) && !Has(s, e.key)
    ensures Distinct([e] + s)
  {
  }

  /** What one operation does to the entry of any key k: a put and a remove decide their own key, a get
      changes no entry, and the entry of another key stays or, for a put of a new key, may be evicted. */
  lemma LookupAfter(s: seq<Entry>, capacity: nat, op: Op, k: string)
    requires capacity >= 1 && Legal(s, capacity)
    ensures Legal(Apply(s, capacity, op), capacity)
    ensures var was, now := Lookup(s, k), Lookup(Apply(s, capacity, op), k);
            match op
            case Get(_) => now == was
            case Put(j, v) => if j == k then now == Some(v) else now == was || (now == None && !Has(s, j))
            case Remove(j) => now == if j == k then None else was
  {
    WithoutFacts(s, op.key, k);
    var rest := if Has(s, op.key) then Without(s, op.key) else if s != [] && |s| >= capacity then s[..|s| - 1] else s;
    if s != [] { DropLastFacts(s, k); DropLastFacts(s, op.key); }
    match op
    case Remove(_) =>
    case Get(j) => GetFacts(s, j, k);
    case Put(j, v) =>
      LookupFront(Entry(j, v), rest, k);
      DistinctFront(Entry(j, v), rest);
  }

  lemma {:induction false} GetFacts(s: seq<Entry>, j: string, k: string)
    requires Distinct(s)
    ensures Distinct(AfterGet(s, j)) && |AfterGet(s, j)| == |s|
    ensures Lookup(AfterGet(s, j), k) == Lookup(s, k)
  {
    if Has(s, j) {
      WithoutFacts(s, j, k);
      LookupFront(s[Find(s, j)], Without(s, j), k);
      DistinctFront(s[Find(s, j)], Without(s, j));
    }
  }

  lemma {:induction false} RunLegal(capacity: nat, ops: seq<Op>)
    requires capacity >= 1
    ensures Legal(Run(capacity, ops), capacity)
  {
    if ops != [] {
      RunLegal(capacity, ops[..|ops| - 1]);
      LookupAfter(Run(capacity, ops[..|ops| - 1]), capacity, ops[|ops| - 1], "");
    }
  }

  // ----- inclusion: a larger list keeps every entry of a smaller one, in the same order

  lemma FindInPrefix(small: seq<Entry>, large: seq<Entry>, k: string)
    requires small <= large
    ensures Has(small, k) ==> Find(large, k) == Find(small, k)
    ensures !Has(small, k) ==> Find(large, k) >= |small|
  {
    var i := Find(small, k);
    if i < |small| {
      assert large[i] == small[i];
      assert forall j :: 0 <= j < i ==> large[j] == small[j];
    } else {
      assert forall j :: 0 <= j < |small| ==> large[j] == small[j];
    }
  }

  /** A put keeps the smaller list a prefix of the larger one. */
  lemma {:induction false} PutKeepsPrefix(small: seq<Entry>, c: nat, large: seq<Entry>, d: nat, k: string, v: string)
    requires 1 <= c <= d && small <= large && |small| <= c && |large| <= d
    ensures AfterPut(small, c, k, v) <= AfterPut(large, d, k, v)
  {
    FindInPrefix(small, large, k);
    var rest := if Has(small, k) then Without(small, k) else if |small| >= c then small[..|small| - 1] else small;
    var more := if Has(large, k) then Without(large, k) else if |large| >= d then large[..|large| - 1] else large;
    RemoveKeepsPrefix(small, large, k);
    FrontKeepsPrefix(Entry(k, v), rest, more);
  }

  /** Where the smaller list misses and the larger one hits, a put on the smaller side with the value
      the larger one holds does what the hit does on the larger side. */
  lemma PutAgainstGetKeepsPrefix(small: seq<Entry>, c: nat, large: seq<Entry>, k: string, v: string)
    requires 1 <= c && small <= large && |small| <= c
    requires !Has(small, k) && Lookup(large, k) == Some(v)
    ensures AfterPut(small, c, k, v) <= AfterGet(large, k)
  {
    FindInPrefix(small, large, k);
  }

  lemma {:induction false} GetKeepsPrefix(small: seq<Entry>, large: seq<Entry>, k: string)
    requires small <= large && (Has(small, k) <==> Has(large, k))
    ensures AfterGet(small, k) <= AfterGet(large, k)
  {
    if Has(small, k) {
      FindInPrefix(small, large, k);
      RemoveKeepsPrefix(small, large, k);
      FrontKeepsPrefix(small[Find(small, k)], Without(small, k), Without(large, k));
    }
  }

  lemma FrontKeepsPrefix(e: Entry, a: seq<Entry>, b: seq<Entry>)
    requires a <= b
    ensures [e] + a <= [e] + b
  {
  }

  lemma RemoveKeepsPrefix(small: seq<Entry>, large: seq<Entry>, k: string)
    requires small <= large
    ensures Without(small, k) <= Without(large, k)
  {
    FindInPrefix(small, large, k);
    if Has(small, k) {
      RemoveAtKeepsPrefix(small, large, Find(small, k));
    } else if Has(large, k) {
      PrefixBeforeRemoved(large, Find(large, k), |small|);
    }
  }

  /** Exactly when a get that only the larger side can answer leaves the smaller list a prefix. */
  lemma LoneHitKeepsPrefixIff(small: seq<Entry>, large: seq<Entry>, k: string)
    requires small <= large && Distinct(large) && !Has(small, k)
    ensures small <= AfterGet(large, k) <==> small == [] || !Has(large, k)
  {
    FindInPrefix(small, large, k);
  }

  // ----- recency: what decides whether a key is still there

  /** The operation moves key k to the front when applied to s. */
  predicate Touches(s: seq<Entry>, op: Op, k: string) {
    op.key == k && (op.Put? || (op.Get? && Has(s, k)))
  }

  /** k was put and not removed since. */
  predicate Alive(ops: seq<Op>, k: string) {
    ops != [] &&
    var op := ops[|ops| - 1];
    if op.key == k && !op.Get? then op.Put?
    else Alive(ops[..|ops| - 1], k)
  }

  /** The value of the last put of k. */
  function LastPut(ops: seq<Op>, k: string): string {
    if ops == [] then ""
    else
      var op := ops[|ops| - 1];
      if op.key == k && op.Put? then op.value else LastPut(ops[..|ops| - 1], k)
  }

  /** The keys other than k that were put or hit since k was last put or hit. */
  ghost function Since(capacity: nat, ops: seq<Op>, k: string): set<string> {
    if ops == [] then {}
    else
      var before := ops[..|ops| - 1];
      var op := ops[|ops| - 1];
      var s := Run(capacity, before);
      if Touches(s, op, k) then {}
      else if op.key != k && Touches(s, op, op.key) then Since(capacity, before, k) + {op.key}
      else Since(capacity, before, k)
  }

  /** Those of them that have not been removed again. */
  ghost function Newer(capacity: nat, ops: seq<Op>, k: string): set<string> {
    if ops == [] then {}
    else
      var before := ops[..|ops| - 1];
      var op := ops[|ops| - 1];
      var s := Run(capacity, before);
      if Touches(s, op, k) then {}
      else if op.key != k then Fresher(s, op, Newer(capacity, before, k))
      else Newer(capacity, before, k)
  }

  /** At every moment since k was last put or hit they were fewer than capacity. */
  ghost predicate StaysRecent(capacity: nat, ops: seq<Op>, k: string) {
    ops == [] ||
    var before, op := ops[..|ops| - 1], ops[|ops| - 1];
    Touches(Run(capacity, before), op, k)
    || (StaysRecent(capacity, before, k) && |Newer(capacity, ops, k)| < capacity)
  }

  predicate NoRemove(ops: seq<Op>) {
    forall i :: 0 <= i < |ops| ==> !ops[i].Remove?
  }

  /** The keys in front of k in the list. */
  ghost function Ahead(s: seq<Entry>, k: string): set<string> {
    Keys(s[..Find(s, k)])
  }

  lemma KeysCount(s: seq<Entry>)
    requires Distinct(s)
    ensures |Keys(s)| == |s|
  {
    if s != [] {
      var t := s[..|s| - 1];
      KeysCount(t);
      assert Keys(s) == Keys(t) + {s[|s| - 1].key};
      assert s[|s| - 1].key !in Keys(t);
    }
  }

  lemma AheadAfterFront(e: Entry, s: seq<Entry>, k: string)
    requires e.key != k
    ensures Ahead([e] + s, k) == Ahead(s, k) + {e.key}
  {
    hide Keys;
    LookupFront(e, s, k);
    var i := Find(s, k);
    PrefixOfCons(e, s, i);
    KeysConcat([e], s[..i]);
    KeysOfOne(e);
  }

  lemma KeysOfOne(e: Entry)
    ensures Keys([e]) == {e.key}
  {
    assert [e][0].key == e.key;
  }

  /** What an operation on another key does to a set of keys more recent than k. */
  ghost function Fresher(s: seq<Entry>, op: Op, ahead: set<string>): set<string> {
    if op.Remove? then ahead - {op.key} else if Touches(s, op, op.key) then ahead + {op.key} else ahead
  }

  /** While k stays in the list, that is what happens to the keys ahead of it. */
  lemma AheadAfter(s: seq<Entry>, capacity: nat, op: Op, k: string)
    requires Legal(s, capacity) && Has(s, k) && Has(Apply(s, capacity, op), k) && op.key != k
    ensures Ahead(Apply(s, capacity, op), k) == Fresher(s, op, Ahead(s, k))
  {
    hide Ahead, Without;
    var j := op.key;
    if Has(s, j) {
      AheadWithout(s, j, k);
      if !op.Remove? {
        var e := if op.Get? then s[Find(s, j)] else Entry(j, op.value);
        AheadAfterFront(e, Without(s, j), k);
      }
    } else {
      AheadOfMissing(s, j, k);
      if op.Put? {
        PushedAhead(s, capacity, op, k);
      }
    }
  }

  lemma AheadOfMissing(s: seq<Entry>, j: string, k: string)
    requires !Has(s, j)
    ensures j !in Ahead(s, k) && Without(s, j) == s
  {
  }

  lemma PushedAhead(s: seq<Entry>, capacity: nat, op: Op, k: string)
    requires op.Put? && !Has(s, op.key) && op.key != k && Has(s, k) && Has(Apply(s, capacity, op), k)
    ensures Ahead(Apply(s, capacity, op), k) == Ahead(s, k) + {op.key}
  {
    hide Ahead;
    var e := Entry(op.key, op.value);
    var rest := if s != [] && |s| >= capacity then s[..|s| - 1] else s;
    AheadAfterFront(e, rest, k);
    LookupFront(e, rest, k);
    AheadInPrefix(rest, s, k);
  }

  lemma AheadInPrefix(small: seq<Entry>, large: seq<Entry>, k: string)
    requires small <= large && Has(small, k)
    ensures Ahead(small, k) == Ahead(large, k)
  {
    FindInPrefix(small, large, k);
    assert small[..Find(small, k)] == large[..Find(large, k)];
  }

  lemma AheadWithout(s: seq<Entry>, j: string, k: string)
    requires Distinct(s) && Has(s, k) && Has(s, j) && j != k
    ensures Ahead(Without(s, j), k) == Ahead(s, k) - {j}
  {
    var i, n := Find(s, j), Find(s, k);
    var m := if n < i then n else n - 1;
    FindUnique(Without(s, j), k, m) by {
      WithoutFacts(s, j, k);
      assert Without(s, j)[m] == s[n];
    }
    if n < i {
      PrefixBeforeRemoved(s, i, n);
      assert j !in Keys(s[..n]);
    } else {
      PrefixAfterRemoved(s, i, n);
      KeysAround(s, i, n);
    }
  }

  lemma KeysAround(s: seq<Entry>, i: nat, n: nat)
    requires Distinct(s) && i < n <= |s|
    ensures Keys(s[..i] + s[i + 1..n]) == Keys(s[..n]) - {s[i].key}
  {
    var a, b, c := s[..i], s[i + 1..n], [s[i]];
    assert s[..n] == a + (c + b);
    KeysConcat(a, b);
    KeysConcat(c, b);
    KeysConcat(a, c + b);
    assert Keys(c) == {s[i].key} by { assert c[0].key == s[i].key; }
  }

  lemma KeysConcat(a: seq<Entry>, b: seq<Entry>)
    ensures Keys(a + b) == Keys(a) + Keys(b)
  {
    var c := a + b;
    forall i | 0 <= i < |a| ensures a[i].key in Keys(c) { assert c[i] == a[i]; }
    forall i | 0 <= i < |b| ensures b[i].key in Keys(c) { assert c[|a| + i] == b[i]; }
  }

  /** A key that an operation on another key pushes out was last in a full list. */
  lemma {:induction false} EvictedFromTheEnd(s: seq<Entry>, capacity: nat, op: Op, k: string)
    requires capacity >= 1 && Legal(s, capacity) && Has(s, k) && op.key != k
    requires !Has(Apply(s, capacity, op), k)
    ensures op.Put? && op.key !in Ahead(s, k) && |Ahead(s, k) + {op.key}| == capacity
  {
    LookupAfter(s, capacity, op, k);
    var n := Find(s, k);
    HasIffKey(s, op.key);
    var rest := s[..|s| - 1];
    LookupFront(Entry(op.key, op.value), if |s| >= capacity then rest else s, k);
    DropLastFacts(s, k);
    KeysCount(s[..n]);
  }

  lemma NewerStep(capacity: nat, ops: seq<Op>, k: string)
    requires ops != []
    ensures var before, op := ops[..|ops| - 1], ops[|ops| - 1];
            var s, newer := Run(capacity, before), Newer(capacity, before, k);
            && Run(capacity, ops) == Apply(s, capacity, op)
            && (op.key != k ==> Newer(capacity, ops, k) == Fresher(s, op, newer))
            && (op.key == k ==> Newer(capacity, ops, k) == if Touches(s, op, k) then {} else newer)
  {
  }

  /** A key in the list was put and not removed since, and has the value last put. */
  lemma {:induction false} FoundIsAlive(capacity: nat, ops: seq<Op>, k: string)
    requires capacity >= 1
    ensures var s := Run(capacity, ops);
            Has(s, k) ==> Alive(ops, k) && Lookup(s, k) == Some(LastPut(ops, k))
  {
    if ops != [] {
      var before, op := ops[..|ops| - 1], ops[|ops| - 1];
      FoundIsAlive(capacity, before, k);
      RunLegal(capacity, before);
      LookupAfter(Run(capacity, before), capacity, op, k);
    }
  }

  /** While k is in the list, the keys ahead of it are exactly those put or hit since k was, and not
      removed again. */
  lemma {:induction false} AheadIsNewer(capacity: nat, ops: seq<Op>, k: string)
    requires capacity >= 1 && Has(Run(capacity, ops), k)
    ensures Ahead(Run(capacity, ops), k) == Newer(capacity, ops, k)
  {
    hide Fresher;
    var before, op := ops[..|ops| - 1], ops[|ops| - 1];
    var s := Run(capacity, before);
    var t := Apply(s, capacity, op);
    NewerStep(capacity, ops, k);
    RunLegal(capacity, before);
    LookupAfter(s, capacity, op, k);
    if op.key == k {
      FindUnique(t, k, 0);
      assert t[..0] == [];
    } else {
      AheadIsNewer(capacity, before, k);
      AheadAfter(s, capacity, op, k);
    }
  }

  lemma AheadCount(s: seq<Entry>, capacity: nat, k: string)
    requires Legal(s, capacity) && Has(s, k)
    ensures |Ahead(s, k)| < capacity
  {
    KeysCount(s[..Find(s, k)]);
  }

  /** A key is in the list exactly when it was put, not removed since, and has stayed recent. */
  lemma {:induction false} FoundIffRecent(capacity: nat, ops: seq<Op>, k: string)
    requires capacity >= 1
    ensures Has(Run(capacity, ops), k) <==> Alive(ops, k) && StaysRecent(capacity, ops, k)
  {
    hide Ahead, Newer;
    if ops != [] {
      var before, op := ops[..|ops| - 1], ops[|ops| - 1];
      var s := Run(capacity, before);
      FoundIffRecent(capacity, before, k);
      RunLegal(capacity, before);
      LookupAfter(s, capacity, op, k);
      if op.key != k && Has(s, k) {
        NewerStep(capacity, ops, k);
        AheadIsNewer(capacity, before, k);
        if Has(Run(capacity, ops), k) {
          AheadIsNewer(capacity, ops, k);
          AheadCount(Run(capacity, ops), capacity, k);
        } else {
          EvictedFromTheEnd(s, capacity, op, k);
        }
      }
    }
  }

  /** Recency characterisation, for every trace: a get of k hits exactly when k was put and not removed
      since and, at every moment since it was last put or hit, fewer than capacity other keys had been put
      or hit and not removed again; and it returns the value last put. */
  lemma {:induction false} HitIff(capacity: nat, ops: seq<Op>, k: string)
    requires capacity >= 1
    ensures Lookup(Run(capacity, ops), k) ==
            if Alive(ops, k) && StaysRecent(capacity, ops, k) then Some(LastPut(ops, k)) else None
  {
    FoundIsAlive(capacity, ops, k);
    FoundIffRecent(capacity, ops, k);
  }

  /** Removes only help; without them the moment of the get decides. */
  lemma {:induction false} NewerInSince(capacity: nat, ops: seq<Op>, k: string)
    ensures Newer(capacity, ops, k) <= Since(capacity, ops, k)
    ensures NoRemove(ops) ==> Newer(capacity, ops, k) == Since(capacity, ops, k)
  {
    if ops != [] {
      NewerInSince(capacity, ops[..|ops| - 1], k);
    }
  }

  lemma {:induction false} FewSinceStaysRecent(capacity: nat, ops: seq<Op>, k: string)
    requires |Since(capacity, ops, k)| < capacity
    ensures StaysRecent(capacity, ops, k)
  {
    if ops != [] {
      var before, op := ops[..|ops| - 1], ops[|ops| - 1];
      if !Touches(Run(capacity, before), op, k) {
        SubsetSize(Since(capacity, before, k), Since(capacity, ops, k));
        FewSinceStaysRecent(capacity, before, k);
        NewerInSince(capacity, ops, k);
        SubsetSize(Newer(capacity, ops, k), Since(capacity, ops, k));
      }
    }
  }

  /** So counting every key touched since is enough for a hit, */
  lemma {:induction false} HitIfRecent(capacity: nat, ops: seq<Op>, k: string)
    requires capacity >= 1
    ensures Alive(ops, k) && |Since(capacity, ops, k)| < capacity ==>
              Lookup(Run(capacity, ops), k) == Some(LastPut(ops, k))
    ensures !Alive(ops, k) ==> Lookup(Run(capacity, ops), k) == None
  {
    HitIff(capacity, ops, k);
    if |Since(capacity, ops, k)| < capacity { FewSinceStaysRecent(capacity, ops, k); }
  }

  /** and without removes it is exactly when the key is found. */
  lemma {:induction false} HitIffRecent(capacity: nat, ops: seq<Op>, k: string)
    requires capacity >= 1 && NoRemove(ops)
    ensures Lookup(Run(capacity, ops), k) ==
            if Alive(ops, k) && |Since(capacity, ops, k)| < capacity then Some(LastPut(ops, k)) else None
  {
    HitIff(capacity, ops, k);
    NewerInSince(capacity, ops, k);
    if |Since(capacity, ops, k)| < capacity { FewSinceStaysRecent(capacity, ops, k); }
  }

  /** With removes a key can outlive capacity other keys: put "k", put "a", remove "a", put "b". */
  lemma RemovesKeepKeysLonger()
    ensures var ops := [Put("k", "1"), Put("a", ""), Remove("a"), Put("b", "")];
            Has(Run(2, ops), "k") && |Since(2, ops, "k")| == 2
  {
    var o1, o2, o3 := [Put("k", "1")], [Put("k", "1"), Put("a", "")], [Put("k", "1"), Put("a", ""), Remove("a")];
    var o4 := o3 + [Put("b", "")];
    assert "a" != "b" && "a" != "k" && "b" != "k" by {
      assert "a"[0] != "b"[0] && "a"[0] != "k"[0] && "b"[0] != "k"[0];
    }
    assert o1[..0] == [] && o2[..1] == o1 && o3[..2] == o2 && o4[..3] == o3;
    assert Run(2, o1) == [Entry("k", "1")];
    assert Run(2, o2) == [Entry("a", ""), Entry("k", "1")];
    assert Run(2, o3) == [Entry("k", "1")];
    assert Run(2, o4) == [Entry("b", ""), Entry("k", "1")];
    assert Run(2, o4)[1].key == "k";
    assert Since(2, o1, "k") == {};
    assert Since(2, o2, "k") == {"a"};
    assert Since(2, o3, "k") == {"a"};
    assert Since(2, o4, "k") == {"a", "b"};
    assert o4 == [Put("k", "1"), Put("a", ""), Remove("a"), Put("b", "")];
  }
}
