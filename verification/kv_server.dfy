/** What one request does to the table and the cache, as a value; and the same server without a cache. */
module KvSpec {
  import opened Common
  import opened Recency
  import opened Sharding

  /** The first values of the parameters "key" and "val". */
  datatype Params = Params(key: Option<string>, val: Option<string>)

  datatype Call = Create(p: Params) | Read(p: Params) | Update(p: Params) | Delete(p: Params)

  /** status -1 is httplib's "not set by the handler". */
  datatype Answer = Answer(status: int, body: string, cacheStatus: Option<string>)

  const BLANK := Answer(-1, "", None)

  type Table = map<string, string>

  datatype State = State(table: Table, shards: Shards)

  // ----- the four SQL statements; ok says whether the statement completes

  /** With an empty value the second parameter stays unbound and the statement does not complete. */
  function Inserted(t: Table, k: string, v: string, ok: bool): Table {
    if ok && v != "" then t[k := v] else t
  }

  function Updated(t: Table, k: string, v: string, ok: bool): Table {
    if ok && k in t then t[k := v] else t
  }

  /** The driver may count the rows it matched or only those it changed. */
  function RowsAffected(t: Table, k: string, v: string, ok: bool, countMatched: bool): nat {
    if ok && k in t && (countMatched || t[k] != v) then 1 else 0
  }

  function Deleted(t: Table, k: string, ok: bool): Table {
    if ok then t - {k} else t
  }

  function Handle(s: State, cfg: Config, countMatched: bool, call: Call, ok: bool): (State, Answer)
    requires cfg.count >= 1 && |s.shards| == cfg.count
  {
    if call.p.key.None? || ((call.Create? || call.Update?) && call.p.val.None?) then
      (s, BLANK.(status := 400))
    else
      var k := call.p.key.value;
      match call
      case Create(p) =>
        (State(Inserted(s.table, k, p.val.value, ok), Step(s.shards, cfg, Put(k, p.val.value))),
         BLANK.(body := "Created"))
      case Read(_) =>
        var found := LookupIn(s.shards, cfg, k);
        if found.Some? then
          (s.(shards := Step(s.shards, cfg, Get(k))), Answer(-1, found.value, Some("HIT")))
        else if !ok then
          (s, BLANK.(status := 500))
        else if k in s.table then
          (s.(shards := Step(s.shards, cfg, Put(k, s.table[k]))), Answer(-1, s.table[k], Some("MISS")))
        else
          (s, Answer(404, "Not Found", None))
      case Update(p) =>
        var t := Updated(s.table, k, p.val.value, ok);
        if RowsAffected(s.table, k, p.val.value, ok, countMatched) > 0 then
          (State(t, Step(s.shards, cfg, Put(k, p.val.value))), BLANK.(body := "Updated"))
        else
          (s.(table := t), Answer(404, "Key not found", None))
      case Delete(_) =>
        (State(Deleted(s.table, k, ok), Step(s.shards, cfg, Remove(k))), BLANK.(body := "Deleted"))
  }

  /** The reference: the same handlers with every cache step left out. */
  function HandleUncached(t: Table, countMatched: bool, call: Call, ok: bool): (Table, Answer) {
    if call.p.key.None? || ((call.Create? || call.Update?) && call.p.val.None?) then
      (t, BLANK.(status := 400))
    else
      var k := call.p.key.value;
      match call
      case Create(p) => (Inserted(t, k, p.val.value, ok), BLANK.(body := "Created"))
      case Read(_) =>
        (t, if !ok then BLANK.(status := 500)
            else if k in t then BLANK.(body := t[k])
            else Answer(404, "Not Found", None))
      case Update(p) =>
        (Updated(t, k, p.val.value, ok),
         if RowsAffected(t, k, p.val.value, ok, countMatched) > 0 then BLANK.(body := "Updated")
         else Answer(404, "Key not found", None))
      case Delete(_) => (Deleted(t, k, ok), BLANK.(body := "Deleted"))
  }

  ghost predicate SameAnswer(a: Answer, b: Answer) {
    a.status == b.status && a.body == b.body
  }

  /** Every cached entry is what the table says. */
  ghost predicate Coherent(s: State, cfg: Config) {
    && Proper(s.shards, cfg)
    && forall k :: LookupIn(s.shards, cfg, k).Some? ==>
         k in s.table && s.table[k] == LookupIn(s.shards, cfg, k).value
  }

  /** A create whose statement does not complete, of a row the table does not have already. */
  predicate LostInsert(s: State, call: Call, ok: bool) {
    && call.Create? && call.p.key.Some? && call.p.val.Some?
    && var k, v := call.p.key.value, call.p.val.value;
       (!ok || v == "") && !(k in s.table && s.table[k] == v)
  }

  /** The cache stays a part of the table exactly when the request is not a create whose insert was lost;
      failures in read, update and delete do no harm. */
  lemma {:induction false} CoherenceKeptIff(s: State, cfg: Config, countMatched: bool, call: Call, ok: bool)
    requires Coherent(s, cfg)
    ensures Coherent(Handle(s, cfg, countMatched, call, ok).0, cfg) <==> !LostInsert(s, call, ok)
  {
    if call.p.key.Some? {
      var k := call.p.key.value;
      match call
      case Create(p) =>
        if p.val.Some? { PutCoherentIff(s, cfg, Inserted(s.table, k, p.val.value, ok), k, p.val.value); }
      case Update(p) =>
        if p.val.Some? { PutCoherentIff(s, cfg, Updated(s.table, k, p.val.value, ok), k, p.val.value); }
      case Read(_) =>
        GetCoherent(s, cfg, k);
        if k in s.table { PutCoherentIff(s, cfg, s.table, k, s.table[k]); }
      case Delete(_) => RemoveCoherent(s, cfg, Deleted(s.table, k, ok), k);
    }
  }

  lemma {:induction false} PutCoherentIff(s: State, cfg: Config, t: Table, k: string, v: string)
    requires Coherent(s, cfg)
    requires forall j :: j != k && j in s.table ==> j in t && t[j] == s.table[j]
    ensures Coherent(State(t, Step(s.shards, cfg, Put(k, v))), cfg) <==> k in t && t[k] == v
  {
    var shards := Step(s.shards, cfg, Put(k, v));
    StepProper(s.shards, cfg, Put(k, v));
    LookupAfterStep(s.shards, cfg, Put(k, v), k);
    forall j | LookupIn(shards, cfg, j).Some? && j != k
      ensures j in t && t[j] == LookupIn(shards, cfg, j).value
    {
      LookupAfterStep(s.shards, cfg, Put(k, v), j);
    }
  }

  lemma {:induction false} GetCoherent(s: State, cfg: Config, k: string)
    requires Coherent(s, cfg)
    ensures Coherent(s.(shards := Step(s.shards, cfg, Get(k))), cfg)
  {
    StepProper(s.shards, cfg, Get(k));
    forall j ensures LookupIn(Step(s.shards, cfg, Get(k)), cfg, j) == LookupIn(s.shards, cfg, j) {
      LookupAfterStep(s.shards, cfg, Get(k), j);
    }
  }

  lemma {:induction false} RemoveCoherent(s: State, cfg: Config, t: Table, k: string)
    requires Coherent(s, cfg)
    requires forall j :: j != k && j in s.table ==> j in t && t[j] == s.table[j]
    ensures Coherent(State(t, Step(s.shards, cfg, Remove(k))), cfg)
  {
    var shards := Step(s.shards, cfg, Remove(k));
    StepProper(s.shards, cfg, Remove(k));
    forall j | LookupIn(shards, cfg, j).Some? ensures j in t && t[j] == LookupIn(shards, cfg, j).value {
      LookupAfterStep(s.shards, cfg, Remove(k), j);
    }
  }

  /** One request is answered as without the cache exactly when it is not a hit whose SELECT would have
      failed; and the table changes in the same way in any case. */
  lemma TransparentIff(s: State, cfg: Config, countMatched: bool, call: Call, ok: bool)
    requires Coherent(s, cfg)
    ensures var (s', a) := Handle(s, cfg, countMatched, call, ok);
            var (t', b) := HandleUncached(s.table, countMatched, call, ok);
            && s'.table == t'
            && (SameAnswer(a, b) <==>
                !(call.Read? && call.p.key.Some? && !ok && LookupIn(s.shards, cfg, call.p.key.value).Some?))
  {
  }

  // ----- what each request does, key by key

  predicate Complete(call: Call) {
    call.p.key.Some? && (call.Create? || call.Update? ==> call.p.val.Some?)
  }

  /** When each status and each cache status is answered. */
  lemma {:induction false} AnswersIff(s: State, cfg: Config, countMatched: bool, call: Call, ok: bool)
    requires Proper(s.shards, cfg)
    ensures var a := Handle(s, cfg, countMatched, call, ok).1;
            && (a.status == 400 <==> !Complete(call))
            && (!Complete(call) ==> a == Answer(400, "", None))
            && (Complete(call) ==>
                 var k := call.p.key.value;
                 var cached := LookupIn(s.shards, cfg, k);
                 && (a.cacheStatus == Some("HIT") <==> call.Read? && cached.Some?)
                 && (a.cacheStatus == Some("MISS") <==> call.Read? && cached.None? && ok && k in s.table)
                 && (a.cacheStatus != None ==> a.status == -1)
                 && (a.cacheStatus == Some("HIT") ==> a.body == cached.value)
                 && (a.cacheStatus == Some("MISS") ==> a.body == s.table[k])
                 && (a.status == 500 <==> call.Read? && cached.None? && !ok)
                 && (a.status == 404 <==>
                      || (call.Read? && cached.None? && ok && k !in s.table)
                      || (call.Update? && !(ok && k in s.table && (countMatched || s.table[k] != call.p.val.value))))
                 && (call.Create? ==> a == Answer(-1, "Created", None))
                 && (call.Delete? ==> a == Answer(-1, "Deleted", None))
                 && (call.Update? ==> a.body == if a.status == 404 then "Key not found" else "Updated"))
  {
    hide LookupIn, Step;
  }

  /** What the table holds afterwards. */
  lemma {:induction false} TableAfter(s: State, cfg: Config, countMatched: bool, call: Call, ok: bool, j: string)
    requires Proper(s.shards, cfg)
    ensures var t := Handle(s, cfg, countMatched, call, ok).0.table;
            if Complete(call) && j == call.p.key.value && ok && call.Create? && call.p.val.value != "" then
              j in t && t[j] == call.p.val.value
            else if Complete(call) && j == call.p.key.value && ok && call.Update? && j in s.table then
              j in t && t[j] == call.p.val.value
            else if Complete(call) && j == call.p.key.value && ok && call.Delete? then j !in t
            else (j in t <==> j in s.table) && (j in t ==> t[j] == s.table[j])
  {
    hide LookupIn, Step;
  }

  /** What the cache holds afterwards: the value written or read from the table; nothing for a deleted key,
      even when its statement fails; and every other key what it held, unless a value was put and it was
      evicted. Every other request leaves every key as it was. */
  lemma {:induction false} CacheAfter(s: State, cfg: Config, countMatched: bool, call: Call, ok: bool, j: string)
    requires Proper(s.shards, cfg)
    ensures var (s', a) := Handle(s, cfg, countMatched, call, ok);
            var was, now := LookupIn(s.shards, cfg, j), LookupIn(s'.shards, cfg, j);
            if !Complete(call) then s' == s
            else
              var mine := j == call.p.key.value;
              if call.Create? || (call.Update? && a.body == "Updated") then
                if mine then now == Some(call.p.val.value) else now == was || now == None
              else if a.cacheStatus == Some("MISS") then
                if mine then now == Some(a.body) else now == was || now == None
              else if call.Delete? then now == if mine then None else was
              else now == was
  {
    hide LookupIn, Step, Proper;
    if Complete(call) {
      var k := call.p.key.value;
      if call.p.val.Some? { LookupAfterStep(s.shards, cfg, Put(k, call.p.val.value), j); }
      if k in s.table { LookupAfterStep(s.shards, cfg, Put(k, s.table[k]), j); }
      LookupAfterStep(s.shards, cfg, Get(k), j);
      LookupAfterStep(s.shards, cfg, Remove(k), j);
    }
  }

  /** A read that follows a create, a successful update or a read of the same key at once is answered from
      the cache, with the value written or read, whatever becomes of its statement; one that follows a delete
      is not. */
  lemma {:induction false} ReadYourWrites(s: State, cfg: Config, countMatched: bool, call: Call, ok: bool,
                                          read: Params, ok': bool)
    requires Proper(s.shards, cfg) && Complete(call) && read.key == call.p.key
    ensures var (s', a) := Handle(s, cfg, countMatched, call, ok);
            |s'.shards| == cfg.count &&
            var b := Handle(s', cfg, countMatched, Read(read), ok').1;
            && (call.Create? || (call.Update? && a.body == "Updated") ==>
                  b == Answer(-1, call.p.val.value, Some("HIT")))
            && (a.cacheStatus.Some? ==> b == Answer(-1, a.body, Some("HIT")))
            && (call.Delete? ==> b.cacheStatus != Some("HIT"))
  {
    hide LookupIn, Step;
    CacheAfter(s, cfg, countMatched, call, ok, call.p.key.value);
    AnswersIff(s, cfg, countMatched, call, ok);
    assert Proper(Handle(s, cfg, countMatched, call, ok).0.shards, cfg) by {
      HandleProper(s, cfg, countMatched, call, ok);
    }
    AnswersIff(Handle(s, cfg, countMatched, call, ok).0, cfg, countMatched, Read(read), ok');
  }

  lemma {:induction false} HandleProper(s: State, cfg: Config, countMatched: bool, call: Call, ok: bool)
    requires Proper(s.shards, cfg)
    ensures Proper(Handle(s, cfg, countMatched, call, ok).0.shards, cfg)
  {
    hide LookupIn, Step, Proper;
    if Complete(call) {
      var k := call.p.key.value;
      if call.p.val.Some? { StepProper(s.shards, cfg, Put(k, call.p.val.value)); }
      if k in s.table { StepProper(s.shards, cfg, Put(k, s.table[k])); }
      StepProper(s.shards, cfg, Get(k));
      StepProper(s.shards, cfg, Remove(k));
    }
  }

  // ----- whole traces

  /** The premises of a trace: values to create are not empty, inserts and selects complete. Updates and
      deletes may fail. */
  predicate Healthy(calls: seq<Call>, oks: seq<bool>) {
    && |calls| == |oks|
    && forall i :: 0 <= i < |calls| ==>
         && (calls[i].Create? || calls[i].Read? ==> oks[i])
         && (calls[i].Create? ==> calls[i].p.val != Some(""))
  }

  function Serve(s: State, cfg: Config, countMatched: bool, calls: seq<Call>, oks: seq<bool>)
    : (r: (State, seq<Answer>))
    requires cfg.count >= 1 && |s.shards| == cfg.count && |calls| == |oks|
    ensures |r.1| == |calls| && |r.0.shards| == cfg.count
    decreases |calls|
  {
    if calls == [] then (s, [])
    else
      var (s1, a) := Handle(s, cfg, countMatched, calls[0], oks[0]);
      var (s2, rest) := Serve(s1, cfg, countMatched, calls[1..], oks[1..]);
      (s2, [a] + rest)
  }

  function ServeUncached(t: Table, countMatched: bool, calls: seq<Call>, oks: seq<bool>)
    : (r: (Table, seq<Answer>))
    requires |calls| == |oks|
    ensures |r.1| == |calls|
    decreases |calls|
  {
    if calls == [] then (t, [])
    else
      var (t1, a) := HandleUncached(t, countMatched, calls[0], oks[0]);
      var (t2, rest) := ServeUncached(t1, countMatched, calls[1..], oks[1..]);
      (t2, [a] + rest)
  }

  /** Cache transparency: over any healthy trace every request gets the status and body it would get
      without the cache, and the tables agree. */
  lemma {:induction false} CacheIsTransparent(s: State, cfg: Config, countMatched: bool,
                                              calls: seq<Call>, oks: seq<bool>)
    requires Coherent(s, cfg) && Healthy(calls, oks)
    ensures var (s', a) := Serve(s, cfg, countMatched, calls, oks);
            var (t', b) := ServeUncached(s.table, countMatched, calls, oks);
            && s'.table == t' && Coherent(s', cfg)
            && forall i :: 0 <= i < |calls| ==> SameAnswer(a[i], b[i])
    decreases |calls|
  {
    if calls != [] {
      TransparentIff(s, cfg, countMatched, calls[0], oks[0]);
      CoherenceKeptIff(s, cfg, countMatched, calls[0], oks[0]);
      var s1 := Handle(s, cfg, countMatched, calls[0], oks[0]).0;
      assert Healthy(calls[1..], oks[1..]);
      CacheIsTransparent(s1, cfg, countMatched, calls[1..], oks[1..]);
    }
  }

  // ----- a bigger cache never loses a hit

  /** Each list of the smaller cache is a prefix of the larger one's. */
  ghost predicate Included(small: Shards, large: Shards) {
    |small| == |large| && forall i :: 0 <= i < |small| ==> small[i] <= large[i]
  }

  /** Two caches that differ only in their capacity. */
  ghost predicate Bigger(cfg: Config, big: Config) {
    cfg.Valid() && cfg.capacity <= big.capacity && big == cfg.(capacity := big.capacity)
  }

  lemma StepIncluded(small: Shards, large: Shards, cfg: Config, big: Config, a: Op, b: Op)
    requires Bigger(cfg, big) && |small| == cfg.count && Included(small, large) && a.key == b.key
    requires var i := cfg.ShardOf(a.key); Apply(small[i], cfg.capacity, a) <= Apply(large[i], big.capacity, b)
    ensures Included(Step(small, cfg, a), Step(large, big, b))
  {
  }

  /** One request served by both: the lists stay included and a hit in the smaller is a hit in the larger. */
  lemma {:induction false} InclusionStep(s: State, l: State, cfg: Config, big: Config,
                                         countMatched: bool, call: Call, ok: bool)
    requires Bigger(cfg, big) && Coherent(s, cfg) && Coherent(l, big)
    requires s.table == l.table && Included(s.shards, l.shards) && (call.Read? ==> ok)
    ensures var (s', a) := Handle(s, cfg, countMatched, call, ok);
            var (l', b) := Handle(l, big, countMatched, call, ok);
            && s'.table == l'.table && Included(s'.shards, l'.shards)
            && (a.cacheStatus == Some("HIT") ==> b.cacheStatus == Some("HIT"))
  {
    hide Step, LookupIn, Proper, Included;
    if call.p.key.Some? {
      var k := call.p.key.value;
      match call
      case Create(p) => if p.val.Some? { PutIncluded(s.shards, l.shards, cfg, big, k, p.val.value); }
      case Update(p) => if p.val.Some? { PutIncluded(s.shards, l.shards, cfg, big, k, p.val.value); }
      case Delete(_) => RemoveIncluded(s.shards, l.shards, cfg, big, k);
      case Read(_) => ReadIncluded(s, l, cfg, big, k);
    }
  }

  lemma RemoveIncluded(small: Shards, large: Shards, cfg: Config, big: Config, k: string)
    requires Bigger(cfg, big) && Proper(small, cfg) && Proper(large, big) && Included(small, large)
    ensures Included(Step(small, cfg, Remove(k)), Step(large, big, Remove(k)))
  {
    RemoveKeepsPrefix(small[cfg.ShardOf(k)], large[cfg.ShardOf(k)], k);
    StepIncluded(small, large, cfg, big, Remove(k), Remove(k));
  }

  /** The read handler's cache step, for both caches: a hit in either is a get, a miss a put. */
  lemma {:induction false} ReadIncluded(s: State, l: State, cfg: Config, big: Config, k: string)
    requires Bigger(cfg, big) && Coherent(s, cfg) && Coherent(l, big)
    requires s.table == l.table && Included(s.shards, l.shards)
    ensures LookupIn(s.shards, cfg, k).Some? ==> LookupIn(l.shards, big, k).Some?
    ensures Included(ReadStep(s, cfg, k), ReadStep(l, big, k))
  {
    var small, large := s.shards[cfg.ShardOf(k)], l.shards[cfg.ShardOf(k)];
    FindInPrefix(small, large, k);
    if Has(small, k) {
      GetKeepsPrefix(small, large, k);
      StepIncluded(s.shards, l.shards, cfg, big, Get(k), Get(k));
    } else if Has(large, k) {
      assert LookupIn(l.shards, big, k) == Some(s.table[k]);
      PutAgainstGetKeepsPrefix(small, cfg.capacity, large, k, s.table[k]);
      StepIncluded(s.shards, l.shards, cfg, big, Put(k, s.table[k]), Get(k));
    } else if k in s.table {
      PutIncluded(s.shards, l.shards, cfg, big, k, s.table[k]);
    }
  }

  function ReadStep(s: State, cfg: Config, k: string): Shards
    requires cfg.count >= 1 && |s.shards| == cfg.count
  {
    if LookupIn(s.shards, cfg, k).Some? then Step(s.shards, cfg, Get(k))
    else if k in s.table then Step(s.shards, cfg, Put(k, s.table[k]))
    else s.shards
  }

  lemma PutIncluded(small: Shards, large: Shards, cfg: Config, big: Config, k: string, v: string)
    requires Bigger(cfg, big) && Proper(small, cfg) && Proper(large, big) && Included(small, large)
    ensures Included(Step(small, cfg, Put(k, v)), Step(large, big, Put(k, v)))
  {
    var i := cfg.ShardOf(k);
    PutKeepsPrefix(small[i], cfg.capacity, large[i], big.capacity, k, v);
    StepIncluded(small, large, cfg, big, Put(k, v), Put(k, v));
  }

  /** Over any healthy trace served by two caches with the same shards and hash, the lists of the smaller
      stay prefixes of those of the larger, and every HIT of the smaller is a HIT of the larger. */
  lemma {:induction false} BiggerNeverLosesAHit(s: State, l: State, cfg: Config, big: Config, countMatched: bool,
                                                calls: seq<Call>, oks: seq<bool>)
    requires Bigger(cfg, big) && Coherent(s, cfg) && Coherent(l, big) && Healthy(calls, oks)
    requires s.table == l.table && Included(s.shards, l.shards)
    ensures var (s', a) := Serve(s, cfg, countMatched, calls, oks);
            var (l', b) := Serve(l, big, countMatched, calls, oks);
            && Included(s'.shards, l'.shards)
            && forall i :: 0 <= i < |calls| && a[i].cacheStatus == Some("HIT") ==> b[i].cacheStatus == Some("HIT")
    decreases |calls|
  {
    hide Handle, Included, LookupIn, Bigger;
    if calls != [] {
      InclusionStep(s, l, cfg, big, countMatched, calls[0], oks[0]);
      CoherenceKeptIff(s, cfg, countMatched, calls[0], oks[0]);
      CoherenceKeptIff(l, big, countMatched, calls[0], oks[0]);
      assert Healthy(calls[1..], oks[1..]);
      BiggerNeverLosesAHit(Handle(s, cfg, countMatched, calls[0], oks[0]).0,
                           Handle(l, big, countMatched, calls[0], oks[0]).0,
                           cfg, big, countMatched, calls[1..], oks[1..]);
    }
  }

  /** From a cold start with the shard capacities the constructor computes, more total capacity is enough. */
  lemma MoreCapacityMoreHits(table: Table, total: nat, more: nat, count: nat, hash: string -> nat,
                             countMatched: bool, calls: seq<Call>, oks: seq<bool>)
    requires count >= 1 && total <= more && Healthy(calls, oks)
    ensures var cfg, big := Config(count, PerShard(total, count), hash), Config(count, PerShard(more, count), hash);
            var a := Serve(State(table, Empty(cfg)), cfg, countMatched, calls, oks).1;
            var b := Serve(State(table, Empty(big)), big, countMatched, calls, oks).1;
            forall i :: 0 <= i < |calls| && a[i].cacheStatus == Some("HIT") ==> b[i].cacheStatus == Some("HIT")
  {
    var cfg, big := Config(count, PerShard(total, count), hash), Config(count, PerShard(more, count), hash);
    PerShardMonotone(total, more, count);
    BiggerNeverLosesAHit(State(table, Empty(cfg)), State(table, Empty(big)), cfg, big, countMatched, calls, oks);
  }
}
