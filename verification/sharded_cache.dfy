/** The sharded cache as a value: one recency list per shard, and a hash that sends a key to its shard. */
module Sharding {
  import opened Common
  import opened Recency

  /** hash stands for the library's string hash, of which nothing is assumed. */
  datatype Config = Config(count: nat, capacity: nat, hash: string -> nat) {
    ghost predicate Valid() {
      count >= 1 && capacity >= 1
    }

    function ShardOf(k: string): nat
      requires count >= 1
      ensures ShardOf(k) < count
    {
      hash(k) % count
    }
  }

  type Shards = seq<seq<Entry>>

  function Empty(cfg: Config): Shards {
    seq(cfg.count, i => [])
  }

  function Step(shards: Shards, cfg: Config, op: Op): Shards
    requires cfg.count >= 1 && |shards| == cfg.count
  {
    var i := cfg.ShardOf(op.key);
    shards[i := Apply(shards[i], cfg.capacity, op)]
  }

  function RunAll(cfg: Config, ops: seq<Op>): (shards: Shards)
    requires cfg.count >= 1
    ensures |shards| == cfg.count
  {
    if ops == [] then Empty(cfg) else Step(RunAll(cfg, ops[..|ops| - 1]), cfg, ops[|ops| - 1])
  }

  function LookupIn(shards: Shards, cfg: Config, k: string): Option<string>
    requires cfg.count >= 1 && |shards| == cfg.count
  {
    Lookup(shards[cfg.ShardOf(k)], k)
  }

  /** Every list is a legal shard and holds only keys that hash to it. */
  ghost predicate Proper(shards: Shards, cfg: Config) {
    && cfg.Valid() && |shards| == cfg.count
    && (forall i :: 0 <= i < |shards| ==> Legal(shards[i], cfg.capacity))
    && (forall i, k :: 0 <= i < |shards| && Has(shards[i], k) ==> cfg.ShardOf(k) == i)
  }

  function Size(shards: Shards): nat {
    if shards == [] then 0 else |shards[0]| + Size(shards[1..])
  }

  /** The operations whose key hashes to shard i, in order. */
  function Project(cfg: Config, ops: seq<Op>, i: nat): seq<Op>
    requires cfg.count >= 1
  {
    if ops == [] then []
    else
      var rest := Project(cfg, ops[..|ops| - 1], i);
      var op := ops[|ops| - 1];
      if cfg.ShardOf(op.key) == i then rest + [op] else rest
  }

  /** Sharding is a product: each shard behaves as one LRU list running its own part of the trace. */
  lemma {:induction false} ShardsAreIndependent(cfg: Config, ops: seq<Op>, i: nat)
    requires cfg.count >= 1 && i < cfg.count
    ensures RunAll(cfg, ops)[i] == Run(cfg.capacity, Project(cfg, ops, i))
  {
    if ops != [] {
      var before, op := ops[..|ops| - 1], ops[|ops| - 1];
      ShardsAreIndependent(cfg, before, i);
      var rest := Project(cfg, before, i);
      assert (rest + [op])[..|rest + [op]| - 1] == rest;
    }
  }

  lemma DifferentShardsCommute(shards: Shards, cfg: Config, a: Op, b: Op)
    requires cfg.count >= 1 && |shards| == cfg.count && cfg.ShardOf(a.key) != cfg.ShardOf(b.key)
    ensures Step(Step(shards, cfg, a), cfg, b) == Step(Step(shards, cfg, b), cfg, a)
  {
    var i, j := cfg.ShardOf(a.key), cfg.ShardOf(b.key);
    var x, y := Apply(shards[i], cfg.capacity, a), Apply(shards[j], cfg.capacity, b);
    assert shards[i := x][j := y] == shards[j := y][i := x];
  }

  lemma {:induction false} StepProper(shards: Shards, cfg: Config, op: Op)
    requires Proper(shards, cfg)
    ensures Proper(Step(shards, cfg, op), cfg)
  {
    var i := cfg.ShardOf(op.key);
    LookupAfter(shards[i], cfg.capacity, op, op.key);
    forall k | Has(Apply(shards[i], cfg.capacity, op), k) ensures cfg.ShardOf(k) == i {
      LookupAfter(shards[i], cfg.capacity, op, k);
    }
  }

  /** The cache as a whole sees what LookupAfter says of one shard. */
  lemma LookupAfterStep(shards: Shards, cfg: Config, op: Op, k: string)
    requires Proper(shards, cfg)
    ensures var was, now := LookupIn(shards, cfg, k), LookupIn(Step(shards, cfg, op), cfg, k);
            match op
            case Get(_) => now == was
            case Put(j, v) => if j == k then now == Some(v) else now == was || now == None
            case Remove(j) => now == if j == k then None else was
  {
    LookupAfter(shards[cfg.ShardOf(op.key)], cfg.capacity, op, k);
  }

  lemma SizeBound(shards: Shards, capacity: nat)
    requires forall i :: 0 <= i < |shards| ==> |shards[i]| <= capacity
    ensures Size(shards) <= |shards| * capacity
  {
    if shards != [] { SizeBound(shards[1..], capacity); }
  }

  /** After any trace each key is in at most the shard it hashes to, and the whole cache holds no more
      than capacity entries a shard. */
  lemma {:induction false} RunAllProper(cfg: Config, ops: seq<Op>)
    requires cfg.Valid()
    ensures Proper(RunAll(cfg, ops), cfg)
    ensures Size(RunAll(cfg, ops)) <= cfg.count * cfg.capacity
  {
    if ops != [] {
      RunAllProper(cfg, ops[..|ops| - 1]);
      StepProper(RunAll(cfg, ops[..|ops| - 1]), cfg, ops[|ops| - 1]);
    }
    SizeBound(RunAll(cfg, ops), cfg.capacity);
  }

  /** The capacity the constructor gives each shard. */
  function PerShard(total: nat, count: nat): nat
    requires count >= 1
  {
    if total / count < 1 then 1 else total / count
  }

  lemma {:induction false} PerShardMonotone(total: nat, more: nat, count: nat)
    requires count >= 1 && total <= more
    ensures 1 <= PerShard(total, count) <= PerShard(more, count)
  {
    DivMonotone(total, more, count);
  }

  lemma {:induction false} DivMonotone(a: nat, b: nat, n: nat)
    requires n >= 1 && a <= b
    ensures a / n <= b / n
  {
    var x, y := a / n, b / n;
    assert n * x <= a && b < n * y + n;
    if x > y { MulMonotone(n, y + 1, x); }
  }

  lemma MulMonotone(n: nat, x: nat, y: nat)
    requires x <= y
    ensures n * x <= n * y
  {
  }

  /** Unless the total is below one entry a shard, the whole cache stays within the total asked for; and it
      is the largest that does with equal shards. */
  lemma TotalBound(total: nat, count: nat)
    requires count >= 1
    ensures PerShard(total, count) >= 1
    ensures count * PerShard(total, count) <= if total < count then count else total
    ensures total < count * (PerShard(total, count) + 1)
  {
    assert total == count * (total / count) + total % count;
    if total < count {
      assert total / count == 0;
    }
  }
}

/** The sharded cache as an object. */
module ShardedCache {
  import opened Common
  import opened Recency
  import opened Sharding
  import opened LruShard

  class ShardedLRUCache {
    const hash: string -> nat
    var numShards: nat
    var shards: seq<LRUCacheShard>
    ghost const cfg: Config
    ghost var Contents: Shards  // the abstract value: the recency list of each shard
    ghost var Repr: set<object>

    ghost predicate Valid()
      reads this, Repr
      ensures Valid() ==> this in Repr && cfg.count >= 1 && |Contents| == cfg.count
    {
      && this in Repr
      && numShards >= 1 && |shards| == numShards == |Contents|
      && cfg.Valid() && cfg.count == numShards && cfg.hash == hash
      && (forall i :: 0 <= i < |shards| ==> shards[i] in Repr && shards[i].Nodes <= Repr)
      && (forall i :: 0 <= i < |shards| ==> shards[i].capacity == cfg.capacity && shards[i].Contents == Contents[i])
      && (forall i :: 0 <= i < |shards| ==> shards[i].Valid())
      && Disjoint()
    }

    ghost predicate Disjoint()
      reads this, shards
    {
      forall i, j :: 0 <= i < |shards| && 0 <= j < |shards| && i != j ==>
                       shards[i] != shards[j] && shards[i].Nodes !! shards[j].Nodes
    }

    /** Brings the ghost fields up to date after an operation on shard i alone. */
    ghost method Refresh(i: nat)
      requires this in Repr && numShards >= 1 && |shards| == numShards == |Contents| && i < |shards|
      requires cfg.Valid() && cfg.count == numShards && cfg.hash == hash
      requires forall j :: 0 <= j < |shards| ==> shards[j] in Repr && (j != i ==> shards[j].Nodes <= Repr)
      requires forall j :: 0 <= j < |shards| ==> shards[j].capacity == cfg.capacity
      requires forall j :: 0 <= j < |shards| && j != i ==> shards[j].Contents == Contents[j]
      requires forall j :: 0 <= j < |shards| ==> shards[j].Valid()
      requires Disjoint()
      modifies this`Contents, this`Repr
      ensures Valid() && Repr == old(Repr) + shards[i].Nodes
      ensures Contents == old(Contents)[i := shards[i].Contents]
    {
      hide LRUCacheShard.Valid;
      Contents := Contents[i := shards[i].Contents];
      Repr := Repr + shards[i].Nodes;
    }

    constructor (totalCapacity: nat, numShardsIn: nat, hash: string -> nat)
      requires numShardsIn >= 1
      ensures Valid() && fresh(Repr)
      ensures cfg == Config(numShardsIn, PerShard(totalCapacity, numShardsIn), hash)
      ensures numShardsIn * cfg.capacity <= (if totalCapacity < numShardsIn then numShardsIn else totalCapacity)
      ensures totalCapacity < numShardsIn * (cfg.capacity + 1)
      ensures Contents == Empty(cfg)
    {
      numShards := numShardsIn;
      this.hash := hash;
      shards := [];
      cfg := Config(numShardsIn, PerShard(totalCapacity, numShardsIn), hash);
      Repr := {this};
      Contents := Empty(Config(numShardsIn, PerShard(totalCapacity, numShardsIn), hash));
      new;
      TotalBound(totalCapacity, numShardsIn);
      var capPerShard := totalCapacity / numShards;
      if capPerShard < 1 { capPerShard := 1; }
      for i := 0 to numShards
        invariant numShards == numShardsIn && Contents == Empty(cfg)
        invariant |shards| == i && this in Repr && fresh(Repr)
        invariant forall j :: 0 <= j < i ==>
                    && shards[j] in Repr && shards[j].Valid() && shards[j].Nodes == {}
                    && shards[j].Contents == [] && shards[j].capacity == cfg.capacity
        invariant forall j, l :: 0 <= j < i && 0 <= l < i && j != l ==> shards[j] != shards[l]
      {
        var s := new LRUCacheShard(capPerShard);
        shards := shards + [s];
        Repr := Repr + {s};
      }
    }

    function GetShardIndex(key: string): (i: nat)
      requires Valid()
      reads this, Repr
      ensures i == cfg.ShardOf(key) == hash(key) % |shards|
    {
      hash(key) % numShards
    }

    method Get(key: string) returns (value: Option<string>)
      requires Valid()
      modifies Repr
      ensures Valid() && fresh(Repr - old(Repr))
      ensures value == LookupIn(old(Contents), cfg, key)
      ensures Contents == Step(old(Contents), cfg, Op.Get(key))
    {
      hide LRUCacheShard.Valid, Apply, Lookup;
      var i := GetShardIndex(key);
      value := shards[i].Get(key);
      Refresh(i);
    }

    method Put(key: string, value: string)
      requires Valid()
      modifies Repr
      ensures Valid() && fresh(Repr - old(Repr))
      ensures Contents == Step(old(Contents), cfg, Op.Put(key, value))
    {
      hide LRUCacheShard.Valid, Apply, Lookup;
      var i := GetShardIndex(key);
      shards[i].Put(key, value);
      Refresh(i);
    }

    method Remove(key: string)
      requires Valid()
      modifies Repr
      ensures Valid() && fresh(Repr - old(Repr))
      ensures Contents == Step(old(Contents), cfg, Op.Remove(key))
    {
      hide LRUCacheShard.Valid, Apply, Lookup;
      var i := GetShardIndex(key);
      var s := shards[i];
      s.Remove(key);
      Refresh(i);
    }
  }
}
