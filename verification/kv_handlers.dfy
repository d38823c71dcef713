/** The four request handlers, step by step, on the cache, the table and the connection pool. */
module KvHandlers {
  import opened Common
  import opened Recency
  import opened Sharding
  import opened ShardedCache
  import opened KvSpec
  import opened ConnectionPool

  /** The response object a handler fills in. */
  class Response {
    var status: int
    var body: string
    var cacheStatus: Option<string>

    constructor ()
      ensures View() == BLANK
    {
      status, body, cacheStatus := -1, "", None;
    }

    function View(): Answer
      reads this
    {
      Answer(status, body, cacheStatus)
    }

    method SetContent(content: string)
      modifies this`body
      ensures body == content
    {
      body := content;
    }
  }

  class Server {
    var table: Table
    const cache: ShardedLRUCache
    const pool: DBPool
    const countMatched: bool

    ghost predicate Valid()
      reads this, cache, cache.Repr, pool
    {
      cache.Valid() && this !in cache.Repr && (pool as object) !in cache.Repr && pool.connections != []
    }

    ghost function View(): State
      requires Valid()
      reads this, cache, cache.Repr, pool
    {
      State(table, cache.Contents)
    }

    constructor (cache: ShardedLRUCache, pool: DBPool, table: Table, countMatched: bool)
      requires cache.Valid() && (pool as object) !in cache.Repr && pool.connections != []
      ensures Valid() && View() == State(table, cache.Contents)
      ensures this.cache == cache && this.pool == pool && this.countMatched == countMatched
    {
      this.cache, this.pool, this.table, this.countMatched := cache, pool, table, countMatched;
    }

    /** The generic wrapper: the error of a failed statement is swallowed and the connection released. */
    method ExecSql(k: string, v: string, ok: bool)
      requires pool.connections != []
      modifies this`table, pool
      ensures table == Inserted(old(table), k, v, ok)
      ensures pool.connections == Rotated(old(pool.connections))
    {
      var con := pool.GetConnection();
      if ok && v != "" {
        table := table[k := v];
      }
      pool.ReleaseConnection(con);
    }

    /** The database part of the update handler. */
    method UpdateRow(k: string, v: string, ok: bool) returns (rowsAffected: nat)
      requires pool.connections != []
      modifies this`table, pool
      ensures table == Updated(old(table), k, v, ok)
      ensures rowsAffected == RowsAffected(old(table), k, v, ok, countMatched)
      ensures pool.connections == Rotated(old(pool.connections))
    {
      var con := pool.GetConnection();
      rowsAffected := 0;
      if ok && k in table {
        rowsAffected := if countMatched || table[k] != v then 1 else 0;
        table := table[k := v];
      }
      pool.ReleaseConnection(con);
    }

    /** The database part of the delete handler: every exception is swallowed. */
    method DeleteRow(k: string, ok: bool)
      requires pool.connections != []
      modifies this`table, pool
      ensures table == Deleted(old(table), k, ok)
      ensures pool.connections == Rotated(old(pool.connections))
    {
      var con := pool.GetConnection();
      if ok {
        table := table - {k};
      }
      pool.ReleaseConnection(con);
    }

    method HandleCreate(req: Params, res: Response, ok: bool)
      requires Valid() && res.View() == BLANK && (res as object) !in cache.Repr
      modifies this`table, pool, cache.Repr, res
      ensures Valid() && (View(), res.View()) == Handle(old(View()), cache.cfg, countMatched, Create(req), ok)
      ensures req.key.Some? && req.val.Some? ==> pool.connections == Rotated(old(pool.connections))
      ensures req.key.None? || req.val.None? ==> pool.connections == old(pool.connections)
    {
      hide ShardedLRUCache.Valid, Step, LookupIn;
      if req.key.Some? && req.val.Some? {
        var k, v := req.key.value, req.val.value;
        ExecSql(k, v, ok);
        cache.Put(k, v);
        res.SetContent("Created");
      } else {
        res.status := 400;
      }
    }

    method HandleRead(req: Params, res: Response, ok: bool)
      requires Valid() && res.View() == BLANK && (res as object) !in cache.Repr
      modifies pool, cache.Repr, res
      ensures Valid() && (View(), res.View()) == Handle(old(View()), cache.cfg, countMatched, Read(req), ok)
      ensures pool.connections ==
              if req.key.Some? && res.cacheStatus != Some("HIT") then Rotated(old(pool.connections))
              else old(pool.connections)
    {
      hide ShardedLRUCache.Valid, Step, LookupIn;
      if req.key.Some? {
        var k := req.key.value;
        var found := cache.Get(k);
        if found.Some? {
          res.cacheStatus := Some("HIT");
          res.SetContent(found.value);
          return;
        }
        MissIsNoStep(old(cache.Contents), cache.cfg, k);
        ReadThrough(k, res, ok);
      } else {
        res.status := 400;
      }
    }

    /** The part of the read handler after a miss: SELECT, fill the cache, answer. */
    method ReadThrough(k: string, res: Response, ok: bool)
      requires Valid() && res.View() == BLANK && (res as object) !in cache.Repr
      requires LookupIn(cache.Contents, cache.cfg, k) == None
      modifies pool, cache.Repr, res
      ensures Valid()
      ensures (View(), res.View()) == Handle(old(View()), cache.cfg, countMatched, Read(Params(Some(k), None)), ok)
      ensures pool.connections == Rotated(old(pool.connections))
    {
      hide ShardedLRUCache.Valid, Step, LookupIn;
      var con := pool.GetConnection();
      if ok {
        if k in table {
          var v := table[k];
          cache.Put(k, v);
          res.cacheStatus := Some("MISS");
          res.SetContent(v);
        } else {
          res.status := 404;
          res.SetContent("Not Found");
        }
      } else {
        res.status := 500;
      }
      pool.ReleaseConnection(con);
    }

    method HandleUpdate(req: Params, res: Response, ok: bool)
      requires Valid() && res.View() == BLANK && (res as object) !in cache.Repr
      modifies this`table, pool, cache.Repr, res
      ensures Valid() && (View(), res.View()) == Handle(old(View()), cache.cfg, countMatched, Update(req), ok)
      ensures req.key.Some? && req.val.Some? ==> pool.connections == Rotated(old(pool.connections))
      ensures req.key.None? || req.val.None? ==> pool.connections == old(pool.connections)
    {
      hide ShardedLRUCache.Valid, Step, LookupIn;
      if req.key.Some? && req.val.Some? {
        var k, v := req.key.value, req.val.value;
        var rowsAffected := UpdateRow(k, v, ok);
        if rowsAffected > 0 {
          cache.Put(k, v);
          res.SetContent("Updated");
        } else {
          res.status := 404;
          res.SetContent("Key not found");
        }
      } else {
        res.status := 400;
      }
    }

    method HandleDelete(req: Params, res: Response, ok: bool)
      requires Valid() && res.View() == BLANK && (res as object) !in cache.Repr
      modifies this`table, pool, cache.Repr, res
      ensures Valid() && (View(), res.View()) == Handle(old(View()), cache.cfg, countMatched, Delete(req), ok)
      ensures pool.connections == if req.key.Some? then Rotated(old(pool.connections)) else old(pool.connections)
    {
      hide ShardedLRUCache.Valid, Step, LookupIn;
      if req.key.Some? {
        var k := req.key.value;
        DeleteRow(k, ok);
        cache.Remove(k);
        res.SetContent("Deleted");
      } else {
        res.status := 400;
      }
    }
  }

  lemma MissIsNoStep(shards: Shards, cfg: Config, k: string)
    requires cfg.count >= 1 && |shards| == cfg.count && LookupIn(shards, cfg, k) == None
    ensures Step(shards, cfg, Get(k)) == shards
  {
  }
}
