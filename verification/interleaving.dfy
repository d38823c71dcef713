/** Any number of handlers at once. A shard's mutex makes one cache call atomic and the database makes one
    statement atomic; nothing holds a handler's database step and its cache step together. Taking and
    releasing a connection touches neither table nor cache and only delays a step, so it is no step here. */
module Interleaving {
  import opened Common
  import opened Recency
  import opened Sharding
  import opened KvSpec

  type Thread = nat

  /** A handler in flight; done says whether its statement has been executed. */
  datatype Task =
    | Creating(key: string, value: string, done: bool)
    | Looking(key: string)                // a read before its cache lookup
    | Missed(key: string)                 // a read that missed and has yet to SELECT
    | Fetched(key: string, value: string) // a read that has yet to fill the cache
    | Updating(key: string, value: string, done: bool)
    | Deleting(key: string, done: bool)
  {
    predicate Reads() {
      Looking? || Missed? || Fetched?
    }

    /** As a handler arrives; a create carries a non-empty value. */
    predicate New() {
      match this
      case Creating(_, v, done) => !done && v != ""
      case Updating(_, _, done) => !done
      case Deleting(_, done) => !done
      case Looking(_) => true
      case _ => false
    }

    /** Its next step is a put of its value. */
    predicate AboutToPut() {
      Fetched? || ((Creating? || Updating?) && done)
    }
  }

  datatype World = World(table: Table, shards: Shards, tasks: map<Thread, Task>)

  /** ok is the fate of a SELECT, UPDATE or DELETE; an INSERT is taken to complete. */
  datatype Event = Arrive(t: Thread, task: Task) | Sql(t: Thread, ok: bool) | Cache(t: Thread)

  ghost predicate Enabled(w: World, e: Event) {
    match e
    case Arrive(t, task) => t !in w.tasks && task.New()
    case Sql(t, _) =>
      && t in w.tasks
      && match w.tasks[t] {
           case Creating(_, _, done) => !done
           case Updating(_, _, done) => !done
           case Deleting(_, done) => !done
           case Missed(_) => true
           case _ => false
         }
    case Cache(t) =>
      t in w.tasks && (w.tasks[t].Looking? || w.tasks[t].AboutToPut() || (w.tasks[t].Deleting? && w.tasks[t].done))
  }

  ghost function SqlStep(w: World, t: Thread, ok: bool, countMatched: bool): World
    requires Enabled(w, Sql(t, ok))
  {
    match w.tasks[t]
    case Creating(k, v, _) =>
      w.(table := w.table[k := v], tasks := w.tasks[t := Creating(k, v, true)])
    case Missed(k) =>
      w.(tasks := if ok && k in w.table then w.tasks[t := Fetched(k, w.table[k])] else w.tasks - {t})
    case Updating(k, v, _) =>
      w.(table := Updated(w.table, k, v, ok),
         tasks := if RowsAffected(w.table, k, v, ok, countMatched) > 0 then w.tasks[t := Updating(k, v, true)]
                  else w.tasks - {t})
    case Deleting(k, _) =>
      w.(table := Deleted(w.table, k, ok), tasks := w.tasks[t := Deleting(k, true)])
  }

  ghost function CacheStep(w: World, cfg: Config, t: Thread): World
    requires cfg.count >= 1 && |w.shards| == cfg.count && Enabled(w, Cache(t))
  {
    var task := w.tasks[t];
    var k := task.key;
    if task.AboutToPut() then
      w.(shards := Step(w.shards, cfg, Put(k, task.value)), tasks := w.tasks - {t})
    else if task.Deleting? then
      w.(shards := Step(w.shards, cfg, Remove(k)), tasks := w.tasks - {t})
    else if LookupIn(w.shards, cfg, k).Some? then
      w.(shards := Step(w.shards, cfg, Get(k)), tasks := w.tasks - {t})
    else
      w.(tasks := w.tasks[t := Missed(k)])
  }

  ghost function Apply(w: World, cfg: Config, countMatched: bool, e: Event): World
    requires cfg.count >= 1 && |w.shards| == cfg.count && Enabled(w, e)
  {
    match e
    case Arrive(t, task) => w.(tasks := w.tasks[t := task])
    case Sql(t, ok) => SqlStep(w, t, ok, countMatched)
    case Cache(t) => CacheStep(w, cfg, t)
  }

  ghost predicate Start(w: World, cfg: Config) {
    cfg.Valid() && w.shards == Empty(cfg) && w.tasks == map[]
  }

  ghost predicate IsRun(ws: seq<World>, cfg: Config, countMatched: bool, events: seq<Event>) {
    && |ws| == |events| + 1 && cfg.Valid()
    && (forall i :: 0 <= i < |ws| ==> |ws[i].shards| == cfg.count)
    && forall i :: 0 <= i < |events| ==>
         Enabled(ws[i], events[i]) && ws[i + 1] == Apply(ws[i], cfg, countMatched, events[i])
  }

  lemma {:induction false} RunProper(ws: seq<World>, cfg: Config, countMatched: bool, events: seq<Event>, i: nat)
    requires IsRun(ws, cfg, countMatched, events) && Start(ws[0], cfg) && i < |ws|
    ensures Proper(ws[i].shards, cfg)
  {
    if i > 0 {
      RunProper(ws, cfg, countMatched, events, i - 1);
      var w, e := ws[i - 1], events[i - 1];
      if e.Cache? {
        StepProper(w.shards, cfg, Get(w.tasks[e.t].key));
        StepProper(w.shards, cfg, Remove(w.tasks[e.t].key));
        if w.tasks[e.t].AboutToPut() { StepProper(w.shards, cfg, Put(w.tasks[e.t].key, w.tasks[e.t].value)); }
      }
    }
  }

  // ----- every cached value was the table's value at some time

  ghost predicate Was(ws: seq<World>, i: nat, k: string, v: string)
    requires i < |ws|
  {
    exists j :: 0 <= j <= i && k in ws[j].table && ws[j].table[k] == v
  }

  ghost predicate FromThePast(ws: seq<World>, cfg: Config, i: nat)
    requires i < |ws| && cfg.count >= 1 && |ws[i].shards| == cfg.count
  {
    && (forall k :: LookupIn(ws[i].shards, cfg, k).Some? ==> Was(ws, i, k, LookupIn(ws[i].shards, cfg, k).value))
    && (forall t :: t in ws[i].tasks && ws[i].tasks[t].AboutToPut() ==>
          Was(ws, i, ws[i].tasks[t].key, ws[i].tasks[t].value))
  }

  /** In every run, whatever handlers overlap, each cached value for k was the table's value at that
      moment or at an earlier one. */
  lemma {:induction false} CachedValuesAreFromThePast(ws: seq<World>, cfg: Config, countMatched: bool,
                                                      events: seq<Event>, i: nat)
    requires IsRun(ws, cfg, countMatched, events) && Start(ws[0], cfg) && i < |ws|
    ensures FromThePast(ws, cfg, i)
  {
    if i > 0 {
      CachedValuesAreFromThePast(ws, cfg, countMatched, events, i - 1);
      RunProper(ws, cfg, countMatched, events, i - 1);
      var w, w', e := ws[i - 1], ws[i], events[i - 1];
      forall k, v | Was(ws, i - 1, k, v) ensures Was(ws, i, k, v) {
        var j :| 0 <= j <= i - 1 && k in ws[j].table && ws[j].table[k] == v;
      }
      forall k | LookupIn(w'.shards, cfg, k).Some? ensures Was(ws, i, k, LookupIn(w'.shards, cfg, k).value) {
        CacheStepLookup(w, cfg, countMatched, e, k);
      }
      forall t | t in w'.tasks && w'.tasks[t].AboutToPut() ensures Was(ws, i, w'.tasks[t].key, w'.tasks[t].value) {
        NewPutsAreInTheTable(w, cfg, countMatched, e, t);
      }
    }
  }

  /** What one step does to the cache entry of k: what the task on k asks for; perhaps evict it, if another
      key is put; otherwise nothing. In particular a hit changes no entry. */
  lemma {:induction false} CacheStepLookup(w: World, cfg: Config, countMatched: bool, e: Event, k: string)
    requires Proper(w.shards, cfg) && Enabled(w, e)
    ensures var was, now := LookupIn(w.shards, cfg, k), LookupIn(Apply(w, cfg, countMatched, e).shards, cfg, k);
            if e.Cache? && w.tasks[e.t].key == k && w.tasks[e.t].AboutToPut() then now == Some(w.tasks[e.t].value)
            else if e.Cache? && w.tasks[e.t].key == k && w.tasks[e.t].Deleting? then now == None
            else if e.Cache? && w.tasks[e.t].AboutToPut() then now == was || now == None
            else now == was
  {
    if e.Cache? {
      var task := w.tasks[e.t];
      if task.AboutToPut() {
        LookupAfterStep(w.shards, cfg, Put(task.key, task.value), k);
      } else if task.Deleting? {
        LookupAfterStep(w.shards, cfg, Remove(task.key), k);
      } else {
        LookupAfterStep(w.shards, cfg, Get(task.key), k);
      }
    }
  }

  /** A task comes to be about to put only by a statement that finds or leaves its value in the table. */
  lemma NewPutsAreInTheTable(w: World, cfg: Config, countMatched: bool, e: Event, t: Thread)
    requires cfg.count >= 1 && |w.shards| == cfg.count && Enabled(w, e)
    requires var w' := Apply(w, cfg, countMatched, e); t in w'.tasks && w'.tasks[t].AboutToPut()
    ensures var w' := Apply(w, cfg, countMatched, e);
            var task := w'.tasks[t];
            if t in w.tasks && w.tasks[t].AboutToPut() then task == w.tasks[t]
            else task.key in w'.table && w'.table[task.key] == task.value
  {
  }

  // ----- a handler that runs alone

  /** The handler of a request that has the parameters it needs; any other is answered without a step. */
  ghost function TaskOf(call: Call): Task
    requires Complete(call)
  {
    var k := call.p.key.value;
    match call
    case Create(p) => Creating(k, p.val.value, false)
    case Read(_) => Looking(k)
    case Update(p) => Updating(k, p.val.value, false)
    case Delete(_) => Deleting(k, false)
  }

  /** The steps of thread t alone, from its arrival to its end, ok being the fate of its statement. */
  ghost predicate RunsAlone(ws: seq<World>, cfg: Config, countMatched: bool, events: seq<Event>, t: Thread,
                            task: Task, ok: bool)
  {
    && IsRun(ws, cfg, countMatched, events)
    && events != [] && events[0] == Arrive(t, task)
    && (forall i :: 0 < i < |events| ==> events[i] == Sql(t, ok) || events[i] == Cache(t))
    && t !in ws[|events|].tasks
  }

  /** The only step a task can make next. */
  ghost function NextStep(task: Task, t: Thread, ok: bool): Event {
    match task
    case Looking(_) => Cache(t)
    case Fetched(_, _) => Cache(t)
    case Missed(_) => Sql(t, ok)
    case _ => if task.done then Cache(t) else Sql(t, ok)
  }

  /** How many more it makes at most. */
  function StepsLeft(task: Task): nat {
    match task
    case Looking(_) => 3
    case Missed(_) => 2
    case Fetched(_, _) => 1
    case _ => if task.done then 1 else 2
  }

  lemma NextStepIs(w: World, cfg: Config, countMatched: bool, t: Thread, ok: bool)
    requires cfg.count >= 1 && |w.shards| == cfg.count && t in w.tasks
    ensures Enabled(w, NextStep(w.tasks[t], t, ok))
    ensures forall e :: Enabled(w, e) && (e == Sql(t, ok) || e == Cache(t)) ==> e == NextStep(w.tasks[t], t, ok)
    ensures var w' := Apply(w, cfg, countMatched, NextStep(w.tasks[t], t, ok));
            && |w'.shards| == cfg.count && w'.tasks - {t} == w.tasks - {t}
            && (t in w'.tasks ==> StepsLeft(w'.tasks[t]) < StepsLeft(w.tasks[t]))
  {
    hide LookupIn, Step;
    StepKeepsCount(w.shards, cfg);
  }

  lemma StepKeepsCount(shards: Shards, cfg: Config)
    requires cfg.count >= 1 && |shards| == cfg.count
    ensures forall op :: |Step(shards, cfg, op)| == cfg.count
  {
  }

  /** Where thread t alone takes the world. */
  ghost function Finished(w: World, cfg: Config, countMatched: bool, t: Thread, ok: bool): World
    requires cfg.count >= 1 && |w.shards| == cfg.count
    decreases if t in w.tasks then 1 + StepsLeft(w.tasks[t]) else 0
  {
    if t !in w.tasks then w
    else
      NextStepIs(w, cfg, countMatched, t, ok);
      Finished(Apply(w, cfg, countMatched, NextStep(w.tasks[t], t, ok)), cfg, countMatched, t, ok)
  }

  lemma {:induction false} AloneEndsFinished(ws: seq<World>, cfg: Config, countMatched: bool, events: seq<Event>,
                                             t: Thread, task: Task, ok: bool, i: nat)
    requires RunsAlone(ws, cfg, countMatched, events, t, task, ok) && 1 <= i <= |events|
    ensures Finished(ws[i], cfg, countMatched, t, ok) == ws[|events|]
    decreases |events| - i
  {
    hide Apply, Enabled;
    if i < |events| {
      AloneEndsFinished(ws, cfg, countMatched, events, t, task, ok, i + 1);
      assert Enabled(ws[i], events[i]);
      NoStepLeft(ws[i], t, ok);
      NextStepIs(ws[i], cfg, countMatched, t, ok);
    }
  }

  lemma NoStepLeft(w: World, t: Thread, ok: bool)
    ensures t !in w.tasks ==> !Enabled(w, Sql(t, ok)) && !Enabled(w, Cache(t))
  {
  }

  /** The steps are those of the handlers. In any world, with any other handlers in flight, a handler that runs
      alone from its arrival to its end leaves the table and the cache as its request does in KvSpec.Handle,
      whatever becomes of its statement, and nothing of itself. Inserts complete, of values that are not empty. */
  lemma {:induction false} AloneIsHandle(ws: seq<World>, cfg: Config, countMatched: bool, events: seq<Event>,
                                         t: Thread, call: Call, ok: bool)
    requires Complete(call) && (call.Create? ==> ok && call.p.val.value != "")
    requires RunsAlone(ws, cfg, countMatched, events, t, TaskOf(call), ok) && t !in ws[0].tasks
    ensures ws[|events|].tasks == ws[0].tasks
    ensures State(ws[|events|].table, ws[|events|].shards) ==
            Handle(State(ws[0].table, ws[0].shards), cfg, countMatched, call, ok).0
  {
    hide LookupIn, Step;
    AloneEndsFinished(ws, cfg, countMatched, events, t, TaskOf(call), ok, 1);
    FinishedIsHandle(ws[0], cfg, countMatched, t, call, ok);
  }

  lemma {:induction false} FinishedIsHandle(w: World, cfg: Config, countMatched: bool, t: Thread, call: Call, ok: bool)
    requires cfg.count >= 1 && |w.shards| == cfg.count && t !in w.tasks
    requires Complete(call) && (call.Create? ==> ok && call.p.val.value != "")
    ensures var last := Finished(w.(tasks := w.tasks[t := TaskOf(call)]), cfg, countMatched, t, ok);
            && last.tasks == w.tasks
            && State(last.table, last.shards) == Handle(State(w.table, w.shards), cfg, countMatched, call, ok).0
  {
    hide LookupIn, Step;
    var w1 := w.(tasks := w.tasks[t := TaskOf(call)]);
    StepKeepsCount(w.shards, cfg);
    var w2 := Apply(w1, cfg, countMatched, NextStep(w1.tasks[t], t, ok));
    if t in w2.tasks {
      var w3 := Apply(w2, cfg, countMatched, NextStep(w2.tasks[t], t, ok));
      if t in w3.tasks {
        var w4 := Apply(w3, cfg, countMatched, NextStep(w3.tasks[t], t, ok));
        assert t !in w4.tasks && Finished(w3, cfg, countMatched, t, ok) == w4;
        assert w4.tasks == w.tasks;
      }
      assert Finished(w1, cfg, countMatched, t, ok) == Finished(w2, cfg, countMatched, t, ok)
          == Finished(w3, cfg, countMatched, t, ok);
    }
  }

  /** And such a run exists from every world. */
  lemma {:induction false} AloneCanRun(w: World, cfg: Config, countMatched: bool, t: Thread, call: Call, ok: bool)
    returns (ws: seq<World>, events: seq<Event>)
    requires cfg.Valid() && |w.shards| == cfg.count && t !in w.tasks && Complete(call) && TaskOf(call).New()
    ensures RunsAlone(ws, cfg, countMatched, events, t, TaskOf(call), ok) && ws[0] == w
  {
    hide Apply, Enabled;
    ArriveIs(w, cfg, countMatched, t, TaskOf(call));
    ws, events := [w], [];
    var last;
    ws, events, last := Then(ws, cfg, countMatched, events, w, Arrive(t, TaskOf(call)));
    while t in last.tasks
      invariant IsRun(ws, cfg, countMatched, events) && ws[|events|] == last && ws[0] == w
      invariant events != [] && events[0] == Arrive(t, TaskOf(call))
      invariant forall i :: 0 < i < |events| ==> events[i] == Sql(t, ok) || events[i] == Cache(t)
      decreases if t in last.tasks then 1 + StepsLeft(last.tasks[t]) else 0
    {
      NextStepIs(last, cfg, countMatched, t, ok);
      ws, events, last := Then(ws, cfg, countMatched, events, last, NextStep(last.tasks[t], t, ok));
    }
  }

  lemma ArriveIs(w: World, cfg: Config, countMatched: bool, t: Thread, task: Task)
    requires cfg.count >= 1 && |w.shards| == cfg.count && t !in w.tasks && task.New()
    ensures Enabled(w, Arrive(t, task))
  {
  }

  // ----- coherence of one key

  /** Two handlers of the same key that may overlap without harm: two reads, two deletes, or two creates
      or updates that write the same value. */
  predicate Compatible(a: Task, b: Task) {
    || (a.Reads() && b.Reads())
    || (a.Deleting? && b.Deleting?)
    || ((a.Creating? || a.Updating?) && (b.Creating? || b.Updating?) && a.value == b.value)
  }

  ghost predicate NoClash(w: World, k: string) {
    forall t, u :: t in w.tasks && u in w.tasks && t != u && w.tasks[t].key == k && w.tasks[u].key == k ==>
      Compatible(w.tasks[t], w.tasks[u])
  }

  ghost predicate KeyCoherent(w: World, cfg: Config, k: string)
    requires cfg.count >= 1 && |w.shards| == cfg.count
  {
    var c := LookupIn(w.shards, cfg, k);
    c == None || (k in w.table && w.table[k] == c.value)
  }

  ghost predicate Quiet(w: World, k: string) {
    forall t :: t in w.tasks ==> w.tasks[t].key != k
  }

  /** A writer of k between its two steps. */
  ghost predicate MidWrite(w: World, k: string, t: Thread) {
    && t in w.tasks && w.tasks[t].key == k
    && (w.tasks[t].Creating? || w.tasks[t].Updating? || w.tasks[t].Deleting?) && w.tasks[t].done
  }

  /** The invariant for one key: outside a half-done write the cache agrees with the table, and what is
      about to be put is what the table has. */
  ghost predicate KeyInv(w: World, cfg: Config, k: string)
    requires cfg.count >= 1 && |w.shards| == cfg.count
  {
    && ((forall t :: !MidWrite(w, k, t)) ==> KeyCoherent(w, cfg, k))
    && (forall t :: t in w.tasks && w.tasks[t].key == k && w.tasks[t].AboutToPut() ==>
          k in w.table && w.table[k] == w.tasks[t].value)
  }

  lemma {:induction false} StepKeepsKeyInv(w: World, cfg: Config, countMatched: bool, e: Event, k: string)
    requires Proper(w.shards, cfg) && Enabled(w, e) && KeyInv(w, cfg, k)
    requires NoClash(w, k)
    ensures KeyInv(Apply(w, cfg, countMatched, e), cfg, k)
  {
    var w' := Apply(w, cfg, countMatched, e);
    CacheStepLookup(w, cfg, countMatched, e, k);
    forall t | t in w'.tasks && w'.tasks[t].key == k && w'.tasks[t].AboutToPut()
      ensures k in w'.table && w'.table[k] == w'.tasks[t].value
    {
      NewPutsAreInTheTable(w, cfg, countMatched, e, t);
      if e.Sql? && t != e.t { assert w.tasks[e.t].key == k ==> Compatible(w.tasks[t], w.tasks[e.t]); }
    }
    if forall t :: !MidWrite(w', k, t) {
      MidWriteEnds(w, cfg, countMatched, e, k);
    }
  }

  /** When a step leaves no half-done write of k behind, the entry of k is right. */
  lemma MidWriteEnds(w: World, cfg: Config, countMatched: bool, e: Event, k: string)
    requires Proper(w.shards, cfg) && Enabled(w, e) && KeyInv(w, cfg, k) && NoClash(w, k)
    requires forall t :: !MidWrite(Apply(w, cfg, countMatched, e), k, t)
    ensures KeyCoherent(Apply(w, cfg, countMatched, e), cfg, k)
  {
    hide LookupIn, Step, Compatible;
    var w' := Apply(w, cfg, countMatched, e);
    CacheStepLookup(w, cfg, countMatched, e, k);
    if t :| MidWrite(w, k, t) {
      assert !MidWrite(w', k, t);
      assert e.t == t;
    } else if e.Sql? && w.tasks[e.t].key == k {
      assert !MidWrite(w', k, e.t);
    }
  }

  /** Coherence over all interleavings: if in a run the handlers of k that overlap are only reads with
      reads and deletes with deletes, then whenever no handler of k is in flight the cache entry of k is
      absent or equal to the table's, whatever happens to other keys. */
  lemma {:induction false} QuietKeysAreCoherent(ws: seq<World>, cfg: Config, countMatched: bool,
                                                events: seq<Event>, k: string, i: nat)
    requires IsRun(ws, cfg, countMatched, events) && Start(ws[0], cfg) && i < |ws|
    requires forall j :: 0 <= j < i ==> NoClash(ws[j], k)
    ensures KeyInv(ws[i], cfg, k)
    ensures Quiet(ws[i], k) ==> KeyCoherent(ws[i], cfg, k)
  {
    if i > 0 {
      QuietKeysAreCoherent(ws, cfg, countMatched, events, k, i - 1);
      RunProper(ws, cfg, countMatched, events, i - 1);
      StepKeepsKeyInv(ws[i - 1], cfg, countMatched, events[i - 1], k);
    }
  }

  // ----- every other overlap can leave a stale entry

  /** A handler that changes what the table says of k, away from v. */
  predicate Writer(task: Task, k: string, v: string) {
    task.New() && !task.Looking? && task.key == k && (task.Deleting? || task.value != v)
  }

  ghost predicate Stale(w: World, cfg: Config, k: string)
    requires cfg.count >= 1 && |w.shards| == cfg.count
  {
    w.tasks == map[] && !KeyCoherent(w, cfg, k)
  }

  /** The writer's statement, on a table where k has another value. */
  ghost function Written(task: Task, table: Table): Table
    requires task.Deleting? || task.Creating? || task.Updating?
  {
    if task.Deleting? then table - {task.key} else table[task.key := task.value]
  }

  ghost function Done(task: Task): Task
    requires task.Creating? || task.Updating? || task.Deleting?
  {
    match task
    case Creating(k, v, _) => Creating(k, v, true)
    case Updating(k, v, _) => Updating(k, v, true)
    case Deleting(k, _) => Deleting(k, true)
  }

  lemma WriterSql(w: World, t: Thread, k: string, v: string, countMatched: bool)
    requires t in w.tasks && Writer(w.tasks[t], k, v) && k in w.table && w.table[k] == v
    ensures Enabled(w, Sql(t, true))
    ensures SqlStep(w, t, true, countMatched) ==
            w.(table := Written(w.tasks[t], w.table), tasks := w.tasks[t := Done(w.tasks[t])])
  {
  }

  lemma NothingCached(cfg: Config, k: string)
    requires cfg.Valid()
    ensures LookupIn(Empty(cfg), cfg, k) == None
  {
  }

  lemma ReadFetches(cfg: Config, countMatched: bool, k: string, v: string)
    returns (ws: seq<World>, events: seq<Event>, w: World)
    requires cfg.Valid()
    ensures w == World(map[k := v], Empty(cfg), map[0 := Fetched(k, v)]) && Proper(w.shards, cfg)
    ensures IsRun(ws, cfg, countMatched, events) && Start(ws[0], cfg) && ws[|events|] == w
    ensures events == [Arrive(0, Looking(k)), Cache(0), Sql(0, true)]
  {
    hide IsRun, Start, Proper, Empty, LookupIn, Step;
    ws, events, w := Begin(cfg, countMatched, k, v);
    ws, events, w := Then(ws, cfg, countMatched, events, w, Arrive(0, Looking(k)));
    NothingCached(cfg, k);
    ws, events, w := Then(ws, cfg, countMatched, events, w, Cache(0));
    ws, events, w := Then(ws, cfg, countMatched, events, w, Sql(0, true));
  }

  /** A read that fetched the old value fills the cache after any writer of the same key has finished. */
  lemma ReadOverlappingWriteCanGoStale(cfg: Config, countMatched: bool, k: string, v: string, writer: Task)
    returns (ws: seq<World>, events: seq<Event>)
    requires cfg.Valid() && Writer(writer, k, v)
    ensures IsRun(ws, cfg, countMatched, events) && Start(ws[0], cfg) && Stale(ws[|events|], cfg, k)
    ensures events ==
            [Arrive(0, Looking(k)), Cache(0), Sql(0, true), Arrive(1, writer), Sql(1, true), Cache(1), Cache(0)]
  {
    hide IsRun, Start, Stale, Proper, Empty, LookupIn, Step;
    var w;
    ws, events, w := ReadFetches(cfg, countMatched, k, v);
    ws, events, w := Then(ws, cfg, countMatched, events, w, Arrive(1, writer));
    assert w.tasks == map[0 := Fetched(k, v), 1 := writer] && w.table == map[k := v];
    WriterSql(w, 1, k, v, countMatched);
    ws, events, w := Then(ws, cfg, countMatched, events, w, Sql(1, true));
    ws, events := LatePut(ws, cfg, countMatched, events, w, k);
  }

  lemma KeepsShardCount(w: World, cfg: Config, countMatched: bool, e: Event)
    requires cfg.count >= 1 && |w.shards| == cfg.count && Enabled(w, e)
    ensures |Apply(w, cfg, countMatched, e).shards| == cfg.count
  {
  }

  /** A run begins with a table that holds k, an empty cache and no handler. */
  lemma Begin(cfg: Config, countMatched: bool, k: string, v: string)
    returns (ws: seq<World>, events: seq<Event>, w: World)
    requires cfg.Valid()
    ensures w == World(map[k := v], Empty(cfg), map[]) && ws == [w] && events == []
    ensures IsRun(ws, cfg, countMatched, events) && Start(ws[0], cfg) && Proper(w.shards, cfg)
  {
    w := World(map[k := v], Empty(cfg), map[]);
    ws, events := [w], [];
    EmptyProper(cfg);
  }

  /** A run goes on with any enabled event. */
  lemma Then(ws: seq<World>, cfg: Config, countMatched: bool, events: seq<Event>, last: World, e: Event)
    returns (ws': seq<World>, events': seq<Event>, last': World)
    requires IsRun(ws, cfg, countMatched, events) && ws[|events|] == last && Enabled(last, e)
    ensures last' == Apply(last, cfg, countMatched, e) && events' == events + [e]
    ensures IsRun(ws', cfg, countMatched, events') && ws'[|events'|] == last' && ws'[0] == ws[0]
  {
    hide Enabled, Apply;
    KeepsShardCount(last, cfg, countMatched, e);
    last' := Apply(last, cfg, countMatched, e);
    ws', events' := ws + [last'], events + [e];
  }

  lemma EmptyProper(cfg: Config)
    requires cfg.Valid()
    ensures Proper(Empty(cfg), cfg)
  {
  }

  /** The end of both races: thread 1 does its cache step, then thread 0 puts a value the table has lost. */
  lemma LatePut(ws: seq<World>, cfg: Config, countMatched: bool, events: seq<Event>, last: World, k: string)
    returns (ws': seq<World>, events': seq<Event>)
    requires IsRun(ws, cfg, countMatched, events) && ws[|events|] == last && Proper(last.shards, cfg)
    requires last.tasks.Keys == {0, 1} && Enabled(last, Cache(1)) && !last.tasks[1].Looking?
    requires last.tasks[0].AboutToPut() && last.tasks[0].key == k
    requires !(k in last.table && last.table[k] == last.tasks[0].value)
    ensures IsRun(ws', cfg, countMatched, events') && Stale(ws'[|events'|], cfg, k) && ws'[0] == ws[0]
    ensures events' == events + [Cache(1)] + [Cache(0)]
  {
    var w, v, task := last, last.tasks[0].value, last.tasks[1];
    if task.AboutToPut() { StepProper(w.shards, cfg, Put(task.key, task.value)); }
    StepProper(w.shards, cfg, Remove(task.key));
    ws', events', w := Then(ws, cfg, countMatched, events, w, Cache(1));
    LookupAfterStep(w.shards, cfg, Put(k, v), k);
    ws', events', w := Then(ws', cfg, countMatched, events', w, Cache(0));
    assert w.tasks == map[];
  }

  /** Two overlapping writers, the first of them a create or an update, can reach the cache in the other
      order than the table. */
  lemma OverlappingWritesCanGoStale(cfg: Config, countMatched: bool, k: string, v: string, first: Task, second: Task)
    returns (ws: seq<World>, events: seq<Event>)
    requires cfg.Valid() && Writer(first, k, v) && !first.Deleting? && Writer(second, k, first.value)
    ensures IsRun(ws, cfg, countMatched, events) && Start(ws[0], cfg) && Stale(ws[|events|], cfg, k)
    ensures events == [Arrive(0, first), Arrive(1, second), Sql(0, true), Sql(1, true), Cache(1), Cache(0)]
  {
    hide IsRun, Start, Stale, Proper, Empty, LookupIn, Step;
    var w;
    ws, events, w := Begin(cfg, countMatched, k, v);
    ws, events, w := Then(ws, cfg, countMatched, events, w, Arrive(0, first));
    ws, events, w := Then(ws, cfg, countMatched, events, w, Arrive(1, second));
    WriterSql(w, 0, k, v, countMatched);
    ws, events, w := Then(ws, cfg, countMatched, events, w, Sql(0, true));
    WriterSql(w, 1, k, first.value, countMatched);
    ws, events, w := Then(ws, cfg, countMatched, events, w, Sql(1, true));
    assert w.tasks == map[0 := Done(first), 1 := Done(second)];
    ws, events := LatePut(ws, cfg, countMatched, events, w, k);
  }

  // ----- so the condition on overlaps is exact

  /** The handlers of k that arrive are all from the set. */
  ghost predicate ArrivalsFrom(events: seq<Event>, handlers: set<Task>, k: string) {
    forall i :: 0 <= i < |events| && events[i].Arrive? && events[i].task.key == k ==> events[i].task in handlers
  }

  /** What a task in flight has kept of the handler that arrived. */
  predicate StageOf(task: Task, handler: Task) {
    && task.key == handler.key && (task.Reads() <==> handler.Reads()) && (task.Deleting? <==> handler.Deleting?)
    && (!handler.Reads() && !handler.Deleting? ==> task.value == handler.value)
  }

  lemma StageStep(w: World, cfg: Config, countMatched: bool, e: Event, t: Thread)
    requires cfg.count >= 1 && |w.shards| == cfg.count && Enabled(w, e) && t in Apply(w, cfg, countMatched, e).tasks
    ensures var task := Apply(w, cfg, countMatched, e).tasks[t];
            e == Arrive(t, task) || (t in w.tasks && StageOf(task, w.tasks[t]))
  {
  }

  lemma {:induction false} TasksAreStages(ws: seq<World>, cfg: Config, countMatched: bool, events: seq<Event>,
                                          k: string, handlers: set<Task>, i: nat)
    requires IsRun(ws, cfg, countMatched, events) && Start(ws[0], cfg) && ArrivalsFrom(events, handlers, k) && i < |ws|
    ensures forall t :: t in ws[i].tasks && ws[i].tasks[t].key == k ==>
              exists h :: h in handlers && StageOf(ws[i].tasks[t], h)
  {
    hide Enabled, Apply;
    if i > 0 {
      TasksAreStages(ws, cfg, countMatched, events, k, handlers, i - 1);
      var w, w', e := ws[i - 1], ws[i], events[i - 1];
      forall t | t in w'.tasks && w'.tasks[t].key == k ensures exists h :: h in handlers && StageOf(w'.tasks[t], h) {
        StageStep(w, cfg, countMatched, e, t);
        if e == Arrive(t, w'.tasks[t]) {
          assert StageOf(w'.tasks[t], e.task);
        } else {
          var h :| h in handlers && StageOf(w.tasks[t], h);
          assert StageOf(w'.tasks[t], h);
        }
      }
    }
  }

  lemma {:induction false} CompatibleNeverClash(ws: seq<World>, cfg: Config, countMatched: bool, events: seq<Event>,
                                                k: string, handlers: set<Task>, i: nat)
    requires IsRun(ws, cfg, countMatched, events) && Start(ws[0], cfg) && ArrivalsFrom(events, handlers, k) && i < |ws|
    requires forall a, b :: a in handlers && b in handlers ==> Compatible(a, b)
    ensures NoClash(ws[i], k)
  {
    TasksAreStages(ws, cfg, countMatched, events, k, handlers, i);
    var tasks := ws[i].tasks;
    forall t, u | t in tasks && u in tasks && t != u && tasks[t].key == k && tasks[u].key == k
      ensures Compatible(tasks[t], tasks[u])
    {
      var a :| a in handlers && StageOf(tasks[t], a);
      var b :| b in handlers && StageOf(tasks[u], b);
      assert Compatible(a, b);
    }
  }

  /** When no handler of k is in flight, its entry is right. */
  ghost predicate RightWhenQuiet(w: World, cfg: Config, k: string)
    requires cfg.count >= 1 && |w.shards| == cfg.count
  {
    Quiet(w, k) ==> KeyCoherent(w, cfg, k)
  }

  ghost predicate AlwaysRight(cfg: Config, countMatched: bool, k: string, handlers: set<Task>) {
    forall ws, events :: IsRun(ws, cfg, countMatched, events) && Start(ws[0], cfg) && ArrivalsFrom(events, handlers, k)
                         ==> RightWhenQuiet(ws[|events|], cfg, k)
  }

  lemma IncompatibleGoesWrong(cfg: Config, countMatched: bool, k: string, handlers: set<Task>, a: Task, b: Task)
    requires cfg.Valid() && a in handlers && b in handlers && !Compatible(a, b)
    requires a.New() && b.New() && a.key == b.key == k
    ensures !AlwaysRight(cfg, countMatched, k, handlers)
  {
    hide Start, KeyCoherent, Enabled, Apply;
    var ws, events;
    if a.Looking? || (a.Deleting? && !b.Looking?) {
      if a.Looking? {
        assert a == Looking(k);
        ws, events := ReadOverlappingWriteCanGoStale(cfg, countMatched, k, Other(b), b);
      } else {
        ws, events := OverlappingWritesCanGoStale(cfg, countMatched, k, Other(b), b, a);
      }
    } else if b.Looking? {
      assert b == Looking(k);
      ws, events := ReadOverlappingWriteCanGoStale(cfg, countMatched, k, Other(a), a);
    } else {
      ws, events := OverlappingWritesCanGoStale(cfg, countMatched, k, Other(a), a, b);
    }
    assert ArrivalsFrom(events, handlers, k);
    assert !RightWhenQuiet(ws[|events|], cfg, k);
  }

  /** A value the handler does not write. */
  function Other(task: Task): (v: string)
    ensures !task.Looking? && !task.Missed? && !task.Deleting? ==> v != task.value
  {
    match task
    case Creating(_, v, _) => v + "'"
    case Updating(_, v, _) => v + "'"
    case Fetched(_, v) => v + "'"
    case _ => ""
  }

  /** Which handlers of one key may be let loose on it: in every run in which they arrive as often as they
      like, and anything happens to other keys, its entry is right whenever none of them is in flight,
      exactly if any two of them are compatible. */
  lemma AlwaysRightIff(cfg: Config, countMatched: bool, k: string, handlers: set<Task>)
    requires cfg.Valid() && forall a :: a in handlers ==> a.New() && a.key == k
    ensures AlwaysRight(cfg, countMatched, k, handlers) <==>
            forall a, b :: a in handlers && b in handlers ==> Compatible(a, b)
  {
    hide Start, NoClash, KeyCoherent, Enabled, Apply;
    if a, b :| a in handlers && b in handlers && !Compatible(a, b) {
      IncompatibleGoesWrong(cfg, countMatched, k, handlers, a, b);
    } else {
      forall ws, events | IsRun(ws, cfg, countMatched, events) && Start(ws[0], cfg) && ArrivalsFrom(events, handlers, k)
        ensures RightWhenQuiet(ws[|events|], cfg, k)
      {
        forall j | 0 <= j < |events| ensures NoClash(ws[j], k) {
          CompatibleNeverClash(ws, cfg, countMatched, events, k, handlers, j);
        }
        QuietKeysAreCoherent(ws, cfg, countMatched, events, k, |events|);
      }
    }
  }
}
