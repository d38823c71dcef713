/** The connection pool as one thread sees it between two waits. */
module ConnectionPool {
  type Connection = nat

  function Rotated(q: seq<Connection>): seq<Connection>
    requires q != []
  {
    q[1..] + [q[0]]
  }

  class DBPool {
    var connections: seq<Connection>

    /** One connection for each attempt that opens; the others are logged and skipped. */
    constructor (opens: seq<bool>)
      ensures forall c :: c in connections <==> 0 <= c < |opens| && opens[c]
      ensures forall i, j :: 0 <= i < j < |connections| ==> connections[i] < connections[j]
    {
      connections := [];
      new;
      for i := 0 to |opens|
        invariant forall c :: c in connections <==> 0 <= c < i && opens[c]
        invariant forall a, b :: 0 <= a < b < |connections| ==> connections[a] < connections[b]
        invariant forall a :: 0 <= a < |connections| ==> connections[a] < i
      {
        if opens[i] {
          connections := connections + [i];
        }
      }
    }

    /** What is left of getConnection once its wait loop has ended. */
    method GetConnection() returns (con: Connection)
      requires connections != []
      modifies this
      ensures con == old(connections[0]) && connections == old(connections[1..])
    {
      con := connections[0];
      connections := connections[1..];
    }

    method ReleaseConnection(con: Connection)
      modifies this
      ensures connections == old(connections) + [con]
    {
      connections := connections + [con];
    }
  }
}

/** The pool under any number of threads. One step is what happens between taking the mutex and giving it
    up: a test of the wait loop, or a release with its notify_one. */
module PoolProtocol {
  import opened Common
  import opened ConnectionPool

  type Thread = nat

  /** Outside the pool; asleep in wait; notified but not yet resumed; awake without being notified (a
      spurious wake-up) but not yet resumed; holding a connection. */
  datatype Phase = Idle | Sleeping | Notified | Stirred | Holding(con: Connection)

  datatype State = State(free: seq<Connection>, phases: map<Thread, Phase>)

  datatype Event =
    | Request(t: Thread)             // enters getConnection and makes the first test
    | Resume(t: Thread)              // a woken thread has the mutex again and repeats the test
    | WakeSpuriously(t: Thread)
    | Release(t: Thread, w: Thread)  // w is the thread notify_one chooses, if any is asleep

  ghost predicate Is(s: State, t: Thread, p: Phase) {
    t in s.phases && s.phases[t] == p
  }

  ghost function Asleep(s: State): set<Thread> {
    set t | t in s.phases && s.phases[t] == Sleeping
  }

  ghost function Pending(s: State): set<Thread> {
    set t | t in s.phases && s.phases[t] == Notified
  }

  ghost function Holders(s: State): set<Thread> {
    set t | t in s.phases && s.phases[t].Holding?
  }

  ghost predicate Enabled(s: State, e: Event) {
    match e
    case Request(t) => Is(s, t, Idle)
    case Resume(t) => Is(s, t, Notified) || Is(s, t, Stirred)
    case WakeSpuriously(t) => Is(s, t, Sleeping)
    case Release(t, w) => t in s.phases && s.phases[t].Holding? && (Asleep(s) != {} ==> w in Asleep(s))
  }

  /** The test of the wait loop: go back to sleep, or take the front connection. */
  ghost function Test(s: State, t: Thread): State {
    if s.free == [] then s.(phases := s.phases[t := Sleeping])
    else State(s.free[1..], s.phases[t := Holding(s.free[0])])
  }

  ghost function Apply(s: State, e: Event): State
    requires Enabled(s, e)
  {
    match e
    case Request(t) => Test(s, t)
    case Resume(t) => Test(s, t)
    case WakeSpuriously(t) => s.(phases := s.phases[t := Stirred])
    case Release(t, w) =>
      var phases := s.phases[t := Idle];
      State(s.free + [s.phases[t].con], if Asleep(s) != {} then phases[w := Notified] else phases)
  }

  ghost predicate Start(s: State, pool: set<Connection>, threads: set<Thread>) {
    && s.phases.Keys == threads
    && (forall t :: t in threads ==> s.phases[t] == Idle)
    && (forall i, j :: 0 <= i < j < |s.free| ==> s.free[i] != s.free[j])
    && (forall c :: c in s.free <==> c in pool)
  }

  /** A run is its states with the events between them. */
  ghost predicate IsRun(states: seq<State>, events: seq<Event>) {
    && |states| == |events| + 1
    && forall i :: 0 <= i < |events| ==> Enabled(states[i], events[i]) && states[i + 1] == Apply(states[i], events[i])
  }

  /** Free and held connections partition the opened ones, with no connection in two places. */
  ghost predicate Partitioned(s: State, pool: set<Connection>) {
    && (forall i, j :: 0 <= i < j < |s.free| ==> s.free[i] != s.free[j])
    && (forall t :: t in Holders(s) ==> s.phases[t].con in pool && s.phases[t].con !in s.free)
    && (forall t, u :: t in Holders(s) && u in Holders(s) && t != u ==> s.phases[t].con != s.phases[u].con)
    && (forall c :: c in s.free ==> c in pool)
    && (forall c :: c in pool ==> c in s.free || exists t :: t in Holders(s) && s.phases[t].con == c)
  }

  /** While a thread sleeps un-notified, every free connection is matched by a notified thread. */
  ghost predicate NoLostWakeup(s: State) {
    Asleep(s) != {} ==> |s.free| <= |Pending(s)|
  }

  lemma TestKeepsPartition(s: State, t: Thread, pool: set<Connection>)
    requires Partitioned(s, pool) && t in s.phases && !s.phases[t].Holding?
    ensures Partitioned(Test(s, t), pool)
  {
    var s' := Test(s, t);
    forall c | c in pool
      ensures c in s'.free || exists u :: u in Holders(s') && s'.phases[u].con == c
    {
      if c in s.free {
        if c == s.free[0] { assert t in Holders(s'); }
      } else {
        var u :| u in Holders(s) && s.phases[u].con == c;
        assert u in Holders(s');
      }
    }
  }

  lemma ReleaseKeepsPartition(s: State, t: Thread, w: Thread, pool: set<Connection>)
    requires Partitioned(s, pool) && Enabled(s, Release(t, w))
    ensures Partitioned(Apply(s, Release(t, w)), pool)
  {
    var s' := Apply(s, Release(t, w));
    assert Holders(s') == Holders(s) - {t};
    forall c | c in pool
      ensures c in s'.free || exists u :: u in Holders(s') && s'.phases[u].con == c
    {
      if c !in s.free && c != s.phases[t].con {
        var u :| u in Holders(s) && s.phases[u].con == c;
        assert u in Holders(s');
      }
    }
  }

  lemma StepKeepsPartition(s: State, e: Event, pool: set<Connection>)
    requires Partitioned(s, pool) && Enabled(s, e)
    ensures Partitioned(Apply(s, e), pool) && Apply(s, e).phases.Keys == s.phases.Keys
  {
    hide Partitioned;
    match e
    case Request(t) => TestKeepsPartition(s, t, pool);
    case Resume(t) => TestKeepsPartition(s, t, pool);
    case Release(t, w) => ReleaseKeepsPartition(s, t, w, pool);
    case WakeSpuriously(t) => WakingKeepsPartition(s, t, pool);
  }

  lemma WakingKeepsPartition(s: State, t: Thread, pool: set<Connection>)
    requires Partitioned(s, pool) && Is(s, t, Sleeping)
    ensures Partitioned(s.(phases := s.phases[t := Stirred]), pool)
  {
    var s' := s.(phases := s.phases[t := Stirred]);
    assert Holders(s') == Holders(s);
  }

  lemma ReleaseWakes(s: State, t: Thread, w: Thread)
    requires Enabled(s, Release(t, w))
    ensures var s' := Apply(s, Release(t, w));
            if Asleep(s) != {} then Asleep(s') == Asleep(s) - {w} && Pending(s') == Pending(s) + {w} && w !in Pending(s)
            else Asleep(s') == {}
  {
  }

  lemma StepKeepsNoLostWakeup(s: State, e: Event)
    requires Enabled(s, e) && NoLostWakeup(s)
    ensures NoLostWakeup(Apply(s, e))
  {
    hide Asleep, Pending;
    match e
    case Release(t, w) => ReleaseWakes(s, t, w);
    case WakeSpuriously(t) => WakingSets(s, t);
    case Request(t) => if s.free != [] { TestTakes(s, t); }
    case Resume(t) => if s.free != [] { TestTakes(s, t); }
  }

  lemma WakingSets(s: State, t: Thread)
    requires Is(s, t, Sleeping)
    ensures var s' := s.(phases := s.phases[t := Stirred]);
            Asleep(s') == Asleep(s) - {t} && Pending(s') == Pending(s) && t in Asleep(s)
  {
  }

  lemma TestTakes(s: State, t: Thread)
    requires t in s.phases && s.free != []
    ensures Asleep(Test(s, t)) == Asleep(s) - {t} && Pending(Test(s, t)) == Pending(s) - {t}
    ensures t in Pending(s) <==> s.phases[t] == Notified
  {
  }

  /** Safety of every run, spurious wake-ups included. */
  lemma {:induction false} PoolIsSafe(states: seq<State>, events: seq<Event>, pool: set<Connection>,
                                      threads: set<Thread>, i: nat)
    requires IsRun(states, events) && Start(states[0], pool, threads) && i < |states|
    ensures Partitioned(states[i], pool) && NoLostWakeup(states[i]) && states[i].phases.Keys == threads
  {
    if i == 0 {
      assert Holders(states[0]) == {};
      assert Asleep(states[0]) == {};
    } else {
      PoolIsSafe(states, events, pool, threads, i - 1);
      StepKeepsNoLostWakeup(states[i - 1], events[i - 1]);
      StepKeepsPartition(states[i - 1], events[i - 1], pool);
    }
  }

  /** The connections taken, and those released, in the order of the events. */
  ghost function TakenIn(states: seq<State>, events: seq<Event>, n: nat): seq<Connection>
    requires IsRun(states, events) && n <= |events|
  {
    if n == 0 then []
    else
      var e, s := events[n - 1], states[n - 1];
      TakenIn(states, events, n - 1)
      + if (e.Request? || e.Resume?) && s.free != [] then [states[n].phases[e.t].con] else []
  }

  ghost function ReleasedIn(states: seq<State>, events: seq<Event>, n: nat): seq<Connection>
    requires IsRun(states, events) && n <= |events|
  {
    if n == 0 then []
    else
      var e, s := events[n - 1], states[n - 1];
      ReleasedIn(states, events, n - 1) + if e.Release? then [s.phases[e.t].con] else []
  }

  /** First in, first out: what has been taken and what is free are, in order, what was free at first and what has
      been released. */
  lemma {:induction false} PoolIsAQueue(states: seq<State>, events: seq<Event>, n: nat)
    requires IsRun(states, events) && n <= |events|
    ensures TakenIn(states, events, n) + states[n].free == states[0].free + ReleasedIn(states, events, n)
  {
    if n == 0 {
      assert states[0].free + [] == [] + states[0].free;
    } else {
      PoolIsAQueue(states, events, n - 1);
      var e, s, s' := events[n - 1], states[n - 1], states[n];
      assert Enabled(s, e) && s' == Apply(s, e);
      var taken, released := TakenIn(states, events, n - 1), ReleasedIn(states, events, n - 1);
      assert taken + [] == taken && released + [] == released;
      if e.Release? {
        Assoc(taken, s.free, [s.phases[e.t].con]);
        Assoc(states[0].free, released, [s.phases[e.t].con]);
      } else if (e.Request? || e.Resume?) && s.free != [] {
        assert s.free == [s.free[0]] + s'.free;
        Assoc(taken, [s.free[0]], s'.free);
      }
    }
  }

  /** No stuck wait: when a thread sleeps and no notified thread is on its way, every connection is in
      use, so a release is still to come. */
  lemma SleepersWaitForAHolder(states: seq<State>, events: seq<Event>, pool: set<Connection>,
                               threads: set<Thread>, i: nat)
    requires IsRun(states, events) && Start(states[0], pool, threads) && i < |states|
    requires Asleep(states[i]) != {} && Pending(states[i]) == {}
    ensures states[i].free == []
    ensures forall c :: c in pool ==> exists t :: t in Holders(states[i]) && states[i].phases[t].con == c
  {
    PoolIsSafe(states, events, pool, threads, i);
  }

  /** With no free connection the holders are as many as the opened connections. */
  lemma {:induction false} HoldersCount(s: State, conns: set<Connection>, holders: set<Thread>)
    requires holders <= Holders(s)
    requires forall t, u :: t in holders && u in holders && t != u ==> s.phases[t].con != s.phases[u].con
    requires forall c :: c in conns <==> exists t :: t in holders && s.phases[t].con == c
    ensures |holders| == |conns|
    decreases holders
  {
    if holders == {} {
      assert conns == {};
    } else {
      var t :| t in holders;
      var c := s.phases[t].con;
      HoldersCount(s, conns - {c}, holders - {t});
    }
  }

  /** If as many connections pool as there are threads, no thread is ever put to sleep. */
  lemma {:induction false} EnoughConnectionsNeverWait(states: seq<State>, events: seq<Event>, pool: set<Connection>,
                                                      threads: set<Thread>, i: nat)
    requires IsRun(states, events) && Start(states[0], pool, threads) && i < |states|
    requires |threads| <= |pool|
    ensures forall t :: t in states[i].phases ==> states[i].phases[t] == Idle || states[i].phases[t].Holding?
  {
    hide Partitioned, NoLostWakeup;
    if i > 0 {
      EnoughConnectionsNeverWait(states, events, pool, threads, i - 1);
      var s, e := states[i - 1], events[i - 1];
      PoolIsSafe(states, events, pool, threads, i - 1);
      if e.Request? { AskerFindsOne(s, e.t, pool, threads); }
      assert Asleep(s) == {};
    }
  }

  /** Of the other threads there are not enough to hold every connection. */
  lemma AskerFindsOne(s: State, t: Thread, pool: set<Connection>, threads: set<Thread>)
    requires Partitioned(s, pool) && s.phases.Keys == threads && Is(s, t, Idle) && |threads| <= |pool|
    ensures s.free != []
  {
    if s.free == [] {
      HoldersCount(s, pool, Holders(s));
      assert Holders(s) <= threads - {t};
      SubsetSize(Holders(s), threads - {t});
    }
  }

  /** If fewer did, some run puts a thread to sleep: enough threads ask at once. */
  lemma {:induction false} TooFewConnectionsCanWait(s: State, idle: set<Thread>)
    returns (states: seq<State>, events: seq<Event>)
    requires forall t :: t in idle ==> Is(s, t, Idle)
    requires |s.free| < |idle|
    ensures IsRun(states, events) && states[0] == s
    ensures Asleep(states[|events|]) != {}
    decreases |s.free|
  {
    var t :| t in idle;
    var s' := Apply(s, Request(t));
    if s.free == [] {
      states, events := [s, s'], [Request(t)];
      assert t in Asleep(s');
    } else {
      var ss, es := TooFewConnectionsCanWait(s', idle - {t});
      states, events := [s] + ss, [Request(t)] + es;
    }
  }

}
