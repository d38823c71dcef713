/** The worker pool. A step is what one thread does between taking the pool's mutex and giving it up; the
    notifications of enqueue and shutdown are steps of their own, because they come after the unlock. */
module ThreadPool {

  type Worker = nat
  type Job = nat

  // ----- what is done under the mutex

  /** maxQueued is 0 when the queue is unbounded. */
  predicate Accepts(jobs: seq<Job>, maxQueued: nat) {
    maxQueued == 0 || |jobs| < maxQueued
  }

  /** What a worker does when it has the mutex: sleep, return, or take the front job. */
  datatype Decision = Sleep | Leave | Take(job: Job, rest: seq<Job>)

  function Decide(jobs: seq<Job>, shutdown: bool): Decision {
    if jobs != [] then Take(jobs[0], jobs[1..]) else if shutdown then Leave else Sleep
  }

  /** The fields the mutex guards. */
  class JobQueue {
    const maxQueued: nat
    var jobs: seq<Job>
    var shutdown: bool

    constructor (maxQueued: nat)
      ensures this.maxQueued == maxQueued && jobs == [] && !shutdown
    {
      this.maxQueued := maxQueued;
      jobs, shutdown := [], false;
    }

    method Enqueue(job: Job) returns (accepted: bool)
      modifies this`jobs
      ensures accepted <==> maxQueued == 0 || |old(jobs)| < maxQueued
      ensures jobs == if accepted then old(jobs) + [job] else old(jobs)
    {
      if maxQueued > 0 && |jobs| >= maxQueued {
        return false;
      }
      jobs := jobs + [job];
      return true;
    }

    method SetShutdown()
      modifies this`shutdown
      ensures shutdown
    {
      shutdown := true;
    }

    /** From the wait predicate on, in the order of the code's tests. */
    method Next() returns (decision: Decision)
      modifies this`jobs
      ensures decision == Decide(old(jobs), shutdown)
      ensures decision == Sleep <==> old(jobs) == [] && !shutdown
      ensures decision == Leave <==> old(jobs) == [] && shutdown
      ensures old(jobs) != [] ==> decision == Take(old(jobs)[0], old(jobs)[1..])
      ensures jobs == if decision.Take? then decision.rest else old(jobs)
    {
      if !(jobs != [] || shutdown) {
        return Sleep;
      }
      if shutdown && jobs == [] {
        return Leave;
      }
      decision := Take(jobs[0], jobs[1..]);
      jobs := jobs[1..];
    }
  }

  // ----- the protocol

  /** About to test the wait predicate (at the start, after a job, or after a spurious wake-up); asleep in
      wait; notified but not yet resumed; running the job that was accepted as number i; returned. */
  datatype Phase = Testing | Asleep | Notified | Running(i: nat) | Exited

  datatype State = State(
    jobs: seq<Job>,
    shutdown: bool,
    workers: map<Worker, Phase>,
    notifyOnes: nat,          // enqueue calls that have unlocked but not yet notified
    notifyAll: bool,          // the same for shutdown
    accepted: seq<Job>,       // history: every job accepted, in order
    taken: nat,               // history: how many jobs have been taken
    completed: set<nat>,      // history: the numbers of the jobs that have returned
    acceptedAtShutdown: nat,  // history: how many had been accepted when shutdown was set
    acceptedAtExit: nat)      // history: how many had been accepted when a worker last returned

  datatype Event =
    | Enqueue(job: Job)
    | NotifyOne(w: Worker)    // w is the sleeper chosen, if there is one
    | Test(w: Worker)
    | WakeSpuriously(w: Worker)
    | Finish(w: Worker)
    | SetShutdown
    | NotifyAll

  ghost function In(s: State, p: Phase): set<Worker> {
    set w | w in s.workers && s.workers[w] == p
  }

  ghost predicate Enabled(s: State, e: Event) {
    match e
    case Enqueue(_) => true
    case NotifyOne(w) => s.notifyOnes > 0 && (In(s, Asleep) != {} ==> w in In(s, Asleep))
    case Test(w) => w in s.workers && (s.workers[w] == Testing || s.workers[w] == Notified)
    case WakeSpuriously(w) => w in s.workers && s.workers[w] == Asleep
    case Finish(w) => w in s.workers && s.workers[w].Running?
    case SetShutdown => !s.shutdown
    case NotifyAll => s.notifyAll
  }

  ghost function Apply(s: State, e: Event, maxQueued: nat): State
    requires Enabled(s, e)
  {
    match e
    case Enqueue(job) =>
      if !Accepts(s.jobs, maxQueued) then s
      else s.(jobs := s.jobs + [job], accepted := s.accepted + [job], notifyOnes := s.notifyOnes + 1)
    case NotifyOne(w) =>
      var s' := s.(notifyOnes := s.notifyOnes - 1);
      if In(s, Asleep) != {} then s'.(workers := s.workers[w := Notified]) else s'
    case Test(w) =>
      (match Decide(s.jobs, s.shutdown)
       case Sleep => s.(workers := s.workers[w := Asleep])
       case Leave => s.(workers := s.workers[w := Exited], acceptedAtExit := |s.accepted|)
       case Take(_, rest) => s.(workers := s.workers[w := Running(s.taken)], jobs := rest, taken := s.taken + 1))
    case WakeSpuriously(w) => s.(workers := s.workers[w := Testing])
    case Finish(w) => s.(workers := s.workers[w := Testing], completed := s.completed + {s.workers[w].i})
    case SetShutdown => s.(shutdown := true, notifyAll := true, acceptedAtShutdown := |s.accepted|)
    case NotifyAll =>
      s.(notifyAll := false,
         workers := map w | w in s.workers :: if s.workers[w] == Asleep then Notified else s.workers[w])
  }

  /** An enqueue is refused, and then changes nothing, exactly if the queue is bounded and full; otherwise the job
      is accepted last and one more notification is due. */
  lemma EnqueueIff(s: State, job: Job, maxQueued: nat)
    ensures var s' := Apply(s, Enqueue(job), maxQueued);
            if maxQueued > 0 && |s.jobs| >= maxQueued then s' == s
            else && s'.jobs == s.jobs + [job] && s'.accepted == s.accepted + [job]
                 && s'.notifyOnes == s.notifyOnes + 1 && s'.workers == s.workers && s'.taken == s.taken
  {
  }

  ghost predicate Start(s: State, ws: set<Worker>) {
    && ws != {} && s.workers.Keys == ws && (forall w :: w in ws ==> s.workers[w] == Testing)
    && s.jobs == s.accepted == [] && !s.shutdown && !s.notifyAll && s.notifyOnes == 0
    && s.taken == 0 && s.completed == {} && s.acceptedAtShutdown == s.acceptedAtExit == 0
  }

  ghost predicate IsRun(states: seq<State>, events: seq<Event>, maxQueued: nat) {
    && |states| == |events| + 1
    && forall i :: 0 <= i < |events| ==>
         Enabled(states[i], events[i]) && states[i + 1] == Apply(states[i], events[i], maxQueued)
  }

  /** Jobs are taken in the order of acceptance, none twice: the queue is exactly what was accepted and
      not yet taken, and each job taken is being run by one worker or has completed, not both. */
  ghost predicate ExactlyOnce(s: State) {
    && s.taken <= |s.accepted| && s.jobs == s.accepted[s.taken..]
    && (forall i :: i in s.completed ==> i < s.taken)
    && (forall w :: w in s.workers && s.workers[w].Running? ==>
          s.workers[w].i < s.taken && s.workers[w].i !in s.completed)
    && (forall v, w :: v in s.workers && w in s.workers && v != w && s.workers[v].Running? ==>
          s.workers[w] != s.workers[v])
    && (forall i {:trigger i in s.completed} :: 0 <= i < s.taken ==>
          i in s.completed || exists w :: w in s.workers && s.workers[w] == Running(i))
  }

  /** While a worker sleeps, every queued job is matched by a notification, sent or still to be sent. */
  ghost predicate NoLostWakeup(s: State) {
    In(s, Asleep) != {} ==> |s.jobs| <= s.notifyOnes + |In(s, Notified)|
  }

  ghost predicate ShutdownReachesAll(s: State) {
    && (s.shutdown && !s.notifyAll ==> In(s, Asleep) == {})
    && (!s.shutdown ==> !s.notifyAll && In(s, Exited) == {})
    && s.acceptedAtShutdown <= |s.accepted|
    && (In(s, Exited) != {} ==> s.acceptedAtShutdown <= s.acceptedAtExit <= s.taken)
    && (s.workers.Keys != {} && In(s, Exited) == s.workers.Keys ==> s.taken == s.acceptedAtExit)
  }

  ghost predicate Inv(s: State) {
    ExactlyOnce(s) && NoLostWakeup(s) && ShutdownReachesAll(s)
  }

  lemma StepKeepsOrder(s: State, e: Event, maxQueued: nat)
    requires Enabled(s, e) && ExactlyOnce(s)
    ensures ExactlyOnce(Apply(s, e, maxQueued))
  {
    hide ExactlyOnce;
    var s' := Apply(s, e, maxQueued);
    match e
    case Enqueue(_) => EnqueueKeepsOrder(s, e, maxQueued);
    case Test(w) => if s'.taken == s.taken { SameRunners(s, s'); } else { TakingKeepsOrder(s, w, maxQueued); }
    case Finish(w) => FinishKeepsOrder(s, w, maxQueued);
    case _ => SameRunners(s, s');
  }

  /** Nothing but sleeping, waking and returning happens. */
  lemma SameRunners(s: State, s': State)
    requires ExactlyOnce(s) && s'.workers.Keys == s.workers.Keys
    requires s'.jobs == s.jobs && s'.accepted == s.accepted && s'.taken == s.taken && s'.completed == s.completed
    requires forall w, i :: w in s.workers ==> (s'.workers[w] == Running(i) <==> s.workers[w] == Running(i))
    ensures ExactlyOnce(s')
  {
    forall w | w in s'.workers && s'.workers[w].Running? ensures s.workers[w] == s'.workers[w] {
      assert s'.workers[w] == Running(s'.workers[w].i);
    }
    StillRunning(s, s');
  }

  lemma StillRunning(s: State, s': State)
    requires ExactlyOnce(s) && s.workers.Keys <= s'.workers.Keys && s.completed <= s'.completed && s.taken <= s'.taken
    requires forall w :: w in s.workers && s.workers[w].Running? ==>
               s'.workers[w] == s.workers[w] || s.workers[w].i in s'.completed
    ensures forall i {:trigger i in s'.completed} :: 0 <= i < s.taken ==>
              i in s'.completed || exists w :: w in s'.workers && s'.workers[w] == Running(i)
  {
    forall i {:trigger i in s'.completed} | 0 <= i < s.taken && i !in s'.completed
      ensures exists w :: w in s'.workers && s'.workers[w] == Running(i)
    {
      assert i !in s.completed;
      var w :| w in s.workers && s.workers[w] == Running(i);
      assert s'.workers[w] == Running(i);
    }
  }

  lemma EnqueueKeepsOrder(s: State, e: Event, maxQueued: nat)
    requires e.Enqueue? && ExactlyOnce(s)
    ensures ExactlyOnce(Apply(s, e, maxQueued))
  {
    StillRunning(s, Apply(s, e, maxQueued));
  }

  lemma TakingKeepsOrder(s: State, w: Worker, maxQueued: nat)
    requires Enabled(s, Test(w)) && ExactlyOnce(s) && s.jobs != []
    ensures ExactlyOnce(Apply(s, Test(w), maxQueued))
  {
    var s' := Apply(s, Test(w), maxQueued);
    assert s'.workers[w] == Running(s.taken);
    StillRunning(s, s');
  }

  lemma FinishKeepsOrder(s: State, w: Worker, maxQueued: nat)
    requires Enabled(s, Finish(w)) && ExactlyOnce(s)
    ensures ExactlyOnce(Apply(s, Finish(w), maxQueued))
  {
    StillRunning(s, Apply(s, Finish(w), maxQueued));
  }

  /** How moving one worker to another phase changes the set of workers in a given phase. */
  lemma Moved(s: State, s': State, w: Worker, to: Phase, p: Phase)
    requires w in s.workers && s'.workers == s.workers[w := to]
    ensures In(s', p) == if to == p then In(s, p) + {w} else In(s, p) - {w}
  {
  }

  lemma StepKeepsWakeups(s: State, e: Event, maxQueued: nat)
    requires Enabled(s, e) && NoLostWakeup(s)
    ensures NoLostWakeup(Apply(s, e, maxQueued))
  {
    var s' := Apply(s, e, maxQueued);
    match e
    case Enqueue(_) => assert In(s', Asleep) == In(s, Asleep) && In(s', Notified) == In(s, Notified);
    case NotifyOne(w) => NotifyOneKeepsWakeups(s, w, maxQueued);
    case Test(w) =>
      Moved(s, s', w, s'.workers[w], Asleep);
      Moved(s, s', w, s'.workers[w], Notified);
    case WakeSpuriously(w) =>
      Moved(s, s', w, Testing, Asleep);
      Moved(s, s', w, Testing, Notified);
    case Finish(w) =>
      Moved(s, s', w, Testing, Asleep);
      Moved(s, s', w, Testing, Notified);
    case SetShutdown => assert In(s', Asleep) == In(s, Asleep) && In(s', Notified) == In(s, Notified);
    case NotifyAll => assert In(s', Asleep) == {};
  }

  lemma NotifyOneKeepsWakeups(s: State, w: Worker, maxQueued: nat)
    requires Enabled(s, NotifyOne(w)) && NoLostWakeup(s)
    ensures NoLostWakeup(Apply(s, NotifyOne(w), maxQueued))
  {
    var s' := Apply(s, NotifyOne(w), maxQueued);
    if In(s, Asleep) != {} {
      Moved(s, s', w, Notified, Asleep);
      Moved(s, s', w, Notified, Notified);
    } else {
      assert In(s', Asleep) == {};
    }
  }

  lemma StepKeepsShutdown(s: State, e: Event, maxQueued: nat)
    requires Enabled(s, e) && ExactlyOnce(s) && ShutdownReachesAll(s)
    ensures ShutdownReachesAll(Apply(s, e, maxQueued))
  {
    var s' := Apply(s, e, maxQueued);
    match e
    case Enqueue(_) => SamePhases(s, s');
    case SetShutdown => SamePhases(s, s');
    case NotifyOne(w) =>
      if In(s, Asleep) == {} { SamePhases(s, s'); } else { OneMoved(s, s', w, Notified); }
    case NotifyAll => assert In(s', Asleep) == {} && In(s', Exited) == In(s, Exited);
    case Test(w) => OneMoved(s, s', w, s'.workers[w]);
    case WakeSpuriously(w) => OneMoved(s, s', w, Testing);
    case Finish(w) => OneMoved(s, s', w, Testing);
  }

  lemma SamePhases(s: State, s': State)
    requires s'.workers == s.workers
    ensures In(s', Asleep) == In(s, Asleep) && In(s', Exited) == In(s, Exited)
  {
  }

  /** A worker that is not Exited moves: what that does to the sleepers and to those that returned. */
  lemma OneMoved(s: State, s': State, w: Worker, to: Phase)
    requires w in s.workers && s'.workers == s.workers[w := to] && s.workers[w] != Exited
    ensures In(s', Asleep) == if to == Asleep then In(s, Asleep) + {w} else In(s, Asleep) - {w}
    ensures In(s', Exited) == if to == Exited then In(s, Exited) + {w} else In(s, Exited)
    ensures to != Exited ==> In(s', Exited) != s'.workers.Keys
    ensures s'.workers.Keys == s.workers.Keys
  {
    Moved(s, s', w, to, Asleep);
    Moved(s, s', w, to, Exited);
    assert w !in In(s, Exited);
  }

  lemma StartIsSafe(s: State, ws: set<Worker>)
    requires Start(s, ws)
    ensures Inv(s)
  {
    assert In(s, Asleep) == {} && In(s, Exited) == {};
  }

  /** Every reachable state of the pool keeps order, wake-ups and shutdown right. */
  lemma {:induction false} PoolIsSafe(states: seq<State>, events: seq<Event>, maxQueued: nat, ws: set<Worker>, i: nat)
    requires IsRun(states, events, maxQueued) && Start(states[0], ws) && i < |states|
    ensures Inv(states[i]) && states[i].workers.Keys == ws
  {
    hide ExactlyOnce, NoLostWakeup, ShutdownReachesAll;
    if i == 0 {
      StartIsSafe(states[0], ws);
    } else {
      PoolIsSafe(states, events, maxQueued, ws, i - 1);
      StepKeepsOrder(states[i - 1], events[i - 1], maxQueued);
      StepKeepsWakeups(states[i - 1], events[i - 1], maxQueued);
      StepKeepsShutdown(states[i - 1], events[i - 1], maxQueued);
    }
  }

  /** A bounded queue is never over its bound. */
  lemma {:induction false} QueueBounded(states: seq<State>, events: seq<Event>, maxQueued: nat, ws: set<Worker>, i: nat)
    requires IsRun(states, events, maxQueued) && Start(states[0], ws) && i < |states| && maxQueued > 0
    ensures |states[i].jobs| <= maxQueued
  {
    if i > 0 { QueueBounded(states, events, maxQueued, ws, i - 1); }
  }

  /** A queued job is never left with every worker asleep and no notification on its way. */
  lemma NeverStuck(states: seq<State>, events: seq<Event>, maxQueued: nat, ws: set<Worker>, i: nat)
    requires IsRun(states, events, maxQueued) && Start(states[0], ws) && i < |states|
    requires states[i].jobs != [] && In(states[i], Asleep) == ws
    ensures states[i].notifyOnes > 0
  {
    PoolIsSafe(states, events, maxQueued, ws, i);
    assert In(states[i], Notified) == {};
  }

  ghost predicate AllCompleted(s: State) {
    forall i {:trigger i in s.completed} :: 0 <= i < |s.accepted| ==> i in s.completed
  }

  /** Once every worker has been joined, all accepted jobs have completed exactly if none was accepted
      after the last worker returned; in particular if none was accepted after shutdown was set. */
  lemma JoinedMeansCompletedIff(states: seq<State>, events: seq<Event>, maxQueued: nat, ws: set<Worker>, i: nat)
    requires IsRun(states, events, maxQueued) && Start(states[0], ws) && i < |states|
    requires In(states[i], Exited) == ws
    ensures AllCompleted(states[i]) <==> |states[i].accepted| == states[i].acceptedAtExit
    ensures |states[i].accepted| == states[i].acceptedAtShutdown ==> AllCompleted(states[i])
  {
    PoolIsSafe(states, events, maxQueued, ws, i);
    var s := states[i];
    assert forall w :: w in s.workers ==> w in In(s, Exited);
    if s.taken < |s.accepted| {
      assert s.taken !in s.completed;
    }
  }

  /** A run goes on with any enabled event. */
  lemma Then(states: seq<State>, events: seq<Event>, maxQueued: nat, e: Event)
    returns (states': seq<State>, events': seq<Event>, last: State)
    requires IsRun(states, events, maxQueued) && Enabled(states[|events|], e)
    ensures IsRun(states', events', maxQueued) && states'[0] == states[0]
    ensures last == states'[|events'|] == Apply(states[|events|], e, maxQueued)
  {
    hide Enabled, Apply;
    last := Apply(states[|events|], e, maxQueued);
    states', events' := states + [last], events + [e];
  }

  /** With shutdown set and no job, the workers still testing return one after the other. */
  lemma {:induction false} LeaveAll(states: seq<State>, events: seq<Event>, maxQueued: nat, staying: set<Worker>)
    returns (states': seq<State>, events': seq<Event>)
    requires IsRun(states, events, maxQueued)
    requires var s := states[|events|];
             && s.shutdown && s.jobs == [] && staying <= s.workers.Keys
             && forall w :: w in s.workers ==> s.workers[w] == if w in staying then Testing else Exited
    ensures IsRun(states', events', maxQueued) && states'[0] == states[0]
    ensures var s, s' := states[|events|], states'[|events'|];
            && s'.workers.Keys == s.workers.Keys && (forall w :: w in s'.workers ==> s'.workers[w] == Exited)
            && s'.jobs == [] && s'.accepted == s.accepted && s'.completed == s.completed
    decreases |staying|
  {
    hide IsRun;
    states', events' := states, events;
    if staying != {} {
      var w :| w in staying;
      var last;
      states', events', last := Then(states, events, maxQueued, Test(w));
      states', events' := LeaveAll(states', events', maxQueued, staying - {w});
    }
  }

  /** The other case does happen, with any workers and any bound: once shutdown is set and all of them have
      returned, a job is still accepted, and it is never run. */
  lemma JobLostAfterLastExit(job: Job, ws: set<Worker>, maxQueued: nat)
    returns (states: seq<State>, events: seq<Event>)
    requires ws != {}
    ensures IsRun(states, events, maxQueued) && Start(states[0], ws)
    ensures var s := states[|events|]; In(s, Exited) == ws && s.jobs == [job] && !AllCompleted(s)
  {
    var start := State([], false, map w | w in ws :: Testing, 0, false, [], 0, {}, 0, 0);
    states, events := [start], [];
    var last;
    states, events, last := Then(states, events, maxQueued, SetShutdown);
    states, events := LeaveAll(states, events, maxQueued, ws);
    assert Accepts([], maxQueued);
    states, events, last := Then(states, events, maxQueued, Enqueue(job));
    assert 0 !in last.completed && last.accepted == [job];
  }
}
