/** What a pool promises its callers: while it runs it accepts every call and
    finishes every task, and once it is stopped it refuses. */
module ThreadPoolService {
  import opened ThreadPool
  import opened ThreadPoolRuns

  // ------------------------------------------------------- Accepted or refused

  ghost predicate RefusedMeansStopped(s: State) {
    forall j :: 0 <= j < |s.submitters| && s.submitters[j].Rejected? ==> s.stop
  }

  lemma RefusedStep(s: State, a: Action)
    requires RefusedMeansStopped(s)
    ensures RefusedMeansStopped(Step(s, a))
  {
    hide WorkerStep, WorkerCanMove, NoneBlocked;
    if a.WorkerMoves? && Enabled(s, a) {
      WorkersLeaveSubmitters(s, a.i);
    }
  }

  lemma WorkersLeaveSubmitters(s: State, i: nat)
    requires WorkerCanMove(s, i)
    ensures WorkerStep(s, i).submitters == s.submitters && WorkerStep(s, i).stop == s.stop
    ensures WorkerStep(s, i).destructor == s.destructor
  {
  }

  lemma {:induction false} RefusedAfter(threadCount: nat, run: seq<Action>)
    ensures RefusedMeansStopped(After(threadCount, run))
  {
    hide Step;
    if run != [] {
      hide RefusedMeansStopped;
      RefusedAfter(threadCount, run[..|run| - 1]);
      RefusedStep(After(threadCount, run[..|run| - 1]), run[|run| - 1]);
    }
  }

  /** How a call can have ended: it returned with its task accepted, or it was
      refused by a stopped pool and its task was not. */
  lemma CallOutcome(threadCount: nat, run: seq<Action>, j: nat)
    requires j < |After(threadCount, run).submitters|
    ensures var s := After(threadCount, run);
            && (s.submitters[j].Returned? ==> j in s.accepted)
            && (s.submitters[j].Rejected? ==> s.stop && j !in s.accepted)
  {
    hide From, Init, MutexHeldByItsOwner, LocalFacts, ExitedMeansDrained, WorkIsConserved, TasksAreKept;
    InvAfter(threadCount, run);
    RefusedAfter(threadCount, run);
  }

  /** A call that has not tested stop_ yet, or was refused. */
  predicate Late(s: State, j: nat) {
    s.stop && j < |s.submitters| && (s.submitters[j].Arriving? || s.submitters[j].Entered? || s.submitters[j].Rejected?)
  }

  lemma LateStep(s: State, a: Action, j: nat)
    requires Late(s, j)
    ensures Late(Step(s, a), j)
  {
    hide WorkerStep, WorkerCanMove, NoneBlocked;
    if a.WorkerMoves? && Enabled(s, a) {
      WorkersLeaveSubmitters(s, a.i);
    }
  }

  lemma {:induction false} LateStays(s: State, more: seq<Action>, j: nat)
    requires Late(s, j)
    ensures Late(From(s, more), j)
  {
    hide Step, Late;
    if more != [] {
      LateStays(s, more[..|more| - 1], j);
      LateStep(From(s, more[..|more| - 1]), more[|more| - 1], j);
    }
  }

  /** Once stop_ is set, a call that has not tested it yet is never accepted. */
  lemma LateCallIsRefused(threadCount: nat, run: seq<Action>, more: seq<Action>, j: nat)
    requires Late(After(threadCount, run), j)
    ensures j !in From(After(threadCount, run), more).accepted
  {
    hide From, Init, MutexHeldByItsOwner, LocalFacts, ExitedMeansDrained, WorkIsConserved, TasksAreKept;
    InvAfter(threadCount, run);
    InvFrom(After(threadCount, run), more);
    LateStays(After(threadCount, run), more, j);
  }

  // ------------------------------------------------------------ Work gets done

  /** A step of a worker or of a call of SubmitTask. */
  predicate IsWork(a: Action) {
    a.WorkerMoves? || a.SubmitterMoves?
  }

  function WorkerWork(w: Worker): nat {
    match w
    case Releasing(_) => 8
    case Running(_) => 7
    case Outside => 6
    case Woken => 6
    case Checking => 5
    case Passed => 4
    case Taking => 3
    case GoingToBlock => 1
    case Blocked => 0
    case Exited => 0
  }

  function SubmitterWork(b: Submitter): nat {
    match b
    case Arriving => 17
    case Entered => 16
    case Accepted => 15
    case Pushed => 8
    case Notifying => 7
    case Returned => 0
    case Rejected => 0
  }

  /** A bound on the steps until everybody sleeps. */
  function WorkLeft(s: State): nat {
    Sum(s.workers, WorkerWork) + Sum(s.submitters, SubmitterWork) + 6 * |s.queue|
  }

  lemma WorkerWorks(s: State, i: nat)
    requires WorkerCanMove(s, i)
    ensures WorkLeft(WorkerStep(s, i)) < WorkLeft(s)
  {
    hide Sum;
    SumUpdate(s.workers, i, WorkerStep(s, i).workers[i], WorkerWork);
  }

  lemma SubmitterWorks(s: State, j: nat, wake: nat)
    requires SubmitterCanMove(s, j, wake)
    ensures WorkLeft(SubmitterStep(s, j, wake)) < WorkLeft(s)
  {
    hide Sum, NoneBlocked;
    SumUpdate(s.submitters, j, SubmitterStep(s, j, wake).submitters[j], SubmitterWork);
    if s.submitters[j].Notifying? && !NoneBlocked(s) {
      SumUpdate(s.workers, wake, Woken, WorkerWork);
    }
  }

  lemma CallWorks(s: State)
    ensures WorkLeft(Step(s, CallSubmit)) == WorkLeft(s) + SubmitterWork(Arriving)
  {
    hide Sum;
    SumAppend(s.submitters, Arriving, SubmitterWork);
  }

  lemma WorkStep(s: State, a: Action)
    requires IsWork(a) && Enabled(s, a)
    ensures WorkLeft(Step(s, a)) < WorkLeft(s) && Step(s, a).destructor == s.destructor
    ensures |Step(s, a).submitters| == |s.submitters|
  {
    hide WorkLeft, WorkerStep, WorkerCanMove, NoneBlocked;
    match a
    case WorkerMoves(i) =>
      WorkerWorks(s, i);
      WorkersLeaveSubmitters(s, i);
    case SubmitterMoves(j, wake) => SubmitterWorks(s, j, wake);
  }

  /** Every action is enabled and is work or a new call. */
  ghost predicate Works(s: State, run: seq<Action>) {
    forall i :: 0 <= i < |run| ==> (IsWork(run[i]) || run[i] == CallSubmit) && Enabled(From(s, run[..i]), run[i])
  }

  lemma {:induction false} WorkIsBounded(s: State, run: seq<Action>)
    requires Works(s, run)
    ensures |run| + WorkLeft(From(s, run)) <= WorkLeft(s) + 18 * NewCalls(run)
    ensures From(s, run).destructor == s.destructor
  {
    hide WorkLeft, Enabled, Step;
    if run != [] {
      var n := |run| - 1;
      var before := From(s, run[..n]);
      assert forall i :: 0 <= i < n ==> run[..n][..i] == run[..i];
      WorkIsBounded(s, run[..n]);
      if run[n] == CallSubmit {
        CallWorks(before);
        CallKeepsDestructor(before);
      } else {
        WorkStep(before, run[n]);
      }
    }
  }

  lemma CallKeepsDestructor(s: State)
    ensures Step(s, CallSubmit).destructor == s.destructor
  {
  }

  /** No worker and no call of SubmitTask can take a step. */
  ghost predicate Idle(s: State) {
    forall a :: IsWork(a) ==> !Enabled(s, a)
  }

  lemma HolderCanMove(s: State)
    requires MutexHeldByItsOwner(s) && LocalFacts(s) && s.mutex != Nobody
    ensures !Idle(s)
  {
    match s.mutex
    case WorkerOwns(w) => assert Enabled(s, WorkerMoves(w));
    case SubmitterOwns(j) => assert Enabled(s, SubmitterMoves(j, 0));
  }

  lemma IdleWorkersSleep(s: State)
    requires Inv(s) && s.destructor.NotStarted? && Idle(s)
    ensures s.mutex == Nobody
    ensures forall i :: 0 <= i < |s.workers| ==> s.workers[i].Blocked?
  {
    hide WorkIsConserved, TasksAreKept, EachAcceptedOnce;
    if s.mutex != Nobody {
      HolderCanMove(s);
    }
    forall i | 0 <= i < |s.workers| ensures s.workers[i].Blocked? {
      assert !Enabled(s, WorkerMoves(i));
    }
  }

  lemma IdleCallsHaveReturned(s: State, j: nat)
    requires Inv(s) && RefusedMeansStopped(s) && s.destructor.NotStarted? && Idle(s) && j < |s.submitters|
    requires s.mutex == Nobody && |s.workers| > 0 && s.workers[0].Blocked?
    ensures s.submitters[j].Returned?
  {
    hide ExitedMeansDrained, WorkIsConserved, TasksAreKept, EachAcceptedOnce;
    assert !Enabled(s, SubmitterMoves(j, 0));
  }

  lemma IdleQueueIsEmpty(s: State)
    requires WorkIsConserved(s) && |s.workers| > 0
    requires forall i :: 0 <= i < |s.workers| ==> s.workers[i].Blocked?
    requires forall j :: 0 <= j < |s.submitters| ==> s.submitters[j].Returned?
    ensures s.queue == []
  {
    hide Sum;
    assert s.workers[0].Blocked?;
    SumZero(s.workers, IdleOne);
    SumZero(s.submitters, PendingOne);
  }

  lemma IdleMeansDone(s: State)
    requires Inv(s) && RefusedMeansStopped(s) && s.destructor.NotStarted? && Idle(s) && |s.workers| > 0
    ensures forall j :: 0 <= j < |s.submitters| ==> s.submitters[j].Returned? && multiset(s.completed)[j] == 1
    ensures multiset(s.completed) == multiset(s.accepted)
  {
    hide Idle, RefusedMeansStopped, MutexHeldByItsOwner, LocalFacts, ExitedMeansDrained, WorkIsConserved, InHand;
    IdleWorkersSleep(s);
    forall j | 0 <= j < |s.submitters| ensures s.submitters[j].Returned? {
      IdleCallsHaveReturned(s, j);
    }
    IdleQueueIsEmpty(s);
    NothingInHand(s.workers);
    assert s.accepted == s.dequeued;
    assert multiset{} + multiset(s.completed) == multiset(s.completed);
    forall j | 0 <= j < |s.submitters| ensures multiset(s.completed)[j] == 1 {
      OccursOnce(s.accepted, j);
    }
  }

  /** A pool that is not being destroyed serves everybody: however its threads are
      scheduled, and without spurious wakeups, at most a number of steps fixed now,
      plus eighteen for each further call, passes until none can take one; then every
      call has returned and its task has run exactly once. */
  lemma RunningPoolServesEveryCall(threadCount: nat, run: seq<Action>, more: seq<Action>)
    requires After(threadCount, run).destructor.NotStarted? && Works(After(threadCount, run), more)
    ensures var s := After(threadCount, run);
            var end := From(s, more);
            && |more| <= WorkLeft(s) + 18 * NewCalls(more)
            && (Idle(end) ==>
                  && multiset(end.completed) == multiset(end.accepted)
                  && forall j :: 0 <= j < |end.submitters| ==>
                       end.submitters[j].Returned? && multiset(end.completed)[j] == 1)
  {
    hide From, Init, Inv, WorkLeft, Idle, RefusedMeansStopped;
    var s := After(threadCount, run);
    WorkIsBounded(s, more);
    FromConcat(Init(threadCount), run, more);
    InvAfter(threadCount, run + more);
    RefusedAfter(threadCount, run + more);
    WorkersRemain(threadCount, run + more);
    if Idle(From(s, more)) {
      IdleMeansDone(From(s, more));
    }
  }

  /** Such a schedule exists from every state. */
  lemma {:induction false} CanWorkToTheEnd(s: State)
    ensures exists more :: Works(s, more) && NewCalls(more) == 0 && Idle(From(s, more))
    decreases WorkLeft(s)
  {
    hide WorkLeft, Enabled, Step;
    if Idle(s) {
      assert Works(s, []) && From(s, []) == s;
    } else {
      var a :| IsWork(a) && Enabled(s, a);
      WorkStep(s, a);
      CanWorkToTheEnd(Step(s, a));
      var more :| Works(Step(s, a), more) && NewCalls(more) == 0 && Idle(From(Step(s, a), more));
      WorksCons(s, a, more);
      FromCons(s, a, more);
    }
  }

  lemma {:induction false} WorksCons(s: State, a: Action, more: seq<Action>)
    requires IsWork(a) && Enabled(s, a) && Works(Step(s, a), more)
    ensures Works(s, [a] + more) && NewCalls([a] + more) == NewCalls(more)
  {
    hide Enabled, Step;
    var run := [a] + more;
    forall i | 0 <= i < |run| ensures (IsWork(run[i]) || run[i] == CallSubmit) && Enabled(From(s, run[..i]), run[i]) {
      if i == 0 {
        assert run[..0] == [];
      } else {
        assert run[..i] == [a] + more[..i - 1];
        FromCons(s, a, more[..i - 1]);
      }
    }
    CallsCons(a, more);
  }

  lemma {:induction false} CallsCons(a: Action, more: seq<Action>)
    requires a != CallSubmit
    ensures NewCalls([a] + more) == NewCalls(more)
  {
    if more == [] {
      assert [a] + more == [a] && [a][..0] == [];
    } else {
      assert ([a] + more)[..|more|] == [a] + more[..|more| - 1];
      CallsCons(a, more[..|more| - 1]);
    }
  }

  /** So a call under way and a task already accepted can always still be finished
      while the pool runs. */
  lemma EveryCallCanBeServed(threadCount: nat, run: seq<Action>, j: nat)
    requires After(threadCount, run).destructor.NotStarted? && j < |After(threadCount, run).submitters|
    ensures exists more :: Works(After(threadCount, run), more) && j in From(After(threadCount, run), more).completed
  {
    hide From, Init, Works, Idle;
    var s := After(threadCount, run);
    CanWorkToTheEnd(s);
    var more :| Works(s, more) && NewCalls(more) == 0 && Idle(From(s, more));
    RunningPoolServesEveryCall(threadCount, run, more);
    CallsRemain(s, more);
    assert multiset(From(s, more).completed)[j] == 1;
  }

  lemma {:induction false} CallsRemain(s: State, more: seq<Action>)
    ensures |From(s, more).submitters| >= |s.submitters|
  {
    hide Step;
    if more != [] {
      CallsRemain(s, more[..|more| - 1]);
      CallsRemainStep(From(s, more[..|more| - 1]), more[|more| - 1]);
    }
  }

  lemma CallsRemainStep(s: State, a: Action)
    ensures |Step(s, a).submitters| >= |s.submitters|
  {
  }
}
