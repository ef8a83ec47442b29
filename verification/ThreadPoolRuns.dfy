/** What holds of the thread pool over every run of its threads. */
module ThreadPoolRuns {
  import opened ThreadPool

  ghost predicate Inv(s: State) {
    && MutexHeldByItsOwner(s) && LocalFacts(s) && ExitedMeansDrained(s)
    && WorkIsConserved(s) && TasksAreKept(s) && EachAcceptedOnce(s)
  }

  lemma InvInit(threadCount: nat)
    ensures Inv(Init(threadCount))
  {
    NothingInHand(Init(threadCount).workers);
  }

  lemma {:induction false} NothingInHand(ws: seq<Worker>)
    requires forall i :: 0 <= i < |ws| ==> HandOf(ws[i]) == multiset{}
    ensures InHand(ws) == multiset{}
  {
    if ws != [] {
      NothingInHand(ws[1..]);
    }
  }

  lemma InvStep(s: State, a: Action)
    requires Inv(s)
    ensures Inv(Step(s, a))
  {
    hide Step, MutexHeldByItsOwner, LocalFacts, ExitedMeansDrained, WorkIsConserved, TasksAreKept, EachAcceptedOnce;
    MutexStep(s, a);
    LocalStep(s, a);
    ExitedStep(s, a);
    ConservationStep(s, a);
    TasksStep(s, a);
    OnceStep(s, a);
  }

  lemma {:induction false} InvFrom(s: State, run: seq<Action>)
    requires Inv(s)
    ensures Inv(From(s, run))
  {
    hide Inv, Step;
    if run != [] {
      InvFrom(s, run[..|run| - 1]);
      InvStep(From(s, run[..|run| - 1]), run[|run| - 1]);
    }
  }

  lemma InvAfter(threadCount: nat, run: seq<Action>)
    ensures Inv(After(threadCount, run))
  {
    InvInit(threadCount);
    InvFrom(Init(threadCount), run);
  }

  // -------------------------------------------------------- Work conservation

  /** Whenever a worker sleeps, every queued task is matched by a notify_one still
      to come or by a worker awake and about to look at the queue. */
  lemma NoTaskWaitsUnnoticed(threadCount: nat, run: seq<Action>)
    ensures var s := After(threadCount, run);
            (exists i :: 0 <= i < |s.workers| && s.workers[i].Blocked?) ==>
              |s.queue| <= PendingNotifies(s) + IdleWorkers(s)
  {
    hide Inv, From, IdleWorkers, PendingNotifies, MutexHeldByItsOwner, LocalFacts, ExitedMeansDrained,
         TasksAreKept, EachAcceptedOnce;
    InvAfter(threadCount, run);
    ConservedIn(After(threadCount, run));
  }

  lemma ConservedIn(s: State)
    requires Inv(s)
    ensures WorkIsConserved(s)
  {
  }

  lemma {:induction false} SumZero<T>(xs: seq<T>, f: T -> nat)
    requires forall i :: 0 <= i < |xs| ==> f(xs[i]) == 0
    ensures Sum(xs, f) == 0
  {
    if xs != [] {
      SumZero(xs[1..], f);
    }
  }

  /** No lost wakeup: when every worker sleeps and no notify_one is on its way the
      queue is empty. */
  lemma AllAsleepMeansNoTask(threadCount: nat, run: seq<Action>)
    requires var s := After(threadCount, run);
             && (forall i :: 0 <= i < |s.workers| ==> s.workers[i].Blocked?)
             && (forall j :: 0 <= j < |s.submitters| ==> !NotifyPending(s.submitters[j]))
    ensures After(threadCount, run).queue == []
  {
    hide Inv, From, Sum, WorkIsConserved;
    var s := After(threadCount, run);
    InvAfter(threadCount, run);
    ConservedIn(s);
    WorkersRemain(threadCount, run);
    SumZero(s.workers, IdleOne);
    SumZero(s.submitters, PendingOne);
    assert s.workers[0].Blocked?;
    ConservationUnfold(s);
  }

  lemma ConservationUnfold(s: State)
    requires WorkIsConserved(s)
    ensures NoneBlocked(s) || |s.queue| <= PendingNotifies(s) + IdleWorkers(s)
  {
  }

  /** The pool keeps the workers asked for, or two when fewer were. */
  lemma {:induction false} WorkersRemain(threadCount: nat, run: seq<Action>)
    ensures |After(threadCount, run).workers| == (if threadCount <= 2 then 2 else threadCount)
  {
    hide Step;
    if run != [] {
      WorkersRemain(threadCount, run[..|run| - 1]);
      SameWorkers(After(threadCount, run[..|run| - 1]), run[|run| - 1]);
    }
  }

  lemma SameWorkers(s: State, a: Action)
    ensures |Step(s, a).workers| == |s.workers|
  {
  }

  // ----------------------------------------------------- Order, exactly once

  /** Tasks are popped in the order in which they were pushed. */
  lemma PoppedInAcceptanceOrder(threadCount: nat, run: seq<Action>)
    ensures var s := After(threadCount, run); s.accepted == s.dequeued + s.queue
  {
    hide From, InHand;
    InvAfter(threadCount, run);
  }

  /** At every moment each accepted task is in exactly one place: in the queue, in
      the hands of one worker, or finished. */
  lemma EachTaskIsInOnePlace(threadCount: nat, run: seq<Action>, k: Task)
    requires k in After(threadCount, run).accepted
    ensures var s := After(threadCount, run);
            multiset(s.queue)[k] + InHand(s.workers)[k] + multiset(s.completed)[k] == 1
  {
    hide From, InHand, HandOf, MutexHeldByItsOwner, LocalFacts, ExitedMeansDrained, WorkIsConserved, After;
    var s := After(threadCount, run);
    InvAfter(threadCount, run);
    OccursOnce(s.accepted, k);
    assert multiset(s.accepted) == multiset(s.dequeued) + multiset(s.queue);
  }

  lemma {:induction false} OccursOnce(xs: seq<Task>, k: Task)
    requires forall i, j :: 0 <= i < j < |xs| ==> xs[i] != xs[j]
    ensures multiset(xs)[k] == if k in xs then 1 else 0
  {
    if xs != [] {
      OccursOnce(xs[1..], k);
      assert xs == [xs[0]] + xs[1..];
    }
  }

  // --------------------------------------------------------------- Shutdown

  predicate SomeExited(s: State) {
    exists i :: 0 <= i < |s.workers| && s.workers[i].Exited?
  }

  lemma ExitedStays(s: State, a: Action, i: nat)
    requires i < |s.workers| && s.workers[i].Exited?
    ensures i < |Step(s, a).workers| && Step(s, a).workers[i].Exited?
  {
  }

  lemma {:induction false} SomeExitedStays(s: State, run: seq<Action>)
    requires SomeExited(s)
    ensures SomeExited(From(s, run))
  {
    hide Step;
    if run != [] {
      var before, a := From(s, run[..|run| - 1]), run[|run| - 1];
      SomeExitedStays(s, run[..|run| - 1]);
      var i :| 0 <= i < |before.workers| && before.workers[i].Exited?;
      ExitedStays(before, a, i);
    }
  }

  /** Once some worker has exited, the queue is empty for ever, whatever the
      submitting threads still do. */
  lemma DrainedForEver(threadCount: nat, run: seq<Action>, more: seq<Action>)
    requires SomeExited(After(threadCount, run))
    ensures From(After(threadCount, run), more).queue == []
  {
    hide Step, Init, MutexHeldByItsOwner, LocalFacts, WorkIsConserved, TasksAreKept, EachAcceptedOnce;
    InvAfter(threadCount, run);
    InvFrom(After(threadCount, run), more);
    SomeExitedStays(After(threadCount, run), more);
  }

  /** The destructor has joined every worker. */
  predicate DestructorReturned(s: State) {
    s.destructor == Joining(|s.workers|)
  }

  /** When every join has returned, each accepted task has run exactly once and no
      other task has. */
  lemma AllAcceptedTasksAreDone(threadCount: nat, run: seq<Action>)
    requires DestructorReturned(After(threadCount, run))
    ensures var s := After(threadCount, run);
            && multiset(s.completed) == multiset(s.accepted)
            && forall k :: k in s.accepted ==> multiset(s.completed)[k] == 1
  {
    hide From, Init, MutexHeldByItsOwner, WorkIsConserved;
    var s := After(threadCount, run);
    WorkersRemain(threadCount, run);
    InvAfter(threadCount, run);
    assert s.workers[0].Exited?;
    NothingInHand(s.workers);
    assert s.accepted == s.dequeued;
    assert multiset{} + multiset(s.completed) == multiset(s.completed);
    forall k | k in s.accepted ensures multiset(s.completed)[k] == 1 {
      OccursOnce(s.accepted, k);
    }
  }

  // ---------------------------------------- When the destructor's wakeup is lost

  ghost predicate NobodyAboutToBlock(s: State) {
    forall i :: 0 <= i < |s.workers| ==> !s.workers[i].GoingToBlock?
  }

  /** No worker sleeps or is about to. */
  ghost predicate Alert(s: State) {
    NoneBlocked(s) && NobodyAboutToBlock(s)
  }

  lemma AlertStep(s: State, a: Action)
    requires Alert(s) && s.stop
    ensures Alert(Step(s, a)) && Step(s, a).stop
  {
  }

  lemma {:induction false} AlertStays(s: State, run: seq<Action>)
    requires Alert(s) && s.stop
    ensures Alert(From(s, run)) && From(s, run).stop
  {
    hide Step, Alert;
    if run != [] {
      AlertStays(s, run[..|run| - 1]);
      AlertStep(From(s, run[..|run| - 1]), run[|run| - 1]);
    }
  }

  /** stop_ is set outside the mutex, so notify_all can come between a worker's
      test and its sleep.  It reaches every worker for good exactly when none is
      in that gap. */
  lemma StopReachesEveryWorkerIff(threadCount: nat, run: seq<Action>)
    requires After(threadCount, run).destructor.StopSet?
    ensures var s := After(threadCount, run);
            (forall more: seq<Action> :: NoneBlocked(From(Step(s, DestructorMoves), more)))
            <==> NobodyAboutToBlock(s)
  {
    hide From, Init;
    var s := After(threadCount, run);
    var t := Step(s, DestructorMoves);
    InvAfter(threadCount, run);
    if NobodyAboutToBlock(s) {
      forall more: seq<Action> ensures NoneBlocked(From(t, more)) {
        assert Alert(t) && t.stop;
        AlertStays(t, more);
      }
    } else {
      var i: nat :| i < |s.workers| && s.workers[i].GoingToBlock?;
      assert t.workers[i].GoingToBlock?;
      OneMove(t, WorkerMoves(i));
      assert From(t, [WorkerMoves(i)]).workers[i].Blocked?;
    }
  }

  lemma OneMove(s: State, a: Action)
    ensures From(s, [a]) == Step(s, a)
  {
    assert [a][..0] == [];
  }

  // ------------------------------------------------ ... and when it is not lost

  function WorkerRank(w: Worker): nat {
    match w
    case Releasing(_) => 7
    case Running(_) => 6
    case Outside => 5
    case Woken => 5
    case Checking => 4
    case Passed => 3
    case Taking => 2
    case Exited => 0
    case GoingToBlock => 0
    case Blocked => 0
  }

  function SubmitterRank(b: Submitter): nat {
    match b
    case Arriving => 12
    case Entered => 11
    case Accepted => 10
    case Pushed => 2
    case Notifying => 1
    case Returned => 0
    case Rejected => 0
  }

  /** A bound on the steps that are left once no worker can fall asleep. */
  function StepsLeft(s: State): int {
    Sum(s.workers, WorkerRank) + Sum(s.submitters, SubmitterRank) + 6 * |s.queue|
    + (if s.destructor.Joining? then |s.workers| - s.destructor.joined else |s.workers| + 1)
  }

  lemma WorkerMoveCounts(s: State, i: nat)
    requires WorkerCanMove(s, i) && Alert(s) && s.stop
    ensures StepsLeft(WorkerStep(s, i)) < StepsLeft(s)
  {
    hide Sum;
    SumUpdate(s.workers, i, WorkerStep(s, i).workers[i], WorkerRank);
  }

  lemma SubmitterMoveCounts(s: State, j: nat, wake: nat)
    requires SubmitterCanMove(s, j, wake) && Alert(s)
    ensures StepsLeft(SubmitterStep(s, j, wake)) < StepsLeft(s)
  {
    hide Sum;
    SumUpdate(s.submitters, j, SubmitterStep(s, j, wake).submitters[j], SubmitterRank);
  }

  /** After notify_all has reached everybody, every step of a thread inside the
      pool brings the end nearer. */
  lemma EveryMoveCounts(s: State, a: Action)
    requires Inv(s) && Alert(s) && s.destructor.Joining? && Enabled(s, a) && a != CallSubmit
    ensures 0 <= StepsLeft(Step(s, a)) < StepsLeft(s)
  {
    hide Sum, WorkerStep, SubmitterStep, MutexHeldByItsOwner, ExitedMeansDrained, WorkIsConserved,
         TasksAreKept, EachAcceptedOnce;
    LocalStep(s, a);
    match a
    case WorkerMoves(i) => WorkerMoveCounts(s, i);
    case SubmitterMoves(j, wake) => SubmitterMoveCounts(s, j, wake);
    case DestructorMoves =>
  }

  /** A run in which every action is enabled. */
  ghost predicate Progresses(s: State, run: seq<Action>) {
    forall i :: 0 <= i < |run| ==> Enabled(From(s, run[..i]), run[i])
  }

  /** How many calls of SubmitTask begin in the run. */
  function NewCalls(run: seq<Action>): nat {
    if run == [] then 0
    else NewCalls(run[..|run| - 1]) + if run[|run| - 1] == CallSubmit then 1 else 0
  }

  lemma NewCallCounts(s: State)
    ensures StepsLeft(Step(s, CallSubmit)) == StepsLeft(s) + SubmitterRank(Arriving)
  {
    hide Sum;
    SumAppend(s.submitters, Arriving, SubmitterRank);
  }

  /** Every step but a new call brings the end nearer, and a new call, which can
      only be rejected, brings it no more than thirteen steps further. */
  lemma {:induction false} ProgressIsBounded(s: State, run: seq<Action>)
    requires Inv(s) && Alert(s) && s.destructor.Joining? && Progresses(s, run)
    ensures |run| + StepsLeft(From(s, run)) <= StepsLeft(s) + 13 * NewCalls(run)
    ensures From(s, run).destructor.Joining? && Inv(From(s, run)) && Alert(From(s, run))
  {
    hide StepsLeft, Inv, Alert, Enabled, Step;
    if run != [] {
      var n := |run| - 1;
      var before := From(s, run[..n]);
      assert forall i :: 0 <= i < n ==> run[..n][..i] == run[..i];
      ProgressIsBounded(s, run[..n]);
      if run[n] == CallSubmit {
        NewCallCounts(before);
      } else {
        EveryMoveCounts(before, run[n]);
      }
      InvStep(before, run[n]);
      StoppedWhileJoining(before);
      AlertStep(before, run[n]);
      JoiningStays(before, run[n]);
    }
  }

  lemma StoppedWhileJoining(s: State)
    requires Inv(s) && s.destructor.Joining?
    ensures s.stop
  {
  }

  lemma JoiningStays(s: State, a: Action)
    requires s.destructor.Joining?
    ensures Step(s, a).destructor.Joining?
  {
  }

  /** Somebody can always move until the destructor has joined every worker. */
  lemma SomebodyCanMove(s: State)
    requires Inv(s) && Alert(s) && s.destructor.Joining? && !DestructorReturned(s)
    ensures exists a :: a != CallSubmit && Enabled(s, a)
  {
    hide ExitedMeansDrained, WorkIsConserved, TasksAreKept, EachAcceptedOnce;
    match s.mutex
    case WorkerOwns(w) =>
      assert Enabled(s, WorkerMoves(w));
    case SubmitterOwns(j) =>
      assert Enabled(s, SubmitterMoves(j, 0));
    case Nobody =>
      var w := s.destructor.joined;
      if s.workers[w].Exited? {
        assert Enabled(s, DestructorMoves);
      } else {
        assert Enabled(s, WorkerMoves(w));
      }
  }

  /** If no worker is in the gap when notify_all is called, the destructor cannot
      be held up: from then on the steps are bounded by a number fixed then plus
      thirteen for each later call of SubmitTask, and when no thread inside the
      pool has a step left every worker has been joined and every accepted task
      has run exactly once. */
  lemma DestructorReturnsUnlessWakeupLost(threadCount: nat, run: seq<Action>, more: seq<Action>)
    requires After(threadCount, run).destructor.StopSet? && NobodyAboutToBlock(After(threadCount, run))
    requires Progresses(Step(After(threadCount, run), DestructorMoves), more)
    ensures var t := Step(After(threadCount, run), DestructorMoves);
            var end := From(t, more);
            && |more| <= StepsLeft(t) + 13 * NewCalls(more)
            && ((forall a :: a != CallSubmit ==> !Enabled(end, a)) ==>
                  DestructorReturned(end) && multiset(end.completed) == multiset(end.accepted))
  {
    hide From, Init, StepsLeft, MutexHeldByItsOwner, ExitedMeansDrained, WorkIsConserved,
         TasksAreKept, EachAcceptedOnce;
    var s := After(threadCount, run);
    var t := Step(s, DestructorMoves);
    InvAfter(threadCount, run);
    InvStep(s, DestructorMoves);
    ProgressIsBounded(t, more);
    var end := From(t, more);
    StepsLeftNotNegative(end);
    if forall a :: a != CallSubmit ==> !Enabled(end, a) {
      if !DestructorReturned(end) {
        SomebodyCanMove(end);
      }
      FromConcat(Init(threadCount), run, [DestructorMoves] + more);
      FromConcat(s, [DestructorMoves], more);
      OneMove(s, DestructorMoves);
      AllAcceptedTasksAreDone(threadCount, run + ([DestructorMoves] + more));
    }
  }

  lemma StepsLeftNotNegative(s: State)
    requires Inv(s)
    ensures StepsLeft(s) >= 0
  {
    hide Sum, MutexHeldByItsOwner, ExitedMeansDrained, WorkIsConserved, TasksAreKept, EachAcceptedOnce;
  }

  // ---------------------------------- The destructor returns: exactly when it can

  predicate NoSpuriousWakeup(run: seq<Action>) {
    forall i :: 0 <= i < |run| ==> !run[i].SpuriousWakeup?
  }

  /** The destructor still returns in some continuation without spurious wakeups. */
  ghost predicate CanReturn(s: State) {
    exists rest :: NoSpuriousWakeup(rest) && DestructorReturned(From(s, rest))
  }

  lemma FromCons(s: State, a: Action, run: seq<Action>)
    ensures From(s, [a] + run) == From(Step(s, a), run)
  {
    FromConcat(s, [a], run);
    OneMove(s, a);
  }

  lemma {:induction false} AlertCanReturn(s: State)
    requires Inv(s) && Alert(s) && s.destructor.Joining?
    ensures CanReturn(s)
    decreases StepsLeft(s)
  {
    hide StepsLeft, Inv, Step, From, MutexHeldByItsOwner;
    if DestructorReturned(s) {
      NoMove(s);
      assert NoSpuriousWakeup([]);
    } else {
      SomebodyCanMove(s);
      var a :| a != CallSubmit && Enabled(s, a);
      EveryMoveCounts(s, a);
      InvStep(s, a);
      StoppedWhileJoining(s);
      AlertStep(s, a);
      JoiningStays(s, a);
      AlertCanReturn(Step(s, a));
      var rest :| NoSpuriousWakeup(rest) && DestructorReturned(From(Step(s, a), rest));
      FromCons(s, a, rest);
      assert NoSpuriousWakeup([a] + rest);
    }
  }

  lemma NoMove(s: State)
    ensures From(s, []) == s
  {
  }

  /** Worker `i` sleeps through the shutdown, and nobody is left who could wake it. */
  ghost predicate AsleepForGood(s: State, i: nat) {
    && i < |s.workers| && s.workers[i].Blocked? && s.stop
    && s.destructor.Joining? && s.destructor.joined <= i
    && forall j :: 0 <= j < |s.submitters| ==>
         !s.submitters[j].Accepted? && !s.submitters[j].Pushed? && !s.submitters[j].Notifying?
  }

  lemma AsleepStep(s: State, i: nat, a: Action)
    requires AsleepForGood(s, i) && !a.SpuriousWakeup?
    ensures AsleepForGood(Step(s, a), i)
  {
  }

  lemma {:induction false} AsleepStays(s: State, i: nat, rest: seq<Action>)
    requires AsleepForGood(s, i) && NoSpuriousWakeup(rest)
    ensures AsleepForGood(From(s, rest), i) && !DestructorReturned(From(s, rest))
  {
    hide Step;
    if rest != [] {
      var n := |rest| - 1;
      AsleepStays(s, i, rest[..n]);
      AsleepStep(From(s, rest[..n]), i, rest[n]);
    }
  }

  /** Just after notify_all, with worker `i` in the gap: it holds the mutex, nobody
      sleeps, and the first `k` submitters have no notify_one left to call. */
  ghost predicate InTheGap(s: State, i: nat, k: nat) {
    && MutexHeldByItsOwner(s) && NoneBlocked(s) && s.stop
    && s.destructor == Joining(0) && k <= |s.submitters|
    && i < |s.workers| && s.workers[i].GoingToBlock?
    && forall j :: 0 <= j < k ==> !s.submitters[j].Notifying?
  }

  lemma GapStep(s: State, i: nat, k: nat)
    requires InTheGap(s, i, k) && k < |s.submitters|
    ensures InTheGap(Step(s, SubmitterMoves(k, 0)), i, k + 1)
    ensures |Step(s, SubmitterMoves(k, 0)).submitters| == |s.submitters|
  {
    MutexStep(s, SubmitterMoves(k, 0));
  }

  /** The pending notify_one calls come too early, and then the worker sleeps. */
  lemma {:induction false} GapBecomesSleep(s: State, i: nat, k: nat) returns (more: seq<Action>)
    requires InTheGap(s, i, k)
    ensures AsleepForGood(From(s, more), i)
    decreases |s.submitters| - k
  {
    hide Step, From, InTheGap, AsleepForGood;
    GapIsShort(s, i, k);
    if k < |s.submitters| {
      var a := SubmitterMoves(k, 0);
      GapStep(s, i, k);
      var rest := GapBecomesSleep(Step(s, a), i, k + 1);
      FromCons(s, a, rest);
      more := [a] + rest;
    } else {
      GapEnds(s, i);
      OneMove(s, WorkerMoves(i));
      more := [WorkerMoves(i)];
    }
  }

  lemma GapIsShort(s: State, i: nat, k: nat)
    requires InTheGap(s, i, k)
    ensures k <= |s.submitters|
  {
  }

  lemma GapEnds(s: State, i: nat)
    requires InTheGap(s, i, |s.submitters|)
    ensures AsleepForGood(Step(s, WorkerMoves(i)), i)
  {
  }

  /** stop_ is set outside the mutex, so notify_all can come between a worker's
      test and its sleep.  When it is called, the destructor is sure to be able to
      return, whatever happens next and without counting on a spurious wakeup,
      exactly when no worker stands in that gap. */
  lemma DestructorCanAlwaysReturnIff(threadCount: nat, run: seq<Action>)
    requires After(threadCount, run).destructor.StopSet?
    ensures var s := After(threadCount, run);
            (forall more: seq<Action> :: CanReturn(From(Step(s, DestructorMoves), more)))
            <==> NobodyAboutToBlock(s)
  {
    hide From, Init, Inv, CanReturn;
    var s := After(threadCount, run);
    var t := Step(s, DestructorMoves);
    InvAfter(threadCount, run);
    InvStep(s, DestructorMoves);
    StoppedWhileJoining(t);
    if NobodyAboutToBlock(s) {
      forall more: seq<Action> ensures CanReturn(From(t, more)) {
        InvFrom(t, more);
        AlertStays(t, more);
        JoiningLasts(t, more);
        AlertCanReturn(From(t, more));
      }
    } else {
      var i: nat :| i < |s.workers| && s.workers[i].GoingToBlock?;
      GapAfterNotify(s, i);
      var more := GapBecomesSleep(t, i, 0);
      SleepMeansNoReturn(From(t, more), i);
    }
  }

  lemma GapAfterNotify(s: State, i: nat)
    requires Inv(s) && s.destructor.StopSet? && i < |s.workers| && s.workers[i].GoingToBlock?
    ensures InTheGap(Step(s, DestructorMoves), i, 0)
  {
    hide ExitedMeansDrained, WorkIsConserved, TasksAreKept, EachAcceptedOnce;
    MutexStep(s, DestructorMoves);
  }

  lemma SleepMeansNoReturn(s: State, i: nat)
    requires AsleepForGood(s, i)
    ensures !CanReturn(s)
  {
    hide From;
    forall rest | NoSpuriousWakeup(rest) ensures !DestructorReturned(From(s, rest)) {
      AsleepStays(s, i, rest);
    }
  }

  lemma {:induction false} JoiningLasts(s: State, run: seq<Action>)
    requires s.destructor.Joining?
    ensures From(s, run).destructor.Joining?
  {
    hide Step;
    if run != [] {
      JoiningLasts(s, run[..|run| - 1]);
      JoiningStays(From(s, run[..|run| - 1]), run[|run| - 1]);
    }
  }

  // ------------------------------------------------------- The gap is reachable

  const HANG: seq<Action> := [
    WorkerMoves(0), WorkerMoves(0), DestructorMoves, DestructorMoves,
    WorkerMoves(0), WorkerMoves(1), WorkerMoves(1), WorkerMoves(1)]

  function HangState(k: nat): State {
    var s := Init(2);
    if k == 0 then s
    else if k == 1 then s.(workers := [Checking, Outside], mutex := WorkerOwns(0))
    else if k == 2 then s.(workers := [GoingToBlock, Outside], mutex := WorkerOwns(0))
    else
      var t := s.(stop := true, destructor := Joining(0), missed := {0});
      if k == 3 then s.(workers := [GoingToBlock, Outside], mutex := WorkerOwns(0), stop := true, destructor := StopSet)
      else if k == 4 then t.(workers := [GoingToBlock, Outside], mutex := WorkerOwns(0))
      else if k == 5 then t.(workers := [Blocked, Outside])
      else if k == 6 then t.(workers := [Blocked, Checking], mutex := WorkerOwns(1))
      else if k == 7 then t.(workers := [Blocked, Passed], mutex := WorkerOwns(1))
      else t.(workers := [Blocked, Exited])
  }

  lemma HangStep(k: nat)
    requires k < |HANG|
    ensures Step(HangState(k), HANG[k]) == HangState(k + 1)
  {
    if k == 3 {
      assert WakeAll([GoingToBlock, Outside]) == [GoingToBlock, Outside];
    }
  }

  lemma {:induction false} HangRun(k: nat)
    requires k <= |HANG|
    ensures After(2, HANG[..k]) == HangState(k)
  {
    hide Step, HangState, Init;
    if k > 0 {
      HangRun(k - 1);
      HangStep(k - 1);
      assert HANG[..k][..k - 1] == HANG[..k - 1];
    } else {
      HangStart();
    }
  }

  lemma HangStart()
    ensures HangState(0) == Init(2)
  {
  }

  /** The gap is real: a pool of two workers in which one goes to sleep just after
      notify_all, the other exits, and then nothing but a spurious wakeup or a
      new call can happen while the destructor waits. */
  lemma DestructorCanHang()
    ensures exists run ::
              var s := After(2, run);
              && s.destructor.Joining? && !DestructorReturned(s)
              && forall a :: Enabled(s, a) ==> a.CallSubmit? || a.SpuriousWakeup?
  {
    HangRun(|HANG|);
    var run := HANG[..|HANG|];
    var s := After(2, run);
    assert s.workers == [Blocked, Exited] && s.submitters == [];
    assert !DestructorReturned(s);
  }
}
