/** `src/core/thread_pool.h` and `thread_pool.cc` as interleaved steps of
    workers, submitting threads and the destructor. */
module ThreadPool {

  /** A task is named by the call of `SubmitTask` that brings it. */
  type Task = nat

  datatype Worker =
    | Outside             // about to lock the queue mutex
    | Checking            // holds the mutex, about to evaluate the wait predicate
    | GoingToBlock        // holds the mutex, the predicate was false
    | Blocked             // inside wait, mutex released
    | Woken               // notified or spuriously woken, about to relock
    | Passed              // holds the mutex, the predicate was true
    | Taking              // holds the mutex, about to move the front task out
    | Releasing(t: Task)  // holds the mutex, the task is popped
    | Running(t: Task)
    | Exited

  datatype Submitter =
    | Arriving   // about to lock the queue mutex
    | Entered    // holds the mutex, about to test stop_
    | Accepted   // holds the mutex, stop_ was false
    | Pushed     // holds the mutex, the task is queued
    | Notifying  // mutex released, about to call notify_one
    | Returned
    | Rejected   // the exception was thrown

  datatype Destructor = NotStarted | StopSet | Joining(joined: nat)

  datatype Owner = Nobody | WorkerOwns(w: nat) | SubmitterOwns(j: nat)

  /** The last four fields record history: tasks in the order they were pushed,
      popped and finished, and which workers were about to block when
      notify_all was called. */
  datatype State = State(
    workers: seq<Worker>, submitters: seq<Submitter>, destructor: Destructor,
    stop: bool, mutex: Owner, queue: seq<Task>,
    accepted: seq<Task>, dequeued: seq<Task>, completed: seq<Task>, missed: set<nat>)

  datatype Action =
    | WorkerMoves(i: nat)
    | SubmitterMoves(j: nat, wake: nat)
    | CallSubmit
    | SpuriousWakeup(i: nat)
    | DestructorMoves

  const MIN_THREAD_COUNT := 2

  function Init(threadCount: nat): State {
    var n := if threadCount < MIN_THREAD_COUNT then MIN_THREAD_COUNT else threadCount;
    State(seq(n, _ => Outside), [], NotStarted, false, Nobody, [], [], [], [], {})
  }

  // ------------------------------------------------------------------- Steps

  predicate WorkerCanMove(s: State, i: nat) {
    && i < |s.workers|
    && match s.workers[i]
       case Outside => s.mutex == Nobody
       case Woken => s.mutex == Nobody
       case Blocked => false
       case Exited => false
       case Taking => s.queue != []
       case _ => true
  }

  function WorkerStep(s: State, i: nat): State
    requires WorkerCanMove(s, i)
  {
    match s.workers[i]
    case Outside => s.(workers := s.workers[i := Checking], mutex := WorkerOwns(i))
    case Woken => s.(workers := s.workers[i := Checking], mutex := WorkerOwns(i))
    case Checking => s.(workers := s.workers[i := if s.stop || s.queue != [] then Passed else GoingToBlock])
    case GoingToBlock => s.(workers := s.workers[i := Blocked], mutex := Nobody)
    case Passed =>
      if s.stop && s.queue == [] then s.(workers := s.workers[i := Exited], mutex := Nobody)
      else s.(workers := s.workers[i := Taking])
    case Taking =>
      s.(workers := s.workers[i := Releasing(s.queue[0])], queue := s.queue[1..],
         dequeued := s.dequeued + [s.queue[0]])
    case Releasing(t) => s.(workers := s.workers[i := Running(t)], mutex := Nobody)
    case Running(t) => s.(workers := s.workers[i := Outside], completed := s.completed + [t])
    case Blocked => s
    case Exited => s
  }

  /** notify_one wakes some blocked worker when there is one. */
  predicate SubmitterCanMove(s: State, j: nat, wake: nat) {
    && j < |s.submitters|
    && match s.submitters[j]
       case Arriving => s.mutex == Nobody
       case Notifying => NoneBlocked(s) || (wake < |s.workers| && s.workers[wake].Blocked?)
       case Returned => false
       case Rejected => false
       case _ => true
  }

  predicate NoneBlocked(s: State) {
    forall i :: 0 <= i < |s.workers| ==> !s.workers[i].Blocked?
  }

  function SubmitterStep(s: State, j: nat, wake: nat): State
    requires SubmitterCanMove(s, j, wake)
  {
    match s.submitters[j]
    case Arriving => s.(submitters := s.submitters[j := Entered], mutex := SubmitterOwns(j))
    case Entered =>
      if s.stop then s.(submitters := s.submitters[j := Rejected], mutex := Nobody)
      else s.(submitters := s.submitters[j := Accepted])
    case Accepted =>
      s.(submitters := s.submitters[j := Pushed], queue := s.queue + [j], accepted := s.accepted + [j])
    case Pushed => s.(submitters := s.submitters[j := Notifying], mutex := Nobody)
    case Notifying =>
      s.(submitters := s.submitters[j := Returned],
         workers := if NoneBlocked(s) then s.workers else s.workers[wake := Woken])
    case Returned => s
    case Rejected => s
  }

  predicate DestructorCanMove(s: State) {
    match s.destructor
    case Joining(k) => k < |s.workers| && s.workers[k].Exited?
    case _ => true
  }

  function WakeAll(ws: seq<Worker>): seq<Worker> {
    seq(|ws|, i requires 0 <= i < |ws| => if ws[i].Blocked? then Woken else ws[i])
  }

  function DestructorStep(s: State): State
    requires DestructorCanMove(s)
  {
    match s.destructor
    case NotStarted => s.(destructor := StopSet, stop := true)
    case StopSet =>
      s.(destructor := Joining(0), workers := WakeAll(s.workers),
         missed := set i | 0 <= i < |s.workers| && s.workers[i].GoingToBlock?)
    case Joining(k) => s.(destructor := Joining(k + 1))
  }

  predicate Enabled(s: State, a: Action) {
    match a
    case WorkerMoves(i) => WorkerCanMove(s, i)
    case SubmitterMoves(j, wake) => SubmitterCanMove(s, j, wake)
    case CallSubmit => true
    case SpuriousWakeup(i) => i < |s.workers| && s.workers[i].Blocked?
    case DestructorMoves => DestructorCanMove(s)
  }

  /** A step that is not enabled leaves the state alone, so every sequence of
      actions is a run. */
  function Step(s: State, a: Action): State {
    if !Enabled(s, a) then s
    else match a
      case WorkerMoves(i) => WorkerStep(s, i)
      case SubmitterMoves(j, wake) => SubmitterStep(s, j, wake)
      case CallSubmit => s.(submitters := s.submitters + [Arriving])
      case SpuriousWakeup(i) => s.(workers := s.workers[i := Woken])
      case DestructorMoves => DestructorStep(s)
  }

  function From(s: State, run: seq<Action>): State {
    if run == [] then s else Step(From(s, run[..|run| - 1]), run[|run| - 1])
  }

  function After(threadCount: nat, run: seq<Action>): State {
    From(Init(threadCount), run)
  }

  lemma {:induction false} FromConcat(s: State, a: seq<Action>, b: seq<Action>)
    ensures From(s, a + b) == From(From(s, a), b)
  {
    if b == [] {
      assert a + b == a;
    } else {
      assert (a + b)[..|a + b| - 1] == a + b[..|b| - 1];
      FromConcat(s, a, b[..|b| - 1]);
    }
  }

  // -------------------------------------------------------------------- Sums

  function Sum<T>(xs: seq<T>, f: T -> nat): nat {
    if xs == [] then 0 else f(xs[0]) + Sum(xs[1..], f)
  }

  lemma {:induction false} SumUpdate<T>(xs: seq<T>, i: nat, x: T, f: T -> nat)
    requires i < |xs|
    ensures Sum(xs[i := x], f) + f(xs[i]) == Sum(xs, f) + f(x)
  {
    if i == 0 {
      assert xs[0 := x][1..] == xs[1..];
    } else {
      assert xs[i := x][1..] == xs[1..][i - 1 := x];
      SumUpdate(xs[1..], i - 1, x, f);
    }
  }

  lemma {:induction false} SumAppend<T>(xs: seq<T>, x: T, f: T -> nat)
    ensures Sum(xs + [x], f) == Sum(xs, f) + f(x)
  {
    if xs != [] {
      assert (xs + [x])[1..] == xs[1..] + [x];
      SumAppend(xs[1..], x, f);
    }
  }

  // ------------------------------------------------------- Mutual exclusion

  predicate WorkerInside(w: Worker) {
    w.Checking? || w.GoingToBlock? || w.Passed? || w.Taking? || w.Releasing?
  }

  predicate SubmitterInside(b: Submitter) {
    b.Entered? || b.Accepted? || b.Pushed?
  }

  ghost predicate MutexHeldByItsOwner(s: State) {
    && (forall i :: 0 <= i < |s.workers| ==> (WorkerInside(s.workers[i]) <==> s.mutex == WorkerOwns(i)))
    && (forall j :: 0 <= j < |s.submitters| ==> (SubmitterInside(s.submitters[j]) <==> s.mutex == SubmitterOwns(j)))
    && (s.mutex.WorkerOwns? ==> s.mutex.w < |s.workers|)
    && (s.mutex.SubmitterOwns? ==> s.mutex.j < |s.submitters|)
  }

  lemma MutexWorkerStep(s: State, i: nat)
    requires MutexHeldByItsOwner(s) && WorkerCanMove(s, i)
    ensures MutexHeldByItsOwner(WorkerStep(s, i))
  {
  }

  lemma MutexSubmitterStep(s: State, j: nat, wake: nat)
    requires MutexHeldByItsOwner(s) && SubmitterCanMove(s, j, wake)
    ensures MutexHeldByItsOwner(SubmitterStep(s, j, wake))
  {
  }

  lemma MutexStep(s: State, a: Action)
    requires MutexHeldByItsOwner(s)
    ensures MutexHeldByItsOwner(Step(s, a))
  {
    hide WorkerStep, SubmitterStep, WorkerCanMove, SubmitterCanMove;
    if Enabled(s, a) {
      match a
      case WorkerMoves(i) => MutexWorkerStep(s, i);
      case SubmitterMoves(j, wake) => MutexSubmitterStep(s, j, wake);
      case _ =>
    }
  }

  // --------------------------------------------------------- Local knowledge

  /** What a thread inside the critical section knows about the shared state, and
      what an exited worker guarantees. */
  ghost predicate LocalFacts(s: State) {
    && (forall i :: 0 <= i < |s.workers| ==>
          && (s.workers[i].GoingToBlock? ==> s.queue == [])
          && (s.workers[i].Passed? ==> s.stop || s.queue != [])
          && (s.workers[i].Taking? ==> s.queue != []))
    && (s.stop <==> !s.destructor.NotStarted?)
    && (s.destructor.Joining? ==>
          && s.destructor.joined <= |s.workers|
          && forall i :: 0 <= i < s.destructor.joined ==> s.workers[i].Exited?)
    && (s.destructor.Joining? ==>
          forall i :: 0 <= i < |s.workers| && (s.workers[i].Blocked? || s.workers[i].GoingToBlock?) ==> i in s.missed)
  }

  lemma LocalWorkerStep(s: State, i: nat)
    requires MutexHeldByItsOwner(s) && LocalFacts(s) && WorkerCanMove(s, i)
    ensures LocalFacts(WorkerStep(s, i))
  {
  }

  lemma LocalSubmitterStep(s: State, j: nat, wake: nat)
    requires MutexHeldByItsOwner(s) && LocalFacts(s) && SubmitterCanMove(s, j, wake)
    ensures LocalFacts(SubmitterStep(s, j, wake))
  {
  }

  lemma LocalStep(s: State, a: Action)
    requires MutexHeldByItsOwner(s) && LocalFacts(s)
    ensures LocalFacts(Step(s, a))
  {
    hide WorkerStep, SubmitterStep, WorkerCanMove, SubmitterCanMove, MutexHeldByItsOwner;
    if Enabled(s, a) {
      match a
      case WorkerMoves(i) => LocalWorkerStep(s, i);
      case SubmitterMoves(j, wake) => LocalSubmitterStep(s, j, wake);
      case _ =>
    }
  }

  /** Once a worker is gone the queue is empty, and no submitter stands between
      its test of stop_ and its push. */
  ghost predicate ExitedMeansDrained(s: State) {
    (exists i :: 0 <= i < |s.workers| && s.workers[i].Exited?) ==>
      && s.stop && s.queue == []
      && forall j :: 0 <= j < |s.submitters| ==> !s.submitters[j].Accepted?
  }

  lemma ExitedWorkerStep(s: State, i: nat)
    requires MutexHeldByItsOwner(s) && ExitedMeansDrained(s) && WorkerCanMove(s, i)
    ensures ExitedMeansDrained(WorkerStep(s, i))
  {
  }

  lemma ExitedSubmitterStep(s: State, j: nat, wake: nat)
    requires ExitedMeansDrained(s) && SubmitterCanMove(s, j, wake)
    ensures ExitedMeansDrained(SubmitterStep(s, j, wake))
  {
  }

  lemma ExitedStep(s: State, a: Action)
    requires MutexHeldByItsOwner(s) && ExitedMeansDrained(s)
    ensures ExitedMeansDrained(Step(s, a))
  {
    hide WorkerStep, SubmitterStep, WorkerCanMove, SubmitterCanMove, MutexHeldByItsOwner;
    if Enabled(s, a) {
      match a
      case WorkerMoves(i) => ExitedWorkerStep(s, i);
      case SubmitterMoves(j, wake) => ExitedSubmitterStep(s, j, wake);
      case _ =>
    }
  }

  // ------------------------------------------------------- Work conservation

  /** Workers that will look at the queue before they can sleep. */
  predicate AwakeIdle(w: Worker) {
    w.Outside? || w.Checking? || w.Woken? || w.Passed? || w.Taking?
  }

  /** A push whose notify_one has not been called yet. */
  predicate NotifyPending(b: Submitter) {
    b.Pushed? || b.Notifying?
  }

  function IdleOne(w: Worker): nat { if AwakeIdle(w) then 1 else 0 }

  function PendingOne(b: Submitter): nat { if NotifyPending(b) then 1 else 0 }

  function IdleWorkers(s: State): nat { Sum(s.workers, IdleOne) }

  function PendingNotifies(s: State): nat { Sum(s.submitters, PendingOne) }

  ghost predicate WorkIsConserved(s: State) {
    NoneBlocked(s) || |s.queue| <= PendingNotifies(s) + IdleWorkers(s)
  }

  lemma ConservationWorkerStep(s: State, i: nat)
    requires MutexHeldByItsOwner(s) && LocalFacts(s) && WorkIsConserved(s) && WorkerCanMove(s, i)
    ensures WorkIsConserved(WorkerStep(s, i))
  {
    hide Sum, LocalFacts, MutexHeldByItsOwner;
    var t := WorkerStep(s, i);
    SumUpdate(s.workers, i, t.workers[i], IdleOne);
    assert s.workers[i].GoingToBlock? ==> s.queue == [] by {
      BlockingSeesEmptyQueue(s, i);
    }
    assert NoneBlocked(s) && !t.workers[i].Blocked? ==> NoneBlocked(t);
  }

  lemma BlockingSeesEmptyQueue(s: State, i: nat)
    requires LocalFacts(s) && i < |s.workers|
    ensures s.workers[i].GoingToBlock? ==> s.queue == []
  {
  }

  lemma ConservationSubmitterStep(s: State, j: nat, wake: nat)
    requires WorkIsConserved(s) && SubmitterCanMove(s, j, wake)
    ensures WorkIsConserved(SubmitterStep(s, j, wake))
  {
    hide Sum;
    var t := SubmitterStep(s, j, wake);
    SumUpdate(s.submitters, j, t.submitters[j], PendingOne);
    if s.submitters[j].Notifying? && !NoneBlocked(s) {
      SumUpdate(s.workers, wake, Woken, IdleOne);
    }
  }

  lemma ConservationStep(s: State, a: Action)
    requires MutexHeldByItsOwner(s) && LocalFacts(s) && WorkIsConserved(s)
    ensures WorkIsConserved(Step(s, a))
  {
    hide WorkerStep, SubmitterStep, WorkerCanMove, SubmitterCanMove, Sum, LocalFacts, MutexHeldByItsOwner;
    if Enabled(s, a) {
      match a
      case WorkerMoves(i) =>
        ConservationWorkerStep(s, i);
        assert WorkIsConserved(Step(s, a));
      case SubmitterMoves(j, wake) =>
        ConservationSubmitterStep(s, j, wake);
        assert WorkIsConserved(Step(s, a));
      case CallSubmit =>
        SumAppend(s.submitters, Arriving, PendingOne);
        assert WorkIsConserved(Step(s, a));
      case SpuriousWakeup(i) =>
        SumUpdate(s.workers, i, Woken, IdleOne);
        assert WorkIsConserved(Step(s, a));
      case DestructorMoves =>
        ConservationDestructorStep(s);
        assert WorkIsConserved(Step(s, a));
    }
  }

  lemma ConservationDestructorStep(s: State)
    requires WorkIsConserved(s) && DestructorCanMove(s)
    ensures WorkIsConserved(DestructorStep(s))
  {
  }

  // ------------------------------------------------- Order and exactly once

  /** Tasks popped by some worker and not yet finished. */
  function InHand(ws: seq<Worker>): multiset<Task> {
    if ws == [] then multiset{} else HandOf(ws[0]) + InHand(ws[1..])
  }

  function HandOf(w: Worker): multiset<Task> {
    if w.Releasing? || w.Running? then multiset{w.t} else multiset{}
  }

  lemma Exchange(h: multiset<Task>, a: multiset<Task>, x: multiset<Task>, b: multiset<Task>, y: multiset<Task>)
    requires a + x == b + y
    ensures h + a + x == h + b + y
  {
    assert h + a + x == h + (a + x) && h + b + y == h + (b + y);
  }

  lemma {:induction false} InHandUpdate(ws: seq<Worker>, i: nat, w: Worker)
    requires i < |ws|
    ensures InHand(ws[i := w]) + HandOf(ws[i]) == InHand(ws) + HandOf(w)
  {
    hide HandOf;
    if i == 0 {
      assert ws[0 := w][1..] == ws[1..];
    } else {
      assert ws[i := w][1..] == ws[1..][i - 1 := w];
      InHandUpdate(ws[1..], i - 1, w);
      Exchange(HandOf(ws[0]), InHand(ws[1..][i - 1 := w]), HandOf(ws[i]), InHand(ws[1..]), HandOf(w));
    }
  }

  lemma {:induction false} InHandSame(ws: seq<Worker>, vs: seq<Worker>)
    requires |ws| == |vs| && forall i :: 0 <= i < |ws| ==> HandOf(ws[i]) == HandOf(vs[i])
    ensures InHand(ws) == InHand(vs)
  {
    if ws != [] {
      InHandSame(ws[1..], vs[1..]);
      assert HandOf(ws[0]) == HandOf(vs[0]);
    }
  }

  /** Accepted tasks leave the queue in the order they entered it, and every popped
      one is in the hands of exactly one worker or done. */
  ghost predicate TasksAreKept(s: State) {
    && InOrder(s.accepted, s.dequeued, s.queue)
    && PoppedAreInHandOrDone(s.dequeued, s.workers, s.completed)
  }

  ghost predicate InOrder(accepted: seq<Task>, dequeued: seq<Task>, queue: seq<Task>) {
    accepted == dequeued + queue
  }

  lemma PopKeepsOrder(accepted: seq<Task>, dequeued: seq<Task>, queue: seq<Task>)
    requires InOrder(accepted, dequeued, queue) && queue != []
    ensures InOrder(accepted, dequeued + [queue[0]], queue[1..])
  {
  }

  lemma PushKeepsOrder(accepted: seq<Task>, dequeued: seq<Task>, queue: seq<Task>, k: Task)
    requires InOrder(accepted, dequeued, queue)
    ensures InOrder(accepted + [k], dequeued, queue + [k])
  {
  }

  ghost predicate PoppedAreInHandOrDone(dequeued: seq<Task>, ws: seq<Worker>, completed: seq<Task>) {
    multiset(dequeued) == InHand(ws) + multiset(completed)
  }

  predicate Submitted(b: Submitter) {
    b.Pushed? || b.Notifying? || b.Returned?
  }

  /** Each accepted task came from one call, pushed once. */
  ghost predicate EachAcceptedOnce(s: State) {
    && (forall k :: 0 <= k < |s.accepted| ==> s.accepted[k] < |s.submitters| && Submitted(s.submitters[s.accepted[k]]))
    && (forall j, k :: 0 <= j < k < |s.accepted| ==> s.accepted[j] != s.accepted[k])
    && (forall j :: 0 <= j < |s.submitters| && Submitted(s.submitters[j]) ==> j in s.accepted)
  }

  lemma InHandKept(ws: seq<Worker>, i: nat, w: Worker)
    requires i < |ws| && HandOf(w) == HandOf(ws[i])
    ensures InHand(ws[i := w]) == InHand(ws)
  {
    hide InHand;
    InHandUpdate(ws, i, w);
    assert InHand(ws[i := w]) == (InHand(ws[i := w]) + HandOf(w)) - HandOf(w);
    assert InHand(ws) == (InHand(ws) + HandOf(w)) - HandOf(w);
  }

  lemma InHandTaken(ws: seq<Worker>, i: nat, w: Worker)
    requires i < |ws|
    ensures HandOf(ws[i]) == multiset{} ==> InHand(ws[i := w]) == InHand(ws) + HandOf(w)
    ensures HandOf(w) == multiset{} ==> InHand(ws[i := w]) + HandOf(ws[i]) == InHand(ws)
  {
    hide InHand;
    InHandUpdate(ws, i, w);
    assert InHand(ws[i := w]) + multiset{} == InHand(ws[i := w]);
    assert InHand(ws) + multiset{} == InHand(ws);
  }

  /** The moves that neither pop nor finish a task leave every hand as it is. */
  lemma OtherMovesKeepHands(s: State, i: nat)
    requires WorkerCanMove(s, i) && !s.workers[i].Taking? && !s.workers[i].Running?
    ensures var t := WorkerStep(s, i);
            && t.workers == s.workers[i := t.workers[i]] && HandOf(t.workers[i]) == HandOf(s.workers[i])
            && t.accepted == s.accepted && t.dequeued == s.dequeued
            && t.queue == s.queue && t.completed == s.completed
  {
  }

  lemma TasksWorkerStep(s: State, i: nat)
    requires TasksAreKept(s) && WorkerCanMove(s, i)
    ensures TasksAreKept(WorkerStep(s, i))
  {
    hide InHand, HandOf, PoppedAreInHandOrDone, InOrder;
    if s.workers[i].Taking? {
      Popped(s.dequeued, s.workers, s.completed, i, s.queue[0]);
      PopKeepsOrder(s.accepted, s.dequeued, s.queue);
    } else if s.workers[i].Running? {
      Finished(s.dequeued, s.workers, s.completed, i);
    } else {
      hide WorkerStep;
      OtherMovesKeepHands(s, i);
      KeptInHand(s.dequeued, s.workers, s.completed, i, WorkerStep(s, i).workers[i]);
    }
  }

  lemma Popped(dequeued: seq<Task>, ws: seq<Worker>, completed: seq<Task>, i: nat, k: Task)
    requires PoppedAreInHandOrDone(dequeued, ws, completed) && i < |ws| && ws[i].Taking?
    ensures PoppedAreInHandOrDone(dequeued + [k], ws[i := Releasing(k)], completed)
  {
    hide InHand;
    InHandTaken(ws, i, Releasing(k));
  }

  lemma Finished(dequeued: seq<Task>, ws: seq<Worker>, completed: seq<Task>, i: nat)
    requires PoppedAreInHandOrDone(dequeued, ws, completed) && i < |ws| && ws[i].Running?
    ensures PoppedAreInHandOrDone(dequeued, ws[i := Outside], completed + [ws[i].t])
  {
    hide InHand;
    InHandTaken(ws, i, Outside);
  }

  lemma KeptInHand(dequeued: seq<Task>, ws: seq<Worker>, completed: seq<Task>, i: nat, w: Worker)
    requires PoppedAreInHandOrDone(dequeued, ws, completed) && i < |ws| && HandOf(w) == HandOf(ws[i])
    ensures PoppedAreInHandOrDone(dequeued, ws[i := w], completed)
  {
    hide InHand;
    InHandKept(ws, i, w);
  }

  lemma WakingKeepsHands(dequeued: seq<Task>, ws: seq<Worker>, completed: seq<Task>)
    requires PoppedAreInHandOrDone(dequeued, ws, completed)
    ensures PoppedAreInHandOrDone(dequeued, WakeAll(ws), completed)
  {
    hide InHand;
    InHandSame(ws, WakeAll(ws));
  }

  lemma TasksSubmitterStep(s: State, j: nat, wake: nat)
    requires TasksAreKept(s) && SubmitterCanMove(s, j, wake)
    ensures TasksAreKept(SubmitterStep(s, j, wake))
  {
    hide InHand, NoneBlocked, InOrder, PoppedAreInHandOrDone;
    if s.submitters[j].Notifying? && !NoneBlocked(s) {
      KeptInHand(s.dequeued, s.workers, s.completed, wake, Woken);
    }
    if s.submitters[j].Accepted? {
      PushKeepsOrder(s.accepted, s.dequeued, s.queue, j);
    }
  }

  lemma TasksStep(s: State, a: Action)
    requires TasksAreKept(s)
    ensures TasksAreKept(Step(s, a))
  {
    hide WorkerStep, WorkerCanMove, SubmitterStep, SubmitterCanMove, InHand, PoppedAreInHandOrDone, InOrder, WakeAll;
    if Enabled(s, a) {
      match a
      case WorkerMoves(i) => TasksWorkerStep(s, i);
      case SubmitterMoves(j, wake) => TasksSubmitterStep(s, j, wake);
      case SpuriousWakeup(i) => KeptInHand(s.dequeued, s.workers, s.completed, i, Woken);
      case DestructorMoves => WakingKeepsHands(s.dequeued, s.workers, s.completed);
      case CallSubmit =>
    }
  }

  lemma OnceKept(s: State, t: State)
    requires EachAcceptedOnce(s) && t.accepted == s.accepted && |t.submitters| == |s.submitters|
    requires forall j :: 0 <= j < |s.submitters| ==> (Submitted(t.submitters[j]) <==> Submitted(s.submitters[j]))
    ensures EachAcceptedOnce(t)
  {
  }

  lemma OnceSubmitterStep(s: State, j: nat, wake: nat)
    requires EachAcceptedOnce(s) && SubmitterCanMove(s, j, wake)
    ensures EachAcceptedOnce(SubmitterStep(s, j, wake))
  {
    hide NoneBlocked;
    var t := SubmitterStep(s, j, wake);
    if s.submitters[j].Accepted? {
      assert forall k :: 0 <= k < |s.accepted| ==> s.accepted[k] != j;
      assert t.accepted[|s.accepted|] == j;
      assert forall k :: 0 <= k < |s.accepted| ==> t.accepted[k] == s.accepted[k];
    } else {
      hide EachAcceptedOnce;
      OnceKept(s, t);
    }
  }

  lemma OnceStep(s: State, a: Action)
    requires EachAcceptedOnce(s)
    ensures EachAcceptedOnce(Step(s, a))
  {
    hide SubmitterStep, SubmitterCanMove, WorkerCanMove;
    if a.SubmitterMoves? && Enabled(s, a) {
      OnceSubmitterStep(s, a.j, a.wake);
    }
  }
}
