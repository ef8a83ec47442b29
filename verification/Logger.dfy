/** `src/log/logger.cc`: producers push under the mutex, the writer thread swaps
    the queue out, writes it and clears it. */
module Logger {
  import opened Strings

  datatype Writer =
    | Waiting              // before the mutex, or inside wait
    | Locked               // holds the mutex, the wait predicate was true
    | Unlocking            // holds the mutex, the queues are swapped
    | Writing(done: nat)   // mutex released, so many messages handed to the stream
    | Testing(locked: bool)  // before `if (done_)`
    | Gone

  datatype Lock = Free | ByWriter

  /** `pushed` records every message in push order; `file` what was written. */
  datatype State = State(queue: seq<string>, writerQueue: seq<string>, writer: Writer, lock: Lock,
                         done: bool, pushed: seq<string>, file: seq<string>)

  datatype Action =
    | Push(msg: string)
    | WakeUp          // wait returns: its predicate (size, age or done) held
    | WriterMoves
    | SetDone         // the destructor

  const INIT := State([], [], Waiting, Free, false, [], [])

  predicate Enabled(s: State, a: Action) {
    match a
    case Push(_) => s.lock.Free?
    case WakeUp => s.writer.Waiting? && s.lock.Free?
    case WriterMoves => !s.writer.Waiting? && !s.writer.Gone?
    case SetDone => true
  }

  function WriterStep(s: State): State {
    match s.writer
    case Waiting => s
    case Locked =>
      if s.queue != [] then s.(writerQueue := s.queue, queue := s.writerQueue, writer := Unlocking)
      else s.(writer := Testing(true))
    case Unlocking => s.(writer := Writing(0), lock := Free)
    case Writing(k) =>
      if k < |s.writerQueue| then s.(file := s.file + [s.writerQueue[k]], writer := Writing(k + 1))
      else s.(writerQueue := [], writer := Testing(false))
    case Testing(locked) =>
      s.(writer := if s.done then Gone else Waiting, lock := if locked then Free else s.lock)
    case Gone => s
  }

  function Step(s: State, a: Action): State {
    if !Enabled(s, a) then s
    else match a
      case Push(msg) => s.(queue := s.queue + [msg], pushed := s.pushed + [msg])
      case WakeUp => s.(writer := Locked, lock := ByWriter)
      case WriterMoves => WriterStep(s)
      case SetDone => s.(done := true)
  }

  function After(run: seq<Action>): State {
    if run == [] then INIT else Step(After(run[..|run| - 1]), run[|run| - 1])
  }

  /** Messages the writer took and has not written yet. */
  function InFlight(s: State): seq<string> {
    if s.writer.Writing? && s.writer.done <= |s.writerQueue| then s.writerQueue[s.writer.done..]
    else s.writerQueue
  }

  ghost predicate Inv(s: State) {
    s.file + InFlight(s) + s.queue == s.pushed && Bookkeeping(s)
  }

  lemma PushKeeps(s: State, msg: string)
    requires Inv(s)
    ensures Inv(s.(queue := s.queue + [msg], pushed := s.pushed + [msg]))
  {
    assert s.file + InFlight(s) + (s.queue + [msg]) == s.file + InFlight(s) + s.queue + [msg];
  }

  /** The parts of the invariant that do not speak of the messages. */
  ghost predicate Bookkeeping(s: State) {
    && (s.writer.Writing? ==> s.writer.done <= |s.writerQueue|)
    && (s.writer.Waiting? || s.writer.Locked? || s.writer.Testing? || s.writer.Gone? ==> s.writerQueue == [])
    && (s.lock.ByWriter? <==> s.writer.Locked? || s.writer.Unlocking? || (s.writer.Testing? && s.writer.locked))
    && (s.writer.Gone? ==> s.done)
  }

  lemma WriterKeepsBooks(s: State)
    requires Bookkeeping(s)
    ensures Bookkeeping(WriterStep(s))
  {
  }

  /** The swap: the writer's empty queue for the full one. */
  lemma SwapConserves(file: seq<string>, queue: seq<string>)
    ensures file + [] + queue == file + queue + []
  {
  }

  /** Writing one message: the head of what is in flight moves to the file. */
  lemma WriteConserves(file: seq<string>, batch: seq<string>, k: nat, queue: seq<string>)
    requires k < |batch|
    ensures file + batch[k..] + queue == (file + [batch[k]]) + batch[k + 1..] + queue
  {
    assert batch[k..] == [batch[k]] + batch[k + 1..];
    assert file + ([batch[k]] + batch[k + 1..]) == (file + [batch[k]]) + batch[k + 1..];
  }

  lemma InFlightWhileWriting(s: State, k: nat)
    requires s.writer == Writing(k) && k <= |s.writerQueue|
    ensures InFlight(s) == s.writerQueue[k..]
  {
  }

  lemma WriterConserves(s: State)
    requires Inv(s)
    ensures var t := WriterStep(s); t.file + InFlight(t) + t.queue == t.pushed
  {
    match s.writer
    case Locked => SwapConserves(s.file, s.queue);
    case Unlocking => BatchStart(s.writerQueue);
    case Writing(k) =>
      InFlightWhileWriting(s, k);
      if k < |s.writerQueue| {
        hide InFlight;
        WriteConserves(s.file, s.writerQueue, k, s.queue);
        InFlightWhileWriting(WriterStep(s), k + 1);
      } else {
        BatchEnd(s.writerQueue);
      }
    case _ =>
  }

  lemma BatchStart(batch: seq<string>)
    ensures batch[0..] == batch
  {
  }

  lemma BatchEnd(batch: seq<string>)
    ensures batch[|batch|..] == []
  {
  }

  lemma WriterKeeps(s: State)
    requires Inv(s)
    ensures Inv(WriterStep(s))
  {
    hide WriterStep, InFlight;
    WriterKeepsBooks(s);
    WriterConserves(s);
  }

  lemma StepKeeps(s: State, a: Action)
    requires Inv(s)
    ensures Inv(Step(s, a))
  {
    hide WriterStep;
    if Enabled(s, a) {
      match a
      case Push(msg) => PushKeeps(s, msg);
      case WriterMoves => WriterKeeps(s);
      case _ =>
    }
  }

  /** Conservation: the file, then what the writer still has to write, then the
      shared queue spell the pushed messages in push order. */
  lemma {:induction false} NothingLostOrRepeated(run: seq<Action>)
    ensures var s := After(run); s.file + InFlight(s) + s.queue == s.pushed
    ensures Inv(After(run))
  {
    hide Step, InFlight;
    if run != [] {
      NothingLostOrRepeated(run[..|run| - 1]);
      StepKeeps(After(run[..|run| - 1]), run[|run| - 1]);
    } else {
      InitInv();
    }
    Conserved(After(run));
  }

  lemma InitInv()
    ensures Inv(INIT)
  {
  }

  lemma Conserved(s: State)
    requires Inv(s)
    ensures s.file + InFlight(s) + s.queue == s.pushed
  {
  }

  /** The messages of the calls that got the mutex, in that order. */
  function Pushes(run: seq<Action>): seq<string> {
    if run == [] then []
    else
      var n := |run| - 1;
      Pushes(run[..n]) + if run[n].Push? && After(run[..n]).lock.Free? then [run[n].msg] else []
  }

  /** Every call that gets the mutex is recorded, and nothing else is. */
  lemma {:induction false} PushedAreThePushes(run: seq<Action>)
    ensures After(run).pushed == Pushes(run)
  {
    hide WriterStep;
    if run != [] {
      PushedAreThePushes(run[..|run| - 1]);
      WritingPushesNothing(After(run[..|run| - 1]));
    }
  }

  lemma WritingPushesNothing(s: State)
    ensures WriterStep(s).pushed == s.pushed
  {
  }

  /** The messages whose push took effect after the writer last released the
      mutex. */
  function PushedSinceRelease(run: seq<Action>): seq<string> {
    if run == [] then []
    else
      var n := |run| - 1;
      var before, earlier := After(run[..n]), PushedSinceRelease(run[..n]);
      if before.lock.ByWriter? && Step(before, run[n]).lock.Free? then []
      else if run[n].Push? && Enabled(before, run[n]) then earlier + [run[n].msg]
      else earlier
  }

  /** While the mutex is free the queue holds just those; once the writer has
      looked at it, it is empty until the release. */
  ghost predicate QueueIsRecent(s: State, recent: seq<string>) {
    (s.lock.Free? ==> s.queue == recent)
    && (s.writer.Locked? ==> s.queue == recent)
    && (s.lock.ByWriter? && !s.writer.Locked? ==> s.queue == [])
  }

  lemma RecentStep(s: State, a: Action, recent: seq<string>)
    requires Inv(s) && QueueIsRecent(s, recent)
    ensures var t := Step(s, a);
            QueueIsRecent(t, if s.lock.ByWriter? && t.lock.Free? then []
                             else if a.Push? && Enabled(s, a) then recent + [a.msg]
                             else recent)
  {
    hide InFlight;
  }

  lemma {:induction false} QueueHoldsRecentPushes(run: seq<Action>)
    ensures QueueIsRecent(After(run), PushedSinceRelease(run))
  {
    hide Step, Inv, QueueIsRecent;
    if run == [] {
      NothingRecentAtStart();
    } else {
      var n := |run| - 1;
      NothingLostOrRepeated(run[..n]);
      QueueHoldsRecentPushes(run[..n]);
      RecentStep(After(run[..n]), run[n], PushedSinceRelease(run[..n]));
    }
  }

  lemma NothingRecentAtStart()
    ensures QueueIsRecent(INIT, [])
  {
  }

  /** When the writer thread has returned, the file is a prefix of the pushes; it
      is all of them exactly when no push took effect after the writer last
      released the mutex, and otherwise just those pushes are missing. */
  lemma FileAtExit(run: seq<Action>)
    requires After(run).writer.Gone?
    ensures var s := After(run);
            && s.file + PushedSinceRelease(run) == s.pushed
            && (s.file == s.pushed <==> PushedSinceRelease(run) == [])
  {
    hide After, PushedSinceRelease, Step;
    var s := After(run);
    NothingLostOrRepeated(run);
    QueueHoldsRecentPushes(run);
    assert s.file + [] + s.queue == s.file + s.queue;
  }

  // --------------------------------------------------- The writer keeps writing

  /** Steps of the writer thread alone. */
  ghost predicate OnlyWriter(run: seq<Action>) {
    forall i :: 0 <= i < |run| ==> run[i].WakeUp? || run[i].WriterMoves?
  }

  /** What the writer does next. */
  function NextMove(s: State): Action {
    if s.writer.Waiting? then WakeUp else WriterMoves
  }

  /** Steps the writer needs for messages pushed while it was busy. */
  function NextRound(s: State): nat {
    if s.queue == [] then 0 else 7 + |s.queue|
  }

  /** Steps until all that was pushed is written. */
  function StepsToWrite(s: State): int {
    match s.writer
    case Waiting => 4 + |s.queue|
    case Locked => 3 + |s.queue|
    case Unlocking => 1 + |s.writerQueue| + NextRound(s)
    case Writing(k) => |s.writerQueue| - k + NextRound(s)
    case Testing(_) => 6 + |s.queue|
    case Gone => 0
  }

  lemma NothingToWrite(s: State)
    requires Inv(s) && InFlight(s) == [] && s.queue == []
    ensures s.file == s.pushed
  {
    assert s.file + [] + [] == s.file;
  }

  lemma WritingComesNearer(s: State)
    requires Inv(s) && !s.done && s.file != s.pushed
    ensures Enabled(s, NextMove(s))
    ensures 0 <= StepsToWrite(Step(s, NextMove(s))) < StepsToWrite(s)
    ensures Step(s, NextMove(s)).pushed == s.pushed && !Step(s, NextMove(s)).done
  {
    if InFlight(s) == [] && s.queue == [] {
      NothingToWrite(s);
    }
  }

  lemma AfterOneMore(run: seq<Action>, a: Action, more: seq<Action>)
    ensures After(run + [a]) == Step(After(run), a)
    ensures (run + [a]) + more == run + ([a] + more)
  {
    hide Step;
    assert (run + [a])[..|run|] == run && (run + [a])[|run|] == a;
    assert (run + [a]) + more == run + ([a] + more);
  }

  /** While the destructor has not run, the writer alone can bring the file up to
      every message pushed so far. */
  lemma {:induction false} EverythingCanBeWritten(run: seq<Action>)
    requires !After(run).done
    ensures exists more :: OnlyWriter(more) && After(run + more).file == After(run).pushed
    decreases StepsToWrite(After(run))
  {
    hide Step, Inv, InFlight, StepsToWrite;
    var s := After(run);
    NothingLostOrRepeated(run);
    if s.file == s.pushed {
      assert run + [] == run;
    } else {
      var a := NextMove(s);
      WritingComesNearer(s);
      AfterOneMore(run, a, []);
      EverythingCanBeWritten(run + [a]);
      var more :| OnlyWriter(more) && After(run + [a] + more).file == After(run + [a]).pushed;
      AfterOneMore(run, a, more);
      assert OnlyWriter([a] + more);
    }
  }

  /** Steps until the writer thread returns once it is asked to. */
  function StepsToLeave(s: State): int {
    match s.writer
    case Waiting => 6 + |s.queue|
    case Locked => 5 + |s.queue|
    case Unlocking => 4 + |s.writerQueue|
    case Writing(k) => 3 + |s.writerQueue| - k
    case Testing(_) => 1
    case Gone => 0
  }

  lemma LeavingComesNearer(s: State, a: Action)
    requires Bookkeeping(s) && s.done && Enabled(s, a) && (a.WakeUp? || a.WriterMoves?)
    ensures 0 <= StepsToLeave(Step(s, a)) < StepsToLeave(s) && Step(s, a).done
  {
  }

  /** The writer thread leaves its loop only when the destructor asked for it. */
  lemma WriterLeavesOnlyWhenAsked(run: seq<Action>)
    requires After(run).writer.Gone?
    ensures After(run).done
  {
    hide After;
    NothingLostOrRepeated(run);
  }

  /** And then it does leave: its next steps are bounded, and it can take one until
      it has returned. */
  lemma {:induction false} WriterLeavesWhenAsked(run: seq<Action>, more: seq<Action>)
    requires After(run).done && OnlyWriter(more)
    requires forall i :: 0 <= i < |more| ==> Enabled(After(run + more[..i]), more[i])
    ensures |more| <= StepsToLeave(After(run))
    ensures After(run + more).writer.Gone? <==> !Enabled(After(run + more), NextMove(After(run + more)))
  {
    hide After, Step, StepsToLeave, Enabled;
    WriterIsBounded(run, more);
    NothingLostOrRepeated(run + more);
    ReadyUnlessGone(After(run + more));
  }

  lemma ReadyUnlessGone(s: State)
    requires Inv(s)
    ensures s.writer.Gone? <==> !Enabled(s, NextMove(s))
  {
  }

  lemma {:induction false} WriterIsBounded(run: seq<Action>, more: seq<Action>)
    requires After(run).done && OnlyWriter(more)
    requires forall i :: 0 <= i < |more| ==> Enabled(After(run + more[..i]), more[i])
    ensures After(run + more).done
    ensures |more| + StepsToLeave(After(run + more)) <= StepsToLeave(After(run))
    ensures 0 <= StepsToLeave(After(run + more))
    decreases |more|
  {
    hide After, Step, StepsToLeave, Enabled, Inv;
    if more == [] {
      assert run + more == run;
      NothingLostOrRepeated(run);
      LeavesInTime(After(run));
    } else {
      var n := |more| - 1;
      assert forall i :: 0 <= i < n ==> more[..n][..i] == more[..i];
      WriterIsBounded(run, more[..n]);
      NothingLostOrRepeated(run + more[..n]);
      BooksOf(After(run + more[..n]));
      LeavingComesNearer(After(run + more[..n]), more[n]);
      AfterOneMore(run + more[..n], more[n], []);
      assert run + more[..n] + [more[n]] == run + more;
    }
  }

  lemma BooksOf(s: State)
    requires Inv(s)
    ensures Bookkeeping(s)
  {
  }

  lemma LeavesInTime(s: State)
    requires Inv(s)
    ensures 0 <= StepsToLeave(s)
  {
  }

  const LATE_PUSH := [
    Push("a"), SetDone, WakeUp, WriterMoves, WriterMoves, WriterMoves, Push("b"), WriterMoves, WriterMoves]

  function LatePushState(k: nat): State {
    var s := INIT.(pushed := ["a"], queue := ["a"]);
    var t := s.(done := true);
    var u := t.(queue := [], writerQueue := ["a"]);
    if k == 0 then INIT
    else if k == 1 then s
    else if k == 2 then t
    else if k == 3 then t.(writer := Locked, lock := ByWriter)
    else if k == 4 then u.(writer := Unlocking, lock := ByWriter)
    else if k == 5 then u.(writer := Writing(0))
    else if k == 6 then u.(writer := Writing(1), file := ["a"])
    else
      var v := u.(file := ["a"], queue := ["b"], pushed := ["a", "b"]);
      if k == 7 then v.(writer := Writing(1))
      else if k == 8 then v.(writerQueue := [], writer := Testing(false))
      else v.(writerQueue := [], writer := Gone)
  }

  lemma LatePushStep(k: nat)
    requires k < |LATE_PUSH|
    ensures Step(LatePushState(k), LATE_PUSH[k]) == LatePushState(k + 1)
  {
  }

  lemma {:induction false} LatePushRun(k: nat)
    requires k <= |LATE_PUSH|
    ensures After(LATE_PUSH[..k]) == LatePushState(k)
  {
    hide Step, LatePushState;
    if k > 0 {
      LatePushRun(k - 1);
      LatePushStep(k - 1);
      assert LATE_PUSH[..k][..k - 1] == LATE_PUSH[..k - 1];
    } else {
      LatePushStart();
    }
  }

  lemma LatePushStart()
    ensures LatePushState(0) == INIT
  {
  }

  /** A message pushed between the unlock and the test of done_ stays queued. */
  lemma QueueMayBeLeftAtExit()
    ensures exists run :: After(run).writer.Gone? && After(run).queue != []
  {
    LatePushRun(|LATE_PUSH|);
    assert After(LATE_PUSH[..|LATE_PUSH|]).queue == ["b"];
  }
}
