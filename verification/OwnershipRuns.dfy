/** What the hand-over of connections achieves: every accepted connection comes to
    be served, every reported one gets its callback, and only the handler of a
    connection ends it. */
module OwnershipRuns {
  import opened Strings
  import opened Ownership

  function From(s: State, more: seq<Action>): State
    decreases more
  {
    if more == [] then s else From(Step(s, more[0]), more[1..])
  }

  lemma {:induction false} AfterMore(reactors: nat, run: seq<Action>, more: seq<Action>)
    ensures After(reactors, run + more) == From(After(reactors, run), more)
    decreases more
  {
    hide Step;
    if more == [] {
      assert run + more == run;
    } else {
      assert run + more == (run + [more[0]]) + more[1..];
      assert (run + [more[0]])[..|run|] == run;
      AfterMore(reactors, run + [more[0]], more[1..]);
    }
  }

  lemma {:induction false} FromConcat(s: State, a: seq<Action>, b: seq<Action>)
    ensures From(s, a + b) == From(From(s, a), b)
    decreases a
  {
    hide Step;
    if a == [] {
      assert a + b == b;
    } else {
      assert (a + b)[0] == a[0] && (a + b)[1..] == a[1..] + b;
      FromConcat(Step(s, a[0]), a[1..], b);
    }
  }

  lemma {:induction false} FromKeeps(s: State, more: seq<Action>)
    requires Inv(s)
    ensures Inv(From(s, more))
    decreases more
  {
    hide Inv, Step;
    if more != [] {
      StepKeeps(s, more[0]);
      FromKeeps(Step(s, more[0]), more[1..]);
    }
  }

  /** A step that is enabled happens: it follows live pointers only. */
  lemma Happens(s: State, a: Action)
    requires Inv(s) && Enabled(s, a)
    ensures Follows(s, a) <= s.conns.Keys
  {
    hide Inv;
    FollowsLive(s, a);
  }

  // ------------------------------------------------------ Who ends a connection

  /** The connection dies in this step. */
  predicate Ends(s: State, a: Action, p: Ptr) {
    p in s.conns && p !in Step(s, a).conns
  }

  /** The step is the deletion that the connection's own handler asked for. */
  predicate IsItsDeletion(s: State, a: Action, p: Ptr) {
    && a.Erase? && a.l < |s.loopers| && s.loopers[a.l].loop.Deleting? && s.loopers[a.l].loop.p == p
  }

  lemma SetLoopConns(s: State, l: nat, loop: Loop)
    requires l < |s.loopers|
    ensures SetLoop(s, l, loop).conns == s.conns
  {
  }

  lemma InsertDestroysNothing(s: State)
    requires Inv(s) && s.acceptor.Registering? && HasOwner(s, s.acceptor.p)
    ensures DoInsert(s, s.acceptor.p).conns == s.conns
  {
    hide Inv;
    InvUnfold(s);
    InsertFindsNoEntry(s, s.acceptor.p);
  }

  lemma EraseDestroysOne(s: State, l: nat)
    requires Inv(s) && l < |s.loopers| && s.loopers[l].loop.Deleting?
    ensures DoErase(s, l, s.loopers[l].loop).conns.Keys == s.conns.Keys - {s.loopers[l].loop.p}
  {
    hide Inv, DoErase;
    InvUnfold(s);
    EraseFindsItself(s, l);
    DeleterIsTheOwner(s, l);
    EraseIs(s, l);
  }

  lemma EndsIff(s: State, a: Action, p: Ptr)
    requires Inv(s) && p in s.conns
    ensures Ends(s, a, p) <==> IsItsDeletion(s, a, p)
  {
    hide Inv, DoErase, DoInsert, SetLoop;
    if Enabled(s, a) {
      Happens(s, a);
      match a
      case Insert =>
        if HasOwner(s, s.acceptor.p) {
          InsertDestroysNothing(s);
        }
      case Erase(l) => EraseDestroysOne(s, l);
      case Poll(l, ready) => SetLoopConns(s, l, Batch(ready));
      case StartNext(l) =>
        var ready := s.loopers[l].loop.ready;
        SetLoopConns(s, l, if ready == [] then Polling else Handling(ready[0], ready[1..]));
      case HandlerReturns(l) => SetLoopConns(s, l, Batch(s.loopers[l].loop.ready));
      case HandlerGivesUp(l) =>
        var h := s.loopers[l].loop;
        SetLoopConns(s, l, WantsDelete(h.p, s.conns[h.p].fd, h.ready));
      case LockToDelete(l) =>
        var h := s.loopers[l].loop;
        SetLoopConns(SetLock(s, OwnerOf(s, h.p), ByLooper(l)), l, Deleting(h.p, h.fd, OwnerOf(s, h.p), h.ready));
      case _ =>
    }
  }

  /** In every interleaving a connection is destroyed by the deletion that its own
      handler asked for, and by nothing else. */
  lemma OnlyItsHandlerEndsAConnection(reactors: nat, run: seq<Action>, a: Action, p: Ptr)
    requires p in After(reactors, run).conns
    ensures Ends(After(reactors, run), a, p) <==> IsItsDeletion(After(reactors, run), a, p)
  {
    hide After, Ends, IsItsDeletion;
    AfterIsSound(reactors, run);
    EndsIff(After(reactors, run), a, p);
  }

  // ------------------------------------------------------ What can still happen

  lemma FromCons(s: State, a: Action, more: seq<Action>)
    ensures From(s, [a] + more) == From(Step(s, a), more)
  {
    hide Step;
    assert ([a] + more)[1..] == more;
  }

  lemma FromOne(s: State, a: Action)
    ensures From(s, [a]) == Step(s, a)
  {
    hide Step;
    assert [a][1..] == [];
  }

  /** `p` uses `fd`, is owned by looper `l`, registered there and in its map. */
  predicate Served(s: State, l: nat, fd: Fd, p: Ptr) {
    && l < |s.loopers| && p in s.conns && s.conns[p] == Conn(fd, Some(l))
    && fd in s.loopers[l].registered && s.loopers[l].registered[fd] == p
    && fd in s.loopers[l].connections && s.loopers[l].connections[fd] == p
  }

  lemma NewDescriptorHasNoEntry(s: State, l: nat, fd: Fd)
    requires DescriptorsAreOwn(s) && TablesAreSound(s) && l < |s.loopers| && fd !in s.open
    ensures fd !in s.loopers[l].connections
  {
  }

  /** The accept callback is over and the client is served. */
  ghost predicate TakenOver(t: State, l: nat, fd: Fd, p: Ptr) {
    t.acceptor.Waiting? && Served(t, l, fd, p)
  }

  /** The listener holds a connection for looper `l`, whose lock is free. */
  ghost predicate ReadyToAdd(s: State, l: nat, fd: Fd, p: Ptr) {
    && l < |s.loopers| && s.loopers[l].lock.Free? && fd !in s.loopers[l].connections
    && s.acceptor == Assigned(p) && p in s.conns && s.conns[p] == Conn(fd, Some(l))
  }

  lemma AcceptAndAssign(s: State, fd: Fd, l: nat)
    requires s.acceptor.Waiting? && fd !in s.open && l < |s.loopers| && s.loopers[l].lock.Free?
    requires fd !in s.loopers[l].connections
    ensures ReadyToAdd(From(s, [Accept(fd)] + [Assign(l)]), l, fd, s.next)
  {
    var t1 := Step(s, Accept(fd));
    var t2 := Step(t1, Assign(l));
    assert ReadyToAdd(t2, l, fd, s.next);
    hide Step;
    FromOne(t1, Assign(l));
    FromCons(s, Accept(fd), [Assign(l)]);
  }

  lemma AddAndUnlock(s: State, l: nat, fd: Fd, p: Ptr)
    requires ReadyToAdd(s, l, fd, p)
    ensures TakenOver(From(s, [LockToAdd] + ([Register] + ([Insert] + [UnlockAfterAdd]))), l, fd, p)
  {
    var t3 := Step(s, LockToAdd);
    assert t3.acceptor == Adding(p) && t3.conns == s.conns && |t3.loopers| == |s.loopers|;
    assert t3.loopers[l] == s.loopers[l].(lock := ByAcceptor);
    var t4 := Step(t3, Register);
    assert t4.acceptor == Registering(p) && t4.conns == s.conns && |t4.loopers| == |s.loopers|;
    var t5 := Step(t4, Insert);
    assert t5.acceptor == Inserted(l) && Served(t5, l, fd, p);
    assert TakenOver(Step(t5, UnlockAfterAdd), l, fd, p);
    hide Step;
    FromOne(t5, UnlockAfterAdd);
    FromCons(t4, Insert, [UnlockAfterAdd]);
    FromCons(t3, Register, [Insert] + [UnlockAfterAdd]);
    FromCons(s, LockToAdd, [Register] + ([Insert] + [UnlockAfterAdd]));
  }

  /** Through the accept callback, when the chosen looper is not locked. */
  lemma CallbackServes(s: State, fd: Fd, l: nat)
    requires s.acceptor.Waiting? && fd !in s.open && l < |s.loopers| && s.loopers[l].lock.Free?
    requires fd !in s.loopers[l].connections
    ensures exists more :: TakenOver(From(s, more), l, fd, s.next)
  {
    hide Step, From, TakenOver, ReadyToAdd;
    var first, last := [Accept(fd)] + [Assign(l)], [LockToAdd] + ([Register] + ([Insert] + [UnlockAfterAdd]));
    AcceptAndAssign(s, fd, l);
    AddAndUnlock(From(s, first), l, fd, s.next);
    FromConcat(s, first, last);
  }

  /** The connection of the deletion is gone, the lock is free and the rest of the
      batch is next. */
  ghost predicate DeletionDone(s: State, t: State, l: nat, h: Loop)
    requires h.Deleting?
  {
    && l < |t.loopers| == |s.loopers| && t.loopers[l].lock.Free? && t.loopers[l].loop == Batch(h.ready)
    && t.acceptor == s.acceptor && t.next == s.next && t.conns == s.conns - {h.p} && t.open == s.open - {h.fd}
  }

  lemma EraseHappens(s: State, l: nat)
    requires Inv(s) && l < |s.loopers| && s.loopers[l].loop.Deleting?
    ensures Step(s, Erase(l)) == DoErase(s, l, s.loopers[l].loop)
  {
    hide Inv, DoErase;
    Happens(s, Erase(l));
  }

  /** A looper that deletes a connection comes to release its lock. */
  lemma DeleterReleases(s: State, l: nat)
    requires Inv(s) && l < |s.loopers| && s.loopers[l].loop.Deleting?
    ensures DeletionDone(s, Step(s, Erase(l)), l, s.loopers[l].loop)
  {
    hide Inv, DoErase, Step;
    EraseHappens(s, l);
    InvUnfold(s);
    EraseFindsItself(s, l);
    DeleterIsTheOwner(s, l);
    EraseIs(s, l);
    EraseLeavesBatch(s, l);
  }

  lemma EraseLeavesBatch(s: State, l: nat)
    requires l < |s.loopers| && s.loopers[l].loop.Deleting?
    ensures var t := DoErase(s, l, s.loopers[l].loop);
            l < |t.loopers| && t.loopers[l].loop == Batch(s.loopers[l].loop.ready)
  {
  }

  lemma LockedByLooper(s: State, l: nat)
    requires LoopFacts(s) && LocksAreLocal(s) && l < |s.loopers| && s.acceptor.Waiting? && !s.loopers[l].lock.Free?
    ensures s.loopers[l].loop.Deleting?
  {
  }

  lemma LocksOf(s: State)
    requires Inv(s)
    ensures LocksAreLocal(s)
  {
  }

  /** Whenever the listener is idle, a new client can be taken through to the map
      and the interest list of whichever looper is chosen. */
  lemma AcceptedClientCanBeServed(reactors: nat, run: seq<Action>, fd: Fd, l: nat)
    requires After(reactors, run).acceptor.Waiting? && fd !in After(reactors, run).open
    requires l < |After(reactors, run).loopers|
    ensures var s := After(reactors, run);
            && s.next !in s.conns
            && exists more :: TakenOver(After(reactors, run + more), l, fd, s.next)
  {
    hide After, Inv, Step, From, TakenOver, DeletionDone, LocksAreLocal, LoopFacts;
    var s := After(reactors, run);
    AfterIsSound(reactors, run);
    NextIsNew(s);
    var more: seq<Action>;
    if s.loopers[l].lock.Free? {
      FreeLooperServes(s, fd, l);
      more :| TakenOver(From(s, more), l, fd, s.next);
    } else {
      InvUnfold(s);
      LocksOf(s);
      LockedByLooper(s, l);
      DeleterReleases(s, l);
      DeletionFrees(s, Step(s, Erase(l)), l, s.loopers[l].loop);
      StepKeeps(s, Erase(l));
      FreeLooperServes(Step(s, Erase(l)), fd, l);
      var later :| TakenOver(From(Step(s, Erase(l)), later), l, fd, s.next);
      FromCons(s, Erase(l), later);
      more := [Erase(l)] + later;
    }
    AfterMore(reactors, run, more);
  }

  lemma NextIsNew(s: State)
    requires Inv(s)
    ensures s.next !in s.conns
  {
  }

  lemma DeletionFrees(s: State, t: State, l: nat, h: Loop)
    requires h.Deleting? && DeletionDone(s, t, l, h)
    ensures l < |t.loopers| && t.loopers[l].lock.Free? && t.acceptor == s.acceptor && t.next == s.next
    ensures t.open <= s.open
  {
  }

  lemma FreeLooperServes(s: State, fd: Fd, l: nat)
    requires Inv(s) && s.acceptor.Waiting? && fd !in s.open && l < |s.loopers| && s.loopers[l].lock.Free?
    ensures exists more :: TakenOver(From(s, more), l, fd, s.next)
  {
    hide Inv, Step, From, TakenOver;
    InvUnfold(s);
    NewDescriptorHasNoEntry(s, l, fd);
    CallbackServes(s, fd, l);
  }

  // -------------------------------------------------- A handler that gives up

  /** The accept callback comes to release the lock it holds. */
  lemma CallbackReleases(s: State, l: nat)
    requires Inv(s) && l < |s.loopers| && s.loopers[l].lock.ByAcceptor?
    ensures exists more :: ReleasedFor(s, From(s, more), l)
  {
    hide Inv, Step, From, ReleasedFor, LocksAreLocal;
    LocksOf(s);
    LockedByCallback(s, l);
    match s.acceptor
    case Inserted(k) =>
      ReleasedByUnlock(s, l);
      FromOne(s, UnlockAfterAdd);
    case Registering(p) => InsertReleases(s, l);
    case Adding(p) =>
      RegisterGoesOn(s, l);
      var t := Step(s, Register);
      StepKeeps(s, Register);
      InsertReleases(t, l);
      var more :| ReleasedFor(t, From(t, more), l);
      SameThenReleased(s, t, From(t, more), l);
      FromCons(s, Register, more);
  }

  lemma LockedByCallback(s: State, l: nat)
    requires LocksAreLocal(s) && l < |s.loopers| && s.loopers[l].lock.ByAcceptor?
    ensures s.acceptor.Adding? || s.acceptor.Registering? || s.acceptor == Inserted(l)
  {
  }

  lemma InsertReleases(s: State, l: nat)
    requires Inv(s) && l < |s.loopers| && s.acceptor.Registering? && s.loopers[l].lock.ByAcceptor?
    ensures exists more :: ReleasedFor(s, From(s, more), l)
  {
    hide Inv, Step, From, ReleasedFor;
    InsertGoesOn(s, l);
    var t := Step(s, Insert);
    ReleasedByUnlock(t, l);
    SameThenReleased(s, t, Step(t, UnlockAfterAdd), l);
    FromOne(t, UnlockAfterAdd);
    FromCons(s, Insert, [UnlockAfterAdd]);
  }

  lemma SameThenReleased(s: State, t: State, u: State, l: nat)
    requires SameFor(s, t, l) && ReleasedFor(t, u, l)
    ensures ReleasedFor(s, u, l)
  {
  }

  /** The lock of looper `l` is free, and the loop and its connections are where
      they were. */
  ghost predicate ReleasedFor(s: State, t: State, l: nat) {
    && l < |s.loopers| == |t.loopers| && t.loopers[l].lock.Free? && t.loopers[l].loop == s.loopers[l].loop
    && s.conns == t.conns && t.open == s.open
  }

  lemma ReleasedByUnlock(s: State, l: nat)
    requires s.acceptor == Inserted(l) && l < |s.loopers|
    ensures ReleasedFor(s, Step(s, UnlockAfterAdd), l)
  {
  }

  /** What a step inside the locked part leaves alone. */
  ghost predicate SameFor(s: State, t: State, l: nat) {
    && l < |s.loopers| == |t.loopers| && t.loopers[l].loop == s.loopers[l].loop
    && t.conns == s.conns && t.open == s.open && t.loopers[l].lock == s.loopers[l].lock
  }

  lemma InsertGoesOn(s: State, l: nat)
    requires Inv(s) && l < |s.loopers| && s.acceptor.Registering? && s.loopers[l].lock.ByAcceptor?
    ensures SameFor(s, Step(s, Insert), l) && Step(s, Insert).acceptor == Inserted(l)
  {
    hide Inv, TablesAreSound, EveryConnectionIsOwned, DescriptorsAreOwn, LoopFacts;
    InvUnfold(s);
    LocksOf(s);
    Happens(s, Insert);
    InsertFindsNoEntry(s, s.acceptor.p);
  }

  lemma RegisterGoesOn(s: State, l: nat)
    requires Inv(s) && l < |s.loopers| && s.acceptor.Adding? && s.loopers[l].lock.ByAcceptor?
    ensures SameFor(s, Step(s, Register), l) && Step(s, Register).acceptor == Registering(s.acceptor.p)
  {
    hide Inv, TablesAreSound, EveryConnectionIsOwned, DescriptorsAreOwn, LoopFacts;
    InvUnfold(s);
    LocksOf(s);
    Happens(s, Register);
  }

  lemma ByLooperDeletes(s: State, l: nat)
    requires LoopFacts(s) && LocksAreLocal(s) && l < |s.loopers| && !s.loopers[l].loop.Deleting?
    ensures !s.loopers[l].lock.ByLooper?
  {
  }

  /** Reactor `l` is in the given place of its loop, and no connection has changed. */
  ghost predicate LoopIsAt(s: State, t: State, l: nat, loop: Loop) {
    l < |t.loopers| == |s.loopers| && t.loopers[l].loop == loop && t.conns == s.conns && t.open == s.open
  }

  lemma DeletionStarts(s: State, l: nat)
    requires Inv(s) && l < |s.loopers| && s.loopers[l].loop.WantsDelete? && s.loopers[l].lock.Free?
    ensures var h := s.loopers[l].loop; LoopIsAt(s, Step(s, LockToDelete(l)), l, Deleting(h.p, h.fd, l, h.ready))
  {
    hide Inv, TablesAreSound, EveryConnectionIsOwned, DescriptorsAreOwn, AcceptorFacts, LoopIsSound;
    InvUnfold(s);
    DeleterIsTheOwner(s, l);
    hide LoopFacts;
    Happens(s, LockToDelete(l));
  }

  lemma GivingUpStarts(s: State, l: nat)
    requires Inv(s) && l < |s.loopers| && s.loopers[l].loop.Handling?
    ensures var h := s.loopers[l].loop;
            h.p in s.conns && LoopIsAt(s, Step(s, HandlerGivesUp(l)), l, WantsDelete(h.p, s.conns[h.p].fd, h.ready))
  {
    hide Inv;
    Happens(s, HandlerGivesUp(l));
  }

  /** From a deletion that waits for its lock to one that is done. */
  lemma DeletionCanFinish(s: State, l: nat)
    requires Inv(s) && l < |s.loopers| && s.loopers[l].loop.WantsDelete?
    ensures var h := s.loopers[l].loop; exists more :: Closed(s, From(s, more), l, h.p, h.fd, h.ready)
  {
    hide Inv, Step, From, LocksAreLocal, LoopFacts;
    var h := s.loopers[l].loop;
    InvUnfold(s);
    LocksOf(s);
    ByLooperDeletes(s, l);
    if s.loopers[l].lock.Free? {
      FreeDeletionFinishes(s, l);
    } else {
      CallbackReleases(s, l);
      var free :| ReleasedFor(s, From(s, free), l);
      var t := From(s, free);
      FromKeeps(s, free);
      FreeDeletionFinishes(t, l);
      var more :| Closed(t, From(t, more), l, h.p, h.fd, h.ready);
      FromConcat(s, free, more);
      assert Closed(s, From(s, free + more), l, h.p, h.fd, h.ready);
    }
  }

  lemma FreeDeletionFinishes(s: State, l: nat)
    requires Inv(s) && l < |s.loopers| && s.loopers[l].loop.WantsDelete? && s.loopers[l].lock.Free?
    ensures var h := s.loopers[l].loop; exists more :: Closed(s, From(s, more), l, h.p, h.fd, h.ready)
  {
    hide Inv, Step, From;
    var h := s.loopers[l].loop;
    DeletionStarts(s, l);
    var u := Step(s, LockToDelete(l));
    StepKeeps(s, LockToDelete(l));
    DeleterReleases(u, l);
    FromOne(u, Erase(l));
    FromCons(s, LockToDelete(l), [Erase(l)]);
    assert Closed(s, From(s, [LockToDelete(l)] + [Erase(l)]), l, h.p, h.fd, h.ready);
  }

  /** `p` is gone, its descriptor is closed, the others remain, and the reactor goes
      on with the rest of its batch. */
  ghost predicate Closed(s: State, t: State, l: nat, p: Ptr, fd: Fd, ready: seq<Ptr>) {
    && t.conns == s.conns - {p} && t.open == s.open - {fd}
    && l < |t.loopers| && t.loopers[l].loop == Batch(ready)
  }

  /** A handler that gives up can always bring its deletion to an end, whoever holds
      the lock it needs. */
  lemma HandlerCanCloseItsConnection(reactors: nat, run: seq<Action>, l: nat)
    requires l < |After(reactors, run).loopers| && After(reactors, run).loopers[l].loop.Handling?
    ensures var s := After(reactors, run);
            var h := s.loopers[l].loop;
            && h.p in s.conns
            && exists more :: Closed(s, After(reactors, run + more), l, h.p, s.conns[h.p].fd, h.ready)
  {
    hide After, Inv, Step;
    var s := After(reactors, run);
    var h := s.loopers[l].loop;
    AfterIsSound(reactors, run);
    GivingUpStarts(s, l);
    var t := Step(s, HandlerGivesUp(l));
    StepKeeps(s, HandlerGivesUp(l));
    DeletionCanFinish(t, l);
    var more :| Closed(t, From(t, more), l, h.p, s.conns[h.p].fd, h.ready);
    FromCons(s, HandlerGivesUp(l), more);
    AfterMore(reactors, run, [HandlerGivesUp(l)] + more);
    assert Closed(s, After(reactors, run + ([HandlerGivesUp(l)] + more)), l, h.p, s.conns[h.p].fd, h.ready);
  }

  // -------------------------------------------------- Every report is handled

  /** What a step makes of the reports of reactor `l`: those epoll gave it. */
  function ReportedBy(s: State, a: Action, l: nat): seq<Ptr> {
    if a.Poll? && a.l == l && Enabled(s, a) then a.ready else []
  }

  /** And of the callbacks it starts. */
  function StartedBy(s: State, a: Action, l: nat): seq<Ptr> {
    if a.StartNext? && a.l == l && Enabled(s, a) && s.loopers[l].loop.ready != [] then [s.loopers[l].loop.ready[0]]
    else []
  }

  function Reports(reactors: nat, run: seq<Action>, l: nat): seq<Ptr> {
    if run == [] then []
    else
      var n := |run| - 1;
      Reports(reactors, run[..n], l) + ReportedBy(After(reactors, run[..n]), run[n], l)
  }

  function Starts(reactors: nat, run: seq<Action>, l: nat): seq<Ptr> {
    if run == [] then []
    else
      var n := |run| - 1;
      Starts(reactors, run[..n], l) + StartedBy(After(reactors, run[..n]), run[n], l)
  }

  /** Reported connections whose callback has not started. */
  function StillReady(loop: Loop): seq<Ptr> {
    match loop
    case Polling => []
    case Batch(ready) => ready
    case Handling(_, ready) => ready
    case WantsDelete(_, _, ready) => ready
    case Deleting(_, _, _, ready) => ready
  }

  /** What the step makes of the reactor's place in its loop. */
  function LoopAfter(s: State, a: Action, l: nat): Loop
    requires l < |s.loopers| && Enabled(s, a) && Follows(s, a) <= s.conns.Keys
  {
    var h := s.loopers[l].loop;
    match a
    case Poll(k, ready) => if k == l then Batch(ready) else h
    case StartNext(k) => if k != l then h else if h.ready == [] then Polling else Handling(h.ready[0], h.ready[1..])
    case HandlerReturns(k) => if k == l then Batch(h.ready) else h
    case HandlerGivesUp(k) => if k == l then WantsDelete(h.p, s.conns[h.p].fd, h.ready) else h
    case LockToDelete(k) => if k == l then Deleting(h.p, h.fd, OwnerOf(s, h.p), h.ready) else h
    case Erase(k) => if k == l then Batch(h.ready) else h
    case _ => h
  }

  lemma LoopIs(s: State, t: State, l: nat, k: nat, loop: Loop)
    requires k < |s.loopers| && t == SetLoop(s, k, loop)
    ensures |t.loopers| == |s.loopers|
    ensures l < |s.loopers| ==> t.loopers[l].loop == if l == k then loop else s.loopers[l].loop
  {
  }

  lemma SetLockKeepsLoops(s: State, k: nat, lock: Lock, l: nat)
    ensures |SetLock(s, k, lock).loopers| == |s.loopers|
    ensures l < |s.loopers| ==> SetLock(s, k, lock).loopers[l].loop == s.loopers[l].loop
  {
  }

  lemma DestroyKeepsLoops(s: State, p: Ptr, l: nat)
    ensures |Destroy(s, p).loopers| == |s.loopers|
    ensures l < |s.loopers| ==> Destroy(s, p).loopers[l].loop == s.loopers[l].loop
  {
  }

  lemma EraseLoop(s: State, k: nat, l: nat)
    requires k < |s.loopers| && s.loopers[k].loop.Deleting? && l < |s.loopers|
    ensures var h := s.loopers[k].loop;
            var t := DoErase(s, k, h);
            && |t.loopers| == |s.loopers|
            && t.loopers[l].loop == if k == l then Batch(h.ready) else s.loopers[l].loop
  {
    hide SetLock, Destroy, SetLoop;
    var h := s.loopers[k].loop;
    var t := SetLoop(s, k, Batch(h.ready));
    LoopIs(s, t, l, k, Batch(h.ready));
    if h.at < |s.loopers| && h.fd in s.loopers[h.at].connections {
      var u := t.(loopers := t.loopers[h.at := t.loopers[h.at].(connections := t.loopers[h.at].connections - {h.fd})]);
      DestroyKeepsLoops(u, s.loopers[h.at].connections[h.fd], l);
      SetLockKeepsLoops(Destroy(u, s.loopers[h.at].connections[h.fd]), h.at, Free, l);
    } else {
      SetLockKeepsLoops(t, h.at, Free, l);
    }
  }

  lemma CallbackKeepsLoops(s: State, p: Ptr, l: nat)
    requires HasOwner(s, p) && l < |s.loopers|
    ensures |DoLockToAdd(s, p).loopers| == |DoRegister(s, p).loopers| == |DoInsert(s, p).loopers| == |s.loopers|
    ensures DoLockToAdd(s, p).loopers[l].loop == s.loopers[l].loop
    ensures DoRegister(s, p).loopers[l].loop == s.loopers[l].loop
    ensures DoInsert(s, p).loopers[l].loop == s.loopers[l].loop
  {
    hide Destroy;
    DestroyKeepsLoops(s, p, l);
  }

  lemma UnlockKeepsLoops(s: State, k: nat, l: nat)
    requires l < |s.loopers|
    ensures |DoUnlock(s, k).loopers| == |s.loopers| && DoUnlock(s, k).loopers[l].loop == s.loopers[l].loop
  {
  }

  lemma LoopStep(s: State, a: Action, l: nat)
    requires l < |s.loopers| && Enabled(s, a) && Follows(s, a) <= s.conns.Keys
    ensures |Step(s, a).loopers| == |s.loopers|
    ensures Step(s, a).loopers[l].loop == LoopAfter(s, a, l)
  {
    hide SetLoop, SetLock, DoErase, DoLockToAdd, DoRegister, DoInsert, DoUnlock;
    match a
    case Accept(fd) =>
    case Assign(k) =>
    case LockToAdd => CallbackKeepsLoops(s, s.acceptor.p, l);
    case Register =>
      if HasOwner(s, s.acceptor.p) {
        CallbackKeepsLoops(s, s.acceptor.p, l);
      }
    case Insert =>
      if HasOwner(s, s.acceptor.p) {
        CallbackKeepsLoops(s, s.acceptor.p, l);
      }
    case UnlockAfterAdd => UnlockKeepsLoops(s, s.acceptor.l, l);
    case Poll(k, ready) => LoopIs(s, Step(s, a), l, k, Batch(ready));
    case StartNext(k) =>
      var ready := s.loopers[k].loop.ready;
      LoopIs(s, Step(s, a), l, k, if ready == [] then Polling else Handling(ready[0], ready[1..]));
    case HandlerReturns(k) => LoopIs(s, Step(s, a), l, k, Batch(s.loopers[k].loop.ready));
    case HandlerGivesUp(k) =>
      var h := s.loopers[k].loop;
      LoopIs(s, Step(s, a), l, k, WantsDelete(h.p, s.conns[h.p].fd, h.ready));
    case LockToDelete(k) =>
      var h := s.loopers[k].loop;
      SetLockKeepsLoops(s, OwnerOf(s, h.p), ByLooper(k), l);
      LoopIs(SetLock(s, OwnerOf(s, h.p), ByLooper(k)), Step(s, a), l, k,
             Deleting(h.p, h.fd, OwnerOf(s, h.p), h.ready));
    case Erase(k) => EraseLoop(s, k, l);
  }

  lemma ReadyStep(s: State, a: Action, l: nat)
    requires Inv(s) && l < |s.loopers|
    ensures |Step(s, a).loopers| == |s.loopers|
    ensures StartedBy(s, a, l) + StillReady(Step(s, a).loopers[l].loop)
            == StillReady(s.loopers[l].loop) + ReportedBy(s, a, l)
  {
    hide Inv, DoAccept, DoAssign, DoErase, DoLockToAdd, DoRegister, DoInsert, DoUnlock, DoLockToDelete, SetLoop;
    if Enabled(s, a) {
      Happens(s, a);
      LoopStep(s, a, l);
      hide Step;
      if a.StartNext? && a.l == l && s.loopers[l].loop.ready != [] {
        var ready := s.loopers[l].loop.ready;
        assert [ready[0]] + ready[1..] == ready;
      }
    }
  }

  /** Each reactor starts the callbacks of all connections its polls reported, each
      report once and in order; those not started yet it still holds. */
  lemma {:induction false} EveryReportIsStarted(reactors: nat, run: seq<Action>, l: nat)
    requires l < reactors
    ensures l < |After(reactors, run).loopers|
    ensures Starts(reactors, run, l) + StillReady(After(reactors, run).loopers[l].loop) == Reports(reactors, run, l)
  {
    hide Step, StillReady, ReportedBy, StartedBy;
    if run == [] {
      NothingReady(reactors, l);
    } else {
      var n := |run| - 1;
      var s := After(reactors, run[..n]);
      EveryReportIsStarted(reactors, run[..n], l);
      AfterIsSound(reactors, run[..n]);
      ReadyStep(s, run[n], l);
      Assoc3(Starts(reactors, run[..n], l), StartedBy(s, run[n], l), StillReady(Step(s, run[n]).loopers[l].loop));
      Assoc3(Starts(reactors, run[..n], l), StillReady(s.loopers[l].loop), ReportedBy(s, run[n], l));
    }
  }

  lemma NothingReady(reactors: nat, l: nat)
    requires l < reactors
    ensures l < |Init(reactors).loopers| && StillReady(Init(reactors).loopers[l].loop) == []
  {
  }

  lemma Assoc3(a: seq<Ptr>, b: seq<Ptr>, c: seq<Ptr>)
    ensures a + b + c == a + (b + c)
  {
  }

  // --------------------------------------------------- Every end was asked for

  /** In step `i` of the run the handler of `p`, run by reactor `l`, gave up. */
  predicate GaveUp(reactors: nat, run: seq<Action>, l: nat, p: Ptr, i: nat) {
    && i < |run| && run[i] == HandlerGivesUp(l)
    && var s := After(reactors, run[..i]);
       l < |s.loopers| && s.loopers[l].loop.Handling? && s.loopers[l].loop.p == p
  }

  /** The connection whose deletion the reactor has begun. */
  predicate IsDeleting(loop: Loop, p: Ptr) {
    (loop.WantsDelete? || loop.Deleting?) && loop.p == p
  }

  lemma DeletionBegins(s: State, a: Action, l: nat, p: Ptr)
    requires Inv(s) && l < |s.loopers| && l < |Step(s, a).loopers| && IsDeleting(Step(s, a).loopers[l].loop, p)
    ensures IsDeleting(s.loopers[l].loop, p)
            || (a == HandlerGivesUp(l) && s.loopers[l].loop.Handling? && s.loopers[l].loop.p == p)
  {
    hide Inv, DoAccept, DoAssign, DoErase, DoLockToAdd, DoRegister, DoInsert, DoUnlock, DoLockToDelete, SetLoop;
    if Enabled(s, a) {
      Happens(s, a);
      LoopStep(s, a, l);
      hide Step;
    }
  }

  lemma {:induction false} DeletionWasAskedFor(reactors: nat, run: seq<Action>, l: nat, p: Ptr)
    requires l < |After(reactors, run).loopers| && IsDeleting(After(reactors, run).loopers[l].loop, p)
    ensures exists i: nat :: GaveUp(reactors, run, l, p, i)
  {
    hide Step, Inv, IsDeleting;
    if run == [] {
      NobodyDeletesYet(reactors, l, p);
    } else {
      var n := |run| - 1;
      var s := After(reactors, run[..n]);
      AfterIsSound(reactors, run[..n]);
      SameLoopers(s, run[n]);
      DeletionBegins(s, run[n], l, p);
      if IsDeleting(s.loopers[l].loop, p) {
        DeletionWasAskedFor(reactors, run[..n], l, p);
        var i: nat :| GaveUp(reactors, run[..n], l, p, i);
        assert run[..n][..i] == run[..i];
        assert GaveUp(reactors, run, l, p, i);
      } else {
        assert GaveUp(reactors, run, l, p, n);
      }
    }
  }

  lemma NobodyDeletesYet(reactors: nat, l: nat, p: Ptr)
    requires l < |Init(reactors).loopers|
    ensures !IsDeleting(Init(reactors).loopers[l].loop, p)
  {
  }

  lemma SameLoopers(s: State, a: Action)
    requires Inv(s)
    ensures |Step(s, a).loopers| == |s.loopers|
  {
    hide Inv, Step, StillReady;
    if |s.loopers| > 0 {
      ReadyStep(s, a, 0);
    } else {
      NoLoopers(s, a);
    }
  }

  lemma NoLoopers(s: State, a: Action)
    requires |s.loopers| == 0
    ensures |Step(s, a).loopers| == 0
  {
  }

  /** In every interleaving a connection is destroyed only after its own handler gave
      up, by the deletion that it then asked for. */
  lemma NoConnectionEndsUnasked(reactors: nat, run: seq<Action>, a: Action, p: Ptr)
    requires Ends(After(reactors, run), a, p)
    ensures a.Erase? && IsItsDeletion(After(reactors, run), a, p)
    ensures exists i: nat :: GaveUp(reactors, run, a.l, p, i)
  {
    hide After, Step, GaveUp;
    OnlyItsHandlerEndsAConnection(reactors, run, a, p);
    DeletionWasAskedFor(reactors, run, a.l, p);
  }
}
