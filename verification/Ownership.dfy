/** Who owns a connection while the accepting thread and the reactor threads
    (`acceptor.cc`, `looper.cc`, `poller.cc`, the demo's handler) interleave. */
module Ownership {
  import opened Strings

  /** Identity of a heap object; never reused within a run. */
  type Ptr = nat
  type Fd = nat

  /** A live `Connection`: its descriptor and `owner_looper_`. */
  datatype Conn = Conn(fd: Fd, owner: Option<nat>)

  datatype Lock = Free | ByAcceptor | ByLooper(l: nat)

  /** The accept callback, step by step; it runs in the listener's thread. */
  datatype Acceptor =
    | Waiting
    | Created(p: Ptr)      // accept returned, looper not chosen yet
    | Assigned(p: Ptr)     // SetLooper called
    | Adding(p: Ptr)       // inside AddConnection, lock taken
    | Registering(p: Ptr)  // epoll_ctl done, the map does not own it yet
    | Inserted(l: nat)     // the map owns it, lock not released yet

  /** The loop of one reactor. */
  datatype Loop =
    | Polling
    | Batch(ready: seq<Ptr>)                          // connections still to start
    | Handling(p: Ptr, ready: seq<Ptr>)               // inside the callback of p
    | WantsDelete(p: Ptr, fd: Fd, ready: seq<Ptr>)    // about to call DeleteConnection
    | Deleting(p: Ptr, fd: Fd, at: nat, ready: seq<Ptr>)  // holds the lock of looper `at`

  /** `registered` is the kernel's interest list, `connections` the owning map. */
  datatype Looper = Looper(registered: map<Fd, Ptr>, connections: map<Fd, Ptr>, lock: Lock, loop: Loop)

  datatype State = State(conns: map<Ptr, Conn>, next: Ptr, open: set<Fd>, loopers: seq<Looper>, acceptor: Acceptor)

  datatype Action =
    | Accept(fd: Fd)
    | Assign(l: nat)
    | LockToAdd
    | Register
    | Insert
    | UnlockAfterAdd
    | Poll(l: nat, ready: seq<Ptr>)
    | StartNext(l: nat)
    | HandlerReturns(l: nat)
    | HandlerGivesUp(l: nat)
    | LockToDelete(l: nat)
    | Erase(l: nat)

  predicate NoRepeats(ps: seq<Ptr>) {
    forall i, j :: 0 <= i < j < |ps| ==> ps[i] != ps[j]
  }

  /** Pointers the action follows. */
  function Follows(s: State, a: Action): set<Ptr> {
    match a
    case Assign(_) => if s.acceptor.Created? then {s.acceptor.p} else {}
    case LockToAdd => if s.acceptor.Assigned? then {s.acceptor.p} else {}
    case Register => if s.acceptor.Adding? then {s.acceptor.p} else {}
    case Insert => if s.acceptor.Registering? then {s.acceptor.p} else {}
    case Poll(_, ready) => set p | p in ready
    case StartNext(l) =>
      if l < |s.loopers| && s.loopers[l].loop.Batch? && s.loopers[l].loop.ready != []
      then {s.loopers[l].loop.ready[0]} else {}
    case HandlerReturns(l) =>
      if l < |s.loopers| && s.loopers[l].loop.Handling? then {s.loopers[l].loop.p} else {}
    case HandlerGivesUp(l) =>
      if l < |s.loopers| && s.loopers[l].loop.Handling? then {s.loopers[l].loop.p} else {}
    case LockToDelete(l) =>
      if l < |s.loopers| && s.loopers[l].loop.WantsDelete? then {s.loopers[l].loop.p} else {}
    case Erase(l) =>
      if l < |s.loopers| && s.loopers[l].loop.Deleting? then Victim(s, s.loopers[l].loop) else {}
    case _ => {}
  }

  /** What the map entry under the deleter's descriptor points to: the erasure runs
      its destructor. */
  function Victim(s: State, h: Loop): set<Ptr>
    requires h.Deleting?
  {
    if h.at < |s.loopers| && h.fd in s.loopers[h.at].connections then {s.loopers[h.at].connections[h.fd]} else {}
  }

  predicate HasOwner(s: State, p: Ptr) {
    p in s.conns && s.conns[p].owner.Some? && s.conns[p].owner.value < |s.loopers|
  }

  function OwnerOf(s: State, p: Ptr): nat
    requires HasOwner(s, p)
  {
    s.conns[p].owner.value
  }

  /** When a thread can take the step.  An accepted descriptor was not open, and a
      poll reports each registration at most once. */
  predicate Enabled(s: State, a: Action) {
    match a
    case Accept(fd) => s.acceptor.Waiting? && fd !in s.open
    case Assign(l) => s.acceptor.Created? && l < |s.loopers|
    case LockToAdd =>
      s.acceptor.Assigned? && HasOwner(s, s.acceptor.p) && s.loopers[OwnerOf(s, s.acceptor.p)].lock.Free?
    case Register => s.acceptor.Adding?
    case Insert => s.acceptor.Registering?
    case UnlockAfterAdd => s.acceptor.Inserted?
    case Poll(l, ready) =>
      && l < |s.loopers| && s.loopers[l].loop.Polling? && NoRepeats(ready)
      && forall i :: 0 <= i < |ready| ==> ready[i] in s.loopers[l].registered.Values
    case StartNext(l) => l < |s.loopers| && s.loopers[l].loop.Batch?
    case HandlerReturns(l) => l < |s.loopers| && s.loopers[l].loop.Handling?
    case HandlerGivesUp(l) => l < |s.loopers| && s.loopers[l].loop.Handling?
    case LockToDelete(l) =>
      && l < |s.loopers| && s.loopers[l].loop.WantsDelete?
      && HasOwner(s, s.loopers[l].loop.p) && s.loopers[OwnerOf(s, s.loopers[l].loop.p)].lock.Free?
    case Erase(l) => l < |s.loopers| && s.loopers[l].loop.Deleting?
  }

  function SetLoop(s: State, l: nat, loop: Loop): State
    requires l < |s.loopers|
  {
    s.(loopers := s.loopers[l := s.loopers[l].(loop := loop)])
  }

  function SetLock(s: State, l: nat, lock: Lock): State {
    if l < |s.loopers| then s.(loopers := s.loopers[l := s.loopers[l].(lock := lock)]) else s
  }

  /** Closing a descriptor takes it out of every interest list. */
  function Deregister(ls: seq<Looper>, fd: Fd): seq<Looper> {
    seq(|ls|, i requires 0 <= i < |ls| => ls[i].(registered := ls[i].registered - {fd}))
  }

  /** The destructor of a connection closes its descriptor. */
  function Destroy(s: State, p: Ptr): State {
    if p in s.conns then
      s.(conns := s.conns - {p}, open := s.open - {s.conns[p].fd}, loopers := Deregister(s.loopers, s.conns[p].fd))
    else s
  }

  function DoAccept(s: State, fd: Fd): State {
    s.(conns := s.conns[s.next := Conn(fd, None)], next := s.next + 1, open := s.open + {fd},
       acceptor := Created(s.next))
  }

  function DoAssign(s: State, p: Ptr, l: nat): State
    requires p in s.conns
  {
    s.(conns := s.conns[p := s.conns[p].(owner := Some(l))], acceptor := Assigned(p))
  }

  function DoLockToAdd(s: State, p: Ptr): State
    requires HasOwner(s, p)
  {
    SetLock(s, OwnerOf(s, p), ByAcceptor).(acceptor := Adding(p))
  }

  /** `epoll_ctl` adds the descriptor with the pointer as its data. */
  function DoRegister(s: State, p: Ptr): State
    requires HasOwner(s, p)
  {
    var l := OwnerOf(s, p);
    s.(loopers := s.loopers[l := s.loopers[l].(registered := s.loopers[l].registered[s.conns[p].fd := p])],
       acceptor := Registering(p))
  }

  /** `connections_.insert` keeps an entry that is already there; the new
      connection is then destroyed. */
  function DoInsert(s: State, p: Ptr): State
    requires HasOwner(s, p)
  {
    var l := OwnerOf(s, p);
    if s.conns[p].fd in s.loopers[l].connections then Destroy(s, p).(acceptor := Inserted(l))
    else
      s.(loopers := s.loopers[l := s.loopers[l].(connections := s.loopers[l].connections[s.conns[p].fd := p])],
         acceptor := Inserted(l))
  }

  function DoUnlock(s: State, l: nat): State {
    SetLock(s, l, Free).(acceptor := Waiting)
  }

  function DoLockToDelete(s: State, l: nat, h: Loop): State
    requires l < |s.loopers| && h.WantsDelete? && HasOwner(s, h.p)
  {
    SetLoop(SetLock(s, OwnerOf(s, h.p), ByLooper(l)), l, Deleting(h.p, h.fd, OwnerOf(s, h.p), h.ready))
  }

  /** `DeleteConnection` under the lock: find, erase (which destroys), unlock. */
  function DoErase(s: State, l: nat, h: Loop): State
    requires l < |s.loopers| && h.Deleting?
  {
    var t := SetLoop(s, l, Batch(h.ready));
    if h.at < |s.loopers| && h.fd in s.loopers[h.at].connections then
      var u := t.(loopers := t.loopers[h.at := t.loopers[h.at].(connections := t.loopers[h.at].connections - {h.fd})]);
      SetLock(Destroy(u, s.loopers[h.at].connections[h.fd]), h.at, Free)
    else SetLock(t, h.at, Free)
  }

  /** One step.  A step that is not enabled, or that would follow a pointer to no
      live object, leaves the state alone; `NothingDangles` shows that the second
      case never arises. */
  function Step(s: State, a: Action): State {
    if !Enabled(s, a) || !(Follows(s, a) <= s.conns.Keys) then s
    else match a
      case Accept(fd) => DoAccept(s, fd)
      case Assign(l) => DoAssign(s, s.acceptor.p, l)
      case LockToAdd => DoLockToAdd(s, s.acceptor.p)
      case Register => if HasOwner(s, s.acceptor.p) then DoRegister(s, s.acceptor.p) else s
      case Insert => if HasOwner(s, s.acceptor.p) then DoInsert(s, s.acceptor.p) else s
      case UnlockAfterAdd => DoUnlock(s, s.acceptor.l)
      case Poll(l, ready) => SetLoop(s, l, Batch(ready))
      case StartNext(l) =>
        var ready := s.loopers[l].loop.ready;
        SetLoop(s, l, if ready == [] then Polling else Handling(ready[0], ready[1..]))
      case HandlerReturns(l) => SetLoop(s, l, Batch(s.loopers[l].loop.ready))
      case HandlerGivesUp(l) =>
        var h := s.loopers[l].loop;
        SetLoop(s, l, WantsDelete(h.p, s.conns[h.p].fd, h.ready))
      case LockToDelete(l) => DoLockToDelete(s, l, s.loopers[l].loop)
      case Erase(l) => DoErase(s, l, s.loopers[l].loop)
  }

  function Init(reactors: nat): State {
    State(map[], 0, {}, seq(reactors, _ => Looper(map[], map[], Free, Polling)), Waiting)
  }

  function After(reactors: nat, run: seq<Action>): State {
    if run == [] then Init(reactors) else Step(After(reactors, run[..|run| - 1]), run[|run| - 1])
  }

  // -------------------------------------------------------------- Invariants

  /** Live connections have different, open descriptors. */
  ghost predicate DescriptorsAreOwn(s: State) {
    && (forall p :: p in s.conns ==> p < s.next && s.conns[p].fd in s.open)
    && (forall p, q :: p in s.conns && q in s.conns && p != q ==> s.conns[p].fd != s.conns[q].fd)
  }

  /** `p` is alive, uses `fd` and belongs to looper `l`. */
  predicate Owns(s: State, l: nat, fd: Fd, p: Ptr) {
    p in s.conns && s.conns[p] == Conn(fd, Some(l))
  }

  /** Registrations and map entries point to live connections of that looper, and
      every map entry is registered. */
  ghost predicate TablesAreSound(s: State) {
    forall l :: 0 <= l < |s.loopers| ==>
      && (forall fd :: fd in s.loopers[l].registered ==> Owns(s, l, fd, s.loopers[l].registered[fd]))
      && (forall fd :: fd in s.loopers[l].connections ==>
            fd in s.loopers[l].registered && s.loopers[l].registered[fd] == s.loopers[l].connections[fd])
  }

  predicate InMap(s: State, p: Ptr) {
    HasOwner(s, p) && s.conns[p].fd in s.loopers[OwnerOf(s, p)].connections
    && s.loopers[OwnerOf(s, p)].connections[s.conns[p].fd] == p
  }

  predicate AcceptorHolds(s: State, p: Ptr) {
    match s.acceptor
    case Created(q) => p == q
    case Assigned(q) => p == q
    case Adding(q) => p == q
    case Registering(q) => p == q
    case _ => false
  }

  /** Every live connection has exactly one owner: the accept callback or the map
      of its looper. */
  ghost predicate EveryConnectionIsOwned(s: State) {
    forall p :: p in s.conns ==> (AcceptorHolds(s, p) <==> !InMap(s, p))
  }

  /** What the accept callback knows about the connection it holds. */
  ghost predicate AcceptorFacts(s: State) {
    match s.acceptor
    case Waiting => true
    case Created(p) => p in s.conns && s.conns[p].owner.None?
    case Assigned(p) => HasOwner(s, p) && Unregistered(s, p)
    case Adding(p) => HasOwner(s, p) && Unregistered(s, p) && s.loopers[OwnerOf(s, p)].lock == ByAcceptor
    case Registering(p) =>
      HasOwner(s, p) && s.loopers[OwnerOf(s, p)].lock == ByAcceptor && Reported(s, OwnerOf(s, p), p)
    case Inserted(l) => l < |s.loopers| && s.loopers[l].lock == ByAcceptor
  }

  predicate Unregistered(s: State, p: Ptr)
    requires HasOwner(s, p)
  {
    s.conns[p].fd !in s.loopers[OwnerOf(s, p)].registered
  }

  function ReadyOf(loop: Loop): seq<Ptr> {
    match loop
    case Polling => []
    case Batch(ready) => ready
    case Handling(p, ready) => [p] + ready
    case WantsDelete(p, _, ready) => [p] + ready
    case Deleting(p, _, _, ready) => [p] + ready
  }

  /** The connections a reactor still holds from its last poll are different, alive,
      registered with it and its own. */
  ghost predicate LoopFacts(s: State) {
    forall l :: 0 <= l < |s.loopers| ==>
      && LoopIsSound(s, l, s.loopers[l].loop)
      && (s.loopers[l].loop.Deleting? <==> s.loopers[l].lock == ByLooper(l))
  }

  predicate Reported(s: State, l: nat, p: Ptr)
    requires l < |s.loopers|
  {
    && p in s.conns && s.conns[p].owner == Some(l)
    && s.conns[p].fd in s.loopers[l].registered && s.loopers[l].registered[s.conns[p].fd] == p
  }

  ghost predicate LocksAreLocal(s: State) {
    forall l :: 0 <= l < |s.loopers| ==>
      && (s.loopers[l].lock.ByLooper? ==> s.loopers[l].lock.l == l)
      && (s.loopers[l].lock.ByAcceptor? ==>
            match s.acceptor
            case Adding(p) => HasOwner(s, p) && OwnerOf(s, p) == l
            case Registering(p) => HasOwner(s, p) && OwnerOf(s, p) == l
            case Inserted(k) => k == l
            case _ => false)
  }

  ghost predicate Inv(s: State) {
    && DescriptorsAreOwn(s) && TablesAreSound(s) && EveryConnectionIsOwned(s)
    && AcceptorFacts(s) && LoopFacts(s) && LocksAreLocal(s)
  }

  lemma InitInv(reactors: nat)
    ensures Inv(Init(reactors))
  {
  }

  // ---------------------------------------- Steps that move one reactor's loop

  /** Only program counters of reactors differ. */
  ghost predicate SameTables(s: State, t: State) {
    && t.conns == s.conns && t.next == s.next && t.open == s.open && t.acceptor == s.acceptor
    && |t.loopers| == |s.loopers|
    && forall l :: 0 <= l < |s.loopers| ==>
         && t.loopers[l].registered == s.loopers[l].registered
         && t.loopers[l].connections == s.loopers[l].connections
         && t.loopers[l].lock == s.loopers[l].lock
  }

  lemma TablesFrame(s: State, t: State)
    requires SameTables(s, t) && TablesAreSound(s)
    ensures TablesAreSound(t)
  {
  }

  lemma OwnedFrame(s: State, t: State)
    requires SameTables(s, t) && EveryConnectionIsOwned(s)
    ensures EveryConnectionIsOwned(t)
  {
    forall p | p in t.conns ensures AcceptorHolds(t, p) <==> !InMap(t, p) {
      assert AcceptorHolds(s, p) <==> !InMap(s, p);
    }
  }

  lemma LockFrame(s: State, t: State)
    requires SameTables(s, t) && AcceptorFacts(s) && LocksAreLocal(s)
    ensures AcceptorFacts(t) && LocksAreLocal(t)
  {
  }

  /** A reactor whose loop now holds these connections. */
  ghost predicate LoopIsSound(s: State, l: nat, loop: Loop)
    requires l < |s.loopers|
  {
    && NoRepeats(ReadyOf(loop))
    && (forall i :: 0 <= i < |ReadyOf(loop)| ==> Reported(s, l, ReadyOf(loop)[i]))
    && (loop.WantsDelete? ==> loop.p in s.conns && s.conns[loop.p].fd == loop.fd)
    && (loop.Deleting? ==> loop.p in s.conns && s.conns[loop.p].fd == loop.fd && loop.at == l)
  }

  lemma SetLoopKeeps(s: State, l: nat, loop: Loop)
    requires Inv(s) && l < |s.loopers| && LoopIsSound(s, l, loop)
    requires !loop.Deleting? && !s.loopers[l].loop.Deleting?
    ensures Inv(SetLoop(s, l, loop))
  {
    hide TablesAreSound, EveryConnectionIsOwned, AcceptorFacts, LocksAreLocal;
    var t := SetLoop(s, l, loop);
    TablesFrame(s, t);
    OwnedFrame(s, t);
    LockFrame(s, t);
    forall k | 0 <= k < |t.loopers| && k != l ensures t.loopers[k] == s.loopers[k] {
    }
    forall k, p | 0 <= k < |s.loopers| ensures Reported(t, k, p) <==> Reported(s, k, p) {
    }
  }

  lemma LoopOf(s: State, l: nat)
    requires Inv(s) && l < |s.loopers|
    ensures LoopIsSound(s, l, s.loopers[l].loop)
  {
  }

  lemma PollKeeps(s: State, l: nat, ready: seq<Ptr>)
    requires Inv(s) && Enabled(s, Poll(l, ready))
    ensures Inv(SetLoop(s, l, Batch(ready)))
  {
    hide EveryConnectionIsOwned, AcceptorFacts, LocksAreLocal;
    forall i | 0 <= i < |ready| ensures Reported(s, l, ready[i]) {
      assert ready[i] in s.loopers[l].registered.Values;
      var fd :| fd in s.loopers[l].registered && s.loopers[l].registered[fd] == ready[i];
      assert Owns(s, l, fd, ready[i]);
    }
    SetLoopKeeps(s, l, Batch(ready));
  }

  lemma StartKeeps(s: State, l: nat)
    requires Inv(s) && Enabled(s, StartNext(l))
    ensures var ready := s.loopers[l].loop.ready;
            Inv(SetLoop(s, l, if ready == [] then Polling else Handling(ready[0], ready[1..])))
  {
    hide Inv;
    LoopOf(s, l);
    var ready := s.loopers[l].loop.ready;
    assert ready != [] ==> ready == [ready[0]] + ready[1..];
    SetLoopKeeps(s, l, if ready == [] then Polling else Handling(ready[0], ready[1..]));
  }

  lemma HandlerReturnsKeeps(s: State, l: nat)
    requires Inv(s) && Enabled(s, HandlerReturns(l))
    ensures Inv(SetLoop(s, l, Batch(s.loopers[l].loop.ready)))
  {
    hide Inv, Reported;
    LoopOf(s, l);
    TailIsSound(s, l, s.loopers[l].loop.p, s.loopers[l].loop.ready);
    SetLoopKeeps(s, l, Batch(s.loopers[l].loop.ready));
  }

  lemma TailIsSound(s: State, l: nat, p: Ptr, ready: seq<Ptr>)
    requires l < |s.loopers| && NoRepeats([p] + ready)
    requires forall i :: 0 <= i < |ready| + 1 ==> Reported(s, l, ([p] + ready)[i])
    ensures LoopIsSound(s, l, Batch(ready))
    ensures p !in ready && Reported(s, l, p)
  {
    hide Reported;
    var all := [p] + ready;
    assert all[0] == p;
    assert forall i :: 0 <= i < |ready| ==> ready[i] == all[i + 1];
  }

  lemma HandlerGivesUpKeeps(s: State, l: nat)
    requires Inv(s) && Enabled(s, HandlerGivesUp(l))
    ensures var h := s.loopers[l].loop;
            h.p in s.conns && Inv(SetLoop(s, l, WantsDelete(h.p, s.conns[h.p].fd, h.ready)))
  {
    hide Inv;
    LoopOf(s, l);
    var h := s.loopers[l].loop;
    TailIsSound(s, l, h.p, h.ready);
    SetLoopKeeps(s, l, WantsDelete(h.p, s.conns[h.p].fd, h.ready));
  }

  // -------------------------------------------- Steps of the accept callback

  lemma LoopSurvives(s: State, t: State, l: nat, loop: Loop)
    requires l < |s.loopers| && l < |t.loopers| && LoopIsSound(s, l, loop)
    requires forall p :: p in s.conns && s.conns[p].owner == Some(l) ==> p in t.conns && t.conns[p] == s.conns[p]
    requires forall fd :: fd in s.loopers[l].registered ==>
               fd in t.loopers[l].registered && t.loopers[l].registered[fd] == s.loopers[l].registered[fd]
    ensures LoopIsSound(t, l, loop)
  {
    forall i | 0 <= i < |ReadyOf(loop)| ensures Reported(t, l, ReadyOf(loop)[i]) {
      assert Reported(s, l, ReadyOf(loop)[i]);
    }
    if loop.WantsDelete? || loop.Deleting? {
      assert ReadyOf(loop)[0] == loop.p;
      assert Reported(s, l, loop.p);
    }
  }

  lemma LoopsSurvive(s: State, t: State)
    requires LoopFacts(s) && |t.loopers| == |s.loopers|
    requires forall p :: p in s.conns && s.conns[p].owner.Some? ==> p in t.conns && t.conns[p] == s.conns[p]
    requires forall l :: 0 <= l < |s.loopers| ==>
               && t.loopers[l].loop == s.loopers[l].loop
               && (t.loopers[l].lock == ByLooper(l) <==> s.loopers[l].lock == ByLooper(l))
               && (forall fd :: fd in s.loopers[l].registered ==>
                     fd in t.loopers[l].registered && t.loopers[l].registered[fd] == s.loopers[l].registered[fd])
    ensures LoopFacts(t)
  {
    hide LoopIsSound;
    forall l | 0 <= l < |s.loopers| ensures LoopIsSound(t, l, t.loopers[l].loop) {
      LoopSurvives(s, t, l, s.loopers[l].loop);
    }
  }

  lemma AcceptTables(s: State, fd: Fd)
    requires DescriptorsAreOwn(s) && TablesAreSound(s) && fd !in s.open
    ensures DescriptorsAreOwn(DoAccept(s, fd)) && TablesAreSound(DoAccept(s, fd))
  {
  }

  lemma AcceptOwned(s: State, fd: Fd)
    requires DescriptorsAreOwn(s) && EveryConnectionIsOwned(s) && s.acceptor.Waiting?
    ensures EveryConnectionIsOwned(DoAccept(s, fd))
  {
    var t := DoAccept(s, fd);
    forall p | p in t.conns ensures AcceptorHolds(t, p) <==> !InMap(t, p) {
      if p in s.conns {
        assert AcceptorHolds(s, p) <==> !InMap(s, p);
      }
    }
  }

  lemma AcceptLocks(s: State, fd: Fd)
    requires AcceptorFacts(s) && LocksAreLocal(s) && s.acceptor.Waiting?
    ensures AcceptorFacts(DoAccept(s, fd)) && LocksAreLocal(DoAccept(s, fd))
  {
  }

  lemma AcceptKeeps(s: State, fd: Fd)
    requires Inv(s) && Enabled(s, Accept(fd))
    ensures Inv(DoAccept(s, fd))
  {
    hide TablesAreSound, EveryConnectionIsOwned, LoopFacts, AcceptorFacts, LocksAreLocal;
    AcceptTables(s, fd);
    AcceptOwned(s, fd);
    AcceptLocks(s, fd);
    LoopsSurvive(s, DoAccept(s, fd));
  }

  lemma AssignTables(s: State, p: Ptr, l: nat)
    requires DescriptorsAreOwn(s) && TablesAreSound(s) && p in s.conns && s.conns[p].owner.None? && l < |s.loopers|
    ensures DescriptorsAreOwn(DoAssign(s, p, l)) && TablesAreSound(DoAssign(s, p, l))
    ensures s.conns[p].fd !in s.loopers[l].registered
  {
    assert s.conns[p].fd in s.loopers[l].registered ==>
        Owns(s, l, s.conns[p].fd, s.loopers[l].registered[s.conns[p].fd]);
  }

  lemma AssignOwned(s: State, q: Ptr, l: nat)
    requires EveryConnectionIsOwned(s) && s.acceptor == Created(q) && q in s.conns
    requires l < |s.loopers| && s.conns[q].fd !in s.loopers[l].connections
    ensures EveryConnectionIsOwned(DoAssign(s, q, l))
  {
    var t := DoAssign(s, q, l);
    forall p | p in t.conns ensures AcceptorHolds(t, p) <==> !InMap(t, p) {
      assert AcceptorHolds(s, p) <==> !InMap(s, p);
    }
  }

  lemma AssignLocks(s: State, p: Ptr, l: nat)
    requires AcceptorFacts(s) && LocksAreLocal(s) && s.acceptor == Created(p) && p in s.conns
    requires l < |s.loopers| && s.conns[p].fd !in s.loopers[l].registered
    ensures AcceptorFacts(DoAssign(s, p, l)) && LocksAreLocal(DoAssign(s, p, l))
  {
  }

  lemma MapEntryIsRegistered(s: State, l: nat, fd: Fd)
    requires TablesAreSound(s) && l < |s.loopers| && fd in s.loopers[l].connections
    ensures fd in s.loopers[l].registered && Owns(s, l, fd, s.loopers[l].registered[fd])
    ensures s.loopers[l].registered[fd] == s.loopers[l].connections[fd]
  {
  }

  lemma AssignKeeps(s: State, l: nat)
    requires Inv(s) && Enabled(s, Assign(l))
    ensures s.acceptor.p in s.conns && Inv(DoAssign(s, s.acceptor.p, l))
  {
    hide DescriptorsAreOwn, TablesAreSound, EveryConnectionIsOwned, LoopFacts, LocksAreLocal;
    var p := s.acceptor.p;
    var fd := s.conns[p].fd;
    AssignTables(s, p, l);
    if fd in s.loopers[l].connections {
      MapEntryIsRegistered(s, l, fd);
    }
    AssignOwned(s, p, l);
    AssignLocks(s, p, l);
    LoopsSurvive(s, DoAssign(s, p, l));
  }

  // --- lock, register, insert, unlock

  lemma SetLockKeepsTables(s: State, t: State)
    requires t.conns == s.conns && t.next == s.next && t.open == s.open && |t.loopers| == |s.loopers|
    requires forall l :: 0 <= l < |s.loopers| ==>
               && t.loopers[l].registered == s.loopers[l].registered
               && t.loopers[l].connections == s.loopers[l].connections
    ensures DescriptorsAreOwn(s) ==> DescriptorsAreOwn(t)
    ensures TablesAreSound(s) ==> TablesAreSound(t)
    ensures EveryConnectionIsOwned(s) && (forall p :: AcceptorHolds(t, p) <==> AcceptorHolds(s, p)) ==>
              EveryConnectionIsOwned(t)
  {
    if EveryConnectionIsOwned(s) && (forall p :: AcceptorHolds(t, p) <==> AcceptorHolds(s, p)) {
      forall p | p in t.conns ensures AcceptorHolds(t, p) <==> !InMap(t, p) {
        assert AcceptorHolds(s, p) <==> !InMap(s, p);
      }
    }
  }

  lemma LockToAddLocks(s: State, p: Ptr)
    requires AcceptorFacts(s) && LocksAreLocal(s) && s.acceptor == Assigned(p)
    ensures AcceptorFacts(DoLockToAdd(s, p)) && LocksAreLocal(DoLockToAdd(s, p))
  {
  }

  lemma LockToAddKeeps(s: State)
    requires Inv(s) && Enabled(s, LockToAdd)
    ensures Inv(DoLockToAdd(s, s.acceptor.p))
  {
    hide DescriptorsAreOwn, TablesAreSound, EveryConnectionIsOwned, LoopFacts, LocksAreLocal, AcceptorFacts;
    var t := DoLockToAdd(s, s.acceptor.p);
    SetLockKeepsTables(s, t);
    LockToAddLocks(s, s.acceptor.p);
    LoopsSurvive(s, t);
  }

  lemma UnlockLocks(s: State, l: nat)
    requires AcceptorFacts(s) && LocksAreLocal(s) && s.acceptor == Inserted(l)
    ensures AcceptorFacts(DoUnlock(s, l)) && LocksAreLocal(DoUnlock(s, l))
  {
  }

  lemma UnlockKeeps(s: State)
    requires Inv(s) && Enabled(s, UnlockAfterAdd)
    ensures Inv(DoUnlock(s, s.acceptor.l))
  {
    hide DescriptorsAreOwn, TablesAreSound, EveryConnectionIsOwned, LoopFacts, LocksAreLocal;
    var t := DoUnlock(s, s.acceptor.l);
    SetLockKeepsTables(s, t);
    UnlockLocks(s, s.acceptor.l);
    LoopsSurvive(s, t);
  }

  lemma RegisterTables(s: State, p: Ptr)
    requires TablesAreSound(s) && DescriptorsAreOwn(s) && HasOwner(s, p) && Unregistered(s, p)
    ensures TablesAreSound(DoRegister(s, p)) && DescriptorsAreOwn(DoRegister(s, p))
  {
  }

  lemma RegisterOwned(s: State, q: Ptr)
    requires EveryConnectionIsOwned(s) && s.acceptor == Adding(q) && HasOwner(s, q)
    ensures EveryConnectionIsOwned(DoRegister(s, q))
  {
    var t := DoRegister(s, q);
    forall p | p in t.conns ensures AcceptorHolds(t, p) <==> !InMap(t, p) {
      assert AcceptorHolds(s, p) <==> !InMap(s, p);
    }
  }

  lemma RegisterLocks(s: State, p: Ptr)
    requires AcceptorFacts(s) && LocksAreLocal(s) && s.acceptor == Adding(p)
    ensures AcceptorFacts(DoRegister(s, p)) && LocksAreLocal(DoRegister(s, p))
  {
  }

  lemma RegisterKeeps(s: State)
    requires Inv(s) && Enabled(s, Register)
    ensures HasOwner(s, s.acceptor.p) && Unregistered(s, s.acceptor.p)
    ensures Inv(DoRegister(s, s.acceptor.p))
  {
    hide DescriptorsAreOwn, TablesAreSound, EveryConnectionIsOwned, LoopFacts, LocksAreLocal;
    var p := s.acceptor.p;
    RegisterTables(s, p);
    RegisterOwned(s, p);
    RegisterLocks(s, p);
    LoopsSurvive(s, DoRegister(s, p));
  }

  /** The map has no entry under the descriptor of the connection being added. */
  lemma InsertFindsNoEntry(s: State, p: Ptr)
    requires Inv(s) && s.acceptor == Registering(p)
    ensures HasOwner(s, p) && s.conns[p].fd !in s.loopers[OwnerOf(s, p)].connections
  {
    var l, fd := OwnerOf(s, p), s.conns[p].fd;
    assert AcceptorHolds(s, p) && !InMap(s, p);
    if fd in s.loopers[l].connections {
      MapEntryIsRegistered(s, l, fd);
    }
  }

  lemma InsertTables(s: State, p: Ptr)
    requires TablesAreSound(s) && DescriptorsAreOwn(s) && HasOwner(s, p) && Reported(s, OwnerOf(s, p), p)
    requires s.conns[p].fd !in s.loopers[OwnerOf(s, p)].connections
    ensures TablesAreSound(DoInsert(s, p)) && DescriptorsAreOwn(DoInsert(s, p))
  {
  }

  lemma InsertOwned(s: State, q: Ptr)
    requires EveryConnectionIsOwned(s) && s.acceptor == Registering(q) && HasOwner(s, q) && DescriptorsAreOwn(s)
    requires s.conns[q].fd !in s.loopers[OwnerOf(s, q)].connections
    ensures EveryConnectionIsOwned(DoInsert(s, q))
  {
    var t := DoInsert(s, q);
    forall p | p in t.conns ensures AcceptorHolds(t, p) <==> !InMap(t, p) {
      assert AcceptorHolds(s, p) <==> !InMap(s, p);
    }
  }

  lemma InsertLocks(s: State, p: Ptr)
    requires AcceptorFacts(s) && LocksAreLocal(s) && s.acceptor == Registering(p)
    requires HasOwner(s, p) && s.conns[p].fd !in s.loopers[OwnerOf(s, p)].connections
    ensures AcceptorFacts(DoInsert(s, p)) && LocksAreLocal(DoInsert(s, p))
  {
  }

  lemma InsertKeeps(s: State)
    requires Inv(s) && Enabled(s, Insert)
    ensures HasOwner(s, s.acceptor.p) && Inv(DoInsert(s, s.acceptor.p))
  {
    hide DescriptorsAreOwn, TablesAreSound, EveryConnectionIsOwned, LoopFacts, LocksAreLocal;
    var p := s.acceptor.p;
    InsertFindsNoEntry(s, p);
    InsertTables(s, p);
    InsertOwned(s, p);
    InsertLocks(s, p);
    LoopsSurvive(s, DoInsert(s, p));
  }

  // ------------------------------------------------------ Steps of a deletion

  lemma DeleterIsTheOwner(s: State, l: nat)
    requires LoopFacts(s) && l < |s.loopers| && (s.loopers[l].loop.WantsDelete? || s.loopers[l].loop.Deleting?)
    ensures var h := s.loopers[l].loop;
            && Reported(s, l, h.p) && HasOwner(s, h.p) && OwnerOf(s, h.p) == l && s.conns[h.p].fd == h.fd
            && h.p !in h.ready && LoopIsSound(s, l, Batch(h.ready))
  {
    var h := s.loopers[l].loop;
    TailIsSound(s, l, h.p, h.ready);
  }

  lemma LockToDeleteLoops(s: State, l: nat)
    requires LoopFacts(s) && l < |s.loopers| && s.loopers[l].loop.WantsDelete? && HasOwner(s, s.loopers[l].loop.p)
    requires OwnerOf(s, s.loopers[l].loop.p) == l
    ensures LoopFacts(DoLockToDelete(s, l, s.loopers[l].loop))
  {
    hide LoopIsSound;
    var t := DoLockToDelete(s, l, s.loopers[l].loop);
    forall k | 0 <= k < |s.loopers| ensures LoopIsSound(t, k, t.loopers[k].loop) {
      LoopSurvives(s, t, k, s.loopers[k].loop);
      if k == l {
        SameReady(t, l, s.loopers[l].loop, t.loopers[l].loop);
      }
    }
  }

  lemma SameReady(s: State, l: nat, a: Loop, b: Loop)
    requires l < |s.loopers| && LoopIsSound(s, l, a) && a.WantsDelete?
    requires b == Deleting(a.p, a.fd, l, a.ready)
    ensures LoopIsSound(s, l, b)
  {
  }

  lemma LockToDeleteLocks(s: State, l: nat)
    requires AcceptorFacts(s) && LocksAreLocal(s) && l < |s.loopers|
    requires s.loopers[l].loop.WantsDelete? && HasOwner(s, s.loopers[l].loop.p)
    requires OwnerOf(s, s.loopers[l].loop.p) == l && s.loopers[l].lock.Free?
    ensures AcceptorFacts(DoLockToDelete(s, l, s.loopers[l].loop))
    ensures LocksAreLocal(DoLockToDelete(s, l, s.loopers[l].loop))
  {
  }

  lemma LockToDeleteKeeps(s: State, l: nat)
    requires Inv(s) && Enabled(s, LockToDelete(l))
    ensures Inv(DoLockToDelete(s, l, s.loopers[l].loop))
  {
    hide DescriptorsAreOwn, TablesAreSound, EveryConnectionIsOwned, LoopFacts, LocksAreLocal, AcceptorFacts;
    DeleterIsTheOwner(s, l);
    LockToDeleteLoops(s, l);
    LockToDeleteLocks(s, l);
    SetLockKeepsTables(s, DoLockToDelete(s, l, s.loopers[l].loop));
  }

  /** Deleting one's own descriptor always finds the own connection, also when
      the handler ran before the accept callback had filled the map. */
  lemma EraseFindsItself(s: State, l: nat)
    requires Inv(s) && l < |s.loopers| && s.loopers[l].loop.Deleting?
    ensures var h := s.loopers[l].loop;
            h.at == l && h.fd in s.loopers[l].connections && s.loopers[l].connections[h.fd] == h.p
  {
    hide Inv, TablesAreSound, DescriptorsAreOwn, AcceptorHolds;
    InvUnfold(s);
    DeleterIsTheOwner(s, l);
    DeletedIsNotHeld(s, l);
    var p := s.loopers[l].loop.p;
    assert AcceptorHolds(s, p) <==> !InMap(s, p);
  }

  lemma DeletedIsNotHeld(s: State, l: nat)
    requires AcceptorFacts(s) && LoopFacts(s) && l < |s.loopers| && s.loopers[l].loop.Deleting?
    ensures !AcceptorHolds(s, s.loopers[l].loop.p)
  {
    hide LoopIsSound;
    DeleterIsTheOwner(s, l);
  }

  /** The state after the erasure, told by what is gone. */
  ghost predicate Erased(s: State, t: State, l: nat, p: Ptr)
    requires l < |s.loopers| && p in s.conns
  {
    var fd := s.conns[p].fd;
    && t.conns == s.conns - {p} && t.next == s.next && t.open == s.open - {fd} && t.acceptor == s.acceptor
    && |t.loopers| == |s.loopers|
    && (forall k :: 0 <= k < |s.loopers| ==>
          && t.loopers[k].registered == s.loopers[k].registered - {fd}
          && (k != l ==> t.loopers[k].connections == s.loopers[k].connections
                         && t.loopers[k].lock == s.loopers[k].lock && t.loopers[k].loop == s.loopers[k].loop))
    && t.loopers[l].connections == s.loopers[l].connections - {fd} && t.loopers[l].lock == Free
  }

  lemma EraseIs(s: State, l: nat)
    requires l < |s.loopers| && s.loopers[l].loop.Deleting?
    requires var h := s.loopers[l].loop;
             && h.at == l && h.fd in s.loopers[l].connections && s.loopers[l].connections[h.fd] == h.p
             && h.p in s.conns && s.conns[h.p].fd == h.fd
    ensures var h := s.loopers[l].loop;
            var t := DoErase(s, l, h);
            Erased(s, t, l, h.p) && t.loopers[l].loop == Batch(h.ready)
  {
  }

  lemma EraseTables(s: State, t: State, l: nat, p: Ptr)
    requires DescriptorsAreOwn(s) && TablesAreSound(s) && l < |s.loopers| && p in s.conns
    requires s.conns[p].owner == Some(l) && Erased(s, t, l, p)
    ensures DescriptorsAreOwn(t) && TablesAreSound(t)
  {
    var fd := s.conns[p].fd;
    forall k | 0 <= k < |s.loopers| && k != l ensures fd !in s.loopers[k].connections {
      if fd in s.loopers[k].connections {
        MapEntryIsRegistered(s, k, fd);
      }
    }
  }

  lemma EraseOwned(s: State, t: State, l: nat, p: Ptr)
    requires DescriptorsAreOwn(s) && EveryConnectionIsOwned(s) && l < |s.loopers| && p in s.conns
    requires s.conns[p].owner == Some(l) && Erased(s, t, l, p)
    ensures EveryConnectionIsOwned(t)
  {
    forall q | q in t.conns ensures AcceptorHolds(t, q) <==> !InMap(t, q) {
      assert AcceptorHolds(s, q) <==> !InMap(s, q);
      assert s.conns[q].fd != s.conns[p].fd;
    }
  }

  lemma EraseLocks(s: State, t: State, l: nat, p: Ptr)
    requires DescriptorsAreOwn(s) && AcceptorFacts(s) && LocksAreLocal(s) && l < |s.loopers| && p in s.conns
    requires Erased(s, t, l, p) && !AcceptorHolds(s, p) && s.loopers[l].lock == ByLooper(l)
    ensures AcceptorFacts(t) && LocksAreLocal(t)
  {
  }

  lemma SoundAfterErase(s: State, t: State, l: nat, p: Ptr, k: nat, loop: Loop)
    requires DescriptorsAreOwn(s) && l < |s.loopers| && p in s.conns && Erased(s, t, l, p)
    requires k < |s.loopers| && LoopIsSound(s, k, loop) && p !in ReadyOf(loop)
    ensures LoopIsSound(t, k, loop)
  {
    forall i | 0 <= i < |ReadyOf(loop)| ensures Reported(t, k, ReadyOf(loop)[i]) {
      var q := ReadyOf(loop)[i];
      assert q != p && Reported(s, k, q);
      assert s.conns[q].fd != s.conns[p].fd;
    }
    if loop.WantsDelete? || loop.Deleting? {
      assert ReadyOf(loop)[0] == loop.p;
    }
  }

  lemma NotReadyElsewhere(s: State, l: nat, p: Ptr, k: nat)
    requires LoopFacts(s) && k < |s.loopers| && k != l && p in s.conns && s.conns[p].owner == Some(l)
    ensures p !in ReadyOf(s.loopers[k].loop)
  {
    assert forall i :: 0 <= i < |ReadyOf(s.loopers[k].loop)| ==> Reported(s, k, ReadyOf(s.loopers[k].loop)[i]);
  }

  lemma EraseLoops(s: State, t: State, l: nat)
    requires DescriptorsAreOwn(s) && LoopFacts(s) && l < |s.loopers| && s.loopers[l].loop.Deleting?
    requires var h := s.loopers[l].loop;
             && Reported(s, l, h.p) && h.p !in h.ready && LoopIsSound(s, l, Batch(h.ready))
             && Erased(s, t, l, h.p) && t.loopers[l].loop == Batch(h.ready)
    ensures LoopFacts(t)
  {
    hide LoopIsSound, DescriptorsAreOwn;
    var h := s.loopers[l].loop;
    forall k | 0 <= k < |t.loopers| ensures LoopIsSound(t, k, t.loopers[k].loop) {
      if k == l {
        SoundAfterErase(s, t, l, h.p, l, Batch(h.ready));
      } else {
        NotReadyElsewhere(s, l, h.p, k);
        SoundAfterErase(s, t, l, h.p, k, s.loopers[k].loop);
      }
    }
  }

  lemma EraseKeeps(s: State, l: nat)
    requires Inv(s) && Enabled(s, Erase(l))
    ensures Inv(DoErase(s, l, s.loopers[l].loop))
  {
    hide DescriptorsAreOwn, TablesAreSound, LocksAreLocal, AcceptorFacts, DoErase, Erased, LoopIsSound;
    var h := s.loopers[l].loop;
    var t := DoErase(s, l, h);
    DeleterIsTheOwner(s, l);
    EraseFindsItself(s, l);
    EraseIs(s, l);
    EraseTables(s, t, l, h.p);
    EraseOwned(s, t, l, h.p);
    assert InMap(s, h.p);
    EraseLocks(s, t, l, h.p);
    EraseLoops(s, t, l);
  }

  // ------------------------------------------------------------ Over every run

  lemma StepKeeps(s: State, a: Action)
    requires Inv(s)
    ensures Inv(Step(s, a))
  {
    hide Inv, DoAccept, DoAssign, DoLockToAdd, DoRegister, DoInsert, DoUnlock, DoLockToDelete, DoErase, SetLoop;
    if Enabled(s, a) && Follows(s, a) <= s.conns.Keys {
      match a
      case Accept(fd) => AcceptKeeps(s, fd);
      case Assign(l) => AssignKeeps(s, l);
      case LockToAdd => LockToAddKeeps(s);
      case Register => RegisterKeeps(s);
      case Insert => InsertKeeps(s);
      case UnlockAfterAdd => UnlockKeeps(s);
      case Poll(l, ready) => PollKeeps(s, l, ready);
      case StartNext(l) => StartKeeps(s, l);
      case HandlerReturns(l) => HandlerReturnsKeeps(s, l);
      case HandlerGivesUp(l) => HandlerGivesUpKeeps(s, l);
      case LockToDelete(l) => LockToDeleteKeeps(s, l);
      case Erase(l) => EraseKeeps(s, l);
    }
  }

  lemma {:induction false} AfterIsSound(reactors: nat, run: seq<Action>)
    ensures Inv(After(reactors, run))
  {
    hide Inv, Step, Init;
    if run == [] {
      InitInv(reactors);
    } else {
      AfterIsSound(reactors, run[..|run| - 1]);
      StepKeeps(After(reactors, run[..|run| - 1]), run[|run| - 1]);
    }
  }

  /** Memory safety of the hand-over: in every interleaving, whatever step a thread
      is about to take, the connections it will touch or destroy are alive. */
  lemma NothingDangles(reactors: nat, run: seq<Action>, a: Action)
    requires Enabled(After(reactors, run), a)
    ensures Follows(After(reactors, run), a) <= After(reactors, run).conns.Keys
  {
    hide After;
    var s := After(reactors, run);
    AfterIsSound(reactors, run);
    FollowsLive(s, a);
  }

  lemma FollowsLive(s: State, a: Action)
    requires Inv(s) && Enabled(s, a)
    ensures Follows(s, a) <= s.conns.Keys
  {
    hide EveryConnectionIsOwned, LocksAreLocal, Inv;
    InvUnfold(s);
    match a
    case Poll(l, ready) =>
      forall i | 0 <= i < |ready| ensures ready[i] in s.conns {
        assert ready[i] in s.loopers[l].registered.Values;
        var fd :| fd in s.loopers[l].registered && s.loopers[l].registered[fd] == ready[i];
        assert Owns(s, l, fd, ready[i]);
      }
    case StartNext(l) =>
      if s.loopers[l].loop.ready != [] {
        assert Reported(s, l, ReadyOf(s.loopers[l].loop)[0]);
      }
    case HandlerReturns(l) => assert Reported(s, l, ReadyOf(s.loopers[l].loop)[0]);
    case HandlerGivesUp(l) => assert Reported(s, l, ReadyOf(s.loopers[l].loop)[0]);
    case Erase(l) =>
      EraseFindsItself(s, l);
      DeleterIsTheOwner(s, l);
    case _ =>
  }

  lemma InvUnfold(s: State)
    requires Inv(s)
    ensures TablesAreSound(s) && AcceptorFacts(s) && LoopFacts(s) && EveryConnectionIsOwned(s) && DescriptorsAreOwn(s)
  {
  }

  /** Whatever the interleaving, a handler that gives up finds and erases its own
      connection. */
  lemma DeletionFindsItsOwnConnection(reactors: nat, run: seq<Action>, l: nat)
    requires l < |After(reactors, run).loopers| && After(reactors, run).loopers[l].loop.Deleting?
    ensures var s := After(reactors, run);
            var h := s.loopers[l].loop;
            && h.at == l && h.fd in s.loopers[l].connections && s.loopers[l].connections[h.fd] == h.p
            && h.p !in DoErase(s, l, h).conns && DoErase(s, l, h).conns.Keys == s.conns.Keys - {h.p}
  {
    hide After, Inv, DoErase;
    var s := After(reactors, run);
    AfterIsSound(reactors, run);
    EraseFindsItself(s, l);
    InvUnfold(s);
    DeleterIsTheOwner(s, l);
    EraseIs(s, l);
  }

  /** Every live connection is owned exactly once: by the accept callback, or by the
      map of exactly one looper under its own descriptor. */
  lemma EachConnectionHasOneOwner(reactors: nat, run: seq<Action>, p: Ptr)
    requires p in After(reactors, run).conns
    ensures var s := After(reactors, run);
            (AcceptorHolds(s, p) &&
             forall l, fd :: 0 <= l < |s.loopers| && fd in s.loopers[l].connections ==>
               s.loopers[l].connections[fd] != p)
            || (!AcceptorHolds(s, p) &&
                exists l: nat :: l < |s.loopers| && OnlyIn(s, l, s.conns[p].fd, p))
  {
    hide After, Inv, TablesAreSound, AcceptorFacts, LoopFacts, DescriptorsAreOwn, OnlyIn, AcceptorHolds;
    var s := After(reactors, run);
    AfterIsSound(reactors, run);
    InvUnfold(s);
    assert AcceptorHolds(s, p) <==> !InMap(s, p);
    forall l, fd | 0 <= l < |s.loopers| && fd in s.loopers[l].connections && s.loopers[l].connections[fd] == p
      ensures InMap(s, p) {
      EntryTellsOwner(s, l, fd);
    }
    if InMap(s, p) {
      OnlyUnderItsOwner(s, p);
    }
  }

  lemma EntryTellsOwner(s: State, l: nat, fd: Fd)
    requires TablesAreSound(s) && l < |s.loopers| && fd in s.loopers[l].connections
    ensures var p := s.loopers[l].connections[fd];
            p in s.conns && s.conns[p] == Conn(fd, Some(l)) && InMap(s, p)
  {
    MapEntryIsRegistered(s, l, fd);
  }

  lemma OnlyUnderItsOwner(s: State, p: Ptr)
    requires TablesAreSound(s) && InMap(s, p)
    ensures OnlyIn(s, OwnerOf(s, p), s.conns[p].fd, p)
  {
    forall k, f | 0 <= k < |s.loopers| && f in s.loopers[k].connections
      ensures s.loopers[k].connections[f] == p <==> k == OwnerOf(s, p) && f == s.conns[p].fd {
      EntryTellsOwner(s, k, f);
    }
  }

  /** `p` stands in the map of looper `l` under `fd` and nowhere else. */
  ghost predicate OnlyIn(s: State, l: nat, fd: Fd, p: Ptr) {
    forall k, f :: 0 <= k < |s.loopers| && f in s.loopers[k].connections ==>
      (s.loopers[k].connections[f] == p <==> k == l && f == fd)
  }

  /** A registered pointer is alive and belongs to the looper that polls it, and
      `epoll_ctl` and the map never meet an entry that is already there. */
  lemma RegistrationsAreSound(reactors: nat, run: seq<Action>)
    ensures var s := After(reactors, run);
            && (forall l, fd :: 0 <= l < |s.loopers| && fd in s.loopers[l].registered ==>
                  Owns(s, l, fd, s.loopers[l].registered[fd]))
            && (s.acceptor.Adding? ==> HasOwner(s, s.acceptor.p) && Unregistered(s, s.acceptor.p))
            && (s.acceptor.Registering? ==>
                  HasOwner(s, s.acceptor.p)
                  && s.conns[s.acceptor.p].fd !in s.loopers[OwnerOf(s, s.acceptor.p)].connections)
  {
    hide After, Inv;
    var s := After(reactors, run);
    AfterIsSound(reactors, run);
    InvUnfold(s);
    if s.acceptor.Registering? {
      InsertFindsNoEntry(s, s.acceptor.p);
    }
  }
}
