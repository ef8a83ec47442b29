/** Many calls of the request handler, on many connections that share one cache:
    what each connection sends in its whole life. */
module Serving {
  import opened Strings
  import opened HttpUtils
  import opened Framing
  import opened Responses
  import opened Client
  import opened Replies
  import opened Session
  import opened Connections
  import opened Caching
  import opened Server
  import Lru

  /** One call of the handler: for which connection, and the kernel's answers. */
  datatype Call = Call(k: nat, recv: seq<RecvResult>, sends: seq<SendResult>)

  datatype Phase = Open | Deleted | InReceive | InSend

  /** A connection between calls.  The last two phases are those of a call that has
      not come back from its loop around the system call. */
  datatype Life = Life(phase: Phase, buffer: string, served: nat, stream: string)

  const NEWBORN := Life(Open, "", 0, "")

  /** What a call makes of a connection, by the session model alone. */
  function Called(w: World, l: Life, c: Call): Life {
    if !l.phase.Open? then l
    else
      var e := Receiving(c.recv);
      if !e.returned then l.(phase := InReceive)
      else if e.exit then l.(phase := Deleted)
      else
        var t := Handle(w, State(l.buffer, l.served, [], false), e.data);
        var sent := SendAll(Texts(t.replies), c.sends);
        var stream := l.stream + sent.stream;
        if sent.outcome.StillTrying? then l.(phase := InSend, stream := stream)
        else Life(if t.closed then Deleted else Open, t.buffer, t.served, stream)
  }

  function Lived(w: World, l: Life, calls: seq<Call>): Life
    decreases calls
  {
    if calls == [] then l else Lived(w, Called(w, l, calls[0]), calls[1..])
  }

  /** The calls made for connection `k`, in order. */
  function CallsOf(calls: seq<Call>, k: nat): seq<Call> {
    if calls == [] then [] else CallsOf(calls[..|calls| - 1], k) + Only(calls[|calls| - 1], k)
  }

  function Only(c: Call, k: nat): seq<Call> {
    if c.k == k then [c] else []
  }

  function LifeOf(w: World, calls: seq<Call>, k: nat): Life {
    Lived(w, NEWBORN, CallsOf(calls, k))
  }

  lemma {:induction false} LivedConcat(w: World, l: Life, a: seq<Call>, b: seq<Call>)
    ensures Lived(w, l, a + b) == Lived(w, Lived(w, l, a), b)
    decreases a
  {
    hide Called;
    if a == [] {
      assert a + b == b;
    } else {
      assert (a + b)[0] == a[0] && (a + b)[1..] == a[1..] + b;
      LivedConcat(w, Called(w, l, a[0]), a[1..], b);
    }
  }

  /** One more call changes the connection it is for and no other. */
  lemma LifeStep(w: World, calls: seq<Call>, c: Call, k: nat)
    ensures LifeOf(w, calls + [c], k)
            == if c.k == k then Called(w, LifeOf(w, calls, k), c) else LifeOf(w, calls, k)
  {
    hide Called;
    assert (calls + [c])[..|calls|] == calls;
    LivedConcat(w, NEWBORN, CallsOf(calls, k), Only(c, k));
    assert Lived(w, LifeOf(w, calls, k), Only(c, k))
        == if c.k == k then Called(w, LifeOf(w, calls, k), c) else LifeOf(w, calls, k) by {
      assert [c][1..] == [];
    }
  }

  // ----------------------------------------------------- What a life puts out

  /** What arrives in the calls up to the first that does not come back from
      receiving or finds the client gone. */
  function Arrivals(calls: seq<Call>): seq<string> {
    if calls == [] then []
    else
      var e := Receiving(calls[0].recv);
      if !e.returned || e.exit then [] else [e.data] + Arrivals(calls[1..])
  }

  ghost predicate NoFatalCall(calls: seq<Call>) {
    forall i :: 0 <= i < |calls| ==> NoFatal(calls[i].sends)
  }

  lemma {:induction false} LifeIsOver(w: World, l: Life, calls: seq<Call>)
    requires !l.phase.Open?
    ensures Lived(w, l, calls) == l
    decreases calls
  {
    if calls != [] {
      LifeIsOver(w, l, calls[1..]);
    }
  }

  /** How a life can stand after these calls, whose arrivals were owed these replies. */
  ghost predicate EndsIn(phase: Phase, calls: seq<Call>, rs: seq<Reply>) {
    var n := |Arrivals(calls)|;
    && n <= |calls|
    && match phase
       case Open => n == |calls| && !Finishes(rs)
       case Deleted => Finishes(rs) || (n < |calls| && Receiving(calls[n].recv).exit)
       case InReceive => n < |calls| && !Receiving(calls[n].recv).returned && !Finishes(rs)
       case InSend => rs != []
  }

  lemma EndsLater(phase: Phase, calls: seq<Call>, a: seq<Reply>, b: seq<Reply>)
    requires calls != [] && Receiving(calls[0].recv).returned && !Receiving(calls[0].recv).exit
    requires !Finishes(a) && EndsIn(phase, calls[1..], b)
    ensures EndsIn(phase, calls, a + b)
  {
    hide Receiving, Finishes;
    FinishesOfConcat(a, b);
    var n := |Arrivals(calls[1..])|;
    assert n < |calls| - 1 ==> calls[1..][n] == calls[n + 1];
  }

  lemma {:induction false} ArrivalsAtMost(calls: seq<Call>)
    ensures |Arrivals(calls)| <= |calls|
  {
    if calls != [] {
      ArrivalsAtMost(calls[1..]);
    }
  }

  /** `sent` are pieces of the replies in order. */
  ghost predicate Carries(sent: string, rs: seq<Reply>, complete: bool, lossless: bool) {
    exists ps :: InPieces(ps, Texts(rs), complete, lossless) && sent == Concat(ps)
  }

  lemma NothingCarried(lossless: bool)
    ensures Carries("", [], true, lossless)
  {
    assert InPieces([], Texts([]), true, lossless) && Concat([]) == "";
  }

  lemma {:induction false} ConcatOfConcat(a: seq<string>, b: seq<string>)
    ensures Concat(a + b) == Concat(a) + Concat(b)
  {
    if a == [] {
      assert a + b == b;
    } else {
      assert (a + b)[1..] == a[1..] + b;
      ConcatOfConcat(a[1..], b);
      Assoc(a[0], Concat(a[1..]), Concat(b));
    }
  }

  lemma CarriesMore(s: string, t: string, a: seq<Reply>, b: seq<Reply>, complete: bool, lossless: bool)
    requires Carries(s, a, true, lossless) && Carries(t, b, complete, lossless)
    ensures Carries(s + t, a + b, complete, lossless)
  {
    hide InPieces, Concat, Bytes;
    var ps :| InPieces(ps, Texts(a), true, lossless) && s == Concat(ps);
    var qs :| InPieces(qs, Texts(b), complete, lossless) && t == Concat(qs);
    assert Texts(a + b) == Texts(a) + Texts(b);
    PiecesConcat(ps, Texts(a), qs, Texts(b), complete, lossless);
    ConcatOfConcat(ps, qs);
  }

  lemma PiecesConcat(ps: seq<string>, a: seq<string>, qs: seq<string>, b: seq<string>, complete: bool, lossless: bool)
    requires InPieces(ps, a, true, lossless) && InPieces(qs, b, complete, lossless)
    ensures InPieces(ps + qs, a + b, complete, lossless)
  {
    forall i | 0 <= i < |ps + qs|
      ensures (ps + qs)[i] <= (a + b)[i]
      ensures lossless && (complete || i + 1 < |ps + qs|) ==> (ps + qs)[i] == (a + b)[i] {
      if i < |ps| {
        assert (ps + qs)[i] == ps[i] && (a + b)[i] == a[i];
      } else {
        assert (ps + qs)[i] == qs[i - |ps|] && (a + b)[i] == b[i - |ps|];
      }
    }
  }

  lemma CarriesPrefix(s: string, a: seq<Reply>, b: seq<Reply>, lossless: bool)
    requires Carries(s, a, false, lossless)
    ensures Carries(s, a + b, false, lossless)
  {
    var ps :| InPieces(ps, Texts(a), false, lossless) && s == Concat(ps);
    assert forall i :: 0 <= i < |a| ==> Texts(a + b)[i] == Texts(a)[i];
    assert InPieces(ps, Texts(a + b), false, lossless);
  }

  /** The stream grew by pieces of the replies. */
  ghost predicate Grew(before: string, after: string, rs: seq<Reply>, complete: bool, lossless: bool) {
    exists more :: after == before + more && Carries(more, rs, complete, lossless)
  }

  lemma GrewBy(before: string, more: string, rs: seq<Reply>, complete: bool, lossless: bool)
    requires Carries(more, rs, complete, lossless)
    ensures Grew(before, before + more, rs, complete, lossless)
  {
  }

  lemma GrewNot(before: string, lossless: bool)
    ensures Grew(before, before, [], true, lossless)
  {
    NothingCarried(lossless);
    GrewBy(before, "", [], true, lossless);
    assert before + "" == before;
  }

  lemma GrewMore(x: string, s: string, z: string, a: seq<Reply>, b: seq<Reply>, complete: bool, lossless: bool)
    requires Carries(s, a, true, lossless) && Grew(x + s, z, b, complete, lossless)
    ensures Grew(x, z, a + b, complete, lossless)
  {
    hide Carries;
    var t :| z == x + s + t && Carries(t, b, complete, lossless);
    CarriesMore(s, t, a, b, complete, lossless);
    Assoc(x, s, t);
    GrewBy(x, s + t, a + b, complete, lossless);
  }

  /** What one call puts out. */
  lemma CallCarries(rs: seq<Reply>, results: seq<SendResult>, lossless: bool)
    requires lossless ==> NoFatal(results)
    ensures var sent := SendAll(Texts(rs), results);
            Carries(sent.stream, rs, !sent.outcome.StillTrying?, lossless)
  {
    hide SendAll, Pieces, Concat, NoFatal;
    SendsInPieces(Texts(rs), results);
    var sent := SendAll(Texts(rs), results);
    assert InPieces(Pieces(Texts(rs), results), Texts(rs), !sent.outcome.StillTrying?, lossless);
  }

  lemma SendingMeansReplies(rs: seq<Reply>, results: seq<SendResult>)
    ensures SendAll(Texts(rs), results).outcome.StillTrying? ==> rs != []
  {
  }

  lemma TailOfCalls(calls: seq<Call>)
    requires calls != [] && NoFatalCall(calls)
    ensures NoFatal(calls[0].sends) && NoFatalCall(calls[1..])
  {
  }

  lemma NothingFinishes()
    ensures !Finishes([])
  {
  }

  /** From any point of an open life: what is sent from there on. */
  lemma {:induction false} LifeFrom(w: World, l: Life, calls: seq<Call>, lossless: bool)
    requires l.phase.Open? && !Contains(l.buffer, BLANK_LINE) && (lossless ==> NoFatalCall(calls))
    ensures var end := Lived(w, l, calls);
            var rs := Serve(w, l.served, Frames(l.buffer + Concat(Arrivals(calls))));
            && Grew(l.stream, end.stream, rs, !end.phase.InSend?, lossless)
            && EndsIn(end.phase, calls, rs)
    decreases calls, 1
  {
    hide Serve, SendAll, Frames, Leftover, Contains, Carries, Grew, Receiving, NoFatalCall, NoFatal, Texts, Finishes;
    assert l.buffer + "" == l.buffer;
    NoFramesInside(l.buffer);
    ServeNotEmpty(w, l.served, []);
    NothingFinishes();
    ArrivalsAtMost(calls);
    GrewNot(l.stream, lossless);
    if calls != [] {
      var c := calls[0];
      var e := Receiving(c.recv);
      if !e.returned || e.exit {
        LifeIsOver(w, Called(w, l, c), calls[1..]);
      } else {
        AnsweredCall(w, l, calls, lossless);
      }
    }
  }

  /** The case of a call that answers what arrived. */
  lemma {:induction false} AnsweredCall(w: World, l: Life, calls: seq<Call>, lossless: bool)
    requires l.phase.Open? && !Contains(l.buffer, BLANK_LINE) && (lossless ==> NoFatalCall(calls))
    requires calls != [] && Receiving(calls[0].recv).returned && !Receiving(calls[0].recv).exit
    ensures var end := Lived(w, l, calls);
            var rs := Serve(w, l.served, Frames(l.buffer + Concat(Arrivals(calls))));
            && Grew(l.stream, end.stream, rs, !end.phase.InSend?, lossless)
            && EndsIn(end.phase, calls, rs)
    decreases calls, 0
  {
    hide Serve, SendAll, Frames, Leftover, Contains, Carries, Grew, Receiving, NoFatalCall, NoFatal, Texts, Finishes;
    var c, e, rest := calls[0], Receiving(calls[0].recv), calls[1..];
    if lossless {
      TailOfCalls(calls);
    }
    var all, more := l.buffer + e.data, Concat(Arrivals(rest));
    Assoc(l.buffer, e.data, more);
    CutEarlyOrLate(all, more);
    ServeConcat(w, l.served, Frames(all), Frames(Leftover(all) + more));
    var rs := Serve(w, l.served, Frames(all));
    assert [] + rs == rs;
    CallCarries(rs, c.sends, lossless);
    SendingMeansReplies(rs, c.sends);
    var t := Called(w, l, c);
    var sent := SendAll(Texts(rs), c.sends);
    var later := Serve(w, t.served, Frames(t.buffer + more));
    ArrivalsAtMost(calls);
    if !t.phase.Open? {
      LifeIsOver(w, t, rest);
      GrewBy(l.stream, sent.stream, rs, !t.phase.InSend?, lossless);
      if t.phase.InSend? {
        CarriesPrefix(sent.stream, rs, Serve(w, l.served + |Frames(all)|, Frames(Leftover(all) + more)), lossless);
        GrewBy(l.stream, sent.stream,
               rs + Serve(w, l.served + |Frames(all)|, Frames(Leftover(all) + more)), false, lossless);
      }
    } else {
      LeftoverHasNoBlankLine(all);
      LifeFrom(w, t, rest, lossless);
      EndsLater(Lived(w, t, rest).phase, calls, rs, later);
      GrewMore(l.stream, sent.stream, Lived(w, t, rest).stream, rs, later,
               !Lived(w, t, rest).phase.InSend?, lossless);
    }
  }

  /** Whatever the cache held, whatever the other connections did, and however the
      kernel cut the bytes both ways: the socket has pieces of the replies to the
      frames of the whole stream, in order; all of them, unless a call still sends;
      and whole ones, unless the kernel failed for good.  The connection is deleted
      when a reply finished or the client was found gone, and for nothing else. */
  lemma LifeCarriesTheReplies(w: World, calls: seq<Call>, k: nat)
    ensures var mine := CallsOf(calls, k);
            var l := LifeOf(w, calls, k);
            var rs := Serve(w, 0, Frames(Concat(Arrivals(mine))));
            && Carries(l.stream, rs, !l.phase.InSend?, NoFatalCall(mine))
            && EndsIn(l.phase, mine, rs)
  {
    hide Finishes, Serve, Frames, Lived, Arrivals, Concat, NoFatalCall, Contains, Carries;
    var mine := CallsOf(calls, k);
    NoBlankLineInEmpty();
    LifeFrom(w, NEWBORN, mine, NoFatalCall(mine));
    assert "" + Concat(Arrivals(mine)) == Concat(Arrivals(mine));
    assert "" + LifeOf(w, calls, k).stream == LifeOf(w, calls, k).stream;
    var more :| LifeOf(w, calls, k).stream == "" + more
                && Carries(more, Serve(w, 0, Frames(Concat(Arrivals(mine)))),
                           !LifeOf(w, calls, k).phase.InSend?, NoFatalCall(mine));
    assert "" + more == more;
  }

  /** Without a fatal answer: a prefix of the replies, and all of them once no call
      is still sending. */
  lemma LifeSendsTheReplies(w: World, calls: seq<Call>, k: nat)
    requires NoFatalCall(CallsOf(calls, k))
    ensures var l := LifeOf(w, calls, k);
            var ms := Messages(Serve(w, 0, Frames(Concat(Arrivals(CallsOf(calls, k))))));
            && l.stream <= AllBytes(ms)
            && (!l.phase.InSend? ==> l.stream == AllBytes(ms))
  {
    hide Serve, Frames, Lived, Arrivals, Concat, NoFatalCall, InPieces, AllBytes;
    LifeCarriesTheReplies(w, calls, k);
    var l := LifeOf(w, calls, k);
    var rs := Serve(w, 0, Frames(Concat(Arrivals(CallsOf(calls, k)))));
    var ps :| InPieces(ps, Texts(rs), !l.phase.InSend?, true) && l.stream == Concat(ps);
    LosslessPieces(ps, Texts(rs), !l.phase.InSend?);
    TextsAreBytes(rs);
  }

  // ---------------------------------------------------------------- The server

  ghost function Parts(c: Connection): set<object> {
    {c, c.readBuffer, c.writeBuffer}
  }

  /** No two connections share a buffer. */
  ghost predicate Apart(conns: seq<Connection>) {
    forall j, k :: 0 <= j < k < |conns| ==> Parts(conns[j]) !! Parts(conns[k])
  }

  /** The object agrees with the life; of a connection that is not open only the
      bytes sent matter. */
  ghost predicate Matches(conn: Connection, l: Life, phase: Phase, served: nat)
    reads Parts(conn)
  {
    && conn.Valid() && conn.stream == l.stream && phase == l.phase
    && (l.phase.Open? ==> conn.readBuffer.buf == l.buffer && conn.writeBuffer.buf == "" && served == l.served)
  }

  /** One call on one connection. */
  method CallHandler(w: World, cache: Cache, conn: Connection, c: Call, phase: Phase, served: nat, clock: nat -> int,
                     ghost l: Life)
    returns (newPhase: Phase, next: nat)
    requires CacheIsTrue(cache, w.files) && Matches(conn, l, phase, served)
    modifies cache, cache.spine, Parts(conn)
    ensures CacheIsTrue(cache, w.files)
    ensures forall j :: 0 <= j < |cache.spine| ==> cache.spine[j] in old(cache.spine) || fresh(cache.spine[j])
    ensures Matches(conn, Called(w, l, c), newPhase, next)
  {
    hide CacheIsTrue, Handle, Receiving, SendAll, Texts;
    newPhase, next := phase, served;
    if phase.Open? {
      var deleted, waiting;
      deleted, waiting, next := ProcessHttpRequest(w, cache, conn, c.recv, c.sends, served, clock);
      newPhase := if waiting then (if Receiving(c.recv).returned then InSend else InReceive)
                  else if deleted then Deleted else Open;
    }
  }

  /** The same call seen among all the connections: the others are as before. */
  method CallAmong(w: World, cache: Cache, conns: seq<Connection>, c: Call, phase: Phase, served: nat,
                   clock: nat -> int, ghost lives: seq<Life>, ghost phases: seq<Phase>, ghost counts: seq<nat>)
    returns (newPhase: Phase, next: nat)
    requires |lives| == |phases| == |counts| == |conns| && Apart(conns) && c.k < |conns|
    requires CacheIsTrue(cache, w.files) && phase == phases[c.k] && served == counts[c.k]
    requires forall k :: 0 <= k < |conns| ==> Matches(conns[k], lives[k], phases[k], counts[k])
    modifies cache, cache.spine, Parts(conns[c.k])
    ensures CacheIsTrue(cache, w.files)
    ensures forall j :: 0 <= j < |cache.spine| ==> cache.spine[j] in old(cache.spine) || fresh(cache.spine[j])
    ensures Matches(conns[c.k], Called(w, lives[c.k], c), newPhase, next)
    ensures forall k :: 0 <= k < |conns| && k != c.k ==> Matches(conns[k], lives[k], phases[k], counts[k])
  {
    hide CacheIsTrue, Called, Matches, Apart;
    OthersAreApart(conns, c.k);
    newPhase, next := CallHandler(w, cache, conns[c.k], c, phase, served, clock, lives[c.k]);
  }

  /** The accepted connections. */
  method Accept(n: nat) returns (conns: seq<Connection>)
    ensures |conns| == n && Apart(conns)
    ensures forall k :: 0 <= k < n ==> fresh(Parts(conns[k])) && Matches(conns[k], NEWBORN, Open, 0)
  {
    conns := [];
    for i := 0 to n
      invariant |conns| == i && Apart(conns)
      invariant forall k :: 0 <= k < i ==> fresh(Parts(conns[k])) && Matches(conns[k], NEWBORN, Open, 0)
    {
      var conn := new Connection();
      conns := conns + [conn];
    }
  }

  /** Any calls of the handler, in any order, on connections that share one cache:
      each connection sends what its own calls make it send, as if it were alone and
      there were no cache. */
  method ServeCalls(ws: seq<World>, files: Files, capacity: nat, calls: seq<Call>, clock: (nat, nat) -> int)
    returns (conns: seq<Connection>)
    requires capacity < SIZE_MODULUS
    requires forall k :: 0 <= k < |ws| ==> ws[k].files == files
    requires forall i :: 0 <= i < |calls| ==> calls[i].k < |ws|
    ensures |conns| == |ws|
    ensures forall k :: 0 <= k < |ws| ==> conns[k].stream == LifeOf(ws[k], calls, k).stream
  {
    hide Called, Lived, CacheIsTrue, LifeOf, Matches, Apart, Cache.Valid;
    var cache := new Cache(capacity, clock(0, 0));
    NewCacheIsTrue(cache, files);
    conns := Accept(|ws|);
    var phases := seq(|ws|, _ => Open);
    var served: seq<nat> := seq(|ws|, _ => 0);
    forall k | 0 <= k < |ws| ensures LifeOf(ws[k], calls[..0], k) == NEWBORN {
      NotCalledYet(ws[k], k);
    }
    assert forall k :: 0 <= k < |ws| ==> phases[k] == Open && served[k] == 0;
    for i := 0 to |calls|
      invariant |phases| == |served| == |conns| == |ws| && Apart(conns)
      invariant CacheIsTrue(cache, files) && fresh(cache)
      invariant forall j :: 0 <= j < |cache.spine| ==> fresh(cache.spine[j])
      invariant forall k :: 0 <= k < |ws| ==> fresh(Parts(conns[k]))
      invariant forall k :: 0 <= k < |ws| ==> Matches(conns[k], LifeOf(ws[k], calls[..i], k), phases[k], served[k])
    {
      var c := calls[i];
      ghost var lives := Lives(ws, calls[..i]);
      var phase, next := CallAmong(ws[c.k], cache, conns, c, phases[c.k], served[c.k], (n: nat) => clock(i, n),
                                   lives, phases, served);
      phases, served := phases[c.k := phase], served[c.k := next];
      assert calls[..i + 1] == calls[..i] + [c];
      forall k | 0 <= k < |ws|
        ensures Matches(conns[k], LifeOf(ws[k], calls[..i + 1], k), phases[k], served[k]) {
        LifeStep(ws[k], calls[..i], c, k);
      }
    }
    assert calls[..|calls|] == calls;
    forall k | 0 <= k < |ws| ensures conns[k].stream == LifeOf(ws[k], calls, k).stream {
      MatchingStream(conns[k], LifeOf(ws[k], calls, k), phases[k], served[k]);
    }
  }

  lemma OthersAreApart(conns: seq<Connection>, k: nat)
    requires Apart(conns) && k < |conns|
    ensures forall j :: 0 <= j < |conns| && j != k ==> Parts(conns[j]) !! Parts(conns[k])
  {
  }

  lemma MatchingStream(conn: Connection, l: Life, phase: Phase, served: nat)
    requires Matches(conn, l, phase, served)
    ensures conn.stream == l.stream
  {
  }

  function Lives(ws: seq<World>, calls: seq<Call>): (ls: seq<Life>)
    ensures |ls| == |ws| && forall k :: 0 <= k < |ws| ==> ls[k] == LifeOf(ws[k], calls, k)
  {
    seq(|ws|, k requires 0 <= k < |ws| => LifeOf(ws[k], calls, k))
  }

  lemma NotCalledYet(w: World, k: nat)
    ensures LifeOf(w, [], k) == NEWBORN
  {
  }

  lemma NewCacheIsTrue(cache: Cache, files: Files)
    requires cache.Valid() && cache.contents == []
    ensures CacheIsTrue(cache, files)
  {
  }
}
