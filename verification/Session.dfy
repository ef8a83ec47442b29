/** The replies of one connection over its whole life, however its bytes arrive. */
module Session {
  import opened Strings
  import opened HttpUtils
  import opened Framing
  import opened Headers
  import opened Requests
  import opened Responses
  import opened Client
  import opened Replies
  import Connections
  import Decimal

  /** Replies to a list of frames, the first of which is the `i`-th of the
      connection; a reply that finishes is the last. */
  function Serve(w: World, i: nat, frames: seq<string>): seq<Reply>
    decreases frames
  {
    if frames == [] then []
    else
      var r := ReplyTo(w, i, frames[0]);
      if r.finish then [r] else [r] + Serve(w, i + 1, frames[1..])
  }

  predicate Finishes(rs: seq<Reply>) {
    rs != [] && rs[|rs| - 1].finish
  }

  function Messages(rs: seq<Reply>): (ms: seq<Message>)
    ensures |ms| == |rs| && forall i :: 0 <= i < |rs| ==> ms[i] == rs[i].m
  {
    seq(|rs|, i requires 0 <= i < |rs| => rs[i].m)
  }

  /** A reply as bytes, one after the other. */
  function Texts(rs: seq<Reply>): (ts: seq<string>)
    ensures |ts| == |rs| && forall i :: 0 <= i < |rs| ==> ts[i] == Bytes(rs[i].m)
  {
    seq(|rs|, i requires 0 <= i < |rs| => Bytes(rs[i].m))
  }

  lemma {:induction false} ServeAt(w: World, i: nat, frames: seq<string>, k: nat)
    requires k < |Serve(w, i, frames)|
    ensures |Serve(w, i, frames)| <= |frames|
    ensures Serve(w, i, frames)[k] == ReplyTo(w, i + k, frames[k])
    ensures k + 1 < |Serve(w, i, frames)| ==> !Serve(w, i, frames)[k].finish
    ensures k + 1 == |Serve(w, i, frames)| && k + 1 < |frames| ==> Serve(w, i, frames)[k].finish
    decreases frames
  {
    hide ReplyTo;
    var rs := Serve(w, i, frames);
    if !rs[0].finish && |frames| > 1 {
      var tail := Serve(w, i + 1, frames[1..]);
      ServeNotEmpty(w, i + 1, frames[1..]);
      if k > 0 {
        ServeAt(w, i + 1, frames[1..], k - 1);
      } else {
        ServeAt(w, i + 1, frames[1..], 0);
      }
    }
  }

  lemma ServeNotEmpty(w: World, i: nat, frames: seq<string>)
    ensures Serve(w, i, frames) == [] <==> frames == []
  {
  }

  lemma ServeCons(w: World, i: nat, f: string, fs: seq<string>)
    ensures Serve(w, i, [f] + fs) ==
            if ReplyTo(w, i, f).finish then [ReplyTo(w, i, f)] else [ReplyTo(w, i, f)] + Serve(w, i + 1, fs)
  {
    hide ReplyTo;
    assert ([f] + fs)[1..] == fs;
  }

  lemma FirstOfBatch(f: string, rest: seq<string>, b: seq<string>)
    ensures ([f] + rest) + b == [f] + (rest + b)
  {
  }

  lemma FirstReply(r: Reply, rs: seq<Reply>, more: seq<Reply>)
    ensures [r] + (rs + more) == [r] + rs + more
  {
  }

  lemma ServeConcatCons(w: World, i: nat, f: string, rest: seq<string>, b: seq<string>)
    requires Serve(w, i + 1, rest + b) ==
             if Finishes(Serve(w, i + 1, rest)) then Serve(w, i + 1, rest)
             else Serve(w, i + 1, rest) + Serve(w, i + 1 + |rest|, b)
    ensures var a := [f] + rest;
            Serve(w, i, a + b) ==
            if Finishes(Serve(w, i, a)) then Serve(w, i, a) else Serve(w, i, a) + Serve(w, i + |a|, b)
  {
    hide ReplyTo, Serve, Finishes;
    var r, rs := ReplyTo(w, i, f), Serve(w, i + 1, rest);
    FirstOfBatch(f, rest, b);
    ServeCons(w, i, f, rest);
    ServeCons(w, i, f, rest + b);
    FinishedAtFirst(r, rs);
    assert |[f] + rest| == 1 + |rest|;
    FirstReply(r, rs, Serve(w, i + 1 + |rest|, b));
  }

  /** Serving two batches of frames is serving them as one, unless the first batch
      already finished. */
  lemma {:induction false} ServeConcat(w: World, i: nat, a: seq<string>, b: seq<string>)
    ensures Serve(w, i, a + b) ==
            if Finishes(Serve(w, i, a)) then Serve(w, i, a) else Serve(w, i, a) + Serve(w, i + |a|, b)
    decreases a
  {
    hide ReplyTo, Serve;
    if a == [] {
      assert a + b == b;
      ServeNotEmpty(w, i, a);
      assert [] + Serve(w, i, b) == Serve(w, i, b);
    } else {
      hide Finishes;
      ServeConcat(w, i + 1, a[1..], b);
      ServeConcatCons(w, i, a[0], a[1..], b);
      assert [a[0]] + a[1..] == a;
    }
  }

  lemma FinishedAtFirst(r: Reply, rs: seq<Reply>)
    ensures Finishes([r]) <==> r.finish
    ensures !r.finish ==> (Finishes([r] + rs) <==> Finishes(rs))
  {
  }

  // ------------------------------------------------------ One connection's life

  /** Between two calls of the handler: what is buffered, how many requests were
      served, every reply so far, and whether the connection was deleted. */
  datatype State = State(buffer: string, served: nat, replies: seq<Reply>, closed: bool)

  const FRESH := State("", 0, [], false)

  /** One call of `ProcessHttpRequest` that receives these bytes. */
  function Handle(w: World, s: State, bytes: string): State {
    if s.closed then s
    else
      var all := s.buffer + bytes;
      var rs := Serve(w, s.served, Frames(all));
      State(Leftover(all), s.served + |Frames(all)|, s.replies + rs, Finishes(rs))
  }

  function HandleAll(w: World, s: State, chunks: seq<string>): State
    decreases chunks
  {
    if chunks == [] then s else HandleAll(w, Handle(w, s, chunks[0]), chunks[1..])
  }

  lemma {:induction false} ClosedStays(w: World, s: State, chunks: seq<string>)
    requires s.closed
    ensures HandleAll(w, s, chunks) == s
    decreases chunks
  {
    if chunks != [] {
      ClosedStays(w, s, chunks[1..]);
    }
  }

  /** From any state, the replies to come depend on the bytes to come and not on
      how they are cut. */
  lemma {:induction false} RepliesFrom(w: World, s: State, chunks: seq<string>)
    requires !s.closed && !Contains(s.buffer, BLANK_LINE)
    ensures var t := HandleAll(w, s, chunks);
            var rs := Serve(w, s.served, Frames(s.buffer + Concat(chunks)));
            && t.replies == s.replies + rs && t.closed == Finishes(rs)
            && (!t.closed ==> t.buffer == Leftover(s.buffer + Concat(chunks)))
    decreases chunks
  {
    hide Serve, Frames, Leftover, Contains;
    if chunks == [] {
      assert s.buffer + "" == s.buffer;
      NoFramesInside(s.buffer);
      ServeNotEmpty(w, s.served, []);
    } else {
      var all := s.buffer + chunks[0];
      var more := Concat(chunks[1..]);
      var t := Handle(w, s, chunks[0]);
      Assoc(s.buffer, chunks[0], more);
      CutEarlyOrLate(all, more);
      ServeConcat(w, s.served, Frames(all), Frames(Leftover(all) + more));
      if t.closed {
        ClosedStays(w, t, chunks[1..]);
      } else {
        LeftoverHasNoBlankLine(all);
        RepliesFrom(w, t, chunks[1..]);
        FinishesOfConcat(Serve(w, s.served, Frames(all)), Serve(w, t.served, Frames(t.buffer + more)));
        assert s.replies + Serve(w, s.served, Frames(all)) + Serve(w, t.served, Frames(t.buffer + more))
            == s.replies + (Serve(w, s.served, Frames(all)) + Serve(w, t.served, Frames(t.buffer + more)));
      }
    }
  }

  lemma NoFramesInside(s: string)
    requires !Contains(s, BLANK_LINE)
    ensures Frames(s) == [] && Leftover(s) == s
  {
    FindNone(s, BLANK_LINE);
  }

  lemma FinishesOfConcat(a: seq<Reply>, b: seq<Reply>)
    requires !Finishes(a)
    ensures Finishes(a + b) <==> Finishes(b)
  {
  }

  /** However the client's bytes are cut into receives, the connection sends the
      replies to the frames of the whole stream, up to the first that finishes,
      and is deleted exactly when there is one. */
  lemma RepliesDoNotDependOnChunks(w: World, chunks: seq<string>)
    ensures var t := HandleAll(w, FRESH, chunks);
            var rs := Serve(w, 0, Frames(Concat(chunks)));
            t.replies == rs && t.closed == Finishes(rs)
  {
    hide Serve, Frames, Leftover, HandleAll;
    NoBlankLineInEmpty();
    RepliesFrom(w, FRESH, chunks);
    assert "" + Concat(chunks) == Concat(chunks);
  }

  lemma NoBlankLineInEmpty()
    ensures !Contains("", BLANK_LINE)
  {
  }

  // -------------------------------------------------------- Closing discipline

  /** The value of the Connection header of a reply. */
  predicate SaysClose(r: Reply) {
    |r.m.headers| > 1 && r.m.headers[1] == MakeHeader(CONNECTION, CLOSE)
  }

  predicate SaysKeepAlive(r: Reply) {
    |r.m.headers| > 1 && r.m.headers[1] == MakeHeader(CONNECTION, KEEP_ALIVE)
  }

  /** Every reply before the last says Keep-Alive; a reply says Close exactly when
      it finishes, and then nothing follows and the connection is deleted. */
  lemma ClosingDiscipline(w: World, chunks: seq<string>, k: nat)
    requires k < |HandleAll(w, FRESH, chunks).replies|
    ensures var t := HandleAll(w, FRESH, chunks);
            && (k + 1 < |t.replies| ==> SaysKeepAlive(t.replies[k]))
            && (SaysClose(t.replies[k]) <==> k + 1 == |t.replies| && t.closed)
            && (SaysClose(t.replies[k]) || SaysKeepAlive(t.replies[k]))
  {
    hide HandleAll, ReplyTo, Frames, Serve, AnnouncedLength, Sound;
    RepliesDoNotDependOnChunks(w, chunks);
    var frames := Frames(Concat(chunks));
    ServeAt(w, 0, frames, k);
    ReplyIsStandard(w, k, frames[k]);
    assert CLOSE != KEEP_ALIVE by {
      assert |CLOSE| != |KEEP_ALIVE|;
    }
  }

  /** A 200 keeps the connection exactly when some header line of its request
      formats to CONNECTION and KEEP-ALIVE, wherever it stands. */
  lemma OkKeepsIffAsked(w: World, i: nat, frame: string)
    requires ReplyTo(w, i, frame).m.statusLine == StatusLine(OK)
    ensures !ReplyTo(w, i, frame).finish <==> SomeLineAsks(frame)
  {
    hide Read, SomeLineAsks, HeadersOf, Changed, IsCgi, CgiProgram;
    StatusesDiffer();
    KeptIffSomeHeaderAsks(frame);
  }

  // ------------------------------------------------------------ End to end

  /** No served request is a HEAD that a CGI program answers with output. */
  ghost predicate NoBodyForHead(w: World, frames: seq<string>, n: nat)
    requires n <= |frames|
  {
    forall k :: 0 <= k < n ==> !HeadGetsBody(w, k, frames[k])
  }

  /** Which of the first `n` requests were HEADs. */
  function Heads(frames: seq<string>, n: nat): (hs: seq<bool>)
    requires n <= |frames|
    ensures |hs| == n && forall i :: 0 <= i < n ==> hs[i] == IsHead(frames[i])
  {
    seq(n, i requires 0 <= i < n => IsHead(frames[i]))
  }

  lemma {:induction false} ServeLength(w: World, i: nat, frames: seq<string>)
    ensures |Serve(w, i, frames)| <= |frames|
    decreases frames
  {
    hide ReplyTo;
    if frames != [] {
      ServeLength(w, i + 1, frames[1..]);
    }
  }

  /** The client, knowing which requests were HEADs, reads off the socket exactly
      the replies that were sent, or exactly what it is to see of them, with no byte
      left over, if and only if no HEAD got a body. */
  lemma ClientReadsTheRepliesIff(w: World, chunks: seq<string>)
    ensures var rs := HandleAll(w, FRESH, chunks).replies;
            var frames := Frames(Concat(chunks));
            && |rs| <= |frames|
            && var ms, hs := Messages(rs), Heads(frames, |rs|);
            && (ReadAll(AllBytes(ms), hs) == GotAll(ms, "") <==> NoBodyForHead(w, frames, |rs|))
            && (ReadAll(AllBytes(ms), hs) == GotAll(Seen(ms, hs), "") <==> NoBodyForHead(w, frames, |rs|))
  {
    hide HandleAll, ReplyTo, Frames, Serve, HeadGetsBody, IsHead, NoBodyForHead;
    RepliesDoNotDependOnChunks(w, chunks);
    var frames := Frames(Concat(chunks));
    ServeLength(w, 0, frames);
    ReadsIff(w, frames);
  }

  lemma ReadsIff(w: World, frames: seq<string>)
    ensures var rs := Serve(w, 0, frames);
            && |rs| <= |frames|
            && var ms, hs := Messages(rs), Heads(frames, |rs|);
            && (ReadAll(AllBytes(ms), hs) == GotAll(ms, "") <==> NoBodyForHead(w, frames, |rs|))
            && (ReadAll(AllBytes(ms), hs) == GotAll(Seen(ms, hs), "") <==> NoBodyForHead(w, frames, |rs|))
  {
    hide ReplyTo, Serve, HeadGetsBody, IsHead, Announced, AllBytes, ReadAll;
    var rs := Serve(w, 0, frames);
    ServeLength(w, 0, frames);
    var n := |rs|;
    var ms, hs := Messages(rs), Heads(frames, n);
    var seen := Seen(ms, hs);
    forall k | 0 <= k < n
      ensures Announced(seen[k], hs[k])
      ensures seen[k] == ms[k] <==> !HeadGetsBody(w, k, frames[k])
      ensures hs[k] || seen[k] == ms[k] {
      ServeAt(w, 0, frames, k);
      SeenIsAnnounced(w, k, frames[k]);
      HeadGetsBodyIff(w, k, frames[k]);
    }
    assert seen == ms <==> NoBodyForHead(w, frames, n);
    SeenBytes(ms, hs);
    ReadsIffBytes(AllBytes(ms), seen, hs, "");
    assert AllBytes(seen) + "" == AllBytes(seen);
    if seen != ms {
      var k :| 0 <= k < n && seen[k] != ms[k];
      NoBodyIsRead(AllBytes(ms), hs, k);
    }
  }

  /** After a HEAD the client reads no body. */
  lemma {:induction false} NoBodyIsRead(stream: string, bodyless: seq<bool>, k: nat)
    requires k < |bodyless| && bodyless[k]
    ensures var r := ReadAll(stream, bodyless);
            r.GotAll? ==> |r.ms| == |bodyless| && r.ms[k].body == ""
    decreases bodyless
  {
    hide Tokens, Find, Fields;
    match ReadOne(stream, bodyless[0])
    case Failed =>
    case Got(m, rest) =>
      ReadAllLength(rest, bodyless[1..]);
      if k > 0 {
        NoBodyIsRead(rest, bodyless[1..], k - 1);
      }
  }

  lemma {:induction false} ReadAllLength(stream: string, bodyless: seq<bool>)
    ensures ReadAll(stream, bodyless).GotAll? ==> |ReadAll(stream, bodyless).ms| == |bodyless|
    decreases bodyless
  {
    hide ReadOne;
    if bodyless != [] && ReadOne(stream, bodyless[0]).Got? {
      ReadAllLength(ReadOne(stream, bodyless[0]).rest, bodyless[1..]);
    }
  }

  lemma {:induction false} TextsAreBytes(rs: seq<Reply>)
    ensures Concat(Texts(rs)) == AllBytes(Messages(rs))
  {
    hide Bytes;
    if rs != [] {
      TextsAreBytes(rs[1..]);
      assert Texts(rs)[1..] == Texts(rs[1..]) && Messages(rs)[1..] == Messages(rs[1..]);
    }
  }

  /** From the client's bytes to the socket: however they arrive, and whatever the
      kernel answers, the socket carries a start of each reply, in order; without a
      fatal answer, a prefix of the replies' bytes, and all of them once every send
      returned. */
  lemma SocketCarriesTheReplies(w: World, chunks: seq<string>, results: seq<Connections.SendResult>)
    ensures var rs := Serve(w, 0, Frames(Concat(chunks)));
            var sent := Connections.SendAll(Texts(HandleAll(w, FRESH, chunks).replies), results);
            && (exists ps :: sent.stream == Concat(ps)
                  && Connections.InPieces(ps, Texts(rs), !sent.outcome.StillTrying?, Connections.NoFatal(results)))
            && (Connections.NoFatal(results) ==>
                  && sent.stream <= AllBytes(Messages(rs))
                  && (sent.outcome.Delivered? ==> sent.stream == AllBytes(Messages(rs))))
  {
    hide HandleAll, Serve, Frames, Concat, AllBytes;
    hide Connections.SendAll, Connections.Pieces, Connections.InPieces, Connections.NoFatal;
    RepliesDoNotDependOnChunks(w, chunks);
    var rs := Serve(w, 0, Frames(Concat(chunks)));
    TextsAreBytes(rs);
    Connections.SendsInPieces(Texts(rs), results);
    if Connections.NoFatal(results) {
      Connections.InOrderWithoutGaps(Texts(rs), results);
    }
  }
}
