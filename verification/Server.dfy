/** `demo/http-server/http_server.cc`: the request handler, with its cache, its
    connection and its response buffers, proved to send what `Session.dfy` says. */
module Server {
  import opened Strings
  import opened HttpUtils
  import opened Framing
  import opened Headers
  import opened Requests
  import opened Responses
  import opened Client
  import opened Replies
  import opened Session
  import opened Connections
  import opened Caching
  import Lru
  import Decimal

  /** The bytes of a file, as the cache is to hold them. */
  function FileOf(files: Files): string -> string {
    path => if path in files then files[path] else ""
  }

  /** Every cached entry equals its file. */
  ghost predicate CacheIsTrue(cache: Cache, files: Files)
    reads cache, cache.spine
  {
    cache.Valid() && Lru.Coherent(cache.contents, FileOf(files))
  }

  /** The cache after a file was fetched through it: used once more, or, after a
      miss, offered. */
  function Fetched(s: seq<Lru.Entry>, capacity: nat, path: string, data: string, t0: int, t1: int): seq<Lru.Entry> {
    if Lru.IndexOf(s, path).Some? then Lru.Load(s, path, t0) else Lru.Insert(s, capacity, path, data, t1)
  }

  /** What answering a frame does to the cache: only the GET of a file fetches it. */
  function CacheAfter(w: World, frame: string, s: seq<Lru.Entry>, capacity: nat, t0: int, t1: int): seq<Lru.Entry> {
    var q := Read(frame);
    var path := w.directory + q.url;
    if q.valid && q.meth == GET && !IsCgi(path) && path in w.files
    then Fetched(s, capacity, path, w.files[path], t0, t1) else s
  }

  /** A file through the cache: found there, or loaded and offered to it. */
  method LoadThroughCache(cache: Cache, files: Files, path: string, t0: int, t1: int) returns (data: string)
    requires CacheIsTrue(cache, files) && path in files
    modifies cache, cache.spine
    ensures CacheIsTrue(cache, files)
    ensures forall n :: n in cache.spine ==> n in old(cache.spine) || fresh(n)
    ensures data == files[path]
    ensures cache.contents == Fetched(old(cache.contents), cache.capacity, path, files[path], t0, t1)
  {
    hide Lru.TotalSize, Lru.Evict, Cache.Chained, Cache.Indexed, Cache.Described;
    var found, buf := cache.TryLoad(path, "", t0);
    Lru.LoadIsCoherent(old(cache.contents), path, t0, FileOf(files));
    if found {
      data := buf;
      assert data == old(cache.contents)[Lru.IndexOf(old(cache.contents), path).value].data;
    } else {
      data := buf + files[path];
      assert data == files[path] == FileOf(files)(path);
      ghost var before := cache.contents;
      assert forall j :: 0 <= j < |cache.spine| ==> cache.spine[j] in old(cache.spine);
      var _ := cache.TryInsert(path, data, t1);
      Lru.InsertIsCoherent(before, cache.capacity, path, t1, FileOf(files));
    }
  }

  method HandleStaticResourceRequest(w: World, q: Parsed, path: string, cache: Cache, t0: int, t1: int, buffer: string)
    returns (shouldFinish: bool, r: string)
    requires CacheIsTrue(cache, w.files)
    modifies cache, cache.spine
    ensures CacheIsTrue(cache, w.files)
    ensures forall n :: n in cache.spine ==> n in old(cache.spine) || fresh(n)
    ensures r == buffer + Bytes(StaticReply(w, q, path).m) && shouldFinish == StaticReply(w, q, path).finish
    ensures cache.contents == if q.meth == GET && path in w.files
                              then Fetched(old(cache.contents), cache.capacity, path, w.files[path], t0, t1)
                              else old(cache.contents)
  {
    hide CacheIsTrue, HeadersOf, HeaderText, Fetched;
    if path !in w.files {
      r := PutError(NOT_FOUND, buffer, w.files);
      return true, r;
    }
    var response := new Response(OK, q.shouldClose, Some(path), w.files);
    r := response.Serialize(buffer);
    var data := "";
    if q.meth == GET {
      data := LoadThroughCache(cache, w.files, path, t0, t1);
    }
    BytesOf(buffer, StaticReply(w, q, path).m);
    r := r + data;
    shouldFinish := q.shouldClose;
  }

  /** A reply's bytes after what the buffer already holds. */
  lemma BytesOf(buffer: string, m: Message)
    ensures buffer + Bytes(m) == buffer + m.statusLine + CRLF + HeaderText(m.headers) + CRLF + m.body
  {
    var head := m.statusLine + CRLF + HeaderText(m.headers) + CRLF;
    assert buffer + Bytes(m) == buffer + head + m.body;
    assert buffer + m.statusLine + CRLF + HeaderText(m.headers) + CRLF == buffer + head;
  }

  /** A reply without a resource that closes the connection. */
  method PutError(status: string, buffer: string, files: Files) returns (r: string)
    ensures r == buffer + Bytes(ErrorReply(status).m)
  {
    hide HeaderText;
    var response := new Response(status, true, None, files);
    r := response.Serialize(buffer);
    BytesOf(buffer, ErrorReply(status).m);
    assert r + "" == r;
  }

  method HandleCGIRequest(w: World, i: nat, q: Parsed, path: string, buffer: string)
    returns (shouldFinish: bool, r: string)
    ensures r == buffer + Bytes(CgiReply(w, i, q, path).m) && shouldFinish == CgiReply(w, i, q, path).finish
  {
    hide HeadersOf, HeaderText, Changed, CgiProgram;
    var runner := CgiProgram(path);
    if runner.None? {
      r := PutError(BAD_REQUEST, buffer, w.files);
      return true, r;
    }
    if runner.value !in w.files {
      r := PutError(NOT_FOUND, buffer, w.files);
      return true, r;
    }
    var result := w.cgi(i, path);
    var response := new Response(OK, q.shouldClose, None, w.files);
    var _ := response.ChangeHeader(CONTENT_LENGTH, Decimal.Print(|result|));
    r := response.Serialize(buffer);
    r := r + result;
    BytesOf(buffer, CgiReply(w, i, q, path).m);
    shouldFinish := q.shouldClose;
  }

  /** One turn of the request loop: from a frame to the bytes of its reply. */
  method Answer(w: World, i: nat, frame: string, cache: Cache, t0: int, t1: int)
    returns (finished: bool, responseBuf: string)
    requires CacheIsTrue(cache, w.files)
    modifies cache, cache.spine
    ensures CacheIsTrue(cache, w.files)
    ensures forall n :: n in cache.spine ==> n in old(cache.spine) || fresh(n)
    ensures responseBuf == Bytes(ReplyTo(w, i, frame).m) && finished == ReplyTo(w, i, frame).finish
    ensures cache.contents == CacheAfter(w, frame, old(cache.contents), cache.capacity, t0, t1)
  {
    hide Fetched, CacheIsTrue, Read, StaticReply, CgiReply, Bytes, HeaderText;
    var request := new Request.Deserialize(frame);
    var q := request.State();
    responseBuf := "";
    if !q.valid {
      responseBuf := PutError(BAD_REQUEST, "", w.files);
      finished := true;
    } else {
      var path := w.directory + q.url;
      if IsCgi(path) {
        finished, responseBuf := HandleCGIRequest(w, i, q, path, "");
      } else {
        finished, responseBuf := HandleStaticResourceRequest(w, q, path, cache, t0, t1, "");
      }
    }
  }

  // ------------------------------------------------------------ The request loop

  /** Frames still to answer: the one just popped and those in the buffer. */
  function Pending(frame: Option<string>, buf: string): seq<string> {
    match frame
    case None => []
    case Some(f) => [f] + Frames(buf)
  }

  lemma PopIsPending(before: string, frame: Option<string>, after: string)
    requires frame.None? ==> !Contains(before, BLANK_LINE) && after == before
    requires frame.Some? ==>
               before == frame.value + after && Find(before, BLANK_LINE) == Some(|frame.value| - |BLANK_LINE|)
    ensures Frames(before) == Pending(frame, after) && Leftover(before) == Leftover(after)
    ensures frame.None? ==> Leftover(before) == before
  {
    hide Find, Contains;
    if frame.Some? {
      var n := |frame.value| - |BLANK_LINE|;
      FramesUnfold(before, n);
      LeftoverUnfold(before, n);
      assert before[..n + 4] == frame.value && before[n + 4..] == after;
    } else {
      NoFramesInside(before);
    }
  }

  /** Replies and what sending them does, one reply at a time. */
  lemma OneReply(w: World, i: nat, f: string, fs: seq<string>, results: seq<SendResult>)
    ensures var r := ReplyTo(w, i, f);
            var more := if r.finish then [] else Serve(w, i + 1, fs);
            var e := Sending(Bytes(r.m), results);
            && Serve(w, i, [f] + fs) == [r] + more
            && (Finishes([r] + more) <==> r.finish || Finishes(more))
            && SendAll(Texts([r] + more), results) ==
               if e.outcome.StillTrying? then Rounds(Bytes(r.m)[..e.sent], StillTrying, [])
               else
                 var s := SendAll(Texts(more), e.rest);
                 Rounds(Bytes(r.m)[..e.sent] + s.stream, Worse(e.outcome, s.outcome), s.rest)
  {
    hide ReplyTo, Bytes, Sending;
    assert ([f] + fs)[1..] == fs;
    var r := ReplyTo(w, i, f);
    var more := if r.finish then [] else Serve(w, i + 1, fs);
    ServeNotEmpty(w, i + 1, fs);
    assert Texts([r] + more)[1..] == Texts(more);
  }

  /** What one call of the handler owes, told before it starts. */
  ghost predicate Owed(w: World, i: nat, frames: seq<string>, results: seq<SendResult>,
                       stream: string, worst: Outcome, total: string, outcome: Outcome)
  {
    var s := SendAll(Texts(Serve(w, i, frames)), results);
    stream + s.stream == total && Worse(worst, s.outcome) == outcome
  }

  lemma OwedAtStart(w: World, i: nat, frames: seq<string>, results: seq<SendResult>, stream: string)
    ensures var s := SendAll(Texts(Serve(w, i, frames)), results);
            Owed(w, i, frames, results, stream, Delivered, stream + s.stream, s.outcome)
  {
  }

  lemma OwedAtEnd(w: World, i: nat, results: seq<SendResult>, stream: string, worst: Outcome,
                  total: string, outcome: Outcome)
    requires Owed(w, i, [], results, stream, worst, total, outcome)
    ensures stream == total && outcome == worst
  {
    assert stream + "" == stream;
  }

  /** Sending one reply moves its bytes from what is owed to the socket. */
  lemma OwedStep(w: World, i: nat, f: string, fs: seq<string>, results: seq<SendResult>,
                 stream: string, worst: Outcome, total: string, outcome: Outcome)
    requires Owed(w, i, [f] + fs, results, stream, worst, total, outcome)
    ensures var r := ReplyTo(w, i, f);
            var e := Sending(Bytes(r.m), results);
            var sent := stream + Bytes(r.m)[..e.sent];
            if e.outcome.StillTrying? then sent == total && outcome.StillTrying?
            else Owed(w, i + 1, if r.finish then [] else fs, e.rest, sent, Worse(worst, e.outcome), total, outcome)
  {
    hide ReplyTo, Bytes, Sending, Serve, SendAll;
    var r := ReplyTo(w, i, f);
    var e := Sending(Bytes(r.m), results);
    OneReply(w, i, f, fs, results);
    EmptyServe(w, i + 1);
    if !e.outcome.StillTrying? {
      var s := SendAll(Texts(if r.finish then [] else Serve(w, i + 1, fs)), e.rest);
      Assoc(stream, Bytes(r.m)[..e.sent], s.stream);
    }
  }

  lemma EmptyServe(w: World, i: nat)
    ensures Serve(w, i, []) == []
  {
  }

  /** One turn of the loop: answer, write, send. */
  method Turn(w: World, i: nat, frame: string, cache: Cache, conn: Connection, sends: seq<SendResult>, t0: int, t1: int)
    returns (finished: bool, outcome: Outcome, rest: seq<SendResult>)
    requires CacheIsTrue(cache, w.files) && conn.Valid() && conn.writeBuffer.buf == ""
    modifies cache, cache.spine, conn`stream, conn.writeBuffer
    ensures CacheIsTrue(cache, w.files)
    ensures forall n :: n in cache.spine ==> n in old(cache.spine) || fresh(n)
    ensures var r := ReplyTo(w, i, frame);
            var e := Sending(Bytes(r.m), sends);
            && finished == r.finish && outcome == e.outcome && rest == e.rest
            && conn.stream == old(conn.stream) + Bytes(r.m)[..e.sent]
            && (!outcome.StillTrying? ==> conn.writeBuffer.buf == "")
  {
    hide CacheIsTrue, ReplyTo, Bytes, Sending;
    var responseBuf;
    finished, responseBuf := Answer(w, i, frame, cache, t0, t1);
    conn.Write(responseBuf);
    assert conn.writeBuffer.buf == responseBuf;
    outcome, rest := conn.Send(sends);
  }

  /** The loop over the frames in the read buffer. */
  method AnswerFrames(w: World, cache: Cache, conn: Connection, sends: seq<SendResult>, served: nat, clock: nat -> int)
    returns (finished: bool, waiting: bool, next: nat)
    requires CacheIsTrue(cache, w.files) && conn.Valid() && conn.writeBuffer.buf == ""
    modifies cache, cache.spine, conn`stream, conn.readBuffer, conn.writeBuffer
    ensures CacheIsTrue(cache, w.files)
    ensures forall n :: n in cache.spine ==> n in old(cache.spine) || fresh(n)
    ensures var frames := Frames(old(conn.readBuffer.buf));
            var rs := Serve(w, served, frames);
            var sent := SendAll(Texts(rs), sends);
            && conn.stream == old(conn.stream) + sent.stream
            && waiting == sent.outcome.StillTrying?
            && (!waiting ==> finished == Finishes(rs) && conn.writeBuffer.buf == "")
            && (!waiting && !finished ==>
                  conn.readBuffer.buf == Leftover(old(conn.readBuffer.buf)) && next == served + |frames|)
  {
    hide CacheIsTrue, ReplyTo, Bytes, Sending, Serve, SendAll, Frames, Leftover, Contains, Find, Owed, Texts;
    ghost var all := conn.readBuffer.buf;
    ghost var rs := Serve(w, served, Frames(all));
    ghost var sent := SendAll(Texts(rs), sends);
    ghost var total := conn.stream + sent.stream;
    ghost var worst := Delivered;
    OwedAtStart(w, served, Frames(all), sends, conn.stream);
    finished, waiting, next := false, false, served;
    var rest := sends;
    var frame := conn.readBuffer.FindAndPopTill(BLANK_LINE);
    PopIsPending(all, frame, conn.readBuffer.buf);
    while frame.Some?
      invariant CacheIsTrue(cache, w.files) && conn.Valid() && conn.writeBuffer.buf == "" && !finished && !waiting
      invariant forall n :: n in cache.spine ==> n in old(cache.spine) || fresh(n)
      invariant Owed(w, next, Pending(frame, conn.readBuffer.buf), rest, conn.stream, worst, total, sent.outcome)
      invariant !worst.StillTrying?
      invariant Finishes(rs) <==> Finishes(Serve(w, next, Pending(frame, conn.readBuffer.buf)))
      invariant next + |Pending(frame, conn.readBuffer.buf)| == served + |Frames(all)|
      invariant Leftover(conn.readBuffer.buf) == Leftover(all)
      invariant frame.None? ==> Leftover(conn.readBuffer.buf) == conn.readBuffer.buf
      decreases |Pending(frame, conn.readBuffer.buf)|
    {
      ghost var fs, before := Frames(conn.readBuffer.buf), cache.spine;
      OneReply(w, next, frame.value, fs, rest);
      OwedStep(w, next, frame.value, fs, rest, conn.stream, worst, total, sent.outcome);
      assert forall j :: 0 <= j < |before| ==> before[j] in old(cache.spine) || fresh(before[j]);
      var outcome;
      finished, outcome, rest := Turn(w, next, frame.value, cache, conn, rest, clock(2 * next), clock(2 * next + 1));
      assert forall n :: n in cache.spine ==> n in before || fresh(n);
      if outcome.StillTrying? {
        waiting := true;
        return;
      }
      worst := Worse(worst, outcome);
      next := next + 1;
      if finished {
        OwedAtEnd(w, next, rest, conn.stream, worst, total, sent.outcome);
        return;
      }
      ghost var buf := conn.readBuffer.buf;
      frame := conn.readBuffer.FindAndPopTill(BLANK_LINE);
      PopIsPending(buf, frame, conn.readBuffer.buf);
    }
    OwedAtEnd(w, next, rest, conn.stream, worst, total, sent.outcome);
    EmptyServe(w, next);
  }

  /** `ProcessHttpRequest`: one call sends exactly the replies of `Session.Handle`
      to the bytes received, as far as the kernel takes them; the cache stays true
      to the files and leaves no trace in the replies.  `waiting` says that the
      call is still inside a system-call loop when the given answers end. */
  method ProcessHttpRequest(w: World, cache: Cache, conn: Connection, recv: seq<RecvResult>, sends: seq<SendResult>,
                            served: nat, clock: nat -> int)
    returns (deleted: bool, waiting: bool, next: nat)
    requires CacheIsTrue(cache, w.files) && conn.Valid() && conn.writeBuffer.buf == ""
    modifies cache, cache.spine, conn`stream, conn.readBuffer, conn.writeBuffer
    ensures CacheIsTrue(cache, w.files)
    ensures forall n :: n in cache.spine ==> n in old(cache.spine) || fresh(n)
    ensures !Receiving(recv).returned ==> waiting && !deleted && conn.stream == old(conn.stream)
    ensures Receiving(recv).returned && Receiving(recv).exit ==> deleted && !waiting && conn.stream == old(conn.stream)
    ensures Receiving(recv).returned && !Receiving(recv).exit ==>
              var t := Handle(w, State(old(conn.readBuffer.buf), served, [], false), Receiving(recv).data);
              var sent := SendAll(Texts(t.replies), sends);
              && conn.stream == old(conn.stream) + sent.stream
              && waiting == sent.outcome.StillTrying?
              && (!waiting ==> deleted == t.closed && conn.writeBuffer.buf == "")
              && (!waiting && !deleted ==> conn.readBuffer.buf == t.buffer && next == t.served)
  {
    hide CacheIsTrue, Serve, SendAll, Frames, Leftover, Receiving, Texts, Finishes;
    var exit, returned := conn.Receive(recv);
    if !returned {
      return false, true, served;
    }
    if exit {
      return true, false, served;
    }
    ghost var rs := Serve(w, served, Frames(conn.readBuffer.buf));
    assert [] + rs == rs;
    deleted, waiting, next := AnswerFrames(w, cache, conn, sends, served, clock);
  }
}
