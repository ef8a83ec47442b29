/** What the requests of a connection are answered, told by the requests' bytes and
    the files alone: bodies, headers, and when the connection ends. */
module Answers {
  import opened Strings
  import opened HttpUtils
  import opened Words
  import opened Framing
  import opened Headers
  import opened Requests
  import opened RequestRoundTrip
  import opened Responses
  import opened Client
  import opened Replies
  import opened Session
  import Decimal

  /** Where the resource of a valid request is looked for. */
  function PathOf(w: World, frame: string): string {
    w.directory + Read(frame).url
  }

  // -------------------------------------------------------------------- Bodies

  /** The body a client is owed for the i-th request: the file, the program's
      output, or nothing. */
  ghost predicate OwedBody(w: World, i: nat, frame: string, body: string) {
    var path := PathOf(w, frame);
    if !Read(frame).valid || !HasResource(w, path) then body == ""
    else if Contains(path, "cgi-bin") then body == w.cgi(i, path)
    else body == if Read(frame).meth == GET then w.files[path] else ""
  }

  lemma BodyIsOwed(w: World, i: nat, frame: string)
    ensures OwedBody(w, i, frame, ReplyTo(w, i, frame).m.body)
  {
    hide Read, HasResource, HeadersOf, Changed, CgiProgram, IsCgi, Contains, Decimal.Print;
    var path := PathOf(w, frame);
    ResourceIff(w, path);
    CgiIff(path);
    if IsCgi(path) {
      CgiRunnerIsAlwaysValid(path);
    }
  }

  /** Over a whole connection: as long as no earlier HEAD got a body, the client that
      has read `n` replies has the owed body of each, and stands before the bytes of
      the next reply. */
  lemma ClientGetsTheBodies(w: World, chunks: seq<string>, n: nat, k: nat)
    requires k < n <= |HandleAll(w, FRESH, chunks).replies|
    requires n <= |Frames(Concat(chunks))| && NoBodyForHead(w, Frames(Concat(chunks)), n)
    ensures var frames := Frames(Concat(chunks));
            var ms := Messages(HandleAll(w, FRESH, chunks).replies);
            && ReadAll(AllBytes(ms), Heads(frames, n)) == GotAll(ms[..n], AllBytes(ms[n..]))
            && OwedBody(w, k, frames[k], ms[k].body)
  {
    hide HandleAll, ReplyTo, Frames, Serve, OwedBody, HeadGetsBody, IsHead, Announced, ReadAll, AllBytes;
    RepliesDoNotDependOnChunks(w, chunks);
    var frames := Frames(Concat(chunks));
    var rs := Serve(w, 0, frames);
    var ms, hs := Messages(rs), Heads(frames, n);
    forall j | 0 <= j < n ensures Announced(ms[..n][j], hs[j]) {
      ServeAt(w, 0, frames, j);
      ReplyIsAnnounced(w, j, frames[j]);
    }
    ReadAllBack(ms[..n], hs, AllBytes(ms[n..]));
    AllBytesConcat(ms[..n], ms[n..]);
    assert ms[..n] + ms[n..] == ms;
    ServeAt(w, 0, frames, k);
    BodyIsOwed(w, k, frames[k]);
  }

  lemma {:induction false} AllBytesConcat(a: seq<Message>, b: seq<Message>)
    ensures AllBytes(a + b) == AllBytes(a) + AllBytes(b)
  {
    hide Bytes;
    if a == [] {
      assert a + b == b;
    } else {
      assert (a + b)[1..] == a[1..] + b;
      AllBytesConcat(a[1..], b);
      Assoc(Bytes(a[0]), AllBytes(a[1..]), AllBytes(b));
    }
  }

  // --------------------------------------------------------- When it is closed

  /** The request is valid, what it names is there, and it asks to go on. */
  ghost predicate MayGoOn(w: World, frame: string) {
    Read(frame).valid && HasResource(w, PathOf(w, frame)) && SomeLineAsks(frame)
  }

  /** A reply leaves the connection open exactly then: an error always closes. */
  lemma GoesOnIff(w: World, i: nat, frame: string)
    ensures !ReplyTo(w, i, frame).finish <==> MayGoOn(w, frame)
  {
    hide Read, HasResource, SomeLineAsks, HeadersOf, Changed, CgiProgram, IsCgi, Contains, Decimal.Print;
    var path := PathOf(w, frame);
    ResourceIff(w, path);
    if IsCgi(path) {
      CgiRunnerIsAlwaysValid(path);
    }
    if Read(frame).valid {
      KeptIffSomeHeaderAsks(frame);
    }
  }

  /** How many of the frames get a reply: those up to the first that ends it. */
  ghost predicate ServedCount(w: World, frames: seq<string>, n: nat) {
    && n <= |frames|
    && (forall j :: 0 <= j < n - 1 ==> MayGoOn(w, frames[j]))
    && (n < |frames| ==> n > 0 && !MayGoOn(w, frames[n - 1]))
  }

  /** The connection is deleted exactly when some frame of its byte stream is invalid,
      names nothing that is there, or does not ask to go on; the first such frame is
      the last that is answered. */
  lemma ClosedIff(w: World, chunks: seq<string>)
    ensures var t := HandleAll(w, FRESH, chunks);
            var frames := Frames(Concat(chunks));
            && (t.closed <==> exists k :: 0 <= k < |frames| && !MayGoOn(w, frames[k]))
            && ServedCount(w, frames, |t.replies|)
  {
    hide HandleAll, ReplyTo, Frames, Serve, MayGoOn;
    RepliesDoNotDependOnChunks(w, chunks);
    var frames := Frames(Concat(chunks));
    var rs := Serve(w, 0, frames);
    ServeNotEmpty(w, 0, frames);
    ServeLength(w, 0, frames);
    forall k | 0 <= k < |rs|
      ensures !rs[k].finish <==> MayGoOn(w, frames[k])
      ensures k + 1 < |rs| ==> !rs[k].finish
      ensures k + 1 == |rs| && k + 1 < |frames| ==> rs[k].finish {
      ServeAt(w, 0, frames, k);
      GoesOnIff(w, k, frames[k]);
    }
    if Finishes(rs) {
      assert !MayGoOn(w, frames[|rs| - 1]);
    }
  }

  // ------------------------------------------------------------------ Its type

  /** The type that goes with the text after the last dot of a file's name. */
  ghost predicate TypeFor(extension: string, mime: string) {
    if Spells(extension, "HTML") then mime == "text/html"
    else if Spells(extension, "CSS") then mime == "text/css"
    else if Spells(extension, "PNG") then mime == "image/png"
    else if Spells(extension, "JPG") then mime == "image/jpg"
    else if Spells(extension, "JPEG") then mime == "image/jpeg"
    else if Spells(extension, "GIF") then mime == "image/gif"
    else mime == "application/octet-stream"
  }

  lemma TypeOf(extension: string)
    ensures TypeFor(extension, ExtensionToMime(ToExtension(extension)))
  {
    hide Spells, ToExtension, ExtensionToMime;
    MimeIff(extension);
  }

  lemma LastDotAt(path: string, k: nat)
    requires k < |path| && path[k] == '.' && '.' !in path[k + 1..]
    ensures LastDot(path) == Some(k)
  {
    hide LastDot;
    forall i | k < i < |path| ensures path[i] != '.' {
      assert path[i] == path[k + 1..][i - k - 1];
    }
  }

  lemma LastDotIs(base: string, extension: string)
    requires '.' !in extension
    ensures LastDot(base + "." + extension) == Some(|base|)
  {
    hide LastDot;
    var path := base + "." + extension;
    assert path[|base|] == '.' && path[|base| + 1..] == extension;
    LastDotAt(path, |base|);
  }

  /** A file's reply says its size and, when the name has a dot, its type, for a GET
      and for a HEAD alike. */
  lemma FileHeaders(w: World, i: nat, frame: string, base: string, extension: string)
    requires Read(frame).valid && PathOf(w, frame) in w.files && !Contains(PathOf(w, frame), "cgi-bin")
    ensures var hs := ReplyTo(w, i, frame).m.headers;
            var path := PathOf(w, frame);
            && |hs| >= 3 && hs[2] == MakeHeader("Content-Length", Decimal.Print(|w.files[path]|))
            && (path == base + "." + extension && '.' !in extension ==>
                  |hs| == 4 && hs[3].key == "Content-Type" && TypeFor(extension, hs[3].value))
            && ('.' !in path ==> |hs| == 3)
  {
    hide Read, Contains, IsCgi, LastDot, ToExtension, ExtensionToMime, TypeFor, Decimal.Print;
    var path := PathOf(w, frame);
    CgiIff(path);
    TypeOf(extension);
    if path == base + "." + extension && '.' !in extension {
      LastDotIs(base, extension);
      assert path[|base| + 1..] == extension;
    }
  }

  // ------------------------------------------------------- From end to end

  /** What a client asks for. */
  datatype Wish = Wish(target: string, headers: seq<Header>)

  /** A GET that the server can parse, with a header that asks to go on, for a file
      that is there. */
  ghost predicate Granted(w: World, q: Wish) {
    var path := w.directory + Route(q.target);
    && ' ' !in q.target && '\r' !in q.target
    && (forall i :: 0 <= i < |q.headers| ==> Writable(q.headers[i]))
    && (exists i :: 0 <= i < |q.headers| && AsksToKeep(q.headers[i]))
    && path in w.files && !Contains(path, "cgi-bin")
  }

  function Asking(q: Wish): string {
    Write(GET, q.target, q.headers)
  }

  function Askings(qs: seq<Wish>): (frames: seq<string>)
    ensures |frames| == |qs| && forall i :: 0 <= i < |qs| ==> frames[i] == Asking(qs[i])
  {
    seq(|qs|, i requires 0 <= i < |qs| => Asking(qs[i]))
  }

  lemma GrantedIsRead(w: World, q: Wish)
    requires Granted(w, q)
    ensures var p := Read(Asking(q)); p.valid && p.meth == GET && p.url == Route(q.target) && !p.shouldClose
  {
    hide Read, Write, Writable, AsksToKeep, KeepsAlive, Route;
    ReadOfWrite(GET, q.target, q.headers);
    var i :| 0 <= i < |q.headers| && AsksToKeep(q.headers[i]);
    KeepsAliveIff(q.headers[i]);
  }

  lemma GrantedIsAnswered(w: World, i: nat, q: Wish)
    requires Granted(w, q)
    ensures var r := ReplyTo(w, i, Asking(q));
            && !r.finish && r.m.statusLine == "HTTP/1.1 200 OK" && r.m.body == w.files[w.directory + Route(q.target)]
            && !IsHead(Asking(q)) && !HeadGetsBody(w, i, Asking(q))
  {
    hide Read, Asking, HeadersOf, Contains, IsCgi, CgiProgram, Route;
    GrantedIsRead(w, q);
    StatusLinesAre();
    CgiIff(w.directory + Route(q.target));
  }

  lemma {:induction false} AllAreServed(w: World, i: nat, frames: seq<string>)
    requires forall k :: 0 <= k < |frames| ==> !ReplyTo(w, i + k, frames[k]).finish
    ensures |Serve(w, i, frames)| == |frames|
    decreases frames
  {
    hide ReplyTo;
    if frames != [] {
      assert forall k :: 0 <= k < |frames| - 1 ==> frames[1..][k] == frames[k + 1];
      assert forall k :: 0 <= k < |frames| - 1 ==>
          !ReplyTo(w, i + 1 + k, frames[1..][k]).finish by {
        forall k | 0 <= k < |frames| - 1 ensures !ReplyTo(w, i + 1 + k, frames[1..][k]).finish {
          assert i + 1 + k == i + (k + 1);
        }
      }
      AllAreServed(w, i + 1, frames[1..]);
    }
  }

  /** A client that asks for files that are there, in any number and cut into chunks
      in any way, reads back exactly one 200 for each, in order, with the bytes of the
      file, and the connection stays open. */
  lemma ClientGetsItsFiles(w: World, qs: seq<Wish>, chunks: seq<string>)
    requires forall k :: 0 <= k < |qs| ==> Granted(w, qs[k])
    requires Concat(chunks) == Concat(Askings(qs))
    ensures var t := HandleAll(w, FRESH, chunks);
            var got := ReadAll(AllBytes(Messages(t.replies)), seq(|qs|, _ => false));
            && !t.closed && got.GotAll? && got.rest == "" && |got.ms| == |qs|
            && forall k :: 0 <= k < |qs| ==>
                 && got.ms[k].statusLine == "HTTP/1.1 200 OK"
                 && w.directory + Route(qs[k].target) in w.files
                 && got.ms[k].body == w.files[w.directory + Route(qs[k].target)]
  {
    hide HandleAll, ReplyTo, Frames, Serve, Granted, Asking, Read, IsHead, HeadGetsBody, Announced, AllBytes, ReadAll,
         Concat;
    var frames := Askings(qs);
    FramesOfWishes(w, qs, chunks);
    RepliesDoNotDependOnChunks(w, chunks);
    var rs := Serve(w, 0, frames);
    forall k | 0 <= k < |frames|
      ensures !ReplyTo(w, 0 + k, frames[k]).finish && !IsHead(frames[k]) && !HeadGetsBody(w, k, frames[k]) {
      GrantedIsAnswered(w, k, qs[k]);
    }
    AllAreServed(w, 0, frames);
    ReadsIff(w, frames);
    assert Heads(frames, |rs|) == seq(|qs|, _ => false);
    forall k | 0 <= k < |qs| ensures rs[k] == ReplyTo(w, k, Asking(qs[k])) {
      ServeAt(w, 0, frames, k);
    }
    forall k | 0 <= k < |qs|
      ensures Messages(rs)[k].statusLine == "HTTP/1.1 200 OK"
      ensures w.directory + Route(qs[k].target) in w.files
      ensures Messages(rs)[k].body == w.files[w.directory + Route(qs[k].target)] {
      GrantedHasFile(w, qs[k]);
      GrantedIsAnswered(w, k, qs[k]);
    }
  }

  lemma GrantedHasFile(w: World, q: Wish)
    requires Granted(w, q)
    ensures w.directory + Route(q.target) in w.files
  {
  }

  lemma FramesOfWishes(w: World, qs: seq<Wish>, chunks: seq<string>)
    requires forall k :: 0 <= k < |qs| ==> Granted(w, qs[k])
    requires Concat(chunks) == Concat(Askings(qs))
    ensures Frames(Concat(chunks)) == Askings(qs)
  {
    hide Frames, Leftover, Concat, Granted, Asking, Read;
    forall k | 0 <= k < |qs| ensures Read(Askings(qs)[k]).valid {
      GrantedIsRead(w, qs[k]);
    }
    ValidRequestsAreRecovered(Askings(qs), "");
    NoBlankLineInEmpty();
    NoFramesInside("");
    assert Concat(Askings(qs)) + "" == Concat(Askings(qs));
    assert Askings(qs) + [] == Askings(qs);
  }
}
