/** What the demo server (`demo/http-server/http_server.cc`) answers to one frame,
    told without any cache, and what every answer looks like. */
module Replies {
  import opened Strings
  import opened HttpUtils
  import opened Framing
  import opened Headers
  import opened Requests
  import opened Responses
  import opened Client
  import Decimal

  const CGI_FOLDER := "cgi-bin"
  const SEPARATOR := "&"

  /** What surrounds the server: the directory served, the files, and what the
      i-th request of a connection gets from a CGI program. */
  datatype World = World(directory: string, files: Files, cgi: (nat, string) -> string)

  datatype Reply = Reply(m: Message, finish: bool)

  predicate IsCgi(path: string) {
    Find(path, CGI_FOLDER).Some?
  }

  /** `CGIRunner::ParseCGIRunner`: the path up to the first separator after the
      folder name; `None` is the invalid runner. */
  function CgiProgram(path: string): Option<string> {
    if path == "" || !IsCgi(path) then None
    else match FindFrom(path, SEPARATOR, Find(path, CGI_FOLDER).value)
      case None => Some(path)
      case Some(k) => Some(path[..k])
  }

  function ErrorReply(status: string): Reply {
    Reply(Message(StatusLine(status), HeadersOf(true, None, map[]), ""), true)
  }

  function StaticReply(w: World, q: Parsed, path: string): Reply {
    if path !in w.files then ErrorReply(NOT_FOUND)
    else
      Reply(Message(StatusLine(OK), HeadersOf(q.shouldClose, Some(path), w.files),
                    if q.meth == GET then w.files[path] else ""), q.shouldClose)
  }

  function CgiReply(w: World, i: nat, q: Parsed, path: string): Reply {
    match CgiProgram(path)
    case None => ErrorReply(BAD_REQUEST)
    case Some(program) =>
      if program !in w.files then ErrorReply(NOT_FOUND)
      else
        var result := w.cgi(i, path);
        Reply(Message(StatusLine(OK),
                      Changed(HeadersOf(q.shouldClose, None, w.files), CONTENT_LENGTH, Decimal.Print(|result|)),
                      result), q.shouldClose)
  }

  /** The answer to the i-th frame of a connection. */
  function ReplyTo(w: World, i: nat, frame: string): Reply {
    var q := Read(frame);
    if !q.valid then ErrorReply(BAD_REQUEST)
    else
      var path := w.directory + q.url;
      if IsCgi(path) then CgiReply(w, i, q, path) else StaticReply(w, q, path)
  }

  /** The request is a HEAD. */
  predicate IsHead(frame: string) {
    Read(frame).valid && Read(frame).meth == HEAD
  }

  // --------------------------------------------------------- Shape of a reply

  /** Server, Connection, Content-Length, and possibly Content-Type. */
  ghost predicate StandardHeaders(hs: seq<Header>, shouldClose: bool, length: nat) {
    && |hs| >= 3
    && hs[0] == MakeHeader(SERVER, SERVER_NAME)
    && hs[1] == MakeHeader(CONNECTION, ConnectionValue(shouldClose))
    && hs[2] == MakeHeader(CONTENT_LENGTH, Decimal.Print(length))
    && AllSound(hs)
  }

  lemma DecimalIsSound(n: nat)
    ensures Sound(MakeHeader(CONTENT_LENGTH, Decimal.Print(n)))
  {
    Decimal.PrintIsDigits(n);
    var s := Decimal.Print(n);
    assert forall c :: c in s ==> '0' <= c <= '9';
  }

  lemma ServerHeaderIsSound()
    ensures Sound(MakeHeader(SERVER, SERVER_NAME))
  {
  }

  lemma ConnectionHeaderIsSound(shouldClose: bool)
    ensures Sound(MakeHeader(CONNECTION, ConnectionValue(shouldClose)))
  {
    if shouldClose {
      assert ConnectionValue(shouldClose) == "Close";
    } else {
      assert ConnectionValue(shouldClose) == "Keep-Alive";
    }
  }

  lemma MimeIsPlain(e: Extension)
    ensures '\r' !in ExtensionToMime(e)
  {
    match e
    case HTML => assert ExtensionToMime(e) == "text/html";
    case CSS => assert ExtensionToMime(e) == "text/css";
    case PNG => assert ExtensionToMime(e) == "image/png";
    case JPG => assert ExtensionToMime(e) == "image/jpg";
    case JPEG => assert ExtensionToMime(e) == "image/jpeg";
    case GIF => assert ExtensionToMime(e) == "image/gif";
    case OCTET => assert ExtensionToMime(e) == "application/octet-stream";
  }

  lemma TypeHeaderIsSound(e: Extension)
    ensures Sound(MakeHeader(CONTENT_TYPE, ExtensionToMime(e)))
  {
    hide ExtensionToMime;
    MimeIsPlain(e);
  }

  lemma HeadersAreStandard(shouldClose: bool, resource: Option<string>, files: Files)
    ensures StandardHeaders(HeadersOf(shouldClose, resource, files), shouldClose,
                            if resource.Some? && resource.value in files then |files[resource.value]| else 0)
  {
    hide Sound, LastDot, ToExtension, ExtensionToMime, Decimal.Print;
    var n := if resource.Some? && resource.value in files then |files[resource.value]| else 0;
    DecimalIsSound(n);
    ZeroPrints();
    ServerHeaderIsSound();
    ConnectionHeaderIsSound(shouldClose);
    if resource.Some? && resource.value in files {
      var dot := LastDot(resource.value);
      if dot.Some? {
        TypeHeaderIsSound(ToExtension(resource.value[dot.value + 1..]));
      }
    }
  }

  lemma ZeroPrints()
    ensures Decimal.Print(0) == "0"
  {
  }

  lemma ChangedStaysStandard(hs: seq<Header>, shouldClose: bool, n: nat, k: nat)
    requires StandardHeaders(hs, shouldClose, n)
    ensures StandardHeaders(Changed(hs, CONTENT_LENGTH, Decimal.Print(k)), shouldClose, k)
  {
    hide Sound, Decimal.Print, Changed;
    ChangedAt(hs, CONTENT_LENGTH, Decimal.Print(k), 2);
    DecimalIsSound(k);
  }

  lemma StandardLength(hs: seq<Header>, shouldClose: bool, n: nat)
    requires StandardHeaders(hs, shouldClose, n)
    ensures ContentLength(hs) == Some(n)
  {
    hide Sound, Decimal.Print, Decimal.Parse;
    Decimal.ParseOfPrint(n);
    assert hs == [hs[0]] + ([hs[1]] + ([hs[2]] + hs[3..]));
    assert hs[1..] == [hs[1]] + ([hs[2]] + hs[3..]) && hs[1..][1..] == [hs[2]] + hs[3..];
    LengthAt(hs);
  }

  lemma LengthAt(hs: seq<Header>)
    requires |hs| >= 3 && hs[0].key != CONTENT_LENGTH && hs[1].key != CONTENT_LENGTH && hs[2].key == CONTENT_LENGTH
    ensures ContentLength(hs) == Decimal.Parse(hs[2].value)
  {
    hide Decimal.Parse;
    assert hs[1..][0] == hs[1] && hs[1..][1..] == hs[2..] && hs[2..][0] == hs[2];
    assert ContentLength(hs) == ContentLength(hs[1..]) == ContentLength(hs[2..]);
  }

  /** The status line of a reply is one of three. */
  ghost predicate KnownStatus(line: string) {
    line == StatusLine(OK) || line == StatusLine(BAD_REQUEST) || line == StatusLine(NOT_FOUND)
  }

  lemma KnownStatusIsPlain(line: string)
    requires KnownStatus(line)
    ensures '\r' !in line
  {
  }

  /** The length a reply announces. */
  function AnnouncedLength(w: World, i: nat, frame: string): nat {
    var q := Read(frame);
    var path := w.directory + q.url;
    if !q.valid then 0
    else if IsCgi(path) then |ReplyTo(w, i, frame).m.body|
    else if path in w.files then |w.files[path]|
    else 0
  }

  /** Every reply has the standard headers; its Connection header says Close
      exactly when the server is about to drop the connection. */
  lemma ReplyIsStandard(w: World, i: nat, frame: string)
    ensures var r := ReplyTo(w, i, frame);
            && KnownStatus(r.m.statusLine)
            && StandardHeaders(r.m.headers, r.finish, AnnouncedLength(w, i, frame))
  {
    hide Read, StandardHeaders, HeadersOf, Changed, CgiProgram, IsCgi, Decimal.Print;
    var q := Read(frame);
    var path := w.directory + q.url;
    HeadersAreStandard(true, None, map[]);
    HeadersAreStandard(q.shouldClose, None, w.files);
    HeadersAreStandard(q.shouldClose, Some(path), w.files);
    ChangedStaysStandard(HeadersOf(q.shouldClose, None, w.files), q.shouldClose, 0, |w.cgi(i, path)|);
  }

  /** The body is what Content-Length announces, unless the request is a HEAD. */
  lemma BodyIsAnnounced(w: World, i: nat, frame: string)
    ensures var r := ReplyTo(w, i, frame);
            && (!IsHead(frame) ==> |r.m.body| == AnnouncedLength(w, i, frame))
            && (IsHead(frame) && !IsCgi(w.directory + Read(frame).url) ==> r.m.body == "")
  {
    hide Read, HeadersOf, Changed, CgiProgram, IsCgi, Decimal.Print;
    if Read(frame).valid {
      ValidMethod(frame);
    }
  }

  /** A HEAD on a CGI path whose program exists and prints something. */
  predicate HeadGetsBody(w: World, i: nat, frame: string) {
    var path := w.directory + Read(frame).url;
    && IsHead(frame) && IsCgi(path)
    && CgiProgram(path).Some? && CgiProgram(path).value in w.files
    && w.cgi(i, path) != ""
  }

  lemma HeadGetsBodyIff(w: World, i: nat, frame: string)
    ensures HeadGetsBody(w, i, frame) <==> IsHead(frame) && ReplyTo(w, i, frame).m.body != ""
  {
    hide Read, HeadersOf, Changed, CgiProgram, IsCgi, Decimal.Print;
  }

  /** A client can frame the reply exactly when the request is not such a HEAD. */
  lemma ReplyIsAnnounced(w: World, i: nat, frame: string)
    ensures Announced(ReplyTo(w, i, frame).m, IsHead(frame)) <==> !HeadGetsBody(w, i, frame)
  {
    hide ReplyTo, AnnouncedLength, Sound, IsCgi, HeadGetsBody;
    var r := ReplyTo(w, i, frame);
    HeadGetsBodyIff(w, i, frame);
    ReplyIsStandard(w, i, frame);
    KnownStatusIsPlain(r.m.statusLine);
    StandardLength(r.m.headers, r.finish, AnnouncedLength(w, i, frame));
    BodyIsAnnounced(w, i, frame);
  }

  /** Without the body after a HEAD, every reply could be framed. */
  lemma SeenIsAnnounced(w: World, i: nat, frame: string)
    ensures var m := ReplyTo(w, i, frame).m;
            Announced(if IsHead(frame) then m.(body := "") else m, IsHead(frame))
  {
    hide ReplyTo, AnnouncedLength, Sound, IsCgi, HeadGetsBody;
    var r := ReplyTo(w, i, frame);
    ReplyIsStandard(w, i, frame);
    KnownStatusIsPlain(r.m.statusLine);
    StandardLength(r.m.headers, r.finish, AnnouncedLength(w, i, frame));
    BodyIsAnnounced(w, i, frame);
  }

  /** `HandleCGIRequest` never reaches its "invalid runner" branch. */
  lemma CgiRunnerIsAlwaysValid(path: string)
    requires IsCgi(path)
    ensures CgiProgram(path).Some? && CgiProgram(path).value <= path
  {
  }

  /** The path runs a program: it goes through the CGI folder, and the program is
      the path up to the first separator after the folder's first mention. */
  ghost predicate RunsProgram(path: string, program: string) {
    && program <= path && (program == path || path[|program|] == '&')
    && exists k | 0 <= k <= |program| :: FolderAt(path, k) && '&' !in program[k..]
  }

  /** The first mention of the CGI folder. */
  ghost predicate FolderAt(path: string, k: nat) {
    OccursAt(path, "cgi-bin", k) && forall j :: 0 <= j < k ==> !OccursAt(path, "cgi-bin", j)
  }

  lemma CgiIff(path: string)
    ensures IsCgi(path) <==> Contains(path, "cgi-bin")
  {
    FindNone(path, CGI_FOLDER);
  }

  lemma SeparatorOccurs(s: string, i: nat)
    ensures OccursAt(s, SEPARATOR, i) <==> i < |s| && s[i] == '&'
  {
    assert |SEPARATOR| == 1 && SEPARATOR[0] == '&';
    if OccursAt(s, SEPARATOR, i) {
      assert s[i + 0] == SEPARATOR[0];
    }
  }

  lemma ProgramIff(path: string, program: string)
    ensures CgiProgram(path) == Some(program) <==> RunsProgram(path, program)
  {
    hide FindFrom;
    FindIsFirst(path, CGI_FOLDER);
    if IsCgi(path) {
      var k := Find(path, CGI_FOLDER).value;
      FindFromIsFirst(path, SEPARATOR, k);
      forall j: nat ensures OccursAt(path, SEPARATOR, j) <==> j < |path| && path[j] == '&' {
        SeparatorOccurs(path, j);
      }
      var cut := CgiProgram(path).value;
      assert FolderAt(path, k);
      assert k <= |cut| && cut <= path;
      assert '&' !in cut[k..] by {
        assert forall i :: 0 <= i < |cut| - k ==> cut[k..][i] == path[k + i] && !OccursAt(path, SEPARATOR, k + i);
      }
      if RunsProgram(path, program) {
        ProgramIsUnique(path, program, cut, k);
      }
    }
  }

  lemma ProgramIsUnique(path: string, a: string, b: string, k: nat)
    requires RunsProgram(path, a) && FolderAt(path, k) && k <= |b| && '&' !in b[k..]
    requires b <= path && (b == path || path[|b|] == '&')
    ensures a == b
  {
    var m :| 0 <= m <= |a| && FolderAt(path, m) && '&' !in a[m..];
    assert m == k;
    NotLonger(path, a, b, k);
    NotLonger(path, b, a, k);
  }

  lemma NotLonger(path: string, a: string, b: string, k: nat)
    requires a <= path && b <= path && k <= |a| && k <= |b| && '&' !in b[k..] && (a == path || path[|a|] == '&')
    ensures |b| <= |a|
  {
    if |a| < |b| {
      SeparatorInside(path, a, b, k);
    }
  }

  lemma SeparatorInside(path: string, a: string, b: string, k: nat)
    requires b <= path && k <= |a| < |b| && path[|a|] == '&'
    ensures '&' in b[k..]
  {
    assert b[k..][|a| - k] == path[|a|];
  }

  /** What the path of a valid request names is there: the file, or the program of a
      path through the CGI folder. */
  ghost predicate HasResource(w: World, path: string) {
    if Contains(path, "cgi-bin") then exists program :: RunsProgram(path, program) && program in w.files
    else path in w.files
  }

  lemma ResourceIff(w: World, path: string)
    ensures HasResource(w, path) <==>
            if IsCgi(path) then CgiProgram(path).Some? && CgiProgram(path).value in w.files else path in w.files
  {
    hide IsCgi, CgiProgram, Contains, RunsProgram;
    CgiIff(path);
    if IsCgi(path) {
      CgiRunnerIsAlwaysValid(path);
      ProgramIff(path, CgiProgram(path).value);
      if HasResource(w, path) {
        var program :| RunsProgram(path, program) && program in w.files;
        ProgramIff(path, program);
      }
    }
  }

  lemma StatusLinesAre()
    ensures StatusLine(OK) == "HTTP/1.1 200 OK"
    ensures StatusLine(BAD_REQUEST) == "HTTP/1.1 400 Bad Request"
    ensures StatusLine(NOT_FOUND) == "HTTP/1.1 404 Not Found"
  {
  }

  /** 400 answers exactly the invalid requests, 404 exactly the valid ones whose
      file or program is missing, and 200 the others. */
  lemma StatusIff(w: World, i: nat, frame: string)
    ensures var line := ReplyTo(w, i, frame).m.statusLine;
            var found := HasResource(w, w.directory + Read(frame).url);
            && (line == "HTTP/1.1 400 Bad Request" <==> !Read(frame).valid)
            && (line == "HTTP/1.1 404 Not Found" <==> Read(frame).valid && !found)
            && (line == "HTTP/1.1 200 OK" <==> Read(frame).valid && found)
  {
    hide Read, HeadersOf, Changed, CgiProgram, IsCgi, Decimal.Print, HasResource;
    StatusLinesAre();
    StatusesDiffer();
    var path := w.directory + Read(frame).url;
    ResourceIff(w, path);
    if IsCgi(path) {
      CgiRunnerIsAlwaysValid(path);
    }
  }

  lemma StatusesDiffer()
    ensures StatusLine(OK) != StatusLine(BAD_REQUEST) && StatusLine(OK) != StatusLine(NOT_FOUND)
    ensures StatusLine(NOT_FOUND) != StatusLine(BAD_REQUEST)
  {
    assert |StatusLine(OK)| < |StatusLine(NOT_FOUND)| < |StatusLine(BAD_REQUEST)|;
  }
}
