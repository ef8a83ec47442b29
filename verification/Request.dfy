/** `src/http/request.cc`: reading a request from the text of one frame. */
module Requests {
  import opened Strings
  import opened HttpUtils
  import opened Words
  import opened Framing
  import opened Headers

  const DEFAULT_ROUTE := "index.html"
  const WRONG_FORMAT := "Request format is wrong."

  /** The fields of a `Request` once its constructor has run. */
  datatype Parsed = Parsed(meth: Method, version: Version, url: string, headers: seq<Header>,
                           shouldClose: bool, valid: bool, reason: string)

  // ---------------------------------------------------------------- Meaning

  function Route(target: string): string {
    if target == "" || target[|target| - 1] == '/' then target + DEFAULT_ROUTE else target
  }

  /** The three words of a request line this server accepts. */
  predicate SupportedLine(words: seq<string>) {
    |words| == 3 && ToMethod(words[0]) != UnsupportedMethod && ToVersion(words[2]) != UnsupportedVersion
  }

  /** Fields after the request line was looked at and no header yet. */
  function AfterRequestLine(line: string): (p: Parsed)
    ensures p.headers == [] && p.shouldClose && !p.valid
  {
    var words := Tokens(line, SPACE);
    if |words| != 3 then
      Parsed(UnsupportedMethod, UnsupportedVersion, "", [], true, false,
             "Invalid first request headline: " + line)
    else if ToMethod(words[0]) == UnsupportedMethod then
      Parsed(UnsupportedMethod, UnsupportedVersion, "", [], true, false, "Unsupported method: " + words[0])
    else if ToVersion(words[2]) == UnsupportedVersion then
      Parsed(ToMethod(words[0]), UnsupportedVersion, "", [], true, false, "Unsupported version: " + words[2])
    else
      Parsed(ToMethod(words[0]), ToVersion(words[2]), Route(words[1]), [], true, false, "")
  }

  /** The header that asks for the connection to stay open. */
  predicate KeepsAlive(h: Header) {
    Format(h.key) == "CONNECTION" && Format(h.value) == "KEEP-ALIVE"
  }

  /** The same, told by the bytes of key and value. */
  predicate AsksToKeep(h: Header) {
    Spells(h.key, "CONNECTION") && Spells(h.value, "KEEP-ALIVE")
  }

  lemma KeepsAliveIff(h: Header)
    ensures KeepsAlive(h) <==> AsksToKeep(h)
  {
    hide Format, Spells, IsWord;
    WordsAreWords();
    FormatIff(h.key, "CONNECTION");
    FormatIff(h.value, "KEEP-ALIVE");
  }

  predicate NoneKeepsAlive(hs: seq<Header>) {
    forall i :: 0 <= i < |hs| ==> !KeepsAlive(hs[i])
  }

  /** The headers read before the first line that is not one. */
  function HeadersUntilBad(lines: seq<string>): (hs: seq<Header>)
    ensures |hs| <= |lines|
  {
    if lines == [] || !Meaning(lines[0]).valid then []
    else [Meaning(lines[0])] + HeadersUntilBad(lines[1..])
  }

  function AfterHeaders(p: Parsed, lines: seq<string>): Parsed {
    var hs := HeadersUntilBad(lines);
    var q := p.(headers := hs, shouldClose := NoneKeepsAlive(hs));
    if |hs| < |lines| then q.(reason := "Fail to parse header line: " + lines[|hs|])
    else q.(valid := true)
  }

  function HeaderLines(lines: seq<string>): seq<string>
    requires |lines| >= 2
  {
    lines[1..|lines| - 1]
  }

  /** What `Request(request_str)` reads from a text. */
  function Read(s: string): Parsed {
    var lines := Tokens(s, CRLF);
    if |lines| < 2 || lines[|lines| - 1] != "" then
      Parsed(UnsupportedMethod, UnsupportedVersion, "", [], true, false, WRONG_FORMAT)
    else if !SupportedLine(Tokens(lines[0], SPACE)) then AfterRequestLine(lines[0])
    else AfterHeaders(AfterRequestLine(lines[0]), HeaderLines(lines))
  }

  // ---------------------------------------------------------- The constructor

  lemma FormatPlain(s: string)
    requires s != "" && s[0] != ' ' && '\0' !in s
    ensures Format(s) == Upper(s)
  {
    assert s[0] !in SPACE;
    assert FirstNotOf(s, SPACE) == Some(0);
    assert LastNotOf(s, SPACE).Some?;
    assert s[0..] == s;
    CStrWhole(s);
  }

  lemma CStrWhole(s: string)
    requires '\0' !in s
    ensures CStr(s) == s
  {
    assert forall k :: 0 <= k < |s| ==> s[k] in s;
  }

  lemma FormattedConstants()
    ensures Format("Connection") == "CONNECTION"
    ensures Format("Keep-Alive") == "KEEP-ALIVE"
  {
    hide Format, Upper;
    FormatPlain("Connection");
    FormatPlain("Keep-Alive");
    assert Upper("Connection") == "CONNECTION";
    assert Upper("Keep-Alive") == "KEEP-ALIVE";
  }

  lemma HeadersUntilBadAt(lines: seq<string>, i: nat)
    requires i < |lines| && |HeadersUntilBad(lines)| >= i
    ensures |HeadersUntilBad(lines)| > i <==> Meaning(lines[i]).valid
    ensures Meaning(lines[i]).valid ==> HeadersUntilBad(lines)[i] == Meaning(lines[i])
  {
    hide Meaning;
    if i > 0 {
      HeadersUntilBadAt(lines[1..], i - 1);
    }
  }

  class Request {
    var meth: Method
    var version: Version
    var url: string
    var headers: seq<Header>
    var shouldClose: bool
    var valid: bool
    var reason: string

    function State(): Parsed
      reads this
    {
      Parsed(meth, version, url, headers, shouldClose, valid, reason)
    }

    constructor Deserialize(s: string)
      ensures State() == Read(s)
    {
      meth, version := UnsupportedMethod, UnsupportedVersion;
      url, headers, reason := "", [], "";
      shouldClose, valid := true, false;
      new;
      hide Tokens, Meaning, AfterRequestLine, KeepsAlive, AsksToKeep, HeadersUntilBad, SupportedLine;
      var lines := Split(s, CRLF);
      if |lines| < 2 || lines[|lines| - 1] != "" {
        reason := WRONG_FORMAT;
        return;
      }
      ghost var all := lines;
      lines := lines[..|lines| - 1];
      var ok := ParseRequestLine(lines[0]);
      if !ok {
        return;
      }
      lines := lines[1..];
      assert lines == HeaderLines(all);
      ghost var start := State();
      assert headers == HeadersUntilBad(lines)[..0] && NoneKeepsAlive(headers);
      for i := 0 to |lines|
        invariant |HeadersUntilBad(lines)| >= i && headers == HeadersUntilBad(lines)[..i]
        invariant shouldClose == NoneKeepsAlive(headers)
        invariant State() == start.(headers := headers, shouldClose := shouldClose)
      {
        var header := Parse(lines[i]);
        HeadersUntilBadAt(lines, i);
        if !header.valid {
          reason := "Fail to parse header line: " + lines[i];
          return;
        }
        KeepsAliveIff(header);
        ScanHeader(header);
        headers := headers + [header];
      }
      valid := true;
    }

    method ParseRequestLine(line: string) returns (ok: bool)
      requires State() == Parsed(UnsupportedMethod, UnsupportedVersion, "", [], true, false, "")
      modifies this
      ensures State() == AfterRequestLine(line)
      ensures ok <==> SupportedLine(Tokens(line, SPACE))
    {
      hide Tokens, Format;
      var tokens := Split(line, SPACE);
      if |tokens| != 3 {
        reason := "Invalid first request headline: " + line;
        return false;
      }
      meth := ToMethod(tokens[0]);
      if meth == UnsupportedMethod {
        reason := "Unsupported method: " + tokens[0];
        return false;
      }
      version := ToVersion(tokens[2]);
      if version == UnsupportedVersion {
        reason := "Unsupported version: " + tokens[2];
        return false;
      }
      url := if tokens[1] == "" || tokens[1][|tokens[1]| - 1] == '/' then tokens[1] + DEFAULT_ROUTE else tokens[1];
      return true;
    }

    method ScanHeader(header: Header)
      modifies this`shouldClose
      ensures shouldClose == (old(shouldClose) && !AsksToKeep(header))
    {
      hide Format, AsksToKeep;
      FormattedConstants();
      KeepsAliveIff(header);
      var key := Format(header.key);
      if key == Format("Connection") {
        var value := Format(header.value);
        if value == Format("Keep-Alive") {
          shouldClose := false;
        }
      }
    }
  }

  // ------------------------------------------------------------- What it means

  lemma {:induction false} AllHeadersReadIff(lines: seq<string>)
    ensures |HeadersUntilBad(lines)| == |lines| <==> forall i :: 0 <= i < |lines| ==> Meaning(lines[i]).valid
  {
    hide Meaning;
    if lines != [] {
      AllHeadersReadIff(lines[1..]);
    }
  }

  lemma {:induction false} ReadHeaderIs(lines: seq<string>, i: nat)
    requires i < |HeadersUntilBad(lines)|
    ensures HeadersUntilBad(lines)[i] == Meaning(lines[i])
  {
    hide Meaning;
    if i > 0 {
      ReadHeaderIs(lines[1..], i - 1);
    }
  }

  /** Three words between single spaces: GET or HEAD, a target and HTTP/1.1. */
  predicate IsRequestLine(line: string) {
    var words := Tokens(line, SPACE);
    && |words| == 3
    && (Spells(words[0], "GET") || Spells(words[0], "HEAD")) && Spells(words[2], "HTTP/1.1")
  }

  lemma RequestLineIff(line: string)
    ensures SupportedLine(Tokens(line, SPACE)) <==> IsRequestLine(line)
  {
    hide Tokens, ToMethod, ToVersion, Spells;
    var words := Tokens(line, SPACE);
    if |words| == 3 {
      MethodIff(words[0]);
      VersionIff(words[2]);
    }
  }

  /** A text is a valid request exactly when it is one frame whose first line is a
      request line and whose other lines, up to the blank one, are headers. */
  lemma ValidIff(s: string)
    ensures Read(s).valid <==>
              && IsFrame(s)
              && var lines := Tokens(s, CRLF);
              && |lines| >= 2
              && IsRequestLine(lines[0])
              && forall i :: 1 <= i < |lines| - 1 ==> Meaning(lines[i]).valid
  {
    hide Tokens, Meaning, SupportedLine, IsRequestLine, HeadersUntilBad, IsFrame, ToMethod, ToVersion;
    FrameIffLines(s);
    var lines := Tokens(s, CRLF);
    if |lines| >= 2 {
      RequestLineIff(lines[0]);
      AllHeadersReadIff(HeaderLines(lines));
      assert forall i :: 1 <= i < |lines| - 1 ==> lines[i] == HeaderLines(lines)[i - 1];
      assert forall i :: 0 <= i < |lines| - 2 ==> HeaderLines(lines)[i] == lines[i + 1];
      forall i | 1 <= i < |lines| - 1 && Meaning(lines[i]).valid ensures lines[i] != "" {
        ValidLineNotEmpty(lines[i]);
      }
    }
  }

  /** The method and version of a valid request are ones the server knows. */
  lemma ValidMethod(s: string)
    requires Read(s).valid
    ensures Read(s).meth != UnsupportedMethod && Read(s).version == HTTP_1_1
  {
    hide Tokens, Meaning, HeadersUntilBad, ToMethod, ToVersion;
  }

  /** The method and target of a valid request are the first two words of its first
      line; a target that is empty or ends with a slash gets the default route. */
  lemma ValidRequestSays(s: string)
    requires Read(s).valid
    ensures |Tokens(s, CRLF)| >= 2 && |Tokens(Tokens(s, CRLF)[0], SPACE)| == 3
    ensures var words := Tokens(Tokens(s, CRLF)[0], SPACE);
            && (Read(s).meth == GET <==> Spells(words[0], "GET"))
            && (Read(s).meth == HEAD <==> Spells(words[0], "HEAD"))
            && words[1] <= Read(s).url && Read(s).url != "" && Read(s).url[|Read(s).url| - 1] != '/'
            && (Read(s).url == words[1] || Read(s).url == words[1] + "index.html")
            && (Read(s).url == words[1] <==> words[1] != "" && words[1][|words[1]| - 1] != '/')
  {
    hide Tokens, Meaning, HeadersUntilBad, ToMethod, ToVersion, Spells, NoneKeepsAlive;
    var words := Tokens(Tokens(s, CRLF)[0], SPACE);
    MethodIff(words[0]);
    RouteEnds(words[1]);
  }

  lemma RouteEnds(target: string)
    ensures target <= Route(target) && Route(target) != "" && Route(target)[|Route(target)| - 1] != '/'
  {
  }

  /** A valid request ends at its own first blank line. */
  lemma ValidRequestIsSelfDelimiting(s: string)
    requires Read(s).valid
    ensures |s| >= 4 && Find(s, BLANK_LINE) == Some(|s| - 4)
  {
    ValidIff(s);
  }

  /** Popping till a blank line recovers any sequence of valid requests from a
      buffer that starts with them, and then goes on with what follows. */
  lemma ValidRequestsAreRecovered(requests: seq<string>, rest: string)
    requires forall i :: 0 <= i < |requests| ==> Read(requests[i]).valid
    ensures Frames(Concat(requests) + rest) == requests + Frames(rest)
    ensures Leftover(Concat(requests) + rest) == Leftover(rest)
  {
    hide Read, Frames, Leftover, Concat;
    forall i | 0 <= i < |requests| ensures IsFrame(requests[i]) {
      ValidRequestIsSelfDelimiting(requests[i]);
    }
    FramesAreRecovered(requests, rest);
  }

  /** A popped frame is never refused for its framing: only its request line or
      one of its header lines can make it invalid. */
  lemma FrameIsRefusedForALineOnly(s: string)
    requires IsFrame(s) && !Read(s).valid
    ensures var lines := Tokens(s, CRLF);
            && FrameLines(lines) && Read(s).reason != WRONG_FORMAT
            && (IsRequestLine(lines[0]) ==>
                  exists i :: 1 <= i < |lines| - 1 && lines[i] != "" && !Meaning(lines[i]).valid)
  {
    hide Tokens, Meaning, HeadersUntilBad, IsFrame, IsRequestLine, ToMethod, ToVersion;
    FrameIffLines(s);
    var lines := Tokens(s, CRLF);
    ValidIff(s);
    assert Read(s).reason[0] != 'R';
  }

  /** The i-th line of the request is a header that asks to keep the connection: its
      key and value are, after spaces, the two words in letters of either case. */
  predicate LineAsks(frame: string, i: int) {
    1 <= i < |Tokens(frame, CRLF)| - 1 && AsksToKeep(Meaning(Tokens(frame, CRLF)[i]))
  }

  ghost predicate SomeLineAsks(frame: string) {
    exists i :: LineAsks(frame, i)
  }

  lemma LineAsksIff(s: string, i: nat)
    requires Read(s).valid && 1 <= i < |Tokens(s, CRLF)| - 1
    ensures i - 1 < |Read(s).headers| && (KeepsAlive(Read(s).headers[i - 1]) <==> LineAsks(s, i))
  {
    hide Tokens, Meaning, HeadersUntilBad, ToMethod, ToVersion, KeepsAlive, AsksToKeep, NoneKeepsAlive;
    var hl := HeaderLines(Tokens(s, CRLF));
    ReadHeaderIs(hl, i - 1);
    KeepsAliveIff(Meaning(hl[i - 1]));
  }

  lemma ClosesIff(s: string)
    requires Read(s).valid
    ensures |Read(s).headers| == |Tokens(s, CRLF)| - 2
    ensures Read(s).shouldClose <==> NoneKeepsAlive(Read(s).headers)
  {
    hide Tokens, Meaning, HeadersUntilBad, ToMethod, ToVersion, NoneKeepsAlive;
  }

  /** The connection is kept exactly when some header line of the request asks for
      it, wherever that line stands. */
  lemma KeptIffSomeHeaderAsks(s: string)
    requires Read(s).valid
    ensures !Read(s).shouldClose <==> SomeLineAsks(s)
  {
    hide Read, Tokens, KeepsAlive;
    ClosesIff(s);
    var hs := Read(s).headers;
    forall i | 1 <= i <= |hs| ensures KeepsAlive(hs[i - 1]) <==> LineAsks(s, i) {
      LineAsksIff(s, i);
    }
    hide LineAsks;
    if !NoneKeepsAlive(hs) {
      var i :| 0 <= i < |hs| && KeepsAlive(hs[i]);
      assert LineAsks(s, i + 1);
    }
    if SomeLineAsks(s) {
      var i :| LineAsks(s, i);
      LineAsksInside(s, i);
      assert KeepsAlive(hs[i - 1]);
    }
  }

  lemma LineAsksInside(s: string, i: int)
    requires LineAsks(s, i)
    ensures 1 <= i < |Tokens(s, CRLF)| - 1
  {
  }
}
