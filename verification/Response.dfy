/** `src/http/response.cc`: building and printing the head of a reply. */
module Responses {
  import opened Strings
  import opened HttpUtils
  import opened Headers
  import Decimal

  type Files = map<string, string>

  const OK := "200 OK"
  const BAD_REQUEST := "400 Bad Request"
  const NOT_FOUND := "404 Not Found"
  const HTTP_VERSION := "HTTP/1.1"
  const SERVER := "Server"
  const SERVER_NAME := "longlp/1.0"
  const CONNECTION := "Connection"
  const CLOSE := "Close"
  const KEEP_ALIVE := "Keep-Alive"
  const CONTENT_LENGTH := "Content-Length"
  const CONTENT_TYPE := "Content-Type"

  function LastDot(s: string): (r: Option<nat>)
    ensures r.Some? ==> r.value < |s| && s[r.value] == '.' && forall i :: r.value < i < |s| ==> s[i] != '.'
    ensures r.None? ==> '.' !in s
  {
    if s == "" then None
    else if s[|s| - 1] == '.' then Some(|s| - 1)
    else LastDot(s[..|s| - 1])
  }

  function StatusLine(status: string): string {
    HTTP_VERSION + SPACE + status
  }

  function ConnectionValue(shouldClose: bool): string {
    if shouldClose then CLOSE else KEEP_ALIVE
  }

  /** Content-Length and, for a path with a dot, Content-Type. */
  function ContentHeaders(resource: Option<string>, files: Files): seq<Header> {
    if resource.Some? && resource.value in files then
      [MakeHeader(CONTENT_LENGTH, Decimal.Print(|files[resource.value]|))]
      + match LastDot(resource.value)
        case None => []
        case Some(k) => [MakeHeader(CONTENT_TYPE, ExtensionToMime(ToExtension(resource.value[k + 1..])))]
    else [MakeHeader(CONTENT_LENGTH, "0")]
  }

  function HeadersOf(shouldClose: bool, resource: Option<string>, files: Files): seq<Header> {
    [MakeHeader(SERVER, SERVER_NAME), MakeHeader(CONNECTION, ConnectionValue(shouldClose))]
    + ContentHeaders(resource, files)
  }

  function HeaderText(hs: seq<Header>): string {
    if hs == [] then "" else Print(hs[0]) + HeaderText(hs[1..])
  }

  /** The first header with this key gets the new value. */
  function Changed(hs: seq<Header>, key: string, value: string): seq<Header> {
    if hs == [] then []
    else if hs[0].key == key then [hs[0].(value := value)] + hs[1..]
    else [hs[0]] + Changed(hs[1..], key, value)
  }

  lemma {:induction false} HeaderTextConcat(a: seq<Header>, b: seq<Header>)
    ensures HeaderText(a + b) == HeaderText(a) + HeaderText(b)
  {
    hide Print;
    if a == [] {
      assert a + b == b;
    } else {
      assert (a + b)[1..] == a[1..] + b;
      HeaderTextConcat(a[1..], b);
    }
  }

  lemma {:induction false} ChangedAt(hs: seq<Header>, key: string, value: string, i: nat)
    requires i < |hs| && hs[i].key == key && forall j :: 0 <= j < i ==> hs[j].key != key
    ensures Changed(hs, key, value) == hs[i := hs[i].(value := value)]
  {
    if i > 0 {
      ChangedAt(hs[1..], key, value, i - 1);
      assert hs[i := hs[i].(value := value)] == [hs[0]] + hs[1..][i - 1 := hs[i].(value := value)];
    }
  }

  lemma {:induction false} ChangedNone(hs: seq<Header>, key: string, value: string)
    requires forall j :: 0 <= j < |hs| ==> hs[j].key != key
    ensures Changed(hs, key, value) == hs
  {
    if hs != [] {
      ChangedNone(hs[1..], key, value);
    }
  }

  class Response {
    var statusLine: string
    var shouldClose: bool
    var headers: seq<Header>
    var resource: Option<string>

    constructor (status: string, shouldClose: bool, resource: Option<string>, files: Files)
      ensures statusLine == StatusLine(status) && this.shouldClose == shouldClose
      ensures headers == HeadersOf(shouldClose, resource, files)
      ensures this.resource == if resource.Some? && resource.value in files then resource else None
    {
      hide LastDot, ToExtension, ExtensionToMime, Decimal.Print;
      this.shouldClose, this.resource := shouldClose, resource;
      statusLine := HTTP_VERSION + SPACE + status;
      var hs := [MakeHeader(SERVER, SERVER_NAME)];
      hs := hs + [MakeHeader(CONNECTION, if shouldClose then CLOSE else KEEP_ALIVE)];
      if resource.Some? && resource.value in files {
        var contentLength := |files[resource.value]|;
        hs := hs + [MakeHeader(CONTENT_LENGTH, Decimal.Print(contentLength))];
        var lastDot := LastDot(resource.value);
        if lastDot.Some? {
          var extension := ToExtension(resource.value[lastDot.value + 1..]);
          hs := hs + [MakeHeader(CONTENT_TYPE, ExtensionToMime(extension))];
        }
      } else {
        this.resource := None;
        hs := hs + [MakeHeader(CONTENT_LENGTH, "0")];
      }
      headers := hs;
    }

    method Serialize(buffer: string) returns (r: string)
      ensures r == buffer + statusLine + CRLF + HeaderText(headers) + CRLF
    {
      hide Print;
      var head := statusLine + CRLF;
      for i := 0 to |headers|
        invariant head == statusLine + CRLF + HeaderText(headers[..i])
      {
        assert headers[..i + 1] == headers[..i] + [headers[i]];
        HeaderTextConcat(headers[..i], [headers[i]]);
        assert HeaderText([headers[i]]) == Print(headers[i]);
        head := head + Print(headers[i]);
      }
      assert headers[..|headers|] == headers;
      head := head + CRLF;
      r := buffer + head;
    }

    method ChangeHeader(key: string, newValue: string) returns (changed: bool)
      modifies this`headers
      ensures headers == Changed(old(headers), key, newValue)
      ensures changed <==> exists i :: 0 <= i < |old(headers)| && old(headers)[i].key == key
    {
      for i := 0 to |headers|
        invariant headers == old(headers)
        invariant forall j :: 0 <= j < i ==> headers[j].key != key
      {
        if headers[i].key == key {
          ChangedAt(headers, key, newValue, i);
          headers := headers[i := headers[i].(value := newValue)];
          return true;
        }
      }
      ChangedNone(headers, key, newValue);
      return false;
    }
  }

  // --------------------------------------------------------- The head as lines

  /** A header the server writes: its line has no line break and its key no colon. */
  predicate Sound(h: Header) {
    h.valid && '\r' !in h.key && '\r' !in h.value && ':' !in h.key
  }

  function LineOf(h: Header): string {
    h.key + COLON + h.value
  }

  function LinesOf(hs: seq<Header>): (ls: seq<string>)
    ensures |ls| == |hs| && forall i :: 0 <= i < |hs| ==> ls[i] == LineOf(hs[i])
  {
    seq(|hs|, i requires 0 <= i < |hs| => LineOf(hs[i]))
  }

  ghost predicate AllSound(hs: seq<Header>) {
    forall i :: 0 <= i < |hs| ==> Sound(hs[i])
  }

  lemma {:induction false} HeaderTextIsTerminated(hs: seq<Header>)
    ensures HeaderText(hs) == Terminated(LinesOf(hs), CRLF)
  {
    if hs != [] {
      HeaderTextIsTerminated(hs[1..]);
      assert LinesOf(hs)[1..] == LinesOf(hs[1..]);
    }
  }

  lemma NoBreak(s: string)
    requires '\r' !in s
    ensures !Contains(s, CRLF)
  {
    forall i | 0 <= i <= |s| ensures !OccursAt(s, CRLF, i) {
      if i + 2 <= |s| {
        assert s[i] in s;
        assert s[i + 0] != CRLF[0];
      }
    }
  }

  lemma NoColon(s: string)
    requires ':' !in s
    ensures !Contains(s, COLON)
  {
    forall i | 0 <= i <= |s| ensures !OccursAt(s, COLON, i) {
      ColonOccurs(s, i);
      assert i < |s| ==> s[i] in s;
    }
  }
}
