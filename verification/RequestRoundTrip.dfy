/** Requests as a client writes them are read back field by field. */
module RequestRoundTrip {
  import opened Strings
  import opened HttpUtils
  import opened Framing
  import opened Headers
  import opened Requests

  /** A header a client may write: one line, colon-free key, value that survives. */
  predicate Writable(h: Header) {
    && h.valid && '\r' !in h.key && '\r' !in h.value && ':' !in h.key
    && h.value != "" && h.value[|h.value| - 1] != ':'
  }

  function Line(h: Header): string {
    h.key + COLON + h.value
  }

  function Lines(hs: seq<Header>): (ls: seq<string>)
    ensures |ls| == |hs| && forall i :: 0 <= i < |hs| ==> ls[i] == Line(hs[i])
  {
    seq(|hs|, i requires 0 <= i < |hs| => Line(hs[i]))
  }

  function MethodName(m: Method): string {
    match m
    case GET => "GET"
    case HEAD => "HEAD"
    case UnsupportedMethod => "UNSUPPORTED"
  }

  function RequestLine(m: Method, target: string): string {
    MethodName(m) + SPACE + target + SPACE + "HTTP/1.1"
  }

  /** The text of a request. */
  function Write(m: Method, target: string, hs: seq<Header>): string {
    Terminated([RequestLine(m, target)] + Lines(hs) + [""], CRLF)
  }

  lemma NoByte(s: string, d: string)
    requires d != "" && d[0] !in s
    ensures !Contains(s, d)
  {
    forall i | 0 <= i <= |s| ensures !OccursAt(s, d, i) {
      if i + |d| <= |s| {
        assert s[i] in s;
        assert s[i + 0] != d[0];
      }
    }
  }

  lemma KnownWords(m: Method)
    requires m != UnsupportedMethod
    ensures ToMethod(MethodName(m)) == m && ToVersion("HTTP/1.1") == HTTP_1_1
    ensures ' ' !in MethodName(m) && '\r' !in MethodName(m) && MethodName(m) != ""
  {
    hide Format, Upper;
    FormatPlain(MethodName(m));
    FormatPlain("HTTP/1.1");
    assert Upper("HTTP/1.1") == "HTTP/1.1";
    if m == GET {
      assert Upper("GET") == "GET";
    } else {
      assert Upper("HEAD") == "HEAD";
    }
  }

  lemma WordsOfLine(m: Method, target: string)
    requires m != UnsupportedMethod && ' ' !in target
    ensures Tokens(RequestLine(m, target), SPACE) == [MethodName(m), target, "HTTP/1.1"]
  {
    hide Tokens, FindFrom, MethodName, Format, Upper;
    var words := [MethodName(m), target, "HTTP/1.1"];
    KnownWords(m);
    DelimitersAreBorderless();
    NoByte(words[0], SPACE);
    NoByte(words[1], SPACE);
    NoByte(words[2], SPACE);
    ThreeJoined(words[0], words[1], words[2]);
    JoinThenSplitIff(words, SPACE);
  }

  lemma ThreeJoined(a: string, b: string, c: string)
    ensures Joined([a, b, c], SPACE) == a + SPACE + b + SPACE + c
  {
    assert [a, b, c][1..] == [b, c] && [b, c][1..] == [c];
    assert Joined([b, c], SPACE) == b + SPACE + c;
    assert a + SPACE + (b + SPACE + c) == a + SPACE + b + SPACE + c;
  }

  lemma LinesAreFree(m: Method, target: string, hs: seq<Header>)
    requires m != UnsupportedMethod && '\r' !in target
    requires forall i :: 0 <= i < |hs| ==> Writable(hs[i])
    ensures AllFree([RequestLine(m, target)] + Lines(hs) + [""], CRLF)
  {
    hide MethodName, Format;
    KnownWords(m);
    var ls := [RequestLine(m, target)] + Lines(hs) + [""];
    forall i | 0 <= i < |ls| ensures !Contains(ls[i], CRLF) {
      if 0 < i < |ls| - 1 {
        assert ls[i] == Line(hs[i - 1]);
      }
      NoByte(ls[i], CRLF);
    }
  }

  lemma WritableParsesBack(h: Header)
    requires Writable(h)
    ensures Meaning(Line(h)) == h && h.valid
  {
    ParseOfPrintIff(h.key, h.value);
    NoByte(h.key, COLON);
    ColonOccurs(h.value, |h.value| - 1);
  }

  lemma {:induction false} HeadersParseBack(hs: seq<Header>)
    requires forall i :: 0 <= i < |hs| ==> Writable(hs[i])
    ensures HeadersUntilBad(Lines(hs)) == hs
  {
    hide Meaning, Writable, Line;
    if hs != [] {
      WritableParsesBack(hs[0]);
      HeadersParseBack(hs[1..]);
      assert Lines(hs)[1..] == Lines(hs[1..]);
    }
  }

  /** Whatever a client writes this way is a valid request with exactly its method,
      target (completed by the default route) and headers, and it closes unless one
      of them asks to keep the connection. */
  lemma ReadOfWrite(m: Method, target: string, hs: seq<Header>)
    requires m != UnsupportedMethod && ' ' !in target && '\r' !in target
    requires forall i :: 0 <= i < |hs| ==> Writable(hs[i])
    ensures Read(Write(m, target, hs)) ==
            Parsed(m, HTTP_1_1, Route(target), hs, NoneKeepsAlive(hs), true, "")
  {
    hide Tokens, RequestLine, Lines, Meaning, Writable, MethodName, Format, KeepsAlive, Terminated, AllFree,
         HeadersUntilBad;
    var ls := [RequestLine(m, target)] + Lines(hs) + [""];
    LinesAreFree(m, target, hs);
    DelimitersAreBorderless();
    SplitOfTerminated(ls, CRLF);
    WordsOfLine(m, target);
    KnownWords(m);
    HeadersParseBack(hs);
    assert HeaderLines(ls) == Lines(hs);
  }
}
