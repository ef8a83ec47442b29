/** A client that reads replies off one byte stream: a head up to the first blank
    line, then as many body bytes as Content-Length says (none after HEAD). */
module Client {
  import opened Strings
  import opened HttpUtils
  import opened Framing
  import opened Headers
  import opened Responses
  import Decimal

  datatype Message = Message(statusLine: string, headers: seq<Header>, body: string)

  function Bytes(m: Message): string {
    m.statusLine + CRLF + HeaderText(m.headers) + CRLF + m.body
  }

  function AllBytes(ms: seq<Message>): string {
    if ms == [] then "" else Bytes(ms[0]) + AllBytes(ms[1..])
  }

  // ------------------------------------------------------------------ Reading

  /** A field line, cut at its first colon. */
  function Field(line: string): Header {
    match Find(line, COLON)
    case None => Header(line, "", false)
    case Some(n) => MakeHeader(line[..n], line[n + 1..])
  }

  function Fields(lines: seq<string>): seq<Header> {
    if lines == [] then [] else [Field(lines[0])] + Fields(lines[1..])
  }

  function ContentLength(hs: seq<Header>): Option<nat> {
    if hs == [] then None
    else if hs[0].key == CONTENT_LENGTH then Decimal.Parse(hs[0].value)
    else ContentLength(hs[1..])
  }

  datatype Reading = Failed | Got(m: Message, rest: string)

  /** One reply; `bodyless` says that the request was a HEAD. */
  function ReadOne(stream: string, bodyless: bool): Reading {
    match Find(stream, BLANK_LINE)
    case None => Failed
    case Some(n) =>
      var lines := Tokens(stream[..n + 4], CRLF);
      if |lines| < 2 then Failed
      else
        var headers := Fields(lines[1..|lines| - 1]);
        var rest := stream[n + 4..];
        match if bodyless then Some(0) else ContentLength(headers)
        case None => Failed
        case Some(k) =>
          if |rest| < k then Failed
          else Got(Message(lines[0], headers, rest[..k]), rest[k..])
  }

  datatype ReadingAll = Broken | GotAll(ms: seq<Message>, rest: string)

  /** One reply for each request sent. */
  function ReadAll(stream: string, bodyless: seq<bool>): ReadingAll {
    if bodyless == [] then GotAll([], stream)
    else match ReadOne(stream, bodyless[0])
      case Failed => Broken
      case Got(m, rest) =>
        match ReadAll(rest, bodyless[1..])
        case Broken => Broken
        case GotAll(ms, r) => GotAll([m] + ms, r)
  }

  // ------------------------------------------------------------------ Theorem

  /** The body of the message is what its head announces. */
  ghost predicate Announced(m: Message, bodyless: bool) {
    && '\r' !in m.statusLine && AllSound(m.headers)
    && if bodyless then m.body == "" else ContentLength(m.headers) == Some(|m.body|)
  }

  function HeadLines(m: Message): seq<string> {
    [m.statusLine] + LinesOf(m.headers) + [""]
  }

  lemma HeadIsTerminated(m: Message)
    ensures m.statusLine + CRLF + HeaderText(m.headers) + CRLF == Terminated(HeadLines(m), CRLF)
  {
    hide HeaderText;
    HeaderTextIsTerminated(m.headers);
    TerminatedConcat([m.statusLine] + LinesOf(m.headers), [""], CRLF);
    TerminatedConcat([m.statusLine], LinesOf(m.headers), CRLF);
    OneTerminated(m.statusLine);
    OneTerminated("");
  }

  lemma OneTerminated(t: string)
    ensures Terminated([t], CRLF) == t + CRLF
  {
  }

  lemma HeadLinesAreFree(m: Message)
    requires '\r' !in m.statusLine && AllSound(m.headers)
    ensures AllFree(HeadLines(m), CRLF) && FrameLines(HeadLines(m))
  {
    forall i | 0 <= i < |HeadLines(m)| ensures !Contains(HeadLines(m)[i], CRLF) {
      if 0 < i < |HeadLines(m)| - 1 {
        assert Sound(m.headers[i - 1]);
        assert HeadLines(m)[i] == LineOf(m.headers[i - 1]);
      }
      NoBreak(HeadLines(m)[i]);
    }
    forall i | 0 < i < |HeadLines(m)| - 1 ensures HeadLines(m)[i] != "" {
      assert HeadLines(m)[i] == LineOf(m.headers[i - 1]);
    }
  }

  /** The head is one frame, whose lines are the status line and the fields. */
  lemma HeadIsFrame(m: Message)
    requires '\r' !in m.statusLine && AllSound(m.headers)
    ensures var head := m.statusLine + CRLF + HeaderText(m.headers) + CRLF;
            IsFrame(head) && Tokens(head, CRLF) == HeadLines(m)
  {
    hide Tokens, AllFree, FrameLines, HeaderText, Find;
    HeadIsTerminated(m);
    HeadLinesAreFree(m);
    DelimitersAreBorderless();
    SplitOfTerminated(HeadLines(m), CRLF);
    FrameIffLines(Terminated(HeadLines(m), CRLF));
  }

  lemma FieldOfLine(h: Header)
    requires Sound(h)
    ensures Field(LineOf(h)) == h
  {
    hide FindFrom;
    NoColon(h.key);
    DelimitersAreBorderless();
    FindAfterFree(h.key, COLON, h.value);
    var line := LineOf(h);
    assert line[..|h.key|] == h.key && line[|h.key| + 1..] == h.value;
  }

  lemma {:induction false} FieldsOfLines(hs: seq<Header>)
    requires AllSound(hs)
    ensures Fields(LinesOf(hs)) == hs
  {
    hide Field, Sound, LineOf;
    if hs != [] {
      FieldOfLine(hs[0]);
      FieldsOfLines(hs[1..]);
      assert LinesOf(hs)[1..] == LinesOf(hs[1..]);
    }
  }

  lemma ReadOneBack(m: Message, bodyless: bool, rest: string)
    requires Announced(m, bodyless)
    ensures ReadOne(Bytes(m) + rest, bodyless) == Got(m, rest)
  {
    hide Tokens, FindFrom, HeaderText, Fields, ContentLength, AllSound;
    var head := m.statusLine + CRLF + HeaderText(m.headers) + CRLF;
    var stream := Bytes(m) + rest;
    HeadIsFrame(m);
    Assoc(head, m.body, rest);
    FindInExtension(head, m.body + rest, BLANK_LINE);
    assert stream == head + (m.body + rest);
    assert stream[..|head|] == head && stream[|head|..] == m.body + rest;
    var lines := HeadLines(m);
    assert lines[1..|lines| - 1] == LinesOf(m.headers);
    FieldsOfLines(m.headers);
    var k := |m.body|;
    assert (m.body + rest)[..k] == m.body && (m.body + rest)[k..] == rest;
  }

  /** Unique decoding: a stream of announced messages is read back message by
      message, whatever bytes come after it. */
  lemma {:induction false} ReadAllBack(ms: seq<Message>, bodyless: seq<bool>, rest: string)
    requires |ms| == |bodyless| && forall i :: 0 <= i < |ms| ==> Announced(ms[i], bodyless[i])
    ensures ReadAll(AllBytes(ms) + rest, bodyless) == GotAll(ms, rest)
  {
    hide Announced, ReadOne, Bytes;
    if ms == [] {
      assert "" + rest == rest;
    } else {
      Assoc(Bytes(ms[0]), AllBytes(ms[1..]), rest);
      ReadOneBack(ms[0], bodyless[0], AllBytes(ms[1..]) + rest);
      ReadAllBack(ms[1..], bodyless[1..], rest);
    }
  }

  // ------------------------------------------------ Nothing else reads like this

  lemma LineOfField(line: string, h: Header)
    requires Field(line) == h && Sound(h)
    ensures line == LineOf(h)
  {
    hide FindFrom;
    if Find(line, COLON).Some? {
      CutAtFind(line, COLON);
    }
  }

  lemma {:induction false} LinesOfFields(lines: seq<string>, hs: seq<Header>)
    requires Fields(lines) == hs && AllSound(hs)
    ensures lines == LinesOf(hs)
  {
    hide Field, Sound, LineOf;
    if lines != [] {
      assert hs[0] == Field(lines[0]) && hs[1..] == Fields(lines[1..]);
      LineOfField(lines[0], hs[0]);
      LinesOfFields(lines[1..], hs[1..]);
      assert LinesOf(hs)[1..] == LinesOf(hs[1..]);
      assert lines == [lines[0]] + lines[1..];
    }
  }

  lemma FrameIsTerminated(s: string)
    requires IsFrame(s)
    ensures s == Terminated(Tokens(s, CRLF), CRLF) && FrameLines(Tokens(s, CRLF))
  {
    hide Tokens, FindFrom, Joined, Terminated, ScanEndsAtEnd;
    FrameIffLines(s);
    DelimitersAreBorderless();
    SplitThenJoin(s, CRLF);
    ScanEndsIffSuffix(s, CRLF);
    BlankLineIsTwoCrlf(s, |s| - 4);
    JoinedIsTerminated(Tokens(s, CRLF), CRLF);
  }

  /** What was read as an announced message is that message, byte for byte. */
  lemma BytesOfReading(stream: string, bodyless: bool, m: Message, rest: string)
    requires Announced(m, bodyless) && ReadOne(stream, bodyless) == Got(m, rest)
    ensures stream == Bytes(m) + rest
  {
    hide Tokens, FindFrom, HeaderText, Fields, ContentLength, AllSound, Terminated, FrameLines;
    var n := Find(stream, BLANK_LINE).value;
    var head, tail := stream[..n + 4], stream[n + 4..];
    FirstCutIsFrame(stream, n);
    FrameIsTerminated(head);
    var lines := Tokens(head, CRLF);
    EdgesOfFrame(lines);
    LinesOfFields(lines[1..|lines| - 1], m.headers);
    assert lines == [lines[0]] + lines[1..|lines| - 1] + [lines[|lines| - 1]] == HeadLines(m);
    HeadIsTerminated(m);
    assert tail == m.body + rest;
    assert stream == head + tail;
    Assoc(head, m.body, rest);
  }

  lemma EdgesOfFrame(lines: seq<string>)
    requires FrameLines(lines)
    ensures |lines| >= 2 && lines[|lines| - 1] == ""
  {
  }

  /** A client that knows which requests were HEADs reads these announced messages,
      and is left with `rest`, exactly when the stream is their bytes before `rest`. */
  lemma {:induction false} ReadsIffBytes(stream: string, ms: seq<Message>, bodyless: seq<bool>, rest: string)
    requires |ms| == |bodyless| && forall i :: 0 <= i < |ms| ==> Announced(ms[i], bodyless[i])
    ensures ReadAll(stream, bodyless) == GotAll(ms, rest) <==> stream == AllBytes(ms) + rest
    decreases bodyless
  {
    hide Announced, ReadOne, Bytes;
    ReadAllBack(ms, bodyless, rest);
    if ReadAll(stream, bodyless) == GotAll(ms, rest) {
      if ms == [] {
        assert "" + rest == rest;
      } else {
        var one := ReadOne(stream, bodyless[0]);
        assert one.Got? && ReadAll(one.rest, bodyless[1..]).GotAll?;
        assert ms[1..] == ReadAll(one.rest, bodyless[1..]).ms;
        BytesOfReading(stream, bodyless[0], ms[0], one.rest);
        ReadsIffBytes(one.rest, ms[1..], bodyless[1..], rest);
        Assoc(Bytes(ms[0]), AllBytes(ms[1..]), rest);
      }
    }
  }

  // -------------------------------------------------- A body sent after a HEAD

  /** What a client is to see of the messages: no body after a HEAD. */
  function Seen(ms: seq<Message>, bodyless: seq<bool>): (r: seq<Message>)
    requires |ms| == |bodyless|
    ensures |r| == |ms| && forall i :: 0 <= i < |ms| ==> r[i] == if bodyless[i] then ms[i].(body := "") else ms[i]
  {
    seq(|ms|, i requires 0 <= i < |ms| => if bodyless[i] then ms[i].(body := "") else ms[i])
  }

  lemma WithoutBody(m: Message)
    ensures Bytes(m) == Bytes(m.(body := "")) + m.body
  {
    var head := m.statusLine + CRLF + HeaderText(m.headers) + CRLF;
    assert head + "" == head;
  }

  /** Dropping the bodies shortens the stream exactly when there is one to drop. */
  lemma {:induction false} SeenBytes(ms: seq<Message>, bodyless: seq<bool>)
    requires |ms| == |bodyless|
    ensures |AllBytes(Seen(ms, bodyless))| <= |AllBytes(ms)|
    ensures |AllBytes(Seen(ms, bodyless))| == |AllBytes(ms)| <==> Seen(ms, bodyless) == ms
  {
    hide Bytes;
    if ms != [] {
      var r := Seen(ms, bodyless);
      SeenBytes(ms[1..], bodyless[1..]);
      assert r[1..] == Seen(ms[1..], bodyless[1..]);
      WithoutBody(ms[0]);
      assert r == ms <==> r[0] == ms[0] && r[1..] == ms[1..] by {
        assert r == [r[0]] + r[1..] && ms == [ms[0]] + ms[1..];
      }
    }
  }

  /** After a HEAD the client takes the head and leaves the body in the stream. */
  lemma BodyIsLeftBehind(m: Message, rest: string)
    requires Announced(m.(body := ""), true)
    ensures ReadOne(Bytes(m) + rest, true) == Got(m.(body := ""), m.body + rest)
  {
    hide ReadOne, Announced, Bytes;
    WithoutBody(m);
    ReadOneBack(m.(body := ""), true, m.body + rest);
    Assoc(Bytes(m.(body := "")), m.body, rest);
  }

  /** A body left behind without a line break in it becomes the start of the next
      reply's status line. */
  lemma NextStatusLineIsSpoiled(left: string, m: Message, bodyless: bool, rest: string)
    requires '\r' !in left && Announced(m, bodyless)
    ensures ReadOne(left + (Bytes(m) + rest), bodyless) == Got(m.(statusLine := left + m.statusLine), rest)
  {
    hide ReadOne, HeaderText, ContentLength, AllSound;
    var spoiled := m.(statusLine := left + m.statusLine);
    var tail := CRLF + HeaderText(m.headers) + CRLF + m.body;
    assert Bytes(m) == m.statusLine + tail;
    assert Bytes(spoiled) == left + m.statusLine + tail;
    assert left + (Bytes(m) + rest) == Bytes(spoiled) + rest;
    ReadOneBack(spoiled, bodyless, rest);
  }
}
