/** What a client makes of a body sent after a HEAD: HTTP gives such a reply no
    body, so the bytes stay in the stream. */
module HeadReplies {
  import opened Strings
  import opened HttpUtils
  import opened Framing
  import opened Headers
  import opened Requests
  import opened RequestRoundTrip
  import opened Responses
  import opened Client
  import opened Replies
  import opened Session

  /** After a HEAD with CGI output the client stands before the output, and when
      that holds no line break the output becomes the start of the next status line. */
  lemma OutputSpoilsNextReply(w: World, i: nat, head: string, next: string, rest: string)
    requires HeadGetsBody(w, i, head)
    requires !HeadGetsBody(w, i + 1, next)
    ensures var m, n := ReplyTo(w, i, head).m, ReplyTo(w, i + 1, next).m;
            var output := w.cgi(i, w.directory + Read(head).url);
            && ReadOne(Bytes(m) + (Bytes(n) + rest), true) == Got(m.(body := ""), output + (Bytes(n) + rest))
            && ('\r' !in output ==>
                  ReadOne(output + (Bytes(n) + rest), IsHead(next))
                  == Got(n.(statusLine := output + n.statusLine), rest))
  {
    hide Read, ReadOne, Bytes, Announced, IsCgi, CgiProgram, HeadersOf, Changed;
    var m, n := ReplyTo(w, i, head).m, ReplyTo(w, i + 1, next).m;
    SeenIsAnnounced(w, i, head);
    BodyIsLeftBehind(m, Bytes(n) + rest);
    ReplyIsAnnounced(w, i + 1, next);
    if '\r' !in m.body {
      NextStatusLineIsSpoiled(m.body, n, IsHead(next), rest);
    }
  }

  // ------------------------------------------------------------------ An input

  const PROGRAM := "/cgi-bin/x"
  const ASKS_TO_KEEP := MakeHeader("Connection", "Keep-Alive")
  const WORLD := World("", map[PROGRAM := ""], (_: nat, _: string) => "out")

  /** The request itself. */
  function HeadOfProgram(): string {
    Write(HEAD, PROGRAM, [ASKS_TO_KEEP])
  }

  lemma AsksToKeep()
    ensures KeepsAlive(ASKS_TO_KEEP) && Writable(ASKS_TO_KEEP)
  {
    hide Format;
    FormattedConstants();
  }

  lemma ProgramIsCgi()
    ensures IsCgi(PROGRAM) && CgiProgram(PROGRAM) == Some(PROGRAM)
  {
    hide FindFrom;
    assert OccursAt(PROGRAM, CGI_FOLDER, 1);
    FindNone(PROGRAM, CGI_FOLDER);
    var k := Find(PROGRAM, CGI_FOLDER).value;
    NoByte(PROGRAM, SEPARATOR);
    FindFromIsFirst(PROGRAM, SEPARATOR, k);
  }

  lemma HeadOfProgramIsRead()
    ensures var q := Read(HeadOfProgram());
            q.valid && q.meth == HEAD && q.url == PROGRAM && !q.shouldClose
  {
    hide Writable, KeepsAlive, Read, Write;
    AsksToKeep();
    ReadOfWrite(HEAD, PROGRAM, [ASKS_TO_KEEP]);
    assert !NoneKeepsAlive([ASKS_TO_KEEP]) by {
      assert KeepsAlive([ASKS_TO_KEEP][0]);
    }
  }

  /** The reply to it: 200, kept, with the program's output. */
  lemma HeadOfProgramIsAnswered(i: nat)
    ensures var r := ReplyTo(WORLD, i, HeadOfProgram());
            r.m.statusLine == StatusLine(OK) && r.m.body == "out" && !r.finish && IsHead(HeadOfProgram())
    ensures HeadGetsBody(WORLD, i, HeadOfProgram())
  {
    hide HeadOfProgram, Read, HeadersOf, Changed, IsCgi, CgiProgram, Decimal.Print;
    HeadOfProgramIsRead();
    ProgramIsCgi();
    assert WORLD.directory + PROGRAM == PROGRAM;
  }

  /** Both requests are served, with the same reply. */
  lemma TwoAreServed()
    ensures var f := HeadOfProgram();
            HandleAll(WORLD, FRESH, [f + f]).replies == [ReplyTo(WORLD, 0, f), ReplyTo(WORLD, 1, f)]
  {
    hide HeadOfProgram, Read, ReplyTo, HandleAll, Frames, Leftover;
    var f := HeadOfProgram();
    HeadOfProgramIsRead();
    ValidRequestsAreRecovered([f, f], "");
    NoBlankLineInEmpty();
    NoFramesInside("");
    assert Concat([f, f]) + "" == f + f == Concat([f + f]) by {
      TwoTexts(f, f);
    }
    RepliesDoNotDependOnChunks(WORLD, [f + f]);
    HeadOfProgramIsAnswered(0);
    assert Serve(WORLD, 1, [f]) == [ReplyTo(WORLD, 1, f)] by {
      HeadOfProgramIsAnswered(1);
      EmptyTail(1, f);
    }
    assert [f, f] + [] == [f, f] && [f, f][1..] == [f];
  }

  lemma TwoTexts(a: string, b: string)
    ensures Concat([a, b]) == a + b && Concat([a + b]) == a + b
  {
    assert [a, b][1..] == [b] && [b][1..] == [] && [a + b][1..] == [];
    assert Concat([b]) == b + "" == b;
    assert Concat([a + b]) == a + b + "" == a + b;
  }

  lemma EmptyTail(i: nat, f: string)
    ensures Serve(WORLD, i, [f]) == [ReplyTo(WORLD, i, f)]
  {
    hide ReplyTo;
    assert [f][1..] == [];
    assert Serve(WORLD, i + 1, []) == [];
    assert [ReplyTo(WORLD, i, f)] + [] == [ReplyTo(WORLD, i, f)];
  }

  /** Two such requests on one connection: the second reply is read with a wrong
      status line, and the stream does not end with it. */
  lemma HeadOfProgramBreaksTheStream()
    ensures var f := HeadOfProgram();
            var ms := Messages(HandleAll(WORLD, FRESH, [f + f]).replies);
            && |ms| == 2 && ms[1].statusLine == StatusLine(OK)
            && ReadAll(AllBytes(ms), [true, true])
               == GotAll([ms[0].(body := ""), ms[1].(body := "", statusLine := "out" + StatusLine(OK))], "out")
  {
    hide HeadOfProgram, Read, ReplyTo, HandleAll, ReadOne, Bytes, Announced;
    var f := HeadOfProgram();
    TwoAreServed();
    HeadOfProgramIsAnswered(0);
    HeadOfProgramIsAnswered(1);
    var m, n := ReplyTo(WORLD, 0, f).m, ReplyTo(WORLD, 1, f).m;
    SeenIsAnnounced(WORLD, 0, f);
    SeenIsAnnounced(WORLD, 1, f);
    BodyIsLeftBehind(m, Bytes(n));
    WithoutBody(n);
    NextStatusLineIsSpoiled("out", n.(body := ""), true, "out");
    TwoMessages(m, n);
    assert Messages([ReplyTo(WORLD, 0, f), ReplyTo(WORLD, 1, f)]) == [m, n];
    TwoReadings(Bytes(m) + Bytes(n), m.(body := ""), "out" + Bytes(n),
                n.(body := "", statusLine := "out" + n.statusLine), "out");
  }

  lemma TwoMessages(m: Message, n: Message)
    ensures AllBytes([m, n]) == Bytes(m) + Bytes(n)
  {
    hide Bytes;
    assert [m, n][1..] == [n] && [n][1..] == [];
    assert AllBytes([n]) == Bytes(n) + "" == Bytes(n);
  }

  lemma TwoReadings(stream: string, m: Message, middle: string, n: Message, rest: string)
    requires ReadOne(stream, true) == Got(m, middle) && ReadOne(middle, true) == Got(n, rest)
    ensures ReadAll(stream, [true, true]) == GotAll([m, n], rest)
  {
    hide ReadOne;
    assert [true, true][1..] == [true] && [true][1..] == [];
    assert ReadAll(rest, []) == GotAll([], rest);
    assert [n] + [] == [n] && [m] + [n] == [m, n];
    assert ReadAll(middle, [true]) == GotAll([n], rest);
  }
}
