/** How a byte stream is cut into request frames: the text up to and including
    the first blank line, again and again. */
module Framing {
  import opened Strings
  import opened HttpUtils

  const BLANK_LINE := "\r\n\r\n"

  /** `s` ends with its first blank line. */
  predicate IsFrame(s: string) {
    |s| >= 4 && Find(s, BLANK_LINE) == Some(|s| - 4)
  }

  // ------------------------------------------------- Frames and lines of a frame

  lemma BlankLineIsTwoCrlf(s: string, i: nat)
    ensures OccursAt(s, BLANK_LINE, i) <==> OccursAt(s, CRLF, i) && OccursAt(s, CRLF, i + 2)
  {
    if i + 4 <= |s| {
      assert s[i..i + 4] == s[i..i + 2] + s[i + 2..i + 4];
      assert s[i..i + 4][..2] == s[i..i + 2] && s[i..i + 4][2..] == s[i + 2..i + 4];
      assert BLANK_LINE[..2] == CRLF && BLANK_LINE[2..] == CRLF;
    }
  }

  /** The line structure that a frame has: at least two lines, the last one
      empty, and no empty line strictly between the first and the last. */
  predicate FrameLines(ls: seq<string>) {
    && |ls| >= 2 && ls[|ls| - 1] == ""
    && forall i :: 0 < i < |ls| - 1 ==> ls[i] != ""
  }

  lemma FirstLineEmptyIff(s: string)
    requires s != ""
    ensures Tokens(s, CRLF)[0] == "" <==> StartsWith(s, CRLF)
  {
    FindIsFirst(s, CRLF);
  }

  lemma OnlyAnEmptyLine(s: string)
    ensures Tokens(s, CRLF) == [""] <==> s == CRLF
  {
    if s == CRLF {
      FindIs(s, CRLF, 0);
      TokensUnfold(s, CRLF, 0);
      assert s[..0] == "" && s[2..] == "";
    } else if s != "" && Find(s, CRLF).Some? {
      var n := Find(s, CRLF).value;
      TokensUnfold(s, CRLF, n);
      CutAtFind(s, CRLF);
      assert Tokens(s, CRLF)[0] == s[..n] && Tokens(s, CRLF)[1..] == Tokens(s[n + 2..], CRLF);
    }
  }

  /** Blank lines after the first line break are those of the rest. */
  lemma BlankLineAfterFirstBreak(s: string, i: nat)
    requires Find(s, CRLF).Some?
    ensures var k := Find(s, CRLF).value + 2;
            OccursAt(s, BLANK_LINE, i) <==>
            (i == k - 2 && StartsWith(s[k..], CRLF)) || (k <= i && OccursAt(s[k..], BLANK_LINE, i - k))
  {
    var n := Find(s, CRLF).value;
    DelimitersAreBorderless();
    BlankLineIsTwoCrlf(s, i);
    OccursInSuffix(s, CRLF, n + 2, 0);
    FindIsFirst(s, CRLF);
    if i == n + 1 {
      NoOverlap(s, CRLF, n, 1);
    }
    if n + 2 <= i {
      OccursInSuffix(s, BLANK_LINE, n + 2, i - n - 2);
    }
  }

  lemma {:induction false} FrameLinesMakeFrame(s: string)
    requires FrameLines(Tokens(s, CRLF))
    ensures IsFrame(s)
    decreases |s|
  {
    hide Find, Contains, Borderless;
    var ls := Tokens(s, CRLF);
    assert Find(s, CRLF).Some?;
    var n := Find(s, CRLF).value;
    TokensUnfold(s, CRLF, n);
    var rest := s[n + 2..];
    assert Tokens(rest, CRLF) == ls[1..];
    FirstLineEmptyIff(rest);
    if |ls| == 2 {
      OnlyAnEmptyLine(rest);
      assert StartsWith(rest, CRLF);
      FirstBlankLine(s, n);
    } else {
      assert rest != CRLF && !StartsWith(rest, CRLF);
      FrameLinesMakeFrame(rest);
      FirstBlankLine(s, |s| - 4);
    }
  }

  /** Where the first blank line of a text is, told by the text after its first
      line break. */
  lemma FirstBlankLine(s: string, e: nat)
    requires Find(s, CRLF).Some?
    requires var k := Find(s, CRLF).value + 2;
             if StartsWith(s[k..], CRLF) then e == k - 2
             else e >= k && Find(s[k..], BLANK_LINE) == Some(e - k)
    ensures Find(s, BLANK_LINE) == Some(e)
  {
    var k := Find(s, CRLF).value + 2;
    FindIsFirst(s[k..], BLANK_LINE);
    BlankLineAfterFirstBreak(s, e);
    forall j | 0 <= j < e ensures !OccursAt(s, BLANK_LINE, j) {
      BlankLineAfterFirstBreak(s, j);
    }
    FindIs(s, BLANK_LINE, e);
  }

  lemma {:induction false} FrameHasFrameLines(s: string)
    requires IsFrame(s)
    ensures FrameLines(Tokens(s, CRLF))
    decreases |s|
  {
    hide FindFrom, Tokens;
    var e := |s| - 4;
    DelimitersAreBorderless();
    BlankLineIsTwoCrlf(s, e);
    NextOccurrence(s, CRLF, e);
    var n := Find(s, CRLF).value;
    TokensUnfold(s, CRLF, n);
    var rest := s[n + 2..];
    FirstLineEmptyIff(rest);
    if n == e {
      OccursInSuffix(s, CRLF, n + 2, 0);
      assert rest == CRLF;
      OnlyAnEmptyLine(rest);
    } else {
      FindIsFirst(s, BLANK_LINE);
      BlankLineAfterFirstBreak(s, n);
      BlankLineAfterFirstBreak(s, e);
      forall j | 0 <= j < |rest| - 4 ensures !OccursAt(rest, BLANK_LINE, j) {
        BlankLineAfterFirstBreak(s, n + 2 + j);
      }
      FindIs(rest, BLANK_LINE, |rest| - 4);
      FrameHasFrameLines(rest);
    }
  }

  /** A text is a frame exactly when its lines have the shape of a frame. */
  lemma FrameIffLines(s: string)
    ensures IsFrame(s) <==> FrameLines(Tokens(s, CRLF))
  {
    if IsFrame(s) {
      FrameHasFrameLines(s);
    }
    if FrameLines(Tokens(s, CRLF)) {
      FrameLinesMakeFrame(s);
    }
  }

  // ------------------------------------------------------- Cutting a byte stream

  function Concat(ss: seq<string>): string {
    if ss == [] then "" else ss[0] + Concat(ss[1..])
  }

  /** What popping till a blank line yields until there is none left. */
  function Frames(s: string): seq<string>
    decreases |s|
  {
    match Find(s, BLANK_LINE)
    case None => []
    case Some(n) => [s[..n + 4]] + Frames(s[n + 4..])
  }

  /** ... and what then stays in the buffer. */
  function Leftover(s: string): string
    decreases |s|
  {
    match Find(s, BLANK_LINE)
    case None => s
    case Some(n) => Leftover(s[n + 4..])
  }

  lemma NothingToCut(s: string)
    requires Find(s, BLANK_LINE) == None
    ensures Concat(Frames(s)) == "" && Leftover(s) == s
  {
    hide Find;
  }

  lemma FramesUnfold(s: string, n: nat)
    requires Find(s, BLANK_LINE) == Some(n)
    ensures n + 4 <= |s| && Frames(s) == [s[..n + 4]] + Frames(s[n + 4..])
  {
    hide Find;
  }

  lemma LeftoverUnfold(s: string, n: nat)
    requires Find(s, BLANK_LINE) == Some(n)
    ensures n + 4 <= |s| && Leftover(s) == Leftover(s[n + 4..])
  {
    hide Find;
  }

  ghost predicate AllFrames(fs: seq<string>) {
    forall i :: 0 <= i < |fs| ==> IsFrame(fs[i])
  }

  lemma FirstCutIsFrame(s: string, n: nat)
    requires Find(s, BLANK_LINE) == Some(n)
    ensures IsFrame(s[..n + 4])
  {
    var f := s[..n + 4];
    assert s == f + s[n + 4..];
    FindIsFirst(s, BLANK_LINE);
    forall j | 0 <= j <= n ensures OccursAt(f, BLANK_LINE, j) <==> j == n {
      OccursInPrefix(f, s[n + 4..], BLANK_LINE, j);
    }
    FindIs(f, BLANK_LINE, n);
  }

  /** Cutting loses nothing: frames and leftover spell the stream. */
  lemma {:induction false} CuttingIsLossless(s: string)
    ensures Concat(Frames(s)) + Leftover(s) == s
    decreases |s|
  {
    hide *;
    match Find(s, BLANK_LINE)
    case None =>
      NothingToCut(s);
      assert "" + s == s;
    case Some(n) =>
      FramesUnfold(s, n);
      var f, rest := s[..n + 4], s[n + 4..];
      CuttingIsLossless(rest);
      LeftoverUnfold(s, n);
      ConcatCons(f, Frames(rest));
      Assoc(f, Concat(Frames(rest)), Leftover(rest));
  }

  lemma ConcatCons(f: string, fs: seq<string>)
    ensures Concat([f] + fs) == f + Concat(fs)
  {
    assert ([f] + fs)[1..] == fs;
  }

  lemma {:induction false} FramesAreFrames(s: string)
    ensures AllFrames(Frames(s))
    decreases |s|
  {
    match Find(s, BLANK_LINE)
    case None =>
    case Some(n) =>
      FramesUnfold(s, n);
      FirstCutIsFrame(s, n);
      FramesAreFrames(s[n + 4..]);
  }

  lemma {:induction false} LeftoverHasNoBlankLine(s: string)
    ensures !Contains(Leftover(s), BLANK_LINE)
    decreases |s|
  {
    match Find(s, BLANK_LINE)
    case None =>
      FindNone(s, BLANK_LINE);
    case Some(n) =>
      LeftoverUnfold(s, n);
      LeftoverHasNoBlankLine(s[n + 4..]);
  }

  /** A stream that begins with a frame is cut right after it. */
  lemma CutAfterFrame(f: string, rest: string)
    requires IsFrame(f)
    ensures Frames(f + rest) == [f] + Frames(rest) && Leftover(f + rest) == Leftover(rest)
  {
    hide Find, Frames, Leftover;
    FindInExtension(f, rest, BLANK_LINE);
    FramesUnfold(f + rest, |f| - 4);
    LeftoverUnfold(f + rest, |f| - 4);
    assert (f + rest)[..|f|] == f && (f + rest)[|f|..] == rest;
  }

  /** Any sequence of frames followed by any bytes is cut back into those
      frames and then the frames of the bytes. */
  lemma {:induction false} FramesAreRecovered(fs: seq<string>, rest: string)
    requires AllFrames(fs)
    ensures Frames(Concat(fs) + rest) == fs + Frames(rest)
    ensures Leftover(Concat(fs) + rest) == Leftover(rest)
  {
    hide Frames, Leftover, IsFrame;
    if fs == [] {
      assert Concat(fs) + rest == rest;
      assert fs + Frames(rest) == Frames(rest);
    } else {
      var more := Concat(fs[1..]) + rest;
      FramesAreRecovered(fs[1..], rest);
      Assoc(fs[0], Concat(fs[1..]), rest);
      CutAfterFrame(fs[0], more);
      assert fs + Frames(rest) == [fs[0]] + (fs[1..] + Frames(rest));
    }
  }

  /** Cutting is the only way to write a stream as frames followed by bytes
      without a blank line. */
  lemma CuttingIsUnique(fs: seq<string>, rest: string)
    requires AllFrames(fs) && !Contains(rest, BLANK_LINE)
    ensures Frames(Concat(fs) + rest) == fs && Leftover(Concat(fs) + rest) == rest
  {
    FramesAreRecovered(fs, rest);
    FindNone(rest, BLANK_LINE);
  }

  // --------------------------------------------------------- Independence of cuts

  /** Popping before more bytes arrive gives the same frames and leftover as
      waiting for them. */
  lemma CutEarlyOrLate(a: string, b: string)
    ensures Frames(a + b) == Frames(a) + Frames(Leftover(a) + b)
    ensures Leftover(a + b) == Leftover(Leftover(a) + b)
  {
    hide Frames, Leftover, IsFrame;
    CuttingIsLossless(a);
    FramesAreFrames(a);
    assert a + b == Concat(Frames(a)) + (Leftover(a) + b);
    FramesAreRecovered(Frames(a), Leftover(a) + b);
  }

  /** Frames popped when a buffer holding `buf` receives `chunks` one by one and
      is emptied of frames after each. */
  function FramesOfChunks(buf: string, chunks: seq<string>): seq<string>
    decreases chunks
  {
    if chunks == [] then []
    else Frames(buf + chunks[0]) + FramesOfChunks(Leftover(buf + chunks[0]), chunks[1..])
  }

  function LeftoverOfChunks(buf: string, chunks: seq<string>): string
    decreases chunks
  {
    if chunks == [] then buf
    else LeftoverOfChunks(Leftover(buf + chunks[0]), chunks[1..])
  }

  /** However the bytes are chunked, the same frames come out and the same
      bytes stay. */
  lemma {:induction false} ChunkingDoesNotMatter(buf: string, chunks: seq<string>)
    requires !Contains(buf, BLANK_LINE)
    ensures FramesOfChunks(buf, chunks) == Frames(buf + Concat(chunks))
    ensures LeftoverOfChunks(buf, chunks) == Leftover(buf + Concat(chunks))
    decreases chunks
  {
    hide FindFrom, Contains;
    if chunks == [] {
      assert buf + "" == buf;
      FindNone(buf, BLANK_LINE);
    } else {
      var next := buf + chunks[0];
      LeftoverHasNoBlankLine(next);
      ChunkingDoesNotMatter(Leftover(next), chunks[1..]);
      CutEarlyOrLate(next, Concat(chunks[1..]));
      assert buf + Concat(chunks) == next + Concat(chunks[1..]);
    }
  }
}
