/** What `Format` makes of a text, told by its bytes: leading spaces go, the rest up
    to the first NUL is upper-cased, and nothing else goes. */
module Words {
  import opened Strings
  import opened HttpUtils

  /** The byte reads as this capital letter, or is this other byte. */
  predicate Reads(c: char, u: char) {
    c == u || ('A' <= u <= 'Z' && c as int == u as int + 32)
  }

  /** No small letters, no NUL, and no space at the start. */
  predicate IsWord(word: string) {
    word != "" && word[0] != ' ' && forall i :: 0 <= i < |word| ==> word[i] != '\0' && !('a' <= word[i] <= 'z')
  }

  /** `n` spaces, then the word in letters of either case, then the end or a NUL. */
  predicate SpellsAfter(s: string, word: string, n: nat) {
    && n + |word| <= |s|
    && (forall i :: 0 <= i < n ==> s[i] == ' ')
    && (forall i :: 0 <= i < |word| ==> Reads(s[n + i], word[i]))
    && (n + |word| < |s| ==> s[n + |word|] == '\0')
  }

  predicate Spells(s: string, word: string) {
    exists n | 0 <= n <= |s| :: SpellsAfter(s, word, n)
  }

  lemma UpperReads(c: char, u: char)
    requires !('a' <= u <= 'z')
    ensures UpperChar(c) == u <==> Reads(c, u)
  {
    if 'a' <= c <= 'z' {
      assert (c - ' ') as int == c as int - 32;
    }
  }

  /** The number of spaces a text starts with. */
  function Spaces(s: string): (n: nat)
    ensures n <= |s| && (forall i :: 0 <= i < n ==> s[i] == ' ') && (n < |s| ==> s[n] != ' ')
  {
    if s == "" || s[0] != ' ' then 0 else 1 + Spaces(s[1..])
  }

  /** Everything before the first NUL of what follows the spaces, in capitals. */
  lemma FormatIs(s: string)
    ensures Format(s) == Upper(CStr(s[Spaces(s)..]))
  {
    hide CStr, Upper, FirstNotOf, LastNotOf;
    var n := Spaces(s);
    if n == |s| {
      assert LastNotOf(s, SPACE).None?;
      assert s[n..] == "";
    } else {
      assert s[n] !in SPACE;
      assert FirstNotOf(s, SPACE) == Some(n);
      assert LastNotOf(s, SPACE).Some?;
      CutTwice(s[n..]);
    }
  }

  lemma CutTwice(s: string)
    ensures CStr(CStr(s)) == CStr(s)
  {
    CStrIsPrefixIff(CStr(s), |CStr(s)|);
  }

  /** Leading spaces make no difference. */
  lemma FormatDropsLeadingSpaces(spaces: string, x: string)
    requires forall i :: 0 <= i < |spaces| ==> spaces[i] == ' '
    requires x != "" && x[0] != ' ' && '\0' !in x
    ensures Format(spaces + x) == Upper(x)
  {
    hide Format, Upper, CStr;
    FormatIs(spaces + x);
    assert (spaces + x)[|spaces|] == x[0];
    assert Spaces(spaces + x) == |spaces|;
    assert (spaces + x)[|spaces|..] == x;
    CStrIsPrefixIff(x, |x|);
    assert x[..|x|] == x;
  }

  lemma SpellsAtSpaces(s: string, word: string, n: nat)
    requires IsWord(word) && SpellsAfter(s, word, n)
    ensures n == Spaces(s)
  {
    assert Reads(s[n], word[0]);
  }

  lemma UpperIs(x: string, word: string)
    requires IsWord(word)
    ensures Upper(x) == word <==> |x| == |word| && forall i :: 0 <= i < |word| ==> Reads(x[i], word[i])
  {
    if |x| == |word| {
      forall i | 0 <= i < |x| ensures Upper(x)[i] == word[i] <==> Reads(x[i], word[i]) {
        UpperReads(x[i], word[i]);
      }
    }
  }

  lemma ReadsNoNul(c: char, u: char)
    requires Reads(c, u) && u != '\0'
    ensures c != '\0'
  {
  }

  /** A text formats to a word exactly when it spells it. */
  lemma FormatIff(s: string, word: string)
    requires IsWord(word)
    ensures Format(s) == word <==> Spells(s, word)
  {
    hide Format, Upper, CStr;
    var n := Spaces(s);
    var x := s[n..];
    FormatIs(s);
    UpperIs(CStr(x), word);
    if Format(s) == word {
      assert SpellsAfter(s, word, n);
    }
    if Spells(s, word) {
      var k :| 0 <= k <= |s| && SpellsAfter(s, word, k);
      SpellsAtSpaces(s, word, k);
      forall i | 0 <= i < |word| ensures x[i] != '\0' {
        ReadsNoNul(s[n + i], word[i]);
      }
      CStrIsPrefixIff(x, |word|);
      assert CStr(x) == x[..|word|];
    }
  }

  // ------------------------------------------------------------ The tables

  lemma WordsAreWords()
    ensures IsWord("GET") && IsWord("HEAD") && IsWord("HTTP/1.1")
    ensures IsWord("CONNECTION") && IsWord("KEEP-ALIVE")
    ensures IsWord("HTML") && IsWord("CSS") && IsWord("PNG") && IsWord("JPG") && IsWord("JPEG") && IsWord("GIF")
  {
  }

  lemma MethodIff(s: string)
    ensures ToMethod(s) == GET <==> Spells(s, "GET")
    ensures ToMethod(s) == HEAD <==> Spells(s, "HEAD")
  {
    hide Format, Spells;
    WordsAreWords();
    FormatIff(s, "GET");
    FormatIff(s, "HEAD");
  }

  lemma VersionIff(s: string)
    ensures ToVersion(s) == HTTP_1_1 <==> Spells(s, "HTTP/1.1")
  {
    hide Format, Spells;
    WordsAreWords();
    FormatIff(s, "HTTP/1.1");
  }

  /** The type announced for a file name's extension. */
  lemma MimeIff(s: string)
    ensures var mime := ExtensionToMime(ToExtension(s));
            && (Spells(s, "HTML") <==> mime == "text/html")
            && (Spells(s, "CSS") <==> mime == "text/css")
            && (Spells(s, "PNG") <==> mime == "image/png")
            && (Spells(s, "JPG") <==> mime == "image/jpg")
            && (Spells(s, "JPEG") <==> mime == "image/jpeg")
            && (Spells(s, "GIF") <==> mime == "image/gif")
            && (mime in {"text/html", "text/css", "image/png", "image/jpg", "image/jpeg", "image/gif"}
                || mime == "application/octet-stream")
  {
    hide Format, Spells, IsWord;
    WordsAreWords();
    FormatIff(s, "HTML");
    FormatIff(s, "CSS");
    FormatIff(s, "PNG");
    FormatIff(s, "JPG");
    FormatIff(s, "JPEG");
    FormatIff(s, "GIF");
    MimesDiffer();
  }

  lemma MimesDiffer()
    ensures forall e: Extension, f: Extension :: ExtensionToMime(e) == ExtensionToMime(f) ==> e == f
  {
    assert ExtensionToMime(HTML)[0] == 't' && ExtensionToMime(CSS)[0] == 't' && ExtensionToMime(OCTET)[0] == 'a';
    assert ExtensionToMime(PNG)[0] == ExtensionToMime(JPG)[0] == ExtensionToMime(JPEG)[0] == ExtensionToMime(GIF)[0]
        == 'i';
    assert |ExtensionToMime(HTML)| != |ExtensionToMime(CSS)| && |ExtensionToMime(JPEG)| == 10;
    assert ExtensionToMime(PNG)[6] == 'p' && ExtensionToMime(JPG)[6] == 'j' && ExtensionToMime(GIF)[6] == 'g';
  }
}
