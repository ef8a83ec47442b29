/** `src/http/http_utils.cc`: tokenising, joining, trimming and the small
    look-up tables. */
module HttpUtils {
  import opened Strings

  const CRLF := "\r\n"
  const SPACE := " "
  const COLON := ":"

  // ---------------------------------------------------------------- Split, Join

  /** The tokens `Split` produces: what stands before the first delimiter, then
      the tokens of the rest.  An empty rest yields no token. */
  function Tokens(s: string, d: string): seq<string>
    requires d != ""
    decreases |s|
  {
    if s == "" then []
    else if Find(s, d).None? then [s]
    else [s[..Find(s, d).value]] + Tokens(s[Find(s, d).value + |d|..], d)
  }

  lemma TokensUnfold(s: string, d: string, n: nat)
    requires d != "" && Find(s, d) == Some(n)
    ensures s != "" && n + |d| <= |s|
    ensures Tokens(s, d) == [s[..n]] + Tokens(s[n + |d|..], d)
  {
    hide Find;
  }

  /** One turn of the scanning loop, seen from a cursor inside the text. */
  lemma TokensAtCursor(s: string, d: string, c: nat, n: nat)
    requires d != "" && c <= |s| && FindFrom(s, d, c) == Some(n)
    ensures Tokens(s[c..], d) == [s[c..n]] + Tokens(s[n + |d|..], d)
  {
    var r, k := s[c..], n - c;
    assert Find(r, d) == Some(k) by {
      FindFromIsFindInRest(s, d, c);
    }
    TokensUnfold(r, d, k);
    assert r[..k] == s[c..n];
    assert r[k + |d|..] == s[n + |d|..];
  }

  lemma TokensAtLast(s: string, d: string, c: nat)
    requires d != "" && c <= |s| && FindFrom(s, d, c) == None
    ensures Tokens(s[c..], d) == if c == |s| then [] else [s[c..]]
  {
    FindFromIsFindInRest(s, d, c);
  }

  lemma TokensOfEmpty(d: string)
    requires d != ""
    ensures Tokens("", d) == []
  {
  }

  method Split(str: string, delim: string) returns (tokens: seq<string>)
    requires delim != ""
    ensures tokens == Tokens(str, delim)
  {
    hide *;
    tokens := [];
    if str == "" {
      TokensOfEmpty(delim);
      return;
    }
    var curr := 0;
    assert str[0..] == str;
    var next := FindFrom(str, delim, curr);
    while next.Some?
      invariant curr <= |str| && next == FindFrom(str, delim, curr)
      invariant tokens + Tokens(str[curr..], delim) == Tokens(str, delim)
      decreases |str| - curr
    {
      var token := str[curr..next.value];
      assert tokens + Tokens(str[curr..], delim)
          == (tokens + [token]) + Tokens(str[next.value + |delim|..], delim) by {
        TokensAtCursor(str, delim, curr, next.value);
      }
      tokens := tokens + [token];
      curr := next.value + |delim|;
      next := FindFrom(str, delim, curr);
    }
    TokensAtLast(str, delim, curr);
    if curr != |str| {
      tokens := tokens + [str[curr..]];
    }
  }

  function Joined(ts: seq<string>, d: string): string {
    if ts == [] then "" else if |ts| == 1 then ts[0] else ts[0] + d + Joined(ts[1..], d)
  }

  /** Every token followed by one delimiter: the text whose tokens they are. */
  function Terminated(ts: seq<string>, d: string): string {
    if ts == [] then "" else ts[0] + d + Terminated(ts[1..], d)
  }

  lemma {:induction false} TerminatedConcat(a: seq<string>, b: seq<string>, d: string)
    ensures Terminated(a + b, d) == Terminated(a, d) + Terminated(b, d)
  {
    if a == [] {
      assert a + b == b;
    } else {
      assert (a + b)[1..] == a[1..] + b;
      TerminatedConcat(a[1..], b, d);
    }
  }

  lemma {:induction false} JoinedIsTerminated(ts: seq<string>, d: string)
    requires ts != []
    ensures Joined(ts, d) + d == Terminated(ts, d)
  {
    if |ts| > 1 {
      JoinedIsTerminated(ts[1..], d);
    }
  }

  method Join(tokens: seq<string>, delim: string) returns (r: string)
    ensures r == Joined(tokens, delim)
  {
    if |tokens| == 0 {
      return "";
    }
    if |tokens| == 1 {
      return tokens[0];
    }
    r := "";
    for i := 0 to |tokens| - 1
      invariant r == Terminated(tokens[..i], delim)
    {
      assert tokens[..i + 1] == tokens[..i] + [tokens[i]];
      TerminatedConcat(tokens[..i], [tokens[i]], delim);
      assert Terminated([tokens[i]], delim) == tokens[i] + delim;
      r := r + tokens[i] + delim;
    }
    var last := |tokens| - 1;
    r := r + tokens[last];
    assert tokens == tokens[..last] + [tokens[last]];
    TerminatedConcat(tokens[..last], [tokens[last]], delim);
    JoinedIsTerminated(tokens, delim);
    assert r + delim == Joined(tokens, delim) + delim;
    assert r == (r + delim)[..|r|];
  }

  ghost predicate AllFree(ts: seq<string>, d: string) {
    forall i :: 0 <= i < |ts| ==> !Contains(ts[i], d)
  }

  lemma {:induction false} TokensAreFree(s: string, d: string)
    requires d != ""
    ensures AllFree(Tokens(s, d), d)
    decreases |s|
  {
    FindNone(s, d);
    if s != "" && Find(s, d).Some? {
      CutAtFind(s, d);
      TokensAreFree(s[Find(s, d).value + |d|..], d);
    }
  }

  /** The scan for delimiters finishes exactly at the end of the text, so
      `Split` drops the empty piece after the last delimiter. */
  predicate ScanEndsAtEnd(s: string, d: string)
    requires d != ""
    decreases |s|
  {
    match Find(s, d)
    case None => false
    case Some(n) => n + |d| == |s| || ScanEndsAtEnd(s[n + |d|..], d)
  }

  /** Splitting then joining loses at most one trailing delimiter. */
  lemma {:induction false} SplitThenJoin(s: string, d: string)
    requires d != ""
    ensures s == Joined(Tokens(s, d), d) + if ScanEndsAtEnd(s, d) then d else ""
    decreases |s|
  {
    if s != "" && Find(s, d).Some? {
      CutAtFind(s, d);
      var rest := s[Find(s, d).value + |d|..];
      SplitThenJoin(rest, d);
      assert Tokens(s, d)[1..] == Tokens(rest, d);
    }
  }

  /** ... and it loses it exactly when the scan ends at the end of the text. */
  lemma {:induction false} SplitThenJoinIsIdentityIff(s: string, d: string)
    requires d != ""
    ensures Joined(Tokens(s, d), d) == s <==> !ScanEndsAtEnd(s, d)
  {
    SplitThenJoin(s, d);
  }

  /** For a delimiter that cannot overlap itself the scan ends at the end of
      the text exactly when the text ends with the delimiter. */
  lemma {:induction false} ScanEndsIffSuffix(s: string, d: string)
    requires Borderless(d)
    ensures ScanEndsAtEnd(s, d) <==> EndsWith(s, d)
    decreases |s|
  {
    match Find(s, d)
    case None =>
      FindIsFirst(s, d);
    case Some(n) =>
      if n + |d| < |s| {
        ScanEndsIffSuffix(s[n + |d|..], d);
        SuffixAfterFirst(s, d);
      }
  }

  lemma SuffixAfterFirst(s: string, d: string)
    requires Borderless(d) && Find(s, d).Some? && Find(s, d).value + |d| < |s|
    ensures EndsWith(s, d) <==> EndsWith(s[Find(s, d).value + |d|..], d)
  {
    var n := Find(s, d).value;
    var k, e := n + |d|, |s| - |d|;
    if e >= k {
      OccursInSuffix(s, d, k, e - k);
    } else {
      NoOverlap(s, d, n, e - n);
    }
  }

  lemma TokensAfterFree(t: string, d: string, rest: string)
    requires Borderless(d) && !Contains(t, d)
    ensures Tokens(t + d + rest, d) == [t] + Tokens(rest, d)
  {
    var s := t + d + rest;
    FindAfterFree(t, d, rest);
    assert s[..|t|] == t && s[|t| + |d|..] == rest;
  }

  /** Lines written with a terminator each are read back exactly. */
  lemma {:induction false} SplitOfTerminated(ts: seq<string>, d: string)
    requires Borderless(d) && AllFree(ts, d)
    ensures Tokens(Terminated(ts, d), d) == ts
  {
    if ts != [] {
      TokensAfterFree(ts[0], d, Terminated(ts[1..], d));
      SplitOfTerminated(ts[1..], d);
    }
  }

  /** Joining then splitting recovers the tokens exactly when none contains the
      delimiter and the last is not empty. */
  lemma JoinThenSplitIff(ts: seq<string>, d: string)
    requires Borderless(d) && ts != []
    ensures Tokens(Joined(ts, d), d) == ts <==> AllFree(ts, d) && ts[|ts| - 1] != ""
  {
    TokensAreFree(Joined(ts, d), d);
    if AllFree(ts, d) {
      SplitOfJoined(ts, d);
    }
  }

  lemma {:induction false} SplitOfJoined(ts: seq<string>, d: string)
    requires Borderless(d) && ts != [] && AllFree(ts, d)
    ensures Tokens(Joined(ts, d), d) == if ts[|ts| - 1] != "" then ts else ts[..|ts| - 1]
  {
    var last := |ts| - 1;
    if last == 0 {
      FindNone(ts[0], d);
    } else {
      TokensAfterFree(ts[0], d, Joined(ts[1..], d));
      SplitOfJoined(ts[1..], d);
      assert ts == [ts[0]] + ts[1..] && ts[..last] == [ts[0]] + ts[1..][..last - 1];
    }
  }

  lemma DelimitersAreBorderless()
    ensures Borderless(CRLF) && Borderless(SPACE) && Borderless(COLON)
  {
    assert CRLF[1..] == "\n" && CRLF[..1] == "\r";
  }

  // ------------------------------------------------------- Trim, ToUpper, Format

  /** What a C string pointer to the storage of `s` denotes. */
  function CStr(s: string): (r: string)
    ensures '\0' !in r && r <= s && (r == s || s[|r|] == '\0')
  {
    if s == "" || s[0] == '\0' then "" else [s[0]] + CStr(s[1..])
  }

  function FirstNotOf(s: string, d: string): (r: Option<nat>)
    ensures r.Some? ==> r.value < |s| && s[r.value] !in d && forall i :: 0 <= i < r.value ==> s[i] in d
    ensures r.None? <==> forall i :: 0 <= i < |s| ==> s[i] in d
  {
    if s == "" then None
    else if s[0] !in d then Some(0)
    else match FirstNotOf(s[1..], d)
      case None =>
        assert forall i :: 1 <= i < |s| ==> s[i] == s[1..][i - 1];
        None
      case Some(n) =>
        assert forall i :: 1 <= i < |s| ==> s[i] == s[1..][i - 1];
        Some(n + 1)
  }

  function LastNotOf(s: string, d: string): (r: Option<nat>)
    ensures r.Some? ==> r.value < |s| && s[r.value] !in d && forall i :: r.value < i < |s| ==> s[i] in d
    ensures r.None? <==> forall i :: 0 <= i < |s| ==> s[i] in d
  {
    if s == "" then None
    else if s[|s| - 1] !in d then Some(|s| - 1)
    else LastNotOf(s[..|s| - 1], d)
  }

  /** `Trim` as written.  The code takes `substr(l, r - l + 1).data()`, which
      forgets the length: the copy runs from `l` to the first NUL byte or to
      the terminator of the owning string. */
  function Trim(s: string, d: string): string {
    match LastNotOf(s, d)
    case None => ""
    case Some(_) => CStr(s[FirstNotOf(s, d).value..])
  }

  /** `Trim` as its header documents it: both ends removed. */
  function TrimBothEnds(s: string, d: string): string {
    match LastNotOf(s, d)
    case None => ""
    case Some(r) => s[FirstNotOf(s, d).value..r + 1]
  }

  lemma CStrIsPrefixIff(x: string, m: nat)
    requires m <= |x|
    ensures CStr(x) == x[..m] <==> '\0' !in x[..m] && (m == |x| || x[m] == '\0')
  {
    var k := |CStr(x)|;
    assert CStr(x) == x[..k];
    if k < m {
      assert x[..m][k] == '\0';
    } else if m < k {
      assert x[m] == CStr(x)[m];
    }
  }

  predicate KeptTextIsWhole(s: string, l: nat, e: nat)
    requires l <= e <= |s|
  {
    '\0' !in s[l..e] && (e == |s| || s[e] == '\0')
  }

  lemma CStrOfCutIff(s: string, l: nat, e: nat)
    requires l <= e <= |s|
    ensures CStr(s[l..]) == s[l..e] <==> KeptTextIsWhole(s, l, e)
  {
    assert s[l..][..e - l] == s[l..e];
    CStrIsPrefixIff(s[l..], e - l);
  }

  /** The documented trim is what the code does exactly when no NUL lies in the
      kept text and nothing, or a NUL, follows it. */
  lemma TrimMeetsItsDocumentationIff(s: string, d: string)
    ensures Trim(s, d) == TrimBothEnds(s, d) <==>
            LastNotOf(s, d).Some? ==> KeptTextIsWhole(s, FirstNotOf(s, d).value, LastNotOf(s, d).value + 1)
  {
    hide CStr, FirstNotOf, LastNotOf, KeptTextIsWhole;
    if LastNotOf(s, d).Some? {
      CStrOfCutIff(s, FirstNotOf(s, d).value, LastNotOf(s, d).value + 1);
    }
  }

  /** A trailing space is kept, so the documented claim fails on " a ". */
  lemma TrimKeepsTrailingDelimiter()
    ensures Trim(" a ", SPACE) == "a " && TrimBothEnds(" a ", SPACE) == "a"
  {
    var s := " a ";
    assert s[..2][1] == 'a';
    assert LastNotOf(s[..2], SPACE) == Some(1);
    assert LastNotOf(s, SPACE) == Some(1);
    assert FirstNotOf(s, SPACE) == Some(1);
    assert s[1..] == "a " && s[1..2] == "a";
    assert "a "[1..] == " " && " "[1..] == "";
    assert CStr(" ") == " ";
    assert CStr("a ") == "a ";
  }

  function UpperChar(c: char): char {
    if 'a' <= c <= 'z' then c - ' ' else c
  }

  function Upper(s: string): (r: string)
    ensures |r| == |s|
    ensures forall i :: 0 <= i < |s| ==> r[i] == UpperChar(s[i])
  {
    seq(|s|, i requires 0 <= i < |s| => UpperChar(s[i]))
  }

  /** `std::string result(str.data())` cuts at the first NUL, then each byte is
      replaced in place. */
  method ToUpper(str: string) returns (result: string)
    ensures result == Upper(CStr(str))
  {
    result := CStr(str);
    for i := 0 to |result|
      invariant |result| == |CStr(str)|
      invariant forall j :: 0 <= j < i ==> result[j] == UpperChar(CStr(str)[j])
      invariant forall j :: i <= j < |result| ==> result[j] == CStr(str)[j]
    {
      result := result[i := UpperChar(result[i])];
    }
  }

  function Format(s: string): string {
    Upper(CStr(Trim(s, SPACE)))
  }

  // ------------------------------------------------------------ Look-up tables

  datatype Method = GET | HEAD | UnsupportedMethod
  datatype Version = HTTP_1_1 | UnsupportedVersion
  datatype Extension = HTML | CSS | PNG | JPG | JPEG | GIF | OCTET

  function ToMethod(s: string): Method {
    var f := Format(s);
    if f == "GET" then GET else if f == "HEAD" then HEAD else UnsupportedMethod
  }

  function ToVersion(s: string): Version {
    if Format(s) == "HTTP/1.1" then HTTP_1_1 else UnsupportedVersion
  }

  function ToExtension(s: string): Extension {
    var f := Format(s);
    if f == "HTML" then HTML
    else if f == "CSS" then CSS
    else if f == "PNG" then PNG
    else if f == "JPG" then JPG
    else if f == "JPEG" then JPEG
    else if f == "GIF" then GIF
    else OCTET
  }

  function ExtensionToMime(e: Extension): string {
    match e
    case HTML => "text/html"
    case CSS => "text/css"
    case PNG => "image/png"
    case JPG => "image/jpg"
    case JPEG => "image/jpeg"
    case GIF => "image/gif"
    case OCTET => "application/octet-stream"
  }
}
