/** `src/http/header.cc`: one header line, parsed and printed. */
module Headers {
  import opened Strings
  import opened HttpUtils

  datatype Header = Header(key: string, value: string, valid: bool)

  /** The header a key and a value make (`Header(key, value)`). */
  function MakeHeader(key: string, value: string): Header {
    Header(key, value, true)
  }

  /** `Header::Serialize`. */
  function Print(h: Header): string {
    h.key + COLON + h.value + CRLF
  }

  function ChopColon(s: string): string {
    if EndsWith(s, COLON) then s[..|s| - 1] else s
  }

  /** What a line means: the first colon separates key and value, it must not
      be the last character, and one colon at the very end is dropped. */
  function Meaning(line: string): Header {
    match Find(line, COLON)
    case None => Header("", "", false)
    case Some(n) =>
      if n + 1 == |line| then Header("", "", false)
      else Header(line[..n], ChopColon(line[n + 1..]), true)
  }

  /** Tokens of a line that has a colon. */
  lemma LineTokens(line: string)
    requires Find(line, COLON).Some?
    ensures var n := Find(line, COLON).value;
            && n + 1 <= |line|
            && Tokens(line, COLON) == [line[..n]] + Tokens(line[n + 1..], COLON)
            && Joined(Tokens(line[n + 1..], COLON), COLON) == ChopColon(line[n + 1..])
  {
    hide FindFrom, Tokens, ScanEndsAtEnd, Joined;
    var n := Find(line, COLON).value;
    TokensUnfold(line, COLON, n);
    var rest := line[n + 1..];
    DelimitersAreBorderless();
    SplitThenJoin(rest, COLON);
    ScanEndsIffSuffix(rest, COLON);
    if EndsWith(rest, COLON) {
      assert rest == rest[..|rest| - 1] + COLON;
    }
  }

  lemma TokensEmptyIff(s: string)
    ensures Tokens(s, COLON) == [] <==> s == ""
  {
  }

  /** `Header(line)`: split at colons, then join the value back together. */
  method Parse(line: string) returns (h: Header)
    ensures h == Meaning(line)
  {
    hide Find, FindFrom, Joined, ChopColon;
    var tokens := Split(line, COLON);
    if Find(line, COLON).Some? {
      LineTokens(line);
      TokensEmptyIff(line[Find(line, COLON).value + 1..]);
    }
    if |tokens| < 2 {
      return Header("", "", false);
    }
    var key := tokens[0];
    tokens := tokens[1..];
    var value;
    if |tokens| == 1 {
      value := tokens[0];
      SingleJoined(tokens);
    } else {
      value := Join(tokens, COLON);
    }
    h := Header(key, value, true);
  }

  lemma SingleJoined(ts: seq<string>)
    requires |ts| == 1
    ensures Joined(ts, COLON) == ts[0]
  {
  }

  lemma ColonOccurs(s: string, i: nat)
    ensures OccursAt(s, COLON, i) <==> i < |s| && s[i] == ':'
  {
    assert COLON[0] == ':' && (i < |s| ==> s[i + 0] == s[i]);
  }

  /** `i` is the first colon of the line and something follows it. */
  ghost predicate Separates(line: string, i: nat) {
    i + 1 < |line| && line[i] == ':' && forall j :: 0 <= j < i ==> line[j] != ':'
  }

  lemma SeparatorIsFound(line: string, i: nat)
    ensures Separates(line, i) <==> Find(line, COLON) == Some(i) && i + 1 != |line|
  {
    hide FindFrom, OccursAt;
    FindIsFirst(line, COLON);
    ColonOccurs(line, i);
    forall j | 0 <= j < i ensures OccursAt(line, COLON, j) <==> j < |line| && line[j] == ':' {
      ColonOccurs(line, j);
    }
    if Find(line, COLON) == Some(i) {
      forall j | 0 <= j < i ensures line[j] != ':' {
        assert !OccursAt(line, COLON, j);
      }
    }
    if Separates(line, i) {
      FindIs(line, COLON, i);
    }
  }

  /** A line is a header exactly when a colon comes before its last byte; what
      stands before the first colon is the key. */
  lemma ValidIffSeparated(line: string)
    ensures Meaning(line).valid <==> exists i: nat :: Separates(line, i)
    ensures forall i: nat :: Separates(line, i) ==> Meaning(line).key == line[..i]
  {
    hide FindFrom, OccursAt, Separates;
    forall i: nat ensures Separates(line, i) <==> Find(line, COLON) == Some(i) && i + 1 != |line| {
      SeparatorIsFound(line, i);
    }
  }

  /** Printing a parsed line gives the line back unless it ends with a colon. */
  lemma PrintOfParseIff(line: string)
    requires Meaning(line).valid
    ensures Print(Meaning(line)) == line + CRLF <==> !EndsWith(line, COLON)
  {
    hide FindFrom;
    var n := Find(line, COLON).value;
    var v := line[n + 1..];
    assert line == line[..n] + COLON + v by {
      CutAtFind(line, COLON);
    }
    assert EndsWith(line, COLON) <==> EndsWith(v, COLON) by {
      assert line[|line| - 1] == v[|v| - 1];
    }
    assert EndsWith(v, COLON) ==> |ChopColon(v)| < |v|;
  }

  /** A key and a value survive printing and parsing exactly when the key has no
      colon and the value is neither empty nor ends with one. */
  lemma ParseOfPrintIff(key: string, value: string)
    ensures Meaning(key + COLON + value) == MakeHeader(key, value) <==>
            !Contains(key, COLON) && value != "" && !EndsWith(value, COLON)
  {
    var line := key + COLON + value;
    FindIsFirst(line, COLON);
    if !Contains(key, COLON) {
      DelimitersAreBorderless();
      FindAfterFree(key, COLON, value);
      assert line[..|key|] == key && line[|key| + 1..] == value;
    } else if n: nat :| Find(line, COLON) == Some(n) {
      var i :| 0 <= i <= |key| && OccursAt(key, COLON, i);
      OccursInPrefix(key, COLON + value, COLON, i);
      assert line == key + (COLON + value);
      assert n <= i < |key|;
    }
  }

  /** A header line is never empty. */
  lemma ValidLineNotEmpty(line: string)
    requires Meaning(line).valid
    ensures line != ""
  {
  }
}
