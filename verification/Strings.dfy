/** Byte strings and the first-occurrence search that the C++ code takes from
    `std::string_view::find`.  A `char` stands for one byte; nothing below
    depends on how many byte values there are. */
module Strings {

  datatype Option<+T> = None | Some(value: T) {
    function GetOr(default: T): T {
      if Some? then value else default
    }
  }

  /** `d` stands at position `i` of `s`. */
  predicate OccursAt(s: string, d: string, i: int) {
    0 <= i <= |s| - |d| && forall k :: 0 <= k < |d| ==> s[i + k] == d[k]
  }

  predicate Contains(s: string, d: string) {
    exists i | 0 <= i <= |s| :: OccursAt(s, d, i)
  }

  lemma Assoc(a: string, b: string, c: string)
    ensures a + b + c == a + (b + c)
  {
  }

  /** `s.find(d, from)`: the first occurrence at or after `from`. */
  function FindFrom(s: string, d: string, from: nat): (r: Option<nat>)
    ensures r.Some? ==> from <= r.value <= |s| - |d|
    decreases |s| - from
  {
    if |s| < from + |d| then None
    else if OccursAt(s, d, from) then Some(from)
    else FindFrom(s, d, from + 1)
  }

  /** Nothing occurs between the start of the search and its result. */
  lemma {:induction false} FindFromIsFirst(s: string, d: string, from: nat)
    ensures FindFrom(s, d, from).Some? ==> OccursAt(s, d, FindFrom(s, d, from).value)
    ensures forall j :: from <= j < (if FindFrom(s, d, from).Some? then FindFrom(s, d, from).value else |s| + 1)
                        ==> !OccursAt(s, d, j)
    decreases |s| - from
  {
    if from + |d| <= |s| && !OccursAt(s, d, from) {
      FindFromIsFirst(s, d, from + 1);
    }
  }

  function Find(s: string, d: string): (r: Option<nat>)
    ensures r.Some? ==> OccursAt(s, d, r.value)
  {
    FindFromIsFirst(s, d, 0);
    FindFrom(s, d, 0)
  }

  lemma FindIsFirst(s: string, d: string)
    ensures Find(s, d).Some? ==> forall j :: 0 <= j < Find(s, d).value ==> !OccursAt(s, d, j)
    ensures Find(s, d).None? ==> forall j :: !OccursAt(s, d, j)
  {
    FindFromIsFirst(s, d, 0);
  }

  predicate StartsWith(s: string, d: string) {
    OccursAt(s, d, 0)
  }

  predicate EndsWith(s: string, d: string) {
    OccursAt(s, d, |s| - |d|)
  }

  /** No proper non-empty prefix of `d` is also a suffix of it, so two
      occurrences of `d` never overlap. */
  ghost predicate Borderless(d: string) {
    d != "" && forall k :: 0 < k < |d| ==> d[k..] != d[..|d| - k]
  }

  /** The first occurrence is the only position with its two properties. */
  lemma FindIs(s: string, d: string, n: nat)
    requires OccursAt(s, d, n)
    requires forall j :: 0 <= j < n ==> !OccursAt(s, d, j)
    ensures Find(s, d) == Some(n)
  {
    FindIsFirst(s, d);
  }

  lemma FindNone(s: string, d: string)
    ensures Find(s, d).None? <==> !Contains(s, d)
  {
    FindIsFirst(s, d);
  }

  lemma OccursInSuffix(s: string, d: string, k: nat, i: nat)
    requires k <= |s|
    ensures OccursAt(s[k..], d, i) <==> OccursAt(s, d, k + i)
  {
    if i + |d| <= |s| - k {
      assert s[k..][i..i + |d|] == s[k + i..k + i + |d|];
    }
  }

  lemma OccursInPrefix(s: string, t: string, d: string, i: nat)
    requires i + |d| <= |s|
    ensures OccursAt(s + t, d, i) <==> OccursAt(s, d, i)
  {
    assert (s + t)[i..i + |d|] == s[i..i + |d|];
  }

  /** Searching from a cursor is searching the rest of the string. */
  lemma FindFromIsFindInRest(s: string, d: string, c: nat)
    requires c <= |s|
    ensures FindFrom(s, d, c).Some? <==> Find(s[c..], d).Some?
    ensures Find(s[c..], d).Some? ==> FindFrom(s, d, c) == Some(c + Find(s[c..], d).value)
  {
    FindFromIsFirst(s, d, c);
    match FindFrom(s, d, c)
    case Some(n) =>
      OccursInSuffix(s, d, c, n - c);
      forall j | 0 <= j < n - c ensures !OccursAt(s[c..], d, j) {
        OccursInSuffix(s, d, c, j);
      }
      FindIs(s[c..], d, n - c);
    case None =>
      forall j: nat ensures !OccursAt(s[c..], d, j) {
        OccursInSuffix(s, d, c, j);
      }
  }

  /** Bytes that arrive later never move an occurrence already found. */
  lemma FindInExtension(s: string, t: string, d: string)
    requires Find(s, d).Some?
    ensures Find(s + t, d) == Find(s, d)
  {
    var n := Find(s, d).value;
    OccursInPrefix(s, t, d, n);
    FindIsFirst(s, d);
    forall j | 0 <= j < n ensures !OccursAt(s + t, d, j) {
      OccursInPrefix(s, t, d, j);
    }
    FindIs(s + t, d, n);
  }

  /** A borderless `d` placed after a `d`-free text is found exactly there. */
  lemma FindAfterFree(t: string, d: string, rest: string)
    requires Borderless(d) && !Contains(t, d)
    ensures Find(t + d + rest, d) == Some(|t|)
  {
    var s := t + d + rest;
    assert s[|t|..|t| + |d|] == d;
    forall j | 0 <= j < |t| ensures !OccursAt(s, d, j) {
      if j + |d| <= |t| {
        assert !OccursAt(t, d, j);
        assert t[j..j + |d|] == s[j..j + |d|];
      } else if j + |d| <= |s| {
        var k := |t| - j;
        assert d[k..] != d[..|d| - k];
        var m :| 0 <= m < |d| - k && d[k + m] != d[m];
        assert s[j + (k + m)] == d[m];
      }
    }
    FindIs(s, d, |t|);
  }

  /** Cutting a string at the first occurrence of `d`. */
  lemma CutAtFind(s: string, d: string)
    requires Find(s, d).Some?
    ensures var n := Find(s, d).value;
            && n + |d| <= |s| && s == s[..n] + d + s[n + |d|..]
            && (d != "" ==> !Contains(s[..n], d))
  {
    var n := Find(s, d).value;
    FindIsFirst(s, d);
    if d != "" {
      forall i | 0 <= i <= n ensures !OccursAt(s[..n], d, i) {
        if i + |d| <= n {
          assert !OccursAt(s, d, i);
          assert s[i..i + |d|] == s[..n][i..i + |d|];
        }
      }
    }
  }

  lemma NoOverlap(s: string, d: string, n: nat, k: nat)
    requires Borderless(d) && OccursAt(s, d, n) && 0 < k < |d|
    ensures !OccursAt(s, d, n + k)
  {
    assert d[k..] != d[..|d| - k];
    var m :| 0 <= m < |d| - k && d[k + m] != d[m];
    assert s[n + (k + m)] == d[k + m];
    assert n + k + |d| <= |s| ==> s[(n + k) + m] != d[m];
  }

  /** An occurrence after the first one of a borderless `d` lies wholly after it. */
  lemma NextOccurrence(s: string, d: string, i: nat)
    requires Borderless(d) && OccursAt(s, d, i)
    ensures Find(s, d).Some?
    ensures var n := Find(s, d).value; i == n || n + |d| <= i
  {
    FindIsFirst(s, d);
    var n := Find(s, d).value;
    if n < i < n + |d| {
      NoOverlap(s, d, n, i - n);
    }
  }
}
