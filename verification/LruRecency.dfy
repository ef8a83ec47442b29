/** What the cache holds, told by the requests alone: the files asked for last, as
    many of them as fit. */
module LruRecency {
  import opened Strings
  import opened Lru
  import opened LruInclusion
  import opened LruHits

  function Without(us: seq<string>, u: string): seq<string> {
    if us == [] then [] else (if us[0] == u then [] else [us[0]]) + Without(us[1..], u)
  }

  /** The files asked for, each once, in the order of the last request for it; files
      that are larger than the cache do not count. */
  function Recent(run: seq<Access>, capacity: nat, file: string -> string): seq<string> {
    if run == [] then []
    else
      var n := |run| - 1;
      var r, u := Recent(run[..n], capacity, file), run[n].url;
      if |file(u)| > capacity then r else Without(r, u) + [u]
  }

  /** `us` are the last files of `recent`, as many as fit. */
  ghost predicate LastThatFit(us: seq<string>, recent: seq<string>, capacity: nat, file: string -> string) {
    exists k: nat | k <= |recent| :: CutAt(us, recent, k, capacity, file)
  }

  ghost predicate CutAt(us: seq<string>, recent: seq<string>, k: nat, capacity: nat, file: string -> string)
    requires k <= |recent|
  {
    && us == recent[k..] && Sizes(us, file) <= capacity
    && forall j :: 0 <= j < k ==> Sizes(recent[j..], file) > capacity
  }

  // ------------------------------------------------------------- Taking one out

  lemma {:induction false} WithoutConcat(a: seq<string>, b: seq<string>, u: string)
    ensures Without(a + b, u) == Without(a, u) + Without(b, u)
  {
    if a == [] {
      assert a + b == b;
    } else {
      assert (a + b)[1..] == a[1..] + b;
      WithoutConcat(a[1..], b, u);
      var first := if a[0] == u then [] else [a[0]];
      assert first + Without(a[1..], u) + Without(b, u) == first + (Without(a[1..], u) + Without(b, u));
    }
  }

  lemma {:induction false} WithoutNone(us: seq<string>, u: string)
    requires u !in us
    ensures Without(us, u) == us
  {
    if us != [] {
      WithoutNone(us[1..], u);
    }
  }

  /** A file that is there stands at one place, and only that place goes. */
  lemma WithoutAt(us: seq<string>, i: nat)
    requires Different(us) && i < |us|
    ensures Without(us, us[i]) == us[..i] + us[i + 1..]
  {
    hide Without, Different;
    var a, u, b := us[..i], us[i], us[i + 1..];
    NotElsewhere(us, i);
    assert us == a + ([u] + b);
    WithoutConcat(a, [u] + b, u);
    WithoutConcat([u], b, u);
    WithoutOne(u);
    WithoutNone(a, u);
    WithoutNone(b, u);
    assert [] + b == b;
  }

  lemma NotElsewhere(us: seq<string>, i: nat)
    requires Different(us) && i < |us|
    ensures us[i] !in us[..i] && us[i] !in us[i + 1..]
  {
  }

  lemma WithoutOne(u: string)
    ensures Without([u], u) == []
  {
    assert [u][1..] == [];
  }

  lemma {:induction false} StillDifferent(us: seq<string>, u: string)
    requires Different(us)
    ensures Different(Without(us, u) + [u])
  {
    if u in us {
      var i :| 0 <= i < |us| && us[i] == u;
      WithoutAt(us, i);
    } else {
      WithoutNone(us, u);
    }
  }

  lemma SizesOne(u: string, file: string -> string)
    ensures Sizes([u], file) == |file(u)|
  {
    assert [u][1..] == [];
  }

  /** Moving a file to the end changes no size. */
  lemma SizesMoved(us: seq<string>, i: nat, file: string -> string)
    requires i < |us|
    ensures Sizes(us[..i] + us[i + 1..] + [us[i]], file) == Sizes(us, file)
  {
    hide Sizes;
    var a, b, u := us[..i], us[i + 1..], us[i];
    assert us == a + ([u] + b);
    SizesConcat(a, [u] + b, file);
    SizesConcat([u], b, file);
    SizesConcat(a + b, [u], file);
    SizesConcat(a, b, file);
  }

  lemma SizesOfSuffix(us: seq<string>, j: nat, k: nat, file: string -> string)
    requires j <= k <= |us|
    ensures Sizes(us[j..], file) == Sizes(us[j..k], file) + Sizes(us[k..], file)
  {
    hide Sizes;
    assert us[j..] == us[j..k] + us[k..];
    SizesConcat(us[j..k], us[k..], file);
  }

  /** A cut is right when one file more would be too much. */
  lemma OneMoreIsTooMuch(us: seq<string>, recent: seq<string>, k: nat, capacity: nat, file: string -> string)
    requires k <= |recent| && us == recent[k..] && Sizes(us, file) <= capacity
    requires k > 0 ==> Sizes(recent[k - 1..], file) > capacity
    ensures LastThatFit(us, recent, capacity, file)
  {
    hide Sizes;
    forall j | 0 <= j < k ensures Sizes(recent[j..], file) > capacity {
      SizesOfSuffix(recent, j, k - 1, file);
    }
    assert CutAt(us, recent, k, capacity, file);
  }

  // --------------------------------------------------------------- One request

  /** A hit moves the file to the end of both. */
  lemma HitStep(us: seq<string>, recent: seq<string>, i: nat, capacity: nat, file: string -> string)
    requires LastThatFit(us, recent, capacity, file) && Different(recent) && i < |us|
    ensures LastThatFit(us[..i] + us[i + 1..] + [us[i]], Without(recent, us[i]) + [us[i]], capacity, file)
  {
    hide Sizes, Without, LastThatFit;
    var k := CutOf(us, recent, capacity, file);
    var u := us[i];
    WithoutAt(recent, k + i);
    var moved := us[..i] + us[i + 1..] + [u];
    var next := Without(recent, u) + [u];
    assert next == recent[..k] + moved;
    SizesMoved(us, i, file);
    if k > 0 {
      assert next[k - 1..] == [recent[k - 1]] + moved;
      assert recent[k - 1..] == [recent[k - 1]] + us;
      SizesConcat([recent[k - 1]], moved, file);
      SizesConcat([recent[k - 1]], us, file);
    }
    OneMoreIsTooMuch(moved, next, k, capacity, file);
  }

  lemma CutOf(us: seq<string>, recent: seq<string>, capacity: nat, file: string -> string) returns (k: nat)
    requires LastThatFit(us, recent, capacity, file)
    ensures k <= |recent| && CutAt(us, recent, k, capacity, file)
  {
    k :| k <= |recent| && CutAt(us, recent, k, capacity, file);
  }

  /** A miss drops the oldest of those held, as few as will do, and adds the file. */
  lemma MissStep(us: seq<string>, recent: seq<string>, j: nat, u: string, capacity: nat, file: string -> string)
    requires LastThatFit(us, recent, capacity, file) && Different(recent) && u !in us && j <= |us|
    requires Sizes(us[j..], file) + |file(u)| <= capacity
    requires j > 0 ==> Sizes(us[j - 1..], file) + |file(u)| > capacity
    ensures LastThatFit(us[j..] + [u], Without(recent, u) + [u], capacity, file)
  {
    hide Sizes, Without, LastThatFit;
    var k := CutOf(us, recent, capacity, file);
    var kept := Without(recent[..k], u);
    var next := Without(recent, u) + [u];
    assert recent == recent[..k] + us;
    WithoutConcat(recent[..k], us, u);
    WithoutNone(us, u);
    assert next == kept + us + [u];
    SizesOne(u, file);
    SizesConcat(us[j..], [u], file);
    assert next[|kept| + j..] == us[j..] + [u];
    if j > 0 {
      assert next[|kept| + j - 1..] == us[j - 1..] + [u];
      SizesConcat(us[j - 1..], [u], file);
    } else if |kept| > 0 {
      assert next[|kept| - 1..] == [kept[|kept| - 1]] + us + [u];
      assert us[0..] == us;
      OlderIsTooMuch(us, recent, k, u, capacity, file);
    }
    OneMoreIsTooMuch(us[j..] + [u], next, |kept| + j, capacity, file);
  }

  /** When the new file leaves all in place, no older file could stay beside it. */
  lemma OlderIsTooMuch(us: seq<string>, recent: seq<string>, k: nat, u: string, capacity: nat, file: string -> string)
    requires k <= |recent| && CutAt(us, recent, k, capacity, file) && Different(recent)
    requires Without(recent[..k], u) != []
    ensures var kept := Without(recent[..k], u); Sizes([kept[|kept| - 1]] + us + [u], file) > capacity
  {
    hide Sizes, Without;
    var kept := Without(recent[..k], u);
    var y, z := kept[|kept| - 1], recent[..k];
    assert k > 0 by {
      EmptyWithout(u);
    }
    assert recent[k - 1..] == [recent[k - 1]] + us;
    SizesConcat([recent[k - 1]], us, file);
    SizesConcat([y] + us, [u], file);
    SizesConcat([y], us, file);
    SizesOne(u, file);
    SizesOne(recent[k - 1], file);
    if recent[k - 1] != u {
      assert z == z[..k - 1] + [recent[k - 1]];
      WithoutConcat(z[..k - 1], [recent[k - 1]], u);
      WithoutNone([recent[k - 1]], u);
      assert y == recent[k - 1];
    }
  }

  lemma EmptyWithout(u: string)
    ensures Without([], u) == []
  {
  }

  // ------------------------------------------------------------------ Over runs

  lemma UrlsOfTouch(s: seq<Entry>, i: nat, now: int)
    requires i < |s|
    ensures Urls(Touch(s, i, now)) == Urls(s)[..i] + Urls(s)[i + 1..] + [Urls(s)[i]]
  {
  }

  lemma ServeStep(s: seq<Entry>, recent: seq<string>, capacity: nat, a: Access, file: string -> string)
    requires ValidContents(s, capacity) && Coherent(s, file) && Different(recent)
    requires LastThatFit(Urls(s), recent, capacity, file)
    ensures LastThatFit(Urls(Serve(s, capacity, a, file)),
                        if |file(a.url)| > capacity then recent else Without(recent, a.url) + [a.url], capacity, file)
  {
    hide TotalSize, Evict, IndexOf, LastThatFit, Without, Sizes, Touch;
    var u := a.url;
    IndexOfNone(s, u);
    if |file(u)| > capacity {
      LargeFilesAreNotCached(s, capacity, file, u);
    } else if IndexOf(s, u).Some? {
      var i := IndexOf(s, u).value;
      UrlsOfTouch(s, i, a.now);
      HitStep(Urls(s), recent, i, capacity, file);
    } else {
      EvictionStep(s, recent, capacity, a, file);
    }
  }

  lemma EvictionStep(s: seq<Entry>, recent: seq<string>, capacity: nat, a: Access, file: string -> string)
    requires Coherent(s, file) && Different(recent) && IndexOf(s, a.url).None? && |file(a.url)| <= capacity
    requires LastThatFit(Urls(s), recent, capacity, file)
    ensures LastThatFit(Urls(Insert(s, capacity, a.url, file(a.url), a.now)), Without(recent, a.url) + [a.url],
                        capacity, file)
  {
    hide TotalSize, Evict, IndexOf, LastThatFit, Without, Sizes;
    var u, need := a.url, |file(a.url)|;
    IndexOfNone(s, u);
    EvictDropsPrefix(s, capacity, need);
    var j := Evicted(s, capacity, need);
    EvictsShortestPrefixIff(s, capacity, need, j);
    SizesOfTail(s, j, file);
    if j > 0 {
      SizesOfTail(s, j - 1, file);
    }
    MissStep(Urls(s), recent, j, u, capacity, file);
    assert Urls(Evict(s, capacity, need) + [Entry(u, file(u), a.now)]) == Urls(s)[j..] + [u];
  }

  lemma SizesOfTail(s: seq<Entry>, j: nat, file: string -> string)
    requires Coherent(s, file) && j <= |s|
    ensures Sizes(Urls(s)[j..], file) == TotalSize(s[j..])
  {
    hide Sizes, TotalSize;
    SizesOfUrls(s[j..], file);
    assert Urls(s[j..]) == Urls(s)[j..];
  }

  lemma {:induction false} RecentAreDifferent(run: seq<Access>, capacity: nat, file: string -> string)
    ensures Different(Recent(run, capacity, file))
  {
    if run != [] {
      RecentAreDifferent(run[..|run| - 1], capacity, file);
      StillDifferent(Recent(run[..|run| - 1], capacity, file), run[|run| - 1].url);
    }
  }

  /** After any requests the cache holds exactly the files asked for last, in that
      order, as many of them as fit together. */
  lemma {:induction false} HoldsTheMostRecent(run: seq<Access>, capacity: nat, file: string -> string)
    ensures LastThatFit(Urls(ServeAll(run, capacity, file)), Recent(run, capacity, file), capacity, file)
  {
    hide Serve, LastThatFit, Without;
    if run == [] {
      NothingHeld(capacity, file);
    } else {
      var n := |run| - 1;
      HoldsTheMostRecent(run[..n], capacity, file);
      ServeAllIsValid(run[..n], capacity, file);
      RecentAreDifferent(run[..n], capacity, file);
      ServeStep(ServeAll(run[..n], capacity, file), Recent(run[..n], capacity, file), capacity, run[n], file);
    }
  }

  lemma NothingHeld(capacity: nat, file: string -> string)
    ensures LastThatFit(Urls([]), [], capacity, file)
  {
    assert CutAt(Urls([]), [], 0, capacity, file);
  }
}
