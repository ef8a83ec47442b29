/** When a larger cache hits whenever a smaller one does. */
module LruHits {
  import opened Strings
  import opened Lru
  import opened LruInclusion

  // ------------------------------------------------------------- The condition

  /** Total size of the files with these names. */
  function Sizes(us: seq<string>, file: string -> string): nat {
    if us == [] then 0 else |file(us[0])| + Sizes(us[1..], file)
  }

  predicate Different(us: seq<string>) {
    forall i, j :: 0 <= i < j < |us| ==> us[i] != us[j]
  }

  /** A non-empty set of files that the small cache can hold together. */
  ghost predicate FitsSmall(us: seq<string>, c: nat, file: string -> string) {
    us != [] && Different(us) && Sizes(us, file) <= c
  }

  /** A set of files each of which only the large cache accepts. */
  ghost predicate OnlyForLarge(us: seq<string>, c: nat, C: nat, file: string -> string) {
    Different(us) && forall i :: 0 <= i < |us| ==> c < |file(us[i])| <= C
  }

  /** The large cache has room for whatever fits the small one beside any files
      that only the large one accepts. */
  ghost predicate RoomForAll(c: nat, C: nat, file: string -> string) {
    forall A, B :: FitsSmall(A, c, file) && OnlyForLarge(B, c, C, file) ==> Sizes(A, file) + Sizes(B, file) <= C
  }

  /** After every run, what the small cache holds the large one holds: every hit of
      the small cache is a hit of the large one. */
  ghost predicate HitsAlwaysIncluded(c: nat, C: nat, file: string -> string) {
    forall run: seq<Access>, url: string ::
      IndexOf(ServeAll(run, c, file), url).Some? ==> IndexOf(ServeAll(run, C, file), url).Some?
  }

  // -------------------------------------------- The small files of a large cache

  /** The entries that would fit a cache of capacity `c`. */
  function Small(s: seq<Entry>, c: nat): seq<Entry> {
    if s == [] then []
    else (if |s[0].data| <= c then [s[0]] else []) + Small(s[1..], c)
  }

  /** The others. */
  function Large(s: seq<Entry>, c: nat): seq<Entry> {
    if s == [] then []
    else (if |s[0].data| <= c then [] else [s[0]]) + Large(s[1..], c)
  }

  function Urls(s: seq<Entry>): (us: seq<string>)
    ensures |us| == |s| && forall i :: 0 <= i < |s| ==> us[i] == s[i].url
  {
    seq(|s|, i requires 0 <= i < |s| => s[i].url)
  }

  lemma {:induction false} SmallConcat(a: seq<Entry>, b: seq<Entry>, c: nat)
    ensures Small(a + b, c) == Small(a, c) + Small(b, c)
  {
    if a == [] {
      assert a + b == b;
    } else {
      assert (a + b)[1..] == a[1..] + b;
      SmallConcat(a[1..], b, c);
      var first := if |a[0].data| <= c then [a[0]] else [];
      assert first + Small(a[1..], c) + Small(b, c) == first + (Small(a[1..], c) + Small(b, c));
    }
  }

  lemma {:induction false} SizeSplits(s: seq<Entry>, c: nat)
    ensures TotalSize(s) == TotalSize(Small(s, c)) + TotalSize(Large(s, c))
  {
    if s != [] {
      SizeSplits(s[1..], c);
      SizeOfConcat(if |s[0].data| <= c then [s[0]] else [], Small(s[1..], c));
      SizeOfConcat(if |s[0].data| <= c then [] else [s[0]], Large(s[1..], c));
      SizeOfOne(s[0]);
    }
  }

  /** Every entry of the parts is one of the whole, of its size class. */
  lemma {:induction false} PartsAreParts(s: seq<Entry>, c: nat)
    ensures forall e :: e in Small(s, c) <==> e in s && |e.data| <= c
    ensures forall e :: e in Large(s, c) <==> e in s && |e.data| > c
  {
    if s != [] {
      PartsAreParts(s[1..], c);
      assert s == [s[0]] + s[1..];
    }
  }

  lemma {:induction false} PartsAreDistinct(s: seq<Entry>, c: nat)
    requires Distinct(s)
    ensures Distinct(Small(s, c)) && Distinct(Large(s, c))
  {
    if s != [] {
      PartsAreDistinct(s[1..], c);
      PartsAreParts(s[1..], c);
      var head, rest := s[0], s[1..];
      forall e | e in rest ensures e.url != head.url {
        var i :| 0 <= i < |rest| && rest[i] == e;
        assert s[i + 1] == e;
      }
      DistinctCons(head, Small(rest, c));
      DistinctCons(head, Large(rest, c));
    }
  }

  lemma DistinctCons(e: Entry, s: seq<Entry>)
    requires Distinct(s) && forall x :: x in s ==> x.url != e.url
    ensures Distinct([e] + s)
  {
    forall i, j | 0 <= i < j < |[e] + s| ensures ([e] + s)[i].url != ([e] + s)[j].url {
      assert ([e] + s)[j] == s[j - 1] && s[j - 1] in s;
      assert i > 0 ==> ([e] + s)[i] == s[i - 1];
    }
  }

  lemma {:induction false} SizesOfUrls(s: seq<Entry>, file: string -> string)
    requires Coherent(s, file)
    ensures Sizes(Urls(s), file) == TotalSize(s)
  {
    if s != [] {
      SizesOfUrls(s[1..], file);
      assert Urls(s)[1..] == Urls(s[1..]);
    }
  }

  lemma PartsAreCoherent(s: seq<Entry>, c: nat, file: string -> string)
    requires Coherent(s, file)
    ensures Coherent(Small(s, c), file) && Coherent(Large(s, c), file)
  {
    PartsAreParts(s, c);
    forall i | 0 <= i < |Small(s, c)| ensures Small(s, c)[i].data == file(Small(s, c)[i].url) {
      assert Small(s, c)[i] in s;
    }
    forall i | 0 <= i < |Large(s, c)| ensures Large(s, c)[i].data == file(Large(s, c)[i].url) {
      assert Large(s, c)[i] in s;
    }
  }

  /** A touch of a small file is a touch among the small files. */
  lemma SmallOfTouch(s: seq<Entry>, i: nat, now: int, c: nat)
    requires i < |s|
    ensures |s[i].data| > c ==> Small(Touch(s, i, now), c) == Small(s, c)
    ensures |s[i].data| <= c ==>
              var k := |Small(s[..i], c)|;
              k < |Small(s, c)| && Small(s, c)[k] == s[i] && Small(Touch(s, i, now), c) == Touch(Small(s, c), k, now)
  {
    hide Small;
    var a, b, e, e' := s[..i], s[i + 1..], s[i], s[i].(stamp := now);
    assert s == a + ([e] + b);
    SmallConcat(a, [e] + b, c);
    SmallConcat([e], b, c);
    SmallConcat(a + b, [e'], c);
    SmallConcat(a, b, c);
    SmallOfOne(e, c);
    SmallOfOne(e', c);
    if |e.data| <= c {
      var t, k := Small(s, c), |Small(a, c)|;
      assert t == Small(a, c) + ([e] + Small(b, c));
      assert t[..k] == Small(a, c) && t[k + 1..] == Small(b, c);
    }
  }

  lemma SmallOfOne(e: Entry, c: nat)
    ensures Small([e], c) == if |e.data| <= c then [e] else []
  {
  }

  lemma SmallOfLoad(s: seq<Entry>, url: string, now: int, c: nat)
    requires Distinct(s)
    ensures Small(Load(s, url, now), c) == Load(Small(s, c), url, now)
  {
    hide Small, Touch, IndexOf, Distinct;
    PartsAreDistinct(s, c);
    PartsAreParts(s, c);
    match IndexOf(s, url)
    case None =>
      IndexOfNone(s, url);
      NotAmong(s, Small(s, c), url);
    case Some(i) =>
      SmallOfTouch(s, i, now, c);
      if |s[i].data| <= c {
        IndexOfIs(Small(s, c), url, |Small(s[..i], c)|);
      } else {
        LargeIsNotSmall(s, i, c);
      }
  }

  lemma NotAmong(s: seq<Entry>, part: seq<Entry>, url: string)
    requires forall e :: e in part ==> e in s
    requires IndexOf(s, url).None?
    ensures IndexOf(part, url).None?
  {
    hide IndexOf;
    IndexOfNone(s, url);
    IndexOfNone(part, url);
    forall i | 0 <= i < |part| ensures part[i].url != url {
      assert part[i] in s;
    }
  }

  lemma LargeIsNotSmall(s: seq<Entry>, i: nat, c: nat)
    requires Distinct(s) && i < |s| && |s[i].data| > c
    ensures IndexOf(Small(s, c), s[i].url).None?
  {
    hide IndexOf, Small;
    PartsAreParts(s, c);
    IndexOfNone(Small(s, c), s[i].url);
    forall k | 0 <= k < |Small(s, c)| ensures Small(s, c)[k].url != s[i].url {
      var e := Small(s, c)[k];
      assert e in Small(s, c);
      var j :| 0 <= j < |s| && s[j] == e;
      assert j != i;
    }
  }

  // --------------------------------------------------- Room in the large cache

  /** A suffix of the small files is the small files of a suffix. */
  lemma {:induction false} CutBefore(b: seq<Entry>, s: seq<Entry>, c: nat) returns (p: nat)
    requires IsSuffix(s, Small(b, c))
    ensures p <= |b| && Small(b[p..], c) == s
  {
    if |s| == |Small(b, c)| {
      p := 0;
      assert b[0..] == b;
      assert forall i :: 0 <= i < |s| ==> s[i] == Small(b, c)[i];
    } else {
      var t := Small(b, c);
      assert forall i :: 0 <= i < |s| ==> s[i] == t[|t| - |s| + i];
      var q := CutBefore(b[1..], s, c);
      p := q + 1;
      assert b[1..][q..] == b[p..];
    }
  }

  lemma SuffixOfConcat(x: seq<Entry>, s: seq<Entry>)
    ensures IsSuffix(s, x + s)
  {
  }

  /** When everything from place `p` on has room, eviction spares the small files
      that stand there. */
  lemma EvictionSpares(b: seq<Entry>, p: nat, c: nat, C: nat, need: nat)
    requires p <= |b| && need <= C && TotalSize(b[p..]) + need <= C
    ensures IsSuffix(Small(b[p..], c), Small(Evict(b, C, need), c))
  {
    hide Small, Evict, IsSuffix, TotalSize;
    EvictDropsPrefix(b, C, need);
    EvictStopsEarly(b, C, need, p);
    var q := Evicted(b, C, need);
    assert b[q..] == b[q..p] + b[p..];
    SmallConcat(b[q..p], b[p..], c);
    SuffixOfConcat(Small(b[q..p], c), Small(b[p..], c));
  }

  lemma {:induction false} EntrySize(s: seq<Entry>, i: nat)
    requires i < |s|
    ensures |s[i].data| <= TotalSize(s)
  {
    if i > 0 {
      EntrySize(s[1..], i - 1);
    }
  }

  lemma SuffixKeeps(b: seq<Entry>, p: nat, url: string, file: string -> string)
    requires p <= |b| && Distinct(b) && Coherent(b, file) && IndexOf(b, url).None?
    ensures Distinct(b[p..]) && Coherent(b[p..], file) && IndexOf(b[p..], url).None?
    ensures TotalSize(b[p..]) <= TotalSize(b)
  {
    hide IndexOf, TotalSize;
    SizeOfSuffix(b, p);
    IndexOfNone(b, url);
    IndexOfNone(b[p..], url);
  }

  /** The large files of a list, perhaps with one more name. */
  lemma LargeAreOnlyForLarge(r: seq<Entry>, c: nat, C: nat, file: string -> string)
    requires Distinct(r) && Coherent(r, file) && TotalSize(r) <= C
    ensures OnlyForLarge(Urls(Large(r, c)), c, C, file)
  {
    hide TotalSize, Large;
    PartsAreParts(r, c);
    PartsAreDistinct(r, c);
    PartsAreCoherent(r, c, file);
    var big := Large(r, c);
    forall i | 0 <= i < |big| ensures c < |file(Urls(big)[i])| <= C {
      assert big[i] in big;
      var j :| 0 <= j < |r| && r[j] == big[i];
      EntrySize(r, j);
    }
  }

  lemma {:induction false} SizesOfAppend(us: seq<string>, u: string, file: string -> string)
    ensures Sizes(us + [u], file) == Sizes(us, file) + |file(u)|
  {
    if us != [] {
      assert (us + [u])[1..] == us[1..] + [u];
      SizesOfAppend(us[1..], u, file);
    }
  }

  lemma NotNamed(r: seq<Entry>, part: seq<Entry>, u: string)
    requires IndexOf(r, u).None? && Distinct(part) && forall e :: e in part ==> e in r
    ensures Different(Urls(part)) && Different(Urls(part) + [u])
  {
    hide IndexOf;
    IndexOfNone(r, u);
    forall i | 0 <= i < |part| ensures part[i].url != u {
      assert part[i] in r;
    }
  }

  /** Room for one more small file beside the small files kept for it. */
  lemma RoomForSmall(r: seq<Entry>, c: nat, C: nat, u: string, file: string -> string)
    requires RoomForAll(c, C, file) && Distinct(r) && Coherent(r, file) && TotalSize(r) <= C && IndexOf(r, u).None?
    requires TotalSize(Small(r, c)) + |file(u)| <= c
    ensures TotalSize(r) + |file(u)| <= C
  {
    hide TotalSize, Small, Large, IndexOf, Sizes, Different;
    var A, B := Urls(Small(r, c)) + [u], Urls(Large(r, c));
    SizeSplits(r, c);
    PartsAreParts(r, c);
    PartsAreDistinct(r, c);
    PartsAreCoherent(r, c, file);
    SizesOfUrls(Small(r, c), file);
    SizesOfUrls(Large(r, c), file);
    SizesOfAppend(Urls(Small(r, c)), u, file);
    NotNamed(r, Small(r, c), u);
    LargeAreOnlyForLarge(r, c, C, file);
    assert FitsSmall(A, c, file) && OnlyForLarge(B, c, C, file);
  }

  /** Room for one more large file beside the small files held. */
  lemma RoomForLarge(r: seq<Entry>, c: nat, C: nat, u: string, file: string -> string)
    requires RoomForAll(c, C, file) && Distinct(r) && Coherent(r, file) && TotalSize(r) <= C && IndexOf(r, u).None?
    requires Small(r, c) != [] && TotalSize(Small(r, c)) <= c < |file(u)| <= C
    ensures TotalSize(r) + |file(u)| <= C
  {
    hide TotalSize, Small, Large, IndexOf, Sizes, Different;
    var A, B := Urls(Small(r, c)), Urls(Large(r, c)) + [u];
    SizeSplits(r, c);
    PartsAreParts(r, c);
    PartsAreDistinct(r, c);
    PartsAreCoherent(r, c, file);
    SizesOfUrls(Small(r, c), file);
    SizesOfUrls(Large(r, c), file);
    SizesOfAppend(Urls(Large(r, c)), u, file);
    NotNamed(r, Small(r, c), u);
    NotNamed(r, Large(r, c), u);
    LargeAreOnlyForLarge(r, c, C, file);
    assert FitsSmall(A, c, file) && OnlyForLarge(B, c, C, file);
  }

  // ------------------------------------------------------ One request keeps track

  /** The small cache's list is a suffix of the small files of the large cache's. */
  ghost predicate Tracks(a: seq<Entry>, b: seq<Entry>, c: nat, C: nat, file: string -> string) {
    && ValidContents(a, c) && ValidContents(b, C) && Coherent(a, file) && Coherent(b, file)
    && IsSuffix(a, Small(b, c))
  }

  lemma TrackedHit(a: seq<Entry>, b: seq<Entry>, c: nat, C: nat, file: string -> string, url: string)
    requires Tracks(a, b, c, C, file) && IndexOf(a, url).Some?
    ensures IndexOf(b, url).Some?
  {
    hide IndexOf, Small, TotalSize;
    PartsAreDistinct(b, c);
    PartsAreParts(b, c);
    ResidentInSuffix(a, Small(b, c), url);
    if IndexOf(b, url).None? {
      NotAmong(b, Small(b, c), url);
    }
  }

  /** Hit in the small cache. */
  lemma TrackHit(a: seq<Entry>, b: seq<Entry>, c: nat, C: nat, file: string -> string, url: string, now: int)
    requires Tracks(a, b, c, C, file) && IndexOf(a, url).Some?
    ensures IsSuffix(Load(a, url, now), Small(Load(b, url, now), c))
  {
    hide Load, Small, TotalSize, IndexOf, IsSuffix;
    PartsAreDistinct(b, c);
    SmallOfLoad(b, url, now, c);
    HitInBoth(a, Small(b, c), url, now);
  }

  /** A small file that only the large cache holds. */
  lemma TrackLargeHit(a: seq<Entry>, b: seq<Entry>, c: nat, C: nat, file: string -> string, url: string, now: int)
    requires Tracks(a, b, c, C, file) && IndexOf(a, url).None? && IndexOf(b, url).Some? && |file(url)| <= c
    ensures IsSuffix(Insert(a, c, url, file(url), now), Small(Load(b, url, now), c))
  {
    hide Load, Insert, Small, TotalSize, IsSuffix, Evict, Distinct;
    var i := IndexOf(b, url).value;
    PartsAreDistinct(b, c);
    PartsAreCoherent(b, c, file);
    PartsAreParts(b, c);
    SmallOfLoad(b, url, now, c);
    assert b[i] in Small(b, c);
    IndexOfNone(Small(b, c), url);
    HitInLargeOnly(a, Small(b, c), c, url, now, file);
  }

  lemma SuffixOfSuffix(x: seq<Entry>, a: seq<Entry>, b: seq<Entry>)
    requires IsSuffix(x, a) && IsSuffix(a, b)
    ensures IsSuffix(x, b)
  {
    forall i | 0 <= i < |x| ensures x[i] == b[|b| - |x| + i] {
      assert x[i] == a[|a| - |x| + i] && a[|a| - |x| + i] == b[|b| - |a| + (|a| - |x| + i)];
    }
  }

  /** A small file that neither holds. */
  lemma TrackMiss(a: seq<Entry>, b: seq<Entry>, c: nat, C: nat, file: string -> string, url: string, now: int)
    requires c <= C && RoomForAll(c, C, file) && Tracks(a, b, c, C, file)
    requires IndexOf(a, url).None? && IndexOf(b, url).None? && |file(url)| <= c
    ensures IsSuffix(Insert(a, c, url, file(url), now), Small(Insert(b, C, url, file(url), now), c))
  {
    hide Small, TotalSize, IsSuffix, Evict, Distinct, RoomForAll, IndexOf;
    var need := |file(url)|;
    var kept := Evict(a, c, need);
    EvictDropsPrefix(a, c, need);
    SuffixSelf(a);
    DropSuffix(a, a, Evicted(a, c, need));
    SuffixOfSuffix(kept, a, Small(b, c));
    var p := CutBefore(b, kept, c);
    SuffixKeeps(b, p, url, file);
    RoomForSmall(b[p..], c, C, url, file);
    EvictionSpares(b, p, c, C, need);
    var e := Entry(url, file(url), now);
    SmallConcat(Evict(b, C, need), [e], c);
    SmallOfOne(e, c);
    AppendToBoth(kept, Small(Evict(b, C, need), c), e);
  }

  lemma SuffixSelf(a: seq<Entry>)
    ensures IsSuffix(a, a)
  {
  }

  /** A file that only the large cache accepts and does not hold. */
  lemma TrackLargeMiss(a: seq<Entry>, b: seq<Entry>, c: nat, C: nat, file: string -> string, url: string, now: int)
    requires c <= C && RoomForAll(c, C, file) && Tracks(a, b, c, C, file)
    requires IndexOf(b, url).None? && c < |file(url)| <= C
    ensures IsSuffix(a, Small(Insert(b, C, url, file(url), now), c))
  {
    hide Small, TotalSize, IsSuffix, Evict, Distinct, RoomForAll, IndexOf;
    var need := |file(url)|;
    var e := Entry(url, file(url), now);
    SmallConcat(Evict(b, C, need), [e], c);
    SmallOfOne(e, c);
    assert Small(Evict(b, C, need), c) + [] == Small(Evict(b, C, need), c);
    if a == [] {
      EmptyIsSuffix(Small(Evict(b, C, need), c));
    } else {
      var p := CutBefore(b, a, c);
      SuffixKeeps(b, p, url, file);
      RoomForLarge(b[p..], c, C, url, file);
      EvictionSpares(b, p, c, C, need);
    }
  }

  lemma EmptyIsSuffix(s: seq<Entry>)
    ensures IsSuffix([], s)
  {
  }

  lemma ServeTracks(a: seq<Entry>, b: seq<Entry>, c: nat, C: nat, file: string -> string, x: Access)
    requires c <= C && RoomForAll(c, C, file) && Tracks(a, b, c, C, file)
    ensures Tracks(Serve(a, c, x, file), Serve(b, C, x, file), c, C, file)
  {
    hide Small, TotalSize, IsSuffix, RoomForAll, IndexOf, Load, Distinct, Coherent;
    ServeKeepsValid(a, c, x, file);
    ServeKeepsValid(b, C, x, file);
    if IndexOf(a, x.url).Some? {
      TrackedHit(a, b, c, C, file, x.url);
      TrackHit(a, b, c, C, file, x.url, x.now);
    } else if IndexOf(b, x.url).Some? {
      if |file(x.url)| <= c {
        TrackLargeHit(a, b, c, C, file, x.url, x.now);
      } else {
        LargeHitIsUnseen(b, c, x.url, x.now, file);
      }
    } else if |file(x.url)| <= c {
      TrackMiss(a, b, c, C, file, x.url, x.now);
    } else if |file(x.url)| <= C {
      TrackLargeMiss(a, b, c, C, file, x.url, x.now);
    }
  }

  /** A hit on a file too large for the small cache does not move its small files. */
  lemma LargeHitIsUnseen(b: seq<Entry>, c: nat, url: string, now: int, file: string -> string)
    requires Coherent(b, file) && IndexOf(b, url).Some? && |file(url)| > c
    ensures Small(Load(b, url, now), c) == Small(b, c)
  {
    SmallOfTouch(b, IndexOf(b, url).value, now, c);
  }

  lemma {:induction false} ServeAllTracks(run: seq<Access>, c: nat, C: nat, file: string -> string)
    requires c <= C && RoomForAll(c, C, file)
    ensures Tracks(ServeAll(run, c, file), ServeAll(run, C, file), c, C, file)
  {
    hide RoomForAll, Serve;
    if run != [] {
      hide Tracks;
      ServeAllTracks(run[..|run| - 1], c, C, file);
      ServeTracks(ServeAll(run[..|run| - 1], c, file), ServeAll(run[..|run| - 1], C, file), c, C, file, run[|run| - 1]);
    }
  }

  // ------------------------------------------------------------------ Lost hits

  /** Each file asked for once, in order. */
  function Once(us: seq<string>): (run: seq<Access>)
    ensures |run| == |us| && forall i :: 0 <= i < |us| ==> run[i] == Access(us[i], 0)
  {
    seq(|us|, i requires 0 <= i < |us| => Access(us[i], 0))
  }

  function Stored(us: seq<string>, file: string -> string): (s: seq<Entry>)
    ensures |s| == |us| && forall i :: 0 <= i < |us| ==> s[i] == Entry(us[i], file(us[i]), 0)
  {
    seq(|us|, i requires 0 <= i < |us| => Entry(us[i], file(us[i]), 0))
  }

  lemma OnceUnfold(us: seq<string>, capacity: nat, file: string -> string)
    requires us != []
    ensures ServeAll(Once(us), capacity, file)
            == Serve(ServeAll(Once(us[..|us| - 1]), capacity, file), capacity, Access(us[|us| - 1], 0), file)
  {
    hide Serve;
    assert Once(us)[..|us| - 1] == Once(us[..|us| - 1]);
  }

  lemma UnseenServe(s: seq<Entry>, before: seq<string>, u: string, capacity: nat, file: string -> string)
    requires IsSuffix(s, Stored(before, file)) && u !in before && |file(u)| <= capacity
    ensures IsSuffix(Serve(s, capacity, Access(u, 0), file), Stored(before + [u], file))
  {
    hide TotalSize, Evict, IndexOf, IsSuffix;
    UnseenIsMissed(s, before, u, file);
    EvictDropsPrefix(s, capacity, |file(u)|);
    DropSuffix(s, Stored(before, file), Evicted(s, capacity, |file(u)|));
    AppendToBoth(Evict(s, capacity, |file(u)|), Stored(before, file), Entry(u, file(u), 0));
    assert Stored(before + [u], file) == Stored(before, file) + [Entry(u, file(u), 0)];
  }

  lemma UnseenIsMissed(s: seq<Entry>, before: seq<string>, u: string, file: string -> string)
    requires IsSuffix(s, Stored(before, file)) && u !in before
    ensures IndexOf(s, u).None?
  {
    hide IndexOf;
    var all := Stored(before, file);
    assert forall i :: 0 <= i < |s| ==> s[i] == all[|all| - |s| + i];
    IndexOfNone(s, u);
  }

  /** Asking for different files that all fit leaves the most recent of them. */
  lemma {:induction false} OnceLeavesSuffix(us: seq<string>, capacity: nat, file: string -> string)
    requires Different(us) && forall i :: 0 <= i < |us| ==> |file(us[i])| <= capacity
    ensures IsSuffix(ServeAll(Once(us), capacity, file), Stored(us, file))
  {
    hide Serve, IsSuffix;
    if us == [] {
      EmptyIsSuffix(Stored(us, file));
    } else {
      var before, u := us[..|us| - 1], us[|us| - 1];
      OnceLeavesSuffix(before, capacity, file);
      OnceUnfold(us, capacity, file);
      UnseenServe(ServeAll(Once(before), capacity, file), before, u, capacity, file);
      assert before + [u] == us;
    }
  }

  lemma {:induction false} SizeOfStored(us: seq<string>, file: string -> string)
    ensures TotalSize(Stored(us, file)) == Sizes(us, file)
  {
    if us != [] {
      SizeOfStored(us[1..], file);
      assert Stored(us, file)[1..] == Stored(us[1..], file);
    }
  }

  lemma {:induction false} SizesConcat(a: seq<string>, b: seq<string>, file: string -> string)
    ensures Sizes(a + b, file) == Sizes(a, file) + Sizes(b, file)
  {
    if a == [] {
      assert a + b == b;
    } else {
      assert (a + b)[1..] == a[1..] + b;
      SizesConcat(a[1..], b, file);
    }
  }

  lemma {:induction false} SizesAt(us: seq<string>, i: nat, file: string -> string)
    requires i < |us|
    ensures |file(us[i])| <= Sizes(us, file)
  {
    if i > 0 {
      SizesAt(us[1..], i - 1, file);
    }
  }

  /** Different files with enough room are all kept; with too little room the first
      one is gone. */
  lemma FirstIsKeptIff(us: seq<string>, capacity: nat, file: string -> string)
    requires us != [] && Different(us) && forall i :: 0 <= i < |us| ==> |file(us[i])| <= capacity
    ensures Sizes(us, file) > capacity ==> IndexOf(ServeAll(Once(us), capacity, file), us[0]).None?
    ensures Sizes(us, file) <= capacity ==> ServeAll(Once(us), capacity, file) == Stored(us, file)
  {
    hide TotalSize, IndexOf, Sizes, ServeAll;
    var s, all := ServeAll(Once(us), capacity, file), Stored(us, file);
    OnceLeavesSuffix(us, capacity, file);
    ServeAllIsValid(Once(us), capacity, file);
    SizeOfStored(us, file);
    IndexOfNone(s, us[0]);
    assert forall i :: 0 <= i < |s| ==> s[i] == all[|all| - |s| + i];
    if Sizes(us, file) <= capacity {
      AllAreKept(us, capacity, file);
    } else {
      assert |s| < |all| by {
        assert |s| == |all| ==> s == all;
      }
    }
  }

  lemma {:induction false} AllAreKept(us: seq<string>, capacity: nat, file: string -> string)
    requires Different(us) && Sizes(us, file) <= capacity
    ensures ServeAll(Once(us), capacity, file) == Stored(us, file)
  {
    hide TotalSize, IndexOf, Sizes;
    if us != [] {
      var n := |us| - 1;
      var before, u := us[..n], us[n];
      assert us == before + [u];
      SizesOfAppend(before, u, file);
      AllAreKept(before, capacity, file);
      assert Once(us)[..n] == Once(before);
      SizeOfStored(before, file);
      IndexOfNone(Stored(before, file), u);
      assert Stored(us, file) == Stored(before, file) + [Entry(u, file(u), 0)];
    }
  }

  /** Files that do not fit leave the cache alone. */
  lemma {:induction false} TooLargeChangesNothing(a: seq<string>, b: seq<string>, c: nat, file: string -> string)
    requires forall i :: 0 <= i < |b| ==> |file(b[i])| > c
    ensures ServeAll(Once(a + b), c, file) == ServeAll(Once(a), c, file)
  {
    hide Serve, ServeAll;
    if b == [] {
      assert a + b == a;
    } else {
      var n := |b| - 1;
      TooLargeChangesNothing(a, b[..n], c, file);
      OnceUnfold(a + b, c, file);
      assert (a + b)[..|a + b| - 1] == a + b[..n];
      TooLargeIsNotKept(ServeAll(Once(a + b[..n]), c, file), Once(a + b[..n]), c, b[n], file);
    }
  }

  lemma TooLargeIsNotKept(s: seq<Entry>, run: seq<Access>, c: nat, u: string, file: string -> string)
    requires s == ServeAll(run, c, file) && |file(u)| > c
    ensures Serve(s, c, Access(u, 0), file) == s
  {
    hide TotalSize, IndexOf, ServeAll;
    ServeAllIsValid(run, c, file);
    LargeFilesAreNotCached(s, c, file, u);
  }

  /** Files that fit the small cache, then files that only the large one accepts and
      that leave it too little room: the small cache still holds the first file,
      the large one has lost it. */
  lemma HitIsLost(A: seq<string>, B: seq<string>, c: nat, C: nat, file: string -> string)
    requires c <= C && FitsSmall(A, c, file) && OnlyForLarge(B, c, C, file) && Sizes(A, file) + Sizes(B, file) > C
    ensures IndexOf(ServeAll(Once(A + B), c, file), A[0]).Some?
    ensures IndexOf(ServeAll(Once(A + B), C, file), A[0]).None?
  {
    hide TotalSize, IndexOf, Sizes, ServeAll;
    forall i | 0 <= i < |A| ensures |file(A[i])| <= c {
      SizesAt(A, i, file);
    }
    var us := A + B;
    assert forall i :: 0 <= i < |us| ==> us[i] == if i < |A| then A[i] else B[i - |A|];
    FirstIsKeptIff(A, c, file);
    TooLargeChangesNothing(A, B, c, file);
    IndexOfNone(Stored(A, file), A[0]);
    assert Stored(A, file)[0].url == A[0];
    SizesConcat(A, B, file);
    FirstIsKeptIff(us, C, file);
  }

  // -------------------------------------------------------------------- Theorem

  /** Over all runs every hit of the small cache is a hit of the large one exactly
      when the large cache has room for any files that fit the small one together
      beside any files that only the large one accepts. */
  lemma HitsAreIncludedIff(c: nat, C: nat, file: string -> string)
    requires c <= C
    ensures HitsAlwaysIncluded(c, C, file) <==> RoomForAll(c, C, file)
  {
    hide Serve, ServeAll, IndexOf, Tracks, FitsSmall, OnlyForLarge, Sizes;
    if RoomForAll(c, C, file) {
      forall run: seq<Access>, url: string | IndexOf(ServeAll(run, c, file), url).Some?
        ensures IndexOf(ServeAll(run, C, file), url).Some? {
        ServeAllTracks(run, c, C, file);
        TrackedHit(ServeAll(run, c, file), ServeAll(run, C, file), c, C, file, url);
      }
    } else {
      var A, B :| FitsSmall(A, c, file) && OnlyForLarge(B, c, C, file) && !(Sizes(A, file) + Sizes(B, file) <= C);
      HitIsLost(A, B, c, C, file);
    }
  }

  /** The smallest case: capacities 1 and 2, a file of one byte, then one of two.
      The small cache keeps the first, the large one evicts it for the second. */
  lemma LargerCacheLosesAHit()
    ensures exists file: string -> string, run: seq<Access>, url: string ::
              && IndexOf(ServeAll(run, 1, file), url).Some?
              && IndexOf(ServeAll(run, 2, file), url).None?
  {
    hide ServeAll, IndexOf;
    var file := (u: string) => if u == "a" then "1" else "22";
    assert Sizes(["a"], file) == 1 && Sizes(["b"], file) == 2;
    assert FitsSmall(["a"], 1, file) && OnlyForLarge(["b"], 1, 2, file);
    HitIsLost(["a"], ["b"], 1, 2, file);
  }
}
