/** Two caches of different capacity driven by the same requests. */
module LruInclusion {
  import opened Strings
  import opened Lru

  /** One request for a file: look it up, and store it after a miss. */
  datatype Access = Access(url: string, now: int)

  function Serve(s: seq<Entry>, capacity: nat, a: Access, file: string -> string): seq<Entry> {
    if IndexOf(s, a.url).Some? then Load(s, a.url, a.now)
    else Insert(s, capacity, a.url, file(a.url), a.now)
  }

  function ServeAll(run: seq<Access>, capacity: nat, file: string -> string): seq<Entry> {
    if run == [] then []
    else Serve(ServeAll(run[..|run| - 1], capacity, file), capacity, run[|run| - 1], file)
  }

  predicate IsSuffix(a: seq<Entry>, b: seq<Entry>) {
    |a| <= |b| && forall i :: 0 <= i < |a| ==> a[i] == b[|b| - |a| + i]
  }

  /** Sizes for which a small and a large cache make the same choices: no file
      fits only the large one, or no file fits the small one at all. */
  ghost predicate SizesAgree(c: nat, C: nat, file: string -> string) {
    (forall u :: |file(u)| <= c || |file(u)| > C) || (forall u :: |file(u)| > c)
  }

  lemma ServeKeepsValid(s: seq<Entry>, capacity: nat, a: Access, file: string -> string)
    requires ValidContents(s, capacity) && Coherent(s, file)
    ensures ValidContents(Serve(s, capacity, a, file), capacity)
    ensures Coherent(Serve(s, capacity, a, file), file)
  {
    LoadKeepsValid(s, capacity, a.url, a.now);
    InsertKeepsValid(s, capacity, a.url, file(a.url), a.now);
    LoadIsCoherent(s, a.url, a.now, file);
    InsertIsCoherent(s, capacity, a.url, a.now, file);
  }

  lemma {:induction false} ServeAllIsValid(run: seq<Access>, capacity: nat, file: string -> string)
    ensures ValidContents(ServeAll(run, capacity, file), capacity)
    ensures Coherent(ServeAll(run, capacity, file), file)
  {
    if run != [] {
      var n := |run| - 1;
      ServeAllIsValid(run[..n], capacity, file);
      ServeKeepsValid(ServeAll(run[..n], capacity, file), capacity, run[n], file);
    }
  }

  // ---------------------------------------------------------- One step keeps suffixes

  lemma ResidentInSuffix(a: seq<Entry>, b: seq<Entry>, url: string)
    requires Distinct(b) && IsSuffix(a, b) && IndexOf(a, url).Some?
    ensures IndexOf(b, url) == Some(|b| - |a| + IndexOf(a, url).value)
  {
    hide IndexOf, Distinct;
    var i := IndexOf(a, url).value;
    assert a[i] == b[|b| - |a| + i];
    IndexOfIs(b, url, |b| - |a| + i);
  }

  lemma TouchInBoth(a: seq<Entry>, b: seq<Entry>, i: nat, now: int)
    requires IsSuffix(a, b) && i < |a|
    ensures IsSuffix(Touch(a, i, now), Touch(b, |b| - |a| + i, now))
  {
    hide Touch;
    var k := |b| - |a|;
    TouchAt(a, i, now, i);
    TouchAt(b, k + i, now, i);
    forall j | 0 <= j < |a| ensures Touch(a, i, now)[j] == Touch(b, k + i, now)[k + j] {
      TouchAt(a, i, now, j);
      TouchAt(b, k + i, now, k + j);
      assert a[j] == b[k + j] && a[i] == b[k + i];
      assert j + 1 < |a| ==> a[j + 1] == b[k + (j + 1)];
    }
  }

  /** A hit in the small cache is the same hit in the large one. */
  lemma HitInBoth(a: seq<Entry>, b: seq<Entry>, url: string, now: int)
    requires Distinct(b) && IsSuffix(a, b) && IndexOf(a, url).Some?
    ensures IsSuffix(Load(a, url, now), Load(b, url, now))
  {
    hide Touch, IsSuffix, Distinct, IndexOf;
    ResidentInSuffix(a, b, url);
    TouchInBoth(a, b, IndexOf(a, url).value, now);
  }

  lemma DropSuffix(a: seq<Entry>, b: seq<Entry>, n: nat)
    requires IsSuffix(a, b) && n <= |a|
    ensures IsSuffix(a[n..], b) && a[n..] == b[|b| - |a| + n..]
  {
    assert forall j :: n <= j < |a| ==> a[j] == b[|b| - |a| + j];
  }

  lemma SuffixBefore(a: seq<Entry>, b: seq<Entry>, i: nat, now: int)
    requires i < |b| && |a| < |b| - i && IsSuffix(a, b)
    ensures IsSuffix(a + [b[i].(stamp := now)], Touch(b, i, now))
  {
    hide Touch;
    var t := a + [b[i].(stamp := now)];
    TouchAt(b, i, now, i);
    forall j | 0 <= j < |t| ensures t[j] == Touch(b, i, now)[|b| - |t| + j] {
      TouchAt(b, i, now, |b| - |t| + j);
      assert j < |a| ==> a[j] == b[|b| - |a| + j];
    }
  }

  /** A hit in the large cache only: the small one evicts and stores the file. */
  lemma HitInLargeOnly(a: seq<Entry>, b: seq<Entry>, c: nat, url: string, now: int, file: string -> string)
    requires Distinct(b) && IsSuffix(a, b) && Coherent(b, file) && |file(url)| <= c
    requires IndexOf(a, url).None? && IndexOf(b, url).Some?
    ensures IsSuffix(Insert(a, c, url, file(url), now), Load(b, url, now))
  {
    hide Touch, Evict, IndexOf, Distinct;
    var k, i := |b| - |a|, IndexOf(b, url).value;
    IndexOfNone(a, url);
    assert i >= k ==> a[i - k] == b[k + (i - k)];
    EvictDropsPrefix(a, c, |file(url)|);
    DropSuffix(a, b, Evicted(a, c, |file(url)|));
    SuffixBefore(Evict(a, c, |file(url)|), b, i, now);
    assert b[i].(stamp := now) == Entry(url, file(url), now);
  }

  /** A miss in both: the small one evicts at least as much. */
  lemma MissInBoth(a: seq<Entry>, b: seq<Entry>, c: nat, C: nat, url: string, data: string, now: int)
    requires c <= C && |data| <= c && IsSuffix(a, b)
    requires IndexOf(a, url).None? && IndexOf(b, url).None?
    ensures IsSuffix(Insert(a, c, url, data, now), Insert(b, C, url, data, now))
  {
    hide Evict, IndexOf, IsSuffix, TotalSize;
    EvictionKeepsSuffix(a, b, c, C, |data|);
    AppendToBoth(Evict(a, c, |data|), Evict(b, C, |data|), Entry(url, data, now));
  }

  lemma AppendToBoth(a: seq<Entry>, b: seq<Entry>, e: Entry)
    requires IsSuffix(a, b)
    ensures IsSuffix(a + [e], b + [e])
  {
  }

  lemma EvictionKeepsSuffix(a: seq<Entry>, b: seq<Entry>, c: nat, C: nat, need: nat)
    requires need <= c <= C && IsSuffix(a, b)
    ensures IsSuffix(Evict(a, c, need), Evict(b, C, need))
  {
    hide Evict, TotalSize;
    EvictDropsPrefix(a, c, need);
    EvictDropsPrefix(b, C, need);
    var n := Evicted(a, c, need);
    DropSuffix(a, b, n);
    EvictStopsEarly(b, C, need, |b| - |a| + n);
  }

  lemma ServeKeepsSuffix(a: seq<Entry>, b: seq<Entry>, c: nat, C: nat, x: Access, file: string -> string)
    requires c <= C && Distinct(b) && Coherent(b, file) && IsSuffix(a, b)
    requires |file(x.url)| <= c || (|file(x.url)| > C && IndexOf(b, x.url).None?)
    ensures IsSuffix(Serve(a, c, x, file), Serve(b, C, x, file))
  {
    if IndexOf(a, x.url).Some? {
      ResidentInSuffix(a, b, x.url);
      HitInBoth(a, b, x.url, x.now);
    } else if |file(x.url)| <= c {
      if IndexOf(b, x.url).Some? {
        HitInLargeOnly(a, b, c, x.url, x.now, file);
      } else {
        MissInBoth(a, b, c, C, x.url, file(x.url), x.now);
      }
    }
  }

  lemma LargeFilesAreNotCached(s: seq<Entry>, capacity: nat, file: string -> string, url: string)
    requires TotalSize(s) <= capacity && Coherent(s, file) && |file(url)| > capacity
    ensures IndexOf(s, url).None?
  {
    if IndexOf(s, url).Some? {
      var i := IndexOf(s, url).value;
      SizeOfSuffix(s, i);
    }
  }

  /** LRU inclusion: the recency list of the smaller cache is at all times a
      suffix of the larger one's. */
  lemma {:induction false} SmallIsSuffixOfLarge(run: seq<Access>, c: nat, C: nat, file: string -> string)
    requires c <= C && SizesAgree(c, C, file)
    ensures IsSuffix(ServeAll(run, c, file), ServeAll(run, C, file))
  {
    if run != [] {
      var n := |run| - 1;
      var a, b, x := ServeAll(run[..n], c, file), ServeAll(run[..n], C, file), run[n];
      SmallIsSuffixOfLarge(run[..n], c, C, file);
      ServeAllIsValid(run[..n], c, file);
      ServeAllIsValid(run[..n], C, file);
      if |file(x.url)| > c {
        LargeFilesAreNotCached(a, c, file, x.url);
      }
      if |file(x.url)| > C {
        LargeFilesAreNotCached(b, C, file, x.url);
      }
      if |file(x.url)| <= c || |file(x.url)| > C {
        ServeKeepsSuffix(a, b, c, C, x, file);
      } else {
        NothingFits(run, c, file);
      }
    }
  }

  lemma {:induction false} NothingFits(run: seq<Access>, c: nat, file: string -> string)
    requires forall u :: |file(u)| > c
    ensures ServeAll(run, c, file) == []
  {
    if run != [] {
      NothingFits(run[..|run| - 1], c, file);
    }
  }

  /** Every hit of the smaller cache is a hit of the larger one. */
  lemma HitsAreIncluded(run: seq<Access>, c: nat, C: nat, file: string -> string, url: string)
    requires c <= C && SizesAgree(c, C, file)
    requires IndexOf(ServeAll(run, c, file), url).Some?
    ensures IndexOf(ServeAll(run, C, file), url).Some?
  {
    SmallIsSuffixOfLarge(run, c, C, file);
    ServeAllIsValid(run, C, file);
    ResidentInSuffix(ServeAll(run, c, file), ServeAll(run, C, file), url);
  }

  /** One file that fits the small cache, then one that fits only the large:
      after these two requests the lists end differently. */
  lemma InclusionBreaks(c: nat, C: nat, file: string -> string, small: string, large: string)
    requires |file(small)| <= c < |file(large)| <= C
    ensures var run := [Access(small, 0), Access(large, 0)];
            !IsSuffix(ServeAll(run, c, file), ServeAll(run, C, file))
  {
    var x, y := Access(small, 0), Access(large, 0);
    var run := [x, y];
    assert run[..1] == [x] && [x][..0] == [];
    assert ServeAll([x], c, file) == [Entry(small, file(small), 0)];
    assert ServeAll([x], C, file) == [Entry(small, file(small), 0)];
    assert ServeAll(run, c, file) == Serve(ServeAll([x], c, file), c, y, file);
    assert ServeAll(run, C, file) == Serve(ServeAll([x], C, file), C, y, file);
    assert ServeAll(run, c, file) == [Entry(small, file(small), 0)];
    var big := ServeAll(run, C, file);
    assert big[|big| - 1] == Entry(large, file(large), 0);
  }

  /** The smaller list is a suffix of the larger over every run exactly when the
      sizes agree.  `LruHits.dfy` says when the hits are included. */
  lemma InclusionIffSizesAgree(c: nat, C: nat, file: string -> string)
    requires c <= C
    ensures (forall run: seq<Access> :: IsSuffix(ServeAll(run, c, file), ServeAll(run, C, file)))
            <==> SizesAgree(c, C, file)
  {
    if SizesAgree(c, C, file) {
      forall run: seq<Access> ensures IsSuffix(ServeAll(run, c, file), ServeAll(run, C, file)) {
        SmallIsSuffixOfLarge(run, c, C, file);
      }
    } else {
      var large :| c < |file(large)| <= C;
      var small :| |file(small)| <= c;
      InclusionBreaks(c, C, file, small, large);
    }
  }
}
