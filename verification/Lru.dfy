/** The byte-bounded LRU cache as a plain sequence of entries, oldest use first,
    and what holds of it over whole runs. */
module Lru {
  import opened Strings

  /** One cached file. */
  datatype Entry = Entry(url: string, data: string, stamp: int)

  function TotalSize(s: seq<Entry>): nat {
    if s == [] then 0 else |s[0].data| + TotalSize(s[1..])
  }

  function IndexOf(s: seq<Entry>, url: string): (r: Option<nat>)
    ensures r.Some? ==> r.value < |s| && s[r.value].url == url
  {
    if s == [] then None
    else if s[0].url == url then Some(0)
    else match IndexOf(s[1..], url)
      case None => None
      case Some(i) => Some(i + 1)
  }

  predicate Distinct(s: seq<Entry>) {
    forall i, j :: 0 <= i < j < |s| ==> s[i].url != s[j].url
  }

  predicate ValidContents(s: seq<Entry>, capacity: nat) {
    Distinct(s) && TotalSize(s) <= capacity
  }

  // ------------------------------------------------------------------ Operations

  /** The entry at `i` becomes the most recent one. */
  function Touch(s: seq<Entry>, i: nat, now: int): seq<Entry>
    requires i < |s|
  {
    s[..i] + s[i + 1..] + [s[i].(stamp := now)]
  }

  function Load(s: seq<Entry>, url: string, now: int): seq<Entry> {
    match IndexOf(s, url)
    case None => s
    case Some(i) => Touch(s, i, now)
  }

  /** The oldest entries go while there is too little room. */
  function Evict(s: seq<Entry>, capacity: nat, need: nat): (r: seq<Entry>)
    ensures |r| <= |s|
  {
    if s != [] && capacity - TotalSize(s) < need then Evict(s[1..], capacity, need) else s
  }

  predicate Inserts(s: seq<Entry>, capacity: nat, url: string, data: string) {
    IndexOf(s, url).None? && |data| <= capacity
  }

  function Insert(s: seq<Entry>, capacity: nat, url: string, data: string, now: int): seq<Entry> {
    if Inserts(s, capacity, url, data) then Evict(s, capacity, |data|) + [Entry(url, data, now)] else s
  }

  // ------------------------------------------------------------- Basic facts

  lemma {:induction false} SizeOfConcat(a: seq<Entry>, b: seq<Entry>)
    ensures TotalSize(a + b) == TotalSize(a) + TotalSize(b)
  {
    if a == [] {
      assert a + b == b;
    } else {
      assert (a + b)[1..] == a[1..] + b;
      SizeOfConcat(a[1..], b);
    }
  }

  lemma SizeOfSuffix(s: seq<Entry>, k: nat)
    requires k <= |s|
    ensures TotalSize(s) == TotalSize(s[..k]) + TotalSize(s[k..])
  {
    assert s == s[..k] + s[k..];
    SizeOfConcat(s[..k], s[k..]);
  }

  lemma {:induction false} IndexOfIs(s: seq<Entry>, url: string, i: nat)
    requires Distinct(s) && i < |s| && s[i].url == url
    ensures IndexOf(s, url) == Some(i)
  {
    if i > 0 {
      IndexOfIs(s[1..], url, i - 1);
    }
  }

  lemma {:induction false} IndexOfNone(s: seq<Entry>, url: string)
    ensures IndexOf(s, url).None? <==> forall i :: 0 <= i < |s| ==> s[i].url != url
  {
    if s != [] {
      IndexOfNone(s[1..], url);
      assert forall i :: 1 <= i < |s| ==> s[i] == s[1..][i - 1];
    }
  }

  /** Where the entries stand after a touch. */
  lemma TouchAt(s: seq<Entry>, i: nat, now: int, j: nat)
    requires i < |s| && j < |s|
    ensures |Touch(s, i, now)| == |s|
    ensures Touch(s, i, now)[j] ==
            if j < i then s[j] else if j < |s| - 1 then s[j + 1] else s[i].(stamp := now)
  {
  }

  lemma SizeOfTouch(s: seq<Entry>, i: nat, now: int)
    requires i < |s|
    ensures TotalSize(Touch(s, i, now)) == TotalSize(s)
  {
    hide TotalSize;
    var a, b, e := s[..i], s[i + 1..], s[i];
    assert s == a + ([e] + b);
    SizeOfConcat(a, [e] + b);
    SizeOfConcat([e], b);
    SizeOfConcat(a + b, [e.(stamp := now)]);
    SizeOfConcat(a, b);
    SizeOfOne(e);
    SizeOfOne(e.(stamp := now));
  }

  lemma SizeOfOne(e: Entry)
    ensures TotalSize([e]) == |e.data|
  {
  }

  // --------------------------------------------------------------- Eviction

  /** How many entries go. */
  function Evicted(s: seq<Entry>, capacity: nat, need: nat): nat {
    |s| - |Evict(s, capacity, need)|
  }

  lemma {:induction false} EvictDropsPrefix(s: seq<Entry>, capacity: nat, need: nat)
    requires need <= capacity
    ensures Evict(s, capacity, need) == s[Evicted(s, capacity, need)..]
    ensures TotalSize(Evict(s, capacity, need)) + need <= capacity
  {
    if s != [] && capacity - TotalSize(s) < need {
      EvictDropsPrefix(s[1..], capacity, need);
    }
  }

  lemma {:induction false} EvictStopsEarly(s: seq<Entry>, capacity: nat, need: nat, k: nat)
    requires need <= capacity && k <= |s| && TotalSize(s[k..]) + need <= capacity
    ensures |s| - k <= |Evict(s, capacity, need)|
  {
    if k > 0 && capacity - TotalSize(s) < need {
      assert s[1..][k - 1..] == s[k..];
      EvictStopsEarly(s[1..], capacity, need, k - 1);
    } else {
      assert s[0..] == s;
    }
  }

  /** Minimal eviction: `k` entries go exactly when dropping the `k` oldest makes
      room and dropping fewer does not. */
  lemma EvictsShortestPrefixIff(s: seq<Entry>, capacity: nat, need: nat, k: nat)
    requires need <= capacity && k <= |s|
    ensures Evict(s, capacity, need) == s[k..] <==>
              && TotalSize(s[k..]) + need <= capacity
              && forall j :: 0 <= j < k ==> TotalSize(s[j..]) + need > capacity
  {
    EvictDropsPrefix(s, capacity, need);
    var n := Evicted(s, capacity, need);
    forall j | 0 <= j < n ensures TotalSize(s[j..]) + need > capacity {
      if TotalSize(s[j..]) + need <= capacity {
        EvictStopsEarly(s, capacity, need, j);
      }
    }
    if Evict(s, capacity, need) == s[k..] {
      assert |s[k..]| == |s[n..]|;
      assert k == n;
    }
  }

  lemma LoadKeepsValid(s: seq<Entry>, capacity: nat, url: string, now: int)
    requires ValidContents(s, capacity)
    ensures ValidContents(Load(s, url, now), capacity)
  {
    hide TotalSize, IndexOf, Touch;
    if IndexOf(s, url).Some? {
      SizeOfTouch(s, IndexOf(s, url).value, now);
      TouchKeepsDistinct(s, IndexOf(s, url).value, now);
    }
  }

  lemma TouchKeepsDistinct(s: seq<Entry>, i: nat, now: int)
    requires i < |s| && Distinct(s)
    ensures Distinct(Touch(s, i, now))
  {
    hide Touch;
    var t := Touch(s, i, now);
    TouchAt(s, i, now, i);
    forall j, k | 0 <= j < k < |t| ensures t[j].url != t[k].url {
      TouchAt(s, i, now, j);
      TouchAt(s, i, now, k);
    }
  }

  lemma InsertKeepsValid(s: seq<Entry>, capacity: nat, url: string, data: string, now: int)
    requires ValidContents(s, capacity)
    ensures ValidContents(Insert(s, capacity, url, data, now), capacity)
  {
    if Inserts(s, capacity, url, data) {
      var e := Evict(s, capacity, |data|);
      EvictDropsPrefix(s, capacity, |data|);
      SizeOfConcat(e, [Entry(url, data, now)]);
      assert TotalSize([Entry(url, data, now)]) == |data|;
      IndexOfNone(s, url);
    }
  }

  // --------------------------------------------------------------------- Runs

  datatype Op =
    | TryLoad(url: string, now: int)
    | TryInsert(url: string, data: string, now: int)
    | Clear

  function Step(s: seq<Entry>, capacity: nat, op: Op): seq<Entry> {
    match op
    case TryLoad(url, now) => Load(s, url, now)
    case TryInsert(url, data, now) => Insert(s, capacity, url, data, now)
    case Clear => []
  }

  /** The boolean that `TryLoad` and `TryInsert` return. */
  predicate Succeeds(s: seq<Entry>, capacity: nat, op: Op) {
    match op
    case TryLoad(url, _) => IndexOf(s, url).Some?
    case TryInsert(url, data, _) => Inserts(s, capacity, url, data)
    case Clear => false
  }

  predicate Uses(s: seq<Entry>, capacity: nat, op: Op, url: string) {
    !op.Clear? && op.url == url && Succeeds(s, capacity, op)
  }

  /** The contents after a run that starts with an empty cache. */
  function Run(ops: seq<Op>, capacity: nat): seq<Entry> {
    if ops == [] then []
    else Step(Run(ops[..|ops| - 1], capacity), capacity, ops[|ops| - 1])
  }

  /** The last moment of the run at which the file was inserted or found; -1 when
      there is none. */
  function LastUse(ops: seq<Op>, capacity: nat, url: string): int {
    if ops == [] then -1
    else
      var n := |ops| - 1;
      if Uses(Run(ops[..n], capacity), capacity, ops[n], url) then n
      else LastUse(ops[..n], capacity, url)
  }

  lemma {:induction false} RunIsValid(ops: seq<Op>, capacity: nat)
    ensures ValidContents(Run(ops, capacity), capacity)
  {
    if ops != [] {
      var n := |ops| - 1;
      var s := Run(ops[..n], capacity);
      RunIsValid(ops[..n], capacity);
      match ops[n]
      case TryLoad(url, now) => LoadKeepsValid(s, capacity, url, now);
      case TryInsert(url, data, now) => InsertKeepsValid(s, capacity, url, data, now);
      case Clear =>
    }
  }

  /** The list stands in the order of last use, and each stamp is the clock
      reading of that use. */
  ghost predicate OrderedByLastUse(s: seq<Entry>, ops: seq<Op>, capacity: nat) {
    && (forall i :: 0 <= i < |s| ==>
          && 0 <= LastUse(ops, capacity, s[i].url) < |ops|
          && !ops[LastUse(ops, capacity, s[i].url)].Clear?
          && ops[LastUse(ops, capacity, s[i].url)].now == s[i].stamp)
    && (forall i, j :: 0 <= i < j < |s| ==>
          LastUse(ops, capacity, s[i].url) < LastUse(ops, capacity, s[j].url))
  }

  lemma {:induction false} RunIsOrderedByLastUse(ops: seq<Op>, capacity: nat)
    ensures OrderedByLastUse(Run(ops, capacity), ops, capacity)
  {
    if ops != [] {
      hide Run, OrderedByLastUse, ValidContents, Succeeds;
      var n := |ops| - 1;
      var before := ops[..n];
      var s, op := Run(before, capacity), ops[n];
      RunIsOrderedByLastUse(before, capacity);
      RunIsValid(before, capacity);
      if Succeeds(s, capacity, op) {
        UseGoesLast(ops, capacity);
      } else {
        FailureKeepsOrder(ops, capacity);
      }
    }
  }

  lemma FailureKeepsOrder(ops: seq<Op>, capacity: nat)
    requires ops != []
    requires var n := |ops| - 1;
             var s := Run(ops[..n], capacity);
             OrderedByLastUse(s, ops[..n], capacity) && !Succeeds(s, capacity, ops[n])
    ensures OrderedByLastUse(Run(ops, capacity), ops, capacity)
  {
    hide TotalSize, Evict, IndexOf;
    var n := |ops| - 1;
    var s, op := Run(ops[..n], capacity), ops[n];
    if !op.Clear? {
      assert Run(ops, capacity) == s;
      forall i | 0 <= i < |s|
        ensures LastUse(ops, capacity, s[i].url) == LastUse(ops[..n], capacity, s[i].url) {
      }
    }
  }

  lemma UseGoesLast(ops: seq<Op>, capacity: nat)
    requires ops != []
    requires var n := |ops| - 1;
             var s := Run(ops[..n], capacity);
             && ValidContents(s, capacity) && OrderedByLastUse(s, ops[..n], capacity)
             && Succeeds(s, capacity, ops[n])
    ensures OrderedByLastUse(Run(ops, capacity), ops, capacity)
  {
    hide TotalSize, Evict, Step, Inserts, Distinct, IndexOf;
    var n := |ops| - 1;
    var before, op := ops[..n], ops[n];
    var s, t := Run(before, capacity), Run(ops, capacity);
    var last := |t| - 1;
    var kept := KeptOnUse(s, capacity, op);
    forall i | 0 <= i < last
      ensures LastUse(ops, capacity, t[i].url) == LastUse(before, capacity, s[kept[i]].url)
      ensures t[i] == s[kept[i]] {
      assert t[i].url != op.url;
    }
    assert LastUse(ops, capacity, t[last].url) == n;
  }

  /** Which entries stay in front of the one just used, by their old places. */
  lemma KeptOnUse(s: seq<Entry>, capacity: nat, op: Op) returns (kept: seq<nat>)
    requires ValidContents(s, capacity) && Succeeds(s, capacity, op)
    ensures var t := Step(s, capacity, op);
            && |t| == |kept| + 1
            && t[|kept|].url == op.url && t[|kept|].stamp == op.now
            && (forall i :: 0 <= i < |kept| ==> kept[i] < |s| && t[i] == s[kept[i]] && t[i].url != op.url)
            && (forall i, j :: 0 <= i < j < |kept| ==> kept[i] < kept[j])
  {
    hide TotalSize, Evict;
    match op
    case TryLoad(url, now) =>
      var k := IndexOf(s, url).value;
      kept := seq(|s| - 1, i requires 0 <= i < |s| - 1 => if i < k then i else i + 1);
    case TryInsert(url, data, now) =>
      EvictDropsPrefix(s, capacity, |data|);
      IndexOfNone(s, url);
      var k := Evicted(s, capacity, |data|);
      kept := seq(|s| - k, i requires 0 <= i < |s| - k => i + k);
  }

  ghost predicate ClockDoesNotGoBack(ops: seq<Op>) {
    forall i, j :: 0 <= i < j < |ops| && !ops[i].Clear? && !ops[j].Clear? ==> ops[i].now <= ops[j].now
  }

  /** Stamps never decrease from head to tail under a clock that does not go back. */
  lemma StampsAscend(ops: seq<Op>, capacity: nat)
    requires ClockDoesNotGoBack(ops)
    ensures var s := Run(ops, capacity);
            forall i, j :: 0 <= i < j < |s| ==> s[i].stamp <= s[j].stamp
  {
    RunIsOrderedByLastUse(ops, capacity);
  }

  // -------------------------------------------------- Cached bytes are the files

  /** Every insertion stores the file it is named after. */
  ghost predicate StoresFiles(ops: seq<Op>, file: string -> string) {
    forall i :: 0 <= i < |ops| && ops[i].TryInsert? ==> ops[i].data == file(ops[i].url)
  }

  ghost predicate Coherent(s: seq<Entry>, file: string -> string) {
    forall i :: 0 <= i < |s| ==> s[i].data == file(s[i].url)
  }

  lemma LoadIsCoherent(s: seq<Entry>, url: string, now: int, file: string -> string)
    requires Coherent(s, file)
    ensures Coherent(Load(s, url, now), file)
  {
  }

  lemma InsertIsCoherent(s: seq<Entry>, capacity: nat, url: string, now: int, file: string -> string)
    requires Coherent(s, file)
    ensures Coherent(Insert(s, capacity, url, file(url), now), file)
  {
    if |file(url)| <= capacity {
      EvictDropsPrefix(s, capacity, |file(url)|);
    }
  }

  /** However many handlers interleave their calls, every hit returns the bytes
      of the file. */
  lemma {:induction false} HitsReturnTheFile(ops: seq<Op>, capacity: nat, file: string -> string)
    requires StoresFiles(ops, file)
    ensures Coherent(Run(ops, capacity), file)
  {
    if ops != [] {
      var n := |ops| - 1;
      HitsReturnTheFile(ops[..n], capacity, file);
      var s := Run(ops[..n], capacity);
      match ops[n]
      case TryLoad(url, now) => LoadIsCoherent(s, url, now, file);
      case TryInsert(url, data, now) => InsertIsCoherent(s, capacity, url, now, file);
      case Clear =>
    }
  }
}
