/** `src/core/cache.cc`: the cache as linked nodes, a map and a byte counter in
    machine arithmetic, proved to be the sequence of `Lru.dfy`. */
module Caching {
  import opened Strings
  import opened Lru

  /** One more than the greatest `size_t`. */
  const SIZE_MODULUS := 0x1_0000_0000_0000_0000

  /** Unsigned subtraction and addition as the machine does them. */
  function SizeSub(a: nat, b: nat): nat { (a - b) % SIZE_MODULUS }

  function SizeAdd(a: nat, b: nat): nat { (a + b) % SIZE_MODULUS }

  class CacheNode {
    var identifier: string
    var data: string
    var lastAccess: int
    var prev: CacheNode?
    var next: CacheNode?

    constructor (identifier: string, data: string, now: int)
      ensures this.identifier == identifier && this.data == data && lastAccess == now
      ensures prev == null && next == null
    {
      this.identifier, this.data, this.lastAccess := identifier, data, now;
      this.prev, this.next := null, null;
    }

    method Serialize(destination: string) returns (r: string)
      ensures r == destination + data
    {
      r := destination + data;
    }

    method Detach()
      requires prev != null && next != null && prev != this && next != this
      modifies prev`next, next`prev
      ensures prev.next == next && next.prev == prev
    {
      prev.next := next;
      next.prev := prev;
    }

    method UpdateTimestamp(now: int)
      modifies this`lastAccess
      ensures lastAccess == now
    {
      lastAccess := now;
    }

    ghost function AsEntry(): Entry
      reads this
    {
      Entry(identifier, data, lastAccess)
    }
  }

  /** Forward and backward links both spell the sequence. */
  ghost predicate Linked(sp: seq<CacheNode>)
    reads sp
  {
    && (forall i, j :: 0 <= i < j < |sp| ==> sp[i] != sp[j])
    && (forall i :: 0 <= i < |sp| - 1 ==> sp[i].next == sp[i + 1])
    && (forall i :: 0 < i < |sp| ==> sp[i].prev == sp[i - 1])
  }

  ghost function RemoveAt<T>(s: seq<T>, k: nat): seq<T>
    requires k < |s|
  {
    s[..k] + s[k + 1..]
  }

  lemma RemovedLength<T>(s: seq<T>, k: nat)
    requires k < |s|
    ensures |RemoveAt(s, k)| == |s| - 1
  {
  }

  lemma RemovedAt<T>(s: seq<T>, k: nat, j: nat)
    requires k < |s| && j < |s| - 1
    ensures RemoveAt(s, k)[j] == if j < k then s[j] else s[j + 1]
  {
  }

  lemma TouchIsRemoveAndAppend(s: seq<Entry>, i: nat, now: int)
    requires i < |s|
    ensures Touch(s, i, now) == RemoveAt(s, i) + [s[i].(stamp := now)]
  {
  }

  lemma ElementsRemain<T>(s: seq<T>, k: nat)
    requires k < |s| && forall i, j :: 0 <= i < j < |s| ==> s[i] != s[j]
    ensures forall x :: x in RemoveAt(s, k) <==> x in s && x != s[k]
  {
    var r := RemoveAt(s, k);
    forall x | x in s && x != s[k] ensures x in r {
      var i :| 0 <= i < |s| && s[i] == x;
      assert r[if i < k then i else i - 1] == x;
    }
  }

  class Cache {
    var mapping: map<string, CacheNode>
    const capacity: nat
    var occupancy: nat
    const head: CacheNode
    const tail: CacheNode
    /** Head sentinel, the nodes oldest use first, tail sentinel. */
    ghost var spine: seq<CacheNode>
    /** The cached files, oldest use first. */
    ghost var contents: seq<Entry>

    /** The nodes between the sentinels. */
    ghost function Inner(): set<CacheNode>
      reads this`spine
    {
      (set n | n in spine) - {head, tail}
    }

    ghost predicate Chained()
      reads this`spine, spine
    {
      |spine| >= 2 && spine[0] == head && spine[|spine| - 1] == tail && Linked(spine)
    }

    /** The map holds exactly the nodes of the list, under their identifiers. */
    ghost predicate Indexed()
      reads this`mapping, this`spine, spine
    {
      && (forall u :: u in mapping ==> mapping[u] in Inner() && mapping[u].identifier == u)
      && (forall n :: n in Inner() ==> n.identifier in mapping && mapping[n.identifier] == n)
    }

    ghost predicate Described()
      reads this`spine, this`contents, spine
    {
      |contents| + 2 == |spine| && forall i :: 0 < i < |spine| - 1 ==> contents[i - 1] == spine[i].AsEntry()
    }

    ghost predicate Valid()
      reads this, spine
    {
      && Chained() && Indexed() && Described()
      && capacity < SIZE_MODULUS
      && occupancy == TotalSize(contents) <= capacity
    }

    constructor (capacity: nat, now: int)
      requires capacity < SIZE_MODULUS
      ensures Valid() && contents == [] && this.capacity == capacity
      ensures fresh(spine)
    {
      this.mapping, this.capacity, this.occupancy := map[], capacity, 0;
      var h := new CacheNode("", "", now);
      var t := new CacheNode("", "", now);
      h.next := t;
      t.prev := h;
      head, tail := h, t;
      spine, contents := [h, t], [];
    }

    /** `node->Detach()` for the node at place `k` of the list. */
    method Unlink(node: CacheNode, ghost k: nat)
      requires Chained() && 0 < k < |spine| - 1 && spine[k] == node
      modifies this`spine, spine`next, spine`prev
      ensures spine == RemoveAt(old(spine), k) && Chained()
    {
      assert spine[k].prev == spine[k - 1] && spine[k].next == spine[k + 1];
      node.Detach();
      spine := RemoveAt(spine, k);
    }

    /** ... and the entry of that node leaves the contents. */
    ghost method Forget(before: seq<CacheNode>, k: nat)
      requires 0 < k < |before| - 1 && |contents| + 2 == |before|
      requires forall i :: 0 < i < |before| - 1 ==> contents[i - 1] == before[i].AsEntry()
      requires spine == RemoveAt(before, k)
      modifies this`contents
      ensures Described() && contents == RemoveAt(old(contents), k - 1)
    {
      hide RemoveAt;
      RemovedLength(before, k);
      RemovedLength(contents, k - 1);
      contents := RemoveAt(contents, k - 1);
      forall j | 0 < j < |spine| - 1 ensures contents[j - 1] == spine[j].AsEntry() {
        RemovedAt(before, k, j);
        RemovedAt(old(contents), k - 1, j - 1);
      }
    }

    /** Both: the node and its entry leave. */
    method Take(node: CacheNode, ghost k: nat)
      requires Chained() && Described() && 0 < k < |spine| - 1 && spine[k] == node
      modifies this`spine, this`contents, spine`next, spine`prev
      ensures Chained() && Described() && |spine| == |old(spine)| - 1
      ensures forall n :: n in spine <==> n in old(spine) && n != node
      ensures contents == RemoveAt(old(contents), k - 1)
    {
      ElementsRemain(spine, k);
      Unlink(node, k);
      Forget(old(spine), k);
    }

    method AppendToListTail(node: CacheNode)
      requires Chained() && Described() && node !in spine
      modifies this`spine, this`contents, node`prev, node`next, spine`prev, spine`next
      ensures Chained() && Described() && |spine| == |old(spine)| + 1 && spine[|spine| - 2] == node
      ensures forall n :: n in spine <==> n in old(spine) || n == node
      ensures contents == old(contents) + [node.AsEntry()]
    {
      ghost var last := |spine| - 1;
      assert spine[last].prev == spine[last - 1];
      var prev := tail.prev;
      prev.next := node;
      tail.prev := node;
      node.prev := prev;
      node.next := tail;
      assert spine == spine[..last] + [tail];
      spine := spine[..last] + [node, tail];
      contents := contents + [node.AsEntry()];
    }

    /** Stamping the node in front of the tail. */
    method Stamp(node: CacheNode, now: int)
      requires Chained() && Described() && |spine| > 2 && spine[|spine| - 2] == node
      modifies this`contents, node`lastAccess
      ensures Chained() && Described()
      ensures contents == old(contents)[..|contents| - 1] + [old(contents)[|contents| - 1].(stamp := now)]
    {
      node.UpdateTimestamp(now);
      ghost var last := |contents| - 1;
      contents := contents[..last] + [contents[last].(stamp := now)];
    }

    lemma UrlsAreDistinct()
      requires Chained() && Indexed() && Described()
      ensures Distinct(contents)
    {
      forall i, j | 0 <= i < j < |contents| ensures contents[i].url != contents[j].url {
        var m, n := spine[i + 1], spine[j + 1];
        assert m != n && m in Inner() && n in Inner();
        assert contents[i] == m.AsEntry() && contents[j] == n.AsEntry();
      }
    }

    lemma FoundIffResident(url: string)
      requires Chained() && Indexed() && Described()
      ensures url in mapping <==> IndexOf(contents, url).Some?
      ensures url in mapping ==>
                var i := IndexOf(contents, url).value;
                i + 1 < |spine| - 1 && spine[i + 1] == mapping[url] && contents[i] == mapping[url].AsEntry()
    {
      UrlsAreDistinct();
      if url in mapping {
        var i :| 0 <= i < |spine| && mapping[url] == spine[i];
        assert contents[i - 1] == spine[i].AsEntry();
        IndexOfIs(contents, url, i - 1);
      } else {
        forall i | 0 <= i < |contents| ensures contents[i].url != url {
          assert contents[i] == spine[i + 1].AsEntry() && spine[i + 1] in Inner();
        }
        IndexOfNone(contents, url);
      }
    }

    /** What a hit does to the list: detach, append at the tail, stamp. */
    method MoveToTail(node: CacheNode, ghost i: nat, now: int)
      requires Chained() && Described() && i + 1 < |spine| - 1 && spine[i + 1] == node
      modifies this`spine, this`contents, spine`next, spine`prev, node`lastAccess
      ensures Chained() && Described()
      ensures forall n :: n in spine <==> n in old(spine)
      ensures contents == Touch(old(contents), i, now)
    {
      hide RemoveAt, Linked, Touch;
      assert contents[i] == spine[i + 1].AsEntry();
      assert node in spine;
      Take(node, i + 1);
      assert forall j :: 0 <= j < |spine| ==> spine[j] in old(spine);
      AppendToListTail(node);
      Stamp(node, now);
      TouchIsRemoveAndAppend(old(contents), i, now);
      assert contents == Touch(old(contents), i, now);
    }

    method TryLoad(url: string, destination: string, now: int) returns (found: bool, r: string)
      requires Valid()
      modifies this, spine
      ensures Valid() && mapping.Keys == old(mapping).Keys
      ensures forall n :: n in spine ==> n in old(spine)
      ensures found <==> IndexOf(old(contents), url).Some?
      ensures contents == Load(old(contents), url, now)
      ensures found ==> r == destination + old(contents)[IndexOf(old(contents), url).value].data
      ensures !found ==> r == destination
    {
      hide IndexOf, TotalSize, Linked, Described, Touch;
      FoundIffResident(url);
      if url in mapping {
        var node := mapping[url];
        ghost var i := IndexOf(contents, url).value;
        r := node.Serialize(destination);
        MoveToTail(node, i, now);
        assert Inner() == old(Inner());
        SizeOfTouch(old(contents), i, now);
        return true, r;
      }
      return false, destination;
    }

    lemma EmptyTogether()
      requires Chained() && Indexed() && Described()
      ensures mapping == map[] <==> contents == []
    {
      if contents != [] {
        assert spine[1] in Inner();
        assert spine[1].identifier in mapping;
      } else {
        assert Inner() == {};
      }
    }

    /** The body of the eviction loop: the oldest file goes. */
    method EvictFirst()
      requires Valid() && contents != []
      modifies this`mapping, this`occupancy, this`spine, this`contents, spine`next, spine`prev
      ensures Valid() && contents == old(contents)[1..]
      ensures mapping.Keys <= old(mapping.Keys)
      ensures forall n :: n in spine ==> n in old(spine)
    {
      hide Linked, Described, RemoveAt;
      FirstNode();
      var firstNode := head.next;
      var resourceSize := |firstNode.data|;
      assert firstNode in Inner();
      assert firstNode.identifier in mapping;
      var found := mapping[firstNode.identifier];
      Take(found, 1);
      mapping := mapping - {firstNode.identifier};
      occupancy := SizeSub(occupancy, resourceSize);
      RemoveFirst(old(contents));
      assert Inner() == old(Inner()) - {firstNode};
    }

    lemma RemoveFirst(s: seq<Entry>)
      requires s != []
      ensures RemoveAt(s, 0) == s[1..]
    {
    }

    lemma FirstNode()
      requires Chained() && Described() && contents != []
      ensures |spine| > 2 && head.next == spine[1] && spine[1] in Inner()
      ensures contents[0] == spine[1].AsEntry()
    {
      assert spine[0].next == spine[1];
    }

    method TryInsert(url: string, source: string, now: int) returns (inserted: bool)
      requires Valid()
      modifies this, spine
      ensures Valid()
      ensures forall n :: n in spine ==> n in old(spine) || fresh(n)
      ensures inserted <==> Inserts(old(contents), capacity, url, source)
      ensures contents == Insert(old(contents), capacity, url, source, now)
    {
      hide IndexOf, TotalSize, Linked, Described;
      FoundIffResident(url);
      if url in mapping {
        return false;
      }
      if |source| > capacity {
        return false;
      }
      EvictDropsPrefix(contents, capacity, |source|);
      MakeRoom(|source|);
      var node := new CacheNode(url, source, now);
      Store(node);
      return true;
    }

    /** The eviction loop. */
    method MakeRoom(need: nat)
      requires Valid() && need <= capacity
      modifies this`mapping, this`occupancy, this`spine, this`contents, spine`next, spine`prev
      ensures Valid() && contents == Evict(old(contents), capacity, need)
      ensures mapping.Keys <= old(mapping.Keys)
      ensures forall j :: 0 <= j < |spine| ==> spine[j] in old(spine)
    {
      hide TotalSize, Linked, Described, Indexed;
      EmptyTogether();
      while mapping != map[] && SizeSub(capacity, occupancy) < need
        invariant Valid() && (mapping == map[] <==> contents == [])
        invariant mapping.Keys <= old(mapping.Keys)
        invariant forall j :: 0 <= j < |spine| ==> spine[j] in old(spine)
        invariant Evict(contents, capacity, need) == Evict(old(contents), capacity, need)
        decreases |contents|
      {
        ghost var before := spine;
        EvictFirst();
        forall j | 0 <= j < |spine| ensures spine[j] in old(spine) {
          assert spine[j] in before;
        }
        EmptyTogether();
      }
    }

    /** The insertion proper: link, count and index a new node. */
    method Store(node: CacheNode)
      requires Valid() && node !in spine && node.identifier !in mapping
      requires TotalSize(contents) + |node.data| <= capacity
      modifies this`mapping, this`occupancy, this`spine, this`contents, node`prev, node`next, spine`prev, spine`next
      ensures Valid() && contents == old(contents) + [node.AsEntry()]
      ensures forall n :: n in spine <==> n in old(spine) || n == node
    {
      hide TotalSize, Linked, Described;
      SizeOfConcat(contents, [node.AsEntry()]);
      SizeOfOne(node.AsEntry());
      AppendToListTail(node);
      occupancy := SizeAdd(occupancy, |node.data|);
      mapping := mapping[node.identifier := node];
      assert Inner() == old(Inner()) + {node};
    }

    /** Afterwards no node but the sentinels is linked. */
    method Clear()
      requires Valid()
      modifies this, spine
      ensures Valid() && contents == []
      ensures forall n :: n in spine ==> n in old(spine)
    {
      head.next := tail;
      tail.prev := head;
      mapping := map[];
      occupancy := 0;
      spine, contents := [head, tail], [];
    }
  }
}
