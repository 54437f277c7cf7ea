// The LRU cache of the proxy: a map, a recency list and iterators from one to the other.
module Cache {
  import opened Recency
  import opened Sequences

  // A node of memoryList; an iterator is a reference to one.
  class ListNode {
    const key: string

    constructor (key: string)
      ensures this.key == key
    {
      this.key := key;
    }
  }

  type Declared = n: int | n >= -1

  // A cached response.  Its sizes are fixed while it is cached; the header is never empty
  // and declares the size of the body, or -1 when it declares none.
  class CacheInstance {
    const headerSize: Positive
    const declaredSize: Declared
    const bodySize: nat
    var iterator_: ListNode?

    constructor (headerSize: Positive, declaredSize: Declared, bodySize: nat)
      ensures this.headerSize == headerSize && this.declaredSize == declaredSize && this.bodySize == bodySize
    {
      this.headerSize := headerSize;
      this.declaredSize := declaredSize;
      this.bodySize := bodySize;
      iterator_ := null;
    }

    // What getTotSize asserts of the two body sizes.
    predicate Sound() {
      declaredSize == bodySize || declaredSize == -1
    }

    // The source adds what the header declares, so an undeclared body counts as -1.
    function TotSize(): (size: nat)
      ensures Sound() ==> size == if declaredSize == -1 then headerSize - 1 else headerSize + bodySize
    {
      headerSize + declaredSize
    }
  }

  type Nodes = seq<ListNode>
  type Instances = map<string, CacheInstance>

  // list::erase: the list without one node.
  function Without(list: Nodes, node: ListNode): Nodes {
    if list == [] then []
    else if list[0] == node then list[1..]
    else [list[0]] + Without(list[1..], node)
  }

  ghost predicate Known(list: Nodes, m: Instances) {
    forall i | 0 <= i < |list| :: list[i].key in m
  }

  // What list and map hold together, least recent first.
  ghost function Contents(list: Nodes, m: Instances): (c: seq<Entry>)
    requires Known(list, m)
    ensures |c| == |list|
    ensures forall i | 0 <= i < |c| :: c[i] == Entry(list[i].key, m[list[i].key].TotSize())
  {
    seq(|list|, i requires 0 <= i < |list| => Entry(list[i].key, m[list[i].key].TotSize()))
  }

  // List and map have the same keys, each once.
  ghost predicate Agree(list: Nodes, m: Instances) {
    && Known(list, m)
    && (forall i, j | 0 <= i < j < |list| :: list[i].key != list[j].key)
    && forall k | k in m :: exists i | 0 <= i < |list| :: list[i].key == k
  }

  lemma {:induction false} WithoutFacts(list: Nodes, node: ListNode, i: nat)
    requires i < |list| && list[i] == node
    requires forall j | 0 <= j < i :: list[j] != node
    ensures Without(list, node) == Cut(list, i)
  {
    if i > 0 {
      WithoutFacts(list[1..], node, i - 1);
    }
  }

  lemma {:induction false} RemoveFactsAt(c: seq<Entry>, key: string, i: nat)
    requires i < |c| && c[i].key == key
    requires forall j | 0 <= j < i :: c[j].key != key
    ensures Remove(c, key) == c[..i] + c[i + 1..]
    ensures Total(Remove(c, key)) + c[i].size == Total(c)
  {
    if i > 0 {
      RemoveFactsAt(c[1..], key, i - 1);
      assert Remove(c, key)[1..] == Remove(c[1..], key);
    }
  }

  lemma NodeIndex(list: Nodes, m: Instances, node: ListNode) returns (i: nat)
    requires Agree(list, m) && node in list
    ensures i < |list| && list[i] == node && node.key in m
    ensures forall j | 0 <= j < |list| && j != i :: list[j] != node && list[j].key != node.key
  {
    i :| i < |list| && list[i] == node;
  }

  function Cut(list: Nodes, i: nat): Nodes
    requires i < |list|
  {
    list[..i] + list[i + 1..]
  }

  lemma CutKeepsOthers(list: Nodes, i: nat, n: ListNode)
    requires i < |list| && n in list && n != list[i]
    ensures n in Cut(list, i)
  {
    var j :| 0 <= j < |list| && list[j] == n;
    assert Cut(list, i)[if j < i then j else j - 1] == n;
  }

  lemma CutAgrees(list: Nodes, m: Instances, i: nat)
    requires Agree(list, m) && i < |list|
    ensures Agree(Cut(list, i), m - {list[i].key})
  {
    var rest, m' := Cut(list, i), m - {list[i].key};
    forall k | k in m' ensures exists j | 0 <= j < |rest| :: rest[j].key == k {
      var j :| 0 <= j < |list| && list[j].key == k;
      assert rest[if j < i then j else j - 1] == list[j];
    }
  }

  lemma CutContents(list: Nodes, m: Instances, i: nat)
    requires i < |list| && Known(list, m)
    requires Known(Cut(list, i), m - {list[i].key})
    ensures Contents(Cut(list, i), m - {list[i].key}) == Contents(list, m)[..i] + Contents(list, m)[i + 1..]
  {
  }

  // Erasing a node from the list and its key from the map.
  lemma EraseAgrees(list: Nodes, m: Instances, node: ListNode)
    requires Agree(list, m) && node in list
    ensures node.key in m && Agree(Without(list, node), m - {node.key})
    ensures Contents(Without(list, node), m - {node.key}) == Remove(Contents(list, m), node.key)
    ensures Total(Contents(Without(list, node), m - {node.key})) + m[node.key].TotSize() == Total(Contents(list, m))
    ensures forall n | n in list && n != node :: n in Without(list, node)
  {
    hide Without, Total, Remove;
    var i := NodeIndex(list, m, node);
    WithoutFacts(list, node, i);
    RemoveFactsAt(Contents(list, m), node.key, i);
    CutAgrees(list, m, i);
    CutContents(list, m, i);
    forall n | n in list && n != node ensures n in Cut(list, i) {
      CutKeepsOthers(list, i, n);
    }
  }

  lemma AppendKeepsAgreement(list: Nodes, m: Instances, node: ListNode, instance: CacheInstance)
    requires Agree(list, m) && node.key !in m
    ensures Agree(list + [node], m[node.key := instance])
  {
    var longer, m' := list + [node], m[node.key := instance];
    assert longer[|list|] == node;
    forall k | k in m' ensures exists j | 0 <= j < |longer| :: longer[j].key == k {
      if k != node.key {
        var j :| 0 <= j < |list| && list[j].key == k;
        assert longer[j] == list[j];
      }
    }
  }

  lemma AppendContents(list: Nodes, m: Instances, node: ListNode, instance: CacheInstance)
    requires Known(list, m) && node.key !in m && Known(list + [node], m[node.key := instance])
    ensures Contents(list + [node], m[node.key := instance]) ==
            Contents(list, m) + [Entry(node.key, instance.TotSize())]
  {
  }

  // Appending a node for a key the map did not have.
  lemma AppendAgrees(list: Nodes, m: Instances, node: ListNode, instance: CacheInstance)
    requires Agree(list, m) && node.key !in m
    ensures Agree(list + [node], m[node.key := instance])
    ensures Contents(list + [node], m[node.key := instance]) ==
            Contents(list, m) + [Entry(node.key, instance.TotSize())]
    ensures Total(Contents(list + [node], m[node.key := instance])) == Total(Contents(list, m)) + instance.TotSize()
  {
    hide Total;
    AppendKeepsAgreement(list, m, node, instance);
    AppendContents(list, m, node, instance);
    TotalAppend(Contents(list, m), Entry(node.key, instance.TotSize()));
  }

  // Moving an entry to the end of the list, on a fresh node.
  lemma MoveAgrees(list: Nodes, m: Instances, node: ListNode, last: ListNode)
    requires Agree(list, m) && node in list && last.key == node.key
    ensures node.key in m && Agree(Without(list, node) + [last], m)
    ensures Contents(Without(list, node) + [last], m) ==
            Remove(Contents(list, m), node.key) + [Entry(node.key, m[node.key].TotSize())]
    ensures Total(Contents(Without(list, node) + [last], m)) == Total(Contents(list, m))
    ensures forall n | n in list && n != node :: n in Without(list, node) + [last]
  {
    hide Agree, Without, Remove, Total;
    EraseAgrees(list, m, node);
    AppendAgrees(Without(list, node), m - {node.key}, last, m[node.key]);
    assert (m - {node.key})[node.key := m[node.key]] == m;
  }

  // One eviction: a list over the limit is not empty, and without its first entry it still
  // ends in the longest suffix that fits.
  lemma OldestGoes(list: Nodes, m: Instances, max: nat)
    requires Agree(list, m) && Total(Contents(list, m)) > max
    ensures list != [] && Known(list, m)
    ensures Fit(Remove(Contents(list, m), list[0].key), max) == Fit(Contents(list, m), max)
    ensures |Remove(Contents(list, m), list[0].key)| < |list|
  {
    var c := Contents(list, m);
    assert c != [];
    assert Remove(c, c[0].key) == c[1..];
  }

  class Cache {
    var cacheMaxSize: nat
    var cacheSize: nat
    var memoryMap: Instances
    var memoryList: Nodes

    // Every instance points at its own list entry; so none is cached under two keys.
    ghost predicate Linked()
      reads this, memoryMap.Values
    {
      forall k {:trigger memoryMap[k]} | k in memoryMap ::
        memoryMap[k].iterator_ != null && memoryMap[k].iterator_ in memoryList && memoryMap[k].iterator_.key == k
    }

    ghost predicate Valid()
      reads this, memoryMap.Values
    {
      && Agree(memoryList, memoryMap)
      && Linked()
      && cacheSize == Total(Contents(memoryList, memoryMap))
    }

    constructor ()
      ensures Valid() && cacheMaxSize == 0 && cacheSize == 0 && memoryMap == map[] && memoryList == []
    {
      cacheMaxSize, cacheSize := 0, 0;
      memoryMap, memoryList := map[], [];
    }

    method SetCacheSize(size: nat)
      requires Valid()
      modifies this`cacheMaxSize
      ensures Valid() && cacheMaxSize == size
    {
      cacheMaxSize := size;
    }

    ghost function Held(): seq<Entry>
      requires Known(memoryList, memoryMap)
      reads this
    {
      Contents(memoryList, memoryMap)
    }

    // erase through the map: the instance leads to its list entry.
    method EraseKey(key: string)
      requires Valid() && key in memoryMap
      modifies this`cacheSize, this`memoryMap, this`memoryList
      ensures Valid() && memoryMap == old(memoryMap) - {key}
      ensures Held() == Remove(old(Held()), key)
    {
      hide Without, Remove, Total;
      var node := memoryMap[key].iterator_;
      EraseAgrees(memoryList, memoryMap, node);
      cacheSize := cacheSize - memoryMap[key].TotSize();
      memoryList := Without(memoryList, node);
      memoryMap := memoryMap - {key};
    }

    // erase through the list: the entry's key leads to the instance.
    method EraseNode(node: ListNode)
      requires Valid() && node in memoryList
      modifies this`cacheSize, this`memoryMap, this`memoryList
      ensures Valid() && memoryMap == old(memoryMap) - {node.key}
      ensures Held() == Remove(old(Held()), node.key)
    {
      hide Without, Remove, Total;
      EraseAgrees(memoryList, memoryMap, node);
      assert node.key in memoryMap;
      cacheSize := cacheSize - memoryMap[node.key].TotSize();
      memoryList := Without(memoryList, node);
      memoryMap := memoryMap - {node.key};
    }

    method Get(key: string) returns (result: CacheInstance?)
      requires Valid()
      modifies this`memoryList, memoryMap.Values
      ensures Valid() && memoryMap == old(memoryMap) && cacheSize == old(cacheSize)
      ensures result == if key in memoryMap then memoryMap[key] else null
      ensures Held() ==
              if key in memoryMap then Remove(old(Held()), key) + [Entry(key, memoryMap[key].TotSize())]
              else old(Held())
    {
      hide Agree, Without, Remove, Total;
      if key !in memoryMap {
        return null;
      }
      result := memoryMap[key];
      var node := result.iterator_;
      var last := new ListNode(key);
      MoveAgrees(memoryList, memoryMap, node, last);
      memoryList := Without(memoryList, node);
      memoryList := memoryList + [last];
      result.iterator_ := last;
    }

    // The part of put before the loop, for a key that is not in the map.
    method Append(key: string, instance: CacheInstance)
      requires Valid() && key !in memoryMap && instance !in memoryMap.Values
      modifies this`cacheSize, this`memoryMap, this`memoryList, instance
      ensures Valid() && memoryMap == old(memoryMap)[key := instance]
      ensures Held() == old(Held()) + [Entry(key, instance.TotSize())]
    {
      hide Agree, Total;
      var last := new ListNode(key);
      AppendAgrees(memoryList, memoryMap, last, instance);
      memoryMap := memoryMap[key := instance];
      memoryList := memoryList + [last];
      instance.iterator_ := last;
      cacheSize := cacheSize + instance.TotSize();
    }

    // The eviction loop.  The list is never empty in it: an empty list has size 0.
    method Evict()
      requires Valid()
      modifies this`cacheSize, this`memoryMap, this`memoryList
      ensures Valid() && Held() == Fit(old(Held()), cacheMaxSize)
      ensures forall k | k in memoryMap :: k in old(memoryMap) && memoryMap[k] == old(memoryMap)[k]
    {
      hide Total, Remove, Fit, Cache.Linked;
      while cacheSize > cacheMaxSize
        invariant Valid()
        invariant Fit(Held(), cacheMaxSize) == Fit(old(Held()), cacheMaxSize)
        invariant forall k | k in memoryMap :: k in old(memoryMap) && memoryMap[k] == old(memoryMap)[k]
        decreases |memoryList|
      {
        OldestGoes(memoryList, memoryMap, cacheMaxSize);
        EraseNode(memoryList[0]);
      }
      FitsAlready(Held(), cacheMaxSize);
    }

    method Put(key: string, instance: CacheInstance)
      requires Valid()
      requires forall k | k in memoryMap && k != key :: memoryMap[k] != instance
      modifies this`cacheSize, this`memoryMap, this`memoryList, instance
      ensures Valid()
      ensures Held() == Fit(Remove(old(Held()), key) + [Entry(key, instance.TotSize())], cacheMaxSize)
      ensures forall k | k in memoryMap ::
                if k == key then memoryMap[k] == instance else k in old(memoryMap) && memoryMap[k] == old(memoryMap)[k]
    {
      hide Agree, Total;
      if key in memoryMap {
        EraseKey(key);
      } else {
        HasIffCached(memoryList, memoryMap, key);
      }
      Append(key, instance);
      Evict();
    }
  }

  lemma HasIffCached(list: Nodes, m: Instances, key: string)
    requires Agree(list, m)
    ensures Has(Contents(list, m), key) <==> key in m
    ensures key !in m ==> Remove(Contents(list, m), key) == Contents(list, m)
  {
    RemoveFacts(Contents(list, m), key);
    if key in m {
      var i :| 0 <= i < |list| && list[i].key == key;
      assert Contents(list, m)[i].key == key;
    }
  }

  lemma CachedSize(size: string -> nat, list: Nodes, m: Instances, key: string)
    requires Agree(list, m) && Sized(size, Contents(list, m)) && key in m
    ensures m[key].TotSize() == size(key)
  {
    var i :| 0 <= i < |list| && list[i].key == key;
    assert Contents(list, m)[i] == EntryOf(size, key);
  }

  // A request of the proxy: look the response up, and put it in the cache if it is missing.
  method Serve(ghost size: string -> nat, cache: Cache, key: string, instance: CacheInstance)
    requires cache.Valid() && Sized(size, cache.Held())
    requires instance !in cache.memoryMap.Values && instance.TotSize() == size(key)
    modifies cache, cache.memoryMap.Values, instance
    ensures cache.Valid() && cache.cacheMaxSize == old(cache.cacheMaxSize)
    ensures cache.Held() == Request(size, cache.cacheMaxSize, old(cache.Held()), key)
    ensures forall k | k in cache.memoryMap ::
              cache.memoryMap[k] == instance || cache.memoryMap[k] in old(cache.memoryMap.Values)
  {
    hide Agree, Total, Remove, Fit;
    HasIffCached(cache.memoryList, cache.memoryMap, key);
    if key in cache.memoryMap {
      CachedSize(size, cache.memoryList, cache.memoryMap, key);
    }
    var found := cache.Get(key);
    if found == null {
      cache.Put(key, instance);
    }
  }

  // The class, run over a trace from empty, holds what the recency lists say.
  method Replay(size: string -> nat, capacity: nat, trace: seq<string>) returns (cache: Cache)
    ensures cache.Valid() && cache.Held() == CacheAfter(size, capacity, trace)
    ensures cache.Held() == Fit(RecencyOrder(size, trace), capacity)
  {
    hide Total, Remove, Fit, Request;
    cache := new Cache();
    cache.SetCacheSize(capacity);
    for i := 0 to |trace|
      invariant fresh(cache) && fresh(cache.memoryMap.Values)
      invariant cache.Valid() && cache.cacheMaxSize == capacity
      invariant cache.Held() == CacheAfter(size, capacity, trace[..i])
    {
      assert trace[..i + 1][..i] == trace[..i];
      CacheIsSized(size, capacity, trace[..i]);
      var instance := new CacheInstance(size(trace[i]) + 1, -1, 0);
      Serve(size, cache, trace[i], instance);
    }
    assert trace[..|trace|] == trace;
    CacheIsSuffix(size, capacity, trace);
  }

  lemma {:induction false} SizeAt(c: seq<Entry>, i: nat)
    requires i < |c| && forall j | 0 <= j < i :: c[j].key != c[i].key
    ensures SizeOf(c, c[i].key) == c[i].size
  {
    if i > 0 {
      SizeAt(c[1..], i - 1);
    }
  }

  lemma HeldSize(list: Nodes, m: Instances, key: string)
    requires Agree(list, m) && key in m
    ensures SizeOf(Contents(list, m), key) == m[key].TotSize()
  {
    var i :| 0 <= i < |list| && list[i].key == key;
    SizeAt(Contents(list, m), i);
  }

  // One get or put; a put makes an instance of the size that it says.
  method Perform(cache: Cache, op: Op)
    requires cache.Valid()
    modifies cache, cache.memoryMap.Values
    ensures cache.Valid() && cache.cacheMaxSize == old(cache.cacheMaxSize)
    ensures cache.Held() == AfterOp(cache.cacheMaxSize, old(cache.Held()), op)
    ensures forall k | k in cache.memoryMap ::
              fresh(cache.memoryMap[k]) || cache.memoryMap[k] in old(cache.memoryMap.Values)
  {
    hide Agree, Total, Remove, Fit, SizeOf;
    HasIffCached(cache.memoryList, cache.memoryMap, op.key);
    match op {
      case Get(key) =>
        if key in cache.memoryMap {
          HeldSize(cache.memoryList, cache.memoryMap, key);
        }
        var found := cache.Get(key);
      case Put(key, size) =>
        var instance := new CacheInstance(size + 1, -1, 0);
        cache.Put(key, instance);
    }
  }

  // After every sequence of gets and puts the cache holds what the recency list says.
  method PerformAll(capacity: nat, ops: seq<Op>) returns (cache: Cache)
    ensures cache.Valid() && cache.Held() == AfterOps(capacity, ops)
    ensures cache.cacheSize <= capacity
  {
    hide Remove, Fit, AfterOp, SizeOf;
    cache := new Cache();
    cache.SetCacheSize(capacity);
    for i := 0 to |ops|
      invariant fresh(cache) && fresh(cache.memoryMap.Values)
      invariant cache.Valid() && cache.cacheMaxSize == capacity
      invariant cache.Held() == AfterOps(capacity, ops[..i])
    {
      assert ops[..i + 1][..i] == ops[..i];
      Perform(cache, ops[i]);
    }
    assert ops[..|ops|] == ops;
    OpsFit(capacity, ops);
  }
}
