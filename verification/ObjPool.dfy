/**
  The object pool of objpool.c. Live memory is modelled explicitly: `nodes` and `caches`
  hold the headers of the records that are allocated at the moment, so reading a header
  after its cache was released is an error the verifier would report. The `assert`
  statements are the ones of the C file.
 */
module ObjPools {
  import opened SeqFacts
  import opened SlotLists
  import opened PoolSpec

  const OBJPOOL_INC_SIZE := 1000

  datatype Header = Header(magic: nat, isUsed: bool, cache: CacheId)

  datatype CacheInfo = CacheInfo(magic: nat, nused: int, capacity: nat)

  /** How many of the first `n` nodes of a cache are in use, that is, not free. */
  function UsedBelow(free: set<Addr>, c: CacheId, n: nat): nat {
    if n == 0 then 0
    else UsedBelow(free, c, n - 1) + if Addr(c, n - 1) in free then 0 else 1
  }

  /** `m` added up `k` times, the way nalloced grows; the product, by TimesIsProduct. */
  function Times(m: nat, k: nat): nat {
    if k == 0 then 0 else m + Times(m, k - 1)
  }

  /** Every node header in live memory is that of a node of a live cache, and says whether the node is free. */
  ghost predicate HeadersOk(incsize: nat, magic: nat, nodes: map<Addr, Header>, free: set<Addr>, caches: set<CacheId>)
  {
    && (forall a :: a in nodes <==> a.cache in caches && a.index < incsize)
    && (forall a :: a in nodes ==> nodes[a] == Header(magic, a !in free, a.cache))
  }

  /** Objects that are out carry cleared links. */
  ghost predicate LinksOk(cells: map<Addr, Cell<Addr>>, free: set<Addr>) {
    forall a :: a in cells && a !in free ==> cells[a] == Cell(Null, NoSlot)
  }

  /** Every cache header counts the nodes of its cache that are in use. */
  ghost predicate CachesOk(incsize: nat, magic: nat, caches: map<CacheId, CacheInfo>, free: set<Addr>) {
    forall c :: c in caches ==> caches[c] == CacheInfo(magic, UsedBelow(free, c, incsize), incsize)
  }

  lemma BoundCarries(inc: nat, caches: nat, held: nat)
    requires caches <= held + 2
    ensures Times(inc, caches) <= inc * (held + 2)
  {
    TimesIsProduct(inc, caches);
    TimesMonotone(inc, caches, held + 2);
  }

  /** The increment as the 16-bit field keeps it. */
  function Increment(incsize: int): (r: nat)
    ensures r <= 0xFFFF
    ensures 1 <= incsize <= 0xFFFF ==> r == incsize
    ensures incsize < 1 ==> r == OBJPOOL_INC_SIZE
  {
    (if incsize < 1 then OBJPOOL_INC_SIZE else incsize) % 0x1_0000
  }

  /** Only whole multiples of 65536 are lost. */
  lemma IncrementCut(incsize: int)
    requires incsize >= 1
    ensures exists q :: incsize == q * 0x1_0000 + Increment(incsize)
  {
    assert incsize == incsize / 0x1_0000 * 0x1_0000 + Increment(incsize);
  }

  class ObjPool {
    const magic: nat
    const incsize: nat
    var nalloced: int
    var nfreed: int
    const nodeList: SlotList<Addr>
    const cacheList: SlotList<CacheId>
    var nodes: map<Addr, Header>
    var caches: map<CacheId, CacheInfo>

    ghost function View(): Pool
      reads this, nodeList, cacheList
    {
      Pool(incsize, cacheList.items, nodeList.items)
    }

    /** The objects callers hold at the moment. */
    ghost function Held(): set<Addr>
      reads this`nodes, nodeList`members
    {
      nodes.Keys - nodeList.members
    }

    /** The nodes: headers and free list agree, for the caches `cs`. */
    ghost predicate NodeSide(cs: set<CacheId>)
      reads this`nodes, this`nfreed, nodeList
    {
      && nodeList.Valid()
      && nodes.Keys == nodeList.cells.Keys
      && HeadersOk(incsize, magic, nodes, nodeList.members, cs)
      && LinksOk(nodeList.cells, nodeList.members)
      && nfreed == |nodeList.items|
    }

    /** The caches: every live one is on the list, and they are counted. */
    ghost predicate CacheSide()
      reads this`caches, this`nalloced, cacheList
    {
      && cacheList.Valid()
      && caches.Keys == cacheList.cells.Keys == cacheList.members
      && nalloced == Times(incsize, |cacheList.items|)
    }

    ghost predicate SidesOk()
      reads this, nodeList, cacheList
    {
      && 1 <= incsize <= 0xFFFF
      && nodeList as object != cacheList as object
      && NodeSide(caches.Keys)
      && CacheSide()
    }

    ghost predicate Valid()
      reads this, nodeList, cacheList
    {
      && SidesOk()
      && CachesOk(incsize, magic, caches, nodeList.members)
    }

    constructor Empty(magic: nat, incsize: nat)
      requires 1 <= incsize <= 0xFFFF
      ensures Valid() && View() == Pool(incsize, [], []) && caches == map[]
      ensures fresh(nodeList) && fresh(cacheList)
    {
      this.magic, this.incsize := magic, incsize;
      nalloced, nfreed, nodes, caches := 0, 0, map[], map[];
      nodeList := new SlotList<Addr>();
      cacheList := new SlotList<CacheId>();
    }

    /** objpool_alloc: `block` is the outcome of the mallocs for the first cache. */
    static method Alloc(objsize: nat, incsize: int, now: nat, block: Option<CacheId>) returns (op: ObjPool?)
      requires incsize < 1 || Increment(incsize) != 0
      ensures op == null <==> objsize < 1 || block.None?
      ensures op != null ==>
                && fresh(op) && fresh(op.nodeList) && fresh(op.cacheList)
                && op.Valid()
                && op.View() == Fresh(Increment(incsize), block.value)
    {
      if objsize < 1 {
        return null;
      }
      op := new ObjPool.Empty(now, Increment(incsize));
      var ok := op.AllocCache(block);
      if !ok {
        op := null;
      }
    }

    method AllocCache(block: Option<CacheId>) returns (ok: bool)
      requires Valid()
      requires block.Some? ==> block.value !in caches
      modifies this, nodeList, cacheList
      ensures Valid() && ok == block.Some?
      ensures View() == if ok then old(View()).Grow(block.value) else old(View())
      ensures Held() == old(Held())
    {
      if block.None? {
        return false;
      }
      var c := block.value;
      Carve(c, caches.Keys);
      AddCache(c);
      GrowCounts(incsize, magic, old(caches), old(nodeList.members), nodeList.members, c);
      ok := true;
    }

    /** The nodes of the new block go onto the free list. */
    method Carve(c: CacheId, ghost cs: set<CacheId>)
      requires NodeSide(cs) && c !in cs
      modifies this`nodes, this`nfreed, nodeList
      ensures NodeSide(cs + {c})
      ensures nodeList.items == Carved(c, incsize) + old(nodeList.items)
      ensures nodeList.members == old(nodeList.members) + NodesOf(c, incsize)
      ensures Held() == old(Held())
    {
      CarveAll(c, cs);
      CarvedElems(c, incsize);
      GrowHeaders(incsize, magic, old(nodes), old(nodeList.members), cs, nodes, nodeList.members, c);
      nfreed := nfreed + incsize;
      assert old(nodes.Keys) !! NodesOf(c, incsize);
    }

    /** The loop of _op_alloc_cache. */
    method CarveAll(c: CacheId, ghost cs: set<CacheId>)
      requires NodeSide(cs) && c !in cs
      modifies this`nodes, nodeList
      ensures nodeList.Valid() && nodeList.items == Carved(c, incsize) + old(nodeList.items)
      ensures nodeList.members == old(nodeList.members) + NodesOf(c, incsize)
      ensures nodes.Keys == nodeList.cells.Keys == old(nodes.Keys) + NodesOf(c, incsize)
      ensures forall a :: a in nodes ==> nodes[a] == Header(magic, a !in nodeList.members, a.cache)
      ensures LinksOk(nodeList.cells, nodeList.members)
    {
      var i := 0;
      while i < incsize
        invariant 0 <= i <= incsize
        invariant nodeList.Valid() && nodeList.items == Carved(c, i) + old(nodeList.items)
        invariant nodeList.members == old(nodeList.members) + NodesOf(c, i)
        invariant nodes.Keys == nodeList.cells.Keys == old(nodes.Keys) + NodesOf(c, i)
        invariant forall a :: a in nodes ==> nodes[a] == Header(magic, a !in nodeList.members, a.cache)
        invariant LinksOk(nodeList.cells, nodeList.members)
      {
        CarveNext(c, i, old(nodeList.items), old(nodeList.members), old(nodes.Keys));
        CarveOne(Addr(c, i));
        i := i + 1;
      }
    }

    method CarveOne(node: Addr)
      requires nodeList.Valid() && nodes.Keys == nodeList.cells.Keys && node !in nodes
      requires forall a :: a in nodes ==> nodes[a] == Header(magic, a !in nodeList.members, a.cache)
      requires LinksOk(nodeList.cells, nodeList.members)
      modifies this`nodes, nodeList
      ensures nodeList.Valid() && nodes.Keys == nodeList.cells.Keys == old(nodes.Keys) + {node}
      ensures forall a :: a in nodes ==> nodes[a] == Header(magic, a !in nodeList.members, a.cache)
      ensures LinksOk(nodeList.cells, nodeList.members)
      ensures nodeList.items == [node] + old(nodeList.items)
      ensures nodeList.members == old(nodeList.members) + {node}
    {
      nodes := nodes[node := Header(magic, false, node.cache)];
      nodeList.Place(node);
      nodeList.Push(node);
    }

    /** The new cache header goes onto the cache list. */
    method AddCache(c: CacheId)
      requires CacheSide() && c !in caches
      modifies this`caches, this`nalloced, cacheList
      ensures CacheSide()
      ensures caches == old(caches)[c := CacheInfo(magic, 0, incsize)]
      ensures cacheList.items == [c] + old(cacheList.items)
    {
      caches := caches[c := CacheInfo(magic, 0, incsize)];
      nalloced := nalloced + incsize;
      cacheList.Place(c);
      cacheList.Push(c);
    }

    /** The loop of _op_free_cache: the cache's nodes leave the free list from wherever they stand. */
    method UnlinkNodes(c: CacheId)
      requires nodeList.Valid() && NodesOf(c, incsize) <= nodeList.members
      requires forall a :: a in nodeList.members ==> a in nodes && !nodes[a].isUsed
      modifies nodeList
      ensures nodeList.Valid() && nodeList.cells.Keys == old(nodeList.cells.Keys)
      ensures nodeList.items == Without(old(nodeList.items), NodesOf(c, incsize))
      ensures nodeList.members == old(nodeList.members) - NodesOf(c, incsize)
      ensures forall a :: a in nodeList.cells && a !in old(nodeList.members) ==>
                            nodeList.cells[a] == old(nodeList.cells)[a]
    {
      ghost var s := nodeList.items;
      WithoutNothing(s, NodesOf(c, 0));
      var i := 0;
      while i < incsize
        invariant 0 <= i <= incsize
        invariant nodeList.Valid() && nodeList.cells.Keys == old(nodeList.cells.Keys)
        invariant nodeList.items == Without(s, NodesOf(c, i))
        invariant nodeList.members == old(nodeList.members) - NodesOf(c, i)
        invariant forall a :: a in nodeList.cells && a !in old(nodeList.members) ==>
                                nodeList.cells[a] == old(nodeList.cells)[a]
      {
        var node := Addr(c, i);
        NodesOfNext(c, i);
        WithoutTwice(s, NodesOf(c, i), {node});
        assert !nodes[node].isUsed;
        nodeList.HasSlot(node);
        assert nodeList.cells[node].pprev != NoSlot;
        nodeList.Unlink(node);
        i := i + 1;
      }
    }

    method FreeCache(c: CacheId)
      requires Valid() && c in caches && UsedBelow(nodeList.members, c, incsize) == 0
      modifies this, nodeList, cacheList
      ensures Valid() && View() == old(View()).Shrink(c) && Held() == old(Held())
    {
      UnusedIffFree(nodeList.members, c, incsize);
      assert caches[c].nused == 0;
      assert caches[c].magic == magic;
      ShrinkCounts(incsize, magic, caches, nodeList.members, c);
      DropNodes(c, caches.Keys);
      DropCache(c);
    }

    /** The cache header leaves the cache list and is freed. */
    method DropCache(c: CacheId)
      requires CacheSide() && c in caches
      modifies this`caches, this`nalloced, cacheList
      ensures CacheSide() && caches == old(caches) - {c}
      ensures cacheList.items == Without(old(cacheList.items), {c})
    {
      cacheList.HasSlot(c);
      assert cacheList.cells[c].pprev != NoSlot;
      OneCacheLess(cacheList.items, c, incsize);
      assert c in cacheList.items;
      cacheList.Unlink(c);
      cacheList.Clear(c);
      nalloced := nalloced - incsize;
      assert nalloced >= 0;
      cacheList.Release({c});
      caches := caches - {c};
    }

    /** The nodes of the cache leave the free list and their block is freed. */
    method DropNodes(c: CacheId, ghost cs: set<CacheId>)
      requires NodeSide(cs) && NodesOf(c, incsize) <= nodeList.members
      modifies this`nodes, this`nfreed, nodeList
      ensures NodeSide(cs - {c})
      ensures nodeList.items == Without(old(nodeList.items), NodesOf(c, incsize))
      ensures nodeList.members == old(nodeList.members) - NodesOf(c, incsize)
      ensures Held() == old(Held())
    {
      ManyNodesLess(nodeList.items, nodeList.members, NodesOf(c, incsize));
      NodesOfCard(c, incsize);
      UnlinkNodes(c);
      nfreed := nfreed - incsize;
      assert nfreed >= 0;
      DropHeaders(incsize, magic, old(nodes), old(nodeList.members), cs, c);
      nodeList.Release(NodesOf(c, incsize));
      nodes := nodes - NodesOf(c, incsize);
    }

    /** objpool_get; None stands for the NULL result. */
    method Get(block: Option<CacheId>) returns (r: Option<Addr>)
      requires Valid()
      requires block.Some? ==> block.value !in caches
      modifies this, nodeList, cacheList
      ensures Valid() && (View(), r) == old(View()).Get(block)
      ensures r.None? ==> Held() == old(Held())
      ensures r.Some? ==> r.value !in old(Held()) && Held() == old(Held()) + {r.value}
      ensures old(View()).Settled() ==> View().Settled()
    {
      ghost var view := View();
      if view.Settled() {
        GetStep(view, block);
      }
      if nfreed == 0 {
        var ok := AllocCache(block);
        if !ok {
          return None;
        }
        CarvedElems(block.value, incsize);
      }
      var node := TakeNode();
      r := Some(node);
    }

    /** The second half of objpool_get. */
    method TakeNode() returns (node: Addr)
      requires Valid() && nodeList.items != []
      modifies this, nodeList
      ensures Valid() && node == old(nodeList.items)[0]
      ensures View() == old(View()).(free := old(nodeList.items)[1..])
      ensures node !in old(Held()) && Held() == old(Held()) + {node}
    {
      node := UnlinkFirst(caches.Keys);
      var cache := nodes[node].cache;
      assert cache in caches;
      CountTaken(cache, node, old(nodeList.members));
    }

    method CountTaken(cache: CacheId, ghost node: Addr, ghost free: set<Addr>)
      requires SidesOk() && cache in caches && cache == node.cache && node.index < incsize && node in free
      requires CachesOk(incsize, magic, caches, free) && nodeList.members == free - {node}
      modifies this`caches
      ensures Valid()
    {
      assert nodeList.members + {node} == free;
      TakeCounts(incsize, magic, caches, nodeList.members, node);
      caches := caches[cache := caches[cache].(nused := caches[cache].nused + 1)];
    }

    method UnlinkFirst(ghost cs: set<CacheId>) returns (node: Addr)
      requires NodeSide(cs) && nodeList.items != []
      modifies this`nodes, this`nfreed, nodeList
      ensures NodeSide(cs) && node in nodes && node in old(nodeList.members)
      ensures node == old(nodeList.items)[0] && nodeList.items == old(nodeList.items)[1..]
      ensures nodeList.members == old(nodeList.members) - {node} && nodes.Keys == old(nodes.Keys)
      ensures node !in old(Held()) && Held() == old(Held()) + {node}
    {
      node := nodeList.Pop();
      nodes := nodes[node := nodes[node].(isUsed := true)];
      nfreed := nfreed - 1;
    }

    /** objpool_put; None stands for a NULL argument. */
    method Put(obj: Option<Addr>) returns (ret: int)
      requires Valid()
      requires obj.Some? ==> obj.value in Held()
      modifies this, nodeList, cacheList
      ensures Valid()
      ensures ret == if obj.Some? then 0 else -1
      ensures View() == if obj.Some? then old(View()).Put(obj.value) else old(View())
      ensures Held() == old(Held()) - if obj.Some? then {obj.value} else {}
      ensures old(View()).Settled() ==> View().Settled()
    {
      if obj.None? {
        return -1;
      }
      ghost var view := View();
      if view.Settled() {
        HeldIsOut();
        PutStep(view, obj.value);
      }
      var cache := GiveNode(obj.value);
      IdleIffUnused(cache);
      if caches[cache].nused == 0 && nfreed > 2 * incsize {
        FreeCache(cache);
      }
      ret := 0;
    }

    /** _op_put_node up to the decision to release the cache. */
    method GiveNode(node: Addr) returns (cache: CacheId)
      requires Valid() && node in Held()
      modifies this, nodeList
      ensures Valid() && cache == node.cache && cache in caches
      ensures View() == old(View()).(free := [node] + old(nodeList.items)) && Held() == old(Held()) - {node}
    {
      cache := CacheOfUsed(node);
      LinkFirst(node, caches.Keys);
      CountGiven(cache, node, old(nodeList.members));
    }

    /** The look at the two headers, with the asserts of _op_put_node about them. */
    method CacheOfUsed(node: Addr) returns (cache: CacheId)
      requires Valid() && node in Held()
      ensures cache == node.cache && cache in caches && node.index < incsize
    {
      cache := nodes[node].cache;
      assert cache in caches;
      assert nodes[node].magic == magic;
      assert caches[cache].magic == magic;
      assert nodes[node].isUsed;
    }

    method CountGiven(cache: CacheId, ghost node: Addr, ghost free: set<Addr>)
      requires SidesOk() && cache in caches && cache == node.cache && node.index < incsize && node !in free
      requires CachesOk(incsize, magic, caches, free) && nodeList.members == free + {node}
      modifies this`caches
      ensures Valid() && caches.Keys == old(caches.Keys)
    {
      GiveCounts(incsize, magic, caches, free, node);
      caches := caches[cache := caches[cache].(nused := caches[cache].nused - 1)];
      assert caches[cache].nused >= 0;
    }

    method LinkFirst(node: Addr, ghost cs: set<CacheId>)
      requires NodeSide(cs) && node in nodes && node !in nodeList.members
      modifies this`nodes, this`nfreed, nodeList
      ensures NodeSide(cs) && nodeList.items == [node] + old(nodeList.items)
      ensures nodeList.members == old(nodeList.members) + {node} && nodes.Keys == old(nodes.Keys)
      ensures Held() == old(Held()) - {node}
    {
      nodeList.Push(node);
      nodes := nodes[node := nodes[node].(isUsed := false)];
      nfreed := nfreed + 1;
    }

    lemma IdleIffUnused(c: CacheId)
      requires Valid()
      ensures View().Idle(c) <==> UsedBelow(nodeList.members, c, incsize) == 0
    {
      UnusedIffFree(nodeList.members, c, incsize);
      assert forall i :: 0 <= i < incsize ==> (Addr(c, i) in nodeList.items <==> Addr(c, i) in nodeList.members);
    }

    /** Nodes of the view are the live node headers. */
    lemma ViewNodes()
      requires Valid()
      ensures forall c :: c in cacheList.items <==> c in caches
      ensures forall a :: a in nodes <==> View().IsNode(a)
    {
      assert forall c :: c in cacheList.items <==> c in cacheList.members;
    }

    /** What the concrete invariant says of the view: the laws of PoolSpec apply to it. */
    lemma ViewIsWellFormed()
      requires Valid()
      ensures View().WellFormed()
      ensures nfreed == |View().free| && nalloced == incsize * |View().caches|
    {
      TimesIsProduct(incsize, |cacheList.items|);
      ViewNodes();
      assert forall a :: a in nodeList.items ==> a in nodes;
    }

    lemma HeldIsOut()
      requires Valid()
      ensures Held() == View().Out()
    {
      ViewNodes();
      forall a
        ensures a in Held() <==> a in View().Out()
      {
        assert a in nodeList.items <==> a in nodeList.members;
        assert View().IsNode(a) <==> a in View().Live() by {
          assert a == Addr(a.cache, a.index);
        }
      }
    }

    lemma FewCaches()
      requires Valid() && View().Settled()
      ensures |cacheList.items| <= |Held()| + 2
    {
      HeldIsOut();
      CachesBound(View());
    }

    /** The memory of the pool is bounded by what callers hold; with everything returned, by two caches. */
    lemma MemoryBound()
      requires Valid() && View().Settled()
      ensures nalloced <= incsize * (|Held()| + 2)
    {
      FewCaches();
      BoundCarries(incsize, |cacheList.items|, |Held()|);
    }
  }

  // ---------------------------------------------------------------- how the counts move

  lemma {:induction false} TimesIsProduct(m: nat, k: nat)
    ensures Times(m, k) == m * k
  {
    if k > 0 {
      TimesIsProduct(m, k - 1);
      OneMore(m, k - 1);
    }
  }

  lemma CarveNext(c: CacheId, i: nat, s: seq<Addr>, m: set<Addr>, n: set<Addr>)
    ensures [Addr(c, i)] + (Carved(c, i) + s) == Carved(c, i + 1) + s
    ensures m + NodesOf(c, i) + {Addr(c, i)} == m + NodesOf(c, i + 1)
    ensures n + NodesOf(c, i) + {Addr(c, i)} == n + NodesOf(c, i + 1)
  {
  }

  lemma GrowHeaders(n: nat, magic: nat, nodes: map<Addr, Header>, free: set<Addr>, cs: set<CacheId>,
                    nodes': map<Addr, Header>, free': set<Addr>, c: CacheId)
    requires HeadersOk(n, magic, nodes, free, cs)
    requires nodes'.Keys == nodes.Keys + NodesOf(c, n)
    requires forall a :: a in nodes' ==> nodes'[a] == Header(magic, a !in free', a.cache)
    ensures HeadersOk(n, magic, nodes', free', cs + {c})
  {
    forall a: Addr
      ensures a in nodes' <==> a.cache in cs + {c} && a.index < n
    {
      assert a in nodes <==> a.cache in cs && a.index < n;
      assert a == Addr(a.cache, a.index);
    }
  }

  lemma DropHeaders(n: nat, magic: nat, nodes: map<Addr, Header>, free: set<Addr>, cs: set<CacheId>, c: CacheId)
    requires HeadersOk(n, magic, nodes, free, cs)
    ensures HeadersOk(n, magic, nodes - NodesOf(c, n), free - NodesOf(c, n), cs - {c})
    ensures NodesOf(c, n) <= free ==> (nodes - NodesOf(c, n)).Keys - (free - NodesOf(c, n)) == nodes.Keys - free
  {
    forall a: Addr
      ensures a in nodes - NodesOf(c, n) <==> a.cache in cs - {c} && a.index < n
    {
      assert a == Addr(a.cache, a.index);
    }
  }

  lemma {:induction false} UnusedIffFree(free: set<Addr>, c: CacheId, n: nat)
    ensures UsedBelow(free, c, n) == 0 <==> forall i :: 0 <= i < n ==> Addr(c, i) in free
  {
    if n > 0 {
      UnusedIffFree(free, c, n - 1);
    }
  }

  lemma {:induction false} UsedSame(s: set<Addr>, t: set<Addr>, c: CacheId, n: nat)
    requires forall a: Addr :: a.cache == c ==> (a in s <==> a in t)
    ensures UsedBelow(s, c, n) == UsedBelow(t, c, n)
  {
    if n > 0 {
      UsedSame(s, t, c, n - 1);
    }
  }

  /** Freeing one node takes one off its cache's use count. */
  lemma {:induction false} UsedOneFewer(s: set<Addr>, a: Addr, n: nat)
    requires a !in s
    ensures UsedBelow(s + {a}, a.cache, n) == UsedBelow(s, a.cache, n) - if a.index < n then 1 else 0
  {
    if n > 0 {
      UsedOneFewer(s, a, n - 1);
      assert Addr(a.cache, n - 1) == a <==> a.index == n - 1;
    }
  }

  lemma GrowCounts(n: nat, magic: nat, caches: map<CacheId, CacheInfo>, free: set<Addr>, free': set<Addr>, c: CacheId)
    requires c !in caches && free' == free + NodesOf(c, n) && CachesOk(n, magic, caches, free)
    ensures CachesOk(n, magic, caches[c := CacheInfo(magic, 0, n)], free')
  {
    UnusedIffFree(free', c, n);
    forall d | d in caches
      ensures UsedBelow(free', d, n) == UsedBelow(free, d, n)
    {
      UsedSame(free', free, d, n);
    }
  }

  lemma GiveCounts(n: nat, magic: nat, caches: map<CacheId, CacheInfo>, free: set<Addr>, a: Addr)
    requires a.cache in caches && a !in free && a.index < n && CachesOk(n, magic, caches, free)
    ensures var info := caches[a.cache];
            info.nused >= 1 && CachesOk(n, magic, caches[a.cache := info.(nused := info.nused - 1)], free + {a})
  {
    UsedOneFewer(free, a, n);
    forall d | d in caches && d != a.cache
      ensures UsedBelow(free + {a}, d, n) == UsedBelow(free, d, n)
    {
      UsedSame(free + {a}, free, d, n);
    }
  }

  lemma TakeCounts(n: nat, magic: nat, caches: map<CacheId, CacheInfo>, free: set<Addr>, a: Addr)
    requires a.cache in caches && a !in free && a.index < n && CachesOk(n, magic, caches, free + {a})
    ensures var info := caches[a.cache];
            CachesOk(n, magic, caches[a.cache := info.(nused := info.nused + 1)], free)
  {
    UsedOneFewer(free, a, n);
    forall d | d in caches && d != a.cache
      ensures UsedBelow(free + {a}, d, n) == UsedBelow(free, d, n)
    {
      UsedSame(free + {a}, free, d, n);
    }
  }

  lemma ShrinkCounts(n: nat, magic: nat, caches: map<CacheId, CacheInfo>, free: set<Addr>, c: CacheId)
    requires CachesOk(n, magic, caches, free)
    ensures CachesOk(n, magic, caches - {c}, free - NodesOf(c, n))
  {
    forall d | d in caches && d != c
      ensures UsedBelow(free - NodesOf(c, n), d, n) == UsedBelow(free, d, n)
    {
      UsedSame(free - NodesOf(c, n), free, d, n);
    }
  }

  lemma OneCacheLess(caches: seq<CacheId>, c: CacheId, n: nat)
    requires NoDup(caches)
    ensures c in caches ==> |Without(caches, {c})| == |caches| - 1
    ensures c in caches ==> Times(n, |caches|) == Times(n, |caches| - 1) + n
  {
    WithoutLength(caches, {c});
    if c in caches {
      assert Elems(caches) * {c} == {c};
    }
  }

  lemma ManyNodesLess(items: seq<Addr>, members: set<Addr>, gone: set<Addr>)
    requires NoDup(items) && (forall a :: a in items <==> a in members) && gone <= members
    ensures |Without(items, gone)| == |items| - |gone|
  {
    WithoutLength(items, gone);
    assert Elems(items) * gone == gone;
  }
}
