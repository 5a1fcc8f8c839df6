/**
  The hash table of hash.c: chains of pool items on circular lists, one list per entry.
  A call may pass any key with a value; the items remember it only in the entry they hang on.
 */
module Hashes {
  import opened SeqFacts
  import opened PoolSpec
  import opened ObjPools
  import opened Rings
  import opened HashSpec
  import opened HashSizes

  const HASH_ITEM_SIZE: nat := 24

  /** The ring of table entry `b`. */
  function Cycle<V>(flat: seq<Elem<V>>, nentry: nat, b: nat): (r: seq<Link>)
    requires nentry >= 1
  {
    [Entry(b)] + LinksOf(Bucket(flat, nentry, b))
  }

  /** Every entry's ring holds exactly its bucket of the flat list. */
  ghost predicate Chained<V>(p: map<Link, Link>, n: map<Link, Link>, flat: seq<Elem<V>>, nentry: nat)
    requires nentry >= 1
  {
    forall b :: 0 <= b < nentry ==> Ring(p, n, Cycle(flat, nentry, b))
  }

  /** The value stored in every live item. */
  ghost predicate Stored<V>(flat: seq<Elem<V>>, data: map<Addr, V>) {
    forall i :: 0 <= i < |flat| ==> flat[i].addr in data && data[flat[i].addr] == flat[i].val
  }

  /** The loop of hash_alloc that makes every entry a ring of its own. */
  method NewEntries(nentry: nat) returns (links: Links<Link>)
    ensures fresh(links)
    ensures forall b :: 0 <= b < nentry ==> Ring(links.p, links.n, [Entry(b)])
  {
    links := new Links<Link>();
    var i := 0;
    while i < nentry
      invariant 0 <= i <= nentry && fresh(links)
      invariant forall b :: 0 <= b < i ==> Ring(links.p, links.n, [Entry(b)])
    {
      label L:
      links.Init(Entry(i));
      forall b | 0 <= b < i
        ensures Ring(links.p, links.n, [Entry(b)])
      {
        UntouchedRing(old@L(links.p), old@L(links.n), links.p, links.n, [Entry(b)], {Entry(i)});
      }
      i := i + 1;
    }
  }

  class Hash<V(!new)> {
    const nentry: nat
    const cmp: (V, V) -> int
    const pool: ObjPool
    const links: Links<Link>
    /** The `data` field of the items. */
    var data: map<Addr, V>
    var size: nat
    var nconflict: nat
    var nfindFailed: nat
    var nfindSuccess: nat
    /** The live items in insertion order. */
    ghost var flat: seq<Elem<V>>

    /** The chains and the item data, apart from the pool the items come from. */
    ghost predicate Table()
      reads this`data, this`size, this`flat, links
    {
      && nentry >= 1
      && Distinct(flat)
      && Stored(flat, data)
      && Chained(links.p, links.n, flat, nentry)
      && size == |flat|
    }

    ghost predicate Valid()
      reads this`data, this`size, this`flat, pool, pool.nodeList, pool.cacheList, links
    {
      && Table()
      && pool.Valid()
      && pool.View().Settled()
      && pool.Held() == Addrs(flat)
    }

    /** A table of `nentry` empty entries that will take its items from `op`. */
    constructor (nentry: nat, cmp: (V, V) -> int, op: ObjPool)
      requires nentry >= 1
      ensures Table() && flat == [] && pool == op && fresh(links)
      ensures this.nentry == nentry && this.cmp == cmp
      ensures nconflict == nfindFailed == nfindSuccess == 0
    {
      this.nentry, this.cmp, pool := nentry, cmp, op;
      data, flat, size := map[], [], 0;
      nconflict, nfindFailed, nfindSuccess := 0, 0, 0;
      var entries := NewEntries(nentry);
      links := entries;
    }

    lemma EmptyIsValid()
      requires Table() && flat == []
      requires pool.Valid() && pool.View().Settled() && pool.Held() == {}
      ensures Valid()
    {
      assert Addrs(flat) == {};
    }

    /** The traversal all operations share: stops at the first item equal to `v`, or back at the head. */
    method Scan(index: nat, v: V) returns (cur: Link, steps: nat)
      requires Valid() && index < nentry
      ensures steps == Find(Bucket(flat, nentry, index), cmp, v)
      ensures var i := Locate(flat, nentry, cmp, index, v);
              if i < |flat| then cur == Item(flat[i].addr) && cur.addr in data && data[cur.addr] == flat[i].val
              else cur == Entry(index)
    {
      ghost var t := Bucket(flat, nentry, index);
      ghost var c := Cycle(flat, nentry, index);
      assert Ring(links.p, links.n, c);
      assert c[0] == Entry(index) && c[0] in c;
      cur, steps := links.n[Entry(index)], 0;
      assert |c| > 1 ==> links.n[c[0]] == c[1];
      while cur.Item?
        invariant 0 <= steps <= |t| && cur == (c + [Entry(index)])[steps + 1]
        invariant forall i :: 0 <= i < steps ==> cmp(t[i].val, v) != 0
        decreases |t| - steps
      {
        ItemAt(flat, nentry, index, steps, data);
        if cmp(data[cur.addr], v) == 0 {
          FoundInBucket(flat, nentry, cmp, index, v, steps);
          return;
        }
        assert steps + 2 < |c| ==> links.n[c[steps + 1]] == c[steps + 2];
        assert c[steps + 1] in c;
        cur := links.n[cur];
        steps := steps + 1;
      }
      ItemAt(flat, nentry, index, steps, data);
      FoundInBucket(flat, nentry, cmp, index, v, steps);
    }

    /** hash_search: the earliest live item equal to `val`. */
    method Search(key: nat, val: Option<V>) returns (ret: Option<V>)
      requires Valid()
      modifies this`nconflict, this`nfindFailed, this`nfindSuccess
      ensures Valid()
      ensures val.None? ==> ret.None? && unchanged(this)
      ensures val.Some? ==>
                var i := Locate(flat, nentry, cmp, key % nentry, val.value);
                && ret == (if i < |flat| then Some(flat[i].val) else None)
                && nfindSuccess == old(nfindSuccess) + (if i < |flat| then 1 else 0)
                && nfindFailed == old(nfindFailed) + (if i < |flat| then 0 else 1)
                && nconflict == old(nconflict) + Find(Bucket(flat, nentry, key % nentry), cmp, val.value)
    {
      if val.None? {
        return None;
      }
      var cur, steps := Scan(key % nentry, val.value);
      ret := if cur.Item? then Some(data[cur.addr]) else None;
      Note(steps, cur.Item?);
    }

    /** The statistics after a search that passed over `steps` items. */
    method Note(steps: nat, found: bool)
      modifies this`nconflict, this`nfindFailed, this`nfindSuccess
      ensures nconflict == old(nconflict) + steps
      ensures nfindSuccess == old(nfindSuccess) + (if found then 1 else 0)
      ensures nfindFailed == old(nfindFailed) + (if found then 0 else 1)
    {
      nconflict := nconflict + steps;
      if found {
        nfindSuccess := nfindSuccess + 1;
      } else {
        nfindFailed := nfindFailed + 1;
      }
    }

    /** The code both inserts share: a pool item goes onto the tail of the entry's list. */
    method AddItem(key: nat, v: V, block: Option<CacheId>) returns (r: Option<Addr>)
      requires Valid()
      requires block.Some? ==> block.value !in pool.caches
      modifies this`data, this`size, this`flat, pool, pool.nodeList, pool.cacheList, links
      ensures Valid()
      ensures (pool.View(), r) == old(pool.View()).Get(block)
      ensures flat == if r.Some? then old(flat) + [Elem(r.value, key, v)] else old(flat)
    {
      r := pool.Get(block);
      assert Table();
      if r.Some? {
        LinkItem(r.value, key, v);
        assert pool.Valid();
      }
    }

    method LinkItem(item: Addr, key: nat, v: V)
      requires Table() && item !in Addrs(flat)
      modifies this`data, this`size, this`flat, links
      ensures Table() && flat == old(flat) + [Elem(item, key, v)]
      ensures Addrs(flat) == old(Addrs(flat)) + {item}
    {
      ghost var e := Elem(item, key, v);
      var index := key % nentry;
      ghost var c := Cycle(flat, nentry, index);
      assert Ring(links.p, links.n, c);
      BucketItems(flat, nentry, index);
      data := data[item := v];
      links.AddTail(Entry(index), Item(item), c);
      AppendAddrs(flat, e);
      AppendStored(flat, old(data), e);
      AppendChained(old(links.p), old(links.n), links.p, links.n, flat, nentry, e);
      size := size + 1;
      flat := flat + [e];
    }

    method Insert(key: nat, val: Option<V>, block: Option<CacheId>) returns (ret: int)
      requires Valid()
      requires block.Some? ==> block.value !in pool.caches
      modifies this`data, this`size, this`flat, pool, pool.nodeList, pool.cacheList, links
      ensures Valid()
      ensures val.None? ==> ret == -1 && flat == old(flat) && pool.View() == old(pool.View())
      ensures val.Some? ==>
                var (view, r) := old(pool.View()).Get(block);
                && pool.View() == view
                && ret == (if r.Some? then 0 else -1)
                && flat == (if r.Some? then old(flat) + [Elem(r.value, key, val.value)] else old(flat))
                && (r.Some? ==> flat == Apply(old(flat), nentry, cmp, Op.Insert(Elem(r.value, key, val.value))))
    {
      if val.None? {
        return -1;
      }
      var r := AddItem(key, val.value, block);
      ret := if r.Some? then 0 else -1;
    }

    method InsertNodup(key: nat, val: Option<V>, block: Option<CacheId>) returns (ret: int)
      requires Valid()
      requires block.Some? ==> block.value !in pool.caches
      modifies this`data, this`size, this`flat, pool, pool.nodeList, pool.cacheList, links
      ensures Valid()
      ensures val.None? || Locate(old(flat), nentry, cmp, key % nentry, val.value) < |old(flat)| ==>
                ret == -1 && flat == old(flat) && pool.View() == old(pool.View())
      ensures val.Some? && Locate(old(flat), nentry, cmp, key % nentry, val.value) == |old(flat)| ==>
                var (view, r) := old(pool.View()).Get(block);
                && pool.View() == view
                && ret == (if r.Some? then 0 else -1)
                && flat == if r.Some? then old(flat) + [Elem(r.value, key, val.value)] else old(flat)
      ensures val.Some? && ret == 0 ==>
                exists a :: flat == Apply(old(flat), nentry, cmp, Op.InsertNodup(Elem(a, key, val.value)))
    {
      if val.None? {
        return -1;
      }
      var cur, steps := Scan(key % nentry, val.value);
      if cur.Item? {
        return -1;
      }
      var r := AddItem(key, val.value, block);
      ret := if r.Some? then 0 else -1;
      assert r.Some? ==> flat == Apply(old(flat), nentry, cmp, Op.InsertNodup(Elem(r.value, key, val.value)));
    }

    /** hash_delete: takes out exactly the item a search would find. */
    method Delete(key: nat, val: Option<V>) returns (ret: Option<V>)
      requires Valid()
      modifies this`size, this`flat, this`nconflict, this`nfindFailed, this`nfindSuccess,
               pool, pool.nodeList, pool.cacheList, links
      ensures Valid()
      ensures val.None? ==> ret.None? && unchanged(this) && pool.View() == old(pool.View())
      ensures val.Some? ==> flat == Apply(old(flat), nentry, cmp, Op.Delete(key, val.value))
      ensures val.Some? ==>
                var i := Locate(old(flat), nentry, cmp, key % nentry, val.value);
                && nconflict == old(nconflict) + Find(Bucket(old(flat), nentry, key % nentry), cmp, val.value)
                && (if i < |old(flat)| then
                      && ret == Some(old(flat)[i].val)
                      && flat == Cut(old(flat), i)
                      && pool.View() == old(pool.View()).Put(old(flat)[i].addr)
                      && nfindSuccess == old(nfindSuccess) + 1 && nfindFailed == old(nfindFailed)
                    else
                      && ret == None
                      && flat == old(flat)
                      && pool.View() == old(pool.View())
                      && nfindFailed == old(nfindFailed) + 1 && nfindSuccess == old(nfindSuccess))
    {
      if val.None? {
        return None;
      }
      var cur, steps := Scan(key % nentry, val.value);
      ret := if cur.Item? then Some(data[cur.addr]) else None;
      if cur.Item? {
        RemoveItem(cur.addr, Locate(flat, nentry, cmp, key % nentry, val.value), key % nentry);
      }
      Note(steps, cur.Item?);
    }

    /** CBLIST_DEL, the size update and objpool_put of hash_delete. */
    method RemoveItem(item: Addr, ghost i: nat, ghost b: nat)
      requires Valid() && i < |flat| && flat[i].addr == item && b == flat[i].key % nentry
      modifies this`size, this`flat, pool, pool.nodeList, pool.cacheList, links
      ensures Valid() && flat == Cut(old(flat), i)
      ensures pool.View() == old(pool.View()).Put(item)
    {
      assert flat[i].addr in Addrs(flat);
      UnlinkItem(item, i, b);
      var ok := pool.Put(Some(item));
    }

    method UnlinkItem(item: Addr, ghost i: nat, ghost b: nat)
      requires Table() && i < |flat| && flat[i].addr == item && b == flat[i].key % nentry
      modifies this`flat, this`size, links
      ensures Table() && flat == Cut(old(flat), i)
      ensures Addrs(flat) == old(Addrs(flat)) - {item}
    {
      ghost var c := Cycle(flat, nentry, b);
      assert Ring(links.p, links.n, c);
      ItemInCycle(flat, nentry, i);
      links.Del(Item(item), c);
      CutAddrs(flat, i);
      CutStored(flat, data, i);
      CutChained(old(links.p), old(links.n), links.p, links.n, flat, nentry, i);
      size := size - 1;
      flat := Cut(flat, i);
    }

    method Size() returns (ret: nat)
      requires Valid()
      ensures ret == |flat|
    {
      ret := size;
    }

    /** Linked items lie in live pool memory, one pool object per item and no object unlinked. */
    lemma LinkedItemsAreLive()
      requires Valid()
      ensures forall i :: 0 <= i < |flat| ==> flat[i].addr in pool.nodes && flat[i].addr in pool.View().Out()
      ensures |pool.Held()| == |flat|
    {
      pool.HeldIsOut();
      forall i | 0 <= i < |flat|
        ensures flat[i].addr in pool.Held()
      {
        assert flat[i].addr in Addrs(flat);
      }
      AddrsCard(flat);
    }

    /** The items take at most two blocks more than there are live ones, however many there once were. */
    lemma TableMemory()
      requires Valid()
      ensures pool.nalloced <= pool.incsize * (size + 2)
    {
      AddrsCard(flat);
      pool.MemoryBound();
    }
  }

  /** hash_alloc: `mem`, `block` and `table` are the outcomes of its three allocations. */
  method Alloc<V(!new)>(size: nat, cmp: Option<(V, V) -> int>, now: nat, mem: bool, block: Option<CacheId>, table: bool)
    returns (h: Hash?<V>)
    requires size <= HT_SIZE[HT_SIZE_SZ - 1]
    ensures h == null <==> size < 1 || cmp.None? || !mem || block.None? || !table
    ensures h != null ==>
              && fresh(h) && fresh(h.links) && fresh(h.pool) && h.Valid()
              && h.flat == [] && h.cmp == cmp.value && LeastFor(HT_SIZE, size, h.nentry)
              && h.pool.View() == Fresh(500, block.value)
  {
    if size < 1 || cmp.None? || !mem {
      return null;
    }
    var op := ObjPool.Alloc(HASH_ITEM_SIZE, 500, now, block);
    if op == null {
      return null;
    }
    var nentry := ChooseSize(size);
    if !table {
      return null;
    }
    FreshIsSettled(500, block.value);
    op.HeldIsOut();
    h := new Hash<V>(nentry, cmp.value, op);
    h.EmptyIsValid();
  }

  lemma {:induction false} AddrsCard<V>(s: seq<Elem<V>>)
    requires Distinct(s)
    ensures |Addrs(s)| == |s|
  {
    if s == [] {
      assert Addrs(s) == {};
    } else {
      var z := |s| - 1;
      AddrsCard(s[..z]);
      assert s[..z] + [s[z]] == s;
      AppendAddrs(s[..z], s[z]);
    }
  }

  lemma AppendStored<V>(flat: seq<Elem<V>>, data: map<Addr, V>, e: Elem<V>)
    requires Stored(flat, data) && e.addr !in Addrs(flat)
    ensures Stored(flat + [e], data[e.addr := e.val])
  {
    forall i | 0 <= i < |flat|
      ensures flat[i].addr != e.addr
    {
      assert flat[i].addr in Addrs(flat);
    }
  }

  lemma CutStored<V>(flat: seq<Elem<V>>, data: map<Addr, V>, i: nat)
    requires Stored(flat, data) && i < |flat|
    ensures Stored(Cut(flat, i), data)
  {
    var t := Cut(flat, i);
    assert forall j :: 0 <= j < |t| ==> t[j] == flat[if j < i then j else j + 1];
  }

  lemma ItemInCycle<V>(flat: seq<Elem<V>>, nentry: nat, i: nat)
    requires nentry >= 1 && i < |flat|
    ensures Item(flat[i].addr) in Cycle(flat, nentry, flat[i].key % nentry)
  {
    var b := flat[i].key % nentry;
    assert flat == flat[..i] + flat[i..];
    BucketConcat(flat[..i], flat[i..], nentry, b);
    LinksConcat(Bucket(flat[..i], nentry, b), Bucket(flat[i..], nentry, b));
    assert LinksOf(Bucket(flat[i..], nentry, b))[0] == Item(flat[i].addr);
  }

  /** Rings of different entries share no link. */
  lemma CyclesDisjoint<V>(p: map<Link, Link>, n: map<Link, Link>, flat: seq<Elem<V>>, nentry: nat,
                          b: nat, d: nat)
    requires nentry >= 1 && Chained(p, n, flat, nentry) && b < nentry && d < nentry && b != d
    ensures forall l :: l in Cycle(flat, nentry, d) ==> l !in Cycle(flat, nentry, b)
  {
    var x, y := Cycle(flat, nentry, b), Cycle(flat, nentry, d);
    assert Ring(p, n, x) && Ring(p, n, y);
    BucketItems(flat, nentry, b);
    assert y[0] !in x;
    RingsDisjoint(p, n, x, y);
  }

  lemma AppendCycle<V>(flat: seq<Elem<V>>, nentry: nat, e: Elem<V>, b: nat)
    requires nentry >= 1
    ensures Cycle(flat + [e], nentry, b) ==
            if b == e.key % nentry then Cycle(flat, nentry, b) + [Item(e.addr)]
            else Cycle(flat, nentry, b)
  {
    var s, l := Bucket(flat, nentry, b), [Item(e.addr)];
    BucketAppend(flat, e, nentry, b);
    LinksConcat(s, [e]);
    assert [e][1..] == [] && LinksOf([e]) == l;
    assert s + [] == s;
    assert [Entry(b)] + (LinksOf(s) + l) == [Entry(b)] + LinksOf(s) + l;
  }

  /** A change confined to the ring of entry `d` and to links of no live item leaves the ring of entry `b` alone. */
  lemma OtherCycleKept<V>(p: map<Link, Link>, n: map<Link, Link>, p': map<Link, Link>, n': map<Link, Link>,
                          flat: seq<Elem<V>>, nentry: nat, b: nat, d: nat, extra: set<Link>)
    requires nentry >= 1 && Chained(p, n, flat, nentry) && b < nentry && d < nentry && b != d
    requires forall l :: l in extra ==> l.Item? && l.addr !in Addrs(flat)
    requires SameOutside(p, p', SeqFacts.Elems(Cycle(flat, nentry, d)) + extra)
    requires SameOutside(n, n', SeqFacts.Elems(Cycle(flat, nentry, d)) + extra)
    ensures Ring(p', n', Cycle(flat, nentry, b))
  {
    var c := Cycle(flat, nentry, b);
    assert Ring(p, n, c);
    CyclesDisjoint(p, n, flat, nentry, b, d);
    BucketItems(flat, nentry, b);
    UntouchedRing(p, n, p', n', c, SeqFacts.Elems(Cycle(flat, nentry, d)) + extra);
  }

  lemma AppendChained<V>(p: map<Link, Link>, n: map<Link, Link>, p': map<Link, Link>, n': map<Link, Link>,
                         flat: seq<Elem<V>>, nentry: nat, e: Elem<V>)
    requires nentry >= 1 && Chained(p, n, flat, nentry) && e.addr !in Addrs(flat)
    requires var c := Cycle(flat, nentry, e.key % nentry);
             && Ring(p', n', c + [Item(e.addr)])
             && SameOutside(p, p', SeqFacts.Elems(c) + {Item(e.addr)})
             && SameOutside(n, n', SeqFacts.Elems(c) + {Item(e.addr)})
    ensures Chained(p', n', flat + [e], nentry)
  {
    var d := e.key % nentry;
    forall b | 0 <= b < nentry
      ensures Ring(p', n', Cycle(flat + [e], nentry, b))
    {
      AppendCycle(flat, nentry, e, b);
      if b != d {
        OtherCycleKept(p, n, p', n', flat, nentry, b, d, {Item(e.addr)});
      }
    }
  }

  lemma CutChained<V>(p: map<Link, Link>, n: map<Link, Link>, p': map<Link, Link>, n': map<Link, Link>,
                      flat: seq<Elem<V>>, nentry: nat, i: nat)
    requires nentry >= 1 && Chained(p, n, flat, nentry) && Distinct(flat) && i < |flat|
    requires var c := Cycle(flat, nentry, flat[i].key % nentry);
             && Ring(p', n', Without(c, {Item(flat[i].addr)}))
             && SameOutside(p, p', SeqFacts.Elems(c)) && SameOutside(n, n', SeqFacts.Elems(c))
    ensures Chained(p', n', Cut(flat, i), nentry)
  {
    var d := flat[i].key % nentry;
    forall b | 0 <= b < nentry
      ensures Ring(p', n', Cycle(Cut(flat, i), nentry, b))
    {
      BucketCut(flat, i, nentry, b);
      var c := Cycle(flat, nentry, b);
      if b == d {
        assert c[1..] == LinksOf(Bucket(flat, nentry, b));
        assert Cycle(Cut(flat, i), nentry, b) == Without(c, {Item(flat[i].addr)});
      } else {
        OtherCycleKept(p, n, p', n', flat, nentry, b, d, {});
      }
    }
  }

  /** A scan that stopped at position `k` of bucket `b` has found the item `Locate` names. */
  lemma FoundInBucket<V>(flat: seq<Elem<V>>, nentry: nat, cmp: (V, V) -> int, b: nat, v: V, k: nat)
    requires nentry >= 1
    requires var t := Bucket(flat, nentry, b);
             && k <= |t| && (forall i :: 0 <= i < k ==> cmp(t[i].val, v) != 0)
             && (k < |t| ==> cmp(t[k].val, v) == 0)
    ensures var t, i := Bucket(flat, nentry, b), Locate(flat, nentry, cmp, b, v);
            && k == Find(t, cmp, v)
            && (i < |flat| <==> k < |t|)
            && (i < |flat| ==> t[k] == flat[i])
  {
    LocateInBucket(flat, nentry, cmp, b, v);
  }

  /** The link at position `k + 1` of a ring is that of the bucket's item `k`, and the item holds its value. */
  lemma ItemAt<V>(flat: seq<Elem<V>>, nentry: nat, b: nat, k: nat, data: map<Addr, V>)
    requires nentry >= 1 && Stored(flat, data)
    ensures var t, c := Bucket(flat, nentry, b), Cycle(flat, nentry, b);
            k < |t| ==> c[k + 1] == Item(t[k].addr) && t[k] in flat && t[k].addr in data && data[t[k].addr] == t[k].val
  {
    var t := Bucket(flat, nentry, b);
    if k < |t| {
      LinksAt(t, k);
      BucketAddrs(flat, nentry, b);
      assert t[k] in t;
      var i :| 0 <= i < |flat| && flat[i] == t[k];
    }
  }
}
