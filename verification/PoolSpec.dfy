/**
  What objpool.c's pool is, seen without its pointers: the caches in list order and the
  free nodes in list order. The laws of whole runs of get and put are proved here; the
  class in ObjPool.dfy is proved to take exactly these steps.
 */
module PoolSpec {
  import opened SeqFacts

  /** A cache header together with the block of nodes it owns. */
  type CacheId = nat

  /** The node at offset `index * nodesize` of the cache's block. */
  datatype Addr = Addr(cache: CacheId, index: nat)

  /** The nodes of a cache in the order in which carving leaves them on the free list. */
  function Carved(c: CacheId, n: nat): seq<Addr> {
    if n == 0 then [] else [Addr(c, n - 1)] + Carved(c, n - 1)
  }

  function NodesOf(c: CacheId, n: nat): set<Addr> {
    set i | 0 <= i < n :: Addr(c, i)
  }

  datatype Pool = Pool(incsize: nat, caches: seq<CacheId>, free: seq<Addr>) {

    ghost predicate WellFormed() {
      && incsize >= 1
      && NoDup(caches)
      && NoDup(free)
      && (forall a :: a in free ==> IsNode(a))
    }

    predicate IsNode(a: Addr) {
      a.cache in caches && a.index < incsize
    }

    /** Every node in memory the pool holds. */
    ghost function Live(): set<Addr> {
      set c, i | c in caches && 0 <= i < incsize :: Addr(c, i)
    }

    /** The objects that callers hold. */
    ghost function Out(): set<Addr> {
      Live() - Elems(free)
    }

    predicate Idle(c: CacheId) {
      forall i :: 0 <= i < incsize ==> Addr(c, i) in free
    }

    ghost function IdleCaches(): set<CacheId> {
      set c | c in caches && Idle(c)
    }

    /** The state every public operation leaves behind. */
    ghost predicate Settled() {
      WellFormed() && |IdleCaches()| <= 2
    }

    function Grow(c: CacheId): Pool {
      Pool(incsize, [c] + caches, Carved(c, incsize) + free)
    }

    function Shrink(c: CacheId): Pool {
      Pool(incsize, Without(caches, {c}), Without(free, NodesOf(c, incsize)))
    }

    /** One objpool_get; `block` is what malloc yields should the pool have to grow. */
    function Get(block: Option<CacheId>): (Pool, Option<Addr>)
      requires incsize >= 1
    {
      if free != [] then (this.(free := free[1..]), Some(free[0]))
      else if block.None? then (this, None)
      else
        var p := Grow(block.value);
        (p.(free := p.free[1..]), Some(p.free[0]))
    }

    /** One objpool_put of an object that is out. */
    function Put(a: Addr): Pool {
      var p := this.(free := [a] + free);
      if p.Idle(a.cache) && |p.free| > 2 * incsize then p.Shrink(a.cache) else p
    }
  }

  // ---------------------------------------------------------------- counting

  lemma {:induction false} CarvedElems(c: CacheId, n: nat)
    ensures |Carved(c, n)| == n && NoDup(Carved(c, n))
    ensures forall a :: a in Carved(c, n) <==> a.cache == c && a.index < n
  {
    if n > 0 {
      CarvedElems(c, n - 1);
    }
  }

  /** The nodes of a block come onto the free list last carved first. */
  lemma {:induction false} CarvedAt(c: CacheId, n: nat, i: nat)
    requires i < n
    ensures i < |Carved(c, n)| && Carved(c, n)[i] == Addr(c, n - 1 - i)
  {
    CarvedElems(c, n);
    if i > 0 {
      CarvedAt(c, n - 1, i - 1);
    }
  }

  lemma NodesOfNext(c: CacheId, n: nat)
    ensures NodesOf(c, n + 1) == NodesOf(c, n) + {Addr(c, n)}
  {
  }

  lemma {:induction false} NodesOfCard(c: CacheId, n: nat)
    ensures |NodesOf(c, n)| == n
  {
    if n == 0 {
      assert NodesOf(c, n) == {};
    } else {
      NodesOfCard(c, n - 1);
      assert NodesOf(c, n) == NodesOf(c, n - 1) + {Addr(c, n - 1)};
    }
  }

  lemma LiveSplit(p: Pool)
    requires NoDup(p.caches) && p.caches != []
    ensures var q, here := p.(caches := p.caches[1..]), NodesOf(p.caches[0], p.incsize);
            p.Live() == q.Live() + here && q.Live() !! here
  {
    var q, here := p.(caches := p.caches[1..]), NodesOf(p.caches[0], p.incsize);
    assert p.caches == [p.caches[0]] + q.caches;
    forall a
      ensures a in p.Live() <==> a in q.Live() || a in here
    {
      assert a == Addr(a.cache, a.index);
    }
  }

  lemma OneMore(m: nat, n: nat)
    ensures m * (n + 1) == m * n + m
  {
  }

  lemma {:induction false} LiveCard(p: Pool)
    requires NoDup(p.caches)
    ensures |p.Live()| == p.incsize * |p.caches|
    decreases |p.caches|
  {
    if p.caches == [] {
      assert p.Live() == {};
    } else {
      var q, here := p.(caches := p.caches[1..]), NodesOf(p.caches[0], p.incsize);
      LiveCard(q);
      NodesOfCard(p.caches[0], p.incsize);
      LiveSplit(p);
      OneMore(p.incsize, |q.caches|);
    }
  }

  /** Conservation: every node is either free or out. */
  lemma FreePlusOut(p: Pool)
    requires p.WellFormed()
    ensures |p.free| + |p.Out()| == p.incsize * |p.caches|
  {
    LiveCard(p);
    NoDupCard(p.free);
    assert Elems(p.free) <= p.Live();
    assert p.Live() == p.Out() + Elems(p.free);
  }

  /** Shrinking gives back exactly one cache's worth of free nodes. */
  lemma ShrinkSizes(p: Pool, c: CacheId)
    requires p.WellFormed() && c in p.caches && p.Idle(c)
    ensures |p.Shrink(c).free| == |p.free| - p.incsize
    ensures |p.Shrink(c).caches| == |p.caches| - 1
  {
    WithoutLength(p.free, NodesOf(c, p.incsize));
    NodesOfCard(c, p.incsize);
    assert Elems(p.free) * NodesOf(c, p.incsize) == NodesOf(c, p.incsize);
    WithoutLength(p.caches, {c});
    assert Elems(p.caches) * {c} == {c};
  }

  /** Leaving an idle cache's nodes out of the free list costs `incsize` of them and touches no other cache. */
  lemma WithoutIdle(p: Pool, c: CacheId, others: set<CacheId>)
    requires NoDup(p.free) && p.Idle(c) && c !in others
    requires forall d :: d in others ==> p.Idle(d)
    ensures var q := p.(free := Without(p.free, NodesOf(c, p.incsize)));
            && NoDup(q.free) && |q.free| == |p.free| - p.incsize
            && (forall d :: d in others ==> q.Idle(d))
  {
    var gone := NodesOf(c, p.incsize);
    WithoutElems(p.free, gone);
    WithoutNoDup(p.free, gone);
    WithoutLength(p.free, gone);
    NodesOfCard(c, p.incsize);
    assert Elems(p.free) * gone == gone;
  }

  /** Idle caches are paid for in free nodes. */
  lemma {:induction false} IdleCachesFillFreeList(p: Pool, idle: set<CacheId>)
    requires NoDup(p.free)
    requires forall c :: c in idle ==> p.Idle(c)
    ensures p.incsize * |idle| <= |p.free|
    decreases |idle|
  {
    if idle != {} {
      var c :| c in idle;
      var others := idle - {c};
      WithoutIdle(p, c, others);
      IdleCachesFillFreeList(p.(free := Without(p.free, NodesOf(c, p.incsize))), others);
      OneMore(p.incsize, |others|);
      assert |idle| == |others| + 1;
    }
  }

  lemma AtMostTwo(m: nat, n: nat)
    requires m >= 1 && m * n <= 2 * m
    ensures n <= 2
  {
    if n > 2 {
      TimesMonotone(m, 3, n);
    }
  }

  lemma TimesMonotone(m: nat, a: nat, b: nat)
    requires a <= b
    ensures m * a <= m * b
  {
  }

  // ---------------------------------------------------------------- single steps

  lemma GrowWellFormed(p: Pool, c: CacheId)
    requires p.WellFormed() && c !in p.caches
    ensures p.Grow(c).WellFormed()
  {
    CarvedElems(c, p.incsize);
    NoDupConcat(Carved(c, p.incsize), p.free);
  }

  lemma TakeWellFormed(p: Pool)
    requires p.WellFormed() && p.free != []
    ensures p.(free := p.free[1..]).WellFormed()
  {
    HeadAndRest(p.free);
  }

  lemma ShrinkWellFormed(p: Pool, c: CacheId)
    requires p.WellFormed() && c in p.caches
    ensures p.Shrink(c).WellFormed()
  {
    var gone := NodesOf(c, p.incsize);
    WithoutElems(p.caches, {c});
    WithoutNoDup(p.caches, {c});
    WithoutElems(p.free, gone);
    WithoutNoDup(p.free, gone);
    forall a | a in p.Shrink(c).free
      ensures p.Shrink(c).IsNode(a)
    {
      assert p.IsNode(a) && a == Addr(a.cache, a.index);
    }
  }

  lemma GrowKeeps(p: Pool, c: CacheId)
    requires p.WellFormed() && c !in p.caches
    ensures p.Grow(c).WellFormed()
    ensures p.Grow(c).Out() == p.Out()
  {
    GrowWellFormed(p, c);
    CarvedElems(c, p.incsize);
    assert p.Grow(c).Live() == p.Live() + Elems(Carved(c, p.incsize));
  }

  lemma TakeFirst(p: Pool)
    requires p.WellFormed() && p.free != []
    ensures var q := p.(free := p.free[1..]);
            q.WellFormed() && q.Out() == p.Out() + {p.free[0]}
            && q.IdleCaches() <= p.IdleCaches() - {p.free[0].cache}
  {
    var q, a := p.(free := p.free[1..]), p.free[0];
    TakeWellFormed(p);
    HeadAndRest(p.free);
    assert Elems(p.free) == Elems(q.free) + {a};
    assert !q.Idle(a.cache) by {
      assert Addr(a.cache, a.index) == a && a !in q.free;
    }
  }

  /** A get hands out a live object nobody holds, or fails and changes nothing. */
  lemma GetStep(p: Pool, block: Option<CacheId>)
    requires p.Settled()
    requires block.Some? ==> block.value !in p.caches
    ensures var (q, r) := p.Get(block);
            && q.Settled()
            && (r.None? <==> p.free == [] && block.None?)
            && (r.None? ==> q == p)
            && (r.Some? ==> r.value !in p.Out() && q.Out() == p.Out() + {r.value})
            && Elems(p.caches) <= Elems(q.caches)
  {
    if p.free != [] {
      TakeFirst(p);
      var q := p.(free := p.free[1..]);
      SubsetCard(q.IdleCaches(), p.IdleCaches());
    } else if block.Some? {
      var c := block.value;
      GrowKeeps(p, c);
      CarvedElems(c, p.incsize);
      var g := p.Grow(c);
      assert g.free[0] in Carved(c, p.incsize);
      TakeFirst(g);
      var q := g.(free := g.free[1..]);
      forall d | d in q.caches
        ensures !q.Idle(d)
      {
        if d != c {
          assert Addr(d, 0) !in q.free;
        }
      }
      assert q.IdleCaches() == {};
    }
  }

  lemma ShrinkKeeps(p: Pool, c: CacheId)
    requires p.WellFormed() && c in p.caches && p.Idle(c)
    ensures var q := p.Shrink(c);
            q.WellFormed() && q.Out() == p.Out() && q.IdleCaches() == p.IdleCaches() - {c}
            && Elems(q.caches) == Elems(p.caches) - {c}
  {
    var q, gone := p.Shrink(c), NodesOf(c, p.incsize);
    ShrinkWellFormed(p, c);
    WithoutElems(p.caches, {c});
    WithoutElems(p.free, gone);
    forall a
      ensures a in q.Out() <==> a in p.Out()
    {
      if a.cache == c && a.index < p.incsize {
        assert Addr(c, a.index) in p.free;
      }
    }
    forall d | d in q.caches
      ensures q.Idle(d) <==> p.Idle(d)
    {
      assert forall i :: 0 <= i < p.incsize ==> (Addr(d, i) in q.free <==> Addr(d, i) in p.free);
    }
  }

  /** A put takes back that one object; a cache it releases holds no object that is still out. */
  lemma PutStep(p: Pool, a: Addr)
    requires p.Settled() && a in p.Out()
    ensures var q := p.Put(a);
            && q.Settled()
            && q.Out() == p.Out() - {a}
            && (forall c :: c in p.caches && c !in q.caches ==>
                  forall b :: b in p.Out() && b.cache == c ==> b == a)
  {
    var f := p.(free := [a] + p.free);
    assert f.WellFormed();
    assert Elems(f.free) == Elems(p.free) + {a};
    assert f.Out() == p.Out() - {a};
    var c := a.cache;
    assert f.IdleCaches() <= p.IdleCaches() + {c} by {
      forall d | d in f.IdleCaches() && d != c
        ensures d in p.IdleCaches()
      {
        assert forall i :: 0 <= i < p.incsize ==> Addr(d, i) in f.free;
      }
    }
    IdleCachesFillFreeList(f, f.IdleCaches());
    if f.Idle(c) && |f.free| > 2 * p.incsize {
      ShrinkKeeps(f, c);
      SubsetCard(f.IdleCaches() - {c}, p.IdleCaches());
      assert forall d :: d in p.caches && d !in f.Shrink(c).caches ==> d in Elems(p.caches) && d !in Elems(f.Shrink(c).caches);
      forall b | b in p.Out() && b.cache == c
        ensures b == a
      {
        assert Addr(c, b.index) in f.free;
      }
    } else if c in f.IdleCaches() {
      AtMostTwo(p.incsize, |f.IdleCaches()|);
    } else {
      SubsetCard(f.IdleCaches(), p.IdleCaches());
    }
  }

  // ---------------------------------------------------------------- whole runs

  datatype Call = GetCall(block: Option<CacheId>) | PutCall(obj: Addr)

  /** malloc yields memory that is not in use, and callers put back only what is out. */
  ghost predicate Legal(p: Pool, call: Call) {
    match call
    case GetCall(block) => block.Some? ==> block.value !in p.caches
    case PutCall(a) => a in p.Out()
  }

  function Step(p: Pool, call: Call): Pool
    requires p.incsize >= 1
  {
    match call
    case GetCall(block) => p.Get(block).0
    case PutCall(a) => p.Put(a)
  }

  /** The callers' own book-keeping: what they were given less what they gave back. */
  function Book(p: Pool, held: multiset<Addr>, call: Call): multiset<Addr>
    requires p.incsize >= 1
  {
    match call
    case GetCall(block) =>
      var r := p.Get(block).1;
      if r.Some? then held + multiset{r.value} else held
    case PutCall(a) => held - multiset{a}
  }

  ghost predicate LegalRun(p: Pool, calls: seq<Call>)
    decreases |calls|
  {
    calls != [] ==> p.incsize >= 1 && Legal(p, calls[0]) && LegalRun(Step(p, calls[0]), calls[1..])
  }

  ghost function Run(p: Pool, held: multiset<Addr>, calls: seq<Call>): (Pool, multiset<Addr>)
    requires LegalRun(p, calls)
    decreases |calls|
  {
    if calls == [] then (p, held)
    else Run(Step(p, calls[0]), Book(p, held, calls[0]), calls[1..])
  }

  lemma CallKeeps(p: Pool, held: multiset<Addr>, call: Call)
    requires p.Settled() && held == multiset(p.Out()) && Legal(p, call)
    ensures var q := Step(p, call);
            q.Settled() && q.incsize == p.incsize && Book(p, held, call) == multiset(q.Out())
  {
    match call {
      case GetCall(block) => GetStep(p, block);
      case PutCall(a) => PutStep(p, a);
    }
  }

  lemma {:induction false} RunStaysSettled(p: Pool, held: multiset<Addr>, calls: seq<Call>)
    requires p.Settled() && held == multiset(p.Out()) && LegalRun(p, calls)
    ensures var (q, h) := Run(p, held, calls);
            q.Settled() && q.incsize == p.incsize && h == multiset(q.Out())
    decreases |calls|
  {
    if calls != [] {
      CallKeeps(p, held, calls[0]);
      RunStaysSettled(Step(p, calls[0]), Book(p, held, calls[0]), calls[1..]);
    }
  }

  function Fresh(incsize: nat, c: CacheId): Pool {
    Pool(incsize, [], []).Grow(c)
  }

  lemma FreshIsSettled(incsize: nat, c: CacheId)
    requires incsize >= 1
    ensures Fresh(incsize, c).Settled() && Fresh(incsize, c).Out() == {}
  {
    var e := Pool(incsize, [], []);
    GrowKeeps(e, c);
    SubsetCard(Fresh(incsize, c).IdleCaches(), {c});
  }

  /** The caches that objects lie in are no more than the objects. */
  lemma {:induction false} CachesOfCard(out: set<Addr>)
    ensures |set a | a in out :: a.cache| <= |out|
  {
    var cs := set a | a in out :: a.cache;
    if out == {} {
      assert cs == {};
    } else {
      var b :| b in out;
      CachesOfCard(out - {b});
      var rest := set a | a in out - {b} :: a.cache;
      assert cs == rest + {b.cache};
    }
  }

  /** A cache that is not idle has an object out. */
  lemma BusyHasOut(p: Pool, c: CacheId)
    requires c in p.caches && !p.Idle(c)
    ensures exists a :: a in p.Out() && a.cache == c
  {
    var i :| 0 <= i < p.incsize && Addr(c, i) !in p.free;
    assert Addr(c, i) in p.Out();
  }

  /** At all times the pool has at most two caches more than objects are out. */
  lemma CachesBound(p: Pool)
    requires p.Settled()
    ensures |p.caches| <= |p.Out()| + 2
  {
    var busy := set a | a in p.Out() :: a.cache;
    CachesOfCard(p.Out());
    NoDupCard(p.caches);
    forall c | c in p.caches
      ensures c in busy + p.IdleCaches()
    {
      if !p.Idle(c) {
        BusyHasOut(p, c);
      }
    }
    SubsetCard(Elems(p.caches), busy + p.IdleCaches());
  }

  /**
    Every run of gets and legal puts: no object is handed to two callers at once, every
    object held lies in a cache the pool still owns, free and held nodes add up to all
    nodes, at most two caches stand idle, and there are at most two caches more than
    objects held: with everything returned the pool is down to two.
   */
  lemma PoolRuns(incsize: nat, c: CacheId, calls: seq<Call>)
    requires incsize >= 1 && LegalRun(Fresh(incsize, c), calls)
    ensures var (q, held) := Run(Fresh(incsize, c), multiset{}, calls);
            && (forall a :: held[a] <= 1)
            && (forall a :: a in held ==> q.IsNode(a) && a !in q.free)
            && |q.free| + |held| == incsize * |q.caches|
            && |q.IdleCaches()| <= 2
            && |q.caches| <= |held| + 2
  {
    FreshIsSettled(incsize, c);
    RunStaysSettled(Fresh(incsize, c), multiset{}, calls);
    var (q, held) := Run(Fresh(incsize, c), multiset{}, calls);
    FreePlusOut(q);
    assert |held| == |q.Out()|;
    CachesBound(q);
  }

  /**
    Giving an object straight back restores the pool, except when the pool had to grow for
    it, or when it came from an idle cache while more than two caches' worth of nodes were
    free: then that cache is released instead.
   */
  lemma GetThenPut(p: Pool, block: Option<CacheId>)
    requires p.Settled() && (block.Some? ==> block.value !in p.caches)
    requires p.free == [] ==> block.Some?
    ensures var (q, r) := p.Get(block);
            q.Put(r.value) == p <==> p.free != [] && !(p.Idle(p.free[0].cache) && |p.free| > 2 * p.incsize)
  {
    if p.free == [] {
      var g := p.Grow(block.value);
      CarvedElems(block.value, p.incsize);
      assert |g.free| == p.incsize;
      assert [g.free[0]] + g.free[1..] == g.free;
    } else {
      var a := p.free[0];
      assert p.IsNode(a);
      assert [a] + p.free[1..] == p.free;
      if p.Idle(a.cache) && |p.free| > 2 * p.incsize {
        ShrinkSizes(p, a.cache);
      }
    }
  }

  /** The free list is last in, first out: what was put back last is handed out next, unless its cache went. */
  lemma PutThenGet(p: Pool, a: Addr, block: Option<CacheId>)
    requires p.Settled() && a in p.Out() && a.cache in p.Put(a).caches
    ensures p.Put(a).Get(block) == (p, Some(a))
  {
    var q := p.(free := [a] + p.free);
    if q.Idle(a.cache) && |q.free| > 2 * p.incsize {
      WithoutElems(p.caches, {a.cache});
    }
    assert q.free[1..] == p.free;
  }
}
