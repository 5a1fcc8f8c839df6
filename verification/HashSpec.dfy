/**
  What hash.c's table stands for: one flat list of the live items in insertion order.
  An item keeps the key it was inserted with; a bucket is the sublist of the items whose key falls into it.
 */
module HashSpec {
  import opened SeqFacts
  import opened PoolSpec

  /** A link in memory: the list head in a table entry, or the one inside an item. */
  datatype Link = Entry(index: nat) | Item(addr: Addr)

  datatype Elem<+V> = Elem(addr: Addr, key: nat, val: V)

  /** The items of bucket `b`, in insertion order. */
  function Bucket<V>(flat: seq<Elem<V>>, nentry: nat, b: nat): seq<Elem<V>>
    requires nentry >= 1
  {
    if flat == [] then []
    else if flat[0].key % nentry == b then [flat[0]] + Bucket(flat[1..], nentry, b)
    else Bucket(flat[1..], nentry, b)
  }

  function LinksOf<V>(s: seq<Elem<V>>): (r: seq<Link>)
    ensures |r| == |s|
  {
    if s == [] then [] else [Item(s[0].addr)] + LinksOf(s[1..])
  }

  /** Position of the earliest item that compares equal to `v`; the length if there is none. */
  function Find<V>(s: seq<Elem<V>>, cmp: (V, V) -> int, v: V): (r: nat)
    ensures r <= |s|
    ensures r < |s| ==> cmp(s[r].val, v) == 0
    ensures forall i :: 0 <= i < r ==> cmp(s[i].val, v) != 0
  {
    if s == [] || cmp(s[0].val, v) == 0 then 0 else 1 + Find(s[1..], cmp, v)
  }

  /**
    Position of the earliest item of bucket `b` that compares equal to `v`; the length if there is none.
    This is what a search with a key of that bucket looks for, whatever the keys of other items.
   */
  function Locate<V>(s: seq<Elem<V>>, nentry: nat, cmp: (V, V) -> int, b: nat, v: V): (r: nat)
    requires nentry >= 1
    ensures r <= |s|
    ensures r < |s| ==> s[r].key % nentry == b && cmp(s[r].val, v) == 0
    ensures forall i :: 0 <= i < r ==> !(s[i].key % nentry == b && cmp(s[i].val, v) == 0)
  {
    if s == [] || (s[0].key % nentry == b && cmp(s[0].val, v) == 0) then 0
    else 1 + Locate(s[1..], nentry, cmp, b, v)
  }

  /** The key policy `keyOf` sends equal values to the same entry. */
  ghost predicate SameEntry<V(!new)>(cmp: (V, V) -> int, keyOf: V -> nat, nentry: nat)
    requires nentry >= 1
  {
    forall x, y :: cmp(x, y) == 0 ==> keyOf(x) % nentry == keyOf(y) % nentry
  }

  /** Every item was inserted with the key that goes with its value. */
  ghost predicate KeyedBy<V>(s: seq<Elem<V>>, keyOf: V -> nat) {
    forall i :: 0 <= i < |s| ==> s[i].key == keyOf(s[i].val)
  }

  function Addrs<V>(s: seq<Elem<V>>): set<Addr> {
    set i | 0 <= i < |s| :: s[i].addr
  }

  ghost predicate Distinct<V>(s: seq<Elem<V>>) {
    forall i, j :: 0 <= i < j < |s| ==> s[i].addr != s[j].addr
  }

  // ---------------------------------------------------------------- buckets against the flat list

  lemma {:induction false} BucketConcat<V>(s: seq<Elem<V>>, t: seq<Elem<V>>, nentry: nat, b: nat)
    requires nentry >= 1
    ensures Bucket(s + t, nentry, b) == Bucket(s, nentry, b) + Bucket(t, nentry, b)
  {
    if s == [] {
      assert s + t == t;
    } else {
      assert (s + t)[1..] == s[1..] + t;
      BucketConcat(s[1..], t, nentry, b);
    }
  }

  lemma BucketAppend<V>(s: seq<Elem<V>>, e: Elem<V>, nentry: nat, b: nat)
    requires nentry >= 1
    ensures Bucket(s + [e], nentry, b) ==
            Bucket(s, nentry, b) + if e.key % nentry == b then [e] else []
  {
    BucketConcat(s, [e], nentry, b);
    assert [e][1..] == [];
    assert Bucket([e], nentry, b) == if e.key % nentry == b then [e] else [];
  }

  lemma {:induction false} LinksConcat<V>(s: seq<Elem<V>>, t: seq<Elem<V>>)
    ensures LinksOf(s + t) == LinksOf(s) + LinksOf(t)
  {
    if s == [] {
      assert s + t == t;
    } else {
      assert (s + t)[1..] == s[1..] + t;
      LinksConcat(s[1..], t);
    }
  }

  lemma {:induction false} LinksAt<V>(s: seq<Elem<V>>, i: nat)
    requires i < |s|
    ensures LinksOf(s)[i] == Item(s[i].addr)
  {
    if i > 0 {
      LinksAt(s[1..], i - 1);
    }
  }

  lemma LinksElems<V>(s: seq<Elem<V>>)
    ensures forall l :: l in LinksOf(s) <==> l.Item? && l.addr in Addrs(s)
  {
    forall l
      ensures l in LinksOf(s) <==> l.Item? && l.addr in Addrs(s)
    {
      if l in LinksOf(s) {
        var i :| 0 <= i < |LinksOf(s)| && LinksOf(s)[i] == l;
        LinksAt(s, i);
      }
      if l.Item? && l.addr in Addrs(s) {
        var i :| 0 <= i < |s| && s[i].addr == l.addr;
        LinksAt(s, i);
      }
    }
  }

  lemma {:induction false} BucketAddrs<V>(s: seq<Elem<V>>, nentry: nat, b: nat)
    requires nentry >= 1
    ensures forall e :: e in Bucket(s, nentry, b) ==> e in s
  {
    if s != [] {
      BucketAddrs(s[1..], nentry, b);
      assert s == [s[0]] + s[1..];
    }
  }

  lemma BucketItems<V>(s: seq<Elem<V>>, nentry: nat, b: nat)
    requires nentry >= 1
    ensures forall l :: l in LinksOf(Bucket(s, nentry, b)) ==> l.Item? && l.addr in Addrs(s)
  {
    var t := Bucket(s, nentry, b);
    BucketAddrs(s, nentry, b);
    LinksElems(t);
    forall l | l in LinksOf(t)
      ensures l.addr in Addrs(s)
    {
      var i :| 0 <= i < |t| && t[i].addr == l.addr;
      assert t[i] in t;
      var j :| 0 <= j < |s| && s[j] == t[i];
      assert s[j].addr in Addrs(s);
    }
  }

  /** Walking the chain of bucket `b` ends at the item `Locate` names. */
  lemma {:induction false} LocateInBucket<V>(s: seq<Elem<V>>, nentry: nat, cmp: (V, V) -> int, b: nat, v: V)
    requires nentry >= 1
    ensures var t := Bucket(s, nentry, b);
            var i, k := Locate(s, nentry, cmp, b, v), Find(t, cmp, v);
            && (i < |s| <==> k < |t|)
            && (i < |s| ==> t[k] == s[i])
  {
    if s != [] && !(s[0].key % nentry == b && cmp(s[0].val, v) == 0) {
      LocateInBucket(s[1..], nentry, cmp, b, v);
      if s[0].key % nentry == b {
        assert Bucket(s, nentry, b)[1..] == Bucket(s[1..], nentry, b);
      }
    }
  }

  /** Every search with the policy's key answers like one through the whole list. */
  ghost predicate SearchesAll<V(!new)>(s: seq<Elem<V>>, nentry: nat, cmp: (V, V) -> int, keyOf: V -> nat)
    requires nentry >= 1
  {
    forall v :: Locate(s, nentry, cmp, keyOf(v) % nentry, v) == Find(s, cmp, v)
  }

  lemma KeyedSearch<V(!new)>(s: seq<Elem<V>>, nentry: nat, cmp: (V, V) -> int, keyOf: V -> nat)
    requires nentry >= 1 && SameEntry(cmp, keyOf, nentry) && KeyedBy(s, keyOf)
    ensures SearchesAll(s, nentry, cmp, keyOf)
  {
    forall v
      ensures Locate(s, nentry, cmp, keyOf(v) % nentry, v) == Find(s, cmp, v)
    {
      var i, j := Find(s, cmp, v), Locate(s, nentry, cmp, keyOf(v) % nentry, v);
      assert i <= j;
      if i < |s| {
        assert keyOf(s[i].val) % nentry == keyOf(v) % nentry;
      }
    }
  }

  /** A policy that sends two equal values to different entries: stored alone, one is not found when asked for as the other. */
  lemma MissedSearch<V(!new)>(x: V, y: V, nentry: nat, cmp: (V, V) -> int, keyOf: V -> nat, a: Addr)
    requires nentry >= 1 && cmp(x, y) == 0 && keyOf(x) % nentry != keyOf(y) % nentry
    ensures var s := [Elem(a, keyOf(x), x)];
            && KeyedBy(s, keyOf)
            && Find(s, cmp, y) == 0 && Locate(s, nentry, cmp, keyOf(y) % nentry, y) == |s|
  {
    var s := [Elem(a, keyOf(x), x)];
    assert s[1..] == [];
  }

  /** Cutting an item out of the flat list takes its link out of its bucket and no other. */
  lemma BucketCut<V>(s: seq<Elem<V>>, i: nat, nentry: nat, b: nat)
    requires nentry >= 1 && i < |s| && Distinct(s)
    ensures LinksOf(Bucket(Cut(s, i), nentry, b)) ==
            Without(LinksOf(Bucket(s, nentry, b)), {Item(s[i].addr)})
    ensures s[i].key % nentry != b ==>
              Bucket(Cut(s, i), nentry, b) == Bucket(s, nentry, b)
  {
    var x, y, e := s[..i], s[i + 1..], s[i];
    assert s == x + ([e] + y);
    BucketConcat(x, [e] + y, nentry, b);
    BucketConcat(x, y, nentry, b);
    assert ([e] + y)[1..] == y;
    var bx, bz, gone := Bucket(x, nentry, b), Bucket(y, nentry, b), {Item(e.addr)};
    BucketItems(x, nentry, b);
    BucketItems(y, nentry, b);
    LinksConcat(bx, bz);
    WithoutNothing(LinksOf(bx), gone);
    WithoutNothing(LinksOf(bz), gone);
    if e.key % nentry == b {
      LinksConcat(bx, [e] + bz);
      LinksConcat([e], bz);
      assert [e][1..] == [];
      assert LinksOf([e]) == [Item(e.addr)];
      WithoutConcat(LinksOf(bx), LinksOf([e] + bz), gone);
      WithoutConcat(LinksOf([e]), LinksOf(bz), gone);
      assert Without(LinksOf([e]), gone) == [];
    } else {
      WithoutConcat(LinksOf(bx), LinksOf(bz), gone);
    }
  }

  lemma CutAddrs<V>(s: seq<Elem<V>>, i: nat)
    requires i < |s| && Distinct(s)
    ensures Distinct(Cut(s, i)) && Addrs(Cut(s, i)) == Addrs(s) - {s[i].addr}
  {
    var t := Cut(s, i);
    assert forall j :: 0 <= j < |t| ==> t[j] == if j < i then s[j] else s[j + 1];
    forall a
      ensures a in Addrs(t) <==> a in Addrs(s) && a != s[i].addr
    {
      if a in Addrs(s) && a != s[i].addr {
        var j :| 0 <= j < |s| && s[j].addr == a;
        assert t[if j < i then j else j - 1].addr == a;
      }
    }
  }

  lemma AppendAddrs<V>(s: seq<Elem<V>>, e: Elem<V>)
    requires Distinct(s) && e.addr !in Addrs(s)
    ensures Distinct(s + [e]) && Addrs(s + [e]) == Addrs(s) + {e.addr}
  {
    var t := s + [e];
    forall a
      ensures a in Addrs(t) <==> a in Addrs(s) || a == e.addr
    {
      if a in Addrs(s) {
        var j :| 0 <= j < |s| && s[j].addr == a;
        assert t[j].addr == a;
      }
      assert t[|s|].addr == e.addr;
    }
    forall j | 0 <= j < |s|
      ensures t[j].addr != e.addr
    {
      assert s[j].addr in Addrs(s);
    }
  }

  // ---------------------------------------------------------------- laws of the flat list

  /** The comparison is an equivalence. */
  ghost predicate Equivalence<V(!new)>(cmp: (V, V) -> int) {
    && (forall x :: cmp(x, x) == 0)
    && (forall x, y :: cmp(x, y) == 0 ==> cmp(y, x) == 0)
    && (forall x, y, z :: cmp(x, y) == 0 && cmp(y, z) == 0 ==> cmp(x, z) == 0)
  }

  /** No two items of one bucket hold equal values. */
  ghost predicate BucketsUnequal<V>(s: seq<Elem<V>>, nentry: nat, cmp: (V, V) -> int)
    requires nentry >= 1
  {
    forall i, j :: 0 <= i < |s| && 0 <= j < |s| && i != j && s[i].key % nentry == s[j].key % nentry ==>
                     cmp(s[i].val, s[j].val) != 0
  }

  ghost predicate PairwiseUnequal<V>(s: seq<Elem<V>>, cmp: (V, V) -> int) {
    forall i, j :: 0 <= i < |s| && 0 <= j < |s| && i != j ==> cmp(s[i].val, s[j].val) != 0
  }

  /** Appending a value that a search with its key does not find keeps the buckets free of equal values ... */
  lemma NoDupInsert<V(!new)>(s: seq<Elem<V>>, nentry: nat, cmp: (V, V) -> int, e: Elem<V>)
    requires nentry >= 1 && Equivalence(cmp) && BucketsUnequal(s, nentry, cmp)
    requires Locate(s, nentry, cmp, e.key % nentry, e.val) == |s|
    ensures BucketsUnequal(s + [e], nentry, cmp)
  {
    var t := s + [e];
    forall i, j | 0 <= i < |t| && 0 <= j < |t| && i != j && t[i].key % nentry == t[j].key % nentry
      ensures cmp(t[i].val, t[j].val) != 0
    {
      if i < |s| && j < |s| {
        assert cmp(s[i].val, s[j].val) != 0;
      } else {
        var k := if i < |s| then i else j;
        assert t[k] == s[k] && cmp(s[k].val, e.val) != 0;
      }
    }
  }

  /** ... and so does cutting one out. */
  lemma NoDupCut<V>(s: seq<Elem<V>>, nentry: nat, cmp: (V, V) -> int, h: nat)
    requires nentry >= 1 && BucketsUnequal(s, nentry, cmp) && h < |s|
    ensures BucketsUnequal(Cut(s, h), nentry, cmp)
  {
    var t := Cut(s, h);
    forall i, j | 0 <= i < |t| && 0 <= j < |t| && i != j && t[i].key % nentry == t[j].key % nentry
      ensures cmp(t[i].val, t[j].val) != 0
    {
      var x, y := if i < h then i else i + 1, if j < h then j else j + 1;
      assert t[i] == s[x] && t[j] == s[y];
    }
  }

  /** What was inserted last answers a search for it with its key exactly when nothing equal was in the bucket. */
  lemma InsertThenSearch<V(!new)>(s: seq<Elem<V>>, nentry: nat, cmp: (V, V) -> int, e: Elem<V>)
    requires nentry >= 1 && Equivalence(cmp)
    ensures Locate(s + [e], nentry, cmp, e.key % nentry, e.val) == Locate(s, nentry, cmp, e.key % nentry, e.val)
  {
    assert (s + [e])[|s|] == e;
    assert forall k :: 0 <= k < |s| ==> (s + [e])[k] == s[k];
  }

  /** With no equal values in a bucket, deleting one leaves nothing equal to it there. */
  lemma DeleteThenSearch<V(!new)>(s: seq<Elem<V>>, nentry: nat, cmp: (V, V) -> int, b: nat, v: V)
    requires nentry >= 1 && Equivalence(cmp) && BucketsUnequal(s, nentry, cmp)
    ensures var i := Locate(s, nentry, cmp, b, v);
            i < |s| ==> Locate(Cut(s, i), nentry, cmp, b, v) == |s| - 1
  {
    var i := Locate(s, nentry, cmp, b, v);
    if i < |s| {
      var t := Cut(s, i);
      assert cmp(v, s[i].val) == 0;
      forall k | 0 <= k < |t| && t[k].key % nentry == b
        ensures cmp(t[k].val, v) != 0
      {
        var j := if k < i then k else k + 1;
        assert t[k] == s[j] && cmp(s[j].val, s[i].val) != 0;
      }
    }
  }

  /** What the inserts (given the item they would get) and hash_delete do to the flat list. */
  datatype Op<+V> = Insert(item: Elem<V>) | InsertNodup(item: Elem<V>) | Delete(key: nat, val: V)

  function Apply<V>(s: seq<Elem<V>>, nentry: nat, cmp: (V, V) -> int, op: Op<V>): seq<Elem<V>>
    requires nentry >= 1
  {
    match op
    case Insert(e) => s + [e]
    case InsertNodup(e) => if Locate(s, nentry, cmp, e.key % nentry, e.val) == |s| then s + [e] else s
    case Delete(k, v) => var i := Locate(s, nentry, cmp, k % nentry, v); if i < |s| then Cut(s, i) else s
  }

  function ApplyAll<V>(s: seq<Elem<V>>, nentry: nat, cmp: (V, V) -> int, ops: seq<Op<V>>): seq<Elem<V>>
    requires nentry >= 1
    decreases |ops|
  {
    if ops == [] then s else ApplyAll(Apply(s, nentry, cmp, ops[0]), nentry, cmp, ops[1..])
  }

  /** Whatever keys are passed, hash_insert_nodup and hash_delete never leave two equal values in one bucket ... */
  lemma {:induction false} NoDupRun<V(!new)>(s: seq<Elem<V>>, nentry: nat, cmp: (V, V) -> int, ops: seq<Op<V>>)
    requires nentry >= 1 && Equivalence(cmp) && BucketsUnequal(s, nentry, cmp)
    requires NoPlainInsert(ops)
    ensures BucketsUnequal(ApplyAll(s, nentry, cmp, ops), nentry, cmp)
    decreases |ops|
  {
    if ops != [] {
      assert !ops[0].Insert?;
      match ops[0] {
        case InsertNodup(e) =>
          if Locate(s, nentry, cmp, e.key % nentry, e.val) == |s| {
            NoDupInsert(s, nentry, cmp, e);
          }
        case Delete(k, v) =>
          if Locate(s, nentry, cmp, k % nentry, v) < |s| {
            NoDupCut(s, nentry, cmp, Locate(s, nentry, cmp, k % nentry, v));
          }
      }
      NoDupRun(Apply(s, nentry, cmp, ops[0]), nentry, cmp, ops[1..]);
    }
  }

  /** Both inserts pass the key that goes with the value; deletes may pass any. */
  ghost predicate KeyedOps<V>(ops: seq<Op<V>>, keyOf: V -> nat) {
    forall k :: 0 <= k < |ops| && !ops[k].Delete? ==> ops[k].item.key == keyOf(ops[k].item.val)
  }

  lemma {:induction false} KeyedRun<V>(s: seq<Elem<V>>, nentry: nat, cmp: (V, V) -> int, keyOf: V -> nat,
                                       ops: seq<Op<V>>)
    requires nentry >= 1 && KeyedBy(s, keyOf) && KeyedOps(ops, keyOf)
    ensures KeyedBy(ApplyAll(s, nentry, cmp, ops), keyOf)
    decreases |ops|
  {
    if ops != [] {
      assert KeyedBy(Apply(s, nentry, cmp, ops[0]), keyOf);
      KeyedRun(Apply(s, nentry, cmp, ops[0]), nentry, cmp, keyOf, ops[1..]);
    }
  }

  /**
    After every run of inserts and deletes every keyed search answers for the whole table, if
    and only if the policy sends equal values to the same entry.
   */
  lemma SearchesWholeTable<V(!new)>(nentry: nat, cmp: (V, V) -> int, keyOf: V -> nat)
    requires nentry >= 1
    ensures SameEntry(cmp, keyOf, nentry) <==>
            forall ops :: KeyedOps(ops, keyOf) ==> SearchesAll(ApplyAll([], nentry, cmp, ops), nentry, cmp, keyOf)
  {
    if SameEntry(cmp, keyOf, nentry) {
      forall ops | KeyedOps(ops, keyOf)
        ensures SearchesAll(ApplyAll([], nentry, cmp, ops), nentry, cmp, keyOf)
      {
        KeyedRun([], nentry, cmp, keyOf, ops);
        KeyedSearch(ApplyAll([], nentry, cmp, ops), nentry, cmp, keyOf);
      }
    } else {
      var x, y :| cmp(x, y) == 0 && keyOf(x) % nentry != keyOf(y) % nentry;
      var e := Elem(Addr(0, 0), keyOf(x), x);
      var ops := [Insert(e)];
      MissedSearch(x, y, nentry, cmp, keyOf, e.addr);
      assert ops[1..] == [] && [] + [e] == [e];
      assert ApplyAll([], nentry, cmp, ops) == [e];
      assert KeyedOps(ops, keyOf) && !SearchesAll([e], nentry, cmp, keyOf);
    }
  }

  ghost predicate NoPlainInsert<V>(ops: seq<Op<V>>) {
    forall k :: 0 <= k < |ops| ==> !ops[k].Insert?
  }

  lemma NoDupKeyed<V(!new)>(nentry: nat, cmp: (V, V) -> int, keyOf: V -> nat, ops: seq<Op<V>>)
    requires nentry >= 1 && Equivalence(cmp) && SameEntry(cmp, keyOf, nentry)
    requires KeyedOps(ops, keyOf) && NoPlainInsert(ops)
    ensures PairwiseUnequal(ApplyAll([], nentry, cmp, ops), cmp)
  {
    NoDupRun([], nentry, cmp, ops);
    KeyedRun([], nentry, cmp, keyOf, ops);
    var s := ApplyAll([], nentry, cmp, ops);
    forall i, j | 0 <= i < |s| && 0 <= j < |s| && i != j
      ensures cmp(s[i].val, s[j].val) != 0
    {
      assert s[i].key == keyOf(s[i].val) && s[j].key == keyOf(s[j].val);
    }
  }

  /** Two equal values with different entries both get in through hash_insert_nodup. */
  lemma DupStored<V(!new)>(x: V, y: V, nentry: nat, cmp: (V, V) -> int, keyOf: V -> nat) returns (ops: seq<Op<V>>)
    requires nentry >= 1 && cmp(x, y) == 0 && keyOf(x) % nentry != keyOf(y) % nentry
    ensures KeyedOps(ops, keyOf) && NoPlainInsert(ops)
    ensures !PairwiseUnequal(ApplyAll([], nentry, cmp, ops), cmp)
  {
    var d, e := Elem(Addr(0, 0), keyOf(x), x), Elem(Addr(0, 1), keyOf(y), y);
    ops := [InsertNodup(d), InsertNodup(e)];
    MissedSearch(x, y, nentry, cmp, keyOf, d.addr);
    assert ops[1..] == [InsertNodup(e)] && ops[1..][1..] == [];
    assert Apply([], nentry, cmp, ops[0]) == [d];
    assert ApplyAll([], nentry, cmp, ops) == ApplyAll([d], nentry, cmp, ops[1..]);
    assert Apply([d], nentry, cmp, InsertNodup(e)) == [d, e];
    assert ApplyAll([d], nentry, cmp, ops[1..]) == ApplyAll([d, e], nentry, cmp, []);
    assert [d, e][0].val == x && [d, e][1].val == y;
  }

  /** ... and none anywhere in the table after any such run, if and only if the policy sends equal values to the same entry. */
  lemma NoDupTable<V(!new)>(nentry: nat, cmp: (V, V) -> int, keyOf: V -> nat)
    requires nentry >= 1 && Equivalence(cmp)
    ensures SameEntry(cmp, keyOf, nentry) <==>
            forall ops :: KeyedOps(ops, keyOf) && NoPlainInsert(ops) ==>
                            PairwiseUnequal(ApplyAll([], nentry, cmp, ops), cmp)
  {
    if SameEntry(cmp, keyOf, nentry) {
      forall ops | KeyedOps(ops, keyOf) && NoPlainInsert(ops)
        ensures PairwiseUnequal(ApplyAll([], nentry, cmp, ops), cmp)
      {
        NoDupKeyed(nentry, cmp, keyOf, ops);
      }
    } else {
      var x, y :| cmp(x, y) == 0 && keyOf(x) % nentry != keyOf(y) % nentry;
      var ops := DupStored(x, y, nentry, cmp, keyOf);
    }
  }
}
