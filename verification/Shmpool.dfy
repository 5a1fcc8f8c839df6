/**
  The shared-memory pool of shmpool.c: slots of one size, the free ones chained by byte
  offsets into a first-in first-out queue. Pointers are numbers relative to the segment.
 */
module Shmpools {
  import opened SeqFacts

  const POOL_HEADER: nat := 32
  const NODE_HEADER: nat := 16

  /** The shape of a pool: number of slots and bytes per object. */
  datatype Shape = Shape(maxobjs: nat, objsize: nat) {

    function NodeSize(): nat {
      objsize + NODE_HEADER
    }

    /** The offset of slot `i`. */
    function Pos(i: nat): nat {
      i * NodeSize()
    }

    /** shmpool_ptr; None for NULL. */
    function Ptr(pos: int): Option<int>
      requires maxobjs >= 1
    {
      if pos < 0 || pos > (maxobjs - 1) * NodeSize() then None
      else if pos % NodeSize() != 0 then None
      else Some(POOL_HEADER + pos)
    }

    /** shmpool_idx. */
    function Idx(node: Option<int>): int
      requires maxobjs >= 1
    {
      if node.None? then -1
      else
        var pos := node.value - POOL_HEADER;
        if pos < 0 || pos > (maxobjs - 1) * NodeSize() then -1
        else if pos % NodeSize() != 0 then -1
        else pos
    }

    /** The slot at an offset, by address arithmetic. */
    function SlotAt(pos: nat): nat {
      pos / NodeSize()
    }
  }

  lemma MulDiv(i: nat, n: nat)
    requires n >= 1
    ensures i * n / n == i && i * n % n == 0
  {
    var q := i * n / n;
    assert q * n <= i * n < (q + 1) * n;
    if q < i {
      MulMonotone(q + 1, i, n);
    } else if q > i {
      MulMonotone(i + 1, q, n);
    }
  }

  lemma MulMonotone(i: nat, j: nat, n: nat)
    requires i <= j
    ensures i * n <= j * n
  {
  }

  lemma DivMul(pos: nat, n: nat, m: nat)
    requires n >= 1 && pos % n == 0 && m >= 1 && pos <= (m - 1) * n
    ensures pos / n * n == pos && pos / n < m
  {
    var q := pos / n;
    assert q * n == pos;
    if q >= m {
      MulMonotone(m, q, n);
    }
  }

  lemma PosIsSlot(s: Shape, i: nat)
    requires i < s.maxobjs
    ensures s.SlotAt(s.Pos(i)) == i && s.Ptr(s.Pos(i)) == Some(POOL_HEADER + s.Pos(i))
  {
    MulDiv(i, s.NodeSize());
    MulMonotone(i, s.maxobjs - 1, s.NodeSize());
  }

  /** Every slot has room for its header and its object before the next one begins ... */
  lemma SlotsApart(s: Shape, i: nat, j: nat)
    requires i < j
    ensures s.Pos(i) + NODE_HEADER + s.objsize <= s.Pos(j)
  {
    MulMonotone(i + 1, j, s.NodeSize());
    assert (i + 1) * s.NodeSize() == i * s.NodeSize() + s.NodeSize();
  }

  /** ... and the last one ends with the segment, which has no room to spare. */
  lemma SlotsFit(s: Shape, i: nat)
    requires i < s.maxobjs
    ensures s.Pos(i) + NODE_HEADER + s.objsize <= s.maxobjs * (s.objsize + NODE_HEADER)
    ensures i == s.maxobjs - 1 ==> s.Pos(i) + NODE_HEADER + s.objsize == s.maxobjs * (s.objsize + NODE_HEADER)
  {
    MulMonotone(i + 1, s.maxobjs, s.NodeSize());
    assert (i + 1) * s.NodeSize() == i * s.NodeSize() + s.NodeSize();
  }

  /** So the nodes of two slots, each with its object, never overlap. */
  lemma NodesApart(s: Shape, i: nat, j: nat)
    requires i < s.maxobjs && j < s.maxobjs && i != j
    ensures var a, b, n := POOL_HEADER + s.Pos(i), POOL_HEADER + s.Pos(j), NODE_HEADER + s.objsize;
            a + n <= b || b + n <= a
  {
    if i < j {
      SlotsApart(s, i, j);
    } else {
      SlotsApart(s, j, i);
    }
  }

  /** shmpool_ptr accepts exactly the slot offsets. */
  lemma PtrAcceptsSlots(s: Shape, pos: int)
    requires s.maxobjs >= 1
    ensures s.Ptr(pos).Some? <==> exists i: nat :: i < s.maxobjs && pos == s.Pos(i)
  {
    if s.Ptr(pos).Some? {
      DivMul(pos, s.NodeSize(), s.maxobjs);
      assert pos == s.Pos(pos / s.NodeSize());
    }
    if i: nat :| i < s.maxobjs && pos == s.Pos(i) {
      PosIsSlot(s, i);
    }
  }

  /** The two conversions undo each other, and reject the same things. */
  lemma PtrIdxInverse(s: Shape, pos: int, addr: int)
    requires s.maxobjs >= 1
    ensures s.Ptr(pos).Some? ==> s.Idx(s.Ptr(pos)) == pos
    ensures s.Idx(Some(addr)) != -1 ==> s.Ptr(s.Idx(Some(addr))) == Some(addr)
    ensures s.Ptr(pos).None? ==> s.Idx(Some(POOL_HEADER + pos)) == -1
  {
  }

  /** The address a get returns is accepted by a put, for the same slot. */
  lemma GivenBack(s: Shape, i: nat)
    requires i < s.maxobjs
    ensures var node := Some(POOL_HEADER + s.Pos(i)); s.Idx(node) != -1 && s.SlotAt(s.Idx(node)) == i
  {
    PosIsSlot(s, i);
    PtrIdxInverse(s, s.Pos(i), 0);
  }

  /** The offsets in `next` from the slot `q[0]` on run through `q` and end with -1. */
  ghost predicate Chained(s: Shape, next: seq<int>, q: seq<nat>) {
    && |next| == s.maxobjs && NoDup(q)
    && (forall i :: 0 <= i < |q| ==> q[i] < s.maxobjs)
    && (forall i, j :: 0 <= i < |q| && 0 <= j < |q| && j == i + 1 ==> next[q[i]] == s.Pos(q[j]))
    && (q != [] ==> next[q[|q| - 1]] == -1)
  }

  lemma ChainRest(s: Shape, next: seq<int>, q: seq<nat>)
    requires Chained(s, next, q) && q != []
    ensures Chained(s, next[q[0] := -1], q[1..])
    ensures next[q[0]] == if |q| == 1 then -1 else s.Pos(q[1])
  {
    var rest := q[1..];
    assert forall i :: 0 <= i < |rest| ==> rest[i] == q[i + 1] && rest[i] != q[0];
    if |q| > 1 {
      assert next[q[0]] == s.Pos(q[1]);
    }
  }

  lemma ChainAppend(s: Shape, next: seq<int>, q: seq<nat>, i: nat)
    requires Chained(s, next, q) && i < s.maxobjs && i !in q
    ensures q == [] ==> Chained(s, next[i := -1], [i])
    ensures q != [] ==> Chained(s, next[i := -1][q[|q| - 1] := s.Pos(i)], q + [i])
  {
    assert forall j :: 0 <= j < |q| ==> q[j] in q && q[j] != i;
  }

  function Upto(n: nat): (r: seq<nat>)
    ensures |r| == n && forall i :: 0 <= i < n ==> r[i] == i
  {
    seq(n, i => i)
  }

  lemma UptoElems(n: nat)
    ensures forall i :: 0 <= i < n ==> i in Upto(n)
    ensures forall s: Shape :: s.Pos(0) == 0
  {
    forall i | 0 <= i < n
      ensures i in Upto(n)
    {
      assert Upto(n)[i] == i;
    }
  }

  class Shmpool {
    const shape: Shape
    var freed: int
    var front: int
    var rear: int
    /** The `next` and `flags` fields of the slots. */
    const next: array<int>
    const used: array<bool>
    /** The free slots in the order in which they will be issued. */
    ghost var queue: seq<nat>
    /** The slots issued and the slots taken back so far. */
    ghost var issued: seq<nat>
    ghost var returned: seq<nat>

    ghost function History(): Trace
      reads this
    {
      Trace(queue, issued, returned)
    }

    ghost predicate Valid()
      reads this, next, used
    {
      && Fifo(shape.maxobjs, History())
      && used.Length == shape.maxobjs
      && Chained(shape, next[..], queue)
      && (forall i :: 0 <= i < shape.maxobjs ==> (used[i] <==> i !in queue))
      && freed == |queue|
      && (queue != [] ==> front == shape.Pos(queue[0]) && rear == shape.Pos(queue[|queue| - 1]))
      && (queue == [] && shape.maxobjs > 0 ==> front == -1 && rear == -1)
    }

    /** _shmpool_init on a new segment. */
    constructor (maxobjs: nat, objsize: nat)
      ensures Valid() && shape == Shape(maxobjs, objsize) && History() == Trace(Upto(maxobjs), [], [])
      ensures fresh(next) && fresh(used)
    {
      shape := Shape(maxobjs, objsize);
      next := new int[maxobjs];
      used := new bool[maxobjs];
      new;
      var nodesize := shape.NodeSize();
      var i := 0;
      while i < maxobjs
        invariant 0 <= i <= maxobjs
        invariant shape == Shape(maxobjs, objsize) && nodesize == shape.NodeSize()
        invariant next.Length == maxobjs && used.Length == maxobjs && fresh(next) && fresh(used)
        invariant forall k :: 0 <= k < i ==> !used[k] && next[k] == if k < maxobjs - 1 then shape.Pos(k + 1) else -1
      {
        used[i] := false;
        if i < maxobjs - 1 {
          next[i] := (i + 1) * nodesize;
        } else {
          next[i] := -1;
        }
        i := i + 1;
      }
      front := 0;
      rear := (maxobjs - 1) * nodesize;
      freed := maxobjs;
      queue, issued, returned := Upto(maxobjs), [], [];
      UptoElems(maxobjs);
    }

    /** shmpool_get; the result is the slot's address. */
    method Get() returns (node: Option<int>)
      requires Valid()
      modifies this, next, used
      ensures Valid()
      ensures if old(queue) == [] then node == None && queue == []
              else node == Some(POOL_HEADER + shape.Pos(old(queue)[0])) && queue == old(queue)[1..]
      ensures History() == Step(old(History()), GetOp)
    {
      if freed == 0 {
        return None;
      }
      ghost var q := queue;
      assert q[0] in q;
      PosIsSlot(shape, q[0]);
      ChainRest(shape, next[..], q);
      HeadAndRest(q);
      node := shape.Ptr(front);
      var i := shape.SlotAt(front);
      front := next[i];
      if front == -1 {
        rear := -1;
      }
      next[i] := -1;
      used[i] := true;
      freed := freed - 1;
      FifoStep(shape.maxobjs, History(), GetOp);
      queue, issued := queue[1..], issued + [queue[0]];
    }

    /** shmpool_put; `node` is NULL or the address of a slot of this pool. */
    method Put(node: Option<int>) returns (ret: int)
      requires Valid()
      requires node.Some? ==> shape.maxobjs >= 1 && shape.Idx(node) != -1
      modifies this, next, used
      ensures Valid()
      ensures node.None? ==> ret == -1 && queue == old(queue)
      ensures node.Some? ==>
                var i := shape.SlotAt(shape.Idx(node));
                if i in old(queue) then ret == -1 && queue == old(queue)
                else ret == 0 && queue == old(queue) + [i]
      ensures History() == if node.Some? then Step(old(History()), PutOp(shape.SlotAt(shape.Idx(node)))) else old(History())
    {
      if node.None? {
        return -1;
      }
      var pos := shape.Idx(node);
      DivMul(pos, shape.NodeSize(), shape.maxobjs);
      var i := shape.SlotAt(pos);
      if !used[i] {
        return -1;
      }
      ghost var q := queue;
      ChainAppend(shape, next[..], q, i);
      next[i] := -1;
      used[i] := false;
      if freed < 1 {
        front := shape.Idx(node);
        rear := front;
      } else {
        assert q[|q| - 1] in q;
        PosIsSlot(shape, q[|q| - 1]);
        next[shape.SlotAt(rear)] := shape.Idx(node);
        rear := shape.Idx(node);
      }
      freed := freed + 1;
      FifoStep(shape.maxobjs, History(), PutOp(i));
      queue, returned := queue + [i], returned + [i];
      ret := 0;
    }
  }

  // ---------------------------------------------------------------- whole runs

  datatype Op = GetOp | PutOp(slot: nat)

  /** The free queue, the slots issued and the slots taken back so far. */
  datatype Trace = Trace(queue: seq<nat>, issued: seq<nat>, returned: seq<nat>)

  /** What Get and Put do to the queue, as their contracts say; a put of a free slot is refused. */
  function Step(t: Trace, op: Op): Trace {
    match op
    case GetOp => if t.queue == [] then t else t.(queue := t.queue[1..], issued := t.issued + [t.queue[0]])
    case PutOp(i) => if i in t.queue then t else t.(queue := t.queue + [i], returned := t.returned + [i])
  }

  function RunOps(t: Trace, ops: seq<Op>): Trace
    decreases |ops|
  {
    if ops == [] then t else RunOps(Step(t, ops[0]), ops[1..])
  }

  ghost predicate Fifo(n: nat, t: Trace) {
    NoDup(t.queue) && (forall i :: i in t.queue ==> i < n) && t.issued + t.queue == Upto(n) + t.returned
  }

  lemma FifoStep(n: nat, t: Trace, op: Op)
    requires Fifo(n, t) && (op.PutOp? ==> op.slot < n)
    ensures Fifo(n, Step(t, op))
  {
    match op {
      case GetOp =>
        if t.queue != [] {
          HeadAndRest(t.queue);
          assert t.issued + [t.queue[0]] + t.queue[1..] == t.issued + t.queue;
        }
      case PutOp(i) =>
        if i !in t.queue {
          assert t.issued + (t.queue + [i]) == t.issued + t.queue + [i];
        }
    }
  }

  /**
    Every run: slots are issued in the order 0, 1, ... and then in the order of their return,
    and a free slot is never queued twice, so none is issued while it is out.
   */
  lemma {:induction false} FifoRun(n: nat, t: Trace, ops: seq<Op>)
    requires Fifo(n, t) && forall k :: 0 <= k < |ops| && ops[k].PutOp? ==> ops[k].slot < n
    ensures Fifo(n, RunOps(t, ops))
    decreases |ops|
  {
    if ops != [] {
      FifoStep(n, t, ops[0]);
      FifoRun(n, Step(t, ops[0]), ops[1..]);
    }
  }

  lemma PoolRunsAreFifo(n: nat, ops: seq<Op>)
    requires forall k :: 0 <= k < |ops| && ops[k].PutOp? ==> ops[k].slot < n
    ensures Fifo(n, RunOps(Trace(Upto(n), [], []), ops))
  {
    assert [] + Upto(n) == Upto(n) + [];
    FifoRun(n, Trace(Upto(n), [], []), ops);
  }
}
