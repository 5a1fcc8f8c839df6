/**
  The log device of miglog.c. First the linked queue and its three operations, then the
  device calls of any number of writers and readers, cut into the steps between which other
  threads may run: the size is read outside the lock, and inside it a message is linked
  before it is counted.
 */
module Miglog {
  import opened SeqFacts
  import opened Runs

  const MIGLOG_MAXLEN: nat := 1024
  const MIGLOG_MAXLOG: nat := 8192
  const SIZE_T: nat := 8

  // ---------------------------------------------------------------- the linked queue

  type Hdr = nat

  /** Following `next` from `head` visits `s` and ends at `tail`. */
  ghost predicate Queued(head: Option<Hdr>, tail: Option<Hdr>, next: map<Hdr, Option<Hdr>>, s: seq<Hdr>) {
    && NoDup(s)
    && (forall m :: m in s ==> m in next)
    && (forall i, j :: 0 <= i < |s| && 0 <= j < |s| && j == i + 1 ==> next[s[i]] == Some(s[j]))
    && (if s == [] then head == None && tail == None
        else head == Some(s[0]) && tail == Some(s[|s| - 1]) && next[s[|s| - 1]] == None)
  }

  class Queue {
    var head: Option<Hdr>
    var tail: Option<Hdr>
    var next: map<Hdr, Option<Hdr>>
    var size: int
    ghost var items: seq<Hdr>

    ghost predicate Valid()
      reads this
    {
      Queued(head, tail, next, items) && size == |items|
    }

    constructor ()
      ensures Valid() && items == []
    {
      head, tail, next, size, items := None, None, map[], 0, [];
    }

    method Add(msg: Hdr)
      requires Valid() && msg !in items
      modifies this
      ensures Valid() && items == old(items) + [msg]
    {
      if tail.Some? {
        assert items[|items| - 1] in items;
        next := next[tail.value := Some(msg)];
      }
      next := next[msg := None];
      tail := Some(msg);
      if head.None? {
        head := Some(msg);
      }
      size := size + 1;
      items := items + [msg];
    }

    method Del() returns (msg: Option<Hdr>)
      requires Valid()
      modifies this
      ensures Valid()
      ensures if old(items) == [] then msg == None && items == []
              else msg == Some(old(items)[0]) && items == old(items)[1..]
    {
      assert |items| > 1 ==> next[items[0]] == Some(items[1]);
      assert items != [] ==> items[0] in items;
      msg := head;
      head := if head.Some? then next[head.value] else None;
      if head.None? {
        tail := None;
      }
      if msg.Some? {
        size := size - 1;
        items := items[1..];
      }
    }

    /** miglog_queue_clear: takes out every message; `freed` lists them. */
    method Clear() returns (freed: seq<Hdr>)
      requires Valid()
      modifies this
      ensures Valid() && items == [] && freed == old(items)
    {
      freed := [];
      while size > 0
        invariant Valid() && freed + items == old(items)
        decreases size
      {
        var msg := Del();
        freed := freed + [msg.value];
      }
    }
  }

  // ---------------------------------------------------------------- concurrent writers and readers

  type Bytes = seq<nat>

  /** `msg` is the beginning of `buf`, cut at MIGLOG_MAXLEN and nowhere before. */
  predicate IsHeadOf(msg: Bytes, buf: Bytes) {
    msg <= buf && |msg| <= MIGLOG_MAXLEN && (|msg| < MIGLOG_MAXLEN ==> msg == buf)
  }

  /** The bytes a write of `buf` stores. */
  function Kept(buf: Bytes): (r: Bytes)
    ensures IsHeadOf(r, buf)
  {
    if |buf| > MIGLOG_MAXLEN then buf[..MIGLOG_MAXLEN] else buf
  }

  /** Where a writer stands in miglog_write. */
  datatype Writer =
    | WIdle
    | WReady(buf: Bytes)   // has seen room; its message may still fail for want of memory
    | WLocked(buf: Bytes)  // holds the lock
    | WLinked              // the message is in the list but not yet counted
    | WCounted             // about to unlock

  /** Where a reader stands in miglog_read. */
  datatype Reader =
    | RIdle
    | RReady                       // has seen a nonzero size
    | RLocked
    | RUnlinked(got: Option<Bytes>)  // the message is out of the list but still counted
    | RCounted(got: Option<Bytes>)
    | RHolding(msg: Bytes)           // out of the lock, about to copy to the user

  datatype Lock = Unlocked | ByWriter(w: nat) | ByReader(r: nat)

  /**
    `acquired` lists the buffers passed to miglog_write in the order in which their writers
    took the lock; `removed` lists the messages taken out, each with the reader that took it;
    `returned` lists what users were given, each with its reader.
   */
  datatype Device = Device(queue: seq<Bytes>, size: int, lock: Lock, writers: seq<Writer>, readers: seq<Reader>,
                           acquired: seq<Bytes>, removed: seq<(nat, Bytes)>, returned: seq<(nat, Bytes)>)

  datatype Step =
    | WCheck(w: nat, buf: Bytes) | WFail(w: nat) | WLock(w: nat) | WLink(w: nat) | WCount(w: nat) | WUnlock(w: nat)
    | RCheck(r: nat) | RLock(r: nat) | RUnlink(r: nat) | RCount(r: nat) | RUnlock(r: nat)
    | RCopy(r: nat, len: nat, ok: bool)

  predicate Enabled(d: Device, t: Step) {
    match t
    case WCheck(w, _) => w < |d.writers| && d.writers[w].WIdle?
    case WFail(w) => w < |d.writers| && d.writers[w].WReady?
    case WLock(w) => w < |d.writers| && d.writers[w].WReady? && d.lock == Unlocked
    case WLink(w) => w < |d.writers| && d.writers[w].WLocked?
    case WCount(w) => w < |d.writers| && d.writers[w].WLinked?
    case WUnlock(w) => w < |d.writers| && d.writers[w].WCounted?
    case RCheck(r) => r < |d.readers| && d.readers[r].RIdle?
    case RLock(r) => r < |d.readers| && d.readers[r].RReady? && d.lock == Unlocked
    case RUnlink(r) => r < |d.readers| && d.readers[r].RLocked?
    case RCount(r) => r < |d.readers| && d.readers[r].RUnlinked?
    case RUnlock(r) => r < |d.readers| && d.readers[r].RCounted?
    case RCopy(r, _, _) => r < |d.readers| && d.readers[r].RHolding?
  }

  /** The value of a size_t as it lies in memory, lowest byte first. */
  function Stored(n: nat, bytes: nat): (r: Bytes)
    ensures |r| == bytes
  {
    if bytes == 0 then [] else [n % 256] + Stored(n / 256, bytes - 1)
  }

  /** What a read copies from: the four bytes before the data, which end the `length` field, and the data. */
  function Framed(msg: Bytes, sizeT: nat): Bytes
    requires sizeT >= 4
  {
    Stored(|msg|, sizeT)[sizeT - 4..] + msg
  }

  /** The bytes a read with a buffer of `len` gives the user. */
  function ForUser(msg: Bytes, len: nat): (r: Bytes)
    ensures r <= Framed(msg, SIZE_T) && |r| <= len && (|r| < len ==> r == Framed(msg, SIZE_T))
  {
    var all := Framed(msg, SIZE_T);
    if len < |msg| + 4 then all[..len] else all
  }

  /** `WFail` is a writer that leaves after the size check: kmalloc or copy_from_user failed. */
  function Do(d: Device, t: Step): Device {
    if !Enabled(d, t) then d else
    match t
    case WCheck(w, buf) =>
      if d.size >= MIGLOG_MAXLOG then d else d.(writers := d.writers[w := WReady(buf)])
    case WFail(w) => d.(writers := d.writers[w := WIdle])
    case WLock(w) =>
      d.(lock := ByWriter(w), writers := d.writers[w := WLocked(d.writers[w].buf)],
         acquired := d.acquired + [d.writers[w].buf])
    case WLink(w) => d.(queue := d.queue + [Kept(d.writers[w].buf)], writers := d.writers[w := WLinked])
    case WCount(w) => d.(size := d.size + 1, writers := d.writers[w := WCounted])
    case WUnlock(w) => d.(lock := Unlocked, writers := d.writers[w := WIdle])
    case RCheck(r) => if d.size == 0 then d else d.(readers := d.readers[r := RReady])
    case RLock(r) => d.(lock := ByReader(r), readers := d.readers[r := RLocked])
    case RUnlink(r) =>
      if d.queue == [] then d.(readers := d.readers[r := RUnlinked(None)])
      else d.(queue := d.queue[1..], readers := d.readers[r := RUnlinked(Some(d.queue[0]))],
              removed := d.removed + [(r, d.queue[0])])
    case RCount(r) =>
      d.(size := if d.readers[r].got.Some? then d.size - 1 else d.size, readers := d.readers[r := RCounted(d.readers[r].got)])
    case RUnlock(r) =>
      var got := d.readers[r].got;
      d.(lock := Unlocked, readers := d.readers[r := if got.Some? then RHolding(got.value) else RIdle])
    case RCopy(r, len, ok) =>
      d.(readers := d.readers[r := RIdle],
         returned := if ok then d.returned + [(r, ForUser(d.readers[r].msg, len))] else d.returned)
  }

  predicate Pending(w: Writer) {
    w.WReady? || w.WLocked? || w.WLinked?
  }

  /** Writers that have passed the size check but have not been counted yet. */
  function PendingCount(ws: seq<Writer>): nat {
    if ws == [] then 0 else (if Pending(ws[0]) then 1 else 0) + PendingCount(ws[1..])
  }

  lemma {:induction false} PendingUpdate(ws: seq<Writer>, i: nat, w: Writer)
    requires i < |ws|
    ensures PendingCount(ws[i := w]) ==
            PendingCount(ws) + (if Pending(w) then 1 else 0) - (if Pending(ws[i]) then 1 else 0)
  {
    if i == 0 {
      assert ws[i := w][1..] == ws[1..];
    } else {
      assert ws[i := w][1..] == ws[1..][i - 1 := w];
      PendingUpdate(ws[1..], i - 1, w);
    }
  }

  lemma {:induction false} PendingBound(ws: seq<Writer>)
    ensures PendingCount(ws) <= |ws|
    ensures forall i :: 0 <= i < |ws| && Pending(ws[i]) ==> PendingCount(ws) >= 1
  {
    if ws != [] {
      PendingBound(ws[1..]);
      forall i | 0 <= i < |ws| && Pending(ws[i])
        ensures PendingCount(ws) >= 1
      {
        if i > 0 {
          assert ws[1..][i - 1] == ws[i];
        }
      }
    }
  }

  predicate HoldsW(w: Writer) {
    w.WLocked? || w.WLinked? || w.WCounted?
  }

  predicate HoldsR(r: Reader) {
    r.RLocked? || r.RUnlinked? || r.RCounted?
  }

  /** The lock variable names exactly the thread inside the critical section. */
  ghost predicate LockOk(d: Device) {
    && (d.lock.ByWriter? ==> d.lock.w < |d.writers|)
    && (d.lock.ByReader? ==> d.lock.r < |d.readers|)
    && (forall i :: 0 <= i < |d.writers| ==> (HoldsW(d.writers[i]) <==> d.lock == ByWriter(i)))
    && (forall i :: 0 <= i < |d.readers| ==> (HoldsR(d.readers[i]) <==> d.lock == ByReader(i)))
  }

  /** How many linked messages the size does not count yet (or still counts, when negative). */
  function Uncounted(d: Device): int
    requires d.lock.ByWriter? ==> d.lock.w < |d.writers|
    requires d.lock.ByReader? ==> d.lock.r < |d.readers|
  {
    match d.lock
    case Unlocked => 0
    case ByWriter(w) => if d.writers[w].WLinked? then 1 else 0
    case ByReader(r) => if d.readers[r].RUnlinked? && d.readers[r].got.Some? then -1 else 0
  }

  /** The message of the lock holder that is not in the list yet. */
  function InHand(d: Device): seq<Bytes>
    requires d.lock.ByWriter? ==> d.lock.w < |d.writers|
  {
    if d.lock.ByWriter? && d.writers[d.lock.w].WLocked? then [Kept(d.writers[d.lock.w].buf)] else []
  }

  function Messages(removed: seq<(nat, Bytes)>): (r: seq<Bytes>)
    ensures |r| == |removed|
  {
    if removed == [] then [] else Messages(removed[..|removed| - 1]) + [removed[|removed| - 1].1]
  }

  function KeptAll(bufs: seq<Bytes>): (r: seq<Bytes>)
    ensures |r| == |bufs|
    ensures forall i :: 0 <= i < |bufs| ==> r[i] == Kept(bufs[i])
  {
    seq(|bufs|, i requires 0 <= i < |bufs| => Kept(bufs[i]))
  }

  /** Taken out, listed and in hand: together just what was written, in order, each cut to its length. */
  ghost predicate Ordered(d: Device)
    requires LockOk(d)
  {
    Messages(d.removed) + d.queue + InHand(d) == KeptAll(d.acquired)
  }

  /** The message a reader has taken out and not yet copied. */
  function Got(r: Reader): Option<Bytes> {
    match r
    case RUnlinked(got) => got
    case RCounted(got) => got
    case RHolding(msg) => Some(msg)
    case _ => None
  }

  /** The message reader `r` took out last. */
  function LastTaken(removed: seq<(nat, Bytes)>, r: nat): Option<Bytes> {
    if removed == [] then None
    else
      var z := |removed| - 1;
      if removed[z].0 == r then Some(removed[z].1) else LastTaken(removed[..z], r)
  }

  /** What a reader has in hand is the very message it took out, the newest removal while it has the lock. */
  ghost predicate Handed(d: Device) {
    && (forall r :: 0 <= r < |d.readers| && Got(d.readers[r]).Some? ==> LastTaken(d.removed, r) == Got(d.readers[r]))
    && (forall r :: 0 <= r < |d.readers| && d.readers[r].RUnlinked? && d.readers[r].got.Some? ==>
          d.removed != [] && d.removed[|d.removed| - 1] == (r, d.readers[r].got.value))
  }

  /** What a user was given is the beginning of some message its reader took out, with the four bytes before it. */
  ghost predicate GivenFrom(removed: seq<(nat, Bytes)>, e: (nat, Bytes)) {
    exists j :: 0 <= j < |removed| && removed[j].0 == e.0 && e.1 <= Framed(removed[j].1, SIZE_T)
  }

  ghost predicate AllGiven(d: Device) {
    forall k :: 0 <= k < |d.returned| ==> GivenFrom(d.removed, d.returned[k])
  }

  ghost predicate Inv(d: Device) {
    && LockOk(d)
    && d.size + Uncounted(d) == |d.queue|
    && d.size + PendingCount(d.writers) <= MIGLOG_MAXLOG - 1 + |d.writers|
    && Ordered(d)
    && Handed(d)
    && AllGiven(d)
  }

  lemma LockStep(d: Device, t: Step)
    requires LockOk(d) && Enabled(d, t)
    ensures LockOk(Do(d, t))
  {
  }

  lemma CountStep(d: Device, t: Step)
    requires LockOk(d) && Enabled(d, t) && d.size + Uncounted(d) == |d.queue|
    ensures LockOk(Do(d, t)) && Do(d, t).size + Uncounted(Do(d, t)) == |Do(d, t).queue|
  {
    LockStep(d, t);
  }

  lemma RoomStep(d: Device, t: Step)
    requires Enabled(d, t) && d.size + PendingCount(d.writers) <= MIGLOG_MAXLOG - 1 + |d.writers|
    ensures var e := Do(d, t);
            |e.writers| == |d.writers| && e.size + PendingCount(e.writers) <= MIGLOG_MAXLOG - 1 + |e.writers|
  {
    var e := Do(d, t);
    PendingBound(e.writers);
    match t {
      case WCheck(w, buf) => PendingUpdate(d.writers, w, WReady(buf));
      case WFail(w) => PendingUpdate(d.writers, w, WIdle);
      case WLock(w) => PendingUpdate(d.writers, w, WLocked(d.writers[w].buf));
      case WLink(w) => PendingUpdate(d.writers, w, WLinked);
      case WCount(w) => PendingUpdate(d.writers, w, WCounted);
      case WUnlock(w) => PendingUpdate(d.writers, w, WIdle);
      case _ =>
    }
  }

  lemma OrderLock(d: Device, w: nat)
    requires LockOk(d) && Ordered(d) && Enabled(d, WLock(w)) && LockOk(Do(d, WLock(w)))
    ensures Ordered(Do(d, WLock(w)))
  {
    var buf := d.writers[w].buf;
    assert InHand(d) == [];
    assert KeptAll(d.acquired + [buf]) == KeptAll(d.acquired) + [Kept(buf)];
  }

  lemma OrderLink(d: Device, w: nat)
    requires LockOk(d) && Ordered(d) && Enabled(d, WLink(w)) && LockOk(Do(d, WLink(w)))
    ensures Ordered(Do(d, WLink(w)))
  {
    var m, msg := Messages(d.removed), Kept(d.writers[w].buf);
    assert HoldsW(d.writers[w]);
    assert InHand(d) == [msg];
    assert m + d.queue + [msg] == m + (d.queue + [msg]) + [];
  }

  lemma OrderUnlink(d: Device, r: nat)
    requires LockOk(d) && Ordered(d) && Enabled(d, RUnlink(r)) && LockOk(Do(d, RUnlink(r)))
    ensures Ordered(Do(d, RUnlink(r)))
  {
    assert HoldsR(d.readers[r]);
    if d.queue != [] {
      MessagesAdd(d.removed, (r, d.queue[0]));
      MoveOver(Messages(d.removed), d.queue);
    }
  }

  lemma MessagesAdd(removed: seq<(nat, Bytes)>, e: (nat, Bytes))
    ensures Messages(removed + [e]) == Messages(removed) + [e.1]
  {
    assert (removed + [e])[..|removed|] == removed;
  }

  lemma MoveOver(m: seq<Bytes>, q: seq<Bytes>)
    requires q != []
    ensures m + q + [] == m + [q[0]] + q[1..] + []
  {
    assert q == [q[0]] + q[1..];
  }

  lemma SameInHand(d: Device, t: Step)
    requires LockOk(d) && Enabled(d, t) && LockOk(Do(d, t)) && !t.WLock? && !t.WLink?
    ensures InHand(Do(d, t)) == InHand(d)
  {
  }

  lemma SameLists(d: Device, t: Step)
    requires Enabled(d, t) && !t.WLock? && !t.WLink? && !t.RUnlink?
    ensures var e := Do(d, t); e.removed == d.removed && e.queue == d.queue && e.acquired == d.acquired
  {
  }

  lemma OrderOther(d: Device, t: Step)
    requires LockOk(d) && Ordered(d) && Enabled(d, t) && LockOk(Do(d, t)) && !t.WLock? && !t.WLink? && !t.RUnlink?
    ensures Ordered(Do(d, t))
  {
    SameInHand(d, t);
    SameLists(d, t);
  }

  lemma OrderStep(d: Device, t: Step)
    requires LockOk(d) && Ordered(d) && Enabled(d, t)
    ensures LockOk(Do(d, t)) && Ordered(Do(d, t))
  {
    LockStep(d, t);
    match t {
      case WLock(w) => OrderLock(d, w);
      case WLink(w) => OrderLink(d, w);
      case RUnlink(r) => OrderUnlink(d, r);
      case _ => OrderOther(d, t);
    }
  }

  lemma LastTakenAdd(removed: seq<(nat, Bytes)>, e: (nat, Bytes), r: nat)
    ensures LastTaken(removed + [e], r) == if e.0 == r then Some(e.1) else LastTaken(removed, r)
  {
    assert (removed + [e])[..|removed|] == removed;
  }

  lemma HandedUnlink(d: Device, r: nat)
    requires LockOk(d) && Handed(d) && Enabled(d, RUnlink(r))
    ensures Handed(Do(d, RUnlink(r)))
  {
    assert HoldsR(d.readers[r]);
    var e := Do(d, RUnlink(r));
    if d.queue != [] {
      forall k | 0 <= k < |e.readers| && Got(e.readers[k]).Some?
        ensures LastTaken(e.removed, k) == Got(e.readers[k])
      {
        LastTakenAdd(d.removed, (r, d.queue[0]), k);
      }
    }
    forall k | 0 <= k < |e.readers| && e.readers[k].RUnlinked?
      ensures k == r
    {
      assert k != r ==> HoldsR(d.readers[k]);
    }
  }

  lemma HandedStep(d: Device, t: Step)
    requires LockOk(d) && Handed(d) && Enabled(d, t)
    ensures Handed(Do(d, t))
  {
    if t.RUnlink? {
      HandedUnlink(d, t.r);
    }
  }

  lemma {:induction false} LastTakenIn(removed: seq<(nat, Bytes)>, r: nat)
    requires LastTaken(removed, r).Some?
    ensures exists j :: 0 <= j < |removed| && removed[j] == (r, LastTaken(removed, r).value)
  {
    var z := |removed| - 1;
    if removed[z].0 != r {
      LastTakenIn(removed[..z], r);
      var j :| 0 <= j < z && removed[..z][j] == (r, LastTaken(removed[..z], r).value);
      assert removed[j] == removed[..z][j];
    } else {
      assert removed[z] == (r, LastTaken(removed, r).value);
    }
  }

  lemma GivenLater(removed: seq<(nat, Bytes)>, m: (nat, Bytes), e: (nat, Bytes))
    requires GivenFrom(removed, e)
    ensures GivenFrom(removed + [m], e)
  {
    var j :| 0 <= j < |removed| && removed[j].0 == e.0 && e.1 <= Framed(removed[j].1, SIZE_T);
    assert (removed + [m])[j] == removed[j];
  }

  lemma GivenNow(removed: seq<(nat, Bytes)>, r: nat, msg: Bytes, len: nat)
    requires LastTaken(removed, r) == Some(msg)
    ensures GivenFrom(removed, (r, ForUser(msg, len)))
  {
    LastTakenIn(removed, r);
    var j :| 0 <= j < |removed| && removed[j] == (r, msg);
  }

  lemma GivenStep(d: Device, t: Step)
    requires Handed(d) && AllGiven(d) && Enabled(d, t)
    ensures AllGiven(Do(d, t))
  {
    var e := Do(d, t);
    if t.RUnlink? && d.queue != [] {
      forall k | 0 <= k < |e.returned|
        ensures GivenFrom(e.removed, e.returned[k])
      {
        GivenLater(d.removed, (t.r, d.queue[0]), d.returned[k]);
      }
    } else if t.RCopy? {
      assert Got(d.readers[t.r]) == Some(d.readers[t.r].msg);
      GivenNow(d.removed, t.r, d.readers[t.r].msg, t.len);
    }
  }

  lemma InvStep(d: Device, t: Step)
    requires Inv(d) && Enabled(d, t)
    ensures Inv(Do(d, t))
  {
    CountStep(d, t);
    RoomStep(d, t);
    OrderStep(d, t);
    HandedStep(d, t);
    GivenStep(d, t);
  }

  function Start(writers: nat, readers: nat): Device {
    Device([], 0, Unlocked, seq(writers, _ => WIdle), seq(readers, _ => RIdle), [], [], [])
  }

  predicate Possible(d: Device, ts: seq<Step>) {
    Allowed(Enabled, Do, d, ts)
  }

  function Run(d: Device, ts: seq<Step>): Device {
    After(Do, d, ts)
  }

  lemma {:induction false} InvRun(d: Device, ts: seq<Step>)
    requires Inv(d) && Possible(d, ts)
    ensures Inv(Run(d, ts)) && |Run(d, ts).writers| == |d.writers|
    decreases |ts|
  {
    if ts != [] {
      InvStep(d, ts[0]);
      InvRun(Do(d, ts[0]), ts[1..]);
    }
  }

  lemma {:induction false} NonePending(n: nat)
    ensures PendingCount(seq(n, _ => WIdle)) == 0
  {
    if n > 0 {
      assert seq(n, _ => WIdle)[1..] == seq(n - 1, _ => WIdle);
      NonePending(n - 1);
    }
  }

  lemma {:induction false} MessagesAt(removed: seq<(nat, Bytes)>, i: nat)
    requires i < |removed|
    ensures Messages(removed)[i] == removed[i].1
  {
    if i < |removed| - 1 {
      MessagesAt(removed[..|removed| - 1], i);
    }
  }

  /** Position by position, what was taken out and what is listed is cut from what was written. */
  lemma HeadsOf(d: Device)
    requires LockOk(d) && Ordered(d)
    ensures |d.removed| + |d.queue| <= |d.acquired|
    ensures forall i :: 0 <= i < |d.removed| ==> IsHeadOf(d.removed[i].1, d.acquired[i])
    ensures forall i :: 0 <= i < |d.queue| ==> IsHeadOf(d.queue[i], d.acquired[|d.removed| + i])
    ensures d.lock == Unlocked ==> |d.removed| + |d.queue| == |d.acquired|
  {
    var all := Messages(d.removed) + d.queue + InHand(d);
    assert |all| == |d.acquired|;
    forall i | 0 <= i < |d.removed|
      ensures IsHeadOf(d.removed[i].1, d.acquired[i])
    {
      MessagesAt(d.removed, i);
      assert all[i] == d.removed[i].1;
    }
    forall i | 0 <= i < |d.queue|
      ensures IsHeadOf(d.queue[i], d.acquired[|d.removed| + i])
    {
      assert all[|d.removed| + i] == d.queue[i];
    }
  }

  /**
    What a device with W writers promises at every moment: the list never holds more than
    MIGLOG_MAXLOG - 1 + W messages, the size is the list's length whenever nobody holds the
    lock, the messages come out in the order in which their writers took the lock, each to one
    reader, and each is the first MIGLOG_MAXLEN bytes written, or all of them if there were
    fewer. A reader holds the message it took out, and its user gets nothing but the beginning
    of it behind four bytes.
   */
  ghost predicate Promised(d: Device) {
    && |d.queue| <= MIGLOG_MAXLOG - 1 + |d.writers|
    && (d.lock == Unlocked ==> d.size == |d.queue| && |d.removed| + |d.queue| == |d.acquired|)
    && |d.removed| + |d.queue| <= |d.acquired|
    && (forall i :: 0 <= i < |d.removed| ==> IsHeadOf(d.removed[i].1, d.acquired[i]))
    && (forall i :: 0 <= i < |d.queue| ==> IsHeadOf(d.queue[i], d.acquired[|d.removed| + i]))
    && (forall r :: 0 <= r < |d.readers| && Got(d.readers[r]).Some? ==> LastTaken(d.removed, r) == Got(d.readers[r]))
    && (forall k :: 0 <= k < |d.returned| ==> GivenFrom(d.removed, d.returned[k]))
  }

  lemma StartOk(writers: nat, readers: nat)
    ensures Inv(Start(writers, readers)) && |Start(writers, readers).writers| == writers
  {
    NonePending(writers);
  }

  lemma InvPromises(d: Device)
    requires Inv(d)
    ensures Promised(d)
  {
    BoundOf(d);
    HeadsOf(d);
  }

  /** That holds after every interleaving of the steps of any writers, failing ones included, and any readers. */
  lemma EveryInterleaving(writers: nat, readers: nat, ts: seq<Step>)
    requires Possible(Start(writers, readers), ts)
    ensures Promised(Run(Start(writers, readers), ts)) && |Run(Start(writers, readers), ts).writers| == writers
  {
    StartOk(writers, readers);
    InvRun(Start(writers, readers), ts);
    InvPromises(Run(Start(writers, readers), ts));
  }

  lemma BoundOf(d: Device)
    requires LockOk(d) && d.size + Uncounted(d) == |d.queue|
    requires d.size + PendingCount(d.writers) <= MIGLOG_MAXLOG - 1 + |d.writers|
    ensures |d.queue| <= MIGLOG_MAXLOG - 1 + |d.writers|
    ensures d.lock == Unlocked ==> d.size == |d.queue|
  {
    if d.lock.ByWriter? {
      PendingBound(d.writers);
    }
  }
  /** How many writers have passed the size check with `buf` but not yet taken the lock. */
  function Waiting(ws: seq<Writer>, buf: Bytes): nat {
    if ws == [] then 0 else WaitsWith(ws[0], buf) + Waiting(ws[1..], buf)
  }

  function WaitsWith(w: Writer, buf: Bytes): nat {
    if w == WReady(buf) then 1 else 0
  }

  /** How often `buf` is passed to miglog_write in a run. */
  function Passed(ts: seq<Step>, buf: Bytes): nat {
    if ts == [] then 0 else PassedBy(ts[0], buf) + Passed(ts[1..], buf)
  }

  function PassedBy(t: Step, buf: Bytes): nat {
    if t.WCheck? && t.buf == buf then 1 else 0
  }

  lemma {:induction false} WaitingUpdate(ws: seq<Writer>, i: nat, w: Writer, buf: Bytes)
    requires i < |ws|
    ensures Waiting(ws[i := w], buf) == Waiting(ws, buf) + WaitsWith(w, buf) - WaitsWith(ws[i], buf)
  {
    if i == 0 {
      assert ws[i := w][1..] == ws[1..];
    } else {
      assert ws[i := w][1..] == ws[1..][i - 1 := w];
      WaitingUpdate(ws[1..], i - 1, w, buf);
    }
  }

  /** How often `buf` has been taken over from callers so far and not been given up. */
  function Taken(d: Device, buf: Bytes): nat {
    multiset(d.acquired)[buf] + Waiting(d.writers, buf)
  }

  lemma TakenStep(d: Device, t: Step, buf: Bytes)
    requires Enabled(d, t)
    ensures Taken(Do(d, t), buf) <= Taken(d, buf) + PassedBy(t, buf)
  {
    match t {
      case WCheck(w, b) => WaitingUpdate(d.writers, w, WReady(b), buf);
      case WFail(w) => WaitingUpdate(d.writers, w, WIdle, buf);
      case WLock(w) => WaitingUpdate(d.writers, w, WLocked(d.writers[w].buf), buf);
      case WLink(w) => WaitingUpdate(d.writers, w, WLinked, buf);
      case WCount(w) => WaitingUpdate(d.writers, w, WCounted, buf);
      case WUnlock(w) => WaitingUpdate(d.writers, w, WIdle, buf);
      case _ =>
    }
  }

  lemma {:induction false} TakenRun(d: Device, ts: seq<Step>, buf: Bytes)
    requires Possible(d, ts)
    ensures Taken(Run(d, ts), buf) <= Taken(d, buf) + Passed(ts, buf)
    decreases |ts|
  {
    if ts != [] {
      TakenStep(d, ts[0], buf);
      TakenRun(Do(d, ts[0]), ts[1..], buf);
    }
  }

  lemma {:induction false} NoneWaiting(n: nat, buf: Bytes)
    ensures Waiting(seq(n, _ => WIdle), buf) == 0
  {
    if n > 0 {
      assert seq(n, _ => WIdle)[1..] == seq(n - 1, _ => WIdle);
      NoneWaiting(n - 1, buf);
    }
  }

  /** Nothing is invented or doubled: every write of the run accounts for at most one buffer that a message is cut from. */
  lemma OnlyWritten(writers: nat, readers: nat, ts: seq<Step>, buf: Bytes)
    requires Possible(Start(writers, readers), ts)
    ensures var d := Run(Start(writers, readers), ts);
            multiset(d.acquired)[buf] + Waiting(d.writers, buf) <= Passed(ts, buf)
  {
    NoneWaiting(writers, buf);
    TakenRun(Start(writers, readers), ts, buf);
  }

  // ---------------------------------------------------------------- calls with nobody in between

  /** miglog_read on a log that is not empty: the reader gets the oldest message, the user all of it that fits. */
  lemma ReadAlone(d: Device, r: nat, len: nat) returns (ts: seq<Step>)
    requires r < |d.readers| && d.readers[r].RIdle? && d.lock == Unlocked && d.queue != [] && d.size == |d.queue|
    ensures ts == [RCheck(r), RLock(r), RUnlink(r), RCount(r), RUnlock(r), RCopy(r, len, true)]
    ensures Possible(d, ts[..3]) && Run(d, ts[..3]).readers == d.readers[r := RUnlinked(Some(d.queue[0]))]
    ensures Run(d, ts[..3]).queue == d.queue[1..]
    ensures Possible(d, ts)
    ensures Run(d, ts) == d.(queue := d.queue[1..], size := d.size - 1, removed := d.removed + [(r, d.queue[0])],
                             returned := d.returned + [(r, ForUser(d.queue[0], len))])
  {
    ts := [];
    AfterThen(Enabled, Do, d, ts, RCheck(r));
    ts := ts + [RCheck(r)];
    AfterThen(Enabled, Do, d, ts, RLock(r));
    ts := ts + [RLock(r)];
    AfterThen(Enabled, Do, d, ts, RUnlink(r));
    ts := ts + [RUnlink(r)];
    ghost var three := ts;
    AfterThen(Enabled, Do, d, ts, RCount(r));
    ts := ts + [RCount(r)];
    AfterThen(Enabled, Do, d, ts, RUnlock(r));
    ts := ts + [RUnlock(r)];
    AfterThen(Enabled, Do, d, ts, RCopy(r, len, true));
    ts := ts + [RCopy(r, len, true)];
    assert ts[..3] == three;
    assert Run(d, ts).readers == d.readers;
  }

  /** miglog_write on a log with room: the message is the newest one, cut to its length. */
  lemma WriteAlone(d: Device, w: nat, buf: Bytes) returns (ts: seq<Step>)
    requires w < |d.writers| && d.writers[w].WIdle? && d.lock == Unlocked && d.size < MIGLOG_MAXLOG
    ensures ts == [WCheck(w, buf), WLock(w), WLink(w), WCount(w), WUnlock(w)]
    ensures Possible(d, ts)
    ensures exists msg :: IsHeadOf(msg, buf) &&
                          Run(d, ts) == d.(queue := d.queue + [msg], size := d.size + 1, acquired := d.acquired + [buf])
  {
    ts := [];
    AfterThen(Enabled, Do, d, ts, WCheck(w, buf));
    ts := ts + [WCheck(w, buf)];
    AfterThen(Enabled, Do, d, ts, WLock(w));
    ts := ts + [WLock(w)];
    AfterThen(Enabled, Do, d, ts, WLink(w));
    ts := ts + [WLink(w)];
    AfterThen(Enabled, Do, d, ts, WCount(w));
    ts := ts + [WCount(w)];
    AfterThen(Enabled, Do, d, ts, WUnlock(w));
    ts := ts + [WUnlock(w)];
    assert Run(d, ts).writers == d.writers;
    assert IsHeadOf(Kept(buf), buf);
  }

  /** A full log turns a writer away, an empty one a reader, and nothing changes. */
  lemma TurnedAway(d: Device, i: nat, buf: Bytes)
    ensures i < |d.writers| && d.writers[i].WIdle? && d.size >= MIGLOG_MAXLOG ==> Run(d, [WCheck(i, buf)]) == d
    ensures i < |d.readers| && d.readers[i].RIdle? && d.size == 0 ==> Run(d, [RCheck(i)]) == d
  {
    AfterOne(Enabled, Do, d, WCheck(i, buf));
    AfterOne(Enabled, Do, d, RCheck(i));
  }

  /** A reader that saw a message but finds the list empty under the lock returns with nothing, and nothing changes. */
  lemma ReadTooLate(d: Device, r: nat)
    requires r < |d.readers| && d.readers[r].RReady? && d.lock == Unlocked && d.queue == []
    ensures var ts := [] + [RLock(r)] + [RUnlink(r)] + [RCount(r)] + [RUnlock(r)];
            Possible(d, ts) && Run(d, ts) == d.(readers := d.readers[r := RIdle])
  {
    AfterThen(Enabled, Do, d, [], RLock(r));
    AfterThen(Enabled, Do, d, [] + [RLock(r)], RUnlink(r));
    AfterThen(Enabled, Do, d, [] + [RLock(r)] + [RUnlink(r)], RCount(r));
    AfterThen(Enabled, Do, d, [] + [RLock(r)] + [RUnlink(r)] + [RCount(r)], RUnlock(r));
  }

  /** A call that fails on the way leaves the list alone: the writer adds nothing, the reader's message is lost. */
  lemma FailedCalls(d: Device, i: nat, len: nat)
    ensures i < |d.writers| && d.writers[i].WReady? ==>
              Possible(d, [WFail(i)]) && Run(d, [WFail(i)]) == d.(writers := d.writers[i := WIdle])
    ensures i < |d.readers| && d.readers[i].RHolding? ==>
              Possible(d, [RCopy(i, len, false)]) && Run(d, [RCopy(i, len, false)]) == d.(readers := d.readers[i := RIdle])
  {
    AfterOne(Enabled, Do, d, WFail(i));
    AfterOne(Enabled, Do, d, RCopy(i, len, false));
  }

  // ---------------------------------------------------------------- the four bytes before the data

  /** The number that bytes in memory stand for, lowest byte first. */
  function Value(s: Bytes): nat {
    if s == [] then 0 else s[0] + 256 * Value(s[1..])
  }

  lemma {:induction false} StoredZero(bytes: nat)
    ensures Value(Stored(0, bytes)) == 0 && forall i :: 0 <= i < bytes ==> Stored(0, bytes)[i] == 0
  {
    if bytes > 0 {
      StoredZero(bytes - 1);
      assert Stored(0, bytes)[1..] == Stored(0, bytes - 1);
    }
  }

  lemma StoredSmall(n: nat, bytes: nat)
    requires n < 0x1_0000 && bytes >= 2
    ensures Value(Stored(n, bytes)) == n
    ensures Stored(n, bytes)[2..] == Stored(0, bytes - 2)
  {
    var s := Stored(n, bytes);
    assert n / 256 / 256 == 0 && n / 256 % 256 == n / 256;
    assert s[1..] == Stored(n / 256, bytes - 1);
    assert s[1..][1..] == Stored(0, bytes - 2);
    assert s[2..] == s[1..][1..];
    StoredZero(bytes - 2);
    assert Value(s[1..]) == n / 256;
  }

  /** The four bytes in front of a message are its length exactly where size_t has four bytes; with eight they are 0. */
  lemma PrefixIsLengthExactly(msg: Bytes, sizeT: nat)
    requires (sizeT == 4 || sizeT == 8) && |msg| <= MIGLOG_MAXLEN
    ensures |Framed(msg, sizeT)| == |msg| + 4 && Framed(msg, sizeT)[4..] == msg
    ensures Value(Framed(msg, sizeT)[..4]) == |msg| <==> sizeT == 4 || msg == []
  {
    StoredSmall(|msg|, sizeT);
    var head := Stored(|msg|, sizeT)[sizeT - 4..];
    assert Framed(msg, sizeT)[..4] == head;
    if sizeT == 8 {
      assert head == Stored(|msg|, 8)[2..][2..];
      StoredZero(6);
      StoredZero(4);
      assert head == Stored(0, 4);
    }
  }

  // ---------------------------------------------------------------- the bound is reached

  /** A ready writer adds its message with nobody in between. */
  lemma AddAlone(d: Device, w: nat) returns (ts: seq<Step>)
    requires w < |d.writers| && d.writers[w].WReady? && d.lock == Unlocked
    ensures Possible(d, ts)
    ensures var e := Run(d, ts);
            && |e.queue| == |d.queue| + 1 && e.size == d.size + 1 && e.lock == Unlocked
            && e.writers == d.writers[w := WIdle]
  {
    ts := [];
    AfterThen(Enabled, Do, d, ts, WLock(w));
    ts := ts + [WLock(w)];
    AfterThen(Enabled, Do, d, ts, WLink(w));
    ts := ts + [WLink(w)];
    AfterThen(Enabled, Do, d, ts, WCount(w));
    ts := ts + [WCount(w)];
    AfterThen(Enabled, Do, d, ts, WUnlock(w));
    ts := ts + [WUnlock(w)];
  }

  lemma {:induction false} Fill(d: Device, n: nat) returns (ts: seq<Step>)
    requires d.writers != [] && d.writers[0].WIdle? && d.lock == Unlocked && d.size + n <= MIGLOG_MAXLOG
    ensures Possible(d, ts)
    ensures var e := Run(d, ts);
            |e.queue| == |d.queue| + n && e.size == d.size + n && e.lock == Unlocked && e.writers == d.writers
  {
    ts := [];
    if n > 0 {
      ts := Fill(d, n - 1);
      AfterThen(Enabled, Do, d, ts, WCheck(0, []));
      ts := ts + [WCheck(0, [])];
      var us := AddAlone(Run(d, ts), 0);
      AfterConcat(Enabled, Do, d, ts, us);
      ts := ts + us;
      assert Run(d, ts).writers == d.writers;
    }
  }

  /** The first `k` writers all read the size before any of them adds. */
  lemma {:induction false} AllCheck(d: Device, k: nat) returns (ts: seq<Step>)
    requires k <= |d.writers| && (forall i :: 0 <= i < |d.writers| ==> d.writers[i].WIdle?) && d.size < MIGLOG_MAXLOG
    ensures Possible(d, ts)
    ensures var e := Run(d, ts);
            && e == d.(writers := e.writers) && |e.writers| == |d.writers|
            && (forall i :: 0 <= i < |d.writers| ==> if i < k then e.writers[i].WReady? else e.writers[i].WIdle?)
  {
    ts := [];
    if k > 0 {
      ts := AllCheck(d, k - 1);
      AfterThen(Enabled, Do, d, ts, WCheck(k - 1, []));
      ts := ts + [WCheck(k - 1, [])];
    }
  }

  lemma {:induction false} AllAdd(d: Device, k: nat) returns (ts: seq<Step>)
    requires k <= |d.writers| && (forall i :: 0 <= i < |d.writers| ==> d.writers[i].WReady?) && d.lock == Unlocked
    ensures Possible(d, ts)
    ensures var e := Run(d, ts);
            && |e.queue| == |d.queue| + k && e.lock == Unlocked && |e.writers| == |d.writers|
            && (forall i :: k <= i < |d.writers| ==> e.writers[i].WReady?)
  {
    ts := [];
    if k > 0 {
      ts := AllAdd(d, k - 1);
      var us := AddAlone(Run(d, ts), k - 1);
      AfterConcat(Enabled, Do, d, ts, us);
      ts := ts + us;
    }
  }

  /** For every number of writers some interleaving fills the list to the bound: the size check alone does not hold it at MIGLOG_MAXLOG. */
  lemma BoundIsReached(writers: nat, readers: nat) returns (ts: seq<Step>)
    requires writers >= 1
    ensures Possible(Start(writers, readers), ts)
    ensures |Run(Start(writers, readers), ts).queue| == MIGLOG_MAXLOG - 1 + writers
  {
    var s := Start(writers, readers);
    ts := Fill(s, MIGLOG_MAXLOG - 1);
    var us := AllCheck(Run(s, ts), writers);
    AfterConcat(Enabled, Do, s, ts, us);
    ts := ts + us;
    us := AllAdd(Run(s, ts), writers);
    AfterConcat(Enabled, Do, s, ts, us);
    ts := ts + us;
  }
}
