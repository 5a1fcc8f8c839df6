/**
  The management sockets of admin_socket.c: creation, binding, delivery to groups and
  release, as atomic operations over the global list, newest socket first.
 */
module AdminSockets {
  import opened SeqFacts

  const ADMIN_SOCK_RECV_QLEN: nat := 64

  /** A 32-bit group mask, as the set of its bit positions. */
  type Group = g: set<nat> | forall b :: b in g ==> b < 32

  /** The same in an unsigned long of a 64-bit kernel. */
  type WideGroup = g: set<nat> | forall b :: b in g ==> b < 64

  const TWO32: nat := 0x1_0000_0000
  const TWO64: nat := 0x1_0000_0000_0000_0000

  type Pid = p: nat | p < TWO32
  type WidePid = p: nat | p < TWO64
  type SockId = nat
  type Payload = seq<nat>

  /** The address a socket keeps, admin_opt. */
  datatype Addr = Addr(pid: Pid, group: Group)

  /** The address a caller passes, sockaddr_admin. */
  datatype Wide = Wide(pid: WidePid, group: WideGroup)

  /** What is left of a caller's address once it is stored. */
  function Stored(a: Wide): Addr {
    Addr(a.pid % TWO32, set b | b in a.group && b < 32)
  }

  /** A queued packet: its data, and the sender's address noted at the time of sending. */
  datatype Packet = Packet(data: Payload, from: Addr)

  datatype Sock = Sock(addr: Addr, queue: seq<Packet>)

  /** The masks have a bit in common. */
  predicate Overlap(a: set<nat>, b: set<nat>) {
    exists i :: i in a && i in b
  }

  /** No two sockets share a pid and a group bit. */
  ghost predicate Exclusive(socks: map<SockId, Sock>) {
    forall a, b :: a in socks && b in socks && a != b && socks[a].addr.pid == socks[b].addr.pid ==>
                     !Overlap(socks[a].addr.group, socks[b].addr.group)
  }

  // ---------------------------------------------------------------- who may bind

  /** The test of admin_bind: no other socket has this pid and shares a bit. */
  ghost predicate Bindable(socks: map<SockId, Sock>, sk: SockId, addr: Wide) {
    forall s :: s in socks && s != sk && socks[s].addr.pid == addr.pid ==> !Overlap(socks[s].addr.group, addr.group)
  }

  function Bound(socks: map<SockId, Sock>, sk: SockId, addr: Wide): map<SockId, Sock>
    requires sk in socks
  {
    socks[sk := socks[sk].(addr := Stored(addr))]
  }

  /** Nothing that matters is lost when the address is stored. */
  predicate Storable(addr: Wide) {
    addr.pid < TWO32 || Stored(addr).group == {}
  }

  /** A stored mask meets the same stored masks as the wide one does. */
  lemma BitsKept(g: Group, addr: Wide)
    ensures Overlap(g, addr.group) <==> Overlap(g, Stored(addr).group)
    ensures Overlap(g, addr.group) <==> Overlap(Stored(addr).group, g)
  {
    assert forall i :: i in g && i in addr.group ==> i in Stored(addr).group;
  }

  lemma BindKeeps(socks: map<SockId, Sock>, sk: SockId, addr: Wide)
    requires Exclusive(socks) && sk in socks && Bindable(socks, sk, addr) && Storable(addr)
    ensures Exclusive(Bound(socks, sk, addr))
  {
    var t := Bound(socks, sk, addr);
    forall a, b | a in t && b in t && a != b && t[a].addr.pid == t[b].addr.pid
      ensures !Overlap(t[a].addr.group, t[b].addr.group)
    {
      if a == sk {
        BitsKept(t[b].addr.group, addr);
      } else if b == sk {
        BitsKept(t[a].addr.group, addr);
      }
    }
  }

  /** A pid of more than 32 bits differs from every stored one, so it binds beside the socket it will be stored like. */
  lemma BindBreaks(addr: Wide) returns (socks: map<SockId, Sock>)
    requires !Storable(addr)
    ensures 2 in socks && Exclusive(socks) && Bindable(socks, 2, addr) && !Exclusive(Bound(socks, 2, addr))
  {
    socks := map[1 := Sock(Stored(addr), []), 2 := Sock(Addr(0, {}), [])];
    var b :| b in Stored(addr).group;
    var t := Bound(socks, 2, addr);
    assert Overlap(t[1].addr.group, t[2].addr.group);
  }

  ghost predicate KeepsExclusive(socks: map<SockId, Sock>, sk: SockId, addr: Wide) {
    sk in socks && Exclusive(socks) && Bindable(socks, sk, addr) ==> Exclusive(Bound(socks, sk, addr))
  }

  /** A successful bind keeps pids and group bits exclusive in every situation, exactly for an address that can be stored. */
  lemma BindKeepsExactly(addr: Wide)
    ensures (forall socks, sk :: KeepsExclusive(socks, sk, addr)) <==> Storable(addr)
  {
    if Storable(addr) {
      forall socks: map<SockId, Sock>, sk | sk in socks && Exclusive(socks) && Bindable(socks, sk, addr)
        ensures Exclusive(Bound(socks, sk, addr))
      {
        BindKeeps(socks, sk, addr);
      }
    } else {
      var socks := BindBreaks(addr);
      assert !KeepsExclusive(socks, 2, addr);
    }
  }

  // ---------------------------------------------------------------- who receives

  /** The tests of the delivery loop for one socket. */
  predicate Receives(s: Sock, dest: Wide) {
    && |s.queue| <= ADMIN_SOCK_RECV_QLEN
    && Overlap(dest.group, s.addr.group)
    && (dest.pid == 0 || dest.pid == s.addr.pid)
  }

  /** The mask has no two bits. */
  ghost predicate OneBit(g: Group) {
    forall i, j :: i in g && j in g ==> i == j
  }

  /** A nonzero pid, and one bit among the 32 that sockets have. */
  ghost predicate Single(dest: Wide) {
    dest.pid != 0 && OneBit(Stored(dest).group)
  }

  /** A message to such a destination reaches at most one socket. */
  lemma AtMostOneReceiver(socks: map<SockId, Sock>, dest: Wide, a: SockId, b: SockId)
    requires Exclusive(socks) && a in socks && b in socks && Single(dest)
    requires Receives(socks[a], dest) && Receives(socks[b], dest)
    ensures a == b
  {
    var i :| i in dest.group && i in socks[a].addr.group;
    var j :| j in dest.group && j in socks[b].addr.group;
    assert i in Stored(dest).group && j in Stored(dest).group;
    assert Overlap(socks[a].addr.group, socks[b].addr.group);
  }

  /** Two sockets of `socks` would both take a message to `dest`. */
  ghost predicate Shared(socks: map<SockId, Sock>, dest: Wide) {
    exists a, b :: a in socks && b in socks && a != b && Receives(socks[a], dest) && Receives(socks[b], dest)
  }

  /** Nobody can take a message to `dest`: it has no bit a socket could have, or a pid no socket could have. */
  predicate Unreachable(dest: Wide) {
    Stored(dest).group == {} || dest.pid >= TWO32
  }

  lemma UnreachableReceives(s: Sock, dest: Wide)
    requires Unreachable(dest)
    ensures !Receives(s, dest)
  {
    if Overlap(dest.group, s.addr.group) {
      var i :| i in dest.group && i in s.addr.group;
      assert i in Stored(dest).group;
    }
  }

  /** Two exclusively bound sockets that both take a message to pid 0, or to more than one bit. */
  lemma SharedOtherwise(dest: Wide) returns (socks: map<SockId, Sock>)
    requires !Unreachable(dest) && !Single(dest)
    ensures Exclusive(socks) && Shared(socks, dest)
  {
    var g := Stored(dest).group;
    var i, j :| i in g && j in g && (dest.pid == 0 || i != j);
    var a := Sock(Addr(if dest.pid == 0 then 1 else dest.pid, {i}), []);
    var b := Sock(Addr(if dest.pid == 0 then 2 else dest.pid, {j}), []);
    assert i in a.addr.group && j in b.addr.group;
    socks := map[1 := a, 2 := b];
    assert Receives(socks[1], dest) && Receives(socks[2], dest);
  }

  /** Exclusive binding keeps a destination to one receiver exactly for a single one, or for one nobody can have. */
  lemma OneReceiverExactly(dest: Wide)
    ensures (forall socks :: Exclusive(socks) ==> !Shared(socks, dest)) <==> Unreachable(dest) || Single(dest)
  {
    if Unreachable(dest) {
      forall s
        ensures !Receives(s, dest)
      {
        UnreachableReceives(s, dest);
      }
    } else if Single(dest) {
      forall socks: map<SockId, Sock>, a, b | Exclusive(socks) && a in socks && b in socks
                                              && Receives(socks[a], dest) && Receives(socks[b], dest)
        ensures a == b
      {
        AtMostOneReceiver(socks, dest, a, b);
      }
    } else {
      var socks := SharedOtherwise(dest);
    }
  }

  /** The sockets in `list` that a packet goes to, up to the first failed clone. */
  function Reached(list: seq<SockId>, socks: map<SockId, Sock>, sender: SockId, dest: Wide, clones: nat): set<SockId>
    requires forall s :: s in list ==> s in socks
  {
    if list == [] then {}
    else if sender == list[0] || !Receives(socks[list[0]], dest) then
      Reached(list[1..], socks, sender, dest, clones)
    else if clones == 0 then {}
    else {list[0]} + Reached(list[1..], socks, sender, dest, clones - 1)
  }

  lemma {:induction false} ReachedAreReceivers(list: seq<SockId>, socks: map<SockId, Sock>, sender: SockId,
                                               dest: Wide, clones: nat)
    requires forall s :: s in list ==> s in socks
    ensures forall s :: s in Reached(list, socks, sender, dest, clones) ==>
                          s in list && sender != s && Receives(socks[s], dest)
    ensures |list| <= clones ==>
              forall s :: s in list && sender != s && Receives(socks[s], dest) ==>
                            s in Reached(list, socks, sender, dest, clones)
  {
    if list != [] {
      assert list == [list[0]] + list[1..];
      ReachedAreReceivers(list[1..], socks, sender, dest, clones);
      if clones > 0 {
        ReachedAreReceivers(list[1..], socks, sender, dest, clones - 1);
      }
    }
  }

  /** With clones enough, a socket gets the message exactly if it is another one, matches, and has at most 64 packets queued. */
  lemma ReachedExactly(list: seq<SockId>, socks: map<SockId, Sock>, sender: SockId, dest: Wide, clones: nat, s: SockId)
    requires (forall x :: x in list ==> x in socks) && |list| <= clones && s in list
    ensures s in Reached(list, socks, sender, dest, clones) <==>
            && s != sender && |socks[s].queue| <= 64
            && (exists b :: b in dest.group && b in socks[s].addr.group)
            && (dest.pid == 0 || socks[s].addr.pid == dest.pid)
  {
    ReachedAreReceivers(list, socks, sender, dest, clones);
  }

  function Deliver(socks: map<SockId, Sock>, to: set<SockId>, p: Packet): map<SockId, Sock> {
    map s | s in socks :: if s in to then socks[s].(queue := socks[s].queue + [p]) else socks[s]
  }

  /** First in, first out: what a socket's user has received and what is queued is what was delivered, in that order. */
  ghost predicate InOrder(socks: map<SockId, Sock>, delivered: map<SockId, seq<Packet>>, taken: map<SockId, seq<Packet>>) {
    forall s :: s in socks ==> s in delivered && s in taken && taken[s] + socks[s].queue == delivered[s]
  }

  function Extended(delivered: map<SockId, seq<Packet>>, to: set<SockId>, p: Packet): map<SockId, seq<Packet>> {
    map s | s in delivered :: if s in to then delivered[s] + [p] else delivered[s]
  }

  lemma DeliverInOrder(socks: map<SockId, Sock>, delivered: map<SockId, seq<Packet>>, taken: map<SockId, seq<Packet>>,
                       to: set<SockId>, p: Packet)
    requires InOrder(socks, delivered, taken)
    ensures InOrder(Deliver(socks, to, p), Extended(delivered, to, p), taken)
  {
  }

  /** What holds of the sockets at all times. */
  ghost predicate SocketsOk(list: seq<SockId>, socks: map<SockId, Sock>, sent: set<Packet>,
                            delivered: map<SockId, seq<Packet>>, taken: map<SockId, seq<Packet>>) {
    && NoDup(list)
    && (forall s :: s in list <==> s in socks)
    && (forall s :: s in socks ==> |socks[s].queue| <= ADMIN_SOCK_RECV_QLEN + 1)
    && (forall s, i :: s in socks && 0 <= i < |socks[s].queue| ==> socks[s].queue[i] in sent)
    && InOrder(socks, delivered, taken)
  }

  lemma SentOk(list: seq<SockId>, socks: map<SockId, Sock>, sent: set<Packet>, delivered: map<SockId, seq<Packet>>,
               taken: map<SockId, seq<Packet>>, sk: SockId, dest: Wide, clones: nat, p: Packet)
    requires SocketsOk(list, socks, sent, delivered, taken)
    ensures var to := Reached(list, socks, sk, dest, clones);
            && SocketsOk(list, Deliver(socks, to, p), sent + {p}, Extended(delivered, to, p), taken)
            && (Exclusive(socks) ==> Exclusive(Deliver(socks, to, p)))
            && (Exclusive(socks) && Single(dest) ==> forall a, b :: a in to && b in to ==> a == b)
  {
    var to := Reached(list, socks, sk, dest, clones);
    ReachedAreReceivers(list, socks, sk, dest, clones);
    AtMostOneReached(socks, dest, to);
    DeliverKeeps(socks, to, p, dest);
    DeliverInOrder(socks, delivered, taken, to, p);
  }

  lemma ReceivedOk(list: seq<SockId>, socks: map<SockId, Sock>, sent: set<Packet>, delivered: map<SockId, seq<Packet>>,
                   taken: map<SockId, seq<Packet>>, sk: SockId)
    requires SocketsOk(list, socks, sent, delivered, taken) && sk in socks && socks[sk].queue != []
    ensures var q := socks[sk].queue;
            var now := socks[sk := socks[sk].(queue := q[1..])];
            && q[0] in sent && sk in taken
            && SocketsOk(list, now, sent, delivered, taken[sk := taken[sk] + [q[0]]])
            && (Exclusive(socks) ==> Exclusive(now))
  {
    var q := socks[sk].queue;
    assert taken[sk] + q == taken[sk] + [q[0]] + q[1..];
  }

  /** What a receive yields: the bytes copied, the noted address, the value returned, and whether the message was cut. */
  datatype Received = Received(data: Payload, from: Addr, ret: nat, cut: bool)

  class Sockets {
    /** admin_sklist. */
    var list: seq<SockId>
    var socks: map<SockId, Sock>
    /** Every packet sent so far. */
    ghost var sent: set<Packet>
    /** For each socket the packets delivered to it, and those its user has received, in order. */
    ghost var delivered: map<SockId, seq<Packet>>
    ghost var taken: map<SockId, seq<Packet>>

    ghost predicate Valid()
      reads this
    {
      SocketsOk(list, socks, sent, delivered, taken)
    }

    constructor ()
      ensures Valid() && list == [] && socks == map[] && sent == {}
    {
      list, socks, sent, delivered, taken := [], map[], {}, map[], map[];
    }

    /** admin_create with memory `s`, None when it fails. */
    method Create(s: Option<SockId>) returns (ok: bool)
      requires Valid() && (s.Some? ==> s.value !in socks)
      modifies this`list, this`socks, this`delivered, this`taken
      ensures Valid() && ok == s.Some?
      ensures ok ==> list == [s.value] + old(list) && socks == old(socks)[s.value := Sock(Addr(0, {}), [])]
      ensures !ok ==> list == old(list) && socks == old(socks)
      ensures Exclusive(old(socks)) ==> Exclusive(socks)
    {
      if s.None? {
        return false;
      }
      socks := socks[s.value := Sock(Addr(0, {}), [])];
      list := [s.value] + list;
      delivered, taken := delivered[s.value := []], taken[s.value := []];
      ok := true;
    }

    /** admin_bind: refused exactly when another socket has the pid and shares a group bit. */
    method Bind(sk: SockId, addr: Wide) returns (ok: bool)
      requires Valid() && sk in socks
      modifies this`socks
      ensures Valid()
      ensures ok <==> Bindable(old(socks), sk, addr)
      ensures !ok <==> exists s, b :: && s in old(socks) && s != sk && old(socks)[s].addr.pid == addr.pid
                                      && b in old(socks)[s].addr.group && b in addr.group
      ensures socks == if ok then Bound(old(socks), sk, addr) else old(socks)
      ensures Exclusive(old(socks)) && Storable(addr) ==> Exclusive(socks)
    {
      var i := 0;
      while i < |list|
        invariant 0 <= i <= |list|
        invariant forall k :: 0 <= k < i && list[k] != sk && socks[list[k]].addr.pid == addr.pid ==>
                                !Overlap(socks[list[k]].addr.group, addr.group)
      {
        var s := list[i];
        if s != sk && socks[s].addr.pid == addr.pid && Overlap(socks[s].addr.group, addr.group) {
          return false;
        }
        i := i + 1;
      }
      forall s | s in socks && s != sk && socks[s].addr.pid == addr.pid
        ensures !Overlap(socks[s].addr.group, addr.group)
      {
        assert s in list;
      }
      if Exclusive(socks) && Storable(addr) {
        BindKeeps(socks, sk, addr);
      }
      socks := socks[sk := socks[sk].(addr := Stored(addr))];
      ok := true;
    }

    /** admin_sendmsg and admin_send_packet: `clones` says how many skb_clone calls succeed. */
    method Send(sk: SockId, data: Payload, dest: Wide, clones: nat)
      requires Valid() && sk in socks
      modifies this`socks, this`sent, this`delivered
      ensures Valid()
      ensures var p := Packet(data, old(socks)[sk].addr);
              && sent == old(sent) + {p}
              && socks == Deliver(old(socks), Reached(list, old(socks), sk, dest, clones), p)
              && delivered == Extended(old(delivered), Reached(list, old(socks), sk, dest, clones), p)
      ensures Exclusive(old(socks)) ==> Exclusive(socks)
      ensures Exclusive(old(socks)) && Single(dest) ==>
                var to := Reached(list, old(socks), sk, dest, clones);
                forall a, b :: a in to && b in to ==> a == b
    {
      var p := Packet(data, socks[sk].addr);
      ghost var to := Reached(list, socks, sk, dest, clones);
      SentOk(list, socks, sent, delivered, taken, sk, dest, clones, p);
      var now := Walk(list, socks, sk, p, dest, clones);
      socks := now;
      sent := sent + {p};
      delivered := Extended(delivered, to, p);
    }

    /**
      admin_recvmsg: the oldest packet, cut to `len`, with its sender's address. `peek` and
      `trunc` are the flags MSG_PEEK and MSG_TRUNC; `copies` says whether the copy to the user
      succeeds. A packet that could not be copied is lost all the same.
     */
    method Recv(sk: SockId, len: nat, peek: bool, trunc: bool, copies: bool) returns (r: Option<Received>)
      requires Valid() && sk in socks
      modifies this`socks, this`taken
      ensures Valid() && (Exclusive(old(socks)) ==> Exclusive(socks))
      ensures var q := old(socks)[sk].queue;
              if q == [] then r == None && socks == old(socks) && taken == old(taken)
              else
                && q[0] in sent && r.Some? == copies
                && (copies ==>
                      && r.value.data <= q[0].data && r.value.from == q[0].from
                      && |r.value.data| <= len && (r.value.cut <==> r.value.data != q[0].data)
                      && (r.value.cut ==> |r.value.data| == len)
                      && r.value.ret == if trunc then |q[0].data| else |r.value.data|)
                && socks == (if peek then old(socks) else old(socks)[sk := old(socks)[sk].(queue := q[1..])])
                && taken == if peek then old(taken) else old(taken)[sk := old(taken)[sk] + [q[0]]]
    {
      var q := socks[sk].queue;
      if q == [] {
        return None;
      }
      ReceivedOk(list, socks, sent, delivered, taken, sk);
      var copied, cut := |q[0].data|, false;
      if copied > len {
        copied, cut := len, true;
      }
      r := None;
      if copies {
        r := Some(Received(q[0].data[..copied], q[0].from, if trunc then |q[0].data| else copied, cut));
      }
      if !peek {
        socks := socks[sk := socks[sk].(queue := q[1..])];
        taken := taken[sk := taken[sk] + [q[0]]];
      }
    }

    /** admin_release: unlinks the socket and drops its queue. */
    method Release(sk: SockId)
      requires Valid() && sk in socks
      modifies this`list, this`socks
      ensures Valid() && list == Without(old(list), {sk}) && socks == old(socks) - {sk}
      ensures Exclusive(old(socks)) ==> Exclusive(socks)
    {
      var i := 0;
      assert sk in list;
      while list[i] != sk
        invariant 0 <= i < |list| && sk in list[i..]
        decreases |list| - i
      {
        assert list[i..] == [list[i]] + list[i + 1..];
        i := i + 1;
      }
      WithoutOne(list, i);
      WithoutElems(list, {sk});
      WithoutNoDup(list, {sk});
      list := list[..i] + list[i + 1..];
      socks := socks - {sk};
    }
  }

  lemma ReachedStep(list: seq<SockId>, i: nat, socks: map<SockId, Sock>, sender: SockId, dest: Wide, left: nat)
    requires i < |list| && forall s :: s in list ==> s in socks
    ensures var here, rest := Reached(list[i..], socks, sender, dest, left), list[i + 1..];
            if sender == list[i] || !Receives(socks[list[i]], dest) then
              here == Reached(rest, socks, sender, dest, left)
            else if left == 0 then here == {}
            else here == {list[i]} + Reached(rest, socks, sender, dest, left - 1)
  {
    assert list[i..][1..] == list[i + 1..];
  }

  lemma DeliverOne(socks: map<SockId, Sock>, done: set<SockId>, s: SockId, p: Packet)
    requires s in socks && s !in done
    ensures Deliver(socks, done, p)[s := socks[s].(queue := socks[s].queue + [p])] == Deliver(socks, done + {s}, p)
  {
  }

  /** Where the delivery loop stands before list position `i`: `done` has been served, `left` clones are left. */
  ghost predicate Walking(list: seq<SockId>, socks: map<SockId, Sock>, sender: SockId, p: Packet, dest: Wide,
                          to: set<SockId>, i: nat, left: nat, now: map<SockId, Sock>, done: set<SockId>)
    requires i <= |list| && forall s :: s in list ==> s in socks
  {
    && now == Deliver(socks, done, p)
    && done + Reached(list[i..], socks, sender, dest, left) == to
    && (forall k :: i <= k < |list| ==> list[k] !in done)
  }

  lemma WalkStep(list: seq<SockId>, socks: map<SockId, Sock>, sender: SockId, p: Packet, dest: Wide,
                 to: set<SockId>, i: nat, left: nat, now: map<SockId, Sock>, done: set<SockId>)
    requires i < |list| && NoDup(list) && forall s :: s in list ==> s in socks
    requires Walking(list, socks, sender, p, dest, to, i, left, now, done)
    ensures var s := list[i];
            && s in now && now[s] == socks[s]
            && (if sender == s || !Receives(socks[s], dest) then
                  Walking(list, socks, sender, p, dest, to, i + 1, left, now, done)
                else if left == 0 then done == to
                else
                  Walking(list, socks, sender, p, dest, to, i + 1, left - 1,
                          now[s := now[s].(queue := now[s].queue + [p])], done + {s}))
  {
    ReachedStep(list, i, socks, sender, dest, left);
    DeliverOne(socks, done, list[i], p);
  }

  /** The loop of admin_send_packet. */
  method Walk(list: seq<SockId>, socks: map<SockId, Sock>, sk: SockId, p: Packet, dest: Wide, clones: nat)
    returns (now: map<SockId, Sock>)
    requires NoDup(list) && forall s :: s in list ==> s in socks
    ensures now == Deliver(socks, Reached(list, socks, sk, dest, clones), p)
  {
    var i, left := 0, clones;
    now := socks;
    ghost var done: set<SockId>, to := {}, Reached(list, socks, sk, dest, clones);
    assert list[0..] == list;
    while i < |list|
      invariant 0 <= i <= |list|
      invariant Walking(list, socks, sk, p, dest, to, i, left, now, done)
    {
      var s := list[i];
      WalkStep(list, socks, sk, p, dest, to, i, left, now, done);
      if s != sk && Receives(now[s], dest) {
        if left == 0 {
          return;
        }
        left := left - 1;
        now := now[s := now[s].(queue := now[s].queue + [p])];
        done := done + {s};
      }
      i := i + 1;
    }
  }

  lemma AtMostOneReached(socks: map<SockId, Sock>, dest: Wide, to: set<SockId>)
    requires forall s :: s in to ==> s in socks && Receives(socks[s], dest)
    ensures Exclusive(socks) && Single(dest) ==> forall a, b :: a in to && b in to ==> a == b
  {
    if Exclusive(socks) && Single(dest) {
      forall a, b | a in to && b in to
        ensures a == b
      {
        AtMostOneReceiver(socks, dest, a, b);
      }
    }
  }

  lemma DeliverKeeps(socks: map<SockId, Sock>, to: set<SockId>, p: Packet, dest: Wide)
    requires forall s :: s in socks ==> |socks[s].queue| <= ADMIN_SOCK_RECV_QLEN + 1
    requires forall s :: s in to ==> s in socks && Receives(socks[s], dest)
    ensures Exclusive(socks) ==> Exclusive(Deliver(socks, to, p))
    ensures forall s :: s in Deliver(socks, to, p) ==> |Deliver(socks, to, p)[s].queue| <= ADMIN_SOCK_RECV_QLEN + 1
  {
  }
}
