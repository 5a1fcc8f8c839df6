/**
  The connection table of ssldump.c: endpoint tuples, their comparison and hash, the chained
  table of shash.h, and the lookup of every packet in both directions.
 */
module ConnTables {
  import opened Octets
  import opened SeqFacts
  import opened TcpStreams

  const BUCKETS: nat := 1000

  type u32 = x: nat | x < 0x1_0000_0000
  type Addr6 = s: seq<octet> | |s| == 16 witness seq(16, _ => 0)

  /** ip_port_t; the addresses and the port are in network byte order. */
  datatype Endpoint = V4(addr4: u32, port: word) | V6(addr6: Addr6, port: word)

  datatype Ends = Tup(src: Endpoint, dst: Endpoint)

  /** tcp_tup_t as tcp_tup_init fills it: both ends of one family. */
  type Tup = t: Ends | t.src.V4? == t.dst.V4? witness Tup(V4(0, 0), V4(0, 0))

  /** The network layer of a decoded packet. */
  datatype Layer3 = IPv4(saddr: u32, daddr: u32) | IPv6(saddr6: Addr6, daddr6: Addr6) | OtherLayer3

  datatype Packet = Packet(net: Layer3, isTcp: bool, source: word, dest: word, seqno: u32, flags: Flags)

  function Ntohs(x: word): word {
    Swap(x)
  }

  function Ntohl(x: u32): u32 {
    x % 256 * 0x100_0000 + x / 256 % 256 * 0x1_0000 + x / 0x1_0000 % 256 * 256 + x / 0x100_0000
  }

  lemma NtohsInjective(x: word, y: word)
    ensures Ntohs(x) == Ntohs(y) <==> x == y
  {
    SwapTwice(x);
    SwapTwice(y);
  }

  lemma FourOctets(x: u32)
    ensures x == x / 0x100_0000 * 0x100_0000 + x / 0x1_0000 % 256 * 0x1_0000 + x / 256 % 256 * 256 + x % 256
    ensures x / 0x100_0000 < 256
  {
    assert x / 0x1_0000 == x / 0x100_0000 * 256 + x / 0x1_0000 % 256 by {
      assert x / 0x1_0000 / 256 == x / 0x100_0000;
    }
    assert x / 256 == x / 0x1_0000 * 256 + x / 256 % 256 by {
      assert x / 256 / 256 == x / 0x1_0000;
    }
  }

  lemma OctetsUnique(a: nat, b: nat, c: nat, d: nat, a': nat, b': nat, c': nat, d': nat)
    requires a < 256 && b < 256 && c < 256 && d < 256 && a' < 256 && b' < 256 && c' < 256 && d' < 256
    requires a * 0x100_0000 + b * 0x1_0000 + c * 256 + d == a' * 0x100_0000 + b' * 0x1_0000 + c' * 256 + d'
    ensures a == a' && b == b' && c == c' && d == d'
  {
  }

  lemma NtohlInjective(x: u32, y: u32)
    ensures Ntohl(x) == Ntohl(y) <==> x == y
  {
    FourOctets(x);
    FourOctets(y);
    if Ntohl(x) == Ntohl(y) {
      OctetsUnique(x % 256, x / 256 % 256, x / 0x1_0000 % 256, x / 0x100_0000,
                   y % 256, y / 256 % 256, y / 0x1_0000 % 256, y / 0x100_0000);
    }
  }

  /** memcmp over two buffers of the same length. */
  function Memcmp(s: seq<octet>, t: seq<octet>): int
    requires |s| == |t|
  {
    if s == [] then 0
    else if s[0] != t[0] then s[0] as int - t[0] as int
    else Memcmp(s[1..], t[1..])
  }

  lemma {:induction false} MemcmpZero(s: seq<octet>, t: seq<octet>)
    requires |s| == |t|
    ensures Memcmp(s, t) == 0 <==> s == t
  {
    if s != [] {
      MemcmpZero(s[1..], t[1..]);
      assert s == [s[0]] + s[1..] && t == [t[0]] + t[1..];
    }
  }

  /** The four octets of an IPv4 address as they lie in memory, lowest first. */
  function InMemory(x: u32): seq<octet> {
    [(x % 256) as octet, (x / 256 % 256) as octet, (x / 0x1_0000 % 256) as octet, (x / 0x100_0000) as octet]
  }

  /** ip_addr_v4_to_v6: the IPv4-mapped IPv6 address. */
  function Mapped(x: u32): Addr6 {
    [0, 0, 0, 0, 0, 0, 0, 0, 0, 0, 255, 255] + InMemory(x)
  }

  /** The mapped form: ten zeroes, two of 255, and the octets of the address, highest first in the number it stands for. */
  lemma MappedForm(x: u32)
    ensures forall i :: 0 <= i < 10 ==> Mapped(x)[i] == 0
    ensures Mapped(x)[10] == 255 && Mapped(x)[11] == 255
    ensures Ntohl(x) == Mapped(x)[12] as nat * 0x100_0000 + Mapped(x)[13] as nat * 0x1_0000
                        + Mapped(x)[14] as nat * 256 + Mapped(x)[15] as nat
  {
  }

  /** Numbers of four octets compare as the octets do, highest first. */
  lemma OctetOrder(a: nat, b: nat, c: nat, d: nat, a': nat, b': nat, c': nat, d': nat)
    requires a < 256 && b < 256 && c < 256 && d < 256 && a' < 256 && b' < 256 && c' < 256 && d' < 256
    ensures a * 0x100_0000 + b * 0x1_0000 + c * 256 + d < a' * 0x100_0000 + b' * 0x1_0000 + c' * 256 + d' <==>
            a < a' || (a == a' && (b < b' || (b == b' && (c < c' || (c == c' && d < d')))))
  {
  }

  lemma MemcmpFour(s: seq<octet>, t: seq<octet>)
    requires |s| == 4 && |t| == 4
    ensures Memcmp(s, t) < 0 <==>
            s[0] < t[0] || (s[0] == t[0] && (s[1] < t[1] || (s[1] == t[1] && (s[2] < t[2] || (s[2] == t[2] && s[3] < t[3])))))
  {
    MemcmpFrom(s, t, 0);
    MemcmpFrom(s, t, 1);
    MemcmpFrom(s, t, 2);
    MemcmpFrom(s, t, 3);
    assert s[0..] == s && t[0..] == t && s[4..] == [] && t[4..] == [];
  }

  lemma MemcmpFrom(s: seq<octet>, t: seq<octet>, i: nat)
    requires |s| == |t| && i < |s|
    ensures Memcmp(s[i..], t[i..]) == if s[i] != t[i] then s[i] as int - t[i] as int else Memcmp(s[i + 1..], t[i + 1..])
  {
    assert s[i..][1..] == s[i + 1..] && t[i..][1..] == t[i + 1..];
  }

  /** Both families are ordered alike: IPv4 addresses by value are IPv4 addresses by their octets in memory. */
  lemma OrderedByOctets(a: Endpoint, b: Endpoint)
    requires a.V4? && b.V4?
    ensures CompareAddr(a, b) < 0 <==> Memcmp(InMemory(a.addr4), InMemory(b.addr4)) < 0
  {
    var s, t := InMemory(a.addr4), InMemory(b.addr4);
    MemcmpFour(s, t);
    OctetOrder(s[0] as nat, s[1] as nat, s[2] as nat, s[3] as nat, t[0] as nat, t[1] as nat, t[2] as nat, t[3] as nat);
  }

  /**
    ip_addr_compare. An IPv4 address on the left of an IPv6 one is never equal to it: the code
    asks for the IPv6 address of its right operand, which fails.
   */
  function CompareAddr(a: Endpoint, b: Endpoint): int {
    if a.V4? && b.V4? then
      var lv, rv := Ntohl(a.addr4), Ntohl(b.addr4);
      if lv == rv then 0 else if lv < rv then -1 else 1
    else if a.V6? && b.V6? then Memcmp(a.addr6, b.addr6)
    else if a.V4? then -1
    else Memcmp(a.addr6, Mapped(b.addr4))
  }

  /** ip_port_compare. */
  function ComparePort(a: Endpoint, b: Endpoint): int {
    var ret := CompareAddr(a, b);
    if ret != 0 then ret else Ntohs(a.port) - Ntohs(b.port)
  }

  /** tcp_tup_cmp. */
  function CompareTup(t: Tup, u: Tup): int {
    var ret := ComparePort(t.src, u.src);
    if ret != 0 then ret else ComparePort(t.dst, u.dst)
  }

  /** The IPv4-mapped form of an IPv4 endpoint. */
  function MappedEnd(e: Endpoint): Endpoint
    requires e.V4?
  {
    V6(Mapped(e.addr4), e.port)
  }

  function MappedTup(t: Tup): Tup
    requires t.src.V4?
  {
    Tup(MappedEnd(t.src), MappedEnd(t.dst))
  }

  /** `t` is the IPv4-mapped form of the IPv4 tuple `u`. */
  predicate IsMappedOf(t: Tup, u: Tup) {
    u.src.V4? && t == MappedTup(u)
  }

  lemma CompareEndpointZero(a: Endpoint, b: Endpoint)
    ensures ComparePort(a, b) == 0 <==> a == b || (b.V4? && a == MappedEnd(b))
  {
    NtohsInjective(a.port, b.port);
    if a.V4? && b.V4? {
      NtohlInjective(a.addr4, b.addr4);
    } else if a.V6? {
      MemcmpZero(a.addr6, if b.V6? then b.addr6 else Mapped(b.addr4));
    }
  }

  /** Comparing equal is being equal, or being the IPv4-mapped form on the left; not the other way round. */
  lemma CompareTupZero(t: Tup, u: Tup)
    ensures CompareTup(t, u) == 0 <==> t == u || IsMappedOf(t, u)
  {
    CompareEndpointZero(t.src, u.src);
    CompareEndpointZero(t.dst, u.dst);
  }

  /** tcp_tup_init: `dir` 1 exchanges the two ends. */
  function TupOf(pkt: Packet, dir: nat): Option<Tup> {
    if pkt.net.OtherLayer3? || !pkt.isTcp then None
    else
      var s := if pkt.net.IPv4? then V4(pkt.net.saddr, pkt.source) else V6(pkt.net.saddr6, pkt.source);
      var d := if pkt.net.IPv4? then V4(pkt.net.daddr, pkt.dest) else V6(pkt.net.daddr6, pkt.dest);
      Some(if dir != 0 then Tup(d, s) else Tup(s, d))
  }

  /** Two packets belong to the same direction of one connection exactly when family, addresses and both ports agree. */
  lemma SameTuple(p: Packet, q: Packet)
    requires p.isTcp && q.isTcp && !p.net.OtherLayer3? && !q.net.OtherLayer3?
    ensures TupOf(p, 0) == TupOf(q, 0) <==> p.net == q.net && p.source == q.source && p.dest == q.dest
    ensures TupOf(p, 1) == TupOf(q, 1) <==> p.net == q.net && p.source == q.source && p.dest == q.dest
    ensures TupOf(p, 0) == TupOf(q, 1) <==>
            && p.source == q.dest && p.dest == q.source
            && (p.net.IPv4? ==> q.net.IPv4? && p.net.saddr == q.net.daddr && p.net.daddr == q.net.saddr)
            && (p.net.IPv6? ==> q.net.IPv6? && p.net.saddr6 == q.net.daddr6 && p.net.daddr6 == q.net.saddr6)
  {
  }

  function Reversed(t: Tup): Tup {
    Tup(t.dst, t.src)
  }

  function Word(a: Addr6, i: nat): nat
    requires i < 4
  {
    a[4 * i] as nat + a[4 * i + 1] as nat * 256 + a[4 * i + 2] as nat * 0x1_0000 + a[4 * i + 3] as nat * 0x100_0000
  }

  /** The mixing function, and the combination `xor` of two words: any two functions. */
  datatype Mix = Mix(jhash: (nat, nat, nat) -> nat, xor: (nat, nat) -> nat) {
    /** tcp_tup_hash. */
    function HashOf(t: Tup): nat {
      var ports := t.dst.port * 0x1_0000 + t.src.port;
      if t.src.V4? then jhash(t.dst.addr4, t.src.addr4, ports)
      else
        var s := t.src.addr6;
        jhash(Word(t.dst.addr6, 3), jhash(xor(Word(s, 0), Word(s, 1)), Word(s, 2), Word(s, 3)), ports)
    }

    function BucketOf(t: Tup): (b: nat)
      ensures b < BUCKETS
    {
      HashOf(t) % BUCKETS
    }

    /** A stream with tuple `t` can be found by a lookup of `u`: it compares equal and hangs on the same bucket. */
    predicate Answers(t: Tup, u: Tup) {
      Passes(t, u) && BucketOf(t) == BucketOf(u)
    }
  }

  /** A mixing function without collisions. */
  ghost predicate Injective(mix: Mix) {
    && (forall a, b, c, a', b', c' :: mix.jhash(a, b, c) == mix.jhash(a', b', c') ==> a == a' && b == b' && c == c')
    && (forall a, b, a', b' :: mix.xor(a, b) == mix.xor(a', b') ==> a == a' && b == b')
  }

  /** Word `i` of two addresses has the same octets. */
  predicate SameOctets(a: Addr6, b: Addr6, i: nat)
    requires i < 4
  {
    a[4 * i] == b[4 * i] && a[4 * i + 1] == b[4 * i + 1] && a[4 * i + 2] == b[4 * i + 2] && a[4 * i + 3] == b[4 * i + 3]
  }

  lemma WordUnique(a: Addr6, b: Addr6, i: nat)
    requires i < 4
    ensures Word(a, i) == Word(b, i) <==> SameOctets(a, b, i)
  {
    if Word(a, i) == Word(b, i) {
      OctetsUnique(a[4 * i + 3] as nat, a[4 * i + 2] as nat, a[4 * i + 1] as nat, a[4 * i] as nat,
                   b[4 * i + 3] as nat, b[4 * i + 2] as nat, b[4 * i + 1] as nat, b[4 * i] as nat);
    }
  }

  lemma PortsUnique(a: word, b: word, a': word, b': word)
    ensures a * 0x1_0000 + b == a' * 0x1_0000 + b' <==> a == a' && b == b'
  {
  }

  lemma FourWords(a: Addr6, b: Addr6)
    ensures a == b <==> forall i :: 0 <= i < 4 ==> Word(a, i) == Word(b, i)
    ensures a[12..] == b[12..] <==> Word(a, 3) == Word(b, 3)
  {
    WordUnique(a, b, 0);
    WordUnique(a, b, 1);
    WordUnique(a, b, 2);
    WordUnique(a, b, 3);
    if SameOctets(a, b, 3) {
      assert forall k :: 0 <= k < 4 ==> a[12..][k] == b[12..][k];
      if SameOctets(a, b, 0) && SameOctets(a, b, 1) && SameOctets(a, b, 2) {
        assert forall k :: 0 <= k < 16 ==> a[k] == b[k];
      }
    }
    if a[12..] == b[12..] {
      assert forall k :: 0 <= k < 4 ==> a[12 + k] == a[12..][k] && b[12 + k] == b[12..][k];
    }
  }

  /**
    What the hash looks at: with a mixing function without collisions, IPv4 tuples hash alike only
    if equal; of an IPv6 destination address only the last four octets count.
   */
  lemma HashLooksAt(mix: Mix, t: Tup, u: Tup)
    requires Injective(mix) && t.src.V4? == u.src.V4?
    ensures t.src.V4? ==> (mix.HashOf(t) == mix.HashOf(u) <==> t == u)
    ensures t.src.V6? ==> (mix.HashOf(t) == mix.HashOf(u) <==>
                           && t.src == u.src && t.dst.port == u.dst.port && t.dst.addr6[12..] == u.dst.addr6[12..])
  {
    PortsUnique(t.dst.port, t.src.port, u.dst.port, u.src.port);
    if t.src.V6? {
      FourWords(t.dst.addr6, u.dst.addr6);
      FourWords(t.src.addr6, u.src.addr6);
      HashParts(mix, t, u);
    }
  }

  lemma HashParts(mix: Mix, t: Tup, u: Tup)
    requires Injective(mix) && t.src.V6? && u.src.V6?
    requires t.dst.port * 0x1_0000 + t.src.port == u.dst.port * 0x1_0000 + u.src.port <==>
             t.dst.port == u.dst.port && t.src.port == u.src.port
    ensures mix.HashOf(t) == mix.HashOf(u) <==>
            && Word(t.dst.addr6, 3) == Word(u.dst.addr6, 3)
            && (forall i :: 0 <= i < 4 ==> Word(t.src.addr6, i) == Word(u.src.addr6, i))
            && t.dst.port == u.dst.port && t.src.port == u.src.port
  {
  }

  /** What tcp_stream_flow returns; None where the value is not defined or comes from reassembly. */
  function FlowResult(seqs: (nat, nat), s: State, g: Segment): Option<int> {
    if !Accepted(seqs, g) then Some(-1)
    else if s == FIN2 && g.flags.ack then Some(0)
    else None
  }

  /** 0 is returned exactly by the packet that closes the stream, and a packet that brings -1 moves nothing. */
  lemma FlowResultMeans(seqs: (nat, nat), s: State, g: Segment)
    ensures FlowResult(seqs, s, g) == Some(0) <==> s != CLOSE && Step(seqs, s, g) == CLOSE
    ensures FlowResult(seqs, s, g) == Some(-1) ==> Step(seqs, s, g) == s
    ensures g.flags.rst ==> FlowResult(seqs, s, g) == Some(-1)
  {
  }

  class Stream {
    const tup: Tup
    /** seqacks[0].seq and seqacks[1].seq; the second stays 0. */
    const seqs: (nat, nat)
    var state: State

    constructor (tup: Tup, seqno: nat)
      ensures this.tup == tup && seqs == (seqno, 0) && state == SYN
    {
      this.tup, seqs, state := tup, (seqno, 0), SYN;
    }

    /** tcp_stream_flow without the reassembly queue. */
    method Flow(g: Segment) returns (ret: Option<int>)
      modifies this`state
      ensures state == Step(seqs, old(state), g)
      ensures ret == FlowResult(seqs, old(state), g)
    {
      if !InRange(seqs, g) {
        return Some(-1);
      }
      if g.flags.rst {
        return Some(-1);
      }
      ret := None;
      match state {
        case SYN =>
          if g.dir == 1 && g.flags.syn && g.flags.ack {
            state := SYN_ACK;
          }
        case SYN_ACK =>
          if g.dir == 0 && g.flags.ack {
            state := EST;
          }
        case EST =>
          if g.flags.fin {
            state := FIN1;
          }
        case FIN1 =>
          if g.flags.ack {
            state := FIN1_ACK;
          }
          if g.flags.fin {
            state := FIN2;
          }
        case FIN1_ACK =>
          if g.flags.fin {
            state := FIN2;
          }
        case FIN2 =>
          if g.flags.ack {
            state := CLOSE;
            return Some(0);
          }
        case CLOSE =>
      }
    }
  }

  /** The streams of bucket `b`, in order of creation. */
  function InBucket(ss: seq<Stream>, mix: Mix, b: nat): seq<Stream> {
    if ss == [] then []
    else if mix.BucketOf(ss[0].tup) == b then [ss[0]] + InBucket(ss[1..], mix, b)
    else InBucket(ss[1..], mix, b)
  }

  lemma {:induction false} InBucketAdd(ss: seq<Stream>, s: Stream, mix: Mix, b: nat)
    ensures InBucket(ss + [s], mix, b) == InBucket(ss, mix, b) + if mix.BucketOf(s.tup) == b then [s] else []
  {
    if ss == [] {
      assert ss + [s] == [s] && [s][1..] == [];
    } else {
      assert (ss + [s])[1..] == ss[1..] + [s];
      InBucketAdd(ss[1..], s, mix, b);
    }
  }

  /** Position of the earliest stream that a lookup of `t` can find; the length if there is none. */
  function Earliest(ss: seq<Stream>, mix: Mix, t: Tup): (r: nat)
    ensures r <= |ss|
    ensures r < |ss| ==> mix.Answers(ss[r].tup, t)
    ensures forall i :: 0 <= i < r ==> !mix.Answers(ss[i].tup, t)
  {
    if ss == [] || mix.Answers(ss[0].tup, t) then 0 else 1 + Earliest(ss[1..], mix, t)
  }

  /** Position of the first stream of a bucket that compares equal. */
  function FirstEqual(bucket: seq<Stream>, t: Tup): (r: nat)
    ensures r <= |bucket|
    ensures r < |bucket| ==> Passes(bucket[r].tup, t)
    ensures forall i :: 0 <= i < r ==> !Passes(bucket[i].tup, t)
  {
    if bucket == [] || Passes(bucket[0].tup, t) then 0 else 1 + FirstEqual(bucket[1..], t)
  }

  /** Walking one bucket finds the earliest of all stored streams that can be found. */
  lemma {:induction false} EarliestInBucket(ss: seq<Stream>, mix: Mix, t: Tup)
    ensures var bucket := InBucket(ss, mix, mix.BucketOf(t));
            var i, k := Earliest(ss, mix, t), FirstEqual(bucket, t);
            && (i < |ss| <==> k < |bucket|)
            && (i < |ss| ==> bucket[k] == ss[i])
  {
    if ss != [] && !mix.Answers(ss[0].tup, t) {
      EarliestInBucket(ss[1..], mix, t);
      if mix.BucketOf(ss[0].tup) == mix.BucketOf(t) {
        assert InBucket(ss, mix, mix.BucketOf(t))[1..] == InBucket(ss[1..], mix, mix.BucketOf(t));
      }
    }
  }

  /** No stream could be found by a packet of a later one when that was stored, whichever side sent it. */
  ghost predicate Unanswered(ss: seq<Stream>, mix: Mix) {
    forall i, j :: 0 <= i < j < |ss| ==>
                     !mix.Answers(ss[i].tup, ss[j].tup) && !mix.Answers(ss[i].tup, Reversed(ss[j].tup))
  }

  /** So a lookup of a stored stream's own tuple finds that stream, even beside its IPv4-mapped form. */
  lemma OwnIsEarliest(ss: seq<Stream>, mix: Mix, s: Stream)
    requires Unanswered(ss, mix) && s in ss
    ensures var i := Earliest(ss, mix, s.tup); i < |ss| && ss[i] == s
  {
    var j :| 0 <= j < |ss| && ss[j] == s;
    assert mix.Answers(s.tup, s.tup);
  }

  lemma AddedUnanswered(ss: seq<Stream>, mix: Mix, s: Stream)
    requires Unanswered(ss, mix)
    requires forall x :: x in ss ==> !mix.Answers(x.tup, s.tup) && !mix.Answers(x.tup, Reversed(s.tup))
    ensures Unanswered(ss + [s], mix)
  {
    assert forall i :: 0 <= i < |ss| ==> ss[i] in ss;
  }

  /** No two streams belong to the same pair of endpoints, in either direction. */
  ghost predicate OneEach(ss: seq<Stream>) {
    forall i, j :: 0 <= i < j < |ss| ==> ss[i].tup != ss[j].tup && ss[i].tup != Reversed(ss[j].tup)
  }

  lemma UnansweredApart(ss: seq<Stream>, mix: Mix)
    requires Unanswered(ss, mix)
    ensures OneEach(ss)
  {
    forall i, j | 0 <= i < j < |ss|
      ensures ss[i].tup != ss[j].tup && ss[i].tup != Reversed(ss[j].tup)
    {
      assert !mix.Answers(ss[i].tup, ss[j].tup) && !mix.Answers(ss[i].tup, Reversed(ss[j].tup));
    }
  }

  /** So at most one stored stream fits a packet, whichever side sent it. */
  lemma AtMostOneFits(ss: seq<Stream>, t: Tup, s: Stream, s': Stream)
    requires OneEach(ss) && s in ss && s' in ss
    requires s.tup == t || s.tup == Reversed(t)
    requires s'.tup == t || s'.tup == Reversed(t)
    ensures s == s'
  {
    var i :| 0 <= i < |ss| && ss[i] == s;
    var j :| 0 <= j < |ss| && ss[j] == s';
  }

  /** `t` compares equal to `u`. */
  predicate Passes(t: Tup, u: Tup) {
    t == u || IsMappedOf(t, u)
  }

  function SegmentOf(pkt: Packet, dir: nat): Segment {
    Segment(dir, Ntohl(pkt.seqno), pkt.flags)
  }

  predicate BareSyn(h: Flags) {
    h.syn && !h.ack && !h.fin && !h.psh && !h.rst
  }

  /** The stream that answers a packet with tuple `t` from the client: looked up as a server packet first. */
  function HitOf(ss: seq<Stream>, mix: Mix, t: Tup): (Stream?, nat) {
    var i, j := Earliest(ss, mix, Reversed(t)), Earliest(ss, mix, t);
    if i < |ss| then (ss[i], 1) else if j < |ss| then (ss[j], 0) else (null, 0)
  }

  /** The direction is the server's exactly if something answers the reversed tuple, and the stream answers in that direction. */
  lemma DirectionOf(ss: seq<Stream>, mix: Mix, t: Tup)
    ensures var (hit, dir) := HitOf(ss, mix, t);
            hit != null ==>
              && hit in ss && (dir == 0 || dir == 1) && (dir == 1 <==> !NoneAnswers(ss, mix, Reversed(t)))
              && mix.Answers(hit.tup, if dir == 1 then Reversed(t) else t)
  {
    var i := Earliest(ss, mix, Reversed(t));
    if i < |ss| {
      assert ss[i] in ss;
    }
  }

  /** Nothing stored answers a lookup of `t`. */
  ghost predicate NoneAnswers(ss: seq<Stream>, mix: Mix, t: Tup) {
    forall m :: m in ss ==> !mix.Answers(m.tup, t)
  }

  /**
    When a packet of a stored connection goes to its own stream: always if the server sent it,
    and from the client exactly if nothing stored answers it as a server packet.
   */
  lemma OwnStreamExactly(ss: seq<Stream>, mix: Mix, t: Tup, s: Stream)
    requires Unanswered(ss, mix) && s in ss && (s.tup == t || s.tup == Reversed(t))
    ensures HitOf(ss, mix, t).0 == s <==> s.tup == Reversed(t) || NoneAnswers(ss, mix, Reversed(t))
  {
    OwnIsEarliest(ss, mix, s);
    var i := Earliest(ss, mix, Reversed(t));
    if i < |ss| {
      assert ss[i] in ss;
    } else {
      assert NoneAnswers(ss, mix, Reversed(t));
    }
  }

  /** What answers such a packet instead is the IPv4-mapped form of the connection. */
  lemma OnlyMappedInstead(ss: seq<Stream>, mix: Mix, t: Tup, s: Stream, m: Stream)
    requires Unanswered(ss, mix) && s in ss && m in ss && s.tup == t && t != Reversed(t)
    requires mix.Answers(m.tup, Reversed(t))
    ensures IsMappedOf(m.tup, Reversed(t))
  {
    UnansweredApart(ss, mix);
    if m.tup == Reversed(t) {
      AtMostOneFits(ss, t, s, m);
    }
  }

  /** The traversal of one bucket. */
  method FindIn(bucket: seq<Stream>, t: Tup) returns (r: Stream?)
    ensures var k := FirstEqual(bucket, t); r == if k < |bucket| then bucket[k] else null
  {
    var i := 0;
    while i < |bucket|
      invariant 0 <= i <= |bucket|
      invariant forall k :: 0 <= k < i ==> !Passes(bucket[k].tup, t)
    {
      CompareTupZero(bucket[i].tup, t);
      if CompareTup(bucket[i].tup, t) == 0 {
        return bucket[i];
      }
      i := i + 1;
    }
    r := null;
  }

  class Table {
    const mix: Mix
    var buckets: seq<seq<Stream>>
    var size: nat
    /** All stored streams in order of creation. */
    ghost var stored: seq<Stream>

    /** The packets matched to each stored stream so far. */
    ghost var log: map<Stream, seq<Segment>>

    /** Every stream is in the state its packets lead to. */
    ghost predicate Tracked()
      reads this, stored
    {
      forall s :: s in stored ==> s in log && s.state == Run(s.seqs, SYN, log[s])
    }

    ghost predicate Valid()
      reads this
    {
      && |buckets| == BUCKETS
      && size == |stored|
      && Unanswered(stored, mix)
      && (forall b :: 0 <= b < BUCKETS ==> buckets[b] == InBucket(stored, mix, b))
    }

    /** Whatever packets came, a stored stream has reached a level exactly when its own packets marked the way there. */
    lemma StateMeansHistory(s: Stream, k: nat)
      requires Tracked() && s in stored && 1 <= k <= 5
      ensures Level(s.state) >= k <==> Saw(s.seqs, log[s], k)
    {
      LevelIsWhatWasSeen(s.seqs, log[s], k);
    }

    constructor (mix: Mix)
      ensures Valid() && Tracked() && stored == [] && this.mix == mix
    {
      this.mix := mix;
      buckets, size, stored, log := seq(BUCKETS, _ => []), 0, [], map[];
    }

    /**
      shash_find: the earliest stored stream that compares equal and hangs on the same bucket.
      A stream with this very tuple is always the one.
     */
    method Find(t: Tup) returns (r: Stream?)
      requires Valid()
      ensures var i := Earliest(stored, mix, t); r == if i < |stored| then stored[i] else null
      ensures forall s :: s in stored && s.tup == t ==> r == s
    {
      r := FindIn(buckets[mix.BucketOf(t)], t);
      EarliestInBucket(stored, mix, t);
      forall s | s in stored && s.tup == t
        ensures r == s
      {
        OwnIsEarliest(stored, mix, s);
      }
    }

    /** shash_add without the duplicate check. */
    method Add(s: Stream)
      requires Valid() && NoneAnswers(stored, mix, s.tup) && NoneAnswers(stored, mix, Reversed(s.tup))
      modifies this`buckets, this`size, this`stored
      ensures Valid() && stored == old(stored) + [s]
    {
      var b := mix.BucketOf(s.tup);
      buckets := buckets[b := buckets[b] + [s]];
      size := size + 1;
      stored := stored + [s];
      AddedUnanswered(old(stored), mix, s);
      forall k | 0 <= k < BUCKETS
        ensures buckets[k] == InBucket(stored, mix, k)
      {
        InBucketAdd(old(stored), s, mix, k);
      }
    }

    /** The two lookups of _decode_tcp: as a server packet first, then as a client packet. */
    method Lookup(t: Tup) returns (hit: Stream?, dir: nat)
      requires Valid()
      ensures (hit, dir) == HitOf(stored, mix, t)
      ensures forall s :: s in stored && s.tup == Reversed(t) ==> hit == s
    {
      dir := 1;
      hit := Find(Reversed(t));
      if hit == null {
        dir := 0;
        hit := Find(t);
      }
    }

    /**
      _decode_tcp. `mem` says whether tcp_stream_alloc succeeds and `room` whether the item pool
      does. The stream the packet was matched to and the direction are returned as well.
     */
    method Decode(pkt: Packet, mem: bool, room: bool) returns (ret: Option<int>, hit: Stream?, dir: nat)
      requires Valid() && Tracked()
      modifies this, stored
      ensures Valid() && Tracked()
      ensures TupOf(pkt, 0).None? ==> hit == null && ret == Some(-1) && stored == old(stored) && log == old(log)
      ensures TupOf(pkt, 0).Some? ==> (hit, dir) == HitOf(old(stored), mix, TupOf(pkt, 0).value)
      ensures hit != null ==>
                && hit in old(stored) && stored == old(stored)
                && (dir == 0 || dir == 1) && (dir == 1 <==> !NoneAnswers(old(stored), mix, TupOf(pkt, 1).value))
                && mix.Answers(hit.tup, TupOf(pkt, dir).value)
                && ret == FlowResult(hit.seqs, old(hit.state), SegmentOf(pkt, dir))
                && log == old(log)[hit := old(log)[hit] + [SegmentOf(pkt, dir)]]
      ensures forall s :: s in old(stored) && (TupOf(pkt, 0) == Some(s.tup) || TupOf(pkt, 1) == Some(s.tup)) ==>
                            (hit == s <==> TupOf(pkt, 1) == Some(s.tup) || NoneAnswers(old(stored), mix, TupOf(pkt, 1).value))
      ensures TupOf(pkt, 0).Some? && hit == null ==>
                && NoneAnswers(old(stored), mix, TupOf(pkt, 0).value) && NoneAnswers(old(stored), mix, TupOf(pkt, 1).value)
                && ret == Some(-1) && log.Keys >= old(log.Keys) && (forall s :: s in old(stored) ==> log[s] == old(log)[s])
                && (if pkt.flags == Flags(true, false, false, false, false) && mem && room then
                      && |stored| == |old(stored)| + 1 && stored[..|old(stored)|] == old(stored)
                      && (var s := stored[|old(stored)|];
                          && fresh(s) && s.tup == TupOf(pkt, 0).value && s.seqs == (Ntohl(pkt.seqno), 0)
                          && s.state == SYN && log[s] == [])
                    else stored == old(stored))
    {
      dir, hit := 0, null;
      var t := TupOf(pkt, 0);
      if t.None? {
        return Some(-1), null, 0;
      }
      hit, dir := Lookup(t.value);
      DirectionOf(stored, mix, t.value);
      forall s | s in stored && (s.tup == t.value || s.tup == Reversed(t.value))
        ensures hit == s <==> s.tup == Reversed(t.value) || NoneAnswers(stored, mix, Reversed(t.value))
      {
        OwnStreamExactly(stored, mix, t.value, s);
      }
      if hit != null {
        ret := Follow(hit, SegmentOf(pkt, dir));
        return;
      }
      ret := Some(-1);
      if BareSyn(pkt.flags) && mem {
        NewStream(t.value, Ntohl(pkt.seqno), room);
      }
    }

    /** A stream for a connection not seen before; it is lost when the item pool has no room. */
    method NewStream(t: Tup, seqno: nat, room: bool)
      requires Valid() && Tracked() && NoneAnswers(stored, mix, t) && NoneAnswers(stored, mix, Reversed(t))
      modifies this
      ensures Valid() && Tracked()
      ensures log.Keys >= old(log.Keys) && forall s :: s in old(stored) ==> log[s] == old(log)[s]
      ensures !room ==> stored == old(stored)
      ensures room ==>
                && |stored| == |old(stored)| + 1 && stored[..|old(stored)|] == old(stored)
                && (var s := stored[|old(stored)|];
                    fresh(s) && s.tup == t && s.seqs == (seqno, 0) && s.state == SYN && log[s] == [])
    {
      var s := new Stream(t, seqno);
      if room {
        Add(s);
        log := log[s := []];
      }
    }

    /** A matched packet moves its own stream and no other. */
    method Follow(hit: Stream, g: Segment) returns (ret: Option<int>)
      requires Valid() && Tracked() && hit in stored
      modifies this`log, hit`state
      ensures Valid() && Tracked()
      ensures log == old(log)[hit := old(log)[hit] + [g]]
      ensures ret == FlowResult(hit.seqs, old(hit.state), g)
    {
      ghost var h := log[hit];
      ret := hit.Flow(g);
      assert hit.state == Run(hit.seqs, SYN, h + [g]) by {
        assert (h + [g])[..|h|] == h;
      }
      log := log[hit := h + [g]];
    }
  }

  /** The same packet over IPv6, its addresses in IPv4-mapped form. */
  function MappedPacket(pkt: Packet): Packet
    requires pkt.net.IPv4?
  {
    pkt.(net := IPv6(Mapped(pkt.net.saddr), Mapped(pkt.net.daddr)))
  }

  /** The same packet from the other side. */
  function Turned(pkt: Packet): Packet
    requires pkt.net.IPv4?
  {
    pkt.(net := IPv4(pkt.net.daddr, pkt.net.saddr), source := pkt.dest, dest := pkt.source)
  }

  /**
    A stream that is never opened: if both forms of a connection hash alike, the stream opened by
    the IPv4-mapped SYN also takes the IPv4 one.
   */
  method MappedTakesOver(pkt: Packet, mix: Mix) returns (table: Table, hit: Stream?)
    requires pkt.net.IPv4? && pkt.isTcp && BareSyn(pkt.flags)
    requires var t := TupOf(pkt, 0).value; mix.BucketOf(MappedTup(t)) == mix.BucketOf(t)
    ensures table.Valid() && table.Tracked() && |table.stored| == 1
    ensures hit != null && hit in table.stored && hit.tup != TupOf(pkt, 0).value && hit.tup != TupOf(pkt, 1).value
  {
    table := new Table(mix);
    var ret, none, dir := table.Decode(MappedPacket(pkt), true, true);
    ghost var s := table.stored[0];
    assert s in table.stored && mix.Answers(s.tup, TupOf(pkt, 0).value);
    ret, hit, dir := table.Decode(pkt, true, true);
  }

  /**
    A stored stream that is missed: an IPv4 SYN opens it, the IPv4-mapped SYN of the other side
    opens a second one, and the next IPv4 packet of the first client goes to the second.
   */
  method OwnStreamMissed(pkt: Packet, mix: Mix) returns (table: Table, ghost own: Stream, hit: Stream?)
    requires pkt.net.IPv4? && pkt.isTcp && BareSyn(pkt.flags) && TupOf(pkt, 0) != TupOf(pkt, 1)
    requires var t := TupOf(pkt, 1).value; mix.BucketOf(MappedTup(t)) == mix.BucketOf(t)
    ensures table.Valid() && table.Tracked() && own in table.stored && TupOf(pkt, 0) == Some(own.tup)
    ensures hit != null && hit != own
  {
    ghost var m;
    table, own, m := OpenBoth(pkt, mix);
    assert m in table.stored && mix.Answers(m.tup, TupOf(pkt, 1).value);
    assert own in table.stored;
    var ret, dir;
    ret, hit, dir := table.Decode(pkt, true, true);
  }

  /** An IPv4 stream is not found by an IPv6 packet. */
  lemma OtherFamily(s: Stream, mix: Mix, t: Tup)
    requires s.tup.src.V4? && t.src.V6?
    ensures NoneAnswers([s], mix, t)
  {
  }

  /** The first two packets of that run. */
  method OpenBoth(pkt: Packet, mix: Mix) returns (table: Table, ghost own: Stream, ghost m: Stream)
    requires pkt.net.IPv4? && pkt.isTcp && BareSyn(pkt.flags)
    ensures fresh(table) && fresh(own) && fresh(m) && table.mix == mix && table.Valid() && table.Tracked()
    ensures table.stored == [own, m]
    ensures own.tup == TupOf(pkt, 0).value && m.tup == MappedTup(TupOf(pkt, 1).value)
  {
    table := new Table(mix);
    var ret, none, dir := table.Decode(pkt, true, true);
    own := table.stored[0];
    assert table.stored == [own];
    var turned := MappedPacket(Turned(pkt));
    OtherFamily(own, mix, TupOf(turned, 0).value);
    OtherFamily(own, mix, TupOf(turned, 1).value);
    ret, none, dir := table.Decode(turned, true, true);
    m := table.stored[1];
    assert table.stored == [own, m];
  }

  function FlagsOf(syn: bool, ack: bool): Flags {
    Flags(syn, ack, false, false, false)
  }

  /**
    The three packets that open a connection, on a new table: one stream, the client's end first,
    and it is established. The server's sequence number does not matter.
   */
  method Handshake(mix: Mix, c: u32, cp: word, s: u32, sp: word, a: u32, b: u32, d: u32) returns (table: Table)
    requires (c, cp) != (s, sp) && 0 < Ntohl(a) < Ntohl(d)
    ensures table.Valid() && table.Tracked() && |table.stored| == 1
    ensures table.stored[0].tup == Tup(V4(c, cp), V4(s, sp)) && table.stored[0].state == EST
  {
    ghost var st;
    table, st := OpenOne(mix, c, cp, s, sp, a);
    Answered(table, st, c, cp, s, sp, b);
    Acknowledged(table, st, c, cp, s, sp, b, d);
    ghost var one, two := Segment(1, Ntohl(b), FlagsOf(true, true)), Segment(0, Ntohl(d), FlagsOf(false, true));
    HandshakeStates(st.seqs, one, two);
    assert st in table.stored;
  }

  lemma HandshakeStates(seqs: (nat, nat), one: Segment, two: Segment)
    requires seqs.1 == 0 && one.dir == 1 && two.dir == 0 && two.seqno > seqs.0
    requires one.flags == FlagsOf(true, true) && two.flags == FlagsOf(false, true)
    ensures Run(seqs, SYN, [one, two]) == EST
  {
    assert [] + [one] == [one] && [one] + [two] == [one, two];
    RunLast(seqs, SYN, [], one);
    RunLast(seqs, SYN, [one], two);
  }

  /** The second: it comes from the server. */
  method Answered(table: Table, ghost st: Stream, c: u32, cp: word, s: u32, sp: word, b: u32)
    requires table.Valid() && table.Tracked() && table.stored == [st] && st.tup == Tup(V4(c, cp), V4(s, sp))
    modifies table, st
    ensures table.Valid() && table.Tracked() && table.stored == [st]
    ensures table.log[st] == old(table.log[st]) + [Segment(1, Ntohl(b), FlagsOf(true, true))]
  {
    AnswersItself(table.mix, st);
    var ret, hit, dir := table.Decode(Packet(IPv4(s, c), true, sp, cp, b, FlagsOf(true, true)), true, true);
    assert st in [st];
  }

  /** The third: it comes from the client. */
  method Acknowledged(table: Table, ghost st: Stream, c: u32, cp: word, s: u32, sp: word, ghost b: u32, d: u32)
    requires table.Valid() && table.Tracked() && table.stored == [st] && st.tup == Tup(V4(c, cp), V4(s, sp))
    requires (c, cp) != (s, sp) && table.log[st] == [Segment(1, Ntohl(b), FlagsOf(true, true))]
    modifies table, st
    ensures table.Valid() && table.Tracked() && table.stored == [st]
    ensures table.log[st] == [Segment(1, Ntohl(b), FlagsOf(true, true)), Segment(0, Ntohl(d), FlagsOf(false, true))]
  {
    AnswersItself(table.mix, st);
    assert NoneAnswers([st], table.mix, Reversed(st.tup));
    var ret, hit, dir := table.Decode(Packet(IPv4(c, s), true, cp, sp, d, FlagsOf(false, true)), true, true);
    assert st in [st];
  }

  lemma AnswersItself(mix: Mix, st: Stream)
    ensures !NoneAnswers([st], mix, st.tup)
  {
    assert st in [st] && mix.Answers(st.tup, st.tup);
  }

  /** The first of the three. */
  method OpenOne(mix: Mix, c: u32, cp: word, s: u32, sp: word, a: u32) returns (table: Table, ghost st: Stream)
    ensures fresh(table) && fresh(st) && table.mix == mix && table.Valid() && table.Tracked() && table.stored == [st]
    ensures st.tup == Tup(V4(c, cp), V4(s, sp)) && st.seqs == (Ntohl(a), 0) && table.log[st] == []
  {
    table := new Table(mix);
    var ret, hit, dir := table.Decode(Packet(IPv4(c, s), true, cp, sp, a, FlagsOf(true, false)), true, true);
    st := table.stored[0];
  }
}
