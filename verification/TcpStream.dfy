/** The connection states of tcp_stream.c and what a run of packets does to them. */
module TcpStreams {

  datatype State = SYN | SYN_ACK | EST | FIN1 | FIN1_ACK | FIN2 | CLOSE

  datatype Flags = Flags(syn: bool, ack: bool, fin: bool, psh: bool, rst: bool)

  /** A TCP segment; `dir` is 1 from the server and 0 from the client. */
  datatype Segment = Segment(dir: nat, seqno: nat, flags: Flags)

  /** The order in which the C enumeration lists the states. */
  function Rank(s: State): nat {
    match s
    case SYN => 0
    case SYN_ACK => 1
    case EST => 2
    case FIN1 => 3
    case FIN1_ACK => 4
    case FIN2 => 5
    case CLOSE => 6
  }

  /** _tcp_check_seq: only the sequence number noted at creation is ever compared with. */
  predicate InRange(seqs: (nat, nat), g: Segment) {
    var noted := if g.dir % 2 == 0 then seqs.0 else seqs.1;
    noted == 0 || g.seqno > noted
  }

  predicate Accepted(seqs: (nat, nat), g: Segment) {
    InRange(seqs, g) && !g.flags.rst
  }

  /** The state switch. */
  function Next(s: State, g: Segment): State {
    var h := g.flags;
    match s
    case SYN => if g.dir == 1 && h.syn && h.ack then SYN_ACK else s
    case SYN_ACK => if g.dir == 0 && h.ack then EST else s
    case EST => if h.fin then FIN1 else s
    case FIN1 => if h.fin then FIN2 else if h.ack then FIN1_ACK else s
    case FIN1_ACK => if h.fin then FIN2 else s
    case FIN2 => if h.ack then CLOSE else s
    case CLOSE => s
  }

  function Step(seqs: (nat, nat), s: State, g: Segment): State {
    if Accepted(seqs, g) then Next(s, g) else s
  }

  /** The state after the packets `gs`, beginning at `s`. */
  function Run(seqs: (nat, nat), s: State, gs: seq<Segment>): State {
    if gs == [] then s
    else Step(seqs, Run(seqs, s, gs[..|gs| - 1]), gs[|gs| - 1])
  }

  /** How far the connection has come, counted in milestones. */
  function Level(s: State): nat {
    match s
    case SYN => 0
    case SYN_ACK => 1
    case EST => 2
    case FIN1 => 3
    case FIN1_ACK => 3
    case FIN2 => 4
    case CLOSE => 5
  }

  /** The packet that marks milestone `k`: server SYN+ACK, client ACK, a FIN, another FIN, an ACK. */
  predicate Marks(seqs: (nat, nat), g: Segment, k: nat) {
    && Accepted(seqs, g)
    && (match k
        case 1 => g.dir == 1 && g.flags.syn && g.flags.ack
        case 2 => g.dir == 0 && g.flags.ack
        case 3 => g.flags.fin
        case 4 => g.flags.fin
        case 5 => g.flags.ack
        case _ => false)
  }

  /** Packets marking milestones 1 to `k` stand in `gs` in that order, one packet each. */
  ghost predicate Saw(seqs: (nat, nat), gs: seq<Segment>, k: nat)
    decreases k
  {
    k == 0 || exists i :: 0 <= i < |gs| && Marks(seqs, gs[i], k) && Saw(seqs, gs[..i], k - 1)
  }

  lemma {:induction false} SawExtended(seqs: (nat, nat), gs: seq<Segment>, g: Segment, k: nat)
    ensures Saw(seqs, gs + [g], k) <==> Saw(seqs, gs, k) || (k > 0 && Marks(seqs, g, k) && Saw(seqs, gs, k - 1))
  {
    if k > 0 {
      var all := gs + [g];
      assert forall i :: 0 <= i <= |gs| ==> all[..i] == gs[..i];
      assert gs[..|gs|] == gs;
      if Saw(seqs, gs, k) {
        var i :| 0 <= i < |gs| && Marks(seqs, gs[i], k) && Saw(seqs, gs[..i], k - 1);
        assert all[i] == gs[i];
      }
      if Marks(seqs, g, k) && Saw(seqs, gs, k - 1) {
        assert all[|gs|] == g;
      }
      if Saw(seqs, all, k) {
        var i :| 0 <= i < |all| && Marks(seqs, all[i], k) && Saw(seqs, all[..i], k - 1);
      }
    }
  }

  /** One packet passes at most one milestone, the next one, and passes it exactly when it marks it. */
  lemma StepLevel(seqs: (nat, nat), s: State, g: Segment, k: nat)
    requires 1 <= k <= 5
    ensures Level(Step(seqs, s, g)) >= k <==> Level(s) >= k || (Level(s) >= k - 1 && Marks(seqs, g, k))
  {
  }

  /**
    A stream created by a SYN has reached a level exactly when the packets marking the
    milestones up to it came in order: established means a server SYN+ACK and later a client
    ACK; closed means two FINs after that, in distinct packets, and then an ACK.
   */
  lemma {:induction false} LevelIsWhatWasSeen(seqs: (nat, nat), gs: seq<Segment>, k: nat)
    requires 1 <= k <= 5
    ensures Level(Run(seqs, SYN, gs)) >= k <==> Saw(seqs, gs, k)
    decreases |gs|
  {
    if gs == [] {
      assert !Saw(seqs, gs, k);
    } else {
      var before, g := gs[..|gs| - 1], gs[|gs| - 1];
      LevelIsWhatWasSeen(seqs, before, k);
      if k == 1 {
        assert Saw(seqs, before, k - 1);
      } else {
        LevelIsWhatWasSeen(seqs, before, k - 1);
      }
      StepLevel(seqs, Run(seqs, SYN, before), g, k);
      assert before + [g] == gs;
      SawExtended(seqs, before, g, k);
    }
  }

  /** The state never moves backwards, packet by packet or over a run. */
  lemma {:induction false} NeverBackwards(seqs: (nat, nat), s: State, gs: seq<Segment>, i: nat)
    requires i <= |gs|
    ensures Rank(Run(seqs, s, gs[..i])) <= Rank(Run(seqs, s, gs))
    decreases |gs|
  {
    if i == |gs| {
      assert gs[..i] == gs;
    } else {
      var z := |gs| - 1;
      NeverBackwards(seqs, s, gs[..z], i);
      assert gs[..z][..i] == gs[..i];
    }
  }

  function AcceptedOnly(seqs: (nat, nat), gs: seq<Segment>): seq<Segment> {
    if gs == [] then []
    else
      var z := |gs| - 1;
      AcceptedOnly(seqs, gs[..z]) + if Accepted(seqs, gs[z]) then [gs[z]] else []
  }

  /** RST and out-of-range packets make no difference to a run. */
  lemma {:induction false} RejectedMakeNoDifference(seqs: (nat, nat), s: State, gs: seq<Segment>)
    ensures Run(seqs, s, AcceptedOnly(seqs, gs)) == Run(seqs, s, gs)
  {
    if gs != [] {
      var z := |gs| - 1;
      RejectedMakeNoDifference(seqs, s, gs[..z]);
      var a := AcceptedOnly(seqs, gs[..z]);
      if Accepted(seqs, gs[z]) {
        assert (a + [gs[z]])[..|a|] == a;
      } else {
        assert a + [] == a;
      }
    }
  }

  /** Which packets are dropped: a reset, and one that does not go beyond the number noted for its side, if one is. */
  lemma DroppedExactly(seqs: (nat, nat), s: State, g: Segment)
    requires g.dir == 0 || g.dir == 1
    ensures g.flags.rst || (g.dir == 0 && 0 < g.seqno <= seqs.0) || (g.dir == 1 && 0 < g.seqno <= seqs.1) ==>
              Step(seqs, s, g) == s
    ensures !g.flags.rst && (g.dir == 0 && (seqs.0 == 0 || seqs.0 < g.seqno)) ==> Step(seqs, s, g) == Next(s, g)
    ensures !g.flags.rst && (g.dir == 1 && (seqs.1 == 0 || seqs.1 < g.seqno)) ==> Step(seqs, s, g) == Next(s, g)
  {
  }

  /** A packet that is not dropped, as it continues a connection. */
  predicate Fresh(seqs: (nat, nat), g: Segment) {
    !g.flags.rst && g.seqno > seqs.0 && g.seqno > seqs.1 && (g.dir == 0 || g.dir == 1)
  }

  /** The two ways from established to closed: the FIN is acknowledged on its own, or together with the second FIN. */
  lemma Teardown(seqs: (nat, nat), fin: Segment, ack: Segment, fin2: Segment, last: Segment)
    requires Fresh(seqs, fin) && Fresh(seqs, ack) && Fresh(seqs, fin2) && Fresh(seqs, last)
    requires fin.flags.fin && fin2.flags.fin && ack.flags.ack && !ack.flags.fin && last.flags.ack
    ensures Run(seqs, EST, [fin]) == FIN1
    ensures Run(seqs, EST, [fin, ack]) == FIN1_ACK
    ensures Run(seqs, EST, [fin, ack, fin2]) == FIN2
    ensures Run(seqs, EST, [fin, fin2]) == FIN2
    ensures Run(seqs, EST, [fin, ack, fin2, last]) == CLOSE
  {
    assert [] + [fin] == [fin] && [fin] + [ack] == [fin, ack] && [fin] + [fin2] == [fin, fin2];
    assert [fin, ack] + [fin2] == [fin, ack, fin2] && [fin, ack, fin2] + [last] == [fin, ack, fin2, last];
    RunLast(seqs, EST, [], fin);
    RunLast(seqs, EST, [fin], ack);
    RunLast(seqs, EST, [fin, ack], fin2);
    RunLast(seqs, EST, [fin], fin2);
    RunLast(seqs, EST, [fin, ack, fin2], last);
  }

  lemma RunLast(seqs: (nat, nat), s: State, gs: seq<Segment>, g: Segment)
    ensures Run(seqs, s, gs + [g]) == Step(seqs, Run(seqs, s, gs), g)
  {
    assert (gs + [g])[..|gs|] == gs;
  }
}
