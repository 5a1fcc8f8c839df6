/**
  The reader/writer lock of rwlock.h for any number of threads. The read of `cnt` and the
  compare-and-set that follows it are separate steps, so anything may happen in between.
 */
module Rwlock {
  import opened Runs

  const TWO31: int := 0x8000_0000
  const TWO32: int := 0x1_0000_0000

  /** A sum as a 32-bit signed integer holds it. */
  function Wrap(x: int): int {
    (x + TWO31) % TWO32 - TWO31
  }

  /** Where a thread stands. */
  datatype Thread =
    | Outside
    | RdLoop          // in rwlock_rdlock, about to read cnt
    | RdRead(x: int)  // has read x >= 0
    | Reading
    | WrLoop          // in rwlock_wrlock, about to read cnt
    | WrRead          // has read 0
    | Writing

  datatype System = System(cnt: int, threads: seq<Thread>)

  datatype Step =
    | RdEnter(i: nat) | RdLook(i: nat) | RdSwap(i: nat) | RdLeave(i: nat)
    | WrEnter(i: nat) | WrLook(i: nat) | WrSwap(i: nat) | WrLeave(i: nat)

  predicate Enabled(s: System, t: Step) {
    && t.i < |s.threads|
    && (match t
        case RdEnter(i) => s.threads[i].Outside?
        case RdLook(i) => s.threads[i].RdLoop?
        case RdSwap(i) => s.threads[i].RdRead?
        case RdLeave(i) => s.threads[i].Reading?
        case WrEnter(i) => s.threads[i].Outside?
        case WrLook(i) => s.threads[i].WrLoop?
        case WrSwap(i) => s.threads[i].WrRead?
        case WrLeave(i) => s.threads[i].Writing?)
  }

  function Do(s: System, t: Step): System {
    var ts := s.threads;
    if !Enabled(s, t) then s else
    match t
    case RdEnter(i) => s.(threads := ts[i := RdLoop])
    case RdLook(i) => if s.cnt < 0 then s else s.(threads := ts[i := RdRead(s.cnt)])
    case RdSwap(i) =>
      if s.cnt == ts[i].x then System(Wrap(ts[i].x + 1), ts[i := Reading]) else s.(threads := ts[i := RdLoop])
    case RdLeave(i) => System(Wrap(s.cnt - 1), ts[i := Outside])
    case WrEnter(i) => s.(threads := ts[i := WrLoop])
    case WrLook(i) => if s.cnt != 0 then s else s.(threads := ts[i := WrRead])
    case WrSwap(i) =>
      if s.cnt == 0 then System(-1, ts[i := Writing]) else s.(threads := ts[i := WrLoop])
    case WrLeave(i) => System(Wrap(s.cnt + 1), ts[i := Outside])
  }

  function Readers(ts: seq<Thread>): nat {
    if ts == [] then 0 else (if ts[0].Reading? then 1 else 0) + Readers(ts[1..])
  }

  function Writers(ts: seq<Thread>): nat {
    if ts == [] then 0 else (if ts[0].Writing? then 1 else 0) + Writers(ts[1..])
  }

  lemma {:induction false} CountsMove(ts: seq<Thread>, i: nat, t: Thread)
    requires i < |ts|
    ensures Readers(ts[i := t]) == Readers(ts) + (if t.Reading? then 1 else 0) - (if ts[i].Reading? then 1 else 0)
    ensures Writers(ts[i := t]) == Writers(ts) + (if t.Writing? then 1 else 0) - (if ts[i].Writing? then 1 else 0)
  {
    if i == 0 {
      assert ts[i := t][1..] == ts[1..];
    } else {
      assert ts[i := t][1..] == ts[1..][i - 1 := t];
      CountsMove(ts[1..], i - 1, t);
    }
  }

  lemma {:induction false} CountsBound(ts: seq<Thread>)
    ensures Readers(ts) + Writers(ts) <= |ts|
    ensures forall i :: 0 <= i < |ts| && !ts[i].Reading? && !ts[i].Writing? ==> Readers(ts) + Writers(ts) < |ts|
    ensures forall i :: 0 <= i < |ts| && ts[i].Reading? ==> Readers(ts) >= 1
    ensures forall i :: 0 <= i < |ts| && ts[i].Writing? ==> Writers(ts) >= 1
    ensures forall i, j :: 0 <= i < j < |ts| && ts[i].Writing? && ts[j].Writing? ==> Writers(ts) >= 2
  {
    if ts != [] {
      CountsBound(ts[1..]);
      assert forall i :: 1 <= i < |ts| ==> ts[1..][i - 1] == ts[i];
    }
  }

  /**
    `cnt` is -1 exactly under one writer and no reader; otherwise it is the number of readers
    as 32 bits hold it. A reader enters only over a count that is not negative, so there are
    at most 2^31 of them however many threads try.
   */
  ghost predicate Inv(s: System) {
    && (if s.cnt == -1 then Writers(s.threads) == 1 && Readers(s.threads) == 0
        else Writers(s.threads) == 0 && Readers(s.threads) <= TWO31 && s.cnt == Wrap(Readers(s.threads)))
    && (forall i :: 0 <= i < |s.threads| && s.threads[i].RdRead? ==> 0 <= s.threads[i].x < TWO31)
  }

  /** The whole range of counts that occurs. */
  lemma WrapIs(x: int)
    requires -TWO31 - 1 <= x <= TWO31
    ensures Wrap(x) == if x == TWO31 then -TWO31 else if x == -TWO31 - 1 then TWO31 - 1 else x
  {
  }

  /** Both numbers of threads inside after a step, and the count they go with. */
  lemma CountStep(s: System, t: Step)
    requires Inv(s) && Enabled(s, t)
    ensures var e := Do(s, t);
            if e.cnt == -1 then Writers(e.threads) == 1 && Readers(e.threads) == 0
            else Writers(e.threads) == 0 && Readers(e.threads) <= TWO31 && e.cnt == Wrap(Readers(e.threads))
  {
    CountsBound(s.threads);
    var e := Do(s, t);
    CountsMove(s.threads, t.i, e.threads[t.i]);
    assert e.threads == s.threads[t.i := e.threads[t.i]];
    WrapIs(Readers(s.threads));
    WrapIs(Readers(e.threads));
    WrapIs(s.cnt + 1);
    WrapIs(s.cnt - 1);
  }

  lemma InvStep(s: System, t: Step)
    requires Inv(s) && Enabled(s, t)
    ensures Inv(Do(s, t)) && |Do(s, t).threads| == |s.threads|
  {
    CountStep(s, t);
    WrapIs(Readers(s.threads));
  }

  predicate Possible(s: System, ts: seq<Step>) {
    Allowed(Enabled, Do, s, ts)
  }

  function Run(s: System, ts: seq<Step>): System {
    After(Do, s, ts)
  }

  function Start(n: nat): System {
    System(0, seq(n, _ => Outside))
  }

  lemma {:induction false} StartCounts(n: nat)
    ensures Readers(Start(n).threads) == 0 && Writers(Start(n).threads) == 0
  {
    if n > 0 {
      StartCounts(n - 1);
      assert Start(n).threads[1..] == Start(n - 1).threads;
    }
  }

  lemma {:induction false} InvRun(s: System, ts: seq<Step>)
    requires Inv(s) && Possible(s, ts)
    ensures Inv(Run(s, ts)) && |Run(s, ts).threads| == |s.threads|
    decreases |ts|
  {
    if ts != [] {
      InvStep(s, ts[0]);
      InvRun(Do(s, ts[0]), ts[1..]);
    }
  }

  /**
    In every interleaving of any number of threads a writer is alone inside, and `cnt` is -1
    exactly then. Without a writer `cnt` is the number of readers exactly below 2^31 of them.
   */
  lemma WriterIsAlone(n: nat, ts: seq<Step>)
    requires Possible(Start(n), ts)
    ensures var s := Run(Start(n), ts);
            && |s.threads| == n
            && (s.cnt == -1 <==> Writers(s.threads) == 1)
            && (s.cnt != -1 ==> Writers(s.threads) == 0 && (s.cnt == Readers(s.threads) <==> Readers(s.threads) < TWO31))
            && (forall i, j :: 0 <= i < n && 0 <= j < n && i != j && s.threads[i].Writing? ==>
                                 !s.threads[j].Writing? && !s.threads[j].Reading?)
  {
    StartCounts(n);
    InvRun(Start(n), ts);
    CountsBound(Run(Start(n), ts).threads);
  }

  // ---------------------------------------------------------------- who gets in

  /** A thread that asks for the write lock with nobody in between gets it exactly when the count is 0. */
  lemma WriterGetsIn(s: System, i: nat)
    requires i < |s.threads| && s.threads[i].Outside?
    ensures var ts := [WrEnter(i), WrLook(i), WrSwap(i)];
            && (Possible(s, ts) <==> s.cnt == 0)
            && (s.cnt == 0 ==> Run(s, ts) == System(-1, s.threads[i := Writing]))
    ensures s.cnt != 0 ==> Run(s, [WrEnter(i), WrLook(i)]) == System(s.cnt, s.threads[i := WrLoop])
  {
    var a, b := Do(s, WrEnter(i)), Do(Do(s, WrEnter(i)), WrLook(i));
    ThreeSteps(s, WrEnter(i), WrLook(i), WrSwap(i));
    TwoSteps(s, WrEnter(i), WrLook(i));
    assert s.cnt == 0 ==> Do(b, WrSwap(i)).threads == s.threads[i := Writing];
    assert s.cnt != 0 ==> b == a && b.threads == s.threads[i := WrLoop];
  }

  /** One that asks for the read lock gets it exactly when the count is not negative. */
  lemma ReaderGetsIn(s: System, i: nat)
    requires i < |s.threads| && s.threads[i].Outside?
    ensures var ts := [RdEnter(i), RdLook(i), RdSwap(i)];
            && (Possible(s, ts) <==> s.cnt >= 0)
            && (0 <= s.cnt < TWO31 - 1 ==> Run(s, ts) == System(s.cnt + 1, s.threads[i := Reading]))
    ensures s.cnt < 0 ==> Run(s, [RdEnter(i), RdLook(i)]) == System(s.cnt, s.threads[i := RdLoop])
  {
    var a, b := Do(s, RdEnter(i)), Do(Do(s, RdEnter(i)), RdLook(i));
    ThreeSteps(s, RdEnter(i), RdLook(i), RdSwap(i));
    TwoSteps(s, RdEnter(i), RdLook(i));
    if 0 <= s.cnt < TWO31 - 1 {
      WrapIs(s.cnt + 1);
    }
    assert s.cnt >= 0 ==> Do(b, RdSwap(i)).threads == s.threads[i := Reading];
    assert s.cnt < 0 ==> b == a && b.threads == s.threads[i := RdLoop];
  }

  /** Somebody who lost the race between reading the count and setting it goes round again, with nothing changed. */
  lemma LostRaceRetries(s: System, i: nat)
    requires i < |s.threads|
    ensures s.threads[i].RdRead? && s.threads[i].x != s.cnt ==> Do(s, RdSwap(i)) == System(s.cnt, s.threads[i := RdLoop])
    ensures s.threads[i].WrRead? && s.cnt != 0 ==> Do(s, WrSwap(i)) == System(s.cnt, s.threads[i := WrLoop])
  {
  }

  /** Leaving undoes entering. */
  lemma LeavingFrees(s: System, i: nat)
    requires i < |s.threads|
    ensures s.cnt == -1 && s.threads[i].Writing? ==> Do(s, WrLeave(i)) == System(0, s.threads[i := Outside])
    ensures 1 <= s.cnt < TWO31 && s.threads[i].Reading? ==>
              Do(s, RdLeave(i)) == System(s.cnt - 1, s.threads[i := Outside])
  {
    WrapIs(0);
    if 1 <= s.cnt < TWO31 {
      WrapIs(s.cnt - 1);
    }
  }

  /** After any interleaving, a lock with nobody inside is free: any thread outside can take it either way. */
  lemma FreeLockCanBeTaken(n: nat, ts: seq<Step>, i: nat)
    requires Possible(Start(n), ts)
    requires var s := Run(Start(n), ts); i < n && |s.threads| == n && s.threads[i].Outside?
                                         && Readers(s.threads) == 0 && Writers(s.threads) == 0
    ensures var s := Run(Start(n), ts);
            && Possible(s, [WrEnter(i), WrLook(i), WrSwap(i)])
            && Possible(s, [RdEnter(i), RdLook(i), RdSwap(i)])
  {
    WriterIsAlone(n, ts);
    WriterGetsIn(Run(Start(n), ts), i);
    ReaderGetsIn(Run(Start(n), ts), i);
  }

  lemma TwoSteps(s: System, t: Step, u: Step)
    ensures Possible(s, [t, u]) <==> Enabled(s, t) && Enabled(Do(s, t), u)
    ensures Run(s, [t, u]) == Do(Do(s, t), u)
  {
    assert [t, u] == [t] + [u];
    AfterFirst(Enabled, Do, s, t, [u]);
    AfterOne(Enabled, Do, Do(s, t), u);
  }

  lemma ThreeSteps(s: System, t: Step, u: Step, v: Step)
    ensures Possible(s, [t, u, v]) <==> Enabled(s, t) && Enabled(Do(s, t), u) && Enabled(Do(Do(s, t), u), v)
    ensures Run(s, [t, u, v]) == Do(Do(Do(s, t), u), v)
  {
    assert [t, u, v] == [t] + [u, v];
    AfterFirst(Enabled, Do, s, t, [u, v]);
    TwoSteps(Do(s, t), u, v);
  }

  // ---------------------------------------------------------------- one reader too many

  /** The first `k` threads take the read lock one after the other. */
  lemma {:induction false} ReadersPileUp(n: nat, k: nat) returns (ts: seq<Step>)
    requires k <= n && k <= TWO31
    ensures Possible(Start(n), ts)
    ensures var s := Run(Start(n), ts);
            && s.cnt == Wrap(k) && |s.threads| == n
            && (forall i :: 0 <= i < n ==> s.threads[i] == if i < k then Reading else Outside)
  {
    ts := [];
    if k > 0 {
      ts := ReadersPileUp(n, k - 1);
      AfterThen(Enabled, Do, Start(n), ts, RdEnter(k - 1));
      ts := ts + [RdEnter(k - 1)];
      AfterThen(Enabled, Do, Start(n), ts, RdLook(k - 1));
      ts := ts + [RdLook(k - 1)];
      AfterThen(Enabled, Do, Start(n), ts, RdSwap(k - 1));
      ts := ts + [RdSwap(k - 1)];
    }
  }

  /** With 2^31 threads or more `cnt` can go negative under readers alone. */
  lemma TooManyReaders(n: nat) returns (ts: seq<Step>)
    requires n >= TWO31
    ensures Possible(Start(n), ts)
    ensures var s := Run(Start(n), ts); s.cnt < 0 && s.cnt != -1 && s.cnt != Readers(s.threads)
  {
    ts := ReadersPileUp(n, TWO31);
  }

  /** `cnt` tells who is inside: -1 for a writer, else the number of readers. */
  ghost predicate CountRight(s: System) {
    s.cnt == if Writers(s.threads) > 0 then -1 else Readers(s.threads)
  }

  /** So the count is right in every interleaving exactly for fewer than 2^31 threads. */
  lemma CountRightExactly(n: nat)
    ensures (forall ts :: Possible(Start(n), ts) ==> CountRight(Run(Start(n), ts))) <==> n < TWO31
  {
    if n < TWO31 {
      forall ts | Possible(Start(n), ts)
        ensures CountRight(Run(Start(n), ts))
      {
        WriterIsAlone(n, ts);
        CountsBound(Run(Start(n), ts).threads);
      }
    } else {
      var ts := TooManyReaders(n);
      WriterIsAlone(n, ts);
      assert !CountRight(Run(Start(n), ts));
    }
  }
}
