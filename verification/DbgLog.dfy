/**
  The ring log of dbg_log.c: a header and `mrec` record slots in a file, the oldest record
  overwritten first. The file is the records it holds by offset; `hist` is everything
  written since creation or the last clear.
 */
module DbgLog {
  import opened SeqFacts

  const HEADER_LEN: nat := 20

  type Record = seq<nat>

  function Offset(slot: nat, reclen: nat): nat {
    HEADER_LEN + slot * reclen
  }

  /** The slots are apart, and clear of the header. */
  lemma {:induction false} SlotsApart(i: nat, j: nat, reclen: nat)
    requires i < j
    ensures HEADER_LEN <= Offset(i, reclen) && Offset(i, reclen) + reclen <= Offset(j, reclen)
  {
    NextOffset(j - 1, reclen);
    if i < j - 1 {
      SlotsApart(i, j - 1, reclen);
    }
  }

  lemma NextOffset(i: nat, reclen: nat)
    ensures Offset(i + 1, reclen) == Offset(i, reclen) + reclen
  {
  }

  /** The record count as the code keeps it: one behind when the ring has just been filled. */
  function CountAfter(w: nat, mrec: nat): nat
    requires mrec >= 1
  {
    if w < mrec then w else if w == mrec then mrec - 1 else mrec
  }

  function Oldest(w: nat, mrec: nat): nat {
    if w < mrec then 0 else w - mrec
  }

  lemma ModNext(w: nat, m: nat)
    requires m >= 1
    ensures (w + 1) % m == if w % m + 1 == m then 0 else w % m + 1
  {
    var q, r := w / m, w % m;
    assert w + 1 == q * m + (r + 1);
    if r + 1 == m {
      ModIs(w + 1, m, q + 1, 0);
    } else {
      ModIs(w + 1, m, q, r + 1);
    }
  }

  lemma ModIs(x: nat, m: nat, q: nat, r: nat)
    requires m >= 1 && x == q * m + r && r < m
    ensures x % m == r
  {
    var d := x / m - q;
    assert d * m == x / m * m - q * m;
    assert x % m == r - d * m;
    Scaled(d, m);
  }

  lemma Scaled(d: int, m: int)
    requires m >= 0
    ensures d >= 1 ==> d * m >= m
    ensures d <= -1 ==> d * m <= -m
  {
  }

  /** Adding a whole turn or reducing first makes no difference. */
  lemma ModShift(w: nat, i: nat, m: nat)
    requires m >= 1 && m <= w && i < m
    ensures (w - m + i) % m == (w % m + i) % m
  {
    var q, r := w / m, w % m;
    assert w == q * m + r;
    var a := r + i;
    if a < m {
      ModIs(a, m, 0, a);
      if q >= 1 {
        assert w - m + i == (q - 1) * m + a;
        ModIs(w - m + i, m, q - 1, a);
      }
    } else {
      ModIs(a, m, 1, a - m);
      assert w - m + i == q * m + (a - m);
      ModIs(w - m + i, m, q, a - m);
    }
  }

  /** Fewer than `m` writes apart, two records lie in different slots. */
  lemma SlotsDiffer(j: nat, w: nat, m: nat)
    requires m >= 1 && j < w < j + m
    ensures j % m != w % m
  {
    var q, r := j / m, j % m;
    var d := w - j;
    assert w == q * m + (r + d);
    if r + d < m {
      ModIs(w, m, q, r + d);
    } else {
      assert w == (q + 1) * m + (r + d - m);
      ModIs(w, m, q + 1, r + d - m);
    }
  }

  lemma OffsetsDiffer(a: nat, b: nat, reclen: nat)
    requires reclen >= 1 && Offset(a, reclen) == Offset(b, reclen)
    ensures a == b
  {
    assert (a - b) * reclen == 0;
    Scaled(a - b, reclen);
  }

  /** The records from number `lo` on are in the file, each in its slot. */
  ghost predicate Holds(file: map<nat, Record>, hist: seq<Record>, mrec: nat, reclen: nat, lo: nat)
    requires mrec >= 1
  {
    forall j :: lo <= j < |hist| ==>
                  Offset(j % mrec, reclen) in file && file[Offset(j % mrec, reclen)] == hist[j]
  }

  /** The slots of the last `mrec` records have been written, whatever is in them. */
  ghost predicate Present(file: map<nat, Record>, w: nat, mrec: nat, reclen: nat)
    requires mrec >= 1
  {
    forall j :: Oldest(w, mrec) <= j < w ==> Offset(j % mrec, reclen) in file
  }

  /** The number of the oldest record that does not share the slot written next. */
  function NextOldest(w: nat, mrec: nat): nat {
    Oldest(w + 1, mrec)
  }

  /** Whatever is written at the write position, every record but the one overwritten stays. */
  lemma WriteHolds(file: map<nat, Record>, hist: seq<Record>, mrec: nat, reclen: nat, lo: nat, rec: Record)
    requires mrec >= 1 && reclen >= 1 && lo <= NextOldest(|hist|, mrec) && Holds(file, hist, mrec, reclen, lo)
    requires Present(file, |hist|, mrec, reclen)
    ensures var f := file[Offset(|hist| % mrec, reclen) := rec];
            && Holds(f, hist, mrec, reclen, NextOldest(|hist|, mrec))
            && Holds(f, hist + [rec], mrec, reclen, NextOldest(|hist|, mrec))
            && Present(f, |hist|, mrec, reclen) && Present(f, |hist| + 1, mrec, reclen)
  {
    var w, at := |hist|, Offset(|hist| % mrec, reclen);
    forall j | NextOldest(w, mrec) <= j < w
      ensures Offset(j % mrec, reclen) != at
    {
      SlotsDiffer(j, w, mrec);
      if Offset(j % mrec, reclen) == at {
        OffsetsDiffer(j % mrec, w % mrec, reclen);
      }
    }
  }

  /** How a write to the file goes: whole, or with `junk` left in the slot and the header as it was. */
  datatype Outcome = Done | Failed(junk: Record)

  class Log {
    const reclen: nat
    const mrec: nat
    var wpos: nat
    var wrec: nat
    var nrec: nat
    var file: map<nat, Record>
    ghost var hist: seq<Record>
    /** A failed write has left something at the write position. */
    ghost var spoiled: bool

    /** The number of the oldest record that is sure to be in the file. */
    ghost function Sound(): nat
      reads this
    {
      if spoiled then NextOldest(|hist|, mrec) else Oldest(|hist|, mrec)
    }

    ghost predicate Valid()
      reads this
    {
      && mrec >= 2 && reclen >= 1
      && wrec == |hist| % mrec
      && wpos == Offset(wrec, reclen)
      && nrec == CountAfter(|hist|, mrec)
      && Holds(file, hist, mrec, reclen, Sound())
      && Present(file, |hist|, mrec, reclen)
    }

    /** _dl_open on a file without a valid header. */
    constructor (reclen: nat, maxrec: nat, file: map<nat, Record>)
      requires maxrec >= 2 && reclen >= 1
      ensures Valid() && hist == [] && !spoiled && this.mrec == maxrec && this.reclen == reclen
    {
      this.reclen, mrec := reclen, maxrec;
      nrec, wrec, wpos := 0, 0, HEADER_LEN;
      this.file, hist, spoiled := file, [], false;
    }

    /**
      _dl_write. A write that fails, of the record or of the header, costs at most the oldest
      record, and only until the next one that succeeds.
     */
    method Write(rec: Record, o: Outcome) returns (ret: int)
      requires Valid() && |rec| == reclen
      requires o.Failed? && |hist| >= mrec ==> |o.junk| == reclen
      modifies this
      ensures Valid() && ret == if o.Done? then 0 else -1
      ensures hist == (if o.Done? then old(hist) + [rec] else old(hist)) && spoiled == o.Failed?
    {
      WriteHolds(file, hist, mrec, reclen, Sound(), if o.Done? then rec else o.junk);
      if o.Failed? {
        file := file[wpos := o.junk];
        spoiled := true;
        return -1;
      }
      file := file[wpos := rec];
      Advance(rec);
      ret := 0;
    }

    /** The new header. */
    method Advance(ghost rec: Record)
      requires mrec >= 2 && reclen >= 1 && wrec == |hist| % mrec && wpos == Offset(wrec, reclen)
      requires nrec == CountAfter(|hist|, mrec)
      requires Holds(file, hist + [rec], mrec, reclen, NextOldest(|hist|, mrec))
      requires Present(file, |hist| + 1, mrec, reclen)
      modifies this`wrec, this`wpos, this`nrec, this`hist, this`spoiled
      ensures Valid() && hist == old(hist) + [rec] && !spoiled
    {
      ModNext(|hist|, mrec);
      SlotOfFull(|hist|, mrec);
      wrec := wrec + 1;
      assert Offset(wrec, reclen) == wpos + reclen;
      wpos := wpos + reclen;
      if wrec >= mrec {
        wrec := 0;
        wpos := HEADER_LEN;
      } else if nrec < mrec {
        nrec := nrec + 1;
      }
      hist, spoiled := hist + [rec], false;
    }

    /**
      dbg_log_read: index i is the i-th oldest record still held. Every one can be read, except
      the newest just when the ring has been filled for the first time.
     */
    method Read(index: int, len: nat) returns (r: Option<Record>)
      requires Valid()
      ensures r.Some? <==> len >= 1 && 0 <= index < |hist| && index < mrec && !(|hist| == mrec && index == mrec - 1)
      ensures r.Some? && !(spoiled && |hist| >= mrec && index == 0) ==>
                var n := if |hist| < mrec then index else |hist| - mrec + index;
                n < |hist| && r.value == if len > |hist[n]| then hist[n] else hist[n][..len]
    {
      if len < 1 || index < 0 || index >= nrec {
        return None;
      }
      ReadBack(file, hist, mrec, reclen, Sound(), index);
      var srec := if nrec == mrec then wrec else 0;
      srec := (srec + index) % mrec;
      var rec := file[Offset(srec, reclen)];
      r := Some(if len > |rec| then rec else rec[..len]);
    }

    /** dbg_log_clear. */
    method Clear()
      requires Valid()
      modifies this
      ensures Valid() && hist == []
    {
      if nrec == 0 {
        return;
      }
      wrec, nrec, wpos := 0, 0, HEADER_LEN;
      hist := [];
    }
  }

  /** The write position wraps exactly when a whole number of turns is complete. */
  lemma SlotOfFull(w: nat, m: nat)
    requires m >= 2
    ensures w < m ==> w % m == w
    ensures w == m ==> w % m == 0
    ensures m <= w < 2 * m ==> w % m == w - m
  {
    if w < m {
      ModIs(w, m, 0, w);
    } else if w < 2 * m {
      ModIs(w, m, 1, w - m);
    }
  }

  /** After exactly `mrec` writes to a new log the last record is in the file but cannot be read. */
  method NewestMissed(reclen: nat, recs: seq<Record>, file: map<nat, Record>, len: nat) returns (log: Log, r: Option<Record>)
    requires |recs| >= 2 && reclen >= 1 && len >= 1
    requires forall i :: 0 <= i < |recs| ==> |recs[i]| == reclen
    ensures log.Valid() && log.mrec == |recs| && log.hist == recs && r.None?
    ensures var at := Offset(|recs| - 1, reclen); at in log.file && log.file[at] == recs[|recs| - 1]
  {
    log := new Log(reclen, |recs|, file);
    var i := 0;
    while i < |recs|
      invariant 0 <= i <= |recs| && fresh(log) && log.Valid()
      invariant log.mrec == |recs| && log.reclen == reclen && log.hist == recs[..i]
    {
      var ret := log.Write(recs[i], Done);
      i := i + 1;
    }
    r := log.Read(|recs| - 1, len);
    SlotOfFull(|recs| - 1, |recs|);
    assert log.hist[|recs| - 1] == recs[|recs| - 1];
  }

  /** The slot dbg_log_read computes is that of the record it should return. */
  lemma ReadSlot(w: nat, index: nat, m: nat)
    requires m >= 2 && index < CountAfter(w, m)
    ensures var s := if CountAfter(w, m) == m then w % m else 0;
            (s + index) % m == (Oldest(w, m) + index) % m && Oldest(w, m) + index < w
  {
    if w > m {
      ModShift(w, index, m);
    }
  }

  /** What that slot holds. */
  lemma ReadBack(file: map<nat, Record>, hist: seq<Record>, mrec: nat, reclen: nat, lo: nat, index: nat)
    requires mrec >= 2 && index < CountAfter(|hist|, mrec)
    requires Holds(file, hist, mrec, reclen, lo) && Present(file, |hist|, mrec, reclen)
    ensures var w, n := |hist|, Oldest(|hist|, mrec) + index;
            var at := Offset(((if CountAfter(w, mrec) == mrec then w % mrec else 0) + index) % mrec, reclen);
            n < w && at in file && (lo <= n ==> file[at] == hist[n])
  {
    ReadSlot(|hist|, index, mrec);
    var n := Oldest(|hist|, mrec) + index;
    assert Offset(n % mrec, reclen) in file;
  }
}
