/**
  The circular doubly linked list of cblist.h. The `p` and `n` fields of all links in
  memory are two maps that the macros overwrite in place. A ring is written as the
  sequence of its links beginning with the list head.
 */
module Rings {
  import opened SeqFacts

  /** Following `n` from `c[0]` visits exactly `c` and comes back, and `p` is its inverse. */
  ghost predicate Ring<T>(p: map<T, T>, n: map<T, T>, c: seq<T>) {
    && c != [] && NoDup(c)
    && (forall x :: x in c ==> x in p && x in n)
    && (forall i, j :: 0 <= i < |c| && 0 <= j < |c| && j == i + 1 ==> n[c[i]] == c[j] && p[c[j]] == c[i])
    && n[c[|c| - 1]] == c[0] && p[c[0]] == c[|c| - 1]
  }

  /** Same links, except possibly for those in `touched`. */
  ghost predicate SameOutside<T(!new)>(m: map<T, T>, m': map<T, T>, touched: set<T>) {
    forall x :: x !in touched ==> (x in m <==> x in m') && (x in m ==> m'[x] == m[x])
  }

  /** A ring none of whose links was touched is still that ring. */
  lemma UntouchedRing<T(!new)>(p: map<T, T>, n: map<T, T>, p': map<T, T>, n': map<T, T>, c: seq<T>, touched: set<T>)
    requires Ring(p, n, c) && SameOutside(p, p', touched) && SameOutside(n, n', touched)
    requires forall x :: x in c ==> x !in touched
    ensures Ring(p', n', c)
  {
    forall x | x in c
      ensures x in p' && x in n' && p'[x] == p[x] && n'[x] == n[x]
    {
    }
    assert c[0] in c && c[|c| - 1] in c;
  }

  lemma {:induction false} MeetAtHead<T>(p: map<T, T>, n: map<T, T>, c: seq<T>, d: seq<T>, i: nat, j: nat)
    requires Ring(p, n, c) && Ring(p, n, d) && i < |c| && j < |d| && c[i] == d[j]
    ensures d[0] in c
    decreases j
  {
    if j > 0 {
      assert p[d[j]] == d[j - 1];
      if i > 0 {
        assert p[c[i]] == c[i - 1];
        MeetAtHead(p, n, c, d, i - 1, j - 1);
      } else {
        MeetAtHead(p, n, c, d, |c| - 1, j - 1);
      }
    }
  }

  /** Two rings share no link unless the head of one is a link of the other. */
  lemma RingsDisjoint<T>(p: map<T, T>, n: map<T, T>, c: seq<T>, d: seq<T>)
    requires Ring(p, n, c) && Ring(p, n, d) && d[0] !in c
    ensures forall x :: x in c ==> x !in d
  {
    forall x | x in c
      ensures x !in d
    {
      var i :| 0 <= i < |c| && c[i] == x;
      if x in d {
        var j :| 0 <= j < |d| && d[j] == x;
        MeetAtHead(p, n, c, d, i, j);
      }
    }
  }

  // ---------------------------------------------------------------- the link updates, on values

  /** Linking `l` between neighbours `c[k - 1]` and `c[k]` (or the head again) inserts it there. */
  lemma Insert<T>(p: map<T, T>, n: map<T, T>, c: seq<T>, k: nat, l: T, p': map<T, T>, n': map<T, T>)
    requires Ring(p, n, c) && 1 <= k <= |c| && l !in c
    requires var after := if k < |c| then c[k] else c[0];
             p' == p[l := c[k - 1]][after := l] && n' == n[l := after][c[k - 1] := l]
    ensures Ring(p', n', c[..k] + [l] + c[k..])
  {
    var d := c[..k] + [l] + c[k..];
    assert c[k - 1] in c && c[0] in c && (k < |c| ==> c[k] in c);
    forall i, j | 0 <= i < |d| && 0 <= j < |d| && j == i + 1
      ensures n'[d[i]] == d[j] && p'[d[j]] == d[i]
    {
      if j < k {
        assert n[c[i]] == c[j];
      } else if i > k {
        assert n[c[i - 1]] == c[j - 1];
      }
    }
    var z := |c| - 1;
    assert d[|d| - 1] == if k < |c| then c[z] else l;
  }

  /** Linking the neighbours of `c[k]` to each other takes it out. */
  lemma Remove<T>(p: map<T, T>, n: map<T, T>, c: seq<T>, k: nat, p': map<T, T>, n': map<T, T>)
    requires Ring(p, n, c) && 1 <= k < |c|
    requires var l := c[k];
             p' == p[n[l] := p[l]][l := l] && n' == n[p[l] := n[l]][l := l]
    ensures Ring(p', n', c[..k] + c[k + 1..])
  {
    var d, l := c[..k] + c[k + 1..], c[k];
    assert p[c[k]] == c[k - 1];
    if k + 1 < |c| {
      assert n[c[k]] == c[k + 1];
    }
    forall i, j | 0 <= i < |d| && 0 <= j < |d| && j == i + 1
      ensures n'[d[i]] == d[j] && p'[d[j]] == d[i]
    {
      if j < k {
        assert n[c[i]] == c[j];
      } else if i >= k {
        assert n[c[i + 1]] == c[j + 1];
      }
    }
    assert d[|d| - 1] == if k + 1 < |c| then c[|c| - 1] else c[k - 1];
  }

  /** Hooking the links after head `d[0]` between the tail of `c` and its head appends them. */
  lemma Append<T>(p: map<T, T>, n: map<T, T>, c: seq<T>, d: seq<T>, p': map<T, T>, n': map<T, T>)
    requires Ring(p, n, c) && Ring(p, n, d) && |d| > 1
    requires forall x :: x in c ==> x !in d
    requires p' == p[d[1] := c[|c| - 1]][c[0] := d[|d| - 1]][d[0] := d[0]]
    requires n' == n[c[|c| - 1] := d[1]][d[|d| - 1] := c[0]][d[0] := d[0]]
    ensures Ring(p', n', c + d[1..]) && Ring(p', n', [d[0]])
  {
    var e := c + d[1..];
    assert c[0] in c && c[|c| - 1] in c && d[0] in d && d[1] in d && d[|d| - 1] in d;
    assert forall x :: x in d[1..] ==> x in d;
    forall i, j | 0 <= i < j < |e|
      ensures e[i] != e[j]
    {
      if i < |c| <= j {
        assert c[i] in c && d[j - |c| + 1] in d;
      }
    }
    forall i, j | 0 <= i < |e| && 0 <= j < |e| && j == i + 1
      ensures n'[e[i]] == e[j] && p'[e[j]] == e[i]
    {
      if j < |c| {
        assert n[c[i]] == c[j];
        assert c[i] in c && c[j] in c;
      } else if i >= |c| {
        var h := i - |c| + 1;
        assert n[d[h]] == d[h + 1];
      }
    }
  }

  /** CBLIST_IS_EMPTY is right: the head points at itself exactly when it is alone. */
  lemma EmptyTest<T>(p: map<T, T>, n: map<T, T>, c: seq<T>)
    requires Ring(p, n, c)
    ensures n[c[0]] == c[0] <==> |c| == 1
  {
    if |c| > 1 {
      assert n[c[0]] == c[1];
    }
  }

  /** With nothing dropped from position `m` on, the ring still runs on from `c[m]` as it did in `c`. */
  lemma RunsOn<T>(p: map<T, T>, n: map<T, T>, c: seq<T>, gone: set<T>, m: nat)
    requires NoDup(c) && m < |c| && c[0] !in gone && Ring(p, n, Without(c, gone))
    requires forall x :: x in c[m..] ==> x !in gone
    ensures c[m] in Without(c, gone) && Without(c, gone)[0] == c[0]
    ensures n[c[m]] == if m + 1 < |c| then c[m + 1] else c[0]
  {
    var before, rest, w := Without(c[..m], gone), c[m..], Without(c, gone);
    assert c == c[..m] + rest;
    WithoutConcat(c[..m], rest, gone);
    WithoutNothing(rest, gone);
    assert w[|before|] == rest[0] == c[m];
    if m + 1 < |c| {
      assert w[|before| + 1] == rest[1] == c[m + 1];
    }
  }

  class Links<T(==, !new)> {
    var p: map<T, T>
    var n: map<T, T>

    constructor ()
      ensures p == map[] && n == map[]
    {
      p, n := map[], map[];
    }

    method Init(l: T)
      modifies this
      ensures Ring(p, n, [l])
      ensures SameOutside(old(p), p, {l}) && SameOutside(old(n), n, {l})
    {
      p := p[l := l];
      n := n[l := l];
    }

    method AddHead(lh: T, l: T, ghost c: seq<T>)
      requires Ring(p, n, c) && c[0] == lh && l !in c
      modifies this
      ensures Ring(p, n, [lh, l] + c[1..])
      ensures SameOutside(old(p), p, Elems(c) + {l}) && SameOutside(old(n), n, Elems(c) + {l})
    {
      ghost var after := if |c| > 1 then c[1] else c[0];
      assert lh in c && after in c;
      n := n[l := n[lh]];
      p := p[n[l] := l];
      n := n[lh := l];
      p := p[l := lh];
      assert p == old(p)[l := lh][after := l];
      Insert(old(p), old(n), c, 1, l, p, n);
      assert c[..1] + [l] + c[1..] == [lh, l] + c[1..];
    }

    method AddTail(lh: T, l: T, ghost c: seq<T>)
      requires Ring(p, n, c) && c[0] == lh && l !in c
      modifies this
      ensures Ring(p, n, c + [l])
      ensures SameOutside(old(p), p, Elems(c) + {l}) && SameOutside(old(n), n, Elems(c) + {l})
    {
      assert lh in c && c[|c| - 1] in c;
      p := p[l := p[lh]];
      n := n[p[l] := l];
      p := p[lh := l];
      n := n[l := lh];
      assert n == old(n)[l := lh][c[|c| - 1] := l];
      Insert(old(p), old(n), c, |c|, l, p, n);
      assert c[..|c|] + [l] + c[|c|..] == c + [l];
    }

    /** Takes `l` off the ring `c`; it is then a ring of its own. */
    method Del(l: T, ghost c: seq<T>)
      requires Ring(p, n, c) && l in c && l != c[0]
      modifies this
      ensures Ring(p, n, Without(c, {l})) && Ring(p, n, [l])
      ensures SameOutside(old(p), p, Elems(c)) && SameOutside(old(n), n, Elems(c))
    {
      ghost var k :| 1 <= k < |c| && c[k] == l;
      assert p[c[k]] == c[k - 1];
      assert k + 1 < |c| ==> n[c[k]] == c[k + 1];
      assert c[0] in c && c[k - 1] in c && (k + 1 < |c| ==> c[k + 1] in c);
      p := p[n[l] := p[l]];
      n := n[p[l] := n[l]];
      p := p[l := l];
      n := n[l := l];
      Remove(old(p), old(n), c, k, p, n);
      WithoutOne(c, k);
    }

    /** Moves all links of ring `d` except its head to the tail of ring `c`. */
    method Join(lh1: T, lh2: T, ghost c: seq<T>, ghost d: seq<T>)
      requires Ring(p, n, c) && Ring(p, n, d) && c[0] == lh1 && d[0] == lh2
      requires lh2 !in c
      modifies this
      ensures Ring(p, n, c + d[1..]) && Ring(p, n, [lh2])
      ensures SameOutside(old(p), p, Elems(c) + Elems(d)) && SameOutside(old(n), n, Elems(c) + Elems(d))
    {
      RingsDisjoint(p, n, c, d);
      assert lh1 in c && lh2 in d && c[|c| - 1] in c && d[|d| - 1] in d;
      EmptyTest(p, n, d);
      if n[lh2] != lh2 {
        assert n[d[0]] == d[1] && d[1] in d;
        n := n[p[lh1] := n[lh2]];
        p := p[n[lh2] := p[lh1]];
        p := p[lh1 := p[lh2]];
        n := n[p[lh2] := lh1];
        p := p[lh2 := lh2];
        n := n[lh2 := lh2];
        Append(old(p), old(n), c, d, p, n);
      } else {
        assert c + d[1..] == c && d == [lh2];
      }
    }

    /**
      CBLIST_FOR_EACH_SAFE with a body that deletes the current element when `drop` says so:
      every element is visited once, in order, and exactly the dropped ones are gone.
     */
    method ForEachSafe(lh: T, drop: T -> bool, ghost c: seq<T>) returns (visited: seq<T>)
      requires Ring(p, n, c) && c[0] == lh
      modifies this
      ensures [lh] + visited == c
      ensures Ring(p, n, Without(c, Dropped(c[1..], drop)))
      ensures SameOutside(old(p), p, Elems(c)) && SameOutside(old(n), n, Elems(c))
    {
      visited := [];
      WithoutNothing(c, {});
      RunsOn(p, n, c, {}, 0);
      var e := n[lh];
      assert e in c by {
        assert |c| > 1 ==> c[1] in c;
      }
      var b := n[e];
      ghost var gone: set<T>, m := {}, 1;
      while e != lh
        invariant 1 <= m <= |c| && visited == c[1..m]
        invariant e == if m < |c| then c[m] else lh
        invariant gone == Dropped(c[1..m], drop)
        invariant Ring(p, n, Without(c, gone))
        invariant m < |c| ==> e in n && b == n[e]
        invariant SameOutside(old(p), p, Elems(c)) && SameOutside(old(n), n, Elems(c))
        decreases |c| - m
      {
        visited := visited + [e];
        DroppedNext(c, m, drop);
        gone := Visit(e, drop, c, gone, m);
        WithoutElems(c, gone);
        assert b in Without(c, gone);
        e, b := b, n[b];
        m := m + 1;
      }
      assert c[1..m] == c[1..];
    }

    /** One turn of the traversal at position `m`; `gone'` is what has been dropped by now. */
    method Visit(e: T, drop: T -> bool, ghost c: seq<T>, ghost gone: set<T>, ghost m: nat) returns (ghost gone': set<T>)
      requires NoDup(c) && 1 <= m < |c| && e == c[m]
      requires gone == Dropped(c[1..m], drop) && Ring(p, n, Without(c, gone))
      modifies this
      ensures gone' == Dropped(c[1..m + 1], drop) && Ring(p, n, Without(c, gone'))
      ensures SameOutside(old(p), p, Elems(c)) && SameOutside(old(n), n, Elems(c))
      ensures e in old(n) && old(n)[e] == (if m + 1 < |c| then c[m + 1] else c[0])
      ensures old(n)[e] in c && old(n)[e] !in gone'
    {
      SafeStep(p, n, c, gone, m);
      DroppedNext(c, m, drop);
      gone' := gone;
      if drop(e) {
        Del(e, Without(c, gone));
        gone' := gone + {e};
      }
    }
  }

  function Dropped<T>(s: seq<T>, drop: T -> bool): set<T> {
    set x | x in s && drop(x)
  }

  lemma DroppedNext<T>(c: seq<T>, m: nat, drop: T -> bool)
    requires 1 <= m < |c|
    ensures c[1..m + 1] == c[1..m] + [c[m]]
    ensures Dropped(c[1..m + 1], drop) == Dropped(c[1..m], drop) + if drop(c[m]) then {c[m]} else {}
  {
    assert c[1..m + 1] == c[1..m] + [c[m]];
  }

  lemma SafeStep<T>(p: map<T, T>, n: map<T, T>, c: seq<T>, gone: set<T>, m: nat)
    requires NoDup(c) && 1 <= m < |c| && Ring(p, n, Without(c, gone))
    requires gone <= Elems(c[1..m])
    ensures c[m] in Without(c, gone) && c[m] != c[0] && Without(c, gone)[0] == c[0]
    ensures n[c[m]] == if m + 1 < |c| then c[m + 1] else c[0]
    ensures n[c[m]] in c && n[c[m]] !in gone && n[c[m]] != c[m]
    ensures Without(Without(c, gone), {c[m]}) == Without(c, gone + {c[m]})
    ensures Elems(Without(c, gone)) <= Elems(c)
  {
    assert forall x :: x in c[1..m] ==> x != c[0];
    assert forall x :: x in c[m..] ==> x !in c[1..m];
    RunsOn(p, n, c, gone, m);
    assert m + 1 < |c| ==> c[m + 1] in c[m..];
    WithoutTwice(c, gone, {c[m]});
    WithoutElems(c, gone);
  }
}
