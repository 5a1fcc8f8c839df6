/** Small facts about sequences that every list proof below shares. */
module SeqFacts {

  datatype Option<+T> = None | Some(value: T)

  /** The elements of `s`, as a set. */
  function Elems<A>(s: seq<A>): set<A> {
    set x | x in s
  }

  predicate NoDup<A(==)>(s: seq<A>) {
    forall i, j :: 0 <= i < j < |s| ==> s[i] != s[j]
  }

  /** `s` without its element at position `k`. */
  function Cut<A>(s: seq<A>, k: nat): seq<A>
    requires k < |s|
  {
    s[..k] + s[k + 1..]
  }

  lemma HeadAndRest<A>(s: seq<A>)
    requires NoDup(s) && s != []
    ensures s[0] !in s[1..]
    ensures forall x :: x in s <==> x == s[0] || x in s[1..]
  {
    assert s == [s[0]] + s[1..];
  }

  /** `s` with every element of `gone` left out, order kept. */
  function Without<A(==)>(s: seq<A>, gone: set<A>): (r: seq<A>)
  {
    if s == [] then []
    else if s[0] in gone then Without(s[1..], gone)
    else [s[0]] + Without(s[1..], gone)
  }

  lemma {:induction false} WithoutElems<A>(s: seq<A>, gone: set<A>)
    ensures forall x :: x in Without(s, gone) <==> x in s && x !in gone
    ensures |Without(s, gone)| <= |s|
  {
    if s != [] {
      WithoutElems(s[1..], gone);
      assert s == [s[0]] + s[1..];
    }
  }

  lemma {:induction false} WithoutNoDup<A>(s: seq<A>, gone: set<A>)
    requires NoDup(s)
    ensures NoDup(Without(s, gone))
  {
    if s != [] {
      WithoutNoDup(s[1..], gone);
      WithoutElems(s[1..], gone);
    }
  }

  lemma {:induction false} WithoutNothing<A>(s: seq<A>, gone: set<A>)
    requires forall x :: x in s ==> x !in gone
    ensures Without(s, gone) == s
  {
    if s != [] {
      WithoutNothing(s[1..], gone);
    }
  }

  lemma {:induction false} WithoutConcat<A>(s: seq<A>, t: seq<A>, gone: set<A>)
    ensures Without(s + t, gone) == Without(s, gone) + Without(t, gone)
  {
    if s == [] {
      assert s + t == t;
    } else {
      assert (s + t)[1..] == s[1..] + t;
      WithoutConcat(s[1..], t, gone);
    }
  }

  /** Dropping two sets one after the other drops their union. */
  lemma {:induction false} WithoutTwice<A>(s: seq<A>, g: set<A>, h: set<A>)
    ensures Without(Without(s, g), h) == Without(s, g + h)
  {
    if s != [] {
      WithoutTwice(s[1..], g, h);
      if s[0] !in g {
        assert Without(s, g)[1..] == Without(s[1..], g);
      }
    }
  }

  /** In a list without repetition, dropping one element closes the gap at its position. */
  lemma WithoutOne<A>(s: seq<A>, k: nat)
    requires NoDup(s) && k < |s|
    ensures Without(s, {s[k]}) == s[..k] + s[k + 1..]
  {
    var before, after := s[..k], s[k..];
    assert s == before + after;
    WithoutConcat(before, after, {s[k]});
    WithoutNothing(before, {s[k]});
    assert after[0] == s[k] && after[1..] == s[k + 1..];
    WithoutNothing(after[1..], {s[k]});
  }

  /** The length lost is the number of members dropped. */
  lemma {:induction false} WithoutLength<A>(s: seq<A>, gone: set<A>)
    requires NoDup(s)
    ensures |Without(s, gone)| + |Elems(s) * gone| == |s|
  {
    if s == [] {
      assert Elems(s) * gone == {};
    } else {
      var t := s[1..];
      WithoutLength(t, gone);
      assert s == [s[0]] + t;
      assert s[0] !in t;
      if s[0] in gone {
        assert Elems(s) * gone == Elems(t) * gone + {s[0]};
      } else {
        assert Elems(s) * gone == Elems(t) * gone;
      }
    }
  }

  lemma NoDupConcat<A>(s: seq<A>, t: seq<A>)
    requires NoDup(s) && NoDup(t) && forall x :: x in s ==> x !in t
    ensures NoDup(s + t)
  {
    forall i, j | 0 <= i < j < |s + t|
      ensures (s + t)[i] != (s + t)[j]
    {
      if i < |s| <= j {
        assert s[i] in s && t[j - |s|] in t;
      }
    }
  }

  lemma SubsetCard<A>(a: set<A>, b: set<A>)
    requires a <= b
    ensures |a| <= |b|
  {
    assert b == a + (b - a);
  }

  lemma {:induction false} NoDupCard<A>(s: seq<A>)
    requires NoDup(s)
    ensures |Elems(s)| == |s|
  {
    if s == [] {
      assert Elems(s) == {};
    } else {
      NoDupCard(s[1..]);
      assert s == [s[0]] + s[1..];
      assert Elems(s) == Elems(s[1..]) + {s[0]};
    }
  }

  lemma Cancel<A>(s: multiset<A>, t: multiset<A>, x: A)
    requires s + multiset{x} == t + multiset{x}
    ensures s == t
  {
    assert s == (s + multiset{x}) - multiset{x};
  }
}
