/** The two ways kth.c finds the k-th smallest element, and that they agree. */
module Kth {
  import opened SeqFacts

  /** The comparator orders all elements, ties allowed. */
  ghost predicate TotalPreorder<T(!new)>(cmp: (T, T) -> int) {
    && (forall x, y :: cmp(x, y) < 0 <==> cmp(y, x) > 0)
    && (forall x, y, z :: cmp(x, y) <= 0 && cmp(y, z) <= 0 ==> cmp(x, z) <= 0)
  }

  ghost predicate Sorted<T>(s: seq<T>, cmp: (T, T) -> int) {
    forall i, j :: 0 <= i < j < |s| ==> cmp(s[i], s[j]) <= 0
  }

  function Count<T>(s: seq<T>, p: T -> bool): nat {
    if s == [] then 0 else (if p(s[0]) then 1 else 0) + Count(s[1..], p)
  }

  function Below<T>(cmp: (T, T) -> int, x: T): T -> bool {
    y => cmp(y, x) < 0
  }

  function UpTo<T>(cmp: (T, T) -> int, x: T): T -> bool {
    y => cmp(y, x) <= 0
  }

  /** `x` is a k-th smallest element of `s`: fewer than k elements are below it, at least k are not above it. */
  ghost predicate IsKth<T>(s: seq<T>, cmp: (T, T) -> int, k: nat, x: T) {
    x in s && Count(s, Below(cmp, x)) < k <= Count(s, UpTo(cmp, x))
  }

  lemma {:induction false} CountConcat<T>(s: seq<T>, t: seq<T>, p: T -> bool)
    ensures Count(s + t, p) == Count(s, p) + Count(t, p)
  {
    if s == [] {
      assert s + t == t;
    } else {
      assert (s + t)[1..] == s[1..] + t;
      CountConcat(s[1..], t, p);
    }
  }

  lemma CountCut<T>(s: seq<T>, k: nat, p: T -> bool)
    requires k < |s|
    ensures multiset(s) == multiset(Cut(s, k)) + multiset{s[k]}
    ensures Count(s, p) == Count(Cut(s, k), p) + if p(s[k]) then 1 else 0
  {
    assert s == s[..k] + s[k..] && s[k..] == [s[k]] + s[k + 1..];
    CountConcat(s[..k], s[k..], p);
    CountConcat(s[..k], s[k + 1..], p);
  }

  lemma {:induction false} CountPermuted<T>(s: seq<T>, t: seq<T>, p: T -> bool)
    requires multiset(s) == multiset(t)
    ensures Count(s, p) == Count(t, p)
    decreases |s|
  {
    if s == [] {
      assert |multiset(t)| == |t| == 0;
    } else {
      assert s[0] in multiset(t);
      var k :| 0 <= k < |t| && t[k] == s[0];
      CountCut(s, 0, p);
      CountCut(t, k, p);
      Cancel(multiset(Cut(s, 0)), multiset(Cut(t, k)), s[0]);
      CountPermuted(Cut(s, 0), Cut(t, k), p);
    }
  }

  lemma {:induction false} CountAll<T>(s: seq<T>, p: T -> bool)
    ensures Count(s, p) <= |s|
    ensures (forall x :: x in s ==> p(x)) ==> Count(s, p) == |s|
    ensures (forall x :: x in s ==> !p(x)) ==> Count(s, p) == 0
  {
    if s != [] {
      CountAll(s[1..], p);
      assert s == [s[0]] + s[1..];
    }
  }

  lemma {:induction false} CountWithin<T>(s: seq<T>, p: T -> bool, q: T -> bool)
    requires forall x :: x in s && p(x) ==> q(x)
    ensures Count(s, p) <= Count(s, q)
  {
    if s != [] {
      assert s == [s[0]] + s[1..];
      CountWithin(s[1..], p, q);
    }
  }

  /** All k-th smallest elements compare equal. */
  lemma KthIsUnique<T(!new)>(s: seq<T>, cmp: (T, T) -> int, k: nat, x: T, y: T)
    requires TotalPreorder(cmp) && IsKth(s, cmp, k, x) && IsKth(s, cmp, k, y)
    ensures cmp(x, y) == 0
  {
    if cmp(x, y) < 0 {
      CountWithin(s, UpTo(cmp, x), Below(cmp, y));
    } else if cmp(x, y) > 0 {
      CountWithin(s, UpTo(cmp, y), Below(cmp, x));
    }
  }

  /** In a sorted sequence everything is up to the last element ... */
  lemma AllUpToLast<T(!new)>(low: seq<T>, cmp: (T, T) -> int)
    requires TotalPreorder(cmp) && low != [] && Sorted(low, cmp)
    ensures Count(low, UpTo(cmp, low[|low| - 1])) == |low|
  {
    var z := |low| - 1;
    assert cmp(low[z], low[z]) == 0;
    forall y | y in low
      ensures UpTo(cmp, low[z])(y)
    {
      var j :| 0 <= j <= z && low[j] == y;
    }
    CountAll(low, UpTo(cmp, low[z]));
  }

  /** ... and not everything is below it. */
  lemma LastNotBelowItself<T(!new)>(low: seq<T>, cmp: (T, T) -> int)
    requires TotalPreorder(cmp) && low != []
    ensures Count(low, Below(cmp, low[|low| - 1])) < |low|
  {
    var z := |low| - 1;
    var x := low[z];
    assert cmp(x, x) == 0;
    assert low == low[..z] + [x];
    CountConcat(low[..z], [x], Below(cmp, x));
    CountAll(low[..z], Below(cmp, x));
    CountAll([x], Below(cmp, x));
  }

  /** The last of k elements, with everything else no smaller, is the k-th. */
  lemma LastOfTheSmallest<T(!new)>(s: seq<T>, cmp: (T, T) -> int, low: seq<T>, rest: seq<T>)
    requires TotalPreorder(cmp) && multiset(s) == multiset(low) + multiset(rest) && low != [] && Sorted(low, cmp)
    requires NoneBelow(rest, cmp, low[|low| - 1])
    ensures IsKth(s, cmp, |low|, low[|low| - 1])
  {
    var x := low[|low| - 1];
    assert x in multiset(low) && x in multiset(s);
    assert multiset(low + rest) == multiset(low) + multiset(rest);
    CountPermuted(s, low + rest, Below(cmp, x));
    CountPermuted(s, low + rest, UpTo(cmp, x));
    CountConcat(low, rest, Below(cmp, x));
    CountConcat(low, rest, UpTo(cmp, x));
    CountAll(rest, Below(cmp, x));
    AllUpToLast(low, cmp);
    LastNotBelowItself(low, cmp);
  }

  ghost predicate NoneBelow<T>(s: seq<T>, cmp: (T, T) -> int, x: T) {
    forall y :: y in s ==> cmp(x, y) <= 0
  }

  // ---------------------------------------------------------------- sorting

  /** One insertion into a sorted sequence. */
  method Insert<T(!new)>(s: seq<T>, cmp: (T, T) -> int, x: T) returns (r: seq<T>)
    requires TotalPreorder(cmp) && Sorted(s, cmp)
    ensures Sorted(r, cmp) && multiset(r) == multiset(s) + multiset{x}
  {
    var i := |s|;
    while i > 0 && cmp(x, s[i - 1]) < 0
      invariant 0 <= i <= |s|
      invariant forall j :: i <= j < |s| ==> cmp(x, s[j]) <= 0
    {
      i := i - 1;
    }
    assert i > 0 ==> cmp(s[i - 1], x) <= 0;
    InsertedSorted(s, cmp, x, i);
    InsertedPermutes(s, x, i);
    r := s[..i] + [x] + s[i..];
  }

  lemma InsertedPermutes<T>(s: seq<T>, x: T, i: nat)
    requires i <= |s|
    ensures multiset(s[..i] + [x] + s[i..]) == multiset(s) + multiset{x}
  {
    assert s == s[..i] + s[i..];
  }

  lemma InsertedSorted<T(!new)>(s: seq<T>, cmp: (T, T) -> int, x: T, i: nat)
    requires TotalPreorder(cmp) && Sorted(s, cmp) && i <= |s|
    requires i > 0 ==> cmp(s[i - 1], x) <= 0
    requires forall j :: i <= j < |s| ==> cmp(x, s[j]) <= 0
    ensures Sorted(s[..i] + [x] + s[i..], cmp)
  {
    forall j | 0 <= j < i
      ensures cmp(s[j], x) <= 0
    {
      if j < i - 1 {
        assert cmp(s[j], s[i - 1]) <= 0;
      }
    }
    var r := s[..i] + [x] + s[i..];
    forall p, q | 0 <= p < q < |r|
      ensures cmp(r[p], r[q]) <= 0
    {
      var a, b := if p < i then p else p - 1, if q < i then q else q - 1;
      if p != i && q != i {
        assert r[p] == s[a] && r[q] == s[b];
      }
    }
  }

  /** qsort, of which only the contract matters: a sorted permutation, equal elements in any order. */
  method Qsort<T(!new)>(a: array<T>, cmp: (T, T) -> int)
    requires TotalPreorder(cmp)
    modifies a
    ensures Sorted(a[..], cmp) && multiset(a[..]) == multiset(old(a[..]))
  {
    var s: seq<T>, i := [], 0;
    while i < a.Length
      invariant 0 <= i <= a.Length && a[..] == old(a[..])
      invariant Sorted(s, cmp) && multiset(s) == multiset(a[..i])
    {
      s := Insert(s, cmp, a[i]);
      assert a[..i + 1] == a[..i] + [a[i]];
      i := i + 1;
    }
    assert a[..i] == a[..];
    assert |multiset(s)| == |s| && |multiset(a[..])| == a.Length;
    i := 0;
    while i < a.Length
      invariant 0 <= i <= a.Length && a[..i] == s[..i] && |s| == a.Length
    {
      a[i] := s[i];
      i := i + 1;
    }
    assert a[..] == s;
  }

  // ---------------------------------------------------------------- the two searches

  /** kth_sort; None for the error return. */
  method KthSort<T(!new)>(arr: seq<T>, k: int, cmp: (T, T) -> int) returns (kth: Option<T>)
    requires TotalPreorder(cmp) && k != 0
    ensures kth.None? <==> k < 0 || k > |arr|
    ensures kth.Some? ==> IsKth(arr, cmp, k, kth.value)
  {
    if k < 0 || k > |arr| {
      return None;
    }
    var karray := FirstSorted(arr, |arr|, cmp);
    assert arr[..|arr|] == arr;
    ghost var s := karray[..];
    assert s == s[..k] + s[k..];
    ghost var low := s[..k];
    assert |low| == k && low[k - 1] == karray[k - 1];
    assert NoneBelow(s[k..], cmp, low[k - 1]);
    LastOfTheSmallest(arr, cmp, low, s[k..]);
    kth := Some(karray[k - 1]);
  }

  /** Replacing the largest kept element by a smaller one: the new largest is no larger than the old. */
  lemma LargestShrinks<T(!new)>(was: seq<T>, now: seq<T>, cmp: (T, T) -> int, x: T)
    requires TotalPreorder(cmp) && was != [] && Sorted(was, cmp)
    requires cmp(x, was[|was| - 1]) < 0
    requires multiset(now) == multiset(was[|was| - 1 := x])
    ensures |now| == |was| && cmp(now[|now| - 1], was[|was| - 1]) <= 0
  {
    var z := |was| - 1;
    var mid := was[z := x];
    assert |multiset(now)| == |now| && |multiset(mid)| == |mid|;
    assert now[z] in multiset(mid);
    var j :| 0 <= j <= z && mid[j] == now[z];
    if j < z {
      assert cmp(was[j], was[z]) <= 0;
    }
  }

  lemma NoneBelowSmaller<T(!new)>(s: seq<T>, cmp: (T, T) -> int, x: T, y: T)
    requires TotalPreorder(cmp) && NoneBelow(s, cmp, x) && cmp(y, x) <= 0
    ensures NoneBelow(s + [x], cmp, y)
  {
    forall w | w in s + [x]
      ensures cmp(y, w) <= 0
    {
      if w in s {
        assert cmp(x, w) <= 0;
      }
    }
  }

  /** `s` falls into the parts `low` and `rest`. */
  ghost predicate Split<T>(s: seq<T>, low: seq<T>, rest: seq<T>) {
    multiset(s) == multiset(low) + multiset(rest)
  }

  /** The body of kth_array's loop; `rest` collects the elements not kept. */
  method Offer<T(!new)>(karray: array<T>, x: T, cmp: (T, T) -> int, ghost rest: seq<T>, ghost seen: seq<T>)
    returns (ghost rest': seq<T>)
    requires TotalPreorder(cmp) && karray.Length > 0 && Sorted(karray[..], cmp)
    requires Split(seen, karray[..], rest)
    requires NoneBelow(rest, cmp, karray[karray.Length - 1])
    modifies karray
    ensures Sorted(karray[..], cmp) && NoneBelow(rest', cmp, karray[karray.Length - 1])
    ensures Split(seen + [x], karray[..], rest')
  {
    var z := karray.Length - 1;
    ghost var was := karray[..];
    assert |was| == z + 1 && was[z] == karray[z];
    if cmp(x, karray[z]) < 0 {
      karray[z] := x;
      ghost var mid := karray[..];
      assert mid == was[z := x];
      Qsort(karray, cmp);
      ghost var now := karray[..];
      assert multiset(now) == multiset(mid);
      LargestShrinks(was, now, cmp, x);
      NoneBelowSmaller(rest, cmp, was[z], now[z]);
      SwappedOut(was, now, x, rest, seen);
      rest' := rest + [was[z]];
    } else {
      LeftOut(was, x, rest, seen);
      assert cmp(karray[z], x) <= 0;
      rest' := rest + [x];
    }
  }

  lemma LeftOut<T>(was: seq<T>, x: T, rest: seq<T>, seen: seq<T>)
    requires Split(seen, was, rest)
    ensures Split(seen + [x], was, rest + [x])
  {
  }

  lemma SwappedOut<T>(was: seq<T>, now: seq<T>, x: T, rest: seq<T>, seen: seq<T>)
    requires was != [] && multiset(now) == multiset(was[|was| - 1 := x]) && Split(seen, was, rest)
    ensures Split(seen + [x], now, rest + [was[|was| - 1]])
  {
    var z := |was| - 1;
    assert was == was[..z] + [was[z]] && was[z := x] == was[..z] + [x];
  }

  /** The memcpy and the first qsort of both functions. */
  method FirstSorted<T(!new)>(arr: seq<T>, k: nat, cmp: (T, T) -> int) returns (karray: array<T>)
    requires TotalPreorder(cmp) && k <= |arr|
    ensures fresh(karray) && karray.Length == k && Sorted(karray[..], cmp)
    ensures multiset(karray[..]) == multiset(arr[..k])
  {
    karray := new T[k](i requires 0 <= i < k => arr[i]);
    assert karray[..] == arr[..k];
    Qsort(karray, cmp);
  }

  lemma PrefixNext<T>(s: seq<T>, i: nat)
    requires i < |s|
    ensures s[..i + 1] == s[..i] + [s[i]]
  {
  }

  /** The loop of kth_array: a buffer of the k smallest elements seen so far, kept sorted. */
  method KeepSmallest<T(!new)>(arr: seq<T>, k: nat, cmp: (T, T) -> int) returns (karray: array<T>, ghost rest: seq<T>)
    requires TotalPreorder(cmp) && 1 <= k <= |arr|
    ensures karray.Length == k && Sorted(karray[..], cmp) && Split(arr, karray[..], rest)
    ensures NoneBelow(rest, cmp, karray[karray.Length - 1])
  {
    karray := FirstSorted(arr, k, cmp);
    rest := [];
    ghost var seen := arr[..k];
    var i := k;
    while i < |arr|
      invariant k <= i <= |arr| && karray.Length == k && fresh(karray)
      invariant Sorted(karray[..], cmp) && NoneBelow(rest, cmp, karray[karray.Length - 1])
      invariant seen == arr[..i] && Split(seen, karray[..], rest)
    {
      rest := Offer(karray, arr[i], cmp, rest, seen);
      PrefixNext(arr, i);
      seen := seen + [arr[i]];
      i := i + 1;
    }
    assert arr[..i] == arr;
  }

  method KthArray<T(!new)>(arr: seq<T>, k: int, cmp: (T, T) -> int) returns (kth: Option<T>)
    requires TotalPreorder(cmp) && k != 0
    ensures kth.None? <==> k < 0 || k > |arr|
    ensures kth.Some? ==> IsKth(arr, cmp, k, kth.value)
  {
    if k < 0 || k > |arr| {
      return None;
    }
    ghost var rest;
    var karray;
    karray, rest := KeepSmallest(arr, k, cmp);
    ghost var low := karray[..];
    assert |low| == k && low[k - 1] == karray[k - 1];
    LastOfTheSmallest(arr, cmp, low, rest);
    kth := Some(karray[k - 1]);
  }

  /** Whatever the two return for the same question compares equal. */
  method BothAgree<T(!new)>(arr: seq<T>, k: int, cmp: (T, T) -> int) returns (x: Option<T>, y: Option<T>)
    requires TotalPreorder(cmp) && k != 0
    ensures x.Some? <==> y.Some?
    ensures x.Some? ==> cmp(x.value, y.value) == 0
  {
    x := KthArray(arr, k, cmp);
    y := KthSort(arr, k, cmp);
    if x.Some? {
      KthIsUnique(arr, cmp, k, x.value, y.value);
    }
  }
}
