/** The sizes hash.c gives its tables: the search of _hash_choose_size in a list of primes. */
module HashSizes {

  const HT_SIZE_SZ: nat := 44

  const HT_SIZE: seq<nat> := [
    7, 47, 79, 97, 163, 197, 331, 397, 673, 797, 1361, 1597,
    2729, 3203, 5471, 6421, 10949, 12853, 21911, 25717, 43853,
    51437, 87719, 102877, 175447, 205759, 350899, 411527, 701819,
    823117, 1403641, 1646237, 2807303, 3292489, 5614657, 6584983,
    11229331, 13169977, 22458671, 26339969, 44917381, 52679969,
    89834777, 105359939]

  ghost predicate Rising(ht: seq<nat>) {
    |ht| == HT_SIZE_SZ && forall i, j :: 0 <= i < |ht| && 0 <= j < |ht| && j == i + 1 ==> ht[i] < ht[j]
  }

  lemma SizesRise()
    ensures Rising(HT_SIZE)
  {
  }

  lemma {:induction false} Increasing(ht: seq<nat>, i: nat, j: nat)
    requires Rising(ht) && i <= j < |ht|
    ensures i < j ==> ht[i] < ht[j]
  {
    if i < j {
      Increasing(ht, i, j - 1);
      assert ht[j - 1] < ht[j];
    }
  }

  /** `n` is the least size in the list that is at least `size`. */
  ghost predicate LeastFor(ht: seq<nat>, size: nat, n: nat) {
    n in ht && size <= n && forall m :: m in ht && size <= m ==> n <= m
  }

  /** The entry at `k` is the answer when the one before it is too small. */
  lemma LeastAt(ht: seq<nat>, size: nat, k: nat)
    requires Rising(ht) && k < |ht| && size <= ht[k] && (k > 0 ==> ht[k - 1] < size)
    ensures LeastFor(ht, size, ht[k])
  {
    forall m | m in ht && size <= m
      ensures ht[k] <= m
    {
      var i :| 0 <= i < |ht| && ht[i] == m;
      if i < k {
        Increasing(ht, i, k - 1);
      } else {
        Increasing(ht, k, i);
      }
    }
  }

  /** The part of the list still searched: the request lies strictly between its ends. */
  ghost predicate Between(ht: seq<nat>, size: nat, bottom: int, top: int)
    requires Rising(ht)
  {
    && 0 <= bottom <= top < HT_SIZE_SZ
    && (bottom > 0 ==> ht[bottom] < size)
    && (top < HT_SIZE_SZ - 1 ==> size < ht[top])
    && (bottom == 0 ==> top in {43, 20, 9, 3, 0})
  }

  lemma Upper(ht: seq<nat>, size: nat, bottom: int, top: int, mid: int)
    requires Rising(ht) && size <= ht[HT_SIZE_SZ - 1] && Between(ht, size, bottom, top)
    requires mid == (bottom + top) / 2 && ht[mid] < size
    ensures mid + 1 < HT_SIZE_SZ && mid > 0
    ensures ht[mid + 1] < size ==> Between(ht, size, mid + 1, top)
  {
    if top < mid + 1 {
      Increasing(ht, mid, HT_SIZE_SZ - 1);
    } else if ht[mid + 1] < size {
      Increasing(ht, mid + 1, top);
    }
  }

  lemma Lower(ht: seq<nat>, size: nat, bottom: int, top: int, mid: int)
    requires Rising(ht) && Between(ht, size, bottom, top)
    requires mid == (bottom + top) / 2 && size < ht[mid] && mid > 0
    ensures size < ht[mid - 1] ==> Between(ht, size, bottom, mid - 1)
  {
  }

  /**
    _hash_choose_size over the list `ht`. The C loop has no way out if it meets position 0 with
    more than one candidate left; the positions passed on the way down from 44 entries are such
    that it never does. A request above the last entry would read past the list.
   */
  method Choose(ht: seq<nat>, size: nat) returns (newsize: nat)
    requires Rising(ht) && size <= ht[HT_SIZE_SZ - 1]
    ensures LeastFor(ht, size, newsize)
  {
    var top, bottom, mid, last := HT_SIZE_SZ - 1, 0, 0, ht[HT_SIZE_SZ - 1];
    newsize := 0;
    while bottom <= top
      invariant Between(ht, size, bottom, top)
      decreases top - bottom
    {
      mid := (bottom + top) / 2;
      if size == ht[mid] {
        newsize := ht[mid];
        LeastAt(ht, size, mid);
        break;
      } else if size > ht[mid] && mid < HT_SIZE_SZ {
        Upper(ht, size, bottom, top, mid);
        if size <= ht[mid + 1] {
          newsize := ht[mid + 1];
          LeastAt(ht, size, mid + 1);
          break;
        } else {
          bottom := mid + 1;
        }
      } else if size < ht[mid] && mid > 0 {
        Lower(ht, size, bottom, top, mid);
        if size >= ht[mid - 1] {
          newsize := if size == ht[mid - 1] then size else ht[mid];
          LeastAt(ht, size, if size == ht[mid - 1] then mid - 1 else mid);
          break;
        } else {
          top := mid - 1;
        }
      } else if mid == top && mid == bottom {
        break;
      }
    }
    if mid == 0 {
      newsize := ht[0];
      LeastAt(ht, size, 0);
    } else if mid == HT_SIZE_SZ - 1 {
      newsize := last;
    }
  }

  method ChooseSize(size: nat) returns (newsize: nat)
    requires size <= HT_SIZE[HT_SIZE_SZ - 1]
    ensures LeastFor(HT_SIZE, size, newsize)
  {
    SizesRise();
    newsize := Choose(HT_SIZE, size);
  }
}
