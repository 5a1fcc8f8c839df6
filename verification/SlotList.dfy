/**
  The singly linked list with back-pointers to pointers that objpool.c uses twice:
  for the free nodes and for the caches. A record's `pprev` designates the pointer
  variable that points at the record, which is either the list head or the `next`
  field of the record before it.
 */
module SlotLists {
  import opened SeqFacts

  datatype Ptr<+A> = Null | At(addr: A)

  /** The pointer variable a `pprev` field designates. */
  datatype Slot<+A> = NoSlot | Head | NextOf(addr: A)

  /** The two link fields of one record. */
  datatype Cell<+A> = Cell(next: Ptr<A>, pprev: Slot<A>)

  /**
    The records reached from `head` are exactly `s`, in order, and each `pprev` designates
    the slot that points at its record.
   */
  ghost predicate Chain<A>(head: Ptr<A>, cells: map<A, Cell<A>>, s: seq<A>) {
    && NoDup(s)
    && (forall a :: a in s ==> a in cells)
    && (forall i, j :: 0 <= i < |s| && 0 <= j < |s| && j == i + 1 ==>
                         cells[s[i]].next == At(s[j]) && cells[s[j]].pprev == NextOf(s[i]))
    && (if s == [] then head == Null
        else head == At(s[0]) && cells[s[0]].pprev == Head && cells[s[|s| - 1]].next == Null)
  }

  /** What the link fields of the record at position `k` say. */
  lemma Neighbours<A>(head: Ptr<A>, cells: map<A, Cell<A>>, s: seq<A>, k: nat)
    requires Chain(head, cells, s) && k < |s|
    ensures cells[s[k]].next == if k + 1 < |s| then At(s[k + 1]) else Null
    ensures cells[s[k]].pprev == if k == 0 then Head else NextOf(s[k - 1])
  {
    if k + 1 < |s| {
      assert cells[s[k]].next == At(s[k + 1]);
    }
    if k > 0 {
      assert cells[s[k]].pprev == NextOf(s[k - 1]);
    }
  }

  lemma OnListHasSlot<A>(head: Ptr<A>, cells: map<A, Cell<A>>, s: seq<A>, a: A)
    requires Chain(head, cells, s) && a in s
    ensures cells[a].pprev != NoSlot
  {
    var k :| 0 <= k < |s| && s[k] == a;
    Neighbours(head, cells, s, k);
  }

  /** Redirecting the slot before position `k` and the back-pointer after it leaves the chain without that record. */
  lemma UnlinkedChain<A>(head: Ptr<A>, cells: map<A, Cell<A>>, s: seq<A>, k: nat, head': Ptr<A>, cells': map<A, Cell<A>>)
    requires Chain(head, cells, s) && k < |s|
    requires cells'.Keys == cells.Keys
    requires head' == if k > 0 then head else cells[s[k]].next
    requires forall b :: b in cells ==> cells'[b] == (
                                          if k > 0 && b == s[k - 1] then cells[b].(next := cells[s[k]].next)
                                          else if k + 1 < |s| && b == s[k + 1] then cells[b].(pprev := cells[s[k]].pprev)
                                          else cells[b])
    ensures Chain(head', cells', s[..k] + s[k + 1..])
    ensures forall b :: b in cells && (b !in s || b == s[k]) ==> cells'[b] == cells[b]
  {
    Neighbours(head, cells, s, k);
    var r := s[..k] + s[k + 1..];
    forall i, j | 0 <= i < |r| && 0 <= j < |r| && j == i + 1
      ensures cells'[r[i]].next == At(r[j]) && cells'[r[j]].pprev == NextOf(r[i])
    {
      if j < k {
        assert r[i] == s[i] && r[j] == s[j];
      } else if i >= k {
        assert r[i] == s[i + 1] && r[j] == s[j + 1];
      } else {
        assert r[i] == s[k - 1] && r[j] == s[k + 1];
      }
    }
    if r != [] {
      var z := |r| - 1;
      assert r[z] == if z < k then s[z] else s[z + 1];
      assert r[0] == if 0 < k then s[0] else s[1];
    }
  }

  /** The same with the set of members, as the list keeps it. */
  lemma UnlinkedMembers<A>(s: seq<A>, members: set<A>, k: nat)
    requires NoDup(s) && k < |s| && forall a {:trigger a in s} :: a in s <==> a in members
    ensures Without(s, {s[k]}) == s[..k] + s[k + 1..]
    ensures forall a {:trigger a in Without(s, {s[k]})} :: a in Without(s, {s[k]}) <==> a in members - {s[k]}
  {
    WithoutOne(s, k);
    WithoutElems(s, {s[k]});
  }

  class SlotList<A(==, !new)> {
    var head: Ptr<A>
    /** The link fields of every record in live memory, linked or not. */
    var cells: map<A, Cell<A>>
    ghost var items: seq<A>
    ghost var members: set<A>

    ghost predicate Valid()
      reads this
    {
      && Chain(head, cells, items)
      && (forall a {:trigger a in items} :: a in items <==> a in members)
      && members <= cells.Keys
    }

    constructor ()
      ensures Valid() && items == [] && members == {} && cells == map[]
    {
      head, cells, items, members := Null, map[], [], {};
    }

    /** A record comes into live memory with zeroed links. */
    method Place(a: A)
      requires Valid() && a !in cells
      modifies this
      ensures Valid() && items == old(items) && members == old(members)
      ensures cells == old(cells)[a := Cell(Null, NoSlot)]
    {
      cells := cells[a := Cell(Null, NoSlot)];
    }

    /** Records that are on no list leave live memory. */
    method Release(gone: set<A>)
      requires Valid() && members !! gone
      modifies this
      ensures Valid() && items == old(items) && members == old(members)
      ensures cells == old(cells) - gone
    {
      cells := cells - gone;
    }

    method Push(a: A)
      requires Valid() && a in cells && a !in members
      modifies this
      ensures Valid() && items == [a] + old(items) && members == old(members) + {a}
      ensures cells.Keys == old(cells.Keys)
      ensures forall b :: b in cells && b !in members ==> cells[b] == old(cells)[b]
    {
      assert a !in items;
      if head.At? {
        assert head.addr in items;
        cells := cells[head.addr := cells[head.addr].(pprev := NextOf(a))];
      }
      cells := cells[a := cells[a].(pprev := Head)];
      cells := cells[a := cells[a].(next := head)];
      head := At(a);
      items, members := [a] + items, members + {a};
    }

    /** Takes `a` out of the list wherever it stands; its own fields are left as they were. */
    method Unlink(a: A)
      requires Valid() && a in members
      modifies this
      ensures Valid() && items == Without(old(items), {a}) && members == old(members) - {a}
      ensures cells.Keys == old(cells.Keys)
      ensures forall b :: b in cells && b !in members ==> cells[b] == old(cells)[b]
    {
      assert a in items;
      ghost var k :| 0 <= k < |items| && items[k] == a;
      Bypass(a, k);
      UnlinkedMembers(items, members, k);
      UnlinkedChain(old(head), old(cells), items, k, head, cells);
      items, members := Without(items, {a}), members - {a};
    }

    /** The slot that points at `a` is pointed past it, and the record after it back at that slot. */
    method Bypass(a: A, ghost k: nat)
      requires Chain(head, cells, items) && k < |items| && items[k] == a
      modifies this`head, this`cells
      ensures cells.Keys == old(cells.Keys)
      ensures head == if k > 0 then old(head) else old(cells)[a].next
      ensures forall b :: b in cells ==> cells[b] == (
                                            if k > 0 && b == items[k - 1] then old(cells)[b].(next := old(cells)[a].next)
                                            else if k + 1 < |items| && b == items[k + 1] then old(cells)[b].(pprev := old(cells)[a].pprev)
                                            else old(cells)[b])
    {
      Neighbours(head, cells, items, k);
      var c := cells[a];
      if c.next.At? {
        assert c.next.addr in items;
        cells := cells[c.next.addr := cells[c.next.addr].(pprev := c.pprev)];
      }
      match c.pprev {
        case Head =>
          head := c.next;
        case NextOf(b) =>
          assert b in items;
          cells := cells[b := cells[b].(next := c.next)];
        case NoSlot =>
          assert false;
      }
    }

    /** Takes the first record off and clears its links. */
    method Pop() returns (a: A)
      requires Valid() && items != []
      modifies this
      ensures Valid() && a == old(items)[0] && items == old(items)[1..]
      ensures a in old(members) && members == old(members) - {a}
      ensures cells.Keys == old(cells.Keys) && a in cells && cells[a] == Cell(Null, NoSlot)
      ensures forall b :: b in cells && b !in members && b != a ==> cells[b] == old(cells)[b]
    {
      Neighbours(head, cells, items, 0);
      HeadAndRest(items);
      a := head.addr;
      var next := cells[a].next;
      if next.At? {
        assert next.addr in items;
        cells := cells[next.addr := cells[next.addr].(pprev := Head)];
      }
      head := next;
      cells := cells[a := Cell(Null, NoSlot)];
      items, members := items[1..], members - {a};
    }

    /** Clears the links of a record that is on no list. */
    method Clear(a: A)
      requires Valid() && a in cells && a !in members
      modifies this
      ensures Valid() && items == old(items) && members == old(members)
      ensures cells == old(cells)[a := Cell(Null, NoSlot)]
    {
      assert a !in items;
      cells := cells[a := Cell(Null, NoSlot)];
    }

    /** A record on the list is designated by some slot, so its `pprev` is not NULL. */
    lemma HasSlot(a: A)
      requires Valid() && a in members
      ensures cells[a].pprev != NoSlot
    {
      assert a in items;
      OnListHasSlot(head, cells, items, a);
    }
  }

  /** The back-pointers alone rule out a record standing on the list twice. */
  lemma {:induction false} BackPointersForceDistinct<A>(cells: map<A, Cell<A>>, s: seq<A>, i: nat, j: nat)
    requires forall a :: a in s ==> a in cells
    requires s != [] ==> cells[s[0]].pprev == Head
    requires forall h, k :: 0 <= h < |s| && 0 <= k < |s| && k == h + 1 ==> cells[s[k]].pprev == NextOf(s[h])
    requires i < j < |s|
    ensures s[i] != s[j]
  {
    assert cells[s[j]].pprev == NextOf(s[j - 1]);
    if i > 0 {
      assert cells[s[i]].pprev == NextOf(s[i - 1]);
      BackPointersForceDistinct(cells, s, i - 1, j - 1);
    }
  }
}
