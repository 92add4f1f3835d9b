/** The pager's LRU cache: a doubly linked list and an index, refining a recency list. */
module Lru {
  import opened Bytes
  import opened TreeModel

  /** A cached page. */
  datatype Slot = Slot(id: nat, page: array<byte>)

  // ---------------------------------------------------------------- the recency list

  /** The position of id, or the length when it is absent. */
  function IndexOf(m: seq<Slot>, id: nat): (i: nat)
    ensures i <= |m|
    ensures forall j | 0 <= j < i :: m[j].id != id
    ensures i < |m| ==> m[i].id == id
  {
    if m == [] || m[0].id == id then 0 else 1 + IndexOf(m[1..], id)
  }

  function ToFront<T>(m: seq<T>, i: nat): seq<T>
    requires i < |m|
  {
    [m[i]] + RemoveAt(m, i)
  }

  lemma ToFrontElements<T>(m: seq<T>, i: nat)
    requires i < |m|
    ensures |ToFront(m, i)| == |m|
    ensures forall x :: x in ToFront(m, i) <==> x in m
  {
  }

  /** A hit makes the page the most recently used one. */
  function Touch(m: seq<Slot>, id: nat): seq<Slot> {
    var i := IndexOf(m, id);
    if i < |m| then ToFront(m, i) else m
  }

  /** Storing a page: it becomes the most recently used one, and the least recently used one makes room. */
  function Store(m: seq<Slot>, cap: nat, id: nat, page: array<byte>): seq<Slot> {
    var i := IndexOf(m, id);
    if i < |m| then [Slot(id, page)] + RemoveAt(m, i)
    else if |m| + 1 > cap then ([Slot(id, page)] + m)[..|m|]
    else [Slot(id, page)] + m
  }

  /** The cached ids, the most recently used one first. */
  function Ids(m: seq<Slot>): seq<nat> {
    if m == [] then [] else [m[0].id] + Ids(m[1..])
  }

  lemma {:induction false} IdsAt(m: seq<Slot>)
    ensures |Ids(m)| == |m| && forall i | 0 <= i < |m| :: Ids(m)[i] == m[i].id
  {
    if m != [] {
      IdsAt(m[1..]);
    }
  }

  function At(ids: seq<nat>, id: nat): (i: nat)
    ensures i <= |ids|
    ensures forall j | 0 <= j < i :: ids[j] != id
    ensures i < |ids| ==> ids[i] == id
  {
    if ids == [] || ids[0] == id then 0 else 1 + At(ids[1..], id)
  }

  /** An access to a page, as far as the ids are concerned. */
  function Accessed(ids: seq<nat>, cap: nat, id: nat): seq<nat> {
    var i := At(ids, id);
    if i < |ids| then [id] + RemoveAt(ids, i)
    else if |ids| + 1 > cap then ([id] + ids)[..|ids|]
    else [id] + ids
  }

  lemma {:induction false} SameIndex(m: seq<Slot>, id: nat)
    ensures At(Ids(m), id) == IndexOf(m, id)
  {
    if m != [] && m[0].id != id {
      SameIndex(m[1..], id);
      assert Ids(m)[1..] == Ids(m[1..]);
    }
  }

  lemma TouchIds(m: seq<Slot>, cap: nat, id: nat)
    requires IndexOf(m, id) < |m|
    ensures Ids(Touch(m, id)) == Accessed(Ids(m), cap, id)
  {
    hide IndexOf, At, Ids;
    SameIndex(m, id);
    IdsAt(m);
    IdsAt(Touch(m, id));
  }

  lemma StoreIds(m: seq<Slot>, cap: nat, id: nat, page: array<byte>)
    ensures Ids(Store(m, cap, id, page)) == Accessed(Ids(m), cap, id)
  {
    hide IndexOf, At, Ids;
    SameIndex(m, id);
    IdsAt(m);
    IdsAt(Store(m, cap, id, page));
  }

  // ---------------------------------------------------------------- the linked list

  class Entry {
    const id: nat
    var page: array<byte>
    var prev: Entry?
    var next: Entry?

    constructor (id: nat, page: array<byte>)
      ensures this.id == id && this.page == page
    {
      this.id := id;
      this.page := page;
      prev, next := null, null;
    }
  }

  class LruCache {
    const cap: nat
    var items: map<nat, Entry>
    var head: Entry?
    var tail: Entry?
    /** The entries from the most to the least recently used. */
    ghost var list: seq<Entry>
    ghost var model: seq<Slot>
    /** Every entry that has been in the list. */
    ghost var Repr: set<Entry>

    /** The entry at position i points to its neighbours. */
    static ghost predicate Node(list: seq<Entry>, i: nat)
      requires i < |list|
      reads list
    {
      && list[i].prev == (if i == 0 then null else list[i - 1])
      && list[i].next == (if i + 1 == |list| then null else list[i + 1])
    }

    ghost predicate Linked()
      reads this`head, this`tail, this`list, list
    {
      && (forall i, j | 0 <= i < j < |list| :: list[i] != list[j])
      && (forall i | 0 <= i < |list| :: Node(list, i))
      && head == (if list == [] then null else list[0])
      && tail == (if list == [] then null else list[|list| - 1])
    }

    static ghost predicate IndexOfList(items: map<nat, Entry>, list: seq<Entry>) {
      && (forall e | e in list :: e.id in items && items[e.id] == e)
      && forall id | id in items :: items[id] in list && items[id].id == id
    }

    ghost predicate Indexed()
      reads this`items, this`list
    {
      IndexOfList(items, list)
    }

    static lemma DropLast(items: map<nat, Entry>, list: seq<Entry>)
      requires IndexOfList(items, list) && list != []
      requires forall i, j | 0 <= i < j < |list| :: list[i] != list[j]
      ensures IndexOfList(map id | id in items && id != list[|list| - 1].id :: items[id], list[..|list| - 1])
    {
    }

    static ghost predicate SlotOf(list: seq<Entry>, model: seq<Slot>, i: nat)
      requires i < |list| == |model|
      reads list
    {
      model[i] == Slot(list[i].id, list[i].page)
    }

    ghost predicate Modelled()
      reads this`model, this`list, list
    {
      |model| == |list| && forall i | 0 <= i < |list| :: SlotOf(list, model, i)
    }

    ghost predicate Valid()
      reads this, list
    {
      && Linked() && Indexed() && Modelled() && |list| <= cap
      && forall e | e in list :: e in Repr
    }

    constructor (cap: nat)
      ensures Valid() && this.cap == cap && model == [] && Repr == {}
    {
      this.cap := cap;
      items := map[];
      head, tail := null, null;
      list, model := [], [];
      Repr := {};
    }

    method PushFront(e: Entry)
      requires Linked() && e !in list
      modifies this`head, this`tail, this`list, list, e
      ensures Linked() && list == [e] + old(list)
      ensures forall x | x in list :: x.page == old(x.page)
    {
      ghost var was := list;
      if list != [] {
        assert Node(list, 0);
      }
      e.next := head;
      e.prev := null;
      if head != null {
        head.prev := e;
      }
      head := e;
      if tail == null {
        tail := e;
      }
      list := [e] + list;
      forall i | 0 <= i < |list|
        ensures Node(list, i)
      {
        assert i > 0 ==> old(Node(was, i - 1));
        assert i > 1 ==> was[i - 1] != was[0];
      }
    }

    /** The first half of moveToFront, for an entry that is not the head. */
    method Unlink(e: Entry, ghost i: nat)
      requires Linked() && 0 < i < |list| && list[i] == e
      modifies this`tail, this`list, list
      ensures Linked() && list == RemoveAt(old(list), i) && e !in list && head == old(head)
      ensures forall x | x in old(list) :: x.page == old(x.page)
    {
      ghost var was := list;
      assert Node(was, i);
      if e.prev != null {
        e.prev.next := e.next;
      }
      if e.next != null {
        e.next.prev := e.prev;
      }
      if tail == e {
        tail := e.prev;
      }
      list := RemoveAt(list, i);
      forall k | 0 <= k < |list|
        ensures Node(list, k)
      {
        ghost var k' := if k < i then k else k + 1;
        assert old(Node(was, k'));
        assert k' != i - 1 ==> was[k'] != was[i - 1];
        assert i + 1 < |was| && k' != i + 1 ==> was[k'] != was[i + 1];
      }
    }

    method MoveToFront(e: Entry, ghost i: nat)
      requires Linked() && i < |list| && list[i] == e
      modifies this`head, this`tail, this`list, list
      ensures Linked() && list == ToFront(old(list), i)
      ensures forall x: Entry :: x in list <==> x in old(list)
      ensures forall x | x in list :: x.page == old(x.page)
    {
      ToFrontElements(list, i);
      if head == e {
        assert i == 0;
        assert ToFront(list, 0) == list;
        return;
      }
      Unlink(e, i);
      PushFront(e);
    }

    lemma Ends()
      requires Linked()
      ensures tail == if list == [] then null else list[|list| - 1]
      ensures forall i, j | 0 <= i < j < |list| :: list[i] != list[j]
    {
    }

    method Evict()
      requires Linked() && Indexed()
      modifies this`head, this`tail, this`list, this`items, list
      ensures Linked() && Indexed()
      ensures list == if old(list) == [] then [] else old(list)[..|old(list)| - 1]
      ensures forall x | x in list :: x.page == old(x.page)
    {
      hide IndexOfList, Node, Linked;
      Ends();
      if tail == null {
        return;
      }
      DropLast(items, list);
      items := map id | id in items && id != tail.id :: items[id];
      CutTail();
    }

    /** The pointer part of evict. */
    method CutTail()
      requires Linked() && list != []
      modifies this`head, this`tail, this`list, list
      ensures Linked() && list == old(list)[..|old(list)| - 1]
      ensures forall x | x in old(list) :: x.page == old(x.page)
    {
      ghost var was := list;
      ghost var n := |list|;
      assert list[n - 1] == tail && Node(list, n - 1);
      if tail.prev != null {
        tail.prev.next := null;
      }
      tail := tail.prev;
      if tail == null {
        head := null;
      }
      list := list[..n - 1];
      forall k | 0 <= k < |list|
        ensures Node(list, k)
      {
        assert old(Node(was, k));
        assert k != n - 2 ==> was[k] != was[n - 2];
      }
    }

    /** Distinct entries have distinct ids. */
    lemma DistinctIds(i: nat, j: nat)
      requires Linked() && Indexed() && i < |list| && j < |list| && i != j
      ensures list[i].id != list[j].id
    {
    }

    ghost function IdsUpTo(k: nat): set<nat>
      requires k <= |list|
      reads this, list
    {
      set i | 0 <= i < k :: list[i].id
    }

    /** The list has one entry for each cached id. */
    lemma {:induction false} Count(k: nat)
      requires Linked() && Indexed() && k <= |list|
      ensures |IdsUpTo(k)| == k
      decreases k
    {
      hide Linked, Indexed;
      if k > 0 {
        Count(k - 1);
        forall i | 0 <= i < k - 1
          ensures list[i].id != list[k - 1].id
        {
          DistinctIds(i, k - 1);
        }
        assert IdsUpTo(k) == IdsUpTo(k - 1) + {list[k - 1].id};
      }
    }

    lemma Size()
      requires Linked() && Indexed()
      ensures |items| == |list|
    {
      Count(|list|);
      var ids := IdsUpTo(|list|);
      assert items.Keys == ids by {
        forall id | id in items
          ensures id in ids
        {
          var i :| 0 <= i < |list| && list[i] == items[id];
          assert list[i].id in ids;
        }
      }
    }

    lemma Position(id: nat) returns (i: nat)
      requires Valid() && id in items
      ensures i < |list| && list[i] == items[id] && IndexOf(model, id) == i
    {
      i :| 0 <= i < |list| && list[i] == items[id];
      var j := IndexOf(model, id);
      assert SlotOf(list, model, i);
      assert SlotOf(list, model, j);
      assert list[j] in list;
    }

    lemma Absent(id: nat)
      requires Valid() && id !in items
      ensures IndexOf(model, id) == |model|
    {
      forall k | 0 <= k < |model|
        ensures model[k].id in items
      {
        assert SlotOf(list, model, k);
        assert list[k] in list;
      }
    }

    /** Moving an entry and its slot to the front. */
    static lemma SlotsToFront(list: seq<Entry>, model: seq<Slot>, i: nat, k: nat)
      requires i < |list| == |model| && k < |list|
      requires forall j | 0 <= j < |list| :: SlotOf(list, model, j)
      ensures |ToFront(list, i)| == |ToFront(model, i)| == |list|
      ensures SlotOf(ToFront(list, i), ToFront(model, i), k)
    {
      assert SlotOf(list, model, if k == 0 then i else if k <= i then k - 1 else k);
    }

    /** Get refines Touch: it returns the cached page, if any, and makes it the most recently used. */
    method Get(id: nat) returns (page: array?<byte>)
      requires Valid()
      modifies this, Repr
      ensures Valid() && Repr == old(Repr)
      ensures forall e: Entry :: e in list <==> e in old(list)
      ensures model == Touch(old(model), id)
      ensures page == var i := IndexOf(old(model), id); if i < |old(model)| then old(model)[i].page else null
    {
      if id !in items {
        Absent(id);
        return null;
      }
      var e := items[id];
      ghost var i := Position(id);
      assert SlotOf(list, model, i);
      page := e.page;
      Refresh(e, i, model[i]);
    }

    /** No page is cached twice. */
    lemma DistinctModel()
      requires Valid()
      ensures forall i, j | 0 <= i < j < |model| :: model[i].id != model[j].id
    {
      forall i, j | 0 <= i < j < |model|
        ensures model[i].id != model[j].id
      {
        DistinctIds(i, j);
        assert SlotOf(list, model, i) && SlotOf(list, model, j);
      }
    }

    /** moveToFront, and the same on the model, whose slot i may have got a new page. */
    method Refresh(e: Entry, ghost i: nat, ghost slot: Slot)
      requires Linked() && Indexed() && |list| <= cap && forall x | x in list :: x in Repr
      requires i < |list| == |model| && list[i] == e && slot == Slot(e.id, e.page)
      requires forall k | 0 <= k < |list| && k != i :: SlotOf(list, model, k)
      modifies this`head, this`tail, this`list, this`model, list
      ensures Valid() && model == [slot] + RemoveAt(old(model), i)
      ensures forall x: Entry :: x in list <==> x in old(list)
    {
      hide Node, Linked;
      ghost var was, now := list, model[i := slot];
      forall k | 0 <= k < |was|
        ensures SlotOf(was, now, k)
      {
        assert k != i ==> SlotOf(was, model, k);
      }
      MoveToFront(e, i);
      assert forall x | x in was :: x.page == old(x.page);
      forall k | 0 <= k < |was|
        ensures SlotOf(was, now, k)
      {
        assert was[k] in was;
        assert old(SlotOf(was, now, k));
      }
      forall k | 0 <= k < |was|
        ensures |ToFront(now, i)| == |was| && SlotOf(ToFront(was, i), ToFront(now, i), k)
      {
        SlotsToFront(was, now, i, k);
      }
      model := ToFront(now, i);
      assert RemoveAt(now, i) == RemoveAt(old(model), i);
    }

    /** Put refines Store. */
    method Put(id: nat, page: array<byte>)
      requires Valid()
      modifies this, Repr
      ensures Valid() && fresh(Repr - old(Repr))
      ensures model == Store(old(model), cap, id, page)
    {
      if id in items {
        var e := items[id];
        ghost var i := Position(id);
        e.page := page;
        forall k | 0 <= k < |list|
          ensures Node(list, k)
          ensures k != i ==> SlotOf(list, model, k)
        {
          assert old(Node(list, k)) && old(SlotOf(list, model, k));
        }
        Refresh(e, i, Slot(id, page));
      } else {
        PutNew(id, page);
      }
    }

    method PutNew(id: nat, page: array<byte>)
      requires Valid() && id !in items
      modifies this, Repr
      ensures Valid() && fresh(Repr - old(Repr))
      ensures model == Store(old(model), cap, id, page)
    {
      Absent(id);
      AddFront(id, page);
      Trim();
    }

    method AddFront(id: nat, page: array<byte>)
      requires Valid() && id !in items
      modifies this, Repr
      ensures Linked() && Indexed() && Modelled() && |list| <= cap + 1
      ensures (forall e | e in list :: e in Repr) && fresh(Repr - old(Repr))
      ensures fresh((set e | e in list) - old(set e | e in list))
      ensures model == [Slot(id, page)] + old(model)
    {
      ghost var was := list;
      hide Node, Linked;
      var e := new Entry(id, page);
      items := items[id := e];
      assert Linked();
      PushFront(e);
      ghost var now := [Slot(id, page)] + model;
      forall k | 0 <= k < |list|
        ensures SlotOf(list, now, k)
      {
        if k > 0 {
          assert old(SlotOf(was, model, k - 1));
          assert list[k] in list;
        }
      }
      model := now;
      Repr := Repr + {e};
    }

    /** The end of put: evict when over capacity. */
    method Trim()
      requires Linked() && Indexed() && Modelled() && |list| <= cap + 1
      requires forall e | e in list :: e in Repr
      modifies this`head, this`tail, this`list, this`items, this`model, list
      ensures Valid()
      ensures model == if |old(model)| > cap then old(model)[..|old(model)| - 1] else old(model)
    {
      hide Node, Linked, Indexed;
      Size();
      if |items| > cap {
        ghost var was := list;
        Evict();
        ghost var now := model[..|model| - 1];
        forall k | 0 <= k < |list|
          ensures SlotOf(list, now, k)
        {
          assert old(SlotOf(was, model, k));
          assert list[k] in list;
        }
        model := now;
      }
    }
  }
}
