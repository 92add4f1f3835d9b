/** Which page stays in the cache while others are accessed, and how many pages one insert accesses. */
module Resident {
  import opened Bytes
  import opened Records
  import opened TreeModel
  import opened Lru
  import opened Recency
  import opened Refine
  import opened Shape
  import opened Trace

  // ---------------------------------------------------------------- which page stays cached

  function Distinct(trace: seq<nat>): set<nat> {
    set x | x in trace
  }

  ghost predicate NoRepeats(ids: seq<nat>) {
    forall i, j | 0 <= i < j < |ids| :: ids[i] != ids[j]
  }

  /** The first |seen| cached ids are those accessed since, and id comes right behind them; or it has been evicted. */
  ghost predicate Behind(ids: seq<nat>, cap: nat, id: nat, seen: set<nat>) {
    && NoRepeats(ids) && |ids| <= cap
    && if |seen| < cap then
         |seen| < |ids| && ids[|seen|] == id && Distinct(ids[..|seen|]) == seen
       else |ids| == cap && id !in ids
  }

  lemma AccessDistinct(ids: seq<nat>, cap: nat, x: nat)
    requires NoRepeats(ids) && |ids| <= cap
    ensures NoRepeats(Accessed(ids, cap, x)) && |Accessed(ids, cap, x)| <= cap
  {
  }

  lemma SizeOfDistinct(ids: seq<nat>)
    requires NoRepeats(ids)
    ensures |Distinct(ids)| == |ids|
  {
    if ids != [] {
      var n := |ids| - 1;
      SizeOfDistinct(ids[..n]);
      assert Distinct(ids) == Distinct(ids[..n]) + {ids[n]};
    }
  }

  lemma StaysOut(ids: seq<nat>, cap: nat, id: nat, seen: set<nat>, x: nat)
    requires Behind(ids, cap, id, seen) && x != id && |seen| >= cap
    ensures Behind(Accessed(ids, cap, x), cap, id, seen + {x})
  {
    AccessDistinct(ids, cap, x);
    MoreSeen(seen, x);
    hide NoRepeats, Distinct;
  }

  lemma StaysBehindSeen(ids: seq<nat>, cap: nat, id: nat, seen: set<nat>, x: nat)
    requires Behind(ids, cap, id, seen) && x != id && |seen| < cap && x in seen
    ensures Behind(Accessed(ids, cap, x), cap, id, seen + {x})
  {
    AccessDistinct(ids, cap, x);
    var i, k := At(ids, x), |seen|;
    assert seen + {x} == seen;
    assert x in ids[..k] && i < k;
    SameSeen(ids, i, k);
    hide NoRepeats, Distinct;
  }

  lemma StaysBehindNew(ids: seq<nat>, cap: nat, id: nat, seen: set<nat>, x: nat)
    requires Behind(ids, cap, id, seen) && x != id && |seen| < cap && x !in seen
    ensures Behind(Accessed(ids, cap, x), cap, id, seen + {x})
  {
    hide NoRepeats, Distinct, Accessed, At;
    AccessDistinct(ids, cap, x);
    var k := |seen|;
    NotInFront(ids, x, k);
    OneMoreSeen(ids[..k], seen, x);
    if At(ids, x) == |ids| && k + 1 == cap {
      LastOut(ids, cap, x, k);
    } else {
      Pushed(ids, cap, x, k);
    }
  }

  /** The front moves up by one behind the page just accessed, unless it is pushed out. */
  lemma Pushed(ids: seq<nat>, cap: nat, x: nat, k: nat)
    requires k < |ids| <= cap && At(ids, x) >= k && ids[k] != x && !(At(ids, x) == |ids| && k + 1 == cap)
    ensures var ids' := Accessed(ids, cap, x);
      k + 1 < cap && k + 1 < |ids'| && ids'[k + 1] == ids[k] && ids'[..k + 1] == [x] + ids[..k]
  {
    hide At;
    var i := At(ids, x);
    if i < |ids| {
      assert ids[i] == x;
      PushedHit(ids, x, i, k);
    }
  }

  lemma PushedHit(ids: seq<nat>, x: nat, i: nat, k: nat)
    requires k < i < |ids|
    ensures var ids' := [x] + RemoveAt(ids, i);
      |ids'| == |ids| && ids'[k + 1] == ids[k] && ids'[..k + 1] == [x] + ids[..k]
  {
  }

  lemma NotInFront(ids: seq<nat>, x: nat, k: nat)
    requires k <= |ids| && x !in Distinct(ids[..k])
    ensures At(ids, x) >= k && (At(ids, x) == |ids| ==> x !in ids)
  {
    forall j | 0 <= j < k
      ensures ids[j] in Distinct(ids[..k])
    {
      assert ids[j] == ids[..k][j];
    }
  }

  lemma OneMoreSeen(front: seq<nat>, seen: set<nat>, x: nat)
    requires Distinct(front) == seen && x !in seen
    ensures Distinct([x] + front) == seen + {x} && |seen + {x}| == |seen| + 1
  {
  }

  lemma StaysOne(ids: seq<nat>, cap: nat, id: nat, seen: set<nat>, x: nat)
    requires Behind(ids, cap, id, seen) && x != id
    ensures Behind(Accessed(ids, cap, x), cap, id, seen + {x})
  {
    hide Behind, Accessed;
    if |seen| >= cap {
      StaysOut(ids, cap, id, seen, x);
    } else if x in seen {
      StaysBehindSeen(ids, cap, id, seen, x);
    } else {
      StaysBehindNew(ids, cap, id, seen, x);
    }
  }

  lemma MoreSeen(seen: set<nat>, x: nat)
    ensures |seen + {x}| >= |seen|
  {
    assert x in seen ==> seen + {x} == seen;
  }

  lemma SameSeen(ids: seq<nat>, i: nat, k: nat)
    requires i < k < |ids|
    ensures Distinct(([ids[i]] + RemoveAt(ids, i))[..k]) == Distinct(ids[..k])
  {
    var s := ([ids[i]] + RemoveAt(ids, i))[..k];
    forall x | x in ids[..k]
      ensures x in s
    {
      var j :| 0 <= j < k && ids[j] == x;
      assert s[if j == i then 0 else if j < i then j + 1 else j] == x;
    }
    forall j | 0 <= j < k
      ensures s[j] in ids[..k]
    {
      assert s[j] == ids[..k][if j == 0 then i else if j <= i then j - 1 else j];
    }
  }

  lemma LastOut(ids: seq<nat>, cap: nat, x: nat, k: nat)
    requires NoRepeats(ids) && k + 1 == cap == |ids| && x !in ids
    ensures |Accessed(ids, cap, x)| == cap && ids[k] != x && ids[k] !in Accessed(ids, cap, x)
  {
  }

  /** A page that has just been accessed is still cached after accesses to fewer than cap other pages, and only then. */
  lemma {:induction false} StaysCached(ids: seq<nat>, cap: nat, id: nat, trace: seq<nat>)
    requires NoRepeats(ids) && |ids| <= cap && id !in trace
    ensures var after := AccessAll(Accessed(ids, cap, id), cap, trace);
      && Behind(after, cap, id, Distinct(trace))
      && (id in after <==> |Distinct(trace)| < cap)
  {
    hide Behind, NoRepeats, Accessed;
    if trace == [] {
      StaysStart(ids, cap, id);
      assert Distinct(trace) == {};
    } else {
      var n := |trace| - 1;
      StaysCached(ids, cap, id, trace[..n]);
      assert trace == trace[..n] + [trace[n]];
      StaysOne(AccessAll(Accessed(ids, cap, id), cap, trace[..n]), cap, id, Distinct(trace[..n]), trace[n]);
      assert Distinct(trace) == Distinct(trace[..n]) + {trace[n]};
    }
    BehindIn(AccessAll(Accessed(ids, cap, id), cap, trace), cap, id, Distinct(trace));
  }

  lemma StaysStart(ids: seq<nat>, cap: nat, id: nat)
    requires NoRepeats(ids) && |ids| <= cap
    ensures Behind(Accessed(ids, cap, id), cap, id, {})
  {
    AccessDistinct(ids, cap, id);
  }

  lemma BehindIn(ids: seq<nat>, cap: nat, id: nat, seen: set<nat>)
    requires Behind(ids, cap, id, seen)
    ensures id in ids <==> |seen| < cap
  {
  }

  // ---------------------------------------------------------------- how many pages one insert touches

  /** The number of nodes on the search path. */
  function Walk(acc: Acc, t: Tree, key: int): (n: nat)
    ensures n >= 1
    decreases t
  {
    var i := Position(t.kvs, key, acc.Upper(t.Leaf?));
    if t.Leaf? || |t.kids| != |t.kvs| + 1 || (i < |t.kvs| && t.kvs[i].key == key) then 1
    else 1 + Walk(acc, t.kids[i], key)
  }

  lemma Joined(a: seq<nat>, b: seq<nat>)
    ensures Distinct(a + b) == Distinct(a) + Distinct(b)
  {
  }

  lemma StoreTraceSet(split: bool, id: nat, newId: nat)
    ensures Distinct(StoreTrace(split, id, newId)) == {id} + if split then {newId} else {}
  {
  }

  lemma TwoApart(a: set<nat>, x: nat, y: nat, b: bool)
    requires x !in a && y !in a && x != y
    ensures |{x} + a + if b then {y} else {}| == 1 + |a| + if b then 1 else 0
  {
    var s := {x} + a;
    assert |s| == 1 + |a|;
  }

  ghost predicate CountOf(d: set<nat>, t: Tree, pages: nat, to: nat, walk: nat) {
    to >= pages && (forall x | x in d :: x in Pages(t) || pages <= x < to) && |d| == walk + (to - pages)
  }

  lemma LeafTouched(cfg: Cfg, t: Tree, key: int, val: Value, pages: nat)
    requires t.Leaf? && t.id < pages && !InsRec(cfg, t, key, val, pages).out.Broken?
    requires var i := Position(t.kvs, key, cfg.acc.Upper(t.Leaf?));
      !(i < |t.kvs| && t.kvs[i].key == key && |val| <= |t.kvs[i].val|)
    ensures CountOf(Distinct(Touched(cfg, t, key, val, pages)), t, pages, InsRec(cfg, t, key, val, pages).pages, 1)
  {
    hide Used, Fits, RoomFor, InsertAt, Position;
    var split := InsRec(cfg, t, key, val, pages).out.Split?;
    Joined([t.id], StoreTrace(split, t.id, pages));
    StoreTraceSet(split, t.id, pages);
    assert Distinct([t.id]) == {t.id};
    assert Distinct(Touched(cfg, t, key, val, pages)) == {t.id} + if split then {pages} else {};
    assert split ==> |{t.id, pages}| == 2;
  }

  lemma InnerTouched(cfg: Cfg, t: Tree, i: nat, key: int, val: Value, pages: nat)
    requires t.Inner? && |t.kids| == |t.kvs| + 1 && i == Position(t.kvs, key, cfg.acc.Upper(false)) && i <= |t.kvs|
    requires (i < |t.kvs| ==> t.kvs[i].key != key) && !InsRec(cfg, t, key, val, pages).out.Broken?
    requires t.id !in Pages(t.kids[i]) && t.id < pages && forall x | x in Pages(t.kids[i]) :: x in Pages(t) && x < pages
    requires CountOf(Distinct(Touched(cfg, t.kids[i], key, val, pages)), t.kids[i], pages,
                     InsRec(cfg, t.kids[i], key, val, pages).pages, Walk(cfg.acc, t.kids[i], key))
    ensures CountOf(Distinct(Touched(cfg, t, key, val, pages)), t, pages, InsRec(cfg, t, key, val, pages).pages,
                    Walk(cfg.acc, t, key))
  {
    hide Position, InnerPut, InsRec, Walk, Distinct, Touched, Pages;
    InnerDistinct(cfg, t, i, key, val, pages);
    InnerPages(cfg, t, i, key, val, pages);
    InnerWalk(cfg.acc, t, i, key);
    var d, sub := Touched(cfg, t.kids[i], key, val, pages), InsRec(cfg, t.kids[i], key, val, pages);
    var split := sub.out.Split? && InsRec(cfg, t, key, val, pages).out.Split?;
    TwoApart(Distinct(d), t.id, sub.pages, split);
    RootIn(t);
  }

  lemma InnerWalk(acc: Acc, t: Tree, i: nat, key: int)
    requires t.Inner? && |t.kids| == |t.kvs| + 1 && i == Position(t.kvs, key, acc.Upper(false)) && i <= |t.kvs|
    requires i < |t.kvs| ==> t.kvs[i].key != key
    ensures Walk(acc, t, key) == 1 + Walk(acc, t.kids[i], key)
  {
    hide Position;
  }

  lemma RootIn(t: Tree)
    ensures t.id in Pages(t)
  {
  }

  lemma InnerPages(cfg: Cfg, t: Tree, i: nat, key: int, val: Value, pages: nat)
    requires t.Inner? && |t.kids| == |t.kvs| + 1 && i == Position(t.kvs, key, cfg.acc.Upper(false)) && i <= |t.kvs|
    requires (i < |t.kvs| ==> t.kvs[i].key != key) && !InsRec(cfg, t, key, val, pages).out.Broken?
    ensures var sub, ins := InsRec(cfg, t.kids[i], key, val, pages), InsRec(cfg, t, key, val, pages);
      ins.pages == sub.pages + if sub.out.Split? && ins.out.Split? then 1 else 0
  {
    hide Position, InnerPut;
    var sub := InsRec(cfg, t.kids[i], key, val, pages);
    if sub.out.Split? {
      InnerPutForm(cfg, t, i, sub.out.l, sub.out.m, sub.out.r, sub.pages);
    }
  }

  lemma InnerDistinct(cfg: Cfg, t: Tree, i: nat, key: int, val: Value, pages: nat)
    requires t.Inner? && |t.kids| == |t.kvs| + 1 && i == Position(t.kvs, key, cfg.acc.Upper(false)) && i <= |t.kvs|
    requires (i < |t.kvs| ==> t.kvs[i].key != key) && !InsRec(cfg, t, key, val, pages).out.Broken?
    ensures var sub := InsRec(cfg, t.kids[i], key, val, pages);
      Distinct(Touched(cfg, t, key, val, pages))
      == {t.id} + Distinct(Touched(cfg, t.kids[i], key, val, pages))
         + if sub.out.Split? && InsRec(cfg, t, key, val, pages).out.Split? then {sub.pages} else {}
  {
    hide Position, InnerPut, InsRec, StoreTrace;
    var d, sub := Touched(cfg, t.kids[i], key, val, pages), InsRec(cfg, t.kids[i], key, val, pages);
    var split := InsRec(cfg, t, key, val, pages).out.Split?;
    Joined([t.id], d);
    assert Distinct([t.id]) == {t.id};
    if sub.out.Split? {
      Joined([t.id], StoreTrace(split, t.id, sub.pages));
      StoreTraceSet(split, t.id, sub.pages);
      Joined([t.id] + d, [t.id] + StoreTrace(split, t.id, sub.pages));
    }
  }

  /** One insert touches the nodes of its search path and the pages it allocates, and no others. */
  lemma {:induction false} TouchedCount(cfg: Cfg, t: Tree, key: int, val: Value, pages: nat)
    requires Once(Pages(t)) && (forall x | x in Pages(t) :: x < pages) && !InsRec(cfg, t, key, val, pages).out.Broken?
    ensures CountOf(Distinct(Touched(cfg, t, key, val, pages)), t, pages, InsRec(cfg, t, key, val, pages).pages,
                    Walk(cfg.acc, t, key))
    decreases t
  {
    var i := Position(t.kvs, key, cfg.acc.Upper(t.Leaf?));
    var found := i < |t.kvs| && t.kvs[i].key == key;
    if found && |val| <= |t.kvs[i].val| {
      assert Distinct([t.id] + [t.id]) == {t.id};
    } else if t.Leaf? {
      LeafTouched(cfg, t, key, val, pages);
    } else {
      forall x
        ensures Pages(t.kids[i])[x] <= PagesOf(t.kids)[x] <= Pages(t)[x]
        ensures Pages(t)[t.id] == 1 + PagesOf(t.kids)[t.id]
      {
        InPagesOf(t.kids, i, x);
      }
      TouchedCount(cfg, t.kids[i], key, val, pages);
      InnerTouched(cfg, t, i, key, val, pages);
    }
  }
}
