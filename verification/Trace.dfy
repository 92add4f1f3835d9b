/** Which pages one insert reads and writes, in order. */
module Trace {
  import opened Bytes
  import opened Records
  import opened TreeModel
  import opened Lru
  import opened Recency

  /** A run of accesses takes the cached ids from one list to another. */
  ghost predicate Accesses(ids: seq<nat>, ids': seq<nat>, cap: nat, trace: seq<nat>) {
    ids' == AccessAll(ids, cap, trace)
  }

  lemma AccessesThen(ids: seq<nat>, mid: seq<nat>, ids': seq<nat>, cap: nat, a: seq<nat>, b: seq<nat>)
    requires Accesses(ids, mid, cap, a) && Accesses(mid, ids', cap, b)
    ensures Accesses(ids, ids', cap, a + b)
  {
    AccessMore(ids, cap, a, b);
  }

  /** doInsert: writing the page, or on a split reading the new page and writing both. */
  function StoreTrace(split: bool, id: nat, newId: nat): seq<nat> {
    if split then [newId, id, newId] else [id]
  }

  /** The page accesses of insertRec. */
  function Touched(cfg: Cfg, t: Tree, key: int, val: Value, pages: nat): seq<nat>
    decreases t
  {
    var idx := Position(t.kvs, key, cfg.acc.Upper(t.Leaf?));
    var found := idx < |t.kvs| && t.kvs[idx].key == key;
    var split := InsRec(cfg, t, key, val, pages).out.Split?;
    if found && |val| <= |t.kvs[idx].val| then [t.id] + [t.id]
    else if t.Leaf? then [t.id] + StoreTrace(split, t.id, pages)
    else if found || |t.kids| != |t.kvs| + 1 then [t.id]
    else
      var sub := InsRec(cfg, t.kids[idx], key, val, pages);
      var down := [t.id] + Touched(cfg, t.kids[idx], key, val, pages);
      if sub.out.Split? then down + ([t.id] + StoreTrace(split, t.id, sub.pages)) else down
  }

  lemma TouchedHere(cfg: Cfg, t: Tree, key: int, val: Value, pages: nat, ids: seq<nat>, ids': seq<nat>, cap: nat)
    requires var i := Position(t.kvs, key, cfg.acc.Upper(t.Leaf?));
      i < |t.kvs| && t.kvs[i].key == key && |val| <= |t.kvs[i].val|
    requires Accesses(ids, ids', cap, [t.id, t.id])
    ensures Accesses(ids, ids', cap, Touched(cfg, t, key, val, pages))
  {
    assert [t.id] + [t.id] == [t.id, t.id];
  }

  lemma TouchedLeaf(cfg: Cfg, t: Tree, key: int, val: Value, pages: nat, split: bool, newId: nat, ids: seq<nat>,
      mid: seq<nat>, ids': seq<nat>, cap: nat)
    requires t.Leaf?
    requires var out := InsRec(cfg, t, key, val, pages).out;
      split == out.Split? && (split ==> newId == out.r.id)
    requires var i := Position(t.kvs, key, cfg.acc.Upper(t.Leaf?));
      !(i < |t.kvs| && t.kvs[i].key == key && |val| <= |t.kvs[i].val|)
    requires Accesses(ids, mid, cap, [t.id]) && Accesses(mid, ids', cap, StoreTrace(split, t.id, newId))
    ensures Accesses(ids, ids', cap, Touched(cfg, t, key, val, pages))
  {
    hide Used, Fits, RoomFor, InsertAt, Position, Accesses;
    AccessesThen(ids, mid, ids', cap, [t.id], StoreTrace(split, t.id, newId));
  }

  /** What doInsert does at an internal node after its child has split: read the page again, and store. */
  function Again(split: bool, id: nat, newId: nat): seq<nat> {
    [id] + StoreTrace(split, id, newId)
  }

  lemma Reread(ids: seq<nat>, mid: seq<nat>, ids': seq<nat>, cap: nat, split: bool, id: nat, newId: nat)
    requires Accesses(ids, mid, cap, [id]) && Accesses(mid, ids', cap, StoreTrace(split, id, newId))
    ensures Accesses(ids, ids', cap, Again(split, id, newId))
  {
    hide Accesses;
    AccessesThen(ids, mid, ids', cap, [id], StoreTrace(split, id, newId));
  }

  /** The accesses at an internal node after the one that reads it. */
  function TouchedBelow(cfg: Cfg, t: Tree, idx: nat, key: int, val: Value, pages: nat): seq<nat>
    requires t.Inner? && idx < |t.kids|
  {
    var sub, down := InsRec(cfg, t.kids[idx], key, val, pages), Touched(cfg, t.kids[idx], key, val, pages);
    if sub.out.Split? then down + Again(InsRec(cfg, t, key, val, pages).out.Split?, t.id, sub.pages) else down
  }

  lemma TouchedInner(cfg: Cfg, t: Tree, idx: nat, key: int, val: Value, pages: nat, ids: seq<nat>, mid: seq<nat>,
      ids': seq<nat>, cap: nat)
    requires t.Inner? && |t.kids| == |t.kvs| + 1 && idx == Position(t.kvs, key, cfg.acc.Upper(false)) && idx <= |t.kvs|
    requires idx < |t.kvs| ==> t.kvs[idx].key != key
    requires Accesses(ids, mid, cap, [t.id]) && Accesses(mid, ids', cap, TouchedBelow(cfg, t, idx, key, val, pages))
    ensures Accesses(ids, ids', cap, Touched(cfg, t, key, val, pages))
  {
    hide InsRec, Position, Accesses;
    var b := TouchedBelow(cfg, t, idx, key, val, pages);
    AccessesThen(ids, mid, ids', cap, [t.id], b);
    assert Touched(cfg, t, key, val, pages) == [t.id] + b;
  }
}
