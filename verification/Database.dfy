/** Whole databases: what every reachable state keeps, over all runs of inserts. */
module Database {
  import opened Bytes
  import opened Records
  import opened TreeModel
  import opened Order
  import opened Contents
  import opened Shape
  import opened FixedLength

  /** The number of levels on the way to the rightmost leaf. */
  function HeightOf(t: Tree): (h: nat)
    ensures h >= 1
  {
    if t.Leaf? || t.kids == [] then 1 else 1 + HeightOf(t.kids[|t.kids| - 1])
  }

  lemma {:induction false} HeightUnique(t: Tree, h: nat)
    requires Uniform(t, h)
    ensures HeightOf(t) == h
    decreases t
  {
    if t.Inner? {
      HeightUnique(t.kids[|t.kids| - 1], h - 1);
    }
  }

  /**
   The invariant of every reachable database: search order, one depth for all leaves, every allocated page after the
   two header pages in the tree exactly once, and in a B+ tree one chain through all the leaves.
   */
  ghost predicate Invariant(cfg: Cfg, db: Db) {
    && db.Db? && db.pages >= 3
    && Ordered(cfg.acc, false, db.t, MIN_KEY, MAX_KEY + 1)
    && Uniform(db.t, HeightOf(db.t))
    && Pages(db.t) == Fresh(2, db.pages)
    && (cfg.acc.CopyUp() ==> Chained(Leaves(db.t), INVALID_PAGE))
  }

  lemma EmptyInvariant(cfg: Cfg)
    ensures Invariant(cfg, Empty(cfg)) && MapOf(cfg.acc, Empty(cfg)) == map[]
  {
  }

  predicate IsKey(key: int) {
    MIN_KEY <= key <= MAX_KEY
  }

  lemma RootSplit(cfg: Cfg, l: Tree, m: KV, r: Tree, id: nat, content: nat, h: nat)
    requires SplitOrdered(cfg.acc, false, l, m, r, MIN_KEY, MAX_KEY + 1)
    requires Uniform(l, h) && Uniform(r, h) && h >= 1
    ensures var t := Inner(id, [m], [l, r], content);
      && Ordered(cfg.acc, false, t, MIN_KEY, MAX_KEY + 1)
      && Uniform(t, h + 1) && HeightOf(t) == h + 1
      && Leaves(t) == Leaves(l) + Leaves(r)
      && Pages(t) == multiset{id} + (Pages(l) + Pages(r))
      && Entries(cfg.acc, t) == Entries(cfg.acc, l) + Sep(cfg.acc, m) + Entries(cfg.acc, r)
  {
    var t := Inner(id, [m], [l, r], content);
    assert [l, r] == [l] + [r];
    ListAppend([l], [r]);
    ListOne(l);
    ListOne(r);
    HeightUnique(r, h);
    hide *;
    RootFlat(cfg.acc, l, m, r);
    RootForm(cfg, l, m, r, id, content, h);
  }

  lemma RootForm(cfg: Cfg, l: Tree, m: KV, r: Tree, id: nat, content: nat, h: nat)
    requires SplitOrdered(cfg.acc, false, l, m, r, MIN_KEY, MAX_KEY + 1)
    requires Uniform(l, h) && Uniform(r, h) && h >= 1 && HeightOf(r) == h
    ensures var t := Inner(id, [m], [l, r], content);
      && Ordered(cfg.acc, false, t, MIN_KEY, MAX_KEY + 1)
      && Uniform(t, h + 1) && HeightOf(t) == h + 1
      && Leaves(t) == LeavesOf([l, r]) && Pages(t) == multiset{id} + PagesOf([l, r])
      && Entries(cfg.acc, t) == Flat(cfg.acc, [m], [l, r])
  {
    hide NodeOrdered, KidsOrdered, LeavesOf, PagesOf, Flat;
    assert [l, r][0] == l && [l, r][1] == r;
  }

  lemma RootFlat(acc: Acc, l: Tree, m: KV, r: Tree)
    ensures Flat(acc, [m], [l, r]) == Entries(acc, l) + Sep(acc, m) + Entries(acc, r)
  {
    hide Entries, Sep, Flat;
    FlatCut(acc, [m], [l, r], 0);
    assert [m][..0] == [] && [m][1..] == [] && [l, r][..1] == [l] && [l, r][1..] == [r];
    FlatHead(acc, [], [l]);
    FlatHead(acc, [], [r]);
    PostNone(acc, l);
    PostNone(acc, r);
  }

  lemma PostNone(acc: Acc, c: Tree)
    ensures Post(acc, [], [c], 0) == []
  {
  }

  /** Insert refines map update, and keeps everything a reachable database has. */
  lemma InsertKeeps(cfg: Cfg, db: Db, key: int, val: Value)
    requires Invariant(cfg, db) && IsKey(key) && Insert(cfg, db, key, val).Db?
    ensures var db' := Insert(cfg, db, key, val);
      && Invariant(cfg, db')
      && Entries(cfg.acc, db'.t) == Put(Entries(cfg.acc, db.t), key, val)
      && MapOf(cfg.acc, db') == MapOf(cfg.acc, db)[key := val]
      && db.pages <= db'.pages
  {
    hide InsRec, Ordered, SplitOrdered, Uniform, Pages, Leaves, Entries, Chained, Fresh, Used, Fits, Put, ToMap,
      HeightOf, Sep;
    var acc, h, ins := cfg.acc, HeightOf(db.t), InsRec(cfg, db.t, key, val, db.pages);
    EntriesSorted(acc, false, db.t, MIN_KEY, MAX_KEY + 1);
    PutIsUpdate(Entries(acc, db.t), key, val);
    InsertOrdered(cfg, false, db.t, key, val, db.pages, MIN_KEY, MAX_KEY + 1);
    InsertEntries(cfg, db.t, key, val, db.pages, MIN_KEY, MAX_KEY + 1);
    InsertUniform(cfg, db.t, key, val, db.pages, h);
    InsertPages(cfg, db.t, key, val, db.pages);
    FreshAppend(2, db.pages, ins.pages);
    if acc.CopyUp() {
      InsertChained(cfg, db.t, key, val, db.pages, h, INVALID_PAGE);
    }
    if ins.out.Split? {
      RootSplit(cfg, ins.out.l, ins.out.m, ins.out.r, ins.pages, cfg.pageSize - Used(cfg, false, [ins.out.m]), h);
      FreshFew(ins.pages);
      FreshAppend(2, ins.pages, ins.pages + 1);
    } else {
      HeightUnique(ins.out.t, h);
    }
  }

  /** Every reachable database keeps the invariant, and holds exactly the map that its inserts build. */
  lemma {:induction false} RunKeeps(cfg: Cfg, ops: seq<KV>)
    requires (forall i | 0 <= i < |ops| :: IsKey(ops[i].key)) && Run(cfg, Empty(cfg), ops).Db?
    ensures Invariant(cfg, Run(cfg, Empty(cfg), ops))
    ensures MapOf(cfg.acc, Run(cfg, Empty(cfg), ops)) == Updates(ops)
  {
    hide Invariant, Insert, MapOf, Empty;
    if ops == [] {
      EmptyInvariant(cfg);
    } else {
      var n := |ops| - 1;
      InsertFailed(cfg, Run(cfg, Empty(cfg), ops[..n]), ops[n].key, ops[n].val);
      RunKeeps(cfg, ops[..n]);
      InsertKeeps(cfg, Run(cfg, Empty(cfg), ops[..n]), ops[n].key, ops[n].val);
    }
  }

  lemma InsertFailed(cfg: Cfg, db: Db, key: int, val: Value)
    ensures db.Failed? ==> Insert(cfg, db, key, val).Failed?
  {
  }

  /** The map that a run of inserts builds. */
  function Updates(ops: seq<KV>): map<int, Value> {
    if ops == [] then map[] else Updates(ops[..|ops| - 1])[ops[|ops| - 1].key := ops[|ops| - 1].val]
  }

  /** After the same inserts a B-tree and a B+ tree, on pages of any sizes, hold the same records in the same order. */
  lemma TreesAgree(p: nat, p': nat, ops: seq<KV>)
    requires forall i | 0 <= i < |ops| :: IsKey(ops[i].key)
    requires Run(Cfg(BTreeAcc, p), Empty(Cfg(BTreeAcc, p)), ops).Db?
    requires Run(Cfg(BPTreeAcc, p'), Empty(Cfg(BPTreeAcc, p')), ops).Db?
    ensures Entries(BTreeAcc, Run(Cfg(BTreeAcc, p), Empty(Cfg(BTreeAcc, p)), ops).t)
         == Entries(BPTreeAcc, Run(Cfg(BPTreeAcc, p'), Empty(Cfg(BPTreeAcc, p')), ops).t)
  {
    RunIsPuts(Cfg(BTreeAcc, p), ops);
    RunIsPuts(Cfg(BPTreeAcc, p'), ops);
  }

  /** The records after a run, built by sorted insertion. */
  function Puts(ops: seq<KV>): seq<KV> {
    if ops == [] then [] else Put(Puts(ops[..|ops| - 1]), ops[|ops| - 1].key, ops[|ops| - 1].val)
  }

  lemma {:induction false} RunIsPuts(cfg: Cfg, ops: seq<KV>)
    requires (forall i | 0 <= i < |ops| :: IsKey(ops[i].key)) && Run(cfg, Empty(cfg), ops).Db?
    ensures Entries(cfg.acc, Run(cfg, Empty(cfg), ops).t) == Puts(ops)
  {
    if ops != [] {
      hide Invariant, Insert, MapOf, Empty, Put, Entries;
      var n := |ops| - 1;
      InsertFailed(cfg, Run(cfg, Empty(cfg), ops[..n]), ops[n].key, ops[n].val);
      RunKeeps(cfg, ops[..n]);
      RunIsPuts(cfg, ops[..n]);
      InsertKeeps(cfg, Run(cfg, Empty(cfg), ops[..n]), ops[n].key, ops[n].val);
    }
  }

  // ---------------------------------------------------------------- values of one length

  ghost predicate FixedInvariant(cfg: Cfg, v: nat, db: Db) {
    && db.Db? && Fixed(cfg, v, true, db.t) && Ordered(cfg.acc, true, db.t, MIN_KEY, MAX_KEY + 1)
  }

  lemma EmptyFixed(cfg: Cfg, v: nat)
    requires Geometry(cfg, v)
    ensures FixedInvariant(cfg, v, Empty(cfg))
  {
  }

  lemma RootFixed(cfg: Cfg, v: nat, l: Tree, m: KV, r: Tree, id: nat)
    requires Geometry(cfg, v) && Fixed(cfg, v, false, l) && Fixed(cfg, v, false, r) && |m.val| == Len(cfg.acc, false, v)
    requires SplitOrdered(cfg.acc, true, l, m, r, MIN_KEY, MAX_KEY + 1)
    ensures Fits(cfg, false, [m])
    ensures var t := Inner(id, [m], [l, r], cfg.pageSize - Used(cfg, false, [m]));
      Fixed(cfg, v, true, t) && Ordered(cfg.acc, true, t, MIN_KEY, MAX_KEY + 1)
  {
    hide Used, Cap, KidsOrdered, NodeOrdered, Fixed;
    HalfPage(cfg, v, false, [m], 1);
    assert KidsFixed(cfg, v, [l, r]);
    InnerFixed(cfg, v, true, Inner(id, [m], [l, r], cfg.pageSize - Used(cfg, false, [m])));
  }

  /** With the benchmarks' geometry and values of one length, no insert ever fails. */
  lemma InsertNeverFails(cfg: Cfg, v: nat, db: Db, key: int, val: Value)
    requires Geometry(cfg, v) && FixedInvariant(cfg, v, db) && IsKey(key) && |val| == v
    ensures FixedInvariant(cfg, v, Insert(cfg, db, key, val))
  {
    hide InsRec, Ordered, Fixed, SplitOrdered, Used, Fits;
    var ins := InsRec(cfg, db.t, key, val, db.pages);
    InsertFixed(cfg, v, true, db.t, key, val, db.pages, MIN_KEY, MAX_KEY + 1);
    NoLoneSplitFixed(cfg, v, true, db.t, key, val);
    InsertOrdered(cfg, true, db.t, key, val, db.pages, MIN_KEY, MAX_KEY + 1);
    if ins.out.Split? {
      RootFixed(cfg, v, ins.out.l, ins.out.m, ins.out.r, ins.pages);
    }
  }

  lemma {:induction false} RunNeverFails(cfg: Cfg, v: nat, ops: seq<KV>)
    requires Geometry(cfg, v) && forall i | 0 <= i < |ops| :: IsKey(ops[i].key) && |ops[i].val| == v
    ensures FixedInvariant(cfg, v, Run(cfg, Empty(cfg), ops))
  {
    hide FixedInvariant, Insert, Empty, Geometry;
    if ops == [] {
      EmptyFixed(cfg, v);
    } else {
      var n := |ops| - 1;
      RunNeverFails(cfg, v, ops[..n]);
      InsertNeverFails(cfg, v, Run(cfg, Empty(cfg), ops[..n]), ops[n].key, ops[n].val);
    }
  }

  /** An insert leaves the height alone, or adds one level exactly when the root splits. */
  lemma InsertHeight(cfg: Cfg, db: Db, key: int, val: Value)
    requires Invariant(cfg, db) && Insert(cfg, db, key, val).Db?
    ensures HeightOf(Insert(cfg, db, key, val).t)
         == HeightOf(db.t) + if InsRec(cfg, db.t, key, val, db.pages).out.Split? then 1 else 0
  {
    var h, ins := HeightOf(db.t), InsRec(cfg, db.t, key, val, db.pages);
    InsertUniform(cfg, db.t, key, val, db.pages, h);
    if ins.out.Split? {
      HeightUnique(ins.out.r, h);
    } else {
      HeightUnique(ins.out.t, h);
    }
  }

  lemma {:induction false} SortedCount(s: seq<KV>)
    requires Sorted(s)
    ensures |ToMap(s)| == |s|
  {
    if s != [] {
      SortedCount(s[1..]);
      ToMapKeys(s[1..]);
      forall i | 0 <= i < |s[1..]|
        ensures s[1..][i].key != s[0].key
      {
        assert s[1..][i] == s[i + 1];
      }
      assert ToMap(s).Keys == ToMap(s[1..]).Keys + {s[0].key};
    }
  }

  /** The height of every reachable database is logarithmic in the number of keys stored. */
  lemma RunHeight(cfg: Cfg, v: nat, ops: seq<KV>)
    requires Geometry(cfg, v) && forall i | 0 <= i < |ops| :: IsKey(ops[i].key) && |ops[i].val| == v
    ensures Run(cfg, Empty(cfg), ops).Db?
    ensures var h := HeightOf(Run(cfg, Empty(cfg), ops).t);
      h >= 2 ==>
        if cfg.acc.CopyUp() then
          |Updates(ops)| >= 2 * Pow(Cap(cfg, false, v) / 2 + 1, h - 2) * ((Cap(cfg, true, v) + 1) / 2)
        else
          |Updates(ops)| >= 2 * Pow(Cap(cfg, false, v) / 2 + 1, h - 1) - 1
  {
    hide Run, Geometry, Cap, Pow, Fixed, Ordered, Uniform, Entries, Pages, ToMap, Updates, HeightOf, Sorted;
    RunNeverFails(cfg, v, ops);
    RunKeeps(cfg, ops);
    var t := Run(cfg, Empty(cfg), ops).t;
    EntriesSorted(cfg.acc, false, t, MIN_KEY, MAX_KEY + 1);
    SortedCount(Entries(cfg.acc, t));
    if HeightOf(t) >= 2 {
      HeightBound(cfg, v, t, HeightOf(t));
    }
  }
}
