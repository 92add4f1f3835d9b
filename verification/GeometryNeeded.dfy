/**
 The geometry condition is not only enough but needed: on pages with room for two cells of each kind, every run of
 inserts with values of one length completes if and only if the page geometry fits that length.
 */
module GeometryNeeded {
  import opened Bytes
  import opened Records
  import opened TreeModel
  import opened Order
  import opened Contents
  import opened Database
  import opened FixedLength

  ghost predicate OfLength(ops: seq<KV>, v: nat) {
    forall i | 0 <= i < |ops| :: IsKey(ops[i].key) && |ops[i].val| == v
  }

  /** Every run of inserts with values of length v completes. */
  ghost predicate Completes(cfg: Cfg, v: nat) {
    forall ops | OfLength(ops, v) :: Run(cfg, Empty(cfg), ops).Db?
  }

  /** What a full page leaves over is large enough for the room test, and too small for cell and slot. */
  predicate Bad(cfg: Cfg, leaf: bool, v: nat)
    requires cfg.pageSize >= HEADER
  {
    (cfg.pageSize - HEADER) % (Size(cfg, leaf, v) + SLOT) >= Size(cfg, leaf, v)
  }

  // ---------------------------------------------------------------- such a page never counts as full

  lemma RoomBad(cfg: Cfg, leaf: bool, v: nat, kvs: seq<KV>, content: nat)
    requires PageFixed(cfg, v, leaf, kvs, content, 0) && Bad(cfg, leaf, v)
    ensures RoomFor(cfg, leaf, content, |kvs|, Len(cfg.acc, leaf, v))
      == if |kvs| < Cap(cfg, leaf, v) then Enough else Tight
    ensures |kvs| < Cap(cfg, leaf, v) ==>
      content - Size(cfg, leaf, v) == cfg.pageSize - (|kvs| + 1) * Size(cfg, leaf, v)
  {
    hide Size, Cap;
    var n, s, c, space := |kvs|, Size(cfg, leaf, v), Cap(cfg, leaf, v), cfg.pageSize - HEADER;
    CapTimes(cfg, leaf, v);
    SizeIs(cfg, leaf, v);
    FreeBytes(space, s, c, n, space % (s + SLOT));
    NoneLeft(c - n, s + SLOT);
    NextTimes(n, s);
  }

  lemma CapTimes(cfg: Cfg, leaf: bool, v: nat)
    requires cfg.pageSize >= HEADER
    ensures var space, d := cfg.pageSize - HEADER, Size(cfg, leaf, v) + SLOT; space == Cap(cfg, leaf, v) * d + space % d
  {
  }

  lemma NoneLeft(k: nat, d: nat)
    ensures k == 0 ==> k * d == 0
  {
  }

  lemma NextTimes(n: nat, s: nat)
    ensures (n + 1) * s == n * s + s
  {
  }

  // ---------------------------------------------------------------- the tree stays low

  ghost predicate LeafFixed(cfg: Cfg, v: nat, t: Tree) {
    t.Leaf? && PageFixed(cfg, v, true, t.kvs, t.content, 0)
  }

  /** A leaf, or a root above leaves. */
  ghost predicate Low(cfg: Cfg, v: nat, t: Tree) {
    if t.Leaf? then LeafFixed(cfg, v, t)
    else
      && cfg.acc.BPTreeAcc? && |t.kids| == |t.kvs| + 1 && PageFixed(cfg, v, false, t.kvs, t.content, 0)
      && forall j | 0 <= j < |t.kids| :: LeafFixed(cfg, v, t.kids[j])
  }

  /** Leaf pages are bad, or leaf pages are good and the internal pages of a B+ tree are bad. */
  predicate Stuck(cfg: Cfg, v: nat)
    requires cfg.pageSize >= HEADER
  {
    && Cap(cfg, true, v) >= 2 && Cap(cfg, false, v) >= 2
    && (Bad(cfg, true, v) || (cfg.acc.BPTreeAcc? && KindOk(cfg, true, v) && Bad(cfg, false, v)))
  }

  ghost predicate LowOut(cfg: Cfg, v: nat, out: Out) {
    match out
    case Done(t) => LeafFixed(cfg, v, t)
    case Split(l, m, r) => LeafFixed(cfg, v, l) && LeafFixed(cfg, v, r) && m.val == [] && cfg.acc.BPTreeAcc?
      && !Bad(cfg, true, v)
    case Broken => true
  }

  lemma LeafGrows(cfg: Cfg, v: nat, t: Tree, i: nat, kv: KV, pages: nat)
    requires cfg.pageSize >= HEADER && Stuck(cfg, v) && LeafFixed(cfg, v, t) && i <= |t.kvs| && |kv.val| == v
    ensures LowOut(cfg, v, LeafPut(cfg, t, i, kv, pages).out)
  {
    hide Used, Fits, Cap, RoomFor, Bad;
    var all := InsertAt(t.kvs, i, kv);
    var mid := |all| / 2;
    if Bad(cfg, true, v) {
      RoomBad(cfg, true, v, t.kvs, t.content);
    } else {
      RoomRight(cfg, v, true, t.kvs, t.content, 0);
      if |t.kvs| == Cap(cfg, true, v) {
        HalfPage(cfg, v, true, all[..mid], 0);
        HalfPage(cfg, v, true, all[mid..], 0);
      }
    }
  }

  lemma LeafInsert(cfg: Cfg, v: nat, t: Tree, key: int, val: Value, pages: nat)
    requires cfg.pageSize >= HEADER && Stuck(cfg, v) && LeafFixed(cfg, v, t) && |val| == v
    ensures LowOut(cfg, v, InsRec(cfg, t, key, val, pages).out)
  {
    hide Cap, LeafPut, Bad, Stuck;
    var i := Position(t.kvs, key, false);
    if !(i < |t.kvs| && t.kvs[i].key == key) {
      LeafGrows(cfg, v, t, i, KV(key, val), pages);
    }
  }

  lemma RootGrows(cfg: Cfg, v: nat, t: Tree, i: nat, l: Tree, m: KV, r: Tree, pages: nat)
    requires cfg.pageSize >= HEADER && Stuck(cfg, v) && !Bad(cfg, true, v) && t.Inner? && Low(cfg, v, t) && i <= |t.kvs|
    requires LeafFixed(cfg, v, l) && LeafFixed(cfg, v, r) && m.val == []
    ensures var out := InnerPut(cfg, t, i, l, m, r, pages).out; !out.Split? && (out.Done? ==> Low(cfg, v, out.t))
  {
    hide Used, Fits, Cap, RoomFor, LeafFixed, Bad, KindOk;
    RoomBad(cfg, false, v, t.kvs, t.content);
    var kids := InsertAt(t.kids[i := l], i + 1, r);
    assert forall j | 0 <= j < |kids| :: LeafFixed(cfg, v, kids[j]);
  }

  lemma RootInsert(cfg: Cfg, v: nat, t: Tree, key: int, val: Value, pages: nat)
    requires cfg.pageSize >= HEADER && Stuck(cfg, v) && !Bad(cfg, true, v) && t.Inner? && Low(cfg, v, t) && |val| == v
    ensures var out := InsRec(cfg, t, key, val, pages).out; !out.Split? && (out.Done? ==> Low(cfg, v, out.t))
  {
    hide Cap, InnerPut, Bad, Stuck, LeafFixed, PageFixed, LeafPut;
    var i := Position(t.kvs, key, true);
    LeafInsert(cfg, v, t.kids[i], key, val, pages);
    var sub := InsRec(cfg, t.kids[i], key, val, pages);
    if sub.out.Split? {
      RootGrows(cfg, v, t, i, sub.out.l, sub.out.m, sub.out.r, sub.pages);
    }
  }

  lemma LowKept(cfg: Cfg, v: nat, db: Db, key: int, val: Value)
    requires cfg.pageSize >= HEADER && Stuck(cfg, v) && db.Db? && Low(cfg, v, db.t) && |val| == v
    requires db.t.Inner? ==> !Bad(cfg, true, v)
    ensures var after := Insert(cfg, db, key, val);
      after.Db? ==> Low(cfg, v, after.t) && (after.t.Inner? ==> !Bad(cfg, true, v))
  {
    hide Cap, InsRec, Bad, Used, Fits, PageFixed;
    var out := InsRec(cfg, db.t, key, val, db.pages).out;
    if db.t.Leaf? {
      LeafInsert(cfg, v, db.t, key, val, db.pages);
      if out.Split? && Fits(cfg, false, [out.m]) {
        NewRootFixed(cfg, v, out.m);
      }
    } else {
      RootInsert(cfg, v, db.t, key, val, db.pages);
    }
  }

  lemma NewRootFixed(cfg: Cfg, v: nat, m: KV)
    requires cfg.pageSize >= HEADER && cfg.acc.BPTreeAcc? && m.val == [] && Cap(cfg, false, v) >= 2
      && Fits(cfg, false, [m])
    ensures PageFixed(cfg, v, false, [m], cfg.pageSize - Used(cfg, false, [m]), 0)
  {
    hide Cap, Used;
    UsedExactly(cfg, v, false, [m]);
  }

  lemma {:induction false} StaysLow(cfg: Cfg, v: nat, ops: seq<KV>)
    requires cfg.pageSize >= HEADER && Stuck(cfg, v) && OfLength(ops, v) && Run(cfg, Empty(cfg), ops).Db?
    ensures var t := Run(cfg, Empty(cfg), ops).t; Low(cfg, v, t) && (t.Inner? ==> !Bad(cfg, true, v))
    decreases |ops|
  {
    hide Cap, Insert, Bad, Stuck, Low;
    if ops == [] {
      LowStart(cfg, v);
    } else {
      var n := |ops| - 1;
      InsertFailed(cfg, Run(cfg, Empty(cfg), ops[..n]), ops[n].key, ops[n].val);
      StaysLow(cfg, v, ops[..n]);
      LowKept(cfg, v, Run(cfg, Empty(cfg), ops[..n]), ops[n].key, ops[n].val);
    }
  }

  lemma LowStart(cfg: Cfg, v: nat)
    requires cfg.pageSize >= HEADER
    ensures Low(cfg, v, Empty(cfg).t) && Empty(cfg).t.Leaf?
  {
  }

  // ---------------------------------------------------------------- counting

  lemma {:induction false} FlatAtMost(cfg: Cfg, v: nat, kvs: seq<KV>, kids: seq<Tree>, most: nat)
    requires cfg.acc.BPTreeAcc? && |kids| == |kvs| + 1
      && forall j | 0 <= j < |kids| :: |Entries(cfg.acc, kids[j])| <= most
    ensures |Flat(cfg.acc, kvs, kids)| <= |kids| * most
    decreases kids
  {
    hide Entries;
    assert |kids| * most == (|kids| - 1) * most + most;
    if kvs != [] {
      FlatAtMost(cfg, v, kvs[1..], kids[1..], most);
    }
  }

  /** A tree that stays low holds a bounded number of records. */
  lemma LowHolds(cfg: Cfg, v: nat, t: Tree)
    requires cfg.pageSize >= HEADER && Low(cfg, v, t)
    ensures |Entries(cfg.acc, t)| <= (Cap(cfg, false, v) + 1) * Cap(cfg, true, v)
  {
    hide Cap, Flat;
    var most, n := Cap(cfg, true, v), Cap(cfg, false, v) + 1;
    TimesMonotone(1, n, most);
    if t.Inner? {
      FlatAtMost(cfg, v, t.kvs, t.kids, most);
      TimesMonotone(|t.kids|, n, most);
    }
  }

  /** The keys 0, 1, ..., n - 1, with values of length v. */
  function Up(n: nat, v: nat): (ops: seq<KV>)
    ensures |ops| == n && forall i | 0 <= i < n :: ops[i].key == i && |ops[i].val| == v
  {
    if n == 0 then [] else Up(n - 1, v) + [KV(n - 1, seq(v, i => 0))]
  }

  lemma UpStep(n: nat, v: nat)
    requires n > 0
    ensures |Up(n, v)| == n && Up(n, v)[..n - 1] == Up(n - 1, v) && Up(n, v)[n - 1].key == n - 1
  {
  }

  lemma {:induction false} UpKeys(n: nat, v: nat)
    ensures |Updates(Up(n, v))| == n && forall key :: key in Updates(Up(n, v)) <==> 0 <= key < n
  {
    hide Up;
    if n > 0 {
      UpKeys(n - 1, v);
      UpStep(n, v);
      OneKeyMore(Updates(Up(n - 1, v)), n - 1, Up(n, v)[n - 1].val);
    } else {
      assert Up(0, v) == [];
    }
  }

  lemma OneKeyMore(m: map<int, Value>, key: int, val: Value)
    requires key !in m
    ensures |m[key := val]| == |m| + 1
  {
    assert m[key := val].Keys == m.Keys + {key};
  }

  lemma FewPages(cfg: Cfg, v: nat)
    requires HEADER <= cfg.pageSize < 0x1_0000
    ensures (Cap(cfg, false, v) + 1) * Cap(cfg, true, v) < 0x1_0000_0000
  {
    CapSmall(cfg, false, v);
    CapSmall(cfg, true, v);
    hide Cap;
    TimesMonotone(Cap(cfg, false, v) + 1, 0x1_0000, Cap(cfg, true, v));
  }

  lemma CapSmall(cfg: Cfg, leaf: bool, v: nat)
    requires HEADER <= cfg.pageSize < 0x1_0000
    ensures Cap(cfg, leaf, v) < 0xFFFF
  {
    var x, d := cfg.pageSize - HEADER, Size(cfg, leaf, v) + SLOT;
    assert x / d <= x by {
      Quotient(x, d);
    }
  }

  lemma Quotient(x: nat, d: nat)
    requires d >= 1
    ensures x / d <= x
  {
  }

  /** Enough keys in a row overfill every tree that stays low. */
  lemma SomeRunFails(cfg: Cfg, v: nat)
    requires HEADER <= cfg.pageSize < 0x1_0000 && Stuck(cfg, v)
    ensures !Completes(cfg, v)
  {
    hide Cap, Stuck, Low, Insert, MapOf, Ordered;
    var n := (Cap(cfg, false, v) + 1) * Cap(cfg, true, v) + 1;
    var ops := Up(n, v);
    FewPages(cfg, v);
    assert OfLength(ops, v);
    if Run(cfg, Empty(cfg), ops).Db? {
      StaysLow(cfg, v, ops);
      RecordCount(cfg, ops);
      LowHolds(cfg, v, Run(cfg, Empty(cfg), ops).t);
      UpKeys(n, v);
      assert false;
    }
  }

  /** As many records as keys. */
  lemma RecordCount(cfg: Cfg, ops: seq<KV>)
    requires (forall i | 0 <= i < |ops| :: IsKey(ops[i].key)) && Run(cfg, Empty(cfg), ops).Db?
    ensures |Entries(cfg.acc, Run(cfg, Empty(cfg), ops).t)| == |Updates(ops)|
  {
    hide Run, Ordered, Entries, ToMap, Updates, Sorted;
    RunKeeps(cfg, ops);
    var t := Run(cfg, Empty(cfg), ops).t;
    EntriesSorted(cfg.acc, false, t, MIN_KEY, MAX_KEY + 1);
    SortedCount(Entries(cfg.acc, t));
  }

  lemma WhereStuck(cfg: Cfg, v: nat)
    requires cfg.pageSize >= HEADER && Cap(cfg, true, v) >= 2 && Cap(cfg, false, v) >= 2
    ensures Geometry(cfg, v) <==> !Stuck(cfg, v)
  {
    hide Cap;
    if cfg.acc.BTreeAcc? {
      assert Size(cfg, true, v) == Size(cfg, false, v);
    }
  }

  /**
   On pages with room for two cells of each kind, all runs with values of one length complete exactly in this geometry.
   */
  lemma GeometryExactly(cfg: Cfg, v: nat)
    requires HEADER <= cfg.pageSize < 0x1_0000 && Cap(cfg, true, v) >= 2 && Cap(cfg, false, v) >= 2
    ensures Completes(cfg, v) <==> Geometry(cfg, v)
  {
    hide Cap, Geometry, Stuck, FixedInvariant;
    WhereStuck(cfg, v);
    if Geometry(cfg, v) {
      forall ops | OfLength(ops, v)
        ensures Run(cfg, Empty(cfg), ops).Db?
      {
        RunNeverFails(cfg, v, ops);
        FixedIsDb(cfg, v, Run(cfg, Empty(cfg), ops));
      }
    } else {
      SomeRunFails(cfg, v);
    }
  }

  lemma FixedIsDb(cfg: Cfg, v: nat, db: Db)
    requires FixedInvariant(cfg, v, db)
    ensures db.Db?
  {
  }
}
