/** Whole programs over the indexes: build, close, reopen, look up and scan, as the tests and the benchmarks do. */
module EndToEnd {
  import opened Bytes
  import opened Records
  import opened TreeModel
  import opened Database
  import opened Shared
  import opened FixedLength
  import opened Order
  import opened Shape
  import BTree
  import Seqs
  import BPTree
  import L = ListIndex
  import P = Pager
  import Lru
  import opened Layout

  ghost predicate Storable(ops: seq<KV>) {
    forall i | 0 <= i < |ops| :: IsKey(ops[i].key) && |ops[i].val| < 0x1_0000
  }

  /** The page file of the run: no insert fails and the page ids stay below InvalidPage. */
  ghost predicate Completes(cfg: Cfg, ops: seq<KV>) {
    Run(cfg, Empty(cfg), ops).Db? && Run(cfg, Empty(cfg), ops).pages < INVALID_PAGE
  }

  lemma CompletesBefore(cfg: Cfg, ops: seq<KV>)
    requires Storable(ops) && Completes(cfg, ops) && ops != []
    ensures var before := ops[..|ops| - 1];
      && Storable(before) && Completes(cfg, before)
      && Run(cfg, Empty(cfg), ops)
          == TreeModel.Insert(cfg, Run(cfg, Empty(cfg), before), ops[|ops| - 1].key, ops[|ops| - 1].val)
  {
    hide TreeModel.Insert, Empty;
    var n := |ops| - 1;
    InsertFailed(cfg, Run(cfg, Empty(cfg), ops[..n]), ops[n].key, ops[n].val);
    RunKeeps(cfg, ops[..n]);
    InsertKeeps(cfg, Run(cfg, Empty(cfg), ops[..n]), ops[n].key, ops[n].val);
  }

  lemma {:induction false} CompletesUpTo(cfg: Cfg, ops: seq<KV>, n: nat)
    requires Storable(ops) && Completes(cfg, ops) && n <= |ops|
    ensures Storable(ops[..n]) && Completes(cfg, ops[..n])
    decreases |ops|
  {
    hide Storable, Completes;
    if n == |ops| {
      assert ops[..n] == ops;
    } else {
      CompletesBefore(cfg, ops);
      CompletesUpTo(cfg, ops[..|ops| - 1], n);
      assert ops[..|ops| - 1][..n] == ops[..n];
    }
  }

  lemma {:induction false} FreshSize(lo: nat, hi: nat)
    requires lo <= hi
    ensures |Fresh(lo, hi)| == hi - lo
    decreases hi
  {
    if lo < hi {
      FreshSize(lo, hi - 1);
    }
  }

  lemma {:induction false} PutsSize(ops: seq<KV>)
    ensures |Puts(ops)| <= |ops|
  {
    if ops != [] {
      PutsSize(ops[..|ops| - 1]);
      PutSize(Puts(ops[..|ops| - 1]), ops[|ops| - 1].key, ops[|ops| - 1].val);
    }
  }

  lemma {:induction false} PutSize(s: seq<KV>, key: int, val: Value)
    ensures |Put(s, key, val)| <= |s| + 1
  {
    if s != [] {
      PutSize(s[1..], key, val);
    }
  }

  /**
   With values of one length and a page geometry that the room test can handle, every run of fewer than two billion
   inserts completes, and its file has at most two pages for each insert.
   */
  lemma FixedRunCompletes(cfg: Cfg, v: nat, ops: seq<KV>)
    requires Geometry(cfg, v) && |ops| < 0x7FFF_FFFE
    requires forall i | 0 <= i < |ops| :: IsKey(ops[i].key) && |ops[i].val| == v
    ensures Completes(cfg, ops) && Run(cfg, Empty(cfg), ops).pages <= 2 * |ops| + 3
  {
    hide Geometry, Run, Fixed, Ordered, Uniform, Pages, Entries;
    var db := Run(cfg, Empty(cfg), ops);
    RunNeverFails(cfg, v, ops);
    RunKeeps(cfg, ops);
    PageBound(cfg, v, db.t, HeightOf(db.t));
    FreshSize(2, db.pages);
    RunIsPuts(cfg, ops);
    PutsSize(ops);
  }

  /** Open a new file and insert: for any cache capacity the pages hold the tree that the run builds. */
  method Build(cfg: Cfg, cachePages: nat, ops: seq<KV>) returns (t: PageTree)
    requires HEADER <= cfg.pageSize < 0x1_0000 && Storable(ops) && Completes(cfg, ops)
    ensures t.Valid() && t.cfg == cfg && fresh(t) && fresh(t.pg) && fresh(t.pg.cache) && fresh(t.pg.cache.Repr)
    ensures forall b | b in t.pg.Buffers() :: fresh(b)
    ensures Db(t.tree, |t.pg.file|) == Run(cfg, Empty(cfg), ops)
  {
    hide Storable, Completes, TreeModel.Insert, Stored, Lru.LruCache.Valid, P.Slots;
    t := new PageTree.Open(cfg, [], cachePages, Empty(cfg).t);
    for i := 0 to |ops|
      invariant t.Valid() && t.cfg == cfg && fresh(t) && fresh(t.pg) && fresh(t.pg.cache) && fresh(t.pg.cache.Repr)
      invariant forall b | b in t.pg.Buffers() :: fresh(b)
      invariant Db(t.tree, |t.pg.file|) == Run(cfg, Empty(cfg), ops[..i])
    {
      CompletesUpTo(cfg, ops, i + 1);
      CompletesBefore(cfg, ops[..i + 1]);
      assert ops[..i + 1][..i] == ops[..i] && ops[..i + 1][i] == ops[i];
      StorableAt(cfg, ops[..i + 1], i);
      t.Insert(ops[i].key, ops[i].val);
    }
    assert ops[..|ops|] == ops;
  }

  lemma StorableAt(cfg: Cfg, ops: seq<KV>, i: nat)
    requires Storable(ops) && Completes(cfg, ops) && i < |ops|
    ensures IsKey(ops[i].key) && |ops[i].val| < 0x1_0000
    ensures Run(cfg, Empty(cfg), ops).Db? && Run(cfg, Empty(cfg), ops).pages < INVALID_PAGE
  {
  }

  /** The index interface's Get on either tree. */
  method Get(t: PageTree, key: int) returns (r: Option<Value>)
    requires t.Valid() && IsKey(key)
    modifies t.pg.cache, t.pg.cache.Repr
    ensures t.Valid() && r == Lookup(Entries(t.cfg.acc, t.tree), key)
  {
    if t.cfg.acc.CopyUp() {
      r := BPTree.Get(t, key);
    } else {
      r := t.Get(key);
    }
  }

  /** The index interface's Range, run to its end, on either tree. */
  method Scan(t: PageTree, start: int, end: int) returns (s: seq<KV>)
    requires t.Valid() && IsKey(start)
    modifies t.pg.cache, t.pg.cache.Repr
    ensures t.Valid() && s == Between(Entries(t.cfg.acc, t.tree), start, end)
  {
    if t.cfg.acc.CopyUp() {
      s := BPTree.Scan(t, start, end);
    } else {
      s := BTree.Scan(t, start, end);
    }
  }

  /**
   Insert, close, reopen with any other cache capacity, look a key up: the answer is the one that the map built by the
   inserts gives, present or absent.
   */
  method GetAfterReopen(cfg: Cfg, cachePages: nat, cachePages': nat, ops: seq<KV>, key: int) returns (r: Option<Value>)
    requires HEADER <= cfg.pageSize < 0x1_0000 && Storable(ops) && Completes(cfg, ops) && IsKey(key)
    ensures r == if key in Updates(ops) then Some(Updates(ops)[key]) else None
  {
    hide Stored, Lru.LruCache.Valid, P.Slots, Entries, Lookup, Closed, ToMap, Updates, Run;
    RunHolds(cfg, ops, key);
    var t := Build(cfg, cachePages, ops);
    t.Close();
    ClosedFileKept(cfg, t.pg.file, t.tree);
    var t' := new PageTree.Open(cfg, t.pg.file, cachePages', t.tree);
    r := Get(t', key);
  }

  lemma ClosedFileKept(cfg: Cfg, file: seq<Page>, t: Tree)
    requires Closed(cfg, file, t)
    ensures file != []
  {
  }

  lemma RunHolds(cfg: Cfg, ops: seq<KV>, key: int)
    requires Storable(ops) && Completes(cfg, ops)
    ensures Lookup(Entries(cfg.acc, Run(cfg, Empty(cfg), ops).t), key)
         == if key in Updates(ops) then Some(Updates(ops)[key]) else None
  {
    hide Run, Entries, Lookup, ToMap, Updates;
    RunKeeps(cfg, ops);
    LookupIsMap(Entries(cfg.acc, Run(cfg, Empty(cfg), ops).t), key);
  }

  /**
   The same inserts into a B-tree and a B+ tree, on pages and caches of any sizes, and into a list: the trees return
   the same sorted sequence for a range, and the list the same records in some order.
   */
  method RangesAgree(p: nat, p': nat, cachePages: nat, cachePages': nat, ops: seq<KV>, start: int, end: int)
    returns (a: seq<KV>, b: seq<KV>, c: seq<KV>)
    requires HEADER <= p < 0x1_0000 && HEADER <= p' < 0x1_0000 && Storable(ops) && IsKey(start)
    requires Completes(Cfg(BTreeAcc, p), ops) && Completes(Cfg(BPTreeAcc, p'), ops)
    ensures a == b && Sorted(a) && multiset(a) == multiset(c)
    ensures ToMap(a) == map k | k in Updates(ops) && start <= k <= end :: Updates(ops)[k]
  {
    hide Stored, Lru.LruCache.Valid, P.Slots, Entries, Lookup, Closed, ToMap, Updates, Run, Between;
    var cfg, cfg' := Cfg(BTreeAcc, p), Cfg(BPTreeAcc, p');
    TreesAgree(p, p', ops);
    var t := Build(cfg, cachePages, ops);
    a := Scan(t, start, end);
    var t' := Build(cfg', cachePages', ops);
    b := Scan(t', start, end);
    var l := ListBuild(ops);
    c := ListScan(l, start, end);
    L.TreeAgreesWithList(cfg, ops, start, end, start);
    RunKeeps(cfg, ops);
    BetweenKeys(Entries(cfg.acc, Run(cfg, Empty(cfg), ops).t), start, end);
  }

  lemma {:induction false} BetweenKeys(s: seq<KV>, start: int, end: int)
    ensures ToMap(Between(s, start, end)) == map k | k in ToMap(s) && start <= k <= end :: ToMap(s)[k]
  {
    if s != [] {
      BetweenKeys(s[1..], start, end);
      var r := Between(s[1..], start, end);
      if start <= s[0].key <= end {
        assert ([s[0]] + r)[1..] == r;
      } else {
        assert [] + r == r;
      }
    }
  }

  /** The list index's side of the comparison. */
  method ListBuild(ops: seq<KV>) returns (l: L.ListIndex)
    ensures fresh(l) && l.data == L.ListRun(ops)
  {
    l := new L.ListIndex();
    for i := 0 to |ops|
      invariant fresh(l) && l.data == L.ListRun(ops[..i])
    {
      assert ops[..i + 1][..i] == ops[..i];
      l.Insert(ops[i].key, ops[i].val);
    }
    assert ops[..|ops|] == ops;
  }

  method ListScan(l: L.ListIndex, start: int, end: int) returns (s: seq<KV>)
    ensures s == Between(l.data, start, end)
  {
    hide Between;
    var it := l.Range(start, end);
    s := [];
    var more := it.Next();
    while more
      invariant it.Valid() && fresh(it) && it.data == l.data && it.start == start && it.end == end
      invariant more ==> 0 <= it.cur < |it.data| && s + ([it.data[it.cur]] + it.Rest()) == Between(it.data, start, end)
      invariant !more ==> s == Between(it.data, start, end)
      decreases if more then 1 + |it.Rest()| else 0
    {
      Seqs.Assoc(s, [it.data[it.cur]], it.Rest());
      s := s + [it.data[it.cur]];
      more := it.Next();
    }
  }
}
