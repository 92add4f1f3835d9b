/** The case of Misplaced on the pages: what insertRec writes when its second search passes the right neighbour. */
module MisplacedPages {
  import opened Bytes
  import opened Records
  import opened TreeModel
  import opened Layout
  import opened PageOps
  import opened Refine
  import opened Lru
  import opened Order
  import opened Contents
  import opened Shape
  import opened Database
  import opened Misplaced
  import opened MisplacedRoot
  import G = LengthenPages
  import L = LengthenTree
  import D = Resident
  import P = Pager
  import S = Shared

  /** The child pointer to a child that has split is the same. */
  lemma SameNode(t: Tree, i: nat, l: Tree)
    requires t.Inner? && |t.kids| == |t.kvs| + 1 && i < |t.kids| && l.id == t.kids[i].id
    ensures NodeOf(t.(kids := t.kids[i := l])) == NodeOf(t)
  {
    assert InnerCells(t.kvs, t.kids[i := l]) == InnerCells(t.kvs, t.kids);
  }

  /**
   The end of insertRec at an internal node whose child i has split, wherever the second search leads: the pages become
   what Resumed says.
   */
  method Resume(e: S.PageTree, id: nat, mk0: int, mv0: Value, rc: nat, ghost t: Tree, ghost i: nat, ghost l: Tree,
      ghost r: Tree)
    returns (mk: int, mv: Value, newId: nat, split: bool)
    requires e.pg.Ready() && e.pg.stale == {} && e.pg.pageSize == e.cfg.pageSize && |e.pg.file| < INVALID_PAGE
    requires t.Inner? && |t.kids| == |t.kvs| + 1 && t.id == id && HoldsNode(e.cfg, e.pg.file, id, NodeOf(t))
    requires S.Ascending(t.kvs) && i < |t.kids| && l.id == t.kids[i].id && rc == r.id < 0x1_0000_0000
    requires Legal(e.cfg.acc, false, Cell(mk0, mv0, 0))
    requires !Resumed(e.cfg, t, i, l, KV(mk0, mv0), r, |e.pg.file|).out.Broken?
    modifies e.pg, e.pg.cache, e.pg.cache.Repr, e.pg.Buffers()
    ensures e.pg.Ready() && e.pg.stale == {}
    ensures forall x | x in e.pg.cache.Repr :: x in old(e.pg.cache.Repr) || fresh(x)
    ensures forall b | b in e.pg.Buffers() :: b in old(e.pg.Buffers()) || fresh(b)
    ensures OnlyPages(old(e.pg.file), e.pg.file, multiset{id})
    ensures var ins := Resumed(e.cfg, t, i, l, KV(mk0, mv0), r, |old(e.pg.file)|);
      && S.InnerPages(e.cfg, e.pg.file, id, |old(e.pg.file)|, ins.out)
      && |e.pg.file| == ins.pages && S.Reports(e.cfg.acc, ins.out, mk, mv, newId, split)
  {
    hide InnerPut, NodeOf, S.Ascending, HoldsNode, Legal, S.InnerPages, S.Reports, OnlyPages;
    SameNode(t, i, l);
    ghost var t' := t.(kids := t.kids[i := l]);
    ghost var j := Position(t.kvs, mk0, e.cfg.acc.Upper(false));
    mk, mv, newId, split := e.InsertIntoInner(id, mk0, mv0, rc, t', j, t'.kids[j], r);
  }

  // ---------------------------------------------------------------- the whole of insertRec

  /** The condition under which the insert completes, repeated separators or not. */
  ghost predicate CanResume(cfg: Cfg, file: seq<Page>, t: Tree, key: int, val: Value, lo: int, hi: int) {
    && cfg.acc.BPTreeAcc? && Holds(cfg, file, t) && Once(Pages(t)) && Ordered(cfg.acc, false, t, lo, hi)
    && lo <= key < hi && MIN_KEY <= key <= MAX_KEY && |val| < 0x1_0000
    && !CodeRec(cfg, t, key, val, |file|).out.Broken? && CodeRec(cfg, t, key, val, |file|).pages < INVALID_PAGE
  }

  /** The pages under a node after insertRec are what CodeRec says. */
  ghost predicate Followed(cfg: Cfg, was: seq<Page>, now: seq<Page>, t: Tree, key: int, val: Value, mk: int, mv: Value,
      newId: nat, split: bool) {
    var ins := CodeRec(cfg, t, key, val, |was|);
    && OnlyPages(was, now, Pages(t)) && HoldsOut(cfg, now, ins.out) && |now| == ins.pages
    && S.Reports(cfg.acc, ins.out, mk, mv, newId, split)
  }

  lemma AtNode(cfg: Cfg, file: seq<Page>, t: Tree, key: int, val: Value, lo: int, hi: int)
    requires CanResume(cfg, file, t, key, val, lo, hi)
    ensures S.CanSearch(cfg, file, t, key, val, lo, hi) && (t.Inner? ==> |t.kids| == |t.kvs| + 1)
    ensures t.Leaf? ==> S.CanRec(cfg, file, t, key, val, lo, hi)
    ensures var i := Position(t.kvs, key, cfg.acc.Upper(t.Leaf?));
      t.Inner? ==> i <= |t.kvs| && !(i < |t.kvs| && t.kvs[i].key == key)
  {
    hide InsRec, Pages, Once, KidsOrdered, NodeOrdered, HoldsNode, NodeOf, HoldsAll, Resumed;
    if t.Inner? {
      NotFound(t.kvs, key);
    }
  }

  lemma NotFound(kvs: seq<KV>, key: int)
    ensures var i := Position(kvs, key, true); i <= |kvs| && !(i < |kvs| && kvs[i].key == key)
  {
  }

  lemma LeafFollowed(cfg: Cfg, was: seq<Page>, now: seq<Page>, t: Tree, key: int, val: Value, mk: int, mv: Value,
      newId: nat, split: bool)
    requires t.Leaf? && S.Effect(cfg, was, now, t, key, val, mk, mv, newId, split)
    ensures Followed(cfg, was, now, t, key, val, mk, mv, newId, split)
  {
    hide InsRec, HoldsOut, OnlyPages, S.Reports;
  }

  /** The child that the search picks. */
  lemma AtKid(cfg: Cfg, file: seq<Page>, t: Tree, i: nat, key: int, val: Value, lo: int, hi: int)
    requires CanResume(cfg, file, t, key, val, lo, hi) && t.Inner? && |t.kids| == |t.kvs| + 1
    requires i == Position(t.kvs, key, cfg.acc.Upper(false)) && i <= |t.kvs|
    ensures CanResume(cfg, file, t.kids[i], key, val, Lo(cfg.acc, t.kvs, i, lo), Hi(t.kvs, i, hi))
    ensures CodeRec(cfg, t.kids[i], key, val, |file|).pages >= |file|
  {
    hide InsRec, Resumed, NodeOf, HoldsNode, NodeOrdered, KidsOrdered, Position, Once, Pages, Holds, InnerPut;
    DescentRange(cfg.acc, false, t, key, lo, hi);
    KidOrdered(cfg.acc, false, t.kvs, t.kids, i, lo, hi);
    L.KidHeld(cfg, file, t, i);
    L.KidPages(t, i);
    CodePages(cfg, t.kids[i], key, val, |file|);
    var sub := CodeRec(cfg, t.kids[i], key, val, |file|);
    if sub.out.Split? {
      ResumedMore(cfg, t, i, sub.out.l, sub.out.m, sub.out.r, sub.pages);
    }
  }

  lemma ResumedMore(cfg: Cfg, t: Tree, i: nat, l: Tree, m: KV, r: Tree, pages: nat)
    requires t.Inner? && |t.kids| == |t.kvs| + 1 && i < |t.kids|
    ensures Resumed(cfg, t, i, l, m, r, pages).pages >= pages
  {
    hide InnerPut, Position;
    var t' := t.(kids := t.kids[i := l]);
    var j := Position(t.kvs, m.key, cfg.acc.Upper(false));
    S.InnerPutMore(cfg, t', j, t'.kids[j], m, r, pages);
  }

  /** The child did not split. */
  lemma DoneFollowed(cfg: Cfg, f0: seq<Page>, f1: seq<Page>, t: Tree, i: nat, key: int, val: Value, mk: int, mv: Value,
      newId: nat, lo: int, hi: int)
    requires CanResume(cfg, f0, t, key, val, lo, hi) && t.Inner? && |t.kids| == |t.kvs| + 1
    requires i == Position(t.kvs, key, cfg.acc.Upper(false)) && i <= |t.kvs|
    requires Followed(cfg, f0, f1, t.kids[i], key, val, mk, mv, newId, false)
    ensures Followed(cfg, f0, f1, t, key, val, mk, mv, newId, false)
  {
    hide Position, Ordered, Pages, OnlyPages, Resumed, Holds, Once, InsRec;
    CodeIds(cfg, t.kids[i], key, val, |f0|);
    S.DoneHolds(cfg, f0, f1, t, i, CodeRec(cfg, t.kids[i], key, val, |f0|).out.t);
  }

  /** The node keeps its page id, and the right half of a split is on the last new page. */
  lemma {:induction false} CodeIds(cfg: Cfg, t: Tree, key: int, val: Value, pages: nat)
    ensures var ins := CodeRec(cfg, t, key, val, pages);
      && (ins.out.Done? ==> ins.out.t.id == t.id)
      && (ins.out.Split? ==> ins.out.l.id == t.id && ins.pages > 0 && ins.out.r.id == ins.pages - 1)
    decreases t
  {
    hide InsRec, InnerPut, Position;
    if t.Leaf? {
      InsertIds(cfg, t, key, val, pages);
    } else if |t.kids| == |t.kvs| + 1 {
      var i := Position(t.kvs, key, cfg.acc.Upper(false));
      CodeIds(cfg, t.kids[i], key, val, pages);
      var sub := CodeRec(cfg, t.kids[i], key, val, pages);
      if sub.out.Split? {
        var t' := t.(kids := t.kids[i := sub.out.l]);
        var j := Position(t.kvs, sub.out.m.key, cfg.acc.Upper(false));
        PutIds(cfg, t', j, t'.kids[j], sub.out.m, sub.out.r, sub.pages);
      }
    }
  }

  lemma PutIds(cfg: Cfg, t: Tree, i: nat, l: Tree, m: KV, r: Tree, pages: nat)
    requires t.Inner? && |t.kids| == |t.kvs| + 1 && i <= |t.kvs|
    ensures var ins := InnerPut(cfg, t, i, l, m, r, pages);
      && (ins.out.Done? ==> ins.out.t.id == t.id)
      && (ins.out.Split? ==> ins.out.l.id == t.id && ins.pages > 0 && ins.out.r.id == ins.pages - 1)
  {
    hide Used, Fits, RoomFor, InsertAt;
  }

  /** What Resume relies on after child i has split. */
  lemma BeforeResume(cfg: Cfg, f0: seq<Page>, f1: seq<Page>, t: Tree, i: nat, key: int, val: Value, mk: int, mv: Value,
      newId: nat, lo: int, hi: int)
    requires CanResume(cfg, f0, t, key, val, lo, hi) && t.Inner? && |t.kids| == |t.kvs| + 1
    requires i == Position(t.kvs, key, cfg.acc.Upper(false)) && i <= |t.kvs|
    requires Followed(cfg, f0, f1, t.kids[i], key, val, mk, mv, newId, true)
    ensures var sub := CodeRec(cfg, t.kids[i], key, val, |f0|);
      && sub.out.Split? && sub.out.m == KV(mk, mv) && sub.out.l.id == t.kids[i].id && sub.pages == |f1|
      && newId == sub.out.r.id < 0x1_0000_0000
      && CodeRec(cfg, t, key, val, |f0|) == Resumed(cfg, t, i, sub.out.l, KV(mk, mv), sub.out.r, |f1|)
      && !Resumed(cfg, t, i, sub.out.l, KV(mk, mv), sub.out.r, |f1|).out.Broken?
    ensures Legal(cfg.acc, false, Cell(mk, mv, 0)) && |f1| < INVALID_PAGE
    ensures HoldsNode(cfg, f1, t.id, NodeOf(t)) && S.Ascending(t.kvs)
  {
    hide Position, Ordered, Pages, NodeOf, HoldsNode, S.Ascending, S.SameRecords, PagesOf, Holds, HoldsOut, Resumed,
      InsRec, Legal, Once;
    AtNode(cfg, f0, t, key, val, lo, hi);
    S.AtEntry(cfg, f0, t, key, val, lo, hi);
    SiblingsKept(cfg, f0, f1, t, i);
    CodeIds(cfg, t.kids[i], key, val, |f0|);
    var sub := CodeRec(cfg, t.kids[i], key, val, |f0|);
    ResumedMore(cfg, t, i, sub.out.l, sub.out.m, sub.out.r, sub.pages);
  }

  /** The child's pages, then the node's page and perhaps a new one, put together. */
  lemma SplitFollowed(cfg: Cfg, f0: seq<Page>, f1: seq<Page>, f2: seq<Page>, t: Tree, i: nat, key: int, val: Value,
      mk0: int, mv0: Value, newId0: nat, mk: int, mv: Value, newId: nat, split: bool, lo: int, hi: int)
    requires CanResume(cfg, f0, t, key, val, lo, hi) && t.Inner? && |t.kids| == |t.kvs| + 1
    requires i == Position(t.kvs, key, cfg.acc.Upper(false)) && i <= |t.kvs|
    requires Followed(cfg, f0, f1, t.kids[i], key, val, mk0, mv0, newId0, true)
    requires OnlyPages(f1, f2, multiset{t.id})
    requires var ins := CodeRec(cfg, t, key, val, |f0|);
      && S.InnerPages(cfg, f2, t.id, |f1|, ins.out) && |f2| == ins.pages
      && S.Reports(cfg.acc, ins.out, mk, mv, newId, split)
    ensures Followed(cfg, f0, f2, t, key, val, mk, mv, newId, split)
  {
    BeforeResume(cfg, f0, f1, t, i, key, val, mk0, mv0, newId0, lo, hi);
    var sub := CodeRec(cfg, t.kids[i], key, val, |f0|);
    assert Once(Pages(t)) && Holds(cfg, f0, t) && Holds(cfg, f1, sub.out.l) && Holds(cfg, f1, sub.out.r);
    assert OnlyPages(f0, f1, Pages(t.kids[i])) && |f0| <= |f1| == sub.pages;
    hide *;
    NewIds(cfg, f0, t, i, key, val);
    ResumedHolds(cfg, f0, f1, f2, t, i, sub.out.l, sub.out.m, sub.out.r);
    IsFollowed(cfg, f0, f2, t, key, val, mk, mv, newId, split);
  }

  lemma IsFollowed(cfg: Cfg, was: seq<Page>, now: seq<Page>, t: Tree, key: int, val: Value, mk: int, mv: Value,
      newId: nat, split: bool)
    requires var ins := CodeRec(cfg, t, key, val, |was|);
      && OnlyPages(was, now, Pages(t)) && HoldsOut(cfg, now, ins.out) && |now| == ins.pages
      && S.Reports(cfg.acc, ins.out, mk, mv, newId, split)
    ensures Followed(cfg, was, now, t, key, val, mk, mv, newId, split)
  {
  }

  /** The halves of the child are on its old pages and on new ones. */
  lemma NewIds(cfg: Cfg, f0: seq<Page>, t: Tree, i: nat, key: int, val: Value)
    requires t.Inner? && Holds(cfg, f0, t) && i < |t.kids| && Once(Pages(t))
    requires CodeRec(cfg, t.kids[i], key, val, |f0|).out.Split?
    ensures var out := CodeRec(cfg, t.kids[i], key, val, |f0|).out;
      t.id < |f0| && t.id !in Pages(out.l) && t.id !in Pages(out.r)
  {
    hide CodeRec, Pages, Once, Holds, Fresh;
    S.HeldFacts(cfg, f0, t);
    L.KidPages(t, i);
    CodePages(cfg, t.kids[i], key, val, |f0|);
    var ins := CodeRec(cfg, t.kids[i], key, val, |f0|);
    FreshCount(|f0|, ins.pages, t.id);
    assert OutPages(ins.out)[t.id] == Pages(t.kids[i])[t.id] + Fresh(|f0|, ins.pages)[t.id];
  }

  lemma ResumedHolds(cfg: Cfg, f0: seq<Page>, f1: seq<Page>, f2: seq<Page>, t: Tree, i: nat, l: Tree, m: KV, r: Tree)
    requires t.Inner? && |t.kids| == |t.kvs| + 1 && i < |t.kids| && Holds(cfg, f0, t) && Once(Pages(t))
    requires OnlyPages(f0, f1, Pages(t.kids[i])) && Holds(cfg, f1, l) && Holds(cfg, f1, r) && |f0| <= |f1|
    requires t.id < |f0| && t.id !in Pages(l) && t.id !in Pages(r) && OnlyPages(f1, f2, multiset{t.id})
    requires S.InnerPages(cfg, f2, t.id, |f1|, Resumed(cfg, t, i, l, m, r, |f1|).out)
    ensures HoldsOut(cfg, f2, Resumed(cfg, t, i, l, m, r, |f1|).out) && OnlyPages(f0, f2, Pages(t))
  {
    hide Holds, NodeOf, HoldsNode, Once, InnerPut, Pages, InsertAt, HoldsAll, PagesOf, Position;
    SiblingsKept(cfg, f0, f1, t, i);
    var t' := t.(kids := t.kids[i := l]);
    var j := Position(t.kvs, m.key, cfg.acc.Upper(false));
    forall k | 0 <= k < |t'.kids|
      ensures Holds(cfg, f1, t'.kids[k]) && t.id !in Pages(t'.kids[k])
    {
      L.KidPages(t, k);
    }
    L.PutHeld(cfg, f1, t'.kids, j, r, t.id);
    InnerPutHolds(cfg, f1, f2, t', j, t'.kids[j], m, r, |f1|);
    D.RootIn(t);
  }

  /** insertRec of a B+ tree, repeated separators or not: the pages become what CodeRec says. */
  method ResumeRec(e: S.PageTree, id: nat, key: int, val: Value, ghost t: Tree, ghost lo: int, ghost hi: int)
    returns (mk: int, mv: Value, newId: nat, split: bool)
    requires e.pg.Ready() && e.pg.stale == {} && e.pg.pageSize == e.cfg.pageSize && t.id == id
    requires CanResume(e.cfg, e.pg.file, t, key, val, lo, hi)
    modifies e.pg, e.pg.cache, e.pg.cache.Repr, e.pg.Buffers()
    ensures e.pg.Ready() && e.pg.stale == {}
    ensures forall x | x in e.pg.cache.Repr :: x in old(e.pg.cache.Repr) || fresh(x)
    ensures forall b | b in e.pg.Buffers() :: b in old(e.pg.Buffers()) || fresh(b)
    ensures Followed(e.cfg, old(e.pg.file), e.pg.file, t, key, val, mk, mv, newId, split)
    decreases t
  {
    hide *;
    ghost var f0, ids := e.pg.file, e.pg.CachedIds();
    AtNode(e.cfg, f0, t, key, val, lo, hi);
    var p, n, idx, leaf, done := e.Locate(id, key, val, t, lo, hi);
    if done {
      mk, mv, newId, split := 0, [], 0, false;
      LeafFollowed(e.cfg, f0, e.pg.file, t, key, val, mk, mv, newId, split);
    } else if leaf {
      mk, mv, newId, split := e.InsertHere(id, p, n, idx, key, val, t, lo, hi, ids);
      LeafFollowed(e.cfg, f0, e.pg.file, t, key, val, mk, mv, newId, split);
    } else {
      mk, mv, newId, split := ResumeBelow(e, id, p, n, idx, key, val, t, lo, hi);
    }
  }

  /** insertRec at an internal node: into the child, and what the child promotes wherever the second search leads. */
  method ResumeBelow(e: S.PageTree, id: nat, p: array<byte>, n: nat, idx: nat, key: int, val: Value, ghost t: Tree,
      ghost lo: int, ghost hi: int)
    returns (mk: int, mv: Value, newId: nat, split: bool)
    requires e.pg.Ready() && e.pg.stale == {} && e.pg.pageSize == e.cfg.pageSize && t.id == id
    requires CanResume(e.cfg, e.pg.file, t, key, val, lo, hi) && t.Inner? && |t.kids| == |t.kvs| + 1
    requires e.Pinned(id, p, NodeOf(t)) && n == |t.kvs|
    requires idx == Position(t.kvs, key, e.cfg.acc.Upper(false)) && idx <= n
    modifies e.pg, e.pg.cache, e.pg.cache.Repr, e.pg.Buffers()
    ensures e.pg.Ready() && e.pg.stale == {}
    ensures forall x | x in e.pg.cache.Repr :: x in old(e.pg.cache.Repr) || fresh(x)
    ensures forall b | b in e.pg.Buffers() :: b in old(e.pg.Buffers()) || fresh(b)
    ensures Followed(e.cfg, old(e.pg.file), e.pg.file, t, key, val, mk, mv, newId, split)
    decreases t, 0
  {
    hide *;
    ghost var f0 := e.pg.file;
    AtKid(e.cfg, f0, t, idx, key, val, lo, hi);
    e.ReprOf(id, p, NodeOf(t));
    S.ChildIsKid(e.cfg, p[..], t, idx);
    var childId := ChildAt(e.cfg.acc, p[..], idx, n);
    mk, mv, newId, split :=
      ResumeRec(e, childId, key, val, t.kids[idx], Lo(e.cfg.acc, t.kvs, idx, lo), Hi(t.kvs, idx, hi));
    ghost var f1 := e.pg.file;
    if !split {
      DoneFollowed(e.cfg, f0, f1, t, idx, key, val, mk, mv, newId, lo, hi);
    } else {
      ghost var mk0, mv0, newId0 := mk, mv, newId;
      BeforeResume(e.cfg, f0, f1, t, idx, key, val, mk, mv, newId, lo, hi);
      ghost var sub := CodeRec(e.cfg, t.kids[idx], key, val, |f0|).out;
      mk, mv, newId, split := Resume(e, id, mk, mv, newId, t, idx, sub.l, sub.r);
      SplitFollowed(e.cfg, f0, f1, e.pg.file, t, idx, key, val, mk0, mv0, newId0, mk, mv, newId, split, lo, hi);
    }
  }

  // ---------------------------------------------------------------- Insert

  /** What Insert leaves of a B+ tree, repeated separators or not. */
  ghost predicate Ended(cfg: Cfg, f0: seq<Page>, file: seq<Page>, root: nat, t: Tree, key: int, val: Value) {
    var after := CodeDb(cfg, Db(t, |f0|), key, val);
    && after.Db? && Holds(cfg, file, after.t) && |file| == after.pages
    && root == after.t.id && S.HeaderId(file) == root
    && Entries(cfg.acc, after.t) == Put(Entries(cfg.acc, t), key, val)
    && (Chained(Leaves(after.t), INVALID_PAGE) <==> !RepeatsBelow(cfg, t, key, val, |f0|))
  }

  lemma AtTheRoot(cfg: Cfg, file: seq<Page>, t: Tree, key: int, val: Value)
    requires S.Stored(cfg, file, t) && IsKey(key) && |val| < 0x1_0000 && cfg.acc.BPTreeAcc?
    requires var db := CodeDb(cfg, Db(t, |file|), key, val); db.Db? && db.pages < INVALID_PAGE
    ensures CanResume(cfg, file, t, key, val, MIN_KEY, MAX_KEY + 1)
    ensures t.id < |file| && |file| >= 3 && HEADER <= cfg.pageSize < 0x1_0000 && 1 !in Pages(t)
  {
    hide Holds, Ordered, CodeRec, Pages, Uniform, Leaves, Chained, Fresh, Used, Fits, U32;
    forall x: nat
      ensures Fresh(2, |file|)[x] <= 1 && (x in Pages(t) ==> 2 <= x < |file|)
    {
      FreshCount(2, |file|, x);
    }
    S.HeldFacts(cfg, file, t);
  }

  lemma EndsThere(cfg: Cfg, f0: seq<Page>, file: seq<Page>, t: Tree, key: int, val: Value, mk: int, mv: Value,
      newId: nat)
    requires S.Stored(cfg, f0, t) && IsKey(key) && |val| < 0x1_0000 && cfg.acc.BPTreeAcc?
    requires CodeDb(cfg, Db(t, |f0|), key, val).Db? && Followed(cfg, f0, file, t, key, val, mk, mv, newId, false)
    requires 1 !in Pages(t) && |f0| >= 3
    ensures Ended(cfg, f0, file, t.id, t, key, val)
  {
    hide Holds, CodeRec, Pages, Leaves, Chained, Used, Fits, U32, Invariant, RepeatsBelow, Put, Entries;
    CodeIds(cfg, t, key, val, |f0|);
    DatabaseExactly(cfg, Db(t, |f0|), key, val);
  }

  /** The root split: what the new root relies on. */
  ghost predicate Above(cfg: Cfg, f0: seq<Page>, file: seq<Page>, t: Tree, key: int, val: Value, mk: int, mv: Value,
      newId: nat) {
    && HEADER <= cfg.pageSize < 0x1_0000 && 3 <= |file| < INVALID_PAGE
    && var out := CodeRec(cfg, t, key, val, |f0|).out;
      && out.Split? && out.m == KV(mk, mv) && Holds(cfg, file, out.l) && Holds(cfg, file, out.r)
      && out.l.id == t.id < |file| && out.r.id == newId < |file| && 1 !in Pages(out.l) + Pages(out.r)
      && Legal(cfg.acc, false, Cell(mk, mv, 0)) && Fits(cfg, false, [out.m])
      && CodeDb(cfg, Db(t, |f0|), key, val) == Db(S.NewRoot(cfg, |file|, out.l, out.m, out.r), |file| + 1)
  }

  lemma RootHalves(cfg: Cfg, f0: seq<Page>, file: seq<Page>, t: Tree, key: int, val: Value, mk: int, mv: Value,
      newId: nat)
    requires S.Stored(cfg, f0, t) && IsKey(key) && |val| < 0x1_0000 && cfg.acc.BPTreeAcc?
    requires var db := CodeDb(cfg, Db(t, |f0|), key, val); db.Db? && db.pages < INVALID_PAGE
    requires Followed(cfg, f0, file, t, key, val, mk, mv, newId, true)
    ensures Above(cfg, f0, file, t, key, val, mk, mv, newId)
  {
    hide Holds, Ordered, CodeRec, Pages, U32, Used, Fits, Invariant, Legal, Fresh;
    AtTheRoot(cfg, f0, t, key, val);
    CodeIds(cfg, t, key, val, |f0|);
    CodePages(cfg, t, key, val, |f0|);
    var ins := CodeRec(cfg, t, key, val, |f0|);
    FreshCount(|f0|, ins.pages, 1);
    assert OutPages(ins.out)[1] == Pages(t)[1] + Fresh(|f0|, ins.pages)[1];
    S.HeldFacts(cfg, file, ins.out.l);
    S.HeldFacts(cfg, file, ins.out.r);
  }

  lemma EndsAbove(cfg: Cfg, f0: seq<Page>, f1: seq<Page>, f2: seq<Page>, t: Tree, key: int, val: Value, mk: int,
      mv: Value, newId: nat)
    requires S.Stored(cfg, f0, t) && IsKey(key) && cfg.acc.BPTreeAcc? && Above(cfg, f0, f1, t, key, val, mk, mv, newId)
    requires var out := CodeRec(cfg, t, key, val, |f0|).out;
      |f2| == |f1| + 1 && S.HeaderId(f2) == |f1| && Holds(cfg, f2, S.NewRoot(cfg, |f1|, out.l, out.m, out.r))
    ensures Ended(cfg, f0, f2, |f1|, t, key, val)
  {
    hide Holds, CodeRec, Pages, Leaves, Chained, Used, Fits, U32, Invariant, RepeatsBelow, Put, Entries, Legal, CodeDb;
    DatabaseExactly(cfg, Db(t, |f0|), key, val);
  }

  /** Insert into a B+ tree, repeated separators or not. */
  method InsertResumed(e: S.PageTree, key: int, val: Value)
    requires e.Valid() && IsKey(key) && |val| < 0x1_0000 && e.cfg.acc.BPTreeAcc?
    requires var db := CodeDb(e.cfg, Db(e.tree, |e.pg.file|), key, val); db.Db? && db.pages < INVALID_PAGE
    modifies e, e.pg, e.pg.cache, e.pg.cache.Repr, e.pg.Buffers()
    ensures e.pg.Ready() && e.pg.stale == {}
    ensures Ended(e.cfg, old(e.pg.file), e.pg.file, e.rootId, old(e.tree), key, val)
  {
    hide *;
    ghost var f0, t := e.pg.file, e.tree;
    G.AtRoot(e);
    AtTheRoot(e.cfg, f0, t, key, val);
    var mk, mv, rightId, split := ResumeRec(e, e.rootId, key, val, t, MIN_KEY, MAX_KEY + 1);
    if !split {
      EndsThere(e.cfg, f0, e.pg.file, t, key, val, mk, mv, rightId);
    } else {
      ghost var f1 := e.pg.file;
      RootHalves(e.cfg, f0, f1, t, key, val, mk, mv, rightId);
      Grow(e, mk, mv, rightId, t, key, val, f0);
      EndsAbove(e.cfg, f0, f1, e.pg.file, t, key, val, mk, mv, rightId);
    }
  }

  method Grow(e: S.PageTree, mk: int, mv: Value, rightId: nat, ghost t: Tree, ghost key: int, ghost val: Value,
      ghost f0: seq<Page>)
    requires e.pg.Ready() && e.pg.stale == {} && e.pg.pageSize == e.cfg.pageSize && e.rootId == t.id
    requires Above(e.cfg, f0, e.pg.file, t, key, val, mk, mv, rightId)
    modifies e, e.pg, e.pg.cache, e.pg.cache.Repr, e.pg.Buffers()
    ensures e.pg.Ready() && e.pg.stale == {}
    ensures |e.pg.file| == |old(e.pg.file)| + 1 && S.HeaderId(e.pg.file) == e.rootId == |old(e.pg.file)|
    ensures var out := CodeRec(e.cfg, t, key, val, |f0|).out;
      Fits(e.cfg, false, [out.m]) && Holds(e.cfg, e.pg.file, S.NewRoot(e.cfg, |old(e.pg.file)|, out.l, out.m, out.r))
  {
    hide Repr, Holds, Pages, Fits, S.NewRoot, S.HeaderId, LruCache.Valid, Ids, Legal, P.Slots, CodeRec, P.Pager.Ready,
      P.Pager.Valid, P.Pager.Coherent, CodeDb;
    ghost var out := CodeRec(e.cfg, t, key, val, |f0|).out;
    e.GrowRoot(mk, mv, rightId, out.l, out.r);
  }
}
