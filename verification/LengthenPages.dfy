/**
 insertRec on the pages when the search meets its key in an internal B-tree node with a shorter value: what it leaves
 in the file and in the cache, from the node with the cell up to the root.
 */
module LengthenPages {
  import opened Bytes
  import opened Records
  import opened TreeModel
  import opened Order
  import opened Contents
  import opened Shape
  import opened Layout
  import opened PageOps
  import opened Refine
  import opened Lru
  import opened Recency
  import opened Trace
  import opened Resident
  import opened Lengthening
  import opened LengthenTree
  import opened Database
  import S = Shared
  import P = Pager

  /** DeleteCell on a page that is not written: its cached copy, if any, is stale from now on. */
  method Spoil(e: S.PageTree, id: nat, p: array<byte>, idx: nat, ghost nd: Node)
    requires e.Pinned(id, p, nd) && e.pg.stale == {} && idx < |nd.cells|
    modifies e.pg`stale, p
    ensures e.pg.Ready() && e.pg.stale == {id} && p !in e.pg.Buffers()
    ensures forall b | b in e.pg.Buffers() :: b in old(e.pg.Buffers())
    ensures Repr(e.cfg, p[..], nd.(cells := RemoveAt(nd.cells, idx)))
  {
    hide LruCache.Valid, Repr, RemoveAt;
    DeleteCell(e.cfg, p, idx, nd);
    e.pg.stale := {id};
  }

  method SpoilAndPick(e: S.PageTree, id: nat, p: array<byte>, n: nat, idx: nat, ghost t: Tree) returns (childId: nat)
    requires t.Inner? && |t.kids| == |t.kvs| + 1 && n == |t.kvs| && idx < n
    requires e.Pinned(id, p, NodeOf(t)) && e.pg.stale == {}
    modifies e.pg`stale, p
    ensures e.pg.Ready() && e.pg.stale == {id} && p !in e.pg.Buffers()
    ensures forall b | b in e.pg.Buffers() :: b in old(e.pg.Buffers())
    ensures Repr(e.cfg, p[..], NodeOf(Seen(t, idx, InCache))) && childId == t.kids[idx + 1].id
  {
    hide *;
    ghost var nd, u := NodeOf(t), Seen(t, idx, InCache);
    SeenNode(t, idx);
    Spoil(e, id, p, idx, nd);
    S.PageFacts(e.cfg, p[..], NodeOf(u));
    S.ChildIsKid(e.cfg, p[..], u, idx);
    childId := ChildAt(e.cfg.acc, p[..], idx, n - 1);
  }

  lemma CachedSlot(m: seq<Slot>, id: nat)
    ensures id in Ids(m) <==> IndexOf(m, id) < |m|
  {
    IdsAt(m);
    if IndexOf(m, id) < |m| {
      assert Ids(m)[IndexOf(m, id)] == id;
    }
  }

  /** The insert ends without writing the page: reads see the buffer while it is cached, and the file otherwise. */
  ghost method Settle(e: S.PageTree, id: nat, p: array<byte>) returns (seen: seq<Page>)
    requires e.pg.Ready() && e.pg.stale == {id} && id < |e.pg.file|
    requires forall s | s in e.pg.cache.model && s.id == id :: s.page == p
    modifies e.pg`stale
    ensures e.pg.Ready() && e.pg.Shows(seen)
    ensures forall b | b in e.pg.Buffers() :: b in old(e.pg.Buffers())
    ensures if id in e.pg.CachedIds() then e.pg.stale == {id} && seen == e.pg.file[id := p[..]]
            else e.pg.stale == {} && seen == e.pg.file
  {
    hide LruCache.Valid, Ids;
    ghost var m := e.pg.cache.model;
    CachedSlot(m, id);
    if id in e.pg.CachedIds() {
      seen := e.pg.file[id := p[..]];
    } else {
      seen := e.pg.file;
      e.pg.stale := {};
    }
  }

  /** The insert reads the page again: what it gets depends on whether the buffer is still cached. */
  method ReadAgain(e: S.PageTree, id: nat, p: array<byte>, ghost was: Node, ghost now: Node) returns (q: array<byte>)
    requires e.pg.Ready() && e.pg.stale == {id} && e.pg.pageSize == e.cfg.pageSize
      && HoldsNode(e.cfg, e.pg.file, id, was)
    requires forall s | s in e.pg.cache.model && s.id == id :: s.page == p
    requires Repr(e.cfg, p[..], now)
    modifies e.pg, e.pg.cache, e.pg.cache.Repr
    ensures e.pg.file == old(e.pg.file) && e.pg.stale == {}
      && e.Pinned(id, q, if id in old(e.pg.CachedIds()) then now else was)
    ensures forall x | x in e.pg.cache.Repr :: x in old(e.pg.cache.Repr) || fresh(x)
    ensures forall b | b in e.pg.Buffers() :: b in old(e.pg.Buffers()) || b == q
    ensures q == p || fresh(q)
  {
    hide LruCache.Valid, Ids, Accessed, Repr;
    CachedSlot(e.pg.cache.model, id);
    q := e.pg.Read(id, {});
    e.pg.stale := {};
  }

  lemma CacheIds(c: LruCache)
    requires c.Valid()
    ensures NoRepeats(Ids(c.model)) && |Ids(c.model)| <= c.cap
  {
    c.DistinctModel();
    IdsAt(c.model);
  }

  lemma CleanKid(e: S.PageTree, id: nat, kid: Tree)
    requires e.pg.stale == {id} && id !in Pages(kid)
    ensures S.Clean(e.pg.stale, kid)
  {
  }

  lemma StaleOnly(e: S.PageTree, id: nat, p: array<byte>)
    requires forall s | s in e.pg.cache.model && s.id == id :: s.page == p
    ensures e.pg.stale == {id} ==> forall s | s in e.pg.StaleSlots() :: s.page == p
  {
  }

  lemma StaleStill(e: S.PageTree, id: nat, p: array<byte>, slots: set<Slot>)
    requires e.pg.stale == {id} && e.pg.StaleSlots() <= slots && forall s | s in slots :: s.page == p
    ensures forall s | s in e.pg.cache.model && s.id == id :: s.page == p
  {
    forall s | s in e.pg.cache.model && s.id == id
      ensures s.page == p
    {
      assert s in e.pg.StaleSlots();
    }
  }

  /** From the deletion of the cell to the end of the insert below it. */
  method GoBelow(e: S.PageTree, id: nat, p: array<byte>, n: nat, idx: nat, key: int, val: Value, ghost t: Tree,
      ghost hi: int)
    returns (mk: int, mv: Value, newId: nat, split: bool)
    requires t.Inner? && |t.kids| == |t.kvs| + 1 && n == |t.kvs| && idx < n && e.pg.pageSize == e.cfg.pageSize
    requires e.Pinned(id, p, NodeOf(t)) && e.pg.stale == {}
    requires forall s | s in e.pg.cache.model && s.id == id :: s.page == p
    requires S.CanRec(e.cfg, e.pg.file, t.kids[idx + 1], key, val, key, hi) && id !in Pages(t.kids[idx + 1])
    modifies e.pg, e.pg.cache, e.pg.cache.Repr, e.pg.Buffers(), p
    ensures e.pg.Ready() && e.pg.stale == {id}
    ensures forall x | x in e.pg.cache.Repr :: x in old(e.pg.cache.Repr) || fresh(x)
    ensures forall b | b in e.pg.Buffers() :: b in old(e.pg.Buffers()) || b == p || fresh(b)
    ensures Repr(e.cfg, p[..], NodeOf(Seen(t, idx, InCache)))
    ensures forall s | s in e.pg.cache.model && s.id == id :: s.page == p
    ensures S.Effect(e.cfg, old(e.pg.file), e.pg.file, t.kids[idx + 1], key, val, mk, mv, newId, split)
    ensures Accesses(old(e.pg.CachedIds()), e.pg.CachedIds(), e.pg.cache.cap,
                     Touched(e.cfg, t.kids[idx + 1], key, val, |old(e.pg.file)|))
  {
    hide *;
    var childId := SpoilAndPick(e, id, p, n, idx, t);
    ghost var bytes, slots := p[..], e.pg.StaleSlots();
    StaleOnly(e, id, p);
    CleanKid(e, id, t.kids[idx + 1]);
    mk, mv, newId, split := e.InsertRec(childId, key, val, t.kids[idx + 1], key, hi);
    assert p[..] == bytes;
    StaleStill(e, id, p, slots);
  }

  /** The first part of insertRec at the node with the cell, and what becomes of the cached copy. */
  method Descend(e: S.PageTree, id: nat, p: array<byte>, n: nat, idx: nat, key: int, val: Value, ghost t: Tree,
      ghost view: View, ghost lo: int, ghost hi: int, ghost ids: seq<nat>)
    returns (mk: int, mv: Value, newId: nat, split: bool)
    requires AtCell(e, id, p, n, idx, key, val, t, view, lo, hi, ids)
    modifies e.pg, e.pg.cache, e.pg.cache.Repr, e.pg.Buffers(), p
    ensures e.pg.Ready() && e.pg.stale == {id}
    ensures forall x | x in e.pg.cache.Repr :: x in old(e.pg.cache.Repr) || fresh(x)
    ensures forall b | b in e.pg.Buffers() :: b in old(e.pg.Buffers()) || b == p || fresh(b)
    ensures forall s | s in e.pg.cache.model && s.id == id :: s.page == p
    ensures Repr(e.cfg, p[..], NodeOf(Seen(t, idx, InCache)))
    ensures S.Effect(e.cfg, old(e.pg.file), e.pg.file, t.kids[idx + 1], key, val, mk, mv, newId, split)
    ensures id in e.pg.CachedIds() <==> view.InCache?
  {
    hide *;
    ghost var f0, mid := e.pg.file, e.pg.CachedIds();
    AtCellFacts(e, id, p, n, idx, key, val, t, view, lo, hi, ids);
    mk, mv, newId, split := GoBelow(e, id, p, n, idx, key, val, t, Hi(t.kvs, idx + 1, hi));
    Residency(e.cfg, t, idx, key, val, |f0|, e.pg.cache.cap, ids, mid, e.pg.CachedIds());
  }

  /** insertRec has read and searched the page of the node with the cell. */
  ghost predicate AtCell(e: S.PageTree, id: nat, p: array<byte>, n: nat, idx: nat, key: int, val: Value, t: Tree,
      view: View, lo: int, hi: int, ids: seq<nat>)
    reads e, e.pg, e.pg.cache, e.pg.cache.list, e.pg.Buffers(), p
  {
    && CanLengthen(e.cfg, e.pg.file, t, key, val, view, lo, hi) && Found(t, key, val, lo, hi)
    && view == ViewAfter(e.cfg, t, key, val, |e.pg.file|, e.pg.cache.cap)
    && e.Pinned(id, p, NodeOf(t)) && e.pg.Ready() && e.pg.stale == {} && t.id == id
    && n == |t.kvs| && idx == Position(t.kvs, key, false)
    && (forall s | s in e.pg.cache.model && s.id == id :: s.page == p)
    && NoRepeats(ids) && |ids| <= e.pg.cache.cap && Accesses(ids, e.pg.CachedIds(), e.pg.cache.cap, [id])
  }

  lemma AtCellFacts(e: S.PageTree, id: nat, p: array<byte>, n: nat, idx: nat, key: int, val: Value, t: Tree, view: View,
      lo: int, hi: int, ids: seq<nat>)
    requires AtCell(e, id, p, n, idx, key, val, t, view, lo, hi, ids)
    ensures e.Pinned(id, p, NodeOf(t)) && e.pg.stale == {} && t.Inner? && |t.kids| == |t.kvs| + 1 && n == |t.kvs|
      && idx < n
    ensures forall s | s in e.pg.cache.model && s.id == id :: s.page == p
    ensures S.CanRec(e.cfg, e.pg.file, t.kids[idx + 1], key, val, key, Hi(t.kvs, idx + 1, hi))
    ensures id !in Pages(t.kids[idx + 1]) && id == t.id
    ensures Longer(t, key, val) && idx == Position(t.kvs, key, false) && t.kvs[idx].key == key
    ensures view == ViewAfter(e.cfg, t, key, val, |e.pg.file|, e.pg.cache.cap)
    ensures Once(Pages(t)) && (forall x | x in Pages(t) :: x < |e.pg.file|) && NoRepeats(ids) && |ids| <= e.pg.cache.cap
    ensures !InsRec(e.cfg, t.kids[idx + 1], key, val, |e.pg.file|).out.Broken?
    ensures Accesses(ids, e.pg.CachedIds(), e.pg.cache.cap, [id])
    ensures CanLengthen(e.cfg, e.pg.file, t, key, val, view, lo, hi) && Found(t, key, val, lo, hi)
    ensures e.pg.pageSize == e.cfg.pageSize
  {
    hide InsRec, NodeOf, HoldsNode, Position, Pages, Holds, Ordered, LengthenBelow, Found, Longer, S.CanRec, Once, Repr,
      NoRepeats, Accesses, ViewAfter, Touched, LruCache.Valid, P.Slots;
    Start(e.cfg, e.pg.file, t, key, val, view, lo, hi);
  }

  /** The page is read and searched again. */
  method FindAgain(e: S.PageTree, id: nat, p: array<byte>, mk: int, ghost was: Node, ghost now: Node, ghost nd: Node,
      ghost kvs: seq<KV>)
    returns (q: array<byte>, n: nat, idx: nat)
    requires e.pg.Ready() && e.pg.stale == {id} && e.pg.pageSize == e.cfg.pageSize
      && HoldsNode(e.cfg, e.pg.file, id, was)
    requires forall s | s in e.pg.cache.model && s.id == id :: s.page == p
    requires Repr(e.cfg, p[..], now) && nd == if id in e.pg.CachedIds() then now else was
    requires !nd.leaf && |nd.cells| == |kvs| && S.SameRecords(nd.cells, kvs) && S.Ascending(kvs)
    modifies e.pg, e.pg.cache, e.pg.cache.Repr
    ensures e.pg.file == old(e.pg.file) && e.pg.stale == {} && e.Pinned(id, q, nd) && (q == p || fresh(q))
    ensures forall x | x in e.pg.cache.Repr :: x in old(e.pg.cache.Repr) || fresh(x)
    ensures forall b | b in e.pg.Buffers() :: b in old(e.pg.Buffers()) || b == p || fresh(b)
    ensures n == |kvs| && idx == Position(kvs, mk, e.cfg.acc.Upper(false))
  {
    hide Repr, LruCache.Valid, Ids, Accessed, S.Ascending, S.SameRecords, Position, P.Slots;
    q := ReadAgain(e, id, p, was, now);
    e.ReprOf(id, q, nd);
    S.PageFacts(e.cfg, q[..], nd);
    n := NumCells(q[..]);
    idx := S.FindIdx(e.cfg, q, mk, n, false, nd, kvs);
  }

  /** The child behind the cell has split: the page is read again, searched for the promoted key, and written. */
  method PutAgain(e: S.PageTree, id: nat, p: array<byte>, mk0: int, mv0: Value, rc: nat, ghost t: Tree, ghost u: Tree,
      ghost j: nat, ghost r: Tree, ghost view: View, ghost i: nat)
    returns (mk: int, mv: Value, newId: nat, split: bool)
    requires e.pg.Ready() && e.pg.stale == {id} && e.pg.pageSize == e.cfg.pageSize && |e.pg.file| < INVALID_PAGE
    requires t.Inner? && |t.kids| == |t.kvs| + 1 && i < |t.kvs| && HoldsNode(e.cfg, e.pg.file, id, NodeOf(t))
    requires forall s | s in e.pg.cache.model && s.id == id :: s.page == p
    requires Repr(e.cfg, p[..], NodeOf(Seen(t, i, InCache))) && (id in e.pg.CachedIds() <==> view.InCache?)
    requires u.Inner? && |u.kids| == |u.kvs| + 1 && u.id == id && NodeOf(u) == NodeOf(Seen(t, i, view))
    requires S.Ascending(u.kvs) && j == Position(u.kvs, mk0, e.cfg.acc.Upper(false)) && j <= |u.kvs|
    requires rc == r.id < 0x1_0000_0000 && Legal(e.cfg.acc, false, Cell(mk0, mv0, 0))
    requires !InnerPut(e.cfg, u, j, u.kids[j], KV(mk0, mv0), r, |e.pg.file|).out.Broken?
    modifies e.pg, e.pg.cache, e.pg.cache.Repr, p
    ensures e.pg.Ready() && e.pg.stale == {}
    ensures forall x | x in e.pg.cache.Repr :: x in old(e.pg.cache.Repr) || fresh(x)
    ensures forall b | b in e.pg.Buffers() :: b in old(e.pg.Buffers()) || b == p || fresh(b)
    ensures OnlyPages(old(e.pg.file), e.pg.file, multiset{id})
    ensures var ins := InnerPut(e.cfg, u, j, u.kids[j], KV(mk0, mv0), r, |old(e.pg.file)|);
      && S.InnerPages(e.cfg, e.pg.file, id, |old(e.pg.file)|, ins.out)
      && |e.pg.file| == ins.pages && S.Reports(e.cfg.acc, ins.out, mk, mv, newId, split)
  {
    hide *;
    S.InnerFacts(e.cfg.acc, u);
    SeenNode(t, i);
    OnFileNode(t, i);
    assert view == InCache || view == OnFile;
    var q, n, idx := FindAgain(e, id, p, mk0, NodeOf(t), NodeOf(Seen(t, i, InCache)), NodeOf(u), u.kvs);
    mk, mv, newId, split := e.PutIntoInner(id, q, n, idx, mk0, mv0, rc, u, u.kids[j], r);
  }

  /** The same for the promoted cell of the child. */
  method PutPending(e: S.PageTree, id: nat, p: array<byte>, mk0: int, mv0: Value, rc: nat, ghost t: Tree, ghost i: nat,
      ghost key: int, ghost val: Value, ghost view: View, ghost f0: seq<Page>)
    returns (mk: int, mv: Value, newId: nat, split: bool)
    requires e.pg.Ready() && e.pg.stale == {id} && e.pg.pageSize == e.cfg.pageSize && t.id == id
    requires forall s | s in e.pg.cache.model && s.id == id :: s.page == p
    requires Pending(e.cfg, f0, e.pg.file, t, i, key, val, view, mk0, mv0, rc)
    requires Repr(e.cfg, p[..], NodeOf(Seen(t, i, InCache))) && (id in e.pg.CachedIds() <==> view.InCache?)
    modifies e.pg, e.pg.cache, e.pg.cache.Repr, p
    ensures e.pg.Ready() && e.pg.stale == {}
    ensures forall x | x in e.pg.cache.Repr :: x in old(e.pg.cache.Repr) || fresh(x)
    ensures forall b | b in e.pg.Buffers() :: b in old(e.pg.Buffers()) || b == p || fresh(b)
    ensures OnlyPages(old(e.pg.file), e.pg.file, multiset{id})
    ensures var ins := LengthenBelow(e.cfg, t, key, val, |f0|, view);
      && S.InnerPages(e.cfg, e.pg.file, id, |old(e.pg.file)|, ins.out)
      && |e.pg.file| == ins.pages && S.Reports(e.cfg.acc, ins.out, mk, mv, newId, split)
  {
    hide Repr, NodeOf, HoldsNode, S.Ascending, Position, InnerPut, S.InnerPages, OnlyPages, S.Reports, LruCache.Valid,
      Ids, Legal, Seen, P.Slots, InsRec, LengthenBelow, Longer, Halved, P.Pager.Ready, P.Pager.Valid, P.Pager.Coherent;
    ghost var sub := InsRec(e.cfg, t.kids[i + 1], key, val, |f0|).out;
    ghost var u := Halved(t, i, view, sub.l);
    ghost var j := Position(u.kvs, mk0, false);
    mk, mv, newId, split := PutAgain(e, id, p, mk0, mv0, rc, t, u, j, sub.r, view, i);
  }

  lemma Agreed(e: S.PageTree)
    requires e.pg.Ready() && e.pg.stale == {}
    ensures e.pg.Shows(e.pg.file)
  {
    hide LruCache.Valid;
  }

  method WriteBack(e: S.PageTree, id: nat, p: array<byte>, mk0: int, mv0: Value, rc: nat, ghost t: Tree, ghost i: nat,
      ghost key: int, ghost val: Value, ghost view: View, ghost lo: int, ghost hi: int, ghost f0: seq<Page>)
    returns (mk: int, mv: Value, newId: nat, split: bool)
    requires e.pg.Ready() && e.pg.stale == {id} && e.pg.pageSize == e.cfg.pageSize && t.id == id
    requires CanLengthen(e.cfg, f0, t, key, val, view, lo, hi) && Found(t, key, val, lo, hi)
    requires t.Inner? && |t.kids| == |t.kvs| + 1 && i == Position(t.kvs, key, false) && i < |t.kvs|
    requires S.Effect(e.cfg, f0, e.pg.file, t.kids[i + 1], key, val, mk0, mv0, rc, true)
    requires Repr(e.cfg, p[..], NodeOf(Seen(t, i, InCache)))
    requires forall s | s in e.pg.cache.model && s.id == id :: s.page == p
    requires id in e.pg.CachedIds() <==> view.InCache?
    modifies e.pg, e.pg.cache, e.pg.cache.Repr, p
    ensures e.pg.Ready() && e.pg.Shows(e.pg.file)
    ensures forall x | x in e.pg.cache.Repr :: x in old(e.pg.cache.Repr) || fresh(x)
    ensures forall b | b in e.pg.Buffers() :: b in old(e.pg.Buffers()) || b == p || fresh(b)
    ensures Left(e.cfg, f0, e.pg.file, e.pg.file, e.pg.stale, t, key, val, view, mk, mv, newId, split)
  {
    hide *;
    ghost var f1 := e.pg.file;
    BackFacts(e.cfg, f0, f1, t, i, key, val, view, mk0, mv0, rc, lo, hi);
    mk, mv, newId, split := PutPending(e, id, p, mk0, mv0, rc, t, i, key, val, view, f0);
    SplitHere(e.cfg, f0, f1, e.pg.file, t, key, val, view, mk0, mv0, rc, mk, mv, newId, split, lo, hi);
    Agreed(e);
  }

  /** The child behind the cell did not split: the insert ends here, and nothing more is written. */
  ghost method Finish(e: S.PageTree, id: nat, p: array<byte>, mk: int, mv: Value, newId: nat, t: Tree, i: nat, key: int,
      val: Value, view: View, lo: int, hi: int, f0: seq<Page>) returns (seen: seq<Page>)
    requires e.pg.Ready() && e.pg.stale == {id} && e.pg.pageSize == e.cfg.pageSize && t.id == id
    requires CanLengthen(e.cfg, f0, t, key, val, view, lo, hi) && Found(t, key, val, lo, hi)
    requires t.Inner? && |t.kids| == |t.kvs| + 1 && i == Position(t.kvs, key, false) && i < |t.kvs|
    requires S.Effect(e.cfg, f0, e.pg.file, t.kids[i + 1], key, val, mk, mv, newId, false)
    requires Repr(e.cfg, p[..], NodeOf(Seen(t, i, InCache)))
    requires forall s | s in e.pg.cache.model && s.id == id :: s.page == p
    requires id in e.pg.CachedIds() <==> view.InCache?
    modifies e.pg`stale
    ensures e.pg.Ready() && e.pg.Shows(seen)
    ensures forall b | b in e.pg.Buffers() :: b in old(e.pg.Buffers())
    ensures Left(e.cfg, f0, e.pg.file, seen, e.pg.stale, t, key, val, view, mk, mv, newId, false)
  {
    hide InsRec, NodeOf, Position, Pages, Holds, Ordered, LengthenBelow, CanLengthen, Found, S.CanRec, S.Effect, Left,
      LruCache.Valid, Ids, P.Slots, Longer, Repr, Once, HoldsNode, P.Pager.Shows, P.Pager.Ready;
    Start(e.cfg, f0, t, key, val, view, lo, hi);
    RootIn(t);
    Longest(e.cfg, f0, e.pg.file, t, key, val, mk, mv, newId);
    seen := Settle(e, id, p);
    OnPage(e.cfg, e.pg.file, seen, id, p[..], NodeOf(Seen(t, i, InCache)));
    DoneHere(e.cfg, f0, e.pg.file, seen, e.pg.stale, t, key, val, view, mk, mv, newId, lo, hi);
  }

  lemma OnPage(cfg: Cfg, file: seq<Page>, seen: seq<Page>, id: nat, bytes: Page, nd: Node)
    requires id < |file| && Repr(cfg, bytes, nd)
    ensures seen == file[id := bytes] ==> HoldsNode(cfg, seen, id, nd) && OnlyPages(file, seen, multiset{id})
  {
    hide Repr;
  }

  /** The rest: nothing, or the page is read again and written. */
  method Complete(e: S.PageTree, id: nat, p: array<byte>, mk0: int, mv0: Value, rc: nat, childSplit: bool,
      ghost t: Tree, ghost i: nat, ghost key: int, ghost val: Value, ghost view: View, ghost lo: int, ghost hi: int,
      ghost f0: seq<Page>)
    returns (mk: int, mv: Value, newId: nat, split: bool, ghost seen: seq<Page>)
    requires e.pg.Ready() && e.pg.stale == {id} && e.pg.pageSize == e.cfg.pageSize && t.id == id
    requires CanLengthen(e.cfg, f0, t, key, val, view, lo, hi) && Found(t, key, val, lo, hi)
    requires t.Inner? && |t.kids| == |t.kvs| + 1 && i == Position(t.kvs, key, false) && i < |t.kvs|
    requires S.Effect(e.cfg, f0, e.pg.file, t.kids[i + 1], key, val, mk0, mv0, rc, childSplit)
    requires Repr(e.cfg, p[..], NodeOf(Seen(t, i, InCache)))
    requires forall s | s in e.pg.cache.model && s.id == id :: s.page == p
    requires id in e.pg.CachedIds() <==> view.InCache?
    modifies e.pg, e.pg.cache, e.pg.cache.Repr, p
    ensures e.pg.Ready() && e.pg.Shows(seen)
    ensures forall x | x in e.pg.cache.Repr :: x in old(e.pg.cache.Repr) || fresh(x)
    ensures forall b | b in e.pg.Buffers() :: b in old(e.pg.Buffers()) || b == p || fresh(b)
    ensures Left(e.cfg, f0, e.pg.file, seen, e.pg.stale, t, key, val, view, mk, mv, newId, split)
  {
    hide *;
    if !childSplit {
      mk, mv, newId, split := mk0, mv0, rc, false;
      seen := Finish(e, id, p, mk, mv, newId, t, i, key, val, view, lo, hi, f0);
    } else {
      mk, mv, newId, split := WriteBack(e, id, p, mk0, mv0, rc, t, i, key, val, view, lo, hi, f0);
      seen := e.pg.file;
    }
  }

  /**
   insertRec at the internal node that holds the key with a shorter value, from the page that has been searched on.
   */
  method LengthenHere(e: S.PageTree, id: nat, p: array<byte>, n: nat, idx: nat, key: int, val: Value, ghost t: Tree,
      ghost view: View, ghost lo: int, ghost hi: int, ghost ids: seq<nat>)
    returns (mk: int, mv: Value, newId: nat, split: bool, ghost seen: seq<Page>)
    requires AtCell(e, id, p, n, idx, key, val, t, view, lo, hi, ids)
    modifies e.pg, e.pg.cache, e.pg.cache.Repr, e.pg.Buffers(), p
    ensures e.pg.Ready() && e.pg.Shows(seen)
    ensures forall x | x in e.pg.cache.Repr :: x in old(e.pg.cache.Repr) || fresh(x)
    ensures forall b | b in e.pg.Buffers() :: b in old(e.pg.Buffers()) || b == p || fresh(b)
    ensures Longer(t, key, val)
    ensures Left(e.cfg, old(e.pg.file), e.pg.file, seen, e.pg.stale, t, key, val, view, mk, mv, newId, split)
  {
    hide *;
    ghost var f0 := e.pg.file;
    AtCellFacts(e, id, p, n, idx, key, val, t, view, lo, hi, ids);
    mk, mv, newId, split := Descend(e, id, p, n, idx, key, val, t, view, lo, hi, ids);
    mk, mv, newId, split, seen := Complete(e, id, p, mk, mv, newId, split, t, idx, key, val, view, lo, hi, f0);
  }

  // ---------------------------------------------------------------- from the root down to the cell and back

  /** What insertRec relies on at a node on the path. */
  lemma RecFacts(cfg: Cfg, file: seq<Page>, t: Tree, key: int, val: Value, view: View, lo: int, hi: int)
    requires CanLengthen(cfg, file, t, key, val, view, lo, hi)
    ensures t.Inner? && |t.kids| == |t.kvs| + 1 && HoldsNode(cfg, file, t.id, NodeOf(t)) && S.Ascending(t.kvs)
    ensures !NodeOf(t).leaf && |NodeOf(t).cells| == |t.kvs| && S.SameRecords(NodeOf(t).cells, t.kvs)
      && !cfg.acc.Upper(false)
    ensures var i := Position(t.kvs, key, false);
      if i < |t.kvs| && t.kvs[i].key == key then Found(t, key, val, lo, hi)
      else Above(cfg, file, t, i, key, val, view, lo, hi)
  {
    hide InsRec, NodeOf, HoldsNode, Position, Pages, Holds, KidsOrdered, LengthenBelow, S.SameRecords, Once;
    OneDown(t, key, val, lo, hi);
    KidHeld(cfg, file, t, 0);
    S.InnerFacts(cfg.acc, t);
  }

  /** insertRec when the search will meet its key, with a shorter value, in an internal node. */
  method LengthenRec(e: S.PageTree, id: nat, key: int, val: Value, ghost t: Tree, ghost view: View, ghost lo: int,
      ghost hi: int)
    returns (mk: int, mv: Value, newId: nat, split: bool, ghost seen: seq<Page>)
    requires e.pg.Ready() && e.pg.stale == {} && e.pg.pageSize == e.cfg.pageSize && t.id == id
    requires CanLengthen(e.cfg, e.pg.file, t, key, val, view, lo, hi)
    requires view == ViewAfter(e.cfg, t, key, val, |e.pg.file|, e.pg.cache.cap)
    modifies e.pg, e.pg.cache, e.pg.cache.Repr, e.pg.Buffers()
    ensures e.pg.Ready() && e.pg.Shows(seen)
    ensures forall x | x in e.pg.cache.Repr :: x in old(e.pg.cache.Repr) || fresh(x)
    ensures forall b | b in e.pg.Buffers() :: b in old(e.pg.Buffers()) || fresh(b)
    ensures Longer(t, key, val)
    ensures Left(e.cfg, old(e.pg.file), e.pg.file, seen, e.pg.stale, t, key, val, view, mk, mv, newId, split)
    decreases t
  {
    hide *;
    ghost var ids := e.pg.CachedIds();
    RecStart(e, t, key, val, view, lo, hi);
    var p, n, idx := e.SearchAgain(id, key, NodeOf(t), t.kvs);
    e.ReprOf(id, p, NodeOf(t));
    var here := false;
    if idx < n {
      S.ReadRecord(e.cfg, p[..], t, idx);
      InnerKind(t);
      here := ReadCell(e.cfg.acc, p[..], idx, false).key == key;
    }
    RecMiddle(e, id, p, n, idx, key, val, t, view, lo, hi, ids, here);
    if here {
      mk, mv, newId, split, seen := LengthenHere(e, id, p, n, idx, key, val, t, view, lo, hi, ids);
    } else {
      mk, mv, newId, split, seen := LengthenAbove(e, id, p, n, idx, key, val, t, view, lo, hi);
    }
  }

  lemma RecStart(e: S.PageTree, t: Tree, key: int, val: Value, view: View, lo: int, hi: int)
    requires e.pg.Ready() && CanLengthen(e.cfg, e.pg.file, t, key, val, view, lo, hi)
    ensures t.Inner? && |t.kids| == |t.kvs| + 1 && HoldsNode(e.cfg, e.pg.file, t.id, NodeOf(t)) && S.Ascending(t.kvs)
    ensures !NodeOf(t).leaf && |NodeOf(t).cells| == |t.kvs| && S.SameRecords(NodeOf(t).cells, t.kvs)
    ensures NoRepeats(e.pg.CachedIds()) && |e.pg.CachedIds()| <= e.pg.cache.cap && Longer(t, key, val)
  {
    RecFacts(e.cfg, e.pg.file, t, key, val, view, lo, hi);
    CacheIds(e.pg.cache);
  }

  lemma RecMiddle(e: S.PageTree, id: nat, p: array<byte>, n: nat, idx: nat, key: int, val: Value, t: Tree, view: View,
      lo: int, hi: int, ids: seq<nat>, here: bool)
    requires e.pg.Ready() && e.pg.stale == {} && t.id == id && CanLengthen(e.cfg, e.pg.file, t, key, val, view, lo, hi)
    requires view == ViewAfter(e.cfg, t, key, val, |e.pg.file|, e.pg.cache.cap)
    requires t.Inner? && |t.kids| == |t.kvs| + 1 && e.Pinned(id, p, NodeOf(t)) && n == |t.kvs|
    requires idx == Position(t.kvs, key, e.cfg.acc.Upper(false)) && here == (idx < n && t.kvs[idx].key == key)
    requires forall s | s in e.pg.cache.model && s.id == id :: s.page == p
    requires NoRepeats(ids) && |ids| <= e.pg.cache.cap && Accesses(ids, e.pg.CachedIds(), e.pg.cache.cap, [id])
    ensures here ==> AtCell(e, id, p, n, idx, key, val, t, view, lo, hi, ids)
    ensures !here ==> Above(e.cfg, e.pg.file, t, idx, key, val, view, lo, hi)
  {
    hide InsRec, NodeOf, HoldsNode, Position, Pages, Holds, Ordered, LengthenBelow, Found, Longer, Once, Repr,
      NoRepeats, Accesses, ViewAfter, LruCache.Valid, P.Slots, CanLengthen, Above;
    RecFacts(e.cfg, e.pg.file, t, key, val, view, lo, hi);
    assert !e.cfg.acc.Upper(false);
  }

  lemma InnerKind(t: Tree)
    requires t.Inner?
    ensures t.Leaf? == false
  {
  }

  /** insertRec at a node above: into the child, and what the child promotes into the node. */
  method LengthenAbove(e: S.PageTree, id: nat, p: array<byte>, n: nat, idx: nat, key: int, val: Value, ghost t: Tree,
      ghost view: View, ghost lo: int, ghost hi: int)
    returns (mk: int, mv: Value, newId: nat, split: bool, ghost seen: seq<Page>)
    requires e.pg.Ready() && e.pg.stale == {} && e.pg.pageSize == e.cfg.pageSize && t.id == id
    requires Above(e.cfg, e.pg.file, t, idx, key, val, view, lo, hi) && Longer(t, key, val)
    requires view == ViewAfter(e.cfg, t, key, val, |e.pg.file|, e.pg.cache.cap)
    requires t.Inner? && |t.kids| == |t.kvs| + 1 && Repr(e.cfg, p[..], NodeOf(t)) && n == |t.kvs|
    modifies e.pg, e.pg.cache, e.pg.cache.Repr, e.pg.Buffers()
    ensures e.pg.Ready() && e.pg.Shows(seen)
    ensures forall x | x in e.pg.cache.Repr :: x in old(e.pg.cache.Repr) || fresh(x)
    ensures forall b | b in e.pg.Buffers() :: b in old(e.pg.Buffers()) || fresh(b)
    ensures Left(e.cfg, old(e.pg.file), e.pg.file, seen, e.pg.stale, t, key, val, view, mk, mv, newId, split)
    decreases t, 0
  {
    hide *;
    ghost var f0 := e.pg.file;
    ToChild(e.cfg, f0, t, idx, key, val, view, lo, hi, e.pg.cache.cap);
    S.PageFacts(e.cfg, p[..], NodeOf(t));
    S.ChildIsKid(e.cfg, p[..], t, idx);
    var childId := ChildAt(e.cfg.acc, p[..], idx, n);
    mk, mv, newId, split, seen :=
      LengthenRec(e, childId, key, val, t.kids[idx], view, Lo(BTreeAcc, t.kvs, idx, lo), Hi(t.kvs, idx, hi));
    if !split {
      AboveDone(e.cfg, f0, e.pg.file, seen, e.pg.stale, t, idx, key, val, view, mk, mv, newId, lo, hi);
    } else {
      mk, mv, newId, split := Rise(e, id, mk, mv, newId, t, idx, key, val, view, lo, hi, f0, seen);
      seen := e.pg.file;
    }
  }

  lemma ToChild(cfg: Cfg, file: seq<Page>, t: Tree, i: nat, key: int, val: Value, view: View, lo: int, hi: int,
      cap: nat)
    requires Above(cfg, file, t, i, key, val, view, lo, hi) && Longer(t, key, val)
    ensures t.Inner? && |t.kids| == |t.kvs| + 1 && i <= |t.kvs| && Longer(t.kids[i], key, val)
    ensures CanLengthen(cfg, file, t.kids[i], key, val, view, Lo(BTreeAcc, t.kvs, i, lo), Hi(t.kvs, i, hi))
    ensures ViewAfter(cfg, t, key, val, |file|, cap) == ViewAfter(cfg, t.kids[i], key, val, |file|, cap)
  {
    hide CanLengthen, Longer, ViewAfter;
    AboveCan(cfg, file, t, i, key, val, view, lo, hi);
  }

  /** The end of insertRec at a node above a child that has split. */
  method Rise(e: S.PageTree, id: nat, mk0: int, mv0: Value, rc: nat, ghost t: Tree, ghost i: nat, ghost key: int,
      ghost val: Value, ghost view: View, ghost lo: int, ghost hi: int, ghost f0: seq<Page>, ghost seen: seq<Page>)
    returns (mk: int, mv: Value, newId: nat, split: bool)
    requires e.pg.Ready() && e.pg.pageSize == e.cfg.pageSize && t.id == id
    requires Above(e.cfg, f0, t, i, key, val, view, lo, hi) && Longer(t, key, val)
    requires Left(e.cfg, f0, e.pg.file, seen, e.pg.stale, t.kids[i], key, val, view, mk0, mv0, rc, true)
    modifies e.pg, e.pg.cache, e.pg.cache.Repr, e.pg.Buffers()
    ensures e.pg.Ready() && e.pg.Shows(e.pg.file)
    ensures forall x | x in e.pg.cache.Repr :: x in old(e.pg.cache.Repr) || fresh(x)
    ensures forall b | b in e.pg.Buffers() :: b in old(e.pg.Buffers()) || fresh(b)
    ensures Left(e.cfg, f0, e.pg.file, e.pg.file, e.pg.stale, t, key, val, view, mk, mv, newId, split)
  {
    hide *;
    ghost var f1, stale := e.pg.file, e.pg.stale;
    AtAbove(e.cfg, f0, f1, seen, stale, t, i, key, val, view, mk0, mv0, rc, lo, hi);
    mk, mv, newId, split := RiseInto(e, id, mk0, mv0, rc, t, i, key, val, view, f0);
    AboveSplit(e.cfg, f0, f1, e.pg.file, seen, stale, t, i, key, val, view, mk0, mv0, rc, mk, mv, newId, split, lo, hi);
    Agreed(e);
  }

  method RiseInto(e: S.PageTree, id: nat, mk0: int, mv0: Value, rc: nat, ghost t: Tree, ghost i: nat, ghost key: int,
      ghost val: Value, ghost view: View, ghost f0: seq<Page>)
    returns (mk: int, mv: Value, newId: nat, split: bool)
    requires e.pg.Ready() && e.pg.stale == {} && e.pg.pageSize == e.cfg.pageSize && t.id == id
    requires Rising(e.cfg, f0, e.pg.file, t, i, key, val, view, mk0, mv0, rc)
    modifies e.pg, e.pg.cache, e.pg.cache.Repr, e.pg.Buffers()
    ensures e.pg.Ready() && e.pg.stale == {}
    ensures forall x | x in e.pg.cache.Repr :: x in old(e.pg.cache.Repr) || fresh(x)
    ensures forall b | b in e.pg.Buffers() :: b in old(e.pg.Buffers()) || fresh(b)
    ensures OnlyPages(old(e.pg.file), e.pg.file, multiset{id})
    ensures var ins := LengthenBelow(e.cfg, t, key, val, |f0|, view);
      && S.InnerPages(e.cfg, e.pg.file, id, |old(e.pg.file)|, ins.out)
      && |e.pg.file| == ins.pages && S.Reports(e.cfg.acc, ins.out, mk, mv, newId, split)
  {
    hide Repr, NodeOf, HoldsNode, S.Ascending, Position, InnerPut, S.InnerPages, OnlyPages, S.Reports, LruCache.Valid,
      Ids, Legal, P.Slots, LengthenBelow, Longer, P.Pager.Ready, P.Pager.Valid, P.Pager.Coherent, Accesses;
    ghost var sub := LengthenBelow(e.cfg, t.kids[i], key, val, |f0|, view).out;
    mk, mv, newId, split := e.InsertIntoInner(id, mk0, mv0, rc, t, i, sub.l, sub.r);
  }

  // ---------------------------------------------------------------- Insert

  /**
   What Insert leaves in that case. Reads see the tree after, whose records are the wanted ones exactly when the node
   stayed in the cache and nothing was to the left of the cell. Unless the child behind the cell split, the file holds
   the other tree, in which the key is there twice.
   */
  ghost predicate Lengthened(cfg: Cfg, f0: seq<Page>, file: seq<Page>, seen: seq<Page>, stale: set<nat>, root: nat,
      t: Tree, key: int, val: Value, view: View)
    requires Longer(t, key, val)
  {
    var after, onFile := LengthenDb(cfg, Db(t, |f0|), key, val, view), LengthenDb(cfg, Db(t, |f0|), key, val, OnFile);
    && after.Db? && Holds(cfg, seen, after.t) && |seen| == |file| == after.pages
    && root == after.t.id && S.HeaderId(seen) == S.HeaderId(file) == root
    && (Entries(BTreeAcc, after.t) == Put(Entries(BTreeAcc, t), key, val) <==> view.InCache? && LeftOf(t, key) == [])
    && |Entries(BTreeAcc, after.t)| == |Entries(BTreeAcc, t)| + (if view.OnFile? then 1 else -|LeftOf(t, key)|)
    && if Written(cfg, t, key, val, |f0|) then seen == file && stale == {}
       else
         && stale == (if view.InCache? then {Holder(t, key).id} else {})
         && onFile.Db? && Holds(cfg, file, onFile.t) && root == onFile.t.id
         && |Entries(BTreeAcc, onFile.t)| == |Entries(BTreeAcc, t)| + 1
  }

  lemma RootCan(cfg: Cfg, file: seq<Page>, t: Tree, key: int, val: Value, view: View)
    requires S.Stored(cfg, file, t) && IsKey(key) && |val| < 0x1_0000 && cfg.acc.BTreeAcc? && Longer(t, key, val)
    requires var db := LengthenDb(cfg, Db(t, |file|), key, val, view); db.Db? && db.pages < INVALID_PAGE
    ensures CanLengthen(cfg, file, t, key, val, view, MIN_KEY, MAX_KEY + 1)
    ensures t.id < |file| && |file| >= 3 && HEADER <= cfg.pageSize < 0x1_0000 && 1 !in Pages(t)
    ensures Ordered(BTreeAcc, false, t, MIN_KEY, MAX_KEY + 1)
  {
    hide Holds, Ordered, LengthenBelow, Pages, Uniform, Leaves, Chained, Fresh, Used, Fits, Longer, U32;
    forall x: nat
      ensures Fresh(2, |file|)[x] <= 1 && (x in Pages(t) ==> 2 <= x < |file|)
    {
      FreshCount(2, |file|, x);
    }
    S.HeldFacts(cfg, file, t);
  }

  /** The root did not split. */
  lemma RootDone(cfg: Cfg, f0: seq<Page>, file: seq<Page>, seen: seq<Page>, stale: set<nat>, t: Tree, key: int,
      val: Value, view: View, mk: int, mv: Value, newId: nat)
    requires S.Stored(cfg, f0, t) && IsKey(key) && |val| < 0x1_0000 && cfg.acc.BTreeAcc? && Longer(t, key, val)
    requires var db := LengthenDb(cfg, Db(t, |f0|), key, val, view); db.Db? && db.pages < INVALID_PAGE
    requires Left(cfg, f0, file, seen, stale, t, key, val, view, mk, mv, newId, false)
    ensures Lengthened(cfg, f0, file, seen, stale, t.id, t, key, val, view)
  {
    hide Holds, Ordered, LengthenBelow, Pages, Longer, U32, Used, Fits, LeftOf, Holder, InsRec, Invariant, Put, Entries;
    RootCan(cfg, f0, t, key, val, view);
    LengthenedShape(cfg, t, key, val, |f0|, view, MIN_KEY, MAX_KEY + 1);
    LengthenedShape(cfg, t, key, val, |f0|, OnFile, MIN_KEY, MAX_KEY + 1);
    DbExactly(cfg, Db(t, |f0|), key, val, view, MIN_KEY, MAX_KEY + 1);
    if !Written(cfg, t, key, val, |f0|) {
      OnFileDone(cfg, t, key, val, |f0|);
      DbExactly(cfg, Db(t, |f0|), key, val, OnFile, MIN_KEY, MAX_KEY + 1);
    }
  }

  /** The root split: what the new root relies on. */
  ghost predicate Growing(cfg: Cfg, f0: seq<Page>, file: seq<Page>, t: Tree, key: int, val: Value, view: View, mk: int,
      mv: Value, newId: nat) {
    && Longer(t, key, val) && HEADER <= cfg.pageSize < 0x1_0000 && 3 <= |file| < INVALID_PAGE
    && var out := LengthenBelow(cfg, t, key, val, |f0|, view).out;
      && out.Split? && out.m == KV(mk, mv) && Holds(cfg, file, out.l) && Holds(cfg, file, out.r)
      && out.l.id == t.id < |file| && out.r.id == newId < |file| && 1 !in Pages(out.l) + Pages(out.r)
      && Legal(cfg.acc, false, Cell(mk, mv, 0)) && Fits(cfg, false, [out.m])
      && LengthenDb(cfg, Db(t, |f0|), key, val, view) == Db(S.NewRoot(cfg, |file|, out.l, out.m, out.r), |file| + 1)
  }

  lemma RootSplit(cfg: Cfg, f0: seq<Page>, file: seq<Page>, seen: seq<Page>, stale: set<nat>, t: Tree, key: int,
      val: Value, view: View, mk: int, mv: Value, newId: nat)
    requires S.Stored(cfg, f0, t) && IsKey(key) && |val| < 0x1_0000 && cfg.acc.BTreeAcc? && Longer(t, key, val)
    requires var db := LengthenDb(cfg, Db(t, |f0|), key, val, view); db.Db? && db.pages < INVALID_PAGE
    requires Left(cfg, f0, file, seen, stale, t, key, val, view, mk, mv, newId, true)
    ensures stale == {} && seen == file && Written(cfg, t, key, val, |f0|)
    ensures Growing(cfg, f0, file, t, key, val, view, mk, mv, newId)
  {
    hide Holds, Ordered, LengthenBelow, Pages, Longer, U32, Used, Fits, LeftOf, Holder, InsRec, Invariant, Legal,
      Written;
    RootCan(cfg, f0, t, key, val, view);
    LengthenedShape(cfg, t, key, val, |f0|, view, MIN_KEY, MAX_KEY + 1);
    NewIdsBelow(cfg, t, key, val, |f0|, view);
    var out := LengthenBelow(cfg, t, key, val, |f0|, view).out;
    S.HeldFacts(cfg, file, out.l);
    S.HeldFacts(cfg, file, out.r);
  }

  lemma RootGrown(cfg: Cfg, f0: seq<Page>, f1: seq<Page>, f2: seq<Page>, t: Tree, key: int, val: Value, view: View,
      mk: int, mv: Value, newId: nat)
    requires cfg.acc.BTreeAcc? && Ordered(BTreeAcc, false, t, MIN_KEY, MAX_KEY + 1) && IsKey(key)
    requires Growing(cfg, f0, f1, t, key, val, view, mk, mv, newId) && Written(cfg, t, key, val, |f0|)
    requires var out := LengthenBelow(cfg, t, key, val, |f0|, view).out;
      |f2| == |f1| + 1 && S.HeaderId(f2) == |f1| && Holds(cfg, f2, S.NewRoot(cfg, |f1|, out.l, out.m, out.r))
    ensures Lengthened(cfg, f0, f2, f2, {}, |f1|, t, key, val, view)
  {
    hide Holds, Ordered, LengthenBelow, Pages, Longer, U32, Used, Fits, LeftOf, Holder, InsRec, Legal, Written, Put,
      Entries, LengthenDb;
    DbExactly(cfg, Db(t, |f0|), key, val, view, MIN_KEY, MAX_KEY + 1);
  }

  /** Insert when its key is in an internal node, with a shorter value. */
  method InsertLonger(e: S.PageTree, key: int, val: Value) returns (ghost seen: seq<Page>)
    requires e.Valid() && IsKey(key) && |val| < 0x1_0000 && e.cfg.acc.BTreeAcc? && Longer(e.tree, key, val)
    requires var db := LengthenDb(e.cfg, Db(e.tree, |e.pg.file|), key, val,
                                  ViewAfter(e.cfg, e.tree, key, val, |e.pg.file|, e.pg.cache.cap));
      db.Db? && db.pages < INVALID_PAGE
    modifies e, e.pg, e.pg.cache, e.pg.cache.Repr, e.pg.Buffers()
    ensures e.pg.Ready() && e.pg.Shows(seen) && Longer(old(e.tree), key, val)
    ensures Lengthened(e.cfg, old(e.pg.file), e.pg.file, seen, e.pg.stale, e.rootId, old(e.tree), key, val,
                       ViewAfter(e.cfg, old(e.tree), key, val, |old(e.pg.file)|, e.pg.cache.cap))
  {
    hide *;
    ghost var f0, t, view := e.pg.file, e.tree, ViewAfter(e.cfg, e.tree, key, val, |e.pg.file|, e.pg.cache.cap);
    AtRoot(e);
    RootCan(e.cfg, f0, t, key, val, view);
    var mk, mv, rightId, split;
    mk, mv, rightId, split, seen := LengthenRec(e, e.rootId, key, val, t, view, MIN_KEY, MAX_KEY + 1);
    if !split {
      RootDone(e.cfg, f0, e.pg.file, seen, e.pg.stale, t, key, val, view, mk, mv, rightId);
    } else {
      ghost var f1 := e.pg.file;
      RootSplit(e.cfg, f0, f1, seen, e.pg.stale, t, key, val, view, mk, mv, rightId);
      Grow(e, mk, mv, rightId, t, key, val, view, f0);
      seen := e.pg.file;
      RootGrown(e.cfg, f0, f1, seen, t, key, val, view, mk, mv, rightId);
      Agreed(e);
    }
  }

  lemma AtRoot(e: S.PageTree)
    requires e.Valid()
    ensures e.pg.Ready() && e.pg.stale == {} && e.pg.pageSize == e.cfg.pageSize && e.tree.id == e.rootId
    ensures S.Stored(e.cfg, e.pg.file, e.tree) && (e as object) !in e.pg.Buffers()
  {
  }

  method Grow(e: S.PageTree, mk: int, mv: Value, rightId: nat, ghost t: Tree, ghost key: int, ghost val: Value,
      ghost view: View, ghost f0: seq<Page>)
    requires e.pg.Ready() && e.pg.stale == {} && e.pg.pageSize == e.cfg.pageSize && e.rootId == t.id
    requires Growing(e.cfg, f0, e.pg.file, t, key, val, view, mk, mv, rightId)
    modifies e, e.pg, e.pg.cache, e.pg.cache.Repr, e.pg.Buffers()
    ensures e.pg.Ready() && e.pg.stale == {}
    ensures |e.pg.file| == |old(e.pg.file)| + 1 && S.HeaderId(e.pg.file) == e.rootId == |old(e.pg.file)|
    ensures var out := LengthenBelow(e.cfg, t, key, val, |f0|, view).out;
      Holds(e.cfg, e.pg.file, S.NewRoot(e.cfg, |old(e.pg.file)|, out.l, out.m, out.r))
  {
    hide Repr, Holds, Pages, Fits, S.NewRoot, S.HeaderId, LruCache.Valid, Ids, Legal, P.Slots, LengthenBelow, Longer,
      P.Pager.Ready, P.Pager.Valid, P.Pager.Coherent, LengthenDb;
    ghost var out := LengthenBelow(e.cfg, t, key, val, |f0|, view).out;
    e.GrowRoot(mk, mv, rightId, out.l, out.r);
  }

  // ---------------------------------------------------------------- later reads

  /** Every later read gives the cached copy as long as that is cached, and from then on the page in the file. */
  method ReadLater(e: S.PageTree, id: nat, x: nat, ghost seen: seq<Page>) returns (p: array<byte>, ghost now: seq<Page>)
    requires e.pg.Ready() && e.pg.Shows(seen) && e.pg.stale == {id} && x < |e.pg.file|
    modifies e.pg.cache, e.pg.cache.Repr
    ensures e.pg.Ready() && p[..] == seen[x] && e.pg.Shows(now)
    ensures now == if id in e.pg.CachedIds() then seen else e.pg.file
    ensures e.pg.CachedIds() == Accessed(old(e.pg.CachedIds()), e.pg.cache.cap, x)
  {
    hide LruCache.Valid, Ids, Accessed, IndexOf;
    ghost var m := e.pg.cache.model;
    e.pg.cache.DistinctModel();
    forall y | 0 <= y < |e.pg.file|
      ensures y != id ==> seen[y] == e.pg.file[y]
      ensures forall s | s in m && s.id == y :: s.page[..] == seen[y]
    {
      P.OnlySlot(m, y);
    }
    p := e.pg.Read(x, {});
    CachedSlot(e.pg.cache.model, id);
    now := if id in e.pg.CachedIds() then seen else e.pg.file;
    forall y | 0 <= y < |e.pg.file|
      ensures e.pg.Sees(y) == now[y]
    {
      AtIndex(e.pg.cache.model, y);
    }
  }

  lemma AtIndex(m: seq<Slot>, id: nat)
    ensures IndexOf(m, id) < |m| ==> m[IndexOf(m, id)] in m && m[IndexOf(m, id)].id == id
  {
  }
}
