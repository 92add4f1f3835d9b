/** The shared B-tree engine (shared.Tree): search, insert and split on the pages of a pager. */
module Shared {
  import opened Bytes
  import opened Records
  import opened TreeModel
  import opened Order
  import opened Shape
  import opened Layout
  import opened PageOps
  import opened Refine
  import opened Lru
  import opened Database
  import opened Contents
  import opened Search
  import opened Recency
  import opened Trace
  import P = Pager

  /** Cells and records agree key by key and value by value. */
  ghost predicate SameRecords(cells: seq<Cell>, kvs: seq<KV>) {
    |cells| == |kvs| && forall i | 0 <= i < |kvs| :: cells[i].key == kvs[i].key && cells[i].val == kvs[i].val
  }

  lemma NodeRecords(t: Tree)
    requires t.Inner? ==> |t.kids| == |t.kvs| + 1
    ensures SameRecords(NodeOf(t).cells, t.kvs)
  {
  }

  lemma NodeKind(t: Tree)
    requires t.Inner? ==> |t.kids| == |t.kvs| + 1
    ensures NodeOf(t).leaf == t.Leaf?
  {
  }

  ghost predicate Ascending(kvs: seq<KV>) {
    forall i, j | 0 <= i < j < |kvs| :: kvs[i].key <= kvs[j].key
  }

  /** FindIdx: binary search on the page finds what the linear search of the model finds. */
  method FindIdx(cfg: Cfg, p: array<byte>, key: int, n: nat, leaf: bool, ghost nd: Node, ghost kvs: seq<KV>)
    returns (lo: nat)
    requires Repr(cfg, p[..], nd) && n == |nd.cells| && leaf == nd.leaf
    requires SameRecords(nd.cells, kvs) && Ascending(kvs)
    ensures lo == Position(kvs, key, cfg.acc.Upper(leaf)) <= n
  {
    hide Repr, Body, CellPtr, DecodeCell, Position;
    lo := 0;
    var hi := n;
    while lo < hi
      invariant lo <= hi <= n
      invariant forall j | 0 <= j < lo :: kvs[j].key < key || (cfg.acc.Upper(leaf) && kvs[j].key == key)
      invariant forall j | hi <= j < n :: !(kvs[j].key < key || (cfg.acc.Upper(leaf) && kvs[j].key == key))
    {
      var m := (lo + hi) / 2;
      ReadSlot(cfg, p[..], nd, m);
      var k := ReadCell(cfg.acc, p[..], m, leaf).key;
      assert k == kvs[m].key;
      if k < key || (!leaf && k == key && cfg.acc.CopyUp()) {
        lo := m + 1;
      } else {
        hi := m;
      }
    }
    PositionUnique(kvs, key, cfg.acc.Upper(leaf), lo);
  }

  lemma ReadSlot(cfg: Cfg, s: Page, nd: Node, i: nat)
    requires Repr(cfg, s, nd) && i < |nd.cells|
    ensures HEADER + SLOT * i + SLOT <= |s| && CellPtr(s, i) + cfg.acc.CellSize(nd.leaf, 0) <= |s|
    ensures ReadCell(cfg.acc, s, i, nd.leaf) == nd.cells[i] && Legal(cfg.acc, nd.leaf, nd.cells[i])
  {
    hide CellAt, CellOk, Apart;
    ReadCellRight(cfg, s, nd, i);
  }

  /** AppendCell, once for each cell of a list that fits an empty page. */
  method AppendAll(cfg: Cfg, p: array<byte>, leaf: bool, cells: seq<Cell>)
    requires Repr(cfg, p[..], Node(leaf, [], 0, INVALID_PAGE, cfg.pageSize))
    requires FitsCells(cfg, leaf, cells) && forall i | 0 <= i < |cells| :: Legal(cfg.acc, leaf, cells[i])
    modifies p
    ensures Repr(cfg, p[..], Node(leaf, cells, 0, INVALID_PAGE, cfg.pageSize - UsedBy(cfg, leaf, cells)))
  {
    hide Repr, Body, SizeOf;
    for i := 0 to |cells|
      invariant UsedBy(cfg, leaf, cells[..i]) <= cfg.pageSize
      invariant Repr(cfg, p[..], Node(leaf, cells[..i], 0, INVALID_PAGE, cfg.pageSize - UsedBy(cfg, leaf, cells[..i])))
    {
      FitsPrefix(cfg, leaf, cells, i + 1);
      assert cells[..i + 1][..i] == cells[..i] && cells[..i + 1][i] == cells[i];
      assert cells[..i] + [cells[i]] == cells[..i + 1];
      AppendCell(cfg, p, cells[i],
        Node(leaf, cells[..i], 0, INVALID_PAGE, cfg.pageSize - UsedBy(cfg, leaf, cells[..i])));
    }
    assert cells[..|cells|] == cells;
  }

  /** The cells of a page, read one by one. */
  method ReadAll(cfg: Cfg, p: array<byte>, n: nat, leaf: bool, ghost nd: Node) returns (cells: seq<Cell>)
    requires Repr(cfg, p[..], nd) && n == |nd.cells| && leaf == nd.leaf
    ensures cells == nd.cells && forall i | 0 <= i < n :: Legal(cfg.acc, leaf, cells[i])
  {
    hide Repr, Body, CellPtr, DecodeCell;
    cells := [];
    for i := 0 to n
      invariant cells == nd.cells[..i] && forall j | 0 <= j < i :: Legal(cfg.acc, leaf, cells[j])
    {
      ReadSlot(cfg, p[..], nd, i);
      cells := cells + [ReadCell(cfg.acc, p[..], i, leaf)];
    }
  }

  /** The cells of a page with the new one at idx, its right neighbour pointing to the new child. */
  method GatherCells(cfg: Cfg, p: array<byte>, n: nat, idx: nat, key: int, val: Value, right: nat, ghost nd: Node)
    returns (all: seq<Cell>)
    requires Repr(cfg, p[..], nd) && idx <= n == |nd.cells| && right < 0x1_0000_0000
    requires Legal(cfg.acc, nd.leaf, Cell(key, val, 0))
    ensures all == AllCells(nd, idx, key, val, right)
    ensures forall i | 0 <= i < |all| :: Legal(cfg.acc, nd.leaf, all[i])
  {
    hide Body, CellPtr, DecodeCell, CellAt;
    BodySize(cfg, p[..], nd);
    var leaf := IsLeaf(p[..]);
    var cells := ReadAll(cfg, p, n, leaf, nd);
    var left := 0;
    if !leaf {
      ChildRight(cfg, p[..], nd, idx);
      if idx < n {
        ReadSlot(cfg, p[..], nd, idx);
      }
      left := ChildAt(cfg.acc, p[..], idx, n);
    }
    all := InsertAt(cells, idx, Cell(key, val, left));
    if !leaf && idx < n {
      all := all[idx + 1 := all[idx + 1].(left := right)];
    }
  }

  /** The two pages of a split, written anew. */
  method Redistribute(cfg: Cfg, p: array<byte>, q: array<byte>, leaf: bool, all: seq<Cell>, rightmost: nat, next: nat,
      newId: nat)
    requires p != q && HEADER <= p.Length == q.Length == cfg.pageSize < 0x1_0000
    requires all != [] && forall i | 0 <= i < |all| :: Legal(cfg.acc, leaf, all[i])
    requires HalvesFit(cfg, leaf, all)
    requires rightmost < 0x1_0000_0000 && next < 0x1_0000_0000 && newId < 0x1_0000_0000
    modifies p, q
    ensures Repr(cfg, p[..], LeftHalf(cfg, leaf, all, newId))
    ensures Repr(cfg, q[..], RightHalf(cfg, leaf, all, rightmost, next))
  {
    hide Repr, Body, UsedBy;
    var mid := |all| / 2;
    var left, right := all[..mid], RightCells(cfg.acc, leaf, all);
    ghost var nl := Node(leaf, left, 0, INVALID_PAGE, cfg.pageSize - UsedBy(cfg, leaf, left));
    ghost var nr := Node(leaf, right, 0, INVALID_PAGE, cfg.pageSize - UsedBy(cfg, leaf, right));
    InitPage(cfg, p, leaf);
    InitPage(cfg, q, leaf);
    AppendAll(cfg, p, leaf, left);
    if leaf {
      AppendAll(cfg, q, leaf, right);
      if cfg.acc.CopyUp() {
        PutNextLeaf(cfg, p, newId, nl);
        PutNextLeaf(cfg, q, next, nr);
      }
    } else {
      PutRightmost(cfg, p, all[mid].left, nl);
      AppendAll(cfg, q, leaf, right);
      PutRightmost(cfg, q, rightmost, nr);
    }
  }

  /** What doInsert at node nd on page id makes of the file, and what it reports. */
  ghost predicate NodeInserted(cfg: Cfg, was: seq<Page>, now: seq<Page>, id: nat, nd: Node, idx: nat, key: int,
      val: Value, right: nat, mk: int, mv: Value, newId: nat, split: bool)
    requires idx <= |nd.cells|
  {
    && |was| <= |now|
    && (forall x: nat | x < |was| && x != id :: now[x] == was[x])
    && split == (FreeSpace(nd.content, |nd.cells|) < cfg.acc.CellSize(nd.leaf, |val|))
    && (!split ==>
          && nd.content >= cfg.acc.CellSize(nd.leaf, |val|)
          && |now| == |was|
          && HoldsNode(cfg, now, id, AddCell(cfg.acc, nd, idx, key, val, right)))
    && (split ==>
          var all := AllCells(nd, idx, key, val, right);
          && newId == |was| && |now| == newId + 1
          && HoldsNode(cfg, now, id, LeftHalf(cfg, nd.leaf, all, newId))
          && HoldsNode(cfg, now, newId,
                       RightHalf(cfg, nd.leaf, all,
                           if !nd.leaf && idx == |nd.cells| then right else nd.rightmost, nd.next))
          && mk == all[|all| / 2].key && mv == PromotedVal(cfg.acc, nd.leaf, all[|all| / 2])
          && Legal(cfg.acc, false, Cell(mk, mv, 0)))
  }

  /** What insertRec reports about its outcome. */
  ghost predicate Reports(acc: Acc, out: Out, mk: int, mv: Value, newId: nat, split: bool) {
    && split == out.Split?
    && (out.Split? ==> mk == out.m.key && mv == out.m.val && newId == out.r.id && Legal(acc, false, Cell(mk, mv, 0)))
  }

  /** doInsert on a leaf page does what LeafPut says. */
  lemma LeafInserted(cfg: Cfg, was: seq<Page>, now: seq<Page>, t: Tree, idx: nat, kv: KV, mk: int, mv: Value,
      newId: nat, split: bool)
    requires t.Leaf? && idx <= |t.kvs| && !LeafPut(cfg, t, idx, kv, |was|).out.Broken?
    requires NodeInserted(cfg, was, now, t.id, NodeOf(t), idx, kv.key, kv.val, 0, mk, mv, newId, split)
    ensures var ins := LeafPut(cfg, t, idx, kv, |was|);
      HoldsOut(cfg, now, ins.out) && |now| == ins.pages && Reports(cfg.acc, ins.out, mk, mv, newId, split)
  {
    hide HoldsNode, AllCells, LeftHalf, RightHalf, AddCell, RightCells, PromotedVal, HalvesFit, LeafCells, LeafPut,
      Legal;
    var ins := LeafPut(cfg, t, idx, kv, |was|);
    LeafPutForm(cfg, t, idx, kv, |was|);
    if ins.out.Done? {
      LeafDoneNode(cfg, t, idx, kv, |was|);
    } else {
      LeafSplitNodes(cfg, t, idx, kv, |was|);
    }
  }

  /** doInsert on an internal page does to that page, and the new one, what InnerPut says. */
  ghost predicate InnerPages(cfg: Cfg, now: seq<Page>, id: nat, pages: nat, out: Out) {
    && !out.Broken?
    && (out.Done? ==> out.t.Inner? && |out.t.kids| == |out.t.kvs| + 1 && HoldsNode(cfg, now, id, NodeOf(out.t)))
    && (out.Split? ==>
          && out.l.Inner? && out.r.Inner? && |out.l.kids| == |out.l.kvs| + 1 && |out.r.kids| == |out.r.kvs| + 1
          && HoldsNode(cfg, now, id, NodeOf(out.l)) && HoldsNode(cfg, now, pages, NodeOf(out.r)))
  }

  lemma InnerInserted(cfg: Cfg, was: seq<Page>, now: seq<Page>, t: Tree, idx: nat, l: Tree, m: KV, r: Tree, mk: int,
      mv: Value, newId: nat, split: bool)
    requires t.Inner? && |t.kids| == |t.kvs| + 1 && idx <= |t.kvs| && l.id == t.kids[idx].id
    requires !InnerPut(cfg, t, idx, l, m, r, |was|).out.Broken?
    requires NodeInserted(cfg, was, now, t.id, NodeOf(t), idx, m.key, m.val, r.id, mk, mv, newId, split)
    ensures var ins := InnerPut(cfg, t, idx, l, m, r, |was|);
      && InnerPages(cfg, now, t.id, |was|, ins.out)
      && |now| == ins.pages && Reports(cfg.acc, ins.out, mk, mv, newId, split)
  {
    hide HoldsNode, AllCells, LeftHalf, RightHalf, AddCell, RightCells, PromotedVal, HalvesFit, InnerCells, InnerPut,
      Legal;
    var ins := InnerPut(cfg, t, idx, l, m, r, |was|);
    InnerPutForm(cfg, t, idx, l, m, r, |was|);
    if ins.out.Done? {
      InnerDoneNode(cfg, t, idx, l, m, r, |was|);
    } else {
      InnerSplitNodes(cfg, t, idx, l, m, r, |was|);
    }
  }

  /** The root page id that the tree's header page records. */
  ghost function HeaderId(file: seq<Page>): nat {
    if |file| > 1 && |file[1]| >= 4 then U32(file[1], 0) else 0
  }

  lemma LeafTrace(cfg: Cfg, f0: seq<Page>, f1: seq<Page>, t: Tree, idx: nat, key: int, val: Value, mk: int, mv: Value,
      newId: nat, split: bool, ids: seq<nat>, mid: seq<nat>, ids': seq<nat>, cap: nat)
    requires t.Leaf? && idx == Position(t.kvs, key, cfg.acc.Upper(t.Leaf?))
    requires !(idx < |t.kvs| && t.kvs[idx].key == key && |val| <= |t.kvs[idx].val|)
    requires Effect(cfg, f0, f1, t, key, val, mk, mv, newId, split)
    requires Accesses(ids, mid, cap, [t.id]) && Accesses(mid, ids', cap, StoreTrace(split, t.id, newId))
    ensures Accesses(ids, ids', cap, Touched(cfg, t, key, val, |f0|))
  {
    hide InsRec, HoldsOut, OnlyPages, Legal, Position, Accesses;
    TouchedLeaf(cfg, t, key, val, |f0|, split, newId, ids, mid, ids', cap);
  }

  lemma DoneTrace(cfg: Cfg, f0: seq<Page>, f1: seq<Page>, t: Tree, idx: nat, key: int, val: Value, mk: int, mv: Value,
      newId: nat)
    requires t.Inner? && idx < |t.kids| && Effect(cfg, f0, f1, t.kids[idx], key, val, mk, mv, newId, false)
    ensures TouchedBelow(cfg, t, idx, key, val, |f0|) == Touched(cfg, t.kids[idx], key, val, |f0|)
  {
    hide InsRec, HoldsOut, OnlyPages, Legal, Touched;
  }

  lemma InnerTrace(cfg: Cfg, f0: seq<Page>, f1: seq<Page>, f2: seq<Page>, t: Tree, idx: nat, key: int, val: Value,
      l: Tree, m: KV, r: Tree, mk: int, mv: Value, newId: nat, split: bool, ids: seq<nat>, mid: seq<nat>,
      ids': seq<nat>, cap: nat)
    requires t.Inner? && |t.kids| == |t.kvs| + 1 && idx <= |t.kvs|
    requires InsRec(cfg, t.kids[idx], key, val, |f0|) == Ins(Split(l, m, r), |f1|)
    requires var ins := InnerPut(cfg, t, idx, l, m, r, |f1|);
      InsRec(cfg, t, key, val, |f0|) == ins && Reports(cfg.acc, ins.out, mk, mv, newId, split)
    requires Accesses(ids, mid, cap, Touched(cfg, t.kids[idx], key, val, |f0|))
    requires Accesses(mid, ids', cap, Again(split, t.id, newId))
    ensures Accesses(ids, ids', cap, TouchedBelow(cfg, t, idx, key, val, |f0|))
  {
    hide InsRec, InnerPut, Touched, Legal, Accesses;
    AccessesThen(ids, mid, ids', cap, Touched(cfg, t.kids[idx], key, val, |f0|), Again(split, t.id, newId));
    InnerPutForm(cfg, t, idx, l, m, r, |f1|);
  }

  /**
   What insertRec does to the file: exactly the pages of the tree change, to what InsRec says, and new pages follow.
   */
  ghost predicate Effect(cfg: Cfg, was: seq<Page>, now: seq<Page>, t: Tree, key: int, val: Value, mk: int, mv: Value,
      newId: nat, split: bool) {
    var ins := InsRec(cfg, t, key, val, |was|);
    && OnlyPages(was, now, Pages(t))
    && HoldsOut(cfg, now, ins.out)
    && |now| == ins.pages
    && Reports(cfg.acc, ins.out, mk, mv, newId, split)
  }

  lemma EffectOverwrite(cfg: Cfg, f0: seq<Page>, f1: seq<Page>, t: Tree, idx: nat, key: int, val: Value, mk: int,
      mv: Value, newId: nat, lo: int, hi: int)
    requires CanSearch(cfg, f0, t, key, val, lo, hi) && (t.Inner? ==> |t.kids| == |t.kvs| + 1)
    requires idx == Position(t.kvs, key, cfg.acc.Upper(t.Leaf?)) && idx < |t.kvs| && t.kvs[idx].key == key
        && |val| <= |t.kvs[idx].val|
    requires Overwrote(cfg, f0, f1, t, idx, key, val)
    ensures Effect(cfg, f0, f1, t, key, val, mk, mv, newId, false)
  {
    hide HoldsNode, NodeOf, Ordered, HoldsAll, PagesOf;
    if t.Inner? {
      assert t.id !in PagesOf(t.kids) by {
        assert Pages(t)[t.id] == 1 + PagesOf(t.kids)[t.id];
      }
      HoldsAllFrame(cfg, f0, f1, t.kids);
    }
  }

  lemma AtLeaf(cfg: Cfg, f0: seq<Page>, t: Tree, idx: nat, key: int, val: Value, lo: int, hi: int)
    requires CanRec(cfg, f0, t, key, val, lo, hi) && t.Leaf?
    requires idx == Position(t.kvs, key, cfg.acc.Upper(t.Leaf?)) && idx <= |t.kvs|
    requires idx < |t.kvs| && t.kvs[idx].key == key ==> |val| > |t.kvs[idx].val|
    ensures WithoutKey(t, idx, key).Leaf? && WithoutKey(t, idx, key).id == t.id && idx <= |WithoutKey(t, idx, key).kvs|
    ensures InsRec(cfg, t, key, val, |f0|) == LeafPut(cfg, WithoutKey(t, idx, key), idx, KV(key, val), |f0|)
    ensures !LeafPut(cfg, WithoutKey(t, idx, key), idx, KV(key, val), |f0|).out.Broken?
    ensures |f0| < INVALID_PAGE && MIN_KEY <= key <= MAX_KEY && |val| < 0x1_0000
  {
    hide Holds, Ordered, Position, Once;
    InsertMore(cfg, t, key, val, |f0|);
  }

  lemma InsertMore(cfg: Cfg, t: Tree, key: int, val: Value, pages: nat)
    ensures InsRec(cfg, t, key, val, pages).pages >= pages
    decreases t
  {
    hide Position, Used, Fits, RoomFor, InsertAt;
    var i := Position(t.kvs, key, cfg.acc.Upper(t.Leaf?));
    if t.Inner? && |t.kids| == |t.kvs| + 1 {
      InsertMore(cfg, t.kids[i], key, val, pages);
    }
  }

  lemma EffectLeaf(cfg: Cfg, f0: seq<Page>, f1: seq<Page>, t: Tree, idx: nat, key: int, val: Value, mk: int, mv: Value,
      newId: nat, split: bool, lo: int, hi: int)
    requires CanRec(cfg, f0, t, key, val, lo, hi) && t.Leaf?
    requires idx == Position(t.kvs, key, cfg.acc.Upper(t.Leaf?)) && idx <= |t.kvs|
    requires idx < |t.kvs| && t.kvs[idx].key == key ==> |val| > |t.kvs[idx].val|
    requires OnlyPages(f0, f1, multiset{t.id}) && idx <= |WithoutKey(t, idx, key).kvs| && WithoutKey(t, idx, key).Leaf?
    requires var ins := LeafPut(cfg, WithoutKey(t, idx, key), idx, KV(key, val), |f0|);
      HoldsOut(cfg, f1, ins.out) && |f1| == ins.pages && Reports(cfg.acc, ins.out, mk, mv, newId, split)
    ensures Effect(cfg, f0, f1, t, key, val, mk, mv, newId, split)
  {
    AtLeaf(cfg, f0, t, idx, key, val, lo, hi);
    hide InsRec, LeafPut, CanRec, HoldsOut, Reports, WithoutKey, Position;
  }

  /** What the descent into child idx relies on. */
  lemma AtChild(cfg: Cfg, f0: seq<Page>, t: Tree, idx: nat, key: int, val: Value, lo: int, hi: int)
    requires CanRec(cfg, f0, t, key, val, lo, hi) && t.Inner? && |t.kids| == |t.kvs| + 1
    requires idx == Position(t.kvs, key, cfg.acc.Upper(false)) && idx <= |t.kvs|
    requires idx < |t.kvs| ==> t.kvs[idx].key != key || |val| > |t.kvs[idx].val|
    ensures idx < |t.kvs| ==> t.kvs[idx].key != key
    ensures CanRec(cfg, f0, t.kids[idx], key, val, Lo(cfg.acc, t.kvs, idx, lo), Hi(t.kvs, idx, hi))
  {
    hide NodeOf, HoldsNode, NodeOrdered, PagesOf, KidsOrdered, Position, LeafPut, Used, Fits;
    DescentRange(cfg.acc, false, t, key, lo, hi);
    KidOrdered(cfg.acc, false, t.kvs, t.kids, idx, lo, hi);
    assert HoldsAll(cfg, f0, t.kids);
    forall x: nat
      ensures Pages(t.kids[idx])[x] <= Pages(t)[x]
    {
      InPagesOf(t.kids, idx, x);
    }
    var sub := InsRec(cfg, t.kids[idx], key, val, |f0|);
    if sub.out.Split? {
      InnerPutMore(cfg, t, idx, sub.out.l, sub.out.m, sub.out.r, sub.pages);
    }
    hide InnerPut;
  }

  lemma InnerPutMore(cfg: Cfg, t: Tree, idx: nat, l: Tree, m: KV, r: Tree, pages: nat)
    requires t.Inner? && |t.kids| == |t.kvs| + 1 && idx <= |t.kvs|
    ensures InnerPut(cfg, t, idx, l, m, r, pages).pages >= pages
  {
    hide Used, Fits, RoomFor, InsertAt;
  }

  /** The child pointer that the search picks on the page is the page id of child idx. */
  lemma ChildIsKid(cfg: Cfg, s: Page, t: Tree, idx: nat)
    requires t.Inner? && |t.kids| == |t.kvs| + 1 && idx <= |t.kvs| && Repr(cfg, s, NodeOf(t))
    ensures |s| >= HEADER
    ensures idx < |t.kvs| ==> HEADER + SLOT * idx + SLOT <= |s| && CellPtr(s, idx) + cfg.acc.CellSize(false, 0) <= |s|
    ensures ChildAt(cfg.acc, s, idx, |t.kvs|) == t.kids[idx].id
  {
    hide CellAt, CellOk, Apart;
    ChildRight(cfg, s, NodeOf(t), idx);
  }

  lemma EffectDone(cfg: Cfg, f0: seq<Page>, f1: seq<Page>, t: Tree, idx: nat, key: int, val: Value, mk: int, mv: Value,
      newId: nat, lo: int, hi: int)
    requires CanRec(cfg, f0, t, key, val, lo, hi) && t.Inner? && |t.kids| == |t.kvs| + 1
    requires idx == Position(t.kvs, key, cfg.acc.Upper(false)) && idx <= |t.kvs|
        && (idx < |t.kvs| ==> t.kvs[idx].key != key)
    requires Effect(cfg, f0, f1, t.kids[idx], key, val, mk, mv, newId, false)
    ensures Effect(cfg, f0, f1, t, key, val, mk, mv, newId, false)
  {
    hide Position, Ordered, Pages, OnlyPages;
    var sub := InsRec(cfg, t.kids[idx], key, val, |f0|);
    InsertIds(cfg, t.kids[idx], key, val, |f0|);
    assert sub.out.Done?;
    assert InsRec(cfg, t, key, val, |f0|) == Ins(Done(t.(kids := t.kids[idx := sub.out.t])), sub.pages);
    hide InsRec, Holds;
    DoneHolds(cfg, f0, f1, t, idx, sub.out.t);
  }

  ghost function NewRoot(cfg: Cfg, id: nat, l: Tree, m: KV, r: Tree): Tree
    requires Fits(cfg, false, [m])
  {
    Inner(id, [m], [l, r], cfg.pageSize - Used(cfg, false, [m]))
  }

  lemma NewRootNode(cfg: Cfg, id: nat, l: Tree, m: KV, r: Tree)
    requires Fits(cfg, false, [m])
    ensures HEADER + SLOT + cfg.acc.CellSize(false, |m.val|) <= cfg.pageSize
    ensures var t := NewRoot(cfg, id, l, m, r);
      && t.Inner? && |t.kids| == |t.kvs| + 1
      && NodeOf(t) == Node(false, [Cell(m.key, m.val, l.id)], r.id, INVALID_PAGE,
                           cfg.pageSize - SizeOf(cfg.acc, false, Cell(m.key, m.val, l.id)))
  {
    assert [m][..0] == [];
    assert Used(cfg, false, [m]) == Used(cfg, false, []) + cfg.acc.CellSize(false, |m.val|);
    assert InnerCells([m], [l, r]) == [Cell(m.key, m.val, l.id)];
  }

  lemma NewRootHolds(cfg: Cfg, f0: seq<Page>, f1: seq<Page>, f2: seq<Page>, l: Tree, m: KV, r: Tree)
    requires Fits(cfg, false, [m]) && Holds(cfg, f0, l) && Holds(cfg, f0, r) && 1 !in Pages(l) + Pages(r)
    requires |f0| >= 3 && |f1| == |f2| == |f0| + 1 && OnlyPages(f1, f2, multiset{1})
    requires forall x: nat | x < |f0| :: f1[x] == f0[x]
    requires var t := NewRoot(cfg, |f0|, l, m, r);
      t.Inner? && |t.kids| == |t.kvs| + 1 && HoldsNode(cfg, f1, |f0|, NodeOf(t))
    ensures Holds(cfg, f2, NewRoot(cfg, |f0|, l, m, r))
  {
    hide Repr, NodeOf, Pages, Fits, Used;
    HoldsFrame(cfg, f0, f2, l);
    HoldsFrame(cfg, f0, f2, r);
    var t := NewRoot(cfg, |f0|, l, m, r);
    assert HoldsAll(cfg, f2, t.kids);
  }

  /** Only the tree's root page changed: its cell idx has the new value. */
  ghost predicate Overwrote(cfg: Cfg, was: seq<Page>, now: seq<Page>, t: Tree, idx: nat, key: int, val: Value) {
    && (t.Inner? ==> |t.kids| == |t.kvs| + 1) && idx < |t.kvs|
    && OnlyPages(was, now, multiset{t.id}) && |now| == |was|
    && HoldsNode(cfg, now, t.id, NodeOf(t.(kvs := t.kvs[idx := KV(key, val)])))
  }

  /** The leaf after the deletion of an existing cell for key. */
  ghost function WithoutKey(t: Tree, idx: nat, key: int): Tree {
    if t.Leaf? && idx < |t.kvs| && t.kvs[idx].key == key then Leaf(t.id, RemoveAt(t.kvs, idx), t.content, t.next) else t
  }

  lemma OverwriteNode(t: Tree, idx: nat, val: Value)
    requires (t.Inner? ==> |t.kids| == |t.kvs| + 1) && idx < |t.kvs|
    ensures var nd := NodeOf(t);
      && idx < |nd.cells| && nd.leaf == t.Leaf? && nd.cells[idx].val == t.kvs[idx].val
      && NodeOf(t.(kvs := t.kvs[idx := KV(t.kvs[idx].key, val)]))
          == nd.(cells := nd.cells[idx := nd.cells[idx].(val := val)])
  {
  }

  lemma RemoveNode(t: Tree, idx: nat)
    requires t.Leaf? && idx < |t.kvs|
    ensures NodeOf(Leaf(t.id, RemoveAt(t.kvs, idx), t.content, t.next))
        == NodeOf(t).(cells := RemoveAt(NodeOf(t).cells, idx))
  {
  }

  /** The condition under which insertRec completes, on the tree that the pages hold. */
  ghost predicate CanRec(cfg: Cfg, file: seq<Page>, t: Tree, key: int, val: Value, lo: int, hi: int) {
    && Holds(cfg, file, t) && Once(Pages(t)) && Ordered(cfg.acc, false, t, lo, hi) && lo <= key < hi
    && MIN_KEY <= key <= MAX_KEY && |val| < 0x1_0000
    && !InsRec(cfg, t, key, val, |file|).out.Broken? && InsRec(cfg, t, key, val, |file|).pages < INVALID_PAGE
  }

  /** The condition under which insertRec can search a node, whatever happens further down. */
  ghost predicate CanSearch(cfg: Cfg, file: seq<Page>, t: Tree, key: int, val: Value, lo: int, hi: int) {
    && Holds(cfg, file, t) && Once(Pages(t)) && Ordered(cfg.acc, false, t, lo, hi) && lo <= key < hi
    && var i := Position(t.kvs, key, cfg.acc.Upper(t.Leaf?));
       i < |t.kvs| && t.kvs[i].key == key && |val| > |t.kvs[i].val| ==> t.Leaf?
  }

  lemma MaySearch(cfg: Cfg, file: seq<Page>, t: Tree, key: int, val: Value, lo: int, hi: int)
    requires CanRec(cfg, file, t, key, val, lo, hi)
    ensures CanSearch(cfg, file, t, key, val, lo, hi)
  {
    hide Holds, Pages, LeafPut, InnerPut, KidsOrdered, Once, Ordered;
  }

  /** What insertRec relies on at one node. */
  lemma AtEntry(cfg: Cfg, file: seq<Page>, t: Tree, key: int, val: Value, lo: int, hi: int)
    requires CanSearch(cfg, file, t, key, val, lo, hi)
    ensures t.Inner? ==> |t.kids| == |t.kvs| + 1
    ensures HoldsNode(cfg, file, t.id, NodeOf(t)) && NodeOf(t).leaf == t.Leaf? && SameRecords(NodeOf(t).cells, t.kvs)
    ensures |NodeOf(t).cells| == |t.kvs|
    ensures Ascending(t.kvs)
    ensures var i := Position(t.kvs, key, cfg.acc.Upper(t.Leaf?));
      && (i < |t.kvs| && t.kvs[i].key == key ==> !cfg.acc.Upper(t.Leaf?))
      && (i < |t.kvs| && t.kvs[i].key == key && |val| > |t.kvs[i].val| ==> t.Leaf?)
  {
    NodeRecords(t);
    hide HoldsNode, NodeOf, SameRecords, Pages, LeafPut, InnerPut, HoldsAll, KidsOrdered;
  }

  lemma RootNotBelow(t: Tree, i: nat, l: Tree, r: Tree, from: nat, to: nat)
    requires t.Inner? && i < |t.kids| && Once(Pages(t)) && t.id < from <= to
    requires Pages(l) + Pages(r) == Pages(t.kids[i]) + Fresh(from, to)
    ensures t.id !in PagesOf(InsertAt(t.kids[i := l], i + 1, r))
  {
    assert Pages(t)[t.id] == 1 + PagesOf(t.kids)[t.id];
    hide Pages, PagesOf, Fresh, InsertAt;
    ListSplit(t.kids, i);
    ListSplice(t.kids, i, l, r);
    FreshCount(from, to, t.id);
    assert (Pages(l) + Pages(r))[t.id] == Pages(t.kids[i])[t.id] + Fresh(from, to)[t.id];
  }

  /** An insert that split child i, put together: the child's pages, then the parent's page and perhaps a new one. */
  lemma SplitHolds(cfg: Cfg, f0: seq<Page>, f1: seq<Page>, f2: seq<Page>, t: Tree, i: nat, l: Tree, m: KV, r: Tree)
    requires t.Inner? && Holds(cfg, f0, t) && i < |t.kids| && Once(Pages(t))
    requires OnlyPages(f0, f1, Pages(t.kids[i])) && Holds(cfg, f1, l) && Holds(cfg, f1, r)
    requires |f0| <= |f1| && Pages(l) + Pages(r) == Pages(t.kids[i]) + Fresh(|f0|, |f1|)
    requires OnlyPages(f1, f2, multiset{t.id})
    requires i <= |t.kvs| && InnerPages(cfg, f2, t.id, |f1|, InnerPut(cfg, t, i, l, m, r, |f1|).out)
    ensures HoldsOut(cfg, f2, InnerPut(cfg, t, i, l, m, r, |f1|).out)
    ensures OnlyPages(f0, f2, Pages(t))
  {
    hide HoldsNode, NodeOf, InnerPut, Fresh, HoldsAll, PagesOf, InsertAt, Once;
    HeldFacts(cfg, f0, t);
    RootNotBelow(t, i, l, r, |f0|, |f1|);
    SiblingsKept(cfg, f0, f1, t, i);
    SpliceHolds(cfg, f1, t.kids, i, l, r);
    InnerPutHolds(cfg, f1, f2, t, i, l, m, r, |f1|);
  }

  /** An insert that left child i in place, put together. */
  lemma DoneHolds(cfg: Cfg, f0: seq<Page>, f1: seq<Page>, t: Tree, i: nat, c: Tree)
    requires t.Inner? && Holds(cfg, f0, t) && i < |t.kids| && Once(Pages(t)) && c.id == t.kids[i].id
    requires OnlyPages(f0, f1, Pages(t.kids[i])) && Holds(cfg, f1, c)
    ensures Holds(cfg, f1, t.(kids := t.kids[i := c])) && OnlyPages(f0, f1, Pages(t))
  {
    hide HoldsNode, NodeOf, Pages;
    SiblingsKept(cfg, f0, f1, t, i);
    HoldsReplace(cfg, f1, t, i, c);
  }

  lemma OnlyHere(cfg: Cfg, was: seq<Page>, now: seq<Page>, id: nat, nd: Node, idx: nat, key: int, val: Value,
      right: nat, mk: int, mv: Value, newId: nat, split: bool)
    requires idx <= |nd.cells|
    requires NodeInserted(cfg, was, now, id, nd, idx, key, val, right, mk, mv, newId, split)
    ensures OnlyPages(was, now, multiset{id})
  {
    hide HoldsNode, AllCells, LeftHalf, RightHalf, AddCell, Legal;
  }

  lemma PageFacts(cfg: Cfg, s: Page, nd: Node)
    requires Repr(cfg, s, nd)
    ensures |s| == cfg.pageSize && HEADER <= |s| < 0x1_0000 && IsLeaf(s) == nd.leaf && NumCells(s) == |nd.cells|
    ensures CellContent(s) == nd.content && Rightmost(s) == nd.rightmost && NextLeaf(s) == nd.next
    ensures HEADER + SLOT * |nd.cells| <= nd.content <= |s|
    ensures nd.rightmost < 0x1_0000_0000 && nd.next < 0x1_0000_0000
  {
    hide CellAt, CellOk, Apart;
    BodySize(cfg, s, nd);
    Widths();
  }

  /** What the insert at the parent relies on after child idx has split. */
  lemma AtParent(cfg: Cfg, f0: seq<Page>, f1: seq<Page>, t: Tree, idx: nat, key: int, val: Value, mk: int, mv: Value,
      newId: nat, lo: int, hi: int)
    requires CanRec(cfg, f0, t, key, val, lo, hi) && t.Inner? && |t.kids| == |t.kvs| + 1
    requires idx == Position(t.kvs, key, cfg.acc.Upper(false)) && idx <= |t.kvs|
        && (idx < |t.kvs| ==> t.kvs[idx].key != key)
    requires Effect(cfg, f0, f1, t.kids[idx], key, val, mk, mv, newId, true)
    ensures var sub := InsRec(cfg, t.kids[idx], key, val, |f0|);
      && sub.out.Split? && sub.out.m == KV(mk, mv) && sub.out.l.id == t.kids[idx].id && sub.pages == |f1|
          && newId == sub.out.r.id < 0x1_0000_0000
      && Position(t.kvs, mk, cfg.acc.Upper(false)) == idx
      && InsRec(cfg, t, key, val, |f0|) == InnerPut(cfg, t, idx, sub.out.l, KV(mk, mv), sub.out.r, |f1|)
      && !InnerPut(cfg, t, idx, sub.out.l, KV(mk, mv), sub.out.r, |f1|).out.Broken?
    ensures Legal(cfg.acc, false, Cell(mk, mv, 0)) && |f1| < INVALID_PAGE
    ensures HoldsNode(cfg, f1, t.id, NodeOf(t)) && Ascending(t.kvs)
  {
    hide Position, Ordered, Pages, NodeOf, HoldsNode, Ascending, SameRecords, PagesOf, Holds, HoldsOut, InnerPut,
      LeafPut, Legal;
    MaySearch(cfg, f0, t, key, val, lo, hi);
    AtEntry(cfg, f0, t, key, val, lo, hi);
    SiblingsKept(cfg, f0, f1, t, idx);
    var sub := InsRec(cfg, t.kids[idx], key, val, |f0|);
    InsertIds(cfg, t.kids[idx], key, val, |f0|);
    InnerPutMore(cfg, t, idx, sub.out.l, sub.out.m, sub.out.r, sub.pages);
  }

  lemma EffectSplit(cfg: Cfg, f0: seq<Page>, f1: seq<Page>, f2: seq<Page>, t: Tree, idx: nat, key: int, val: Value,
      mk0: int, mv0: Value, newId0: nat, mk: int, mv: Value, newId: nat, split: bool, lo: int, hi: int)
    requires CanRec(cfg, f0, t, key, val, lo, hi) && t.Inner? && |t.kids| == |t.kvs| + 1
    requires idx == Position(t.kvs, key, cfg.acc.Upper(false)) && idx <= |t.kvs|
        && (idx < |t.kvs| ==> t.kvs[idx].key != key)
    requires Effect(cfg, f0, f1, t.kids[idx], key, val, mk0, mv0, newId0, true)
    requires InsRec(cfg, t.kids[idx], key, val, |f0|).out.Split?
    requires OnlyPages(f1, f2, multiset{t.id})
    requires var sub := InsRec(cfg, t.kids[idx], key, val, |f0|);
      var ins := InnerPut(cfg, t, idx, sub.out.l, KV(mk0, mv0), sub.out.r, |f1|);
      && InnerPages(cfg, f2, t.id, |f1|, ins.out) && |f2| == ins.pages
        && Reports(cfg.acc, ins.out, mk, mv, newId, split)
    ensures Effect(cfg, f0, f2, t, key, val, mk, mv, newId, split)
  {
    AtParent(cfg, f0, f1, t, idx, key, val, mk0, mv0, newId0, lo, hi);
    var sub := InsRec(cfg, t.kids[idx], key, val, |f0|);
    InsertPages(cfg, t.kids[idx], key, val, |f0|);
    assert Once(Pages(t)) && Holds(cfg, f0, t) && Holds(cfg, f1, sub.out.l) && Holds(cfg, f1, sub.out.r);
    assert OnlyPages(f0, f1, Pages(t.kids[idx])) && |f0| <= |f1| == sub.pages;
    hide InsRec, CanRec, Holds, Pages, InnerPages, InnerPut, Reports, Position, Legal, Ascending, HoldsNode, Fresh;
    SplitHolds(cfg, f0, f1, f2, t, idx, sub.out.l, sub.out.m, sub.out.r);
  }

  /** No page of the tree is stale. */
  ghost predicate Clean(stale: set<nat>, t: Tree) {
    forall x | x in stale :: x !in Pages(t)
  }

  lemma CleanAround(stale: set<nat>, t: Tree, i: nat)
    requires Clean(stale, t)
    ensures t.id !in stale && (t.Inner? && i < |t.kids| ==> Clean(stale, t.kids[i]))
  {
    if t.Inner? && i < |t.kids| {
      forall x | x in stale
        ensures x !in Pages(t.kids[i])
      {
        InPagesOf(t.kids, i, x);
      }
    }
  }

  lemma InnerFacts(acc: Acc, t: Tree)
    requires t.Inner? && |t.kids| == |t.kvs| + 1
    ensures !NodeOf(t).leaf && |NodeOf(t).cells| == |t.kvs| && SameRecords(NodeOf(t).cells, t.kvs)
    ensures acc.BTreeAcc? ==> !acc.Upper(false)
  {
    NodeRecords(t);
  }

  /** The file holds a tree that a run of inserts can build, and the tree's header page names its root. */
  ghost predicate Stored(cfg: Cfg, file: seq<Page>, t: Tree) {
    |file| < INVALID_PAGE && Invariant(cfg, Db(t, |file|)) && Holds(cfg, file, t) && HeaderId(file) == t.id
  }

  /** A file that a clean Close leaves behind. */
  ghost predicate Closed(cfg: Cfg, file: seq<Page>, t: Tree) {
    && 3 <= |file| && (forall i | 0 <= i < |file| :: |file[i]| == cfg.pageSize) && HEADER <= cfg.pageSize < 0x1_0000
    && P.Pager.StoredCount(file) == |file|
    && Stored(cfg, file, t)
  }

  lemma HeldFacts(cfg: Cfg, file: seq<Page>, t: Tree)
    requires Holds(cfg, file, t)
    ensures t.id < |file| && HEADER <= cfg.pageSize < 0x1_0000
  {
    hide CellOk, Apart, NodeOf, HoldsAll;
  }

  lemma ClosedFile(cfg: Cfg, f0: seq<Page>, f1: seq<Page>, f2: seq<Page>, t: Tree)
    requires HEADER <= cfg.pageSize < 0x1_0000 && forall i | 0 <= i < |f2| :: |f2[i]| == cfg.pageSize
    requires |f0| == |f1| == |f2| < INVALID_PAGE && Invariant(cfg, Db(t, |f0|)) && Holds(cfg, f0, t)
    requires OnlyPages(f0, f1, multiset{1}) && f2[1..] == f1[1..] && HeaderId(f1) == t.id
    requires f2 != [] && P.Pager.StoredCount(f2) == |f2|
    ensures Closed(cfg, f2, t)
  {
    hide Holds, Pages, Ordered, Uniform, Chained, Leaves, U64, U32;
    forall x: nat | x < |f0| && x in Pages(t)
      ensures f2[x] == f0[x]
    {
      FreshCount(2, |f0|, x);
      assert f2[x] == f2[1..][x - 1] == f1[1..][x - 1] == f1[x];
    }
    HoldsFrame(cfg, f0, f2, t);
    assert f2[1] == f2[1..][0] == f1[1..][0] == f1[1];
  }

  /** The page of a new root: one cell between two children. */
  method WriteRoot(cfg: Cfg, p: array<byte>, c: Cell, rightId: nat)
    requires p.Length == cfg.pageSize < 0x1_0000 && HEADER + SLOT + SizeOf(cfg.acc, false, c) <= cfg.pageSize
    requires Legal(cfg.acc, false, c) && rightId < 0x1_0000_0000
    modifies p
    ensures Repr(cfg, p[..], Node(false, [c], rightId, INVALID_PAGE, cfg.pageSize - SizeOf(cfg.acc, false, c)))
  {
    hide Repr, Legal, SizeOf;
    InitPage(cfg, p, false);
    PutRightmost(cfg, p, rightId, Node(false, [], 0, INVALID_PAGE, cfg.pageSize));
    AppendCell(cfg, p, c, Node(false, [], rightId, INVALID_PAGE, cfg.pageSize));
    assert [] + [c] == [c];
  }

  class PageTree {
    const cfg: Cfg
    const pg: P.Pager
    var rootId: nat
    /** The tree that lies on the pages. */
    ghost var tree: Tree

    /**
     Between operations: cache and file agree, the file holds the tree, the tree is one a run of inserts can build.
     */
    ghost predicate Valid()
      reads this, pg, pg.cache, pg.cache.list, pg.Buffers()
    {
      && pg.Ready() && pg.stale == {} && pg.pageSize == cfg.pageSize
      && Stored(cfg, pg.file, tree) && rootId == tree.id
    }

    /** Open, of both trees: create the two header pages and an empty root leaf, or find the root of a closed file. */
    constructor Open(cfg: Cfg, file: seq<Page>, cachePages: nat, ghost t: Tree)
      requires HEADER <= cfg.pageSize < 0x1_0000 && (file == [] || Closed(cfg, file, t))
      ensures Valid() && this.cfg == cfg && pg.cache.cap == cachePages && fresh(pg) && fresh(pg.cache)
      ensures fresh(pg.cache.Repr) && forall b | b in pg.Buffers() :: fresh(b)
      ensures Db(tree, |pg.file|) == if file == [] then Empty(cfg) else Db(t, |file|)
    {
      hide LruCache.Valid, Ids, Accessed, Repr, U32, Invariant, Holds, P.Slots;
      this.cfg := cfg;
      pg := new P.Pager.Open(file, cachePages, cfg.pageSize);
      rootId := 0;
      tree := if file == [] then Empty(cfg).t else t;
      new;
      if pg.pageCount <= 2 {
        Create();
      } else {
        ReadHeader();
      }
    }

    /** The part of Open for a new file. */
    method Create()
      requires pg.Ready() && pg.stale == {} && |pg.file| == 1 && HEADER <= pg.pageSize == cfg.pageSize < 0x1_0000
        && tree == Empty(cfg).t
      requires pg.cache.model == []
      modifies this`rootId, pg, pg.cache, pg.cache.Repr
      ensures Valid() && |pg.file| == 3
      ensures pg.stale == old(pg.stale)
      ensures forall e | e in pg.cache.Repr :: e in old(pg.cache.Repr) || fresh(e)
      ensures forall b | b in pg.Buffers() :: fresh(b)
    {
      hide LruCache.Valid, Ids, Accessed, Repr, U32, Invariant;
      EmptyInvariant(cfg);
      var header := pg.Allocate();
      rootId := pg.Allocate();
      var p := new byte[cfg.pageSize](_ => 0);
      InitPage(cfg, p, true);
      pg.Write(rootId, p, {});
      assert NodeOf(tree) == Node(true, [], 0, INVALID_PAGE, cfg.pageSize);
      WriteHeader();
      assert HoldsNode(cfg, pg.file, 2, NodeOf(tree));
    }

    /** ReadHeader. */
    method ReadHeader()
      requires pg.Ready() && pg.stale == {} && Closed(cfg, pg.file, tree) && pg.pageSize == cfg.pageSize
      modifies this`rootId, pg.cache, pg.cache.Repr
      ensures Valid()
      ensures forall e | e in pg.cache.Repr :: e in old(pg.cache.Repr) || fresh(e)
      ensures forall b | b in pg.Buffers() :: b in old(pg.Buffers()) || fresh(b)
    {
      hide LruCache.Valid, Ids, Accessed, Repr, Invariant;
      var p := pg.Read(1, {});
      rootId := U32(p[..], 0);
    }

    /** Close: record root id and page count. */
    method Close()
      requires Valid()
      modifies pg, pg.cache, pg.cache.Repr, pg.Buffers()
      ensures Closed(cfg, pg.file, tree) && |pg.file| == |old(pg.file)|
    {
      HeldFacts(cfg, pg.file, tree);
      hide LruCache.Valid, Ids, Accessed, Repr, U32, Invariant, Holds;
      ghost var f0 := pg.file;
      WriteHeader();
      ghost var f1 := pg.file;
      pg.Close();
      ClosedFile(cfg, f0, f1, pg.file, tree);
    }

    /** A page buffer read from page id and perhaps changed since. */
    ghost predicate Pinned(id: nat, p: array<byte>, nd: Node)
      reads pg, pg.cache, pg.cache.list, pg.Buffers(), p
    {
      && pg.Valid() && pg.Coherent({id}) && pg.Owns(id, p)
      && p.Length == pg.pageSize == cfg.pageSize && id < |pg.file|
      && Repr(cfg, p[..], nd)
    }

    /** Reading a page to change it. */
    method OpenPage(id: nat, ghost nd: Node) returns (p: array<byte>)
      requires pg.Ready() && id !in pg.stale && pg.pageSize == cfg.pageSize && HoldsNode(cfg, pg.file, id, nd)
      modifies pg.cache, pg.cache.Repr
      ensures pg.Ready() && Pinned(id, p, nd)
      ensures forall e | e in pg.cache.Repr :: e in old(pg.cache.Repr) || fresh(e)
      ensures pg.stale == old(pg.stale) && pg.StaleSlots() <= old(pg.StaleSlots())
      ensures Accesses(old(pg.CachedIds()), pg.CachedIds(), pg.cache.cap, [id])
      ensures p in old(pg.Buffers()) || fresh(p)
      ensures forall b | b in pg.Buffers() :: b in old(pg.Buffers()) || b == p
      ensures forall s | s in pg.cache.model && s.id == id :: s.page == p
      ensures IsLeaf(p[..]) == nd.leaf && NumCells(p[..]) == |nd.cells|
    {
      hide Repr, LruCache.Valid, Ids, Accessed;
      AccessOne(pg.CachedIds(), pg.cache.cap, id);
      p := pg.Read(id, {});
      PageFacts(cfg, p[..], nd);
    }

    /** splitNode: the left half stays on page id, the right half goes to a new page. */
    method SplitNode(id: nat, p: array<byte>, n: nat, idx: nat, key: int, val: Value, right: nat, ghost nd: Node)
      returns (mk: int, mv: Value, newId: nat)
      requires Pinned(id, p, nd) && id !in pg.stale && |pg.file| < INVALID_PAGE
      requires idx <= n == |nd.cells| && right < 0x1_0000_0000 && Legal(cfg.acc, nd.leaf, Cell(key, val, 0))
      requires HalvesFit(cfg, nd.leaf, AllCells(nd, idx, key, val, right))
      modifies pg, pg.cache, pg.cache.Repr, p
      ensures pg.Ready()
      ensures forall e | e in pg.cache.Repr :: e in old(pg.cache.Repr) || fresh(e)
      ensures pg.stale == old(pg.stale) && pg.StaleSlots() <= old(pg.StaleSlots())
      ensures Accesses(old(pg.CachedIds()), pg.CachedIds(), pg.cache.cap, StoreTrace(true, id, newId))
      ensures forall b | b in pg.Buffers() :: b in old(pg.Buffers()) || b == p || fresh(b)
      ensures FreeSpace(nd.content, n) < cfg.acc.CellSize(nd.leaf, |val|) ==>
        NodeInserted(cfg, old(pg.file), pg.file, id, nd, idx, key, val, right, mk, mv, newId, true)
    {
      hide Repr, Body, HalvesFit, AllCells, LeftHalf, RightHalf, LruCache.Valid, Ids, Accessed, RightCells, P.Slots;
      PageFacts(cfg, p[..], nd);
      var leaf := IsLeaf(p[..]);
      var all := GatherCells(cfg, p, n, idx, key, val, right, nd);
      var oldRightmost, oldNext := Rightmost(p[..]), NextLeaf(p[..]);
      if !leaf && idx == n {
        oldRightmost := right;
      }
      var promoted := all[|all| / 2];
      newId := WriteHalves(id, p, leaf, all, oldRightmost, oldNext, nd);
      mk, mv := promoted.key, PromotedVal(cfg.acc, leaf, promoted);
    }

    /** The second part of splitNode: a new page, both pages written anew, and both written through. */
    method WriteHalves(id: nat, p: array<byte>, leaf: bool, all: seq<Cell>, rightmost: nat, next: nat,
        ghost nd: Node) returns (newId: nat)
      requires Pinned(id, p, nd) && id !in pg.stale && |pg.file| < INVALID_PAGE && HEADER <= cfg.pageSize < 0x1_0000
      requires all != [] && (forall i | 0 <= i < |all| :: Legal(cfg.acc, leaf, all[i])) && HalvesFit(cfg, leaf, all)
      requires rightmost < 0x1_0000_0000 && next < 0x1_0000_0000
      modifies pg, pg.cache, pg.cache.Repr, p
      ensures pg.Ready()
      ensures forall e | e in pg.cache.Repr :: e in old(pg.cache.Repr) || fresh(e)
      ensures pg.stale == old(pg.stale) && pg.StaleSlots() <= old(pg.StaleSlots())
      ensures Accesses(old(pg.CachedIds()), pg.CachedIds(), pg.cache.cap, StoreTrace(true, id, newId))
      ensures forall b | b in pg.Buffers() :: b in old(pg.Buffers()) || b == p || fresh(b)
      ensures newId == |old(pg.file)| && |pg.file| == newId + 1
      ensures forall x: nat | x < newId && x != id :: pg.file[x] == old(pg.file)[x]
      ensures HoldsNode(cfg, pg.file, id, LeftHalf(cfg, leaf, all, newId))
      ensures HoldsNode(cfg, pg.file, newId, RightHalf(cfg, leaf, all, rightmost, next))
    {
      hide Repr, Body, HalvesFit, LeftHalf, RightHalf, LruCache.Valid, Ids, Accessed, Legal;
      newId := pg.Allocate();
      AccessThree(pg.CachedIds(), pg.cache.cap, newId, id, newId);
      var q := pg.Read(newId, {id});
      Redistribute(cfg, p, q, leaf, all, rightmost, next, newId);
      pg.Write(id, p, {newId});
      pg.Write(newId, q, {});
    }

    /** The room test of doInsert says the truth about the page, and a page without room can be split. */
    ghost predicate CanInsert(nd: Node, idx: nat, key: int, val: Value, right: nat)
      requires idx <= |nd.cells|
    {
      var size := cfg.acc.CellSize(nd.leaf, |val|);
      if FreeSpace(nd.content, |nd.cells|) >= size then FreeSpace(nd.content, |nd.cells|) >= size + SLOT
      else HalvesFit(cfg, nd.leaf, AllCells(nd, idx, key, val, right))
    }

    /** doInsert. */
    method DoInsert(id: nat, p: array<byte>, n: nat, idx: nat, key: int, val: Value, right: nat, ghost nd: Node)
      returns (mk: int, mv: Value, newId: nat, split: bool)
      requires Pinned(id, p, nd) && id !in pg.stale && |pg.file| < INVALID_PAGE
      requires idx <= n == |nd.cells| && right < 0x1_0000_0000 && Legal(cfg.acc, nd.leaf, Cell(key, val, 0))
      requires CanInsert(nd, idx, key, val, right)
      modifies pg, pg.cache, pg.cache.Repr, p
      ensures pg.Ready()
      ensures forall e | e in pg.cache.Repr :: e in old(pg.cache.Repr) || fresh(e)
      ensures pg.stale == old(pg.stale) && pg.StaleSlots() <= old(pg.StaleSlots())
      ensures Accesses(old(pg.CachedIds()), pg.CachedIds(), pg.cache.cap, StoreTrace(split, id, newId))
      ensures forall b | b in pg.Buffers() :: b in old(pg.Buffers()) || b == p || fresh(b)
      ensures NodeInserted(cfg, old(pg.file), pg.file, id, nd, idx, key, val, right, mk, mv, newId, split)
    {
      hide Repr, Body, HalvesFit, AllCells, LeftHalf, RightHalf, LruCache.Valid, Ids, Accessed, AddCell, RightCells,
        PromotedVal, Legal;
      PageFacts(cfg, p[..], nd);
      mk, mv, newId, split := 0, [], 0, false;
      var leaf := IsLeaf(p[..]);
      if FreeSpace(CellContent(p[..]), n) >= cfg.acc.CellSize(leaf, |val|) {
        InsertCell(cfg, p, n, idx, key, val, right, nd);
        AccessOne(pg.CachedIds(), pg.cache.cap, id);
        pg.Write(id, p, {});
      } else {
        mk, mv, newId := SplitNode(id, p, n, idx, key, val, right, nd);
        split := true;
      }
    }

    /** doInsert on a leaf page. */
    method InsertIntoLeaf(id: nat, p: array<byte>, n: nat, idx: nat, key: int, val: Value, ghost t: Tree)
      returns (mk: int, mv: Value, newId: nat, split: bool)
      requires t.Leaf? && t.id == id && id !in pg.stale && Pinned(id, p, NodeOf(t)) && |pg.file| < INVALID_PAGE
      requires idx <= n == |t.kvs| && MIN_KEY <= key <= MAX_KEY && |val| < 0x1_0000
      requires !LeafPut(cfg, t, idx, KV(key, val), |pg.file|).out.Broken?
      modifies pg, pg.cache, pg.cache.Repr, p
      ensures pg.Ready()
      ensures forall e | e in pg.cache.Repr :: e in old(pg.cache.Repr) || fresh(e)
      ensures pg.stale == old(pg.stale) && pg.StaleSlots() <= old(pg.StaleSlots())
      ensures Accesses(old(pg.CachedIds()), pg.CachedIds(), pg.cache.cap, StoreTrace(split, id, newId))
      ensures forall b | b in pg.Buffers() :: b in old(pg.Buffers()) || b == p || fresh(b)
      ensures OnlyPages(old(pg.file), pg.file, multiset{id})
      ensures var ins := LeafPut(cfg, t, idx, KV(key, val), |old(pg.file)|);
        HoldsOut(cfg, pg.file, ins.out) && |pg.file| == ins.pages && Reports(cfg.acc, ins.out, mk, mv, newId, split)
    {
      ghost var nd := NodeOf(t);
      ghost var was := pg.file;
      assert |nd.cells| == n && nd.leaf && Legal(cfg.acc, nd.leaf, Cell(key, val, 0));
      LeafCan(nd, t, idx, key, val);
      hide *;
      mk, mv, newId, split := DoInsert(id, p, n, idx, key, val, 0, nd);
      LeafInserted(cfg, was, pg.file, t, idx, KV(key, val), mk, mv, newId, split);
      OnlyHere(cfg, was, pg.file, id, nd, idx, key, val, 0, mk, mv, newId, split);
    }

    lemma ReprOf(id: nat, p: array<byte>, nd: Node)
      requires Pinned(id, p, nd)
      ensures Repr(cfg, p[..], nd) && |p[..]| >= HEADER
    {
      hide CellOk, Apart;
    }

    lemma LeafCan(nd: Node, t: Tree, idx: nat, key: int, val: Value)
      requires t.Leaf? && nd == NodeOf(t) && idx <= |t.kvs|
      requires !LeafPut(cfg, t, idx, KV(key, val), |pg.file|).out.Broken?
      ensures CanInsert(nd, idx, key, val, 0)
      ensures FreeSpace(t.content, |t.kvs|) < cfg.acc.CellSize(true, |val|)
          <==> LeafPut(cfg, t, idx, KV(key, val), |pg.file|).out.Split?
    {
      hide HalvesFit, AllCells, Fits, Used;
      if LeafPut(cfg, t, idx, KV(key, val), |pg.file|).out.Split? {
        LeafSplitNodes(cfg, t, idx, KV(key, val), |pg.file|);
      }
    }

    lemma InnerCan(t: Tree, idx: nat, l: Tree, m: KV, r: Tree)
      requires t.Inner? && |t.kids| == |t.kvs| + 1 && idx <= |t.kvs| && l.id == t.kids[idx].id
      requires !InnerPut(cfg, t, idx, l, m, r, |pg.file|).out.Broken?
      ensures CanInsert(NodeOf(t), idx, m.key, m.val, r.id)
      ensures FreeSpace(t.content, |t.kvs|) < cfg.acc.CellSize(false, |m.val|)
          <==> InnerPut(cfg, t, idx, l, m, r, |pg.file|).out.Split?
    {
      hide HalvesFit, AllCells, Fits, Used;
      if InnerPut(cfg, t, idx, l, m, r, |pg.file|).out.Split? {
        InnerSplitNodes(cfg, t, idx, l, m, r, |pg.file|);
      }
    }

    /** After a child has split: read the page again, and search it again for the promoted key. */
    method SearchAgain(id: nat, mk: int, ghost nd: Node, ghost kvs: seq<KV>) returns (p: array<byte>, n: nat, idx: nat)
      requires pg.Ready() && id !in pg.stale && pg.pageSize == cfg.pageSize && HoldsNode(cfg, pg.file, id, nd)
      requires !nd.leaf && |nd.cells| == |kvs| && SameRecords(nd.cells, kvs) && Ascending(kvs)
      modifies pg.cache, pg.cache.Repr
      ensures pg.Ready() && pg.file == old(pg.file) && Pinned(id, p, nd)
      ensures forall e | e in pg.cache.Repr :: e in old(pg.cache.Repr) || fresh(e)
      ensures pg.stale == old(pg.stale) && pg.StaleSlots() <= old(pg.StaleSlots())
      ensures Accesses(old(pg.CachedIds()), pg.CachedIds(), pg.cache.cap, [id])
      ensures p in old(pg.Buffers()) || fresh(p)
      ensures forall b | b in pg.Buffers() :: b in old(pg.Buffers()) || fresh(b)
      ensures n == |kvs| && idx == Position(kvs, mk, cfg.acc.Upper(false))
      ensures forall s | s in pg.cache.model && s.id == id :: s.page == p
    {
      hide Repr, LruCache.Valid, Ids, Accessed, Ascending, SameRecords, Position, P.Slots;
      p := OpenPage(id, nd);
      ReprOf(id, p, nd);
      n := NumCells(p[..]);
      idx := FindIdx(cfg, p, mk, n, false, nd, kvs);
    }

    /** doInsert on an internal page whose child i has split into l and r. */
    method PutIntoInner(id: nat, p: array<byte>, n: nat, idx: nat, mk0: int, mv0: Value, rc: nat, ghost t: Tree,
        ghost l: Tree, ghost r: Tree)
      returns (mk: int, mv: Value, newId: nat, split: bool)
      requires t.Inner? && |t.kids| == |t.kvs| + 1 && t.id == id && id !in pg.stale && |pg.file| < INVALID_PAGE
      requires Pinned(id, p, NodeOf(t)) && idx <= n == |t.kvs|
      requires l.id == t.kids[idx].id && rc == r.id < 0x1_0000_0000 && Legal(cfg.acc, false, Cell(mk0, mv0, 0))
      requires !InnerPut(cfg, t, idx, l, KV(mk0, mv0), r, |pg.file|).out.Broken?
      modifies pg, pg.cache, pg.cache.Repr, p
      ensures pg.Ready()
      ensures forall e | e in pg.cache.Repr :: e in old(pg.cache.Repr) || fresh(e)
      ensures pg.stale == old(pg.stale) && pg.StaleSlots() <= old(pg.StaleSlots())
      ensures Accesses(old(pg.CachedIds()), pg.CachedIds(), pg.cache.cap, StoreTrace(split, id, newId))
      ensures forall b | b in pg.Buffers() :: b in old(pg.Buffers()) || b == p || fresh(b)
      ensures OnlyPages(old(pg.file), pg.file, multiset{id})
      ensures var ins := InnerPut(cfg, t, idx, l, KV(mk0, mv0), r, |old(pg.file)|);
        && InnerPages(cfg, pg.file, id, |old(pg.file)|, ins.out)
        && |pg.file| == ins.pages && Reports(cfg.acc, ins.out, mk, mv, newId, split)
    {
      hide *;
      ghost var nd := NodeOf(t);
      ghost var was := pg.file;
      InnerFacts(cfg.acc, t);
      InnerCan(t, idx, l, KV(mk0, mv0), r);
      mk, mv, newId, split := DoInsert(id, p, n, idx, mk0, mv0, rc, nd);
      InnerInserted(cfg, was, pg.file, t, idx, l, KV(mk0, mv0), r, mk, mv, newId, split);
      OnlyHere(cfg, was, pg.file, id, nd, idx, mk0, mv0, rc, mk, mv, newId, split);
    }

    /**
     The end of insertRec at an internal node whose child idx has split: read the page again, search it again, insert.
     */
    method InsertIntoInner(id: nat, mk0: int, mv0: Value, rc: nat, ghost t: Tree, ghost i: nat, ghost l: Tree,
        ghost r: Tree)
      returns (mk: int, mv: Value, newId: nat, split: bool)
      requires pg.Ready() && id !in pg.stale && pg.pageSize == cfg.pageSize && |pg.file| < INVALID_PAGE
      requires t.Inner? && |t.kids| == |t.kvs| + 1 && t.id == id && HoldsNode(cfg, pg.file, id, NodeOf(t))
          && Ascending(t.kvs)
      requires i <= |t.kvs| && l.id == t.kids[i].id && rc == r.id < 0x1_0000_0000
          && Legal(cfg.acc, false, Cell(mk0, mv0, 0))
      requires Position(t.kvs, mk0, cfg.acc.Upper(false)) == i
      requires !InnerPut(cfg, t, i, l, KV(mk0, mv0), r, |pg.file|).out.Broken?
      modifies pg, pg.cache, pg.cache.Repr, pg.Buffers()
      ensures pg.Ready()
      ensures forall e | e in pg.cache.Repr :: e in old(pg.cache.Repr) || fresh(e)
      ensures pg.stale == old(pg.stale) && pg.StaleSlots() <= old(pg.StaleSlots())
      ensures Accesses(old(pg.CachedIds()), pg.CachedIds(), pg.cache.cap, Again(split, id, newId))
      ensures forall b | b in pg.Buffers() :: b in old(pg.Buffers()) || fresh(b)
      ensures OnlyPages(old(pg.file), pg.file, multiset{id})
      ensures var ins := InnerPut(cfg, t, i, l, KV(mk0, mv0), r, |old(pg.file)|);
        && InnerPages(cfg, pg.file, id, |old(pg.file)|, ins.out)
        && |pg.file| == ins.pages && Reports(cfg.acc, ins.out, mk, mv, newId, split)
    {
      hide *;
      ghost var nd := NodeOf(t);
      ghost var ids := pg.CachedIds();
      InnerFacts(cfg.acc, t);
      var p, n, idx := SearchAgain(id, mk0, nd, t.kvs);
      ghost var mid := pg.CachedIds();
      mk, mv, newId, split := PutIntoInner(id, p, n, idx, mk0, mv0, rc, t, l, r);
      Reread(ids, mid, pg.CachedIds(), pg.cache.cap, split, id, newId);
    }

    /** insertRec, key found and the new value fits: overwrite in place. */
    method Overwrite(id: nat, p: array<byte>, idx: nat, val: Value, ghost t: Tree)
      requires id !in pg.stale && (t.Inner? ==> |t.kids| == |t.kvs| + 1) && Pinned(id, p, NodeOf(t))
      requires idx < |t.kvs| && |val| <= |t.kvs[idx].val| && !cfg.acc.Upper(t.Leaf?)
      modifies pg, pg.cache, pg.cache.Repr, p
      ensures pg.Ready()
      ensures forall e | e in pg.cache.Repr :: e in old(pg.cache.Repr) || fresh(e)
      ensures pg.stale == old(pg.stale) && pg.StaleSlots() <= old(pg.StaleSlots())
      ensures Accesses(old(pg.CachedIds()), pg.CachedIds(), pg.cache.cap, [id])
      ensures forall b | b in pg.Buffers() :: b in old(pg.Buffers()) || b == p || fresh(b)
      ensures OnlyPages(old(pg.file), pg.file, multiset{id}) && |pg.file| == |old(pg.file)|
      ensures HoldsNode(cfg, pg.file, id, NodeOf(t.(kvs := t.kvs[idx := KV(t.kvs[idx].key, val)])))
    {
      hide Repr, NodeOf, LruCache.Valid, Ids, Accessed, P.Slots;
      ghost var nd := NodeOf(t);
      OverwriteNode(t, idx, val);
      OverwriteValue(cfg, p, idx, val, nd);
      AccessOne(pg.CachedIds(), pg.cache.cap, id);
      pg.Write(id, p, {});
    }

    /** insertRec, existing key: overwrite in place when the value fits, or else delete the cell (of a leaf). */
    method HandleExisting(id: nat, p: array<byte>, n: nat, idx: nat, key: int, val: Value, ghost t: Tree)
        returns (done: bool, left: nat)
      requires pg.Ready() && t.id == id && id !in pg.stale && (t.Inner? ==> |t.kids| == |t.kvs| + 1)
        && Pinned(id, p, NodeOf(t))
      requires n == |t.kvs| && idx <= n && (idx < n && t.kvs[idx].key == key ==> !cfg.acc.Upper(t.Leaf?))
      requires idx < n && t.kvs[idx].key == key && |val| > |t.kvs[idx].val| ==> t.Leaf?
      modifies pg, pg.cache, pg.cache.Repr, p
      ensures forall e | e in pg.cache.Repr :: e in old(pg.cache.Repr) || fresh(e)
      ensures pg.stale == old(pg.stale) && pg.StaleSlots() <= old(pg.StaleSlots())
      ensures Accesses(old(pg.CachedIds()), pg.CachedIds(), pg.cache.cap, if done then [id] else [])
      ensures forall b | b in pg.Buffers() :: b in old(pg.Buffers()) || b == p || fresh(b)
      ensures done <==> idx < n && t.kvs[idx].key == key && |val| <= |t.kvs[idx].val|
      ensures done ==>
        pg.Ready() && Overwrote(cfg, old(pg.file), pg.file, t, idx, key, val)
      ensures !done ==>
        && pg.file == old(pg.file) && Pinned(id, p, NodeOf(WithoutKey(t, idx, key)))
            && left == |WithoutKey(t, idx, key).kvs|
        && (t.Inner? ==> pg.Ready() && WithoutKey(t, idx, key) == t && left == n)
    {
      hide Repr, NodeOf, LruCache.Valid, Ids, Accessed, OnlyPages, HoldsNode, CellPtr, U16, CellAt;
      ghost var nd := NodeOf(t);
      NodeRecords(t);
      NodeKind(t);
      ReprOf(id, p, nd);
      PageFacts(cfg, p[..], nd);
      done, left := false, n;
      if t.Leaf? && idx < n {
        RemoveNode(t, idx);
      }
      if idx < n {
        ReadSlot(cfg, p[..], nd, idx);
        var c := ReadCell(cfg.acc, p[..], idx, IsLeaf(p[..]));
        if c.key == key {
          if |val| <= |c.val| {
            Overwrite(id, p, idx, val, t);
            done := true;
          } else {
            DeleteCell(cfg, p, idx, nd);
            left := n - 1;
          }
        }
      }
    }

    /** insertRec refines InsRec: the pages under id end up holding what InsRec makes of the tree they held. */
    method InsertRec(id: nat, key: int, val: Value, ghost t: Tree, ghost lo: int, ghost hi: int)
      returns (mk: int, mv: Value, newId: nat, split: bool)
      requires pg.Ready() && Clean(pg.stale, t) && pg.pageSize == cfg.pageSize && t.id == id
        && CanRec(cfg, pg.file, t, key, val, lo, hi)
      modifies pg, pg.cache, pg.cache.Repr, pg.Buffers()
      ensures pg.Ready()
      ensures forall e | e in pg.cache.Repr :: e in old(pg.cache.Repr) || fresh(e)
      ensures pg.stale == old(pg.stale) && pg.StaleSlots() <= old(pg.StaleSlots())
      ensures Accesses(old(pg.CachedIds()), pg.CachedIds(), pg.cache.cap, Touched(cfg, t, key, val, |old(pg.file)|))
      ensures forall b | b in pg.Buffers() :: b in old(pg.Buffers()) || fresh(b)
      ensures Effect(cfg, old(pg.file), pg.file, t, key, val, mk, mv, newId, split)
      decreases t
    {
      hide *;
      ghost var ids := pg.CachedIds();
      CleanAround(pg.stale, t, 0);
      MaySearch(cfg, pg.file, t, key, val, lo, hi);
      var p, n, idx, leaf, done := Locate(id, key, val, t, lo, hi);
      if done {
        mk, mv, newId, split := 0, [], 0, false;
        return;
      }
      if leaf {
        mk, mv, newId, split := InsertHere(id, p, n, idx, key, val, t, lo, hi, ids);
        return;
      }

      mk, mv, newId, split := InsertBelow(id, p, n, idx, key, val, t, lo, hi, ids);
    }

    /** The start of insertRec: read the page, search it, and handle an existing key. */
    method Locate(id: nat, key: int, val: Value, ghost t: Tree, ghost lo: int, ghost hi: int)
      returns (p: array<byte>, n: nat, idx: nat, leaf: bool, done: bool)
      requires pg.Ready() && t.id !in pg.stale && pg.pageSize == cfg.pageSize && t.id == id
        && CanSearch(cfg, pg.file, t, key, val, lo, hi)
      modifies pg, pg.cache, pg.cache.Repr, pg.Buffers()
      ensures forall e | e in pg.cache.Repr :: e in old(pg.cache.Repr) || fresh(e)
      ensures pg.stale == old(pg.stale) && pg.StaleSlots() <= old(pg.StaleSlots())
      ensures !done ==> Accesses(old(pg.CachedIds()), pg.CachedIds(), pg.cache.cap, [id])
      ensures p in old(pg.Buffers()) || fresh(p)
      ensures forall b | b in pg.Buffers() :: b in old(pg.Buffers()) || fresh(b)
      ensures leaf == t.Leaf? && (t.Inner? ==> |t.kids| == |t.kvs| + 1)
      ensures idx == Position(t.kvs, key, cfg.acc.Upper(leaf)) <= |t.kvs|
      ensures done <==> idx < |t.kvs| && t.kvs[idx].key == key && |val| <= |t.kvs[idx].val|
      ensures done ==>
        && pg.Ready() && Effect(cfg, old(pg.file), pg.file, t, key, val, 0, [], 0, false)
        && Accesses(old(pg.CachedIds()), pg.CachedIds(), pg.cache.cap, Touched(cfg, t, key, val, |old(pg.file)|))
      ensures !done ==>
        && pg.file == old(pg.file) && Pinned(id, p, NodeOf(WithoutKey(t, idx, key)))
          && n == |WithoutKey(t, idx, key).kvs|
        && (t.Inner? ==> pg.Ready() && WithoutKey(t, idx, key) == t)
    {
      hide InsRec, CanSearch, Repr, NodeOf, LruCache.Valid, Ids, Accessed, P.Slots, SameRecords, Ascending, Position,
        HoldsNode, OnlyPages, NumCells, IsLeaf, WithoutKey, Overwrote, Effect, Touched, Accesses;
      AtEntry(cfg, pg.file, t, key, val, lo, hi);
      ghost var nd, ids, f0 := NodeOf(t), pg.CachedIds(), pg.file;
      p := OpenPage(id, nd);
      ReprOf(id, p, nd);
      hide Pinned, P.Pager.Ready, P.Pager.Valid, P.Pager.Coherent;
      n := NumCells(p[..]);
      leaf := IsLeaf(p[..]);
      idx := FindIdx(cfg, p, key, n, leaf, nd, t.kvs);
      ghost var mid := pg.CachedIds();
      done, n := HandleExisting(id, p, n, idx, key, val, t);
      AccessesThen(ids, mid, pg.CachedIds(), pg.cache.cap, [id], if done then [id] else []);
      assert [id] + [id] == [id, id] && [id] + [] == [id];
      if done {
        EffectOverwrite(cfg, f0, pg.file, t, idx, key, val, 0, [], 0, lo, hi);
        TouchedHere(cfg, t, key, val, |f0|, ids, pg.CachedIds(), pg.cache.cap);
      }
    }

    /** insertRec at a leaf, after a record with the key has been deleted. */
    method InsertHere(id: nat, p: array<byte>, n: nat, idx: nat, key: int, val: Value, ghost t: Tree, ghost lo: int,
        ghost hi: int, ghost ids: seq<nat>)
      returns (mk: int, mv: Value, newId: nat, split: bool)
      requires t.Leaf? && t.id == id && id !in pg.stale && CanRec(cfg, pg.file, t, key, val, lo, hi)
      requires Pinned(id, p, NodeOf(WithoutKey(t, idx, key))) && n == |WithoutKey(t, idx, key).kvs|
      requires idx == Position(t.kvs, key, cfg.acc.Upper(true)) && idx <= |t.kvs|
      requires idx < |t.kvs| && t.kvs[idx].key == key ==> |val| > |t.kvs[idx].val|
      requires Accesses(ids, pg.CachedIds(), pg.cache.cap, [id])
      modifies pg, pg.cache, pg.cache.Repr, p
      ensures pg.Ready()
      ensures forall e | e in pg.cache.Repr :: e in old(pg.cache.Repr) || fresh(e)
      ensures pg.stale == old(pg.stale) && pg.StaleSlots() <= old(pg.StaleSlots())
      ensures Accesses(ids, pg.CachedIds(), pg.cache.cap, Touched(cfg, t, key, val, |old(pg.file)|))
      ensures forall b | b in pg.Buffers() :: b in old(pg.Buffers()) || b == p || fresh(b)
      ensures Effect(cfg, old(pg.file), pg.file, t, key, val, mk, mv, newId, split)
    {
      hide *;
      ghost var f0, mid := pg.file, pg.CachedIds();
      AtLeaf(cfg, f0, t, idx, key, val, lo, hi);
      mk, mv, newId, split := InsertIntoLeaf(id, p, n, idx, key, val, WithoutKey(t, idx, key));
      EffectLeaf(cfg, f0, pg.file, t, idx, key, val, mk, mv, newId, split, lo, hi);
      LeafTrace(cfg, f0, pg.file, t, idx, key, val, mk, mv, newId, split, ids, mid, pg.CachedIds(), pg.cache.cap);
    }

    /** insertRec at an internal node that does not hold the key: recurse, and insert what the child promotes. */
    method InsertBelow(id: nat, p: array<byte>, n: nat, idx: nat, key: int, val: Value, ghost t: Tree, ghost lo: int,
        ghost hi: int, ghost ids: seq<nat>)
      returns (mk: int, mv: Value, newId: nat, split: bool)
      requires pg.Ready() && Clean(pg.stale, t) && pg.pageSize == cfg.pageSize && t.id == id
        && CanRec(cfg, pg.file, t, key, val, lo, hi)
      requires t.Inner? && |t.kids| == |t.kvs| + 1 && Pinned(id, p, NodeOf(t)) && n == |t.kvs|
      requires idx == Position(t.kvs, key, cfg.acc.Upper(false)) && idx <= n
      requires Accesses(ids, pg.CachedIds(), pg.cache.cap, [id])
      requires idx < n ==> t.kvs[idx].key != key || |val| > |t.kvs[idx].val|
      modifies pg, pg.cache, pg.cache.Repr, pg.Buffers()
      ensures pg.Ready()
      ensures forall e | e in pg.cache.Repr :: e in old(pg.cache.Repr) || fresh(e)
      ensures pg.stale == old(pg.stale) && pg.StaleSlots() <= old(pg.StaleSlots())
      ensures Accesses(ids, pg.CachedIds(), pg.cache.cap, Touched(cfg, t, key, val, |old(pg.file)|))
      ensures forall b | b in pg.Buffers() :: b in old(pg.Buffers()) || fresh(b)
      ensures Effect(cfg, old(pg.file), pg.file, t, key, val, mk, mv, newId, split)
      decreases t, 0
    {
      hide *;
      ghost var f0, ids' := pg.file, pg.CachedIds();
      ghost var nd := NodeOf(t);
      CleanAround(pg.stale, t, idx);
      AtChild(cfg, f0, t, idx, key, val, lo, hi);
      ReprOf(id, p, nd);
      ChildIsKid(cfg, p[..], t, idx);
      var childId := ChildAt(cfg.acc, p[..], idx, n);
      ghost var kid := t.kids[idx];
      mk, mv, newId, split := InsertRec(childId, key, val, kid, Lo(cfg.acc, t.kvs, idx, lo), Hi(t.kvs, idx, hi));
      ghost var f1 := pg.file;
      ghost var sub := InsRec(cfg, kid, key, val, |f0|);
      ghost var mid := pg.CachedIds();
      if !split {
        EffectDone(cfg, f0, f1, t, idx, key, val, mk, mv, newId, lo, hi);
        DoneTrace(cfg, f0, f1, t, idx, key, val, mk, mv, newId);
      } else {
        ghost var mk0, mv0, newId0 := mk, mv, newId;
        AtParent(cfg, f0, f1, t, idx, key, val, mk, mv, newId, lo, hi);
        ghost var l, r := sub.out.l, sub.out.r;
        mk, mv, newId, split := InsertIntoInner(id, mk, mv, newId, t, idx, l, r);
        InnerTrace(cfg, f0, f1, pg.file, t, idx, key, val, l, KV(mk0, mv0), r, mk, mv, newId, split,
          ids', mid, pg.CachedIds(), pg.cache.cap);
        EffectSplit(cfg, f0, f1, pg.file, t, idx, key, val, mk0, mv0, newId0, mk, mv, newId, split, lo, hi);
      }
      TouchedInner(cfg, t, idx, key, val, |f0|, ids, ids', pg.CachedIds(), pg.cache.cap);
    }

    // -------------------------------------------------------------- Insert

    /** WriteHeader: the tree's header page records the root id. */
    method WriteHeader()
      requires pg.Ready() && 1 !in pg.stale && 1 < |pg.file| && pg.pageSize >= HEADER && rootId < 0x1_0000_0000
      modifies pg, pg.cache, pg.cache.Repr, pg.Buffers()
      ensures pg.Ready()
      ensures pg.stale == old(pg.stale)
      ensures forall e | e in pg.cache.Repr :: e in old(pg.cache.Repr) || fresh(e)
      ensures forall b | b in pg.Buffers() :: b in old(pg.Buffers()) || fresh(b)
      ensures OnlyPages(old(pg.file), pg.file, multiset{1}) && |pg.file| == |old(pg.file)|
        && HeaderId(pg.file) == rootId
    {
      hide LruCache.Valid, Ids, Accessed, U32, P.Slots;
      var p := pg.Read(1, {});
      PutU32(p, 0, rootId);
      pg.Write(1, p, {});
    }

    /** A new page that holds one cell between two children. */
    method AddRootPage(c: Cell, rightId: nat) returns (newRoot: nat)
      requires pg.Ready() && pg.pageSize == cfg.pageSize < 0x1_0000
          && HEADER + SLOT + SizeOf(cfg.acc, false, c) <= cfg.pageSize
      requires Legal(cfg.acc, false, c) && rightId < 0x1_0000_0000
      modifies pg, pg.cache, pg.cache.Repr
      ensures pg.Ready()
      ensures pg.stale == old(pg.stale)
      ensures forall e | e in pg.cache.Repr :: e in old(pg.cache.Repr) || fresh(e)
      ensures forall b | b in pg.Buffers() :: b in old(pg.Buffers()) || fresh(b)
      ensures newRoot == |old(pg.file)| && |pg.file| == newRoot + 1
      ensures forall x: nat | x < newRoot :: pg.file[x] == old(pg.file)[x]
      ensures HoldsNode(cfg, pg.file, newRoot,
          Node(false, [c], rightId, INVALID_PAGE, cfg.pageSize - SizeOf(cfg.acc, false, c)))
    {
      hide Repr, LruCache.Valid, Ids, Accessed, Legal;
      newRoot := pg.Allocate();
      var p := pg.Read(newRoot, {});
      WriteRoot(cfg, p, c, rightId);
      pg.Write(newRoot, p, {});
    }

    /** The end of Insert: a new root above the two halves of the old one. */
    method GrowRoot(mk: int, mv: Value, rightId: nat, ghost l: Tree, ghost r: Tree)
      requires pg.Ready() && pg.stale == {} && pg.pageSize == cfg.pageSize && HEADER <= cfg.pageSize < 0x1_0000
          && 3 <= |pg.file| < INVALID_PAGE
      requires Holds(cfg, pg.file, l) && Holds(cfg, pg.file, r) && l.id == rootId < |pg.file|
          && r.id == rightId < |pg.file|
      requires Legal(cfg.acc, false, Cell(mk, mv, 0)) && Fits(cfg, false, [KV(mk, mv)])
      requires 1 !in Pages(l) + Pages(r)
      modifies this`rootId, pg, pg.cache, pg.cache.Repr, pg.Buffers()
      ensures pg.Ready()
      ensures pg.stale == old(pg.stale)
      ensures forall e | e in pg.cache.Repr :: e in old(pg.cache.Repr) || fresh(e)
      ensures forall b | b in pg.Buffers() :: b in old(pg.Buffers()) || fresh(b)
      ensures |pg.file| == |old(pg.file)| + 1 && HeaderId(pg.file) == rootId == |old(pg.file)|
      ensures Holds(cfg, pg.file, NewRoot(cfg, |old(pg.file)|, l, KV(mk, mv), r))
    {
      ghost var f0 := pg.file;
      NewRootNode(cfg, |f0|, l, KV(mk, mv), r);
      hide Repr, LruCache.Valid, Ids, Accessed, Holds, Pages, Fits, NewRoot, HeaderId, P.Slots, P.Pager.Ready, NodeOf,
        HoldsNode, OnlyPages, Legal;
      var newRoot := AddRootPage(Cell(mk, mv, rootId), rightId);
      ghost var f1 := pg.file;
      rootId := newRoot;
      WriteHeader();
      NewRootHolds(cfg, f0, f1, pg.file, l, KV(mk, mv), r);
    }

    /** Insert refines map update on the tree that the pages hold, for any cache capacity. */
    method Insert(key: int, val: Value)
      requires Valid() && IsKey(key) && |val| < 0x1_0000
      requires var db := TreeModel.Insert(cfg, Db(tree, |pg.file|), key, val); db.Db? && db.pages < INVALID_PAGE
      modifies this, pg, pg.cache, pg.cache.Repr, pg.Buffers()
      ensures Valid()
      ensures forall e | e in pg.cache.Repr :: e in old(pg.cache.Repr) || fresh(e)
      ensures forall b | b in pg.Buffers() :: b in old(pg.Buffers()) || fresh(b)
      ensures Db(tree, |pg.file|) == TreeModel.Insert(cfg, Db(old(tree), |old(pg.file)|), key, val)
      ensures ToMap(Entries(cfg.acc, tree)) == ToMap(Entries(cfg.acc, old(tree)))[key := val]
    {
      hide LruCache.Valid, Ids, Accessed, CanRec, Invariant, InsRec, HeaderId, Holds, Effect, Pages, Fits, Used, Legal,
        P.Slots, P.Pager.Ready, TreeModel.Insert, Stored, Entries, ToMap;
      ghost var f0, t0 := pg.file, tree;
      UpdatesMap(cfg, f0, t0, key, val);
      ghost var ins := InsRec(cfg, t0, key, val, |f0|);
      BeforeRoot(cfg, f0, t0, key, val);
      var mk, mv, rightId, split := InsertRec(rootId, key, val, t0, MIN_KEY, MAX_KEY + 1);
      AfterRoot(cfg, f0, pg.file, t0, key, val, mk, mv, rightId, split);
      if !split {
        tree := ins.out.t;
        return;
      }
      GrowRoot(mk, mv, rightId, ins.out.l, ins.out.r);
      tree := NewRoot(cfg, ins.pages, ins.out.l, ins.out.m, ins.out.r);
      RootStored(cfg, pg.file, tree, t0, |f0|, key, val);
    }

    // -------------------------------------------------------------- queries

    /** Read a page of the tree and search it. */
    method Visit(id: nat, key: int, ghost t: Tree, ghost lo: int, ghost hi: int)
      returns (p: array<byte>, n: nat, leaf: bool, idx: nat)
      requires pg.Ready() && pg.stale == {} && pg.pageSize == cfg.pageSize && Holds(cfg, pg.file, t) && t.id == id
          && Ordered(cfg.acc, false, t, lo, hi)
      modifies pg.cache, pg.cache.Repr
      ensures pg.Ready()
      ensures forall e | e in pg.cache.Repr :: e in old(pg.cache.Repr) || fresh(e)
      ensures forall b | b in pg.Buffers() :: b in old(pg.Buffers()) || fresh(b)
      ensures leaf == t.Leaf? && n == |t.kvs| && (t.Inner? ==> |t.kids| == |t.kvs| + 1)
      ensures Repr(cfg, p[..], NodeOf(t)) && idx == Position(t.kvs, key, cfg.acc.Upper(leaf)) <= n
    {
      hide Repr, NodeOf, LruCache.Valid, Ids, Accessed, P.Slots, SameRecords, Ascending, Position, HoldsNode, Holds,
        Ordered;
      NodeFacts(cfg, pg.file, t, lo, hi);
      ghost var nd := NodeOf(t);
      p := OpenPage(id, nd);
      ReprOf(id, p, nd);
      n := NumCells(p[..]);
      leaf := IsLeaf(p[..]);
      idx := FindIdx(cfg, p, key, n, leaf, nd, t.kvs);
    }

    /** Get of the shared engine: the map's answer. */
    method Get(key: int) returns (r: Option<Value>)
      requires Valid() && IsKey(key)
      modifies pg.cache, pg.cache.Repr
      ensures Valid()
      ensures forall e | e in pg.cache.Repr :: e in old(pg.cache.Repr) || fresh(e)
      ensures forall b | b in pg.Buffers() :: b in old(pg.Buffers()) || fresh(b)
      ensures r == Lookup(Entries(cfg.acc, tree), key)
    {
      hide Repr, NodeOf, LruCache.Valid, Ids, Accessed, P.Slots, Position, Holds, Ordered, Invariant, Lookup, Entries,
        Lo, Hi, HeaderId, P.Pager.Ready;
      RootFacts(cfg, pg.file, tree);
      var curr := rootId;
      ghost var cur, lo, hi := tree, MIN_KEY, MAX_KEY + 1;
      while true
        invariant pg.Ready()
        invariant forall e | e in pg.cache.Repr :: e in old(pg.cache.Repr) || fresh(e)
        invariant forall b | b in pg.Buffers() :: b in old(pg.Buffers()) || fresh(b)
        invariant Holds(cfg, pg.file, cur) && cur.id == curr && Ordered(cfg.acc, false, cur, lo, hi) && lo <= key < hi
        invariant Lookup(Entries(cfg.acc, cur), key) == Lookup(Entries(cfg.acc, tree), key)
        decreases cur
      {
        var p, n, leaf, idx := Visit(curr, key, cur, lo, hi);
        if idx < n {
          ReadRecord(cfg, p[..], cur, idx);
          var c := ReadCell(cfg.acc, p[..], idx, leaf);
          // An internal B+ tree cell has no value.
          if c.key == key && !cfg.acc.Upper(leaf) {
            FoundHere(cfg.acc, cur, key, lo, hi);
            return Some(c.val);
          }
        }
        if leaf {
          NotInLeaf(cfg.acc, cur, key, lo, hi);
          return None;
        }
        ChildIsKid(cfg, p[..], cur, idx);
        StepDown(cfg, pg.file, cur, key, lo, hi);
        curr := ChildAt(cfg.acc, p[..], idx, n);
        cur, lo, hi := cur.kids[idx], Lo(cfg.acc, cur.kvs, idx, lo), Hi(cur.kvs, idx, hi);
      }
    }

    /** FindLeaf: the leaf at position j, with only smaller keys in the leaves before it and none in those behind it. */
    method FindLeaf(key: int) returns (leafId: nat, ghost j: nat)
      requires Valid() && IsKey(key)
      modifies pg.cache, pg.cache.Repr
      ensures Valid()
      ensures forall e | e in pg.cache.Repr :: e in old(pg.cache.Repr) || fresh(e)
      ensures forall b | b in pg.Buffers() :: b in old(pg.Buffers()) || fresh(b)
      ensures j < |Leaves(tree)| && leafId == Leaves(tree)[j].id
      ensures Below(LeafRecords(Leaves(tree)[..j]), key) && NotBelow(LeafRecords(Leaves(tree)[j + 1..]), key)
    {
      hide Repr, NodeOf, LruCache.Valid, Ids, Accessed, P.Slots, Position, Holds, Ordered, Invariant, Leaves,
        LeafRecords, Lo, Hi, HeaderId, P.Pager.Ready, Uniform, Below, NotBelow;
      RootFacts(cfg, pg.file, tree);
      NoneBelow(key);
      var curr := rootId;
      ghost var cur, lo, hi, left, right := tree, MIN_KEY, MAX_KEY + 1, [], [];
      while true
        invariant pg.Ready()
        invariant forall e | e in pg.cache.Repr :: e in old(pg.cache.Repr) || fresh(e)
        invariant forall b | b in pg.Buffers() :: b in old(pg.Buffers()) || fresh(b)
        invariant Holds(cfg, pg.file, cur) && cur.id == curr && Ordered(cfg.acc, false, cur, lo, hi)
            && lo <= key <= hi
        invariant Leaves(tree) == left + Leaves(cur) + right
        invariant Below(LeafRecords(left), key) && NotBelow(LeafRecords(right), key)
        decreases cur
      {
        var p, n, leaf, idx := Visit(curr, key, cur, lo, hi);
        if leaf {
          LeafItself(cur);
          assert (left + Leaves(cur) + right)[..|left|] == left;
          assert (left + Leaves(cur) + right)[|left| + 1..] == right;
          return curr, |left|;
        }
        ChildIsKid(cfg, p[..], cur, idx);
        StepAside(cfg, pg.file, cur, key, lo, hi);
        LeavesDown(cfg.acc, cur, key, lo, hi, left, right);
        curr := ChildAt(cfg.acc, p[..], idx, n);
        left, right := left + LeavesOf(cur.kids[..idx]), LeavesOf(cur.kids[idx + 1..]) + right;
        cur, lo, hi := cur.kids[idx], Lo(cfg.acc, cur.kvs, idx, lo), Hi(cur.kvs, idx, hi);
      }
    }

    /** Height follows the rightmost children; every leaf of the tree lies at that depth. */
    method Height() returns (h: nat)
      requires Valid()
      modifies pg.cache, pg.cache.Repr
      ensures Valid()
      ensures forall e | e in pg.cache.Repr :: e in old(pg.cache.Repr) || fresh(e)
      ensures forall b | b in pg.Buffers() :: b in old(pg.Buffers()) || fresh(b)
      ensures Uniform(tree, h)
    {
      hide Repr, NodeOf, LruCache.Valid, Ids, Accessed, P.Slots, Holds, Ordered, Invariant, HeaderId, P.Pager.Ready,
        HoldsNode, Uniform;
      RootFacts(cfg, pg.file, tree);
      var curr := rootId;
      ghost var cur := tree;
      h := 1;
      while true
        invariant pg.Ready()
        invariant forall e | e in pg.cache.Repr :: e in old(pg.cache.Repr) || fresh(e)
        invariant forall b | b in pg.Buffers() :: b in old(pg.Buffers()) || fresh(b)
        invariant Holds(cfg, pg.file, cur) && cur.id == curr && h >= 1
        invariant HeightOf(tree) >= h && Uniform(cur, HeightOf(tree) - h + 1)
        decreases cur
      {
        RightmostDown(cfg, pg.file, cur, HeightOf(tree) - h + 1);
        var p := OpenPage(curr, NodeOf(cur));
        ReprOf(curr, p, NodeOf(cur));
        if IsLeaf(p[..]) {
          return;
        }
        PageFacts(cfg, p[..], NodeOf(cur));
        curr := Rightmost(p[..]);
        cur := cur.kids[|cur.kids| - 1];
        h := h + 1;
      }
    }

    /** CountLeaves. */
    method CountLeaves() returns (c: nat)
      requires Valid()
      modifies pg.cache, pg.cache.Repr
      ensures Valid()
      ensures forall e | e in pg.cache.Repr :: e in old(pg.cache.Repr) || fresh(e)
      ensures forall b | b in pg.Buffers() :: b in old(pg.Buffers()) || fresh(b)
      ensures c == |Leaves(tree)|
    {
      hide Repr, NodeOf, LruCache.Valid, Ids, Accessed, P.Slots, Holds, Invariant, HeaderId, P.Pager.Ready, Ordered;
      RootFacts(cfg, pg.file, tree);
      c := CountLeavesRec(rootId, tree);
    }

    /** countLeavesRec. */
    method CountLeavesRec(id: nat, ghost t: Tree) returns (c: nat)
      requires pg.Ready() && pg.stale == {} && pg.pageSize == cfg.pageSize && Holds(cfg, pg.file, t) && t.id == id
      modifies pg.cache, pg.cache.Repr
      ensures pg.Ready()
      ensures forall e | e in pg.cache.Repr :: e in old(pg.cache.Repr) || fresh(e)
      ensures forall b | b in pg.Buffers() :: b in old(pg.Buffers()) || fresh(b)
      ensures c == |Leaves(t)|
      decreases t
    {
      hide Repr, NodeOf, LruCache.Valid, Ids, Accessed, P.Slots, P.Pager.Ready, HoldsNode, Leaves, Holds, LeavesOf,
        Pinned;
      Form(cfg, pg.file, t);
      var p := OpenPage(id, NodeOf(t));
      ReprOf(id, p, NodeOf(t));
      if IsLeaf(p[..]) {
        LeafItself(t);
        return 1;
      }
      InnerItself(t);
      var n := NumCells(p[..]);
      c := 0;
      for i := 0 to n
        invariant pg.Ready()
        invariant forall e | e in pg.cache.Repr :: e in old(pg.cache.Repr) || fresh(e)
        invariant forall b | b in pg.Buffers() :: b in old(pg.Buffers()) || fresh(b)
        invariant Repr(cfg, p[..], NodeOf(t))
        invariant c == |LeavesOf(t.kids[..i])|
      {
        ChildIsKid(cfg, p[..], t, i);
        OneMore(t.kids, i);
        var child := CountLeavesRec(ReadCell(cfg.acc, p[..], i, false).left, t.kids[i]);
        c := c + child;
      }
      PageFacts(cfg, p[..], NodeOf(t));
      OneMore(t.kids, n);
      RightmostKid(t);
      assert t.kids[..n + 1] == t.kids;
      var last := CountLeavesRec(Rightmost(p[..]), t.kids[n]);
      c := c + last;
    }
  }

  lemma NoneBelow(key: int)
    ensures Below(LeafRecords([]), key) && NotBelow(LeafRecords([]), key)
  {
  }

  lemma LeafItself(t: Tree)
    requires t.Leaf?
    ensures Leaves(t) == [t]
  {
  }

  lemma InnerItself(t: Tree)
    requires t.Inner?
    ensures Leaves(t) == LeavesOf(t.kids) && LeavesOf(t.kids[..0]) == []
  {
  }

  lemma OneMore(kids: seq<Tree>, i: nat)
    requires i < |kids|
    ensures LeavesOf(kids[..i + 1]) == LeavesOf(kids[..i]) + Leaves(kids[i])
  {
    assert kids[..i + 1] == kids[..i] + [kids[i]];
    hide *;
    ListAppend(kids[..i], [kids[i]]);
    ListOne(kids[i]);
  }

  lemma Form(cfg: Cfg, file: seq<Page>, t: Tree)
    requires Holds(cfg, file, t)
    ensures HoldsNode(cfg, file, t.id, NodeOf(t)) && NodeOf(t).leaf == t.Leaf? && |NodeOf(t).cells| == |t.kvs|
    ensures t.Inner? ==> |t.kids| == |t.kvs| + 1 && forall j | 0 <= j < |t.kids| :: Holds(cfg, file, t.kids[j])
  {
    hide HoldsNode;
  }

  lemma RightmostKid(t: Tree)
    requires t.Inner? && |t.kids| == |t.kvs| + 1
    ensures NodeOf(t).rightmost == t.kids[|t.kvs|].id
  {
  }

  lemma RightmostDown(cfg: Cfg, file: seq<Page>, t: Tree, h: nat)
    requires Holds(cfg, file, t) && Uniform(t, h)
    ensures (t.Inner? ==> |t.kids| == |t.kvs| + 1) && HoldsNode(cfg, file, t.id, NodeOf(t)) && NodeOf(t).leaf == t.Leaf?
    ensures t.Leaf? ==> h == 1
    ensures t.Inner? ==>
      var c := t.kids[|t.kids| - 1];
      NodeOf(t).rightmost == c.id && Holds(cfg, file, c) && h > 1 && Uniform(c, h - 1)
  {
    hide HoldsNode;
  }

  lemma InTheMiddle(left: seq<Tree>, a: seq<Tree>, b: seq<Tree>, c: seq<Tree>, right: seq<Tree>)
    ensures left + (a + b + c) + right == (left + a) + b + (c + right)
  {
  }

  /** One step down: the leaves beside the child's stay on their sides of the key. */
  lemma LeavesDown(acc: Acc, t: Tree, key: int, lo: int, hi: int, left: seq<Tree>, right: seq<Tree>)
    requires t.Inner? && Ordered(acc, false, t, lo, hi) && lo <= key <= hi
    requires Below(LeafRecords(left), key) && NotBelow(LeafRecords(right), key)
    ensures var i := Position(t.kvs, key, acc.Upper(false));
      && |t.kids| == |t.kvs| + 1
      && left + Leaves(t) + right
          == (left + LeavesOf(t.kids[..i])) + Leaves(t.kids[i]) + (LeavesOf(t.kids[i + 1..]) + right)
      && Below(LeafRecords(left + LeavesOf(t.kids[..i])), key)
      && NotBelow(LeafRecords(LeavesOf(t.kids[i + 1..]) + right), key)
  {
    hide Ordered, Leaves, LeavesOf, LeafRecords, Below, NotBelow, Position;
    var i := Position(t.kvs, key, acc.Upper(false));
    LeavesAround(acc, t, key, lo, hi);
    var a, c := LeavesOf(t.kids[..i]), LeavesOf(t.kids[i + 1..]);
    InTheMiddle(left, a, Leaves(t.kids[i]), c, right);
    LeafRecordsAppend(left, a);
    LeafRecordsAppend(c, right);
    SidesAppend(LeafRecords(left), LeafRecords(a), key);
    SidesAppend(LeafRecords(c), LeafRecords(right), key);
  }

  /** The child that FindLeaf goes to, whose range holds the key or ends at it. */
  lemma StepAside(cfg: Cfg, file: seq<Page>, t: Tree, key: int, lo: int, hi: int)
    requires t.Inner? && |t.kids| == |t.kvs| + 1 && Holds(cfg, file, t) && Ordered(cfg.acc, false, t, lo, hi)
        && lo <= key <= hi
    ensures var i := Position(t.kvs, key, cfg.acc.Upper(false));
      && i <= |t.kvs| && Holds(cfg, file, t.kids[i])
      && Ordered(cfg.acc, false, t.kids[i], Lo(cfg.acc, t.kvs, i, lo), Hi(t.kvs, i, hi))
      && Lo(cfg.acc, t.kvs, i, lo) <= key <= Hi(t.kvs, i, hi)
  {
    hide HoldsNode, NodeOf, KidsOrdered;
    assert HoldsAll(cfg, file, t.kids);
    KidOrdered(cfg.acc, false, t.kvs, t.kids, Position(t.kvs, key, cfg.acc.Upper(false)), lo, hi);
  }

  lemma NodeFacts(cfg: Cfg, file: seq<Page>, t: Tree, lo: int, hi: int)
    requires Holds(cfg, file, t) && Ordered(cfg.acc, false, t, lo, hi)
    ensures t.Inner? ==> |t.kids| == |t.kvs| + 1
    ensures HoldsNode(cfg, file, t.id, NodeOf(t)) && NodeOf(t).leaf == t.Leaf?
    ensures SameRecords(NodeOf(t).cells, t.kvs) && |NodeOf(t).cells| == |t.kvs| && Ascending(t.kvs)
  {
    NodeRecords(t);
    hide HoldsNode, NodeOf, SameRecords, HoldsAll, KidsOrdered;
  }

  lemma RootFacts(cfg: Cfg, file: seq<Page>, t: Tree)
    requires Stored(cfg, file, t)
    ensures Holds(cfg, file, t) && Ordered(cfg.acc, false, t, MIN_KEY, MAX_KEY + 1) && Uniform(t, HeightOf(t))
  {
    hide Holds, Ordered, Uniform, Pages, Leaves;
  }

  lemma ReadRecord(cfg: Cfg, s: Page, t: Tree, i: nat)
    requires (t.Inner? ==> |t.kids| == |t.kvs| + 1) && Repr(cfg, s, NodeOf(t)) && i < |t.kvs|
    ensures HEADER + SLOT * i + SLOT <= |s| && CellPtr(s, i) + cfg.acc.CellSize(t.Leaf?, 0) <= |s|
    ensures ReadCell(cfg.acc, s, i, t.Leaf?).key == t.kvs[i].key && ReadCell(cfg.acc, s, i, t.Leaf?).val == t.kvs[i].val
  {
    NodeRecords(t);
    hide Repr, CellPtr, DecodeCell;
    ReadSlot(cfg, s, NodeOf(t), i);
  }

  lemma FoundHere(acc: Acc, t: Tree, key: int, lo: int, hi: int)
    requires Ordered(acc, false, t, lo, hi) && (t.Inner? ==> |t.kids| == |t.kvs| + 1) && lo <= key < hi
        && !acc.Upper(t.Leaf?)
    requires var i := Position(t.kvs, key, acc.Upper(t.Leaf?)); i < |t.kvs| && t.kvs[i].key == key
    ensures Lookup(Entries(acc, t), key) == Some(t.kvs[Position(t.kvs, key, acc.Upper(t.Leaf?))].val)
  {
    hide Position, Lookup, KidsOrdered, Flat;
    if t.Leaf? {
      LookupSorted(t.kvs, key);
    } else {
      LookupHere(acc, t, key, lo, hi);
    }
  }

  lemma NotInLeaf(acc: Acc, t: Tree, key: int, lo: int, hi: int)
    requires t.Leaf? && Ordered(acc, false, t, lo, hi)
    requires var i := Position(t.kvs, key, false); i < |t.kvs| ==> t.kvs[i].key != key
    ensures Lookup(Entries(acc, t), key) == None
  {
    LookupSorted(t.kvs, key);
  }

  /** One step down: the child on the file, its range, and the same answer. */
  lemma StepDown(cfg: Cfg, file: seq<Page>, t: Tree, key: int, lo: int, hi: int)
    requires t.Inner? && |t.kids| == |t.kvs| + 1 && Holds(cfg, file, t) && Ordered(cfg.acc, false, t, lo, hi)
        && lo <= key < hi
    requires var i := Position(t.kvs, key, cfg.acc.Upper(false));
      i < |t.kvs| && t.kvs[i].key == key ==> cfg.acc.Upper(false)
    ensures var i := Position(t.kvs, key, cfg.acc.Upper(false));
      && i <= |t.kvs| && Holds(cfg, file, t.kids[i])
      && Ordered(cfg.acc, false, t.kids[i], Lo(cfg.acc, t.kvs, i, lo), Hi(t.kvs, i, hi))
      && Lo(cfg.acc, t.kvs, i, lo) <= key < Hi(t.kvs, i, hi)
      && Lookup(Entries(cfg.acc, t), key) == Lookup(Entries(cfg.acc, t.kids[i]), key)
  {
    hide Lookup, Ordered, HoldsNode, NodeOf, Entries;
    assert HoldsAll(cfg, file, t.kids);
    LookupBelow(cfg.acc, t, key, lo, hi);
  }

  /** The insert that completes is one map update. */
  lemma UpdatesMap(cfg: Cfg, file: seq<Page>, t: Tree, key: int, val: Value)
    requires Stored(cfg, file, t) && IsKey(key) && TreeModel.Insert(cfg, Db(t, |file|), key, val).Db?
    ensures ToMap(Entries(cfg.acc, TreeModel.Insert(cfg, Db(t, |file|), key, val).t))
      == ToMap(Entries(cfg.acc, t))[key := val]
  {
    hide Invariant, TreeModel.Insert, Entries, ToMap, Holds, HeaderId;
    InsertKeeps(cfg, Db(t, |file|), key, val);
  }

  lemma BeforeRoot(cfg: Cfg, file: seq<Page>, t: Tree, key: int, val: Value)
    requires Stored(cfg, file, t) && IsKey(key) && |val| < 0x1_0000
    requires var db := TreeModel.Insert(cfg, Db(t, |file|), key, val); db.Db? && db.pages < INVALID_PAGE
    ensures CanRec(cfg, file, t, key, val, MIN_KEY, MAX_KEY + 1)
    ensures Invariant(cfg, TreeModel.Insert(cfg, Db(t, |file|), key, val))
    ensures t.id < |file| && |file| >= 3 && HEADER <= cfg.pageSize < 0x1_0000
  {
    forall x: nat
      ensures Pages(t)[x] <= 1
    {
      FreshCount(2, |file|, x);
    }
    hide Holds, Ordered, InsRec, Pages, Uniform, Leaves, Chained;
    HeldFacts(cfg, file, t);
    InsertKeeps(cfg, Db(t, |file|), key, val);
  }

  /** Insert in terms of insertRec. */
  lemma InsertResult(cfg: Cfg, t: Tree, key: int, val: Value, pages: nat)
    requires TreeModel.Insert(cfg, Db(t, pages), key, val).Db?
    ensures var ins, db := InsRec(cfg, t, key, val, pages), TreeModel.Insert(cfg, Db(t, pages), key, val);
      && !ins.out.Broken?
      && (ins.out.Done? ==> db == Db(ins.out.t, ins.pages))
      && (ins.out.Split? ==>
            Fits(cfg, false, [ins.out.m])
                && db == Db(NewRoot(cfg, ins.pages, ins.out.l, ins.out.m, ins.out.r), ins.pages + 1))
  {
    hide InsRec, Used, Fits;
  }

  /** After insertRec at the root: the header page is as it was, and the outcome lies on known pages. */
  lemma AfterRoot(cfg: Cfg, f0: seq<Page>, f1: seq<Page>, t: Tree, key: int, val: Value, mk: int, mv: Value, newId: nat,
      split: bool)
    requires Stored(cfg, f0, t) && Effect(cfg, f0, f1, t, key, val, mk, mv, newId, split)
    requires var db := TreeModel.Insert(cfg, Db(t, |f0|), key, val);
      db.Db? && db.pages < INVALID_PAGE && Invariant(cfg, db)
    ensures |f0| <= |f1| == InsRec(cfg, t, key, val, |f0|).pages
    ensures var ins := InsRec(cfg, t, key, val, |f0|);
      var db, out := TreeModel.Insert(cfg, Db(t, |f0|), key, val), ins.out;
      && (!split ==> out.Done? && Stored(cfg, f1, out.t) && out.t.id == t.id && db == Db(out.t, |f1|))
      && (split ==>
            && Fits(cfg, false, [out.m]) && db == Db(NewRoot(cfg, |f1|, out.l, out.m, out.r), |f1| + 1)
            && out.Split? && Holds(cfg, f1, out.l) && Holds(cfg, f1, out.r)
            && out.l.id == t.id < |f1| && out.r.id == newId < |f1|
            && 1 !in Pages(out.l) + Pages(out.r)
            && out.m == KV(mk, mv) && Legal(cfg.acc, false, Cell(mk, mv, 0)))
  {
    hide Ordered, Uniform, Chained, Pages, Leaves, InsRec, Holds, U32, Legal, NewRoot, Fits, TreeModel.Insert;
    InsertResult(cfg, t, key, val, |f0|);
    FreshCount(2, |f0|, 1);
    var out := InsRec(cfg, t, key, val, |f0|).out;
    InsertPages(cfg, t, key, val, |f0|);
    InsertIds(cfg, t, key, val, |f0|);
    FreshCount(|f0|, |f1|, 1);
    if split {
      HeldFacts(cfg, f1, out.l);
      HeldFacts(cfg, f1, out.r);
    }
  }

  lemma RootStored(cfg: Cfg, file: seq<Page>, root: Tree, t: Tree, pages: nat, key: int, val: Value)
    requires TreeModel.Insert(cfg, Db(t, pages), key, val) == Db(root, |file|) && |file| < INVALID_PAGE
    requires Invariant(cfg, Db(root, |file|)) && Holds(cfg, file, root) && HeaderId(file) == root.id
    ensures Stored(cfg, file, root)
  {
  }
}
