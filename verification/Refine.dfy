/** How a tree lies on the pages of the file, and what the page-level insert makes of one node. */
module Refine {
  import opened Bytes
  import opened Records
  import opened TreeModel
  import opened Shape
  import opened Layout
  import opened PageOps

  // ---------------------------------------------------------------- trees on pages

  function LeafCells(kvs: seq<KV>): (cells: seq<Cell>)
    ensures |cells| == |kvs|
  {
    seq(|kvs|, i requires 0 <= i < |kvs| => Cell(kvs[i].key, kvs[i].val, 0))
  }

  function InnerCells(kvs: seq<KV>, kids: seq<Tree>): (cells: seq<Cell>)
    requires |kids| >= |kvs|
    ensures |cells| == |kvs|
  {
    seq(|kvs|, i requires 0 <= i < |kvs| => Cell(kvs[i].key, kvs[i].val, kids[i].id))
  }

  /** The node that a tree's root page must hold. */
  function NodeOf(t: Tree): Node
    requires t.Inner? ==> |t.kids| == |t.kvs| + 1
  {
    match t
    case Leaf(_, kvs, content, next) => Node(true, LeafCells(kvs), 0, next, content)
    case Inner(_, kvs, kids, content) => Node(false, InnerCells(kvs, kids), kids[|kvs|].id, INVALID_PAGE, content)
  }

  ghost predicate HoldsNode(cfg: Cfg, file: seq<Page>, id: nat, nd: Node) {
    id < |file| && Repr(cfg, file[id], nd)
  }

  /** The file holds every page of the tree. */
  ghost predicate Holds(cfg: Cfg, file: seq<Page>, t: Tree)
    decreases t
  {
    && (t.Inner? ==> |t.kids| == |t.kvs| + 1)
    && HoldsNode(cfg, file, t.id, NodeOf(t))
    && (t.Inner? ==> HoldsAll(cfg, file, t.kids))
  }

  ghost predicate HoldsAll(cfg: Cfg, file: seq<Page>, kids: seq<Tree>)
    decreases kids
  {
    forall j | 0 <= j < |kids| :: Holds(cfg, file, kids[j])
  }

  /** file' has all the pages of file, and the same bytes on the pages counted in ids. */
  ghost predicate SamePages(file: seq<Page>, file': seq<Page>, ids: multiset<nat>) {
    |file| <= |file'| && forall x | x < |file| && x in ids :: file'[x] == file[x]
  }

  lemma {:induction false} InPagesOf(kids: seq<Tree>, j: nat, x: nat)
    requires j < |kids|
    ensures Pages(kids[j])[x] <= PagesOf(kids)[x]
  {
    hide Pages;
    if j > 0 {
      InPagesOf(kids[1..], j - 1, x);
    }
  }

  lemma {:induction false} TwoInPagesOf(kids: seq<Tree>, i: nat, j: nat, x: nat)
    requires i < j < |kids|
    ensures Pages(kids[i])[x] + Pages(kids[j])[x] <= PagesOf(kids)[x]
  {
    hide Pages;
    if i > 0 {
      TwoInPagesOf(kids[1..], i - 1, j - 1, x);
    } else {
      InPagesOf(kids[1..], j - 1, x);
    }
  }

  lemma {:induction false} HoldsFrame(cfg: Cfg, file: seq<Page>, file': seq<Page>, t: Tree)
    requires Holds(cfg, file, t) && SamePages(file, file', Pages(t))
    ensures Holds(cfg, file', t)
    decreases t
  {
    hide Repr;
    if t.Inner? {
      forall j | 0 <= j < |t.kids|
        ensures Holds(cfg, file', t.kids[j])
      {
        assert Holds(cfg, file, t.kids[j]);
        forall x
          ensures Pages(t.kids[j])[x] <= Pages(t)[x]
        {
          InPagesOf(t.kids, j, x);
        }
        HoldsFrame(cfg, file, file', t.kids[j]);
      }
    }
  }

  /** No page is used twice. */
  ghost predicate Once(ids: multiset<nat>) {
    forall x: nat :: ids[x] <= 1
  }

  // ---------------------------------------------------------------- one node

  function UsedBy(cfg: Cfg, leaf: bool, cells: seq<Cell>): nat {
    if cells == [] then 0
    else UsedBy(cfg, leaf, cells[..|cells| - 1]) + SizeOf(cfg.acc, leaf, cells[|cells| - 1])
  }

  predicate FitsCells(cfg: Cfg, leaf: bool, cells: seq<Cell>) {
    HEADER + SLOT * |cells| + UsedBy(cfg, leaf, cells) <= cfg.pageSize
  }

  lemma {:induction false} FitsPrefix(cfg: Cfg, leaf: bool, cells: seq<Cell>, k: nat)
    requires k <= |cells| && FitsCells(cfg, leaf, cells)
    ensures FitsCells(cfg, leaf, cells[..k])
    decreases |cells|
  {
    if k == |cells| {
      assert cells[..k] == cells;
    } else {
      FitsPrefix(cfg, leaf, cells[..|cells| - 1], k);
      assert cells[..|cells| - 1][..k] == cells[..k];
    }
  }

  /** The cells after an insert at idx whose child idx got a new right neighbour. */
  function AllCells(nd: Node, idx: nat, key: int, val: Value, right: nat): (all: seq<Cell>)
    requires idx <= |nd.cells|
    ensures |all| == |nd.cells| + 1
  {
    var cells := InsertAt(nd.cells, idx, Cell(key, val, if nd.leaf then 0 else ChildOf(nd, idx)));
    if idx < |nd.cells| && !nd.leaf then cells[idx + 1 := cells[idx + 1].(left := right)] else cells
  }

  /** The free pointer of a page filled with just these cells. */
  function Filled(cfg: Cfg, leaf: bool, cells: seq<Cell>): nat {
    if UsedBy(cfg, leaf, cells) <= cfg.pageSize then cfg.pageSize - UsedBy(cfg, leaf, cells) else 0
  }

  function LeftHalf(cfg: Cfg, leaf: bool, all: seq<Cell>, newId: nat): Node
    requires all != []
  {
    var mid := |all| / 2;
    Node(leaf, all[..mid], if leaf then 0 else all[mid].left,
         if leaf && cfg.acc.CopyUp() then newId else INVALID_PAGE, Filled(cfg, leaf, all[..mid]))
  }

  /** The cells that the new right page gets. */
  function RightCells(acc: Acc, leaf: bool, all: seq<Cell>): seq<Cell>
    requires all != []
  {
    if leaf && acc.CopyUp() then all[|all| / 2..] else all[|all| / 2 + 1..]
  }

  function RightHalf(cfg: Cfg, leaf: bool, all: seq<Cell>, rightmost: nat, next: nat): Node
    requires all != []
  {
    var right := RightCells(cfg.acc, leaf, all);
    Node(leaf, right, if leaf then 0 else rightmost,
         if leaf && cfg.acc.CopyUp() then next else INVALID_PAGE, Filled(cfg, leaf, right))
  }

  /** Both halves fit their pages. */
  predicate HalvesFit(cfg: Cfg, leaf: bool, all: seq<Cell>)
    requires all != []
  {
    FitsCells(cfg, leaf, all[..|all| / 2]) && FitsCells(cfg, leaf, RightCells(cfg.acc, leaf, all))
  }

  function PromotedVal(acc: Acc, leaf: bool, c: Cell): Value {
    if leaf && acc.CopyUp() then [] else c.val
  }

  // ---------------------------------------------------------------- nodes and trees

  lemma {:induction false} UsedByKvs(cfg: Cfg, leaf: bool, cells: seq<Cell>, kvs: seq<KV>)
    requires |cells| == |kvs| && forall i | 0 <= i < |kvs| :: cells[i].val == kvs[i].val
    ensures UsedBy(cfg, leaf, cells) == Used(cfg, leaf, kvs)
    ensures FitsCells(cfg, leaf, cells) == Fits(cfg, leaf, kvs)
  {
    if kvs != [] {
      UsedByKvs(cfg, leaf, cells[..|cells| - 1], kvs[..|kvs| - 1]);
    }
  }

  /** An insert keeps the page id of the node it descends into; a split puts the right half on the last new page. */
  lemma {:induction false} InsertIds(cfg: Cfg, t: Tree, key: int, val: Value, pages: nat)
    ensures var ins := InsRec(cfg, t, key, val, pages);
      && (ins.out.Done? ==> ins.out.t.id == t.id)
      && (ins.out.Split? ==> ins.out.l.id == t.id && ins.pages > 0 && ins.out.r.id == ins.pages - 1)
    decreases t
  {
    hide Used, Fits, RoomFor, Position, InsertAt;
    var i := Position(t.kvs, key, cfg.acc.Upper(t.Leaf?));
    if t.Inner? && |t.kids| == |t.kvs| + 1 {
      InsertIds(cfg, t.kids[i], key, val, pages);
    }
  }

  lemma LeafPutForm(cfg: Cfg, t: Tree, idx: nat, kv: KV, pages: nat)
    requires t.Leaf? && idx <= |t.kvs|
    ensures var ins := LeafPut(cfg, t, idx, kv, pages);
      && (ins.out.Done? ==> ins.out.t.Leaf? && ins.out.t.id == t.id && ins.pages == pages)
      && (ins.out.Split? ==>
            && ins.out.l.Leaf? && ins.out.r.Leaf? && ins.out.l.id == t.id && ins.out.r.id == pages
                && ins.pages == pages + 1)
      && (ins.out.Done? ==> FreeSpace(t.content, |t.kvs|) >= cfg.acc.CellSize(true, |kv.val|))
      && (ins.out.Split? ==> FreeSpace(t.content, |t.kvs|) < cfg.acc.CellSize(true, |kv.val|))
  {
    hide Used, Fits, InsertAt;
  }

  lemma InnerPutForm(cfg: Cfg, t: Tree, idx: nat, l: Tree, m: KV, r: Tree, pages: nat)
    requires t.Inner? && |t.kids| == |t.kvs| + 1 && idx <= |t.kvs|
    ensures var ins := InnerPut(cfg, t, idx, l, m, r, pages);
      && (ins.out.Done? ==>
            && ins.out.t.Inner? && |ins.out.t.kids| == |ins.out.t.kvs| + 1 && ins.out.t.id == t.id
              && ins.pages == pages)
      && (ins.out.Split? ==>
            && ins.out.l.Inner? && ins.out.r.Inner? && ins.out.l.id == t.id && ins.out.r.id == pages
                && ins.pages == pages + 1
            && |ins.out.l.kids| == |ins.out.l.kvs| + 1 && |ins.out.r.kids| == |ins.out.r.kvs| + 1)
      && (ins.out.Done? ==> FreeSpace(t.content, |t.kvs|) >= cfg.acc.CellSize(false, |m.val|))
      && (ins.out.Split? ==> FreeSpace(t.content, |t.kvs|) < cfg.acc.CellSize(false, |m.val|))
  {
    hide Used, Fits, InsertAt;
    assert |InsertAt(t.kids[idx := l], idx + 1, r)| == |t.kids| + 1;
  }

  lemma LeafAllCells(t: Tree, idx: nat, kv: KV)
    requires t.Leaf? && idx <= |t.kvs|
    ensures AllCells(NodeOf(t), idx, kv.key, kv.val, 0) == LeafCells(InsertAt(t.kvs, idx, kv))
  {
  }

  /** doInsert on a leaf that keeps the cell. */
  lemma LeafDoneNode(cfg: Cfg, t: Tree, idx: nat, kv: KV, pages: nat)
    requires t.Leaf? && idx <= |t.kvs| && LeafPut(cfg, t, idx, kv, pages).out.Done?
    ensures t.content >= HEADER + SLOT * (|t.kvs| + 1) + cfg.acc.CellSize(true, |kv.val|)
    ensures NodeOf(LeafPut(cfg, t, idx, kv, pages).out.t) == AddCell(cfg.acc, NodeOf(t), idx, kv.key, kv.val, 0)
  {
    hide Used, Fits, InsertAt;
    LeafAllCells(t, idx, kv);
  }

  /** doInsert on a leaf that splits. */
  lemma LeafSplitNodes(cfg: Cfg, t: Tree, idx: nat, kv: KV, pages: nat)
    requires t.Leaf? && idx <= |t.kvs| && LeafPut(cfg, t, idx, kv, pages).out.Split?
    ensures var out := LeafPut(cfg, t, idx, kv, pages).out;
      var all := AllCells(NodeOf(t), idx, kv.key, kv.val, 0);
      && FreeSpace(t.content, |t.kvs|) < cfg.acc.CellSize(true, |kv.val|)
      && HalvesFit(cfg, true, all)
      && NodeOf(out.l) == LeftHalf(cfg, true, all, pages)
      && NodeOf(out.r) == RightHalf(cfg, true, all, 0, t.next)
      && out.m == KV(all[|all| / 2].key, PromotedVal(cfg.acc, true, all[|all| / 2]))
  {
    hide Used, Fits, UsedBy, InsertAt, AllCells;
    LeafAllCells(t, idx, kv);
    var all := AllCells(NodeOf(t), idx, kv.key, kv.val, 0);
    var out := LeafPut(cfg, t, idx, kv, pages).out;
    var mid := |all| / 2;
    assert LeafCells(out.l.kvs) == all[..mid];
    assert LeafCells(out.r.kvs) == RightCells(cfg.acc, true, all);
    UsedByKvs(cfg, true, all[..mid], out.l.kvs);
    UsedByKvs(cfg, true, RightCells(cfg.acc, true, all), out.r.kvs);
  }

  lemma InnerAllCells(t: Tree, idx: nat, l: Tree, m: KV, r: Tree)
    requires t.Inner? && |t.kids| == |t.kvs| + 1 && idx <= |t.kvs| && l.id == t.kids[idx].id
    ensures AllCells(NodeOf(t), idx, m.key, m.val, r.id)
         == InnerCells(InsertAt(t.kvs, idx, m), InsertAt(t.kids[idx := l], idx + 1, r))
    ensures InsertAt(t.kids[idx := l], idx + 1, r)[|t.kvs| + 1].id
      == if idx == |t.kvs| then r.id else NodeOf(t).rightmost
  {
  }

  /** doInsert on an internal node that keeps the cell. */
  lemma InnerDoneNode(cfg: Cfg, t: Tree, idx: nat, l: Tree, m: KV, r: Tree, pages: nat)
    requires t.Inner? && |t.kids| == |t.kvs| + 1 && idx <= |t.kvs| && l.id == t.kids[idx].id
    requires InnerPut(cfg, t, idx, l, m, r, pages).out.Done?
    ensures t.content >= HEADER + SLOT * (|t.kvs| + 1) + cfg.acc.CellSize(false, |m.val|)
    ensures NodeOf(InnerPut(cfg, t, idx, l, m, r, pages).out.t) == AddCell(cfg.acc, NodeOf(t), idx, m.key, m.val, r.id)
  {
    hide Used, Fits;
    InnerAllCells(t, idx, l, m, r);
    hide InnerCells, InsertAt;
  }

  /** doInsert on an internal node that splits. */
  lemma InnerSplitNodes(cfg: Cfg, t: Tree, idx: nat, l: Tree, m: KV, r: Tree, pages: nat)
    requires t.Inner? && |t.kids| == |t.kvs| + 1 && idx <= |t.kvs| && l.id == t.kids[idx].id
    requires InnerPut(cfg, t, idx, l, m, r, pages).out.Split?
    ensures var out := InnerPut(cfg, t, idx, l, m, r, pages).out;
      var all := AllCells(NodeOf(t), idx, m.key, m.val, r.id);
      && FreeSpace(t.content, |t.kvs|) < cfg.acc.CellSize(false, |m.val|)
      && HalvesFit(cfg, false, all)
      && |out.l.kids| == |out.l.kvs| + 1 && |out.r.kids| == |out.r.kvs| + 1
      && NodeOf(out.l) == LeftHalf(cfg, false, all, pages)
      && NodeOf(out.r) == RightHalf(cfg, false, all, if idx == |t.kvs| then r.id else NodeOf(t).rightmost, INVALID_PAGE)
      && out.m == KV(all[|all| / 2].key, PromotedVal(cfg.acc, false, all[|all| / 2]))
  {
    hide Used, Fits, UsedBy, InsertAt, AllCells;
    InnerAllCells(t, idx, l, m, r);
    var all := AllCells(NodeOf(t), idx, m.key, m.val, r.id);
    var out := InnerPut(cfg, t, idx, l, m, r, pages).out;
    var mid := |all| / 2;
    assert InnerCells(out.l.kvs, out.l.kids) == all[..mid];
    assert InnerCells(out.r.kvs, out.r.kids) == all[mid + 1..];
    UsedByKvs(cfg, false, all[..mid], out.l.kvs);
    UsedByKvs(cfg, false, all[mid + 1..], out.r.kvs);
  }

  // ---------------------------------------------------------------- the file around an insert

  /** file' agrees with file on all of its pages that are not counted in ids. */
  ghost predicate OnlyPages(file: seq<Page>, file': seq<Page>, ids: multiset<nat>) {
    |file| <= |file'| && forall x: nat | x < |file| && x !in ids :: file'[x] == file[x]
  }

  /** While child i changes, its parent's page and its siblings stay. */
  lemma SiblingsKept(cfg: Cfg, file: seq<Page>, file': seq<Page>, t: Tree, i: nat)
    requires t.Inner? && Holds(cfg, file, t) && i < |t.kids| && Once(Pages(t))
    requires OnlyPages(file, file', Pages(t.kids[i]))
    ensures HoldsNode(cfg, file', t.id, NodeOf(t))
    ensures forall j | 0 <= j < |t.kids| && j != i :: Holds(cfg, file', t.kids[j])
    ensures t.id !in Pages(t.kids[i]) && forall x: nat :: x in Pages(t.kids[i]) ==> x in Pages(t)
  {
    hide Repr, NodeOf, PagesOf;
    assert Pages(t) == multiset{t.id} + PagesOf(t.kids);
    forall x: nat
      ensures Pages(t.kids[i])[x] <= PagesOf(t.kids)[x] <= Pages(t)[x] <= 1
      ensures x == t.id ==> PagesOf(t.kids)[x] == 0
    {
      InPagesOf(t.kids, i, x);
      assert Pages(t)[x] == (if x == t.id then 1 else 0) + PagesOf(t.kids)[x];
    }
    forall j | 0 <= j < |t.kids| && j != i
      ensures Holds(cfg, file', t.kids[j])
    {
      assert Holds(cfg, file, t.kids[j]);
      forall x: nat | x in Pages(t.kids[j])
        ensures x !in Pages(t.kids[i])
      {
        TwoInPagesOf(t.kids, if i < j then i else j, if i < j then j else i, x);
      }
      HoldsFrame(cfg, file, file', t.kids[j]);
    }
  }

  lemma SpliceHolds(cfg: Cfg, file: seq<Page>, kids: seq<Tree>, i: nat, l: Tree, r: Tree)
    requires i < |kids| && Holds(cfg, file, l) && Holds(cfg, file, r)
    requires forall j | 0 <= j < |kids| && j != i :: Holds(cfg, file, kids[j])
    ensures HoldsAll(cfg, file, InsertAt(kids[i := l], i + 1, r))
  {
    hide Holds;
  }

  lemma {:induction false} HoldsAllFrame(cfg: Cfg, file: seq<Page>, file': seq<Page>, kids: seq<Tree>)
    requires HoldsAll(cfg, file, kids) && SamePages(file, file', PagesOf(kids))
    ensures HoldsAll(cfg, file', kids)
  {
    hide Holds, Pages, PagesOf;
    forall j | 0 <= j < |kids|
      ensures Holds(cfg, file', kids[j])
    {
      forall x: nat
        ensures Pages(kids[j])[x] <= PagesOf(kids)[x]
      {
        InPagesOf(kids, j, x);
      }
      HoldsFrame(cfg, file, file', kids[j]);
    }
  }

  /** The file holds the outcome of an insert. */
  ghost predicate HoldsOut(cfg: Cfg, file: seq<Page>, out: Out) {
    match out
    case Done(t) => Holds(cfg, file, t)
    case Split(l, m, r) => Holds(cfg, file, l) && Holds(cfg, file, r)
    case Broken => false
  }

  /** doInsert at the parent writes the parent's page, and perhaps a new one; the children stay as they are. */
  lemma InnerPutHolds(cfg: Cfg, file: seq<Page>, file': seq<Page>, t: Tree, i: nat, l: Tree, m: KV, r: Tree, pages: nat)
    requires t.Inner? && |t.kids| == |t.kvs| + 1 && i <= |t.kvs| && pages == |file|
    requires var kids := InsertAt(t.kids[i := l], i + 1, r);
      HoldsAll(cfg, file, kids) && SamePages(file, file', PagesOf(kids))
    requires var out := InnerPut(cfg, t, i, l, m, r, pages).out;
      && (out.Done? ==> HoldsNode(cfg, file', t.id, NodeOf(out.t)))
      && (out.Split? ==> HoldsNode(cfg, file', t.id, NodeOf(out.l)) && HoldsNode(cfg, file', pages, NodeOf(out.r)))
      && !out.Broken?
    ensures HoldsOut(cfg, file', InnerPut(cfg, t, i, l, m, r, pages).out)
  {
    hide HoldsNode, NodeOf, PagesOf, Used, Fits, RoomFor, InsertAt, HoldsAll;
    var kids := InsertAt(t.kids[i := l], i + 1, r);
    HoldsAllFrame(cfg, file, file', kids);
    var out := InnerPut(cfg, t, i, l, m, r, pages).out;
    if out.Split? {
      HoldsCut(cfg, file', kids, |out.l.kids|);
    }
  }

  lemma HoldsCut(cfg: Cfg, file: seq<Page>, kids: seq<Tree>, k: nat)
    requires HoldsAll(cfg, file, kids) && k <= |kids|
    ensures HoldsAll(cfg, file, kids[..k]) && HoldsAll(cfg, file, kids[k..])
  {
    hide Holds;
  }

  lemma HoldsReplace(cfg: Cfg, file: seq<Page>, t: Tree, i: nat, c: Tree)
    requires t.Inner? && |t.kids| == |t.kvs| + 1 && i < |t.kids| && c.id == t.kids[i].id
    requires HoldsNode(cfg, file, t.id, NodeOf(t)) && Holds(cfg, file, c)
    requires forall j | 0 <= j < |t.kids| && j != i :: Holds(cfg, file, t.kids[j])
    ensures Holds(cfg, file, t.(kids := t.kids[i := c]))
  {
    hide HoldsNode;
    var kids := t.kids[i := c];
    assert InnerCells(t.kvs, kids) == InnerCells(t.kvs, t.kids);
    assert forall j | 0 <= j < |kids| :: Holds(cfg, file, kids[j]);
  }
}
