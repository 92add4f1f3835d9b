/** A page represents no node whose cells and slots do not fit: the limit behind splitting by cell count. */
module PageCapacity {
  import opened Bytes
  import opened Records
  import opened TreeModel
  import opened Layout
  import opened PageOps
  import opened Refine

  /** The n offsets from a on. */
  function Span(a: nat, n: nat): (r: set<nat>)
    ensures |r| == n && forall x :: x in r <==> a <= x < a + n
  {
    if n == 0 then {} else Span(a, n - 1) + {a + n - 1}
  }

  /** A subset is no larger. */
  lemma SubsetSize(a: set<nat>, b: set<nat>)
    requires forall x | x in a :: x in b
    ensures |a| <= |b|
  {
    assert b == a + (b - a);
  }

  /** The offsets that the first k cells of a page take. */
  ghost function Taken(cfg: Cfg, s: Page, nd: Node, k: nat): set<nat>
    requires Repr(cfg, s, nd) && k <= |nd.cells|
  {
    if k == 0 then {} else Taken(cfg, s, nd, k - 1) + Span(CellPtr(s, k - 1), SizeOf(cfg.acc, nd.leaf, nd.cells[k - 1]))
  }

  lemma {:induction false} TakenBefore(cfg: Cfg, s: Page, nd: Node, k: nat, x: nat) returns (i: nat)
    requires Repr(cfg, s, nd) && k <= |nd.cells| && x in Taken(cfg, s, nd, k)
    ensures i < k && x in Span(CellPtr(s, i), SizeOf(cfg.acc, nd.leaf, nd.cells[i]))
  {
    hide Span, CellOk, CellAt, Apart, SizeOf, U16;
    if x in Span(CellPtr(s, k - 1), SizeOf(cfg.acc, nd.leaf, nd.cells[k - 1])) {
      i := k - 1;
    } else {
      i := TakenBefore(cfg, s, nd, k - 1, x);
    }
  }

  /** No two cells share a byte, so the cells take exactly as many bytes as they have. */
  lemma {:induction false} TakenSize(cfg: Cfg, s: Page, nd: Node, k: nat)
    requires Repr(cfg, s, nd) && k <= |nd.cells|
    ensures |Taken(cfg, s, nd, k)| == UsedBy(cfg, nd.leaf, nd.cells[..k])
  {
    hide Repr, CellPtr, SizeOf, Span;
    if k > 0 {
      SlotsOnPage(cfg, s, nd);
      TakenSize(cfg, s, nd, k - 1);
      TakenApart(cfg, s, nd, k);
      assert nd.cells[..k][..k - 1] == nd.cells[..k - 1];
    }
  }

  lemma SlotsOnPage(cfg: Cfg, s: Page, nd: Node)
    requires Repr(cfg, s, nd)
    ensures HEADER + SLOT * |nd.cells| <= |s|
  {
    hide CellOk, Apart;
    BodySize(cfg, s, nd);
  }

  lemma TakenApart(cfg: Cfg, s: Page, nd: Node, k: nat)
    requires Repr(cfg, s, nd) && 0 < k <= |nd.cells|
    ensures HEADER + SLOT * |nd.cells| <= |s|
    ensures Taken(cfg, s, nd, k - 1) * Span(CellPtr(s, k - 1), SizeOf(cfg.acc, nd.leaf, nd.cells[k - 1])) == {}
  {
    hide CellOk, CellAt, U16, SizeOf, Span;
    SlotsOnPage(cfg, s, nd);
    var t, c := Taken(cfg, s, nd, k - 1), Span(CellPtr(s, k - 1), SizeOf(cfg.acc, nd.leaf, nd.cells[k - 1]));
    forall x | x in t
      ensures x !in c
    {
      var i := TakenBefore(cfg, s, nd, k - 1, x);
      assert Apart(cfg.acc, s, nd.leaf, nd.cells[i], i, nd.cells[k - 1], k - 1);
    }
  }

  /** Whatever is written to a page, it represents only nodes whose cells and slots fit. */
  lemma OnlyFittingNodes(cfg: Cfg, s: Page, nd: Node)
    requires Repr(cfg, s, nd)
    ensures FitsCells(cfg, nd.leaf, nd.cells)
  {
    hide CellOk, CellAt, Apart, SizeOf, Taken, UsedBy, CellPtr;
    var n := |nd.cells|;
    TakenSize(cfg, s, nd, n);
    assert nd.cells[..n] == nd.cells;
    TakenInRoom(cfg, s, nd);
    SubsetSize(Taken(cfg, s, nd, n), Span(nd.content, cfg.pageSize - nd.content));
  }

  lemma TakenInRoom(cfg: Cfg, s: Page, nd: Node)
    requires Repr(cfg, s, nd)
    ensures nd.content <= cfg.pageSize
    ensures forall x | x in Taken(cfg, s, nd, |nd.cells|) :: x in Span(nd.content, cfg.pageSize - nd.content)
  {
    BodySize(cfg, s, nd);
    hide Span, U16;
    forall x | x in Taken(cfg, s, nd, |nd.cells|)
      ensures x in Span(nd.content, cfg.pageSize - nd.content)
    {
      var i := TakenBefore(cfg, s, nd, |nd.cells|, x);
      SlotInside(cfg, s, nd, i);
    }
  }

  /** A split half that does not fit is held by no file, whatever the code writes for it. */
  lemma OversizedHalfLost(cfg: Cfg, file: seq<Page>, t: Tree)
    requires (t.Inner? ==> |t.kids| == |t.kvs| + 1) && !Fits(cfg, t.Leaf?, t.kvs)
    ensures !Holds(cfg, file, t)
  {
    if Holds(cfg, file, t) {
      hide Repr, HoldsAll;
      OnlyFittingNodes(cfg, file[t.id], NodeOf(t));
      UsedByKvs(cfg, t.Leaf?, NodeOf(t).cells, t.kvs);
    }
  }

  /** splitNode on a leaf fails in the TreeModel only where no pages could hold the two halves of the record count. */
  lemma SplitFailsOnlyThen(cfg: Cfg, t: Tree, all: seq<KV>, pages: nat, file: seq<Page>, c: nat, c': nat, next: nat,
      next': nat)
    requires t.Leaf? && all != [] && SplitLeaf(cfg, t, all, pages).out.Broken?
    ensures var right := if cfg.acc.CopyUp() then all[|all| / 2..] else all[|all| / 2 + 1..];
      !(Holds(cfg, file, Leaf(t.id, all[..|all| / 2], c, next)) && Holds(cfg, file, Leaf(pages, right, c', next')))
  {
    hide Holds, Fits;
    var right := if cfg.acc.CopyUp() then all[|all| / 2..] else all[|all| / 2 + 1..];
    if !Fits(cfg, true, right) {
      OversizedHalfLost(cfg, file, Leaf(pages, right, c', next'));
    } else {
      OversizedHalfLost(cfg, file, Leaf(t.id, all[..|all| / 2], c, next));
    }
  }

  /** The same for an internal node. */
  lemma SplitInnerFailsOnlyThen(cfg: Cfg, id: nat, all: seq<KV>, kids: seq<Tree>, pages: nat, file: seq<Page>, c: nat,
      c': nat)
    requires all != [] && |kids| == |all| + 1 && SplitInner(cfg, id, all, kids, pages).out.Broken?
    ensures var mid := |all| / 2;
      !(Holds(cfg, file, Inner(id, all[..mid], kids[..mid + 1], c))
        && Holds(cfg, file, Inner(pages, all[mid + 1..], kids[mid + 1..], c')))
  {
    hide Holds, Fits;
    var mid := |all| / 2;
    if !Fits(cfg, false, all[mid + 1..]) {
      OversizedHalfLost(cfg, file, Inner(pages, all[mid + 1..], kids[mid + 1..], c'));
    } else {
      OversizedHalfLost(cfg, file, Inner(id, all[..mid], kids[..mid + 1], c));
    }
  }
}
