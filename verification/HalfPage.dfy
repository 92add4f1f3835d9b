/**
 A case the code does not handle: splitNode cuts the cells of a full node in half by their number, and one half needs
 more than a page.

 Nothing is checked when a half is written. The TreeModel calls this case Broken; here are the bytes that are left on
 the page, or the panic. FilledPage says when they read right.
 */
module HalfPage {
  import opened Bytes
  import opened Records
  import opened TreeModel
  import opened Layout
  import opened PageOps
  import opened Refine
  import opened ShortPage
  import T = TightPage

  /** Every AppendCell of the run stays on the page. */
  predicate Fillable(acc: Acc, s: Page, cells: seq<Cell>)
    decreases |cells|, 0
  {
    cells == [] ||
    var k := |cells| - 1;
    Fillable(acc, s, cells[..k]) && Appendable(acc, Fill(acc, s, cells[..k]), cells[k])
  }

  /** The bytes of a page after appending cells. */
  function Fill(acc: Acc, s: Page, cells: seq<Cell>): (t: Page)
    requires Fillable(acc, s, cells)
    ensures |t| == |s|
    decreases |cells|, 1
  {
    if cells == [] then s else Appended(acc, Fill(acc, s, cells[..|cells| - 1]), cells[|cells| - 1])
  }

  /** The bytes of one half: the cells, and then the link that splitNode sets. */
  function Half(acc: Acc, s: Page, leaf: bool, cells: seq<Cell>, link: nat): Page
    requires |s| >= HEADER && Fillable(acc, s, cells)
  {
    if !leaf then Over(Fill(acc, s, cells), OFF_RIGHTMOST, ToLE(4, link))
    else if acc.CopyUp() then Over(Fill(acc, s, cells), OFF_NEXT_LEAF, ToLE(4, link))
    else Fill(acc, s, cells)
  }

  /** What a half should read as. */
  function HalfNode(acc: Acc, leaf: bool, cells: seq<Cell>, link: nat): Node {
    Node(leaf, cells, if leaf then 0 else link, if leaf && acc.CopyUp() then link else INVALID_PAGE, 0)
  }

  /** Writing one half, on an empty page; ok is false when a write runs off the page and the call panics. */
  method ForceHalf(cfg: Cfg, p: array<byte>, leaf: bool, cells: seq<Cell>, link: nat) returns (ok: bool, ghost s: Page)
    requires HEADER <= p.Length == cfg.pageSize < 0x1_0000 && link < 0x1_0000_0000
    modifies p
    ensures Repr(cfg, s, Blank(cfg, leaf)) && |s| >= HEADER && (ok <==> Fillable(cfg.acc, s, cells))
    ensures ok ==> p[..] == Half(cfg.acc, s, leaf, cells, link)
  {
    hide Repr, Over, FromLE, ToLE, Appended, Appendable;
    InitPage(cfg, p, leaf);
    s := p[..];
    for i := 0 to |cells|
      invariant Fillable(cfg.acc, s, cells[..i]) && p[..] == Fill(cfg.acc, s, cells[..i])
    {
      assert cells[..i + 1][..i] == cells[..i];
      if !Appendable(cfg.acc, p[..], cells[i]) {
        NotFillable(cfg.acc, s, cells, i + 1);
        return false, s;
      }
      ForceAppend(cfg.acc, p, cells[i]);
    }
    assert cells[..|cells|] == cells;
    ghost var t := p[..];
    Widths();
    if !leaf {
      SetRightmost(p, link);
      PutField(t, p[..], OFF_RIGHTMOST, 4, link);
    } else if cfg.acc.CopyUp() {
      SetNextLeaf(p, link);
      PutField(t, p[..], OFF_NEXT_LEAF, 4, link);
    }
    ok := true;
  }

  /** An empty node. */
  function Blank(cfg: Cfg, leaf: bool): Node {
    Node(leaf, [], 0, INVALID_PAGE, cfg.pageSize)
  }

  lemma NotFillable(acc: Acc, s: Page, cells: seq<Cell>, k: nat)
    requires k <= |cells| && !Fillable(acc, s, cells[..k])
    ensures !Fillable(acc, s, cells)
  {
    if Fillable(acc, s, cells) {
      FillableBefore(acc, s, cells, k);
      assert false;
    }
  }

  lemma {:induction false} FillableBefore(acc: Acc, s: Page, cells: seq<Cell>, k: nat)
    requires Fillable(acc, s, cells) && k <= |cells|
    ensures Fillable(acc, s, cells[..k])
    decreases |cells|
  {
    hide Appendable, Appended;
    if k == |cells| {
      assert cells[..k] == cells;
    } else {
      FillableBefore(acc, s, cells[..|cells| - 1], k);
      assert cells[..|cells| - 1][..k] == cells[..k];
    }
  }

  // ---------------------------------------------------------------- the part that fits

  lemma ContentHolds(t: Page, x: nat)
    requires |t| >= HEADER && x < 0x1_0000
    ensures CellContent(t) == x <==> t[OFF_CONTENT..OFF_CONTENT + 2] == ToLE(2, x)
  {
    hide FromLE, ToLE;
    Widths();
    Field(t[OFF_CONTENT..OFF_CONTENT + 2], 2, x);
  }

  /** On a page with room for cell and slot AppendCell adds the cell. */
  lemma AppendFits(cfg: Cfg, s: Page, nd: Node, c: Cell)
    requires Repr(cfg, s, nd) && Legal(cfg.acc, nd.leaf, c)
    requires HEADER + SLOT * (|nd.cells| + 1) + SizeOf(cfg.acc, nd.leaf, c) <= nd.content
    ensures Appendable(cfg.acc, s, c)
    ensures Repr(cfg, Appended(cfg.acc, s, c),
                 nd.(cells := nd.cells + [c], content := nd.content - SizeOf(cfg.acc, nd.leaf, c)))
  {
    hide CellAt, FromLE, ToLE, CellOk, Apart, U16, Over, Enc, Appended;
    BodySize(cfg, s, nd);
    var n, top := |nd.cells|, nd.content - SizeOf(cfg.acc, nd.leaf, c);
    var s1, s2, s3 := Writes(cfg.acc, s, c);
    var t := Appended(cfg.acc, s, c);
    T.SlotHolds(s3, n, top);
    CellBytes(cfg.acc, nd.leaf, s2, top, c);
    ContentHolds(s1, top);
    Placed(cfg, s, s, s1, s2, s3, nd, n, c);
    assert InsertAt(nd.cells, n, c) == nd.cells + [c];
    var nd' := nd.(cells := nd.cells + [c], content := top);
    CountWritten(cfg, s3, t, nd');
    CountHolds(t, n + 1);
  }

  lemma CountHolds(t: Page, x: nat)
    requires |t| >= HEADER && x < 0x1_0000
    ensures NumCells(t) == x <==> t[OFF_NUM_CELLS..OFF_NUM_CELLS + 2] == ToLE(2, x)
  {
    hide FromLE, ToLE;
    Widths();
    Field(t[OFF_NUM_CELLS..OFF_NUM_CELLS + 2], 2, x);
  }

  lemma {:induction false} FillFits(cfg: Cfg, s: Page, leaf: bool, cells: seq<Cell>)
    requires Repr(cfg, s, Blank(cfg, leaf)) && FitsCells(cfg, leaf, cells)
    requires forall i | 0 <= i < |cells| :: Legal(cfg.acc, leaf, cells[i])
    ensures Fillable(cfg.acc, s, cells)
    ensures Repr(cfg, Fill(cfg.acc, s, cells),
      Node(leaf, cells, 0, INVALID_PAGE, cfg.pageSize - UsedBy(cfg, leaf, cells)))
    decreases |cells|
  {
    hide Repr, Legal, Appended, Appendable;
    if cells != [] {
      var k := |cells| - 1;
      FillFits(cfg, s, leaf, cells[..k]);
      AppendFits(cfg, Fill(cfg.acc, s, cells[..k]),
                 Node(leaf, cells[..k], 0, INVALID_PAGE, cfg.pageSize - UsedBy(cfg, leaf, cells[..k])), cells[k]);
      assert cells[..k] + [cells[k]] == cells;
    }
  }

  lemma Sizes(cfg: Cfg, s: Page, nd: Node)
    requires Repr(cfg, s, nd)
    ensures HEADER <= |s| == cfg.pageSize < 0x1_0000 && IsLeaf(s) == nd.leaf && NumCells(s) == |nd.cells|
    ensures CellContent(s) == nd.content <= |s| && Rightmost(s) == nd.rightmost && NextLeaf(s) == nd.next
  {
    hide CellOk, Apart;
    BodySize(cfg, s, nd);
  }

  lemma ContentUnread(cfg: Cfg, t: Page, nd: Node, content: nat)
    ensures Reads(cfg, t, nd.(content := content)) <==> Reads(cfg, t, nd)
  {
    hide RecordAt;
    var nd' := nd.(content := content);
    forall i | 0 <= i < |nd.cells|
      ensures ReadsAt(cfg.acc, t, nd', i) <==> ReadsAt(cfg.acc, t, nd, i)
    {
    }
  }

  lemma SizeTen(acc: Acc, leaf: bool, c: Cell)
    ensures SizeOf(acc, leaf, c) >= 10
  {
  }

  // ---------------------------------------------------------------- both halves

  /** splitNode writing its two halves, whether they fit or not; ok is false when it panics. */
  method ForceSplit(cfg: Cfg, p: array<byte>, q: array<byte>, leaf: bool, all: seq<Cell>, rightmost: nat, next: nat,
      newId: nat)
    returns (ok: bool, ghost s: Page, ghost s': Page)
    requires p != q && HEADER <= p.Length == q.Length == cfg.pageSize < 0x1_0000 && all != []
    requires rightmost < 0x1_0000_0000 && next < 0x1_0000_0000 && newId < 0x1_0000_0000
      && all[|all| / 2].left < 0x1_0000_0000
    modifies p, q
    ensures Repr(cfg, s, Blank(cfg, leaf)) && Repr(cfg, s', Blank(cfg, leaf)) && |s| >= HEADER && |s'| >= HEADER
    ensures ok <==> Fillable(cfg.acc, s, all[..|all| / 2]) && Fillable(cfg.acc, s', RightCells(cfg.acc, leaf, all))
    ensures ok ==>
      && p[..] == Half(cfg.acc, s, leaf, all[..|all| / 2], if leaf then newId else all[|all| / 2].left)
      && q[..] == Half(cfg.acc, s', leaf, RightCells(cfg.acc, leaf, all), if leaf then next else rightmost)
  {
    hide Repr, Over, ToLE, FromLE, Fill, Fillable;
    var mid := |all| / 2;
    ok, s := ForceHalf(cfg, p, leaf, all[..mid], if leaf then newId else all[mid].left);
    var ok';
    ok', s' := ForceHalf(cfg, q, leaf, RightCells(cfg.acc, leaf, all), if leaf then next else rightmost);
    ok := ok && ok';
  }
}
