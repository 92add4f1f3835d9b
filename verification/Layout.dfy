/**
 The byte layout of a page: a 13-byte header, an array of two-byte slots that grows upward, and cells that grow
 downward from the end of the page; and the two cell formats.

   [0]     node type (0 internal, 1 leaf)      [5..9)   rightmost child (internal)
   [1..3)  number of cells                     [9..13)  next leaf
   [3..5)  free pointer                        [13..)   slots
 */
module Layout {
  import opened Bytes
  import opened Records
  import opened TreeModel

  const OFF_NUM_CELLS := 1
  const OFF_CONTENT := 3
  const OFF_RIGHTMOST := 5
  const OFF_NEXT_LEAF := 9

  type Page = seq<byte>

  datatype Cell = Cell(key: int, val: Value, left: nat)

  /** What a page says, its free pointer included. */
  datatype Node = Node(leaf: bool, cells: seq<Cell>, rightmost: nat, next: nat, content: nat)

  // ---------------------------------------------------------------- fields

  function U16(s: Page, off: nat): nat
    requires off + 2 <= |s|
  {
    FromLE(s[off..off + 2])
  }

  function U32(s: Page, off: nat): nat
    requires off + 4 <= |s|
  {
    FromLE(s[off..off + 4])
  }

  function U64(s: Page, off: nat): nat
    requires off + 8 <= |s|
  {
    FromLE(s[off..off + 8])
  }

  function IsLeaf(s: Page): bool
    requires |s| >= HEADER
  {
    s[0] == 1
  }

  function NumCells(s: Page): nat
    requires |s| >= HEADER
  {
    U16(s, OFF_NUM_CELLS)
  }

  function CellContent(s: Page): nat
    requires |s| >= HEADER
  {
    U16(s, OFF_CONTENT)
  }

  function Rightmost(s: Page): nat
    requires |s| >= HEADER
  {
    U32(s, OFF_RIGHTMOST)
  }

  function NextLeaf(s: Page): nat
    requires |s| >= HEADER
  {
    U32(s, OFF_NEXT_LEAF)
  }

  function CellPtr(s: Page, i: nat): nat
    requires HEADER + SLOT * i + SLOT <= |s|
  {
    U16(s, HEADER + SLOT * i)
  }

  // ---------------------------------------------------------------- cells

  function SizeOf(acc: Acc, leaf: bool, c: Cell): nat {
    acc.CellSize(leaf, |c.val|)
  }

  /** The values that the cell's format can hold. */
  predicate Legal(acc: Acc, leaf: bool, c: Cell) {
    && MIN_KEY <= c.key <= MAX_KEY
    && c.left < 0x1_0000_0000
    && |c.val| < 0x1_0000
    && (acc.CopyUp() && leaf ==> c.left == 0)
    && (acc.Upper(leaf) ==> c.val == [])
  }

  /** The cell's bytes stand at offset off. */
  ghost predicate CellAt(acc: Acc, leaf: bool, s: Page, off: nat, c: Cell) {
    && Legal(acc, leaf, c)
    && off + SizeOf(acc, leaf, c) <= |s|
    && (if acc.BTreeAcc? then
          && U32(s, off) == c.left
          && U64(s, off + 4) == ToU64(c.key)
          && U16(s, off + 12) == |c.val|
          && s[off + 14..off + 14 + |c.val|] == c.val
        else if leaf then
          && U64(s, off) == ToU64(c.key)
          && U16(s, off + 8) == |c.val|
          && s[off + 10..off + 10 + |c.val|] == c.val
        else
          && U32(s, off) == c.left
          && U64(s, off + 4) == ToU64(c.key))
  }

  /** The accessor's ReadCell, for a cell at offset off. A value that would run off the page is cut short. */
  function DecodeCell(acc: Acc, leaf: bool, s: Page, off: nat): Cell
    requires off + acc.CellSize(leaf, 0) <= |s|
  {
    if acc.BTreeAcc? then
      Cell(FromU64(U64(s, off + 4)), Slice(s, off + 14, U16(s, off + 12)), U32(s, off))
    else if leaf then
      Cell(FromU64(U64(s, off)), Slice(s, off + 10, U16(s, off + 8)), 0)
    else
      Cell(FromU64(U64(s, off + 4)), [], U32(s, off))
  }

  function Slice(s: Page, off: nat, n: nat): Page
    requires off <= |s|
  {
    if off + n <= |s| then s[off..off + n] else s[off..]
  }

  lemma DecodeRight(acc: Acc, leaf: bool, s: Page, off: nat, c: Cell)
    requires CellAt(acc, leaf, s, off, c)
    ensures DecodeCell(acc, leaf, s, off) == c
  {
  }

  // ---------------------------------------------------------------- pages

  ghost predicate CellOk(acc: Acc, s: Page, leaf: bool, content: nat, c: Cell, i: nat)
    requires HEADER + SLOT * i + SLOT <= |s|
  {
    content <= CellPtr(s, i) && CellAt(acc, leaf, s, CellPtr(s, i), c)
  }

  /** The cells in slots i and j do not overlap. */
  ghost predicate Apart(acc: Acc, s: Page, leaf: bool, c: Cell, i: nat, d: Cell, j: nat)
    requires HEADER + SLOT * i + SLOT <= |s| && HEADER + SLOT * j + SLOT <= |s|
  {
    || CellPtr(s, i) + SizeOf(acc, leaf, c) <= CellPtr(s, j)
    || CellPtr(s, j) + SizeOf(acc, leaf, d) <= CellPtr(s, i)
  }

  /** The page holds the node, apart from the count of its cells. */
  ghost predicate Body(cfg: Cfg, s: Page, nd: Node) {
    && |s| == cfg.pageSize && HEADER <= cfg.pageSize < 0x1_0000
    && s[0] == (if nd.leaf then 1 else 0)
    && CellContent(s) == nd.content && Rightmost(s) == nd.rightmost && NextLeaf(s) == nd.next
    && HEADER + SLOT * |nd.cells| <= nd.content <= cfg.pageSize
    && (forall i | 0 <= i < |nd.cells| :: CellOk(cfg.acc, s, nd.leaf, nd.content, nd.cells[i], i))
    && forall i, j | 0 <= i < j < |nd.cells| :: Apart(cfg.acc, s, nd.leaf, nd.cells[i], i, nd.cells[j], j)
  }

  /** The page's bytes represent the node. */
  ghost predicate Repr(cfg: Cfg, s: Page, nd: Node) {
    Body(cfg, s, nd) && NumCells(s) == |nd.cells|
  }

  /** A page represents at most one node. */
  lemma ReprUnique(cfg: Cfg, s: Page, a: Node, b: Node)
    requires Repr(cfg, s, a) && Repr(cfg, s, b)
    ensures a == b
  {
    forall i | 0 <= i < |a.cells|
      ensures a.cells[i] == b.cells[i]
    {
      assert CellOk(cfg.acc, s, a.leaf, a.content, a.cells[i], i);
      assert CellOk(cfg.acc, s, b.leaf, b.content, b.cells[i], i);
      DecodeRight(cfg.acc, a.leaf, s, CellPtr(s, i), a.cells[i]);
      DecodeRight(cfg.acc, b.leaf, s, CellPtr(s, i), b.cells[i]);
    }
    assert a.cells == b.cells;
  }

  // ---------------------------------------------------------------- what a write keeps

  lemma CellKept(acc: Acc, leaf: bool, s: Page, t: Page, lo: int, hi: int, off: nat, c: Cell)
    requires CellAt(acc, leaf, s, off, c) && Agree(s, t, lo, hi)
    requires lo <= off && off + SizeOf(acc, leaf, c) <= hi
    ensures CellAt(acc, leaf, t, off, c)
  {
  }

  lemma AgreeLength(s: Page, t: Page, lo: int, hi: int)
    requires Agree(s, t, lo, hi)
    ensures |t| == |s|
  {
  }

  lemma HeaderKept(s: Page, t: Page, hi: int)
    requires Agree(s, t, 0, hi) && HEADER <= hi && HEADER <= |s|
    ensures t[0] == s[0]
    ensures NumCells(t) == NumCells(s) && CellContent(t) == CellContent(s)
    ensures Rightmost(t) == Rightmost(s) && NextLeaf(t) == NextLeaf(s)
  {
    assert t[0] == t[0..1][0] == s[0..1][0];
  }

  lemma PtrKept(s: Page, t: Page, lo: int, hi: int, i: nat)
    requires Agree(s, t, lo, hi) && HEADER + SLOT * i + SLOT <= |s|
    requires lo <= HEADER + SLOT * i && HEADER + SLOT * i + SLOT <= hi
    ensures CellPtr(t, i) == CellPtr(s, i)
  {
  }

  /** t is s with a new cell at slot i, its bytes just below the free pointer. */
  ghost predicate Inserted(cfg: Cfg, s: Page, t: Page, nd: Node, i: nat, c: Cell) {
    && i <= |nd.cells| && |t| == |s| == cfg.pageSize
    && HEADER + SLOT * (|nd.cells| + 1) + SizeOf(cfg.acc, nd.leaf, c) <= nd.content <= |s|
    && CellAt(cfg.acc, nd.leaf, t, nd.content - SizeOf(cfg.acc, nd.leaf, c), c)
    && Agree(s, t, nd.content, |s|)
    && (forall j | 0 <= j < i :: CellPtr(t, j) == CellPtr(s, j))
    && CellPtr(t, i) == nd.content - SizeOf(cfg.acc, nd.leaf, c)
    && forall j | i < j <= |nd.cells| :: CellPtr(t, j) == CellPtr(s, j - 1)
  }

  lemma InsertedOld(cfg: Cfg, s: Page, t: Page, nd: Node, i: nat, c: Cell, k: nat)
    requires Body(cfg, s, nd) && Inserted(cfg, s, t, nd, i, c) && k < |nd.cells|
    ensures var j := if k < i then k else k + 1;
      && CellPtr(t, j) == CellPtr(s, k)
      && nd.content <= CellPtr(t, j)
      && CellAt(cfg.acc, nd.leaf, t, CellPtr(t, j), nd.cells[k])
  {
    hide CellAt, SizeOf, FromLE, U16, CellPtr, CellContent, Rightmost, NextLeaf, Agree;
    assert CellOk(cfg.acc, s, nd.leaf, nd.content, nd.cells[k], k);
    CellEnd(cfg.acc, nd.leaf, s, CellPtr(s, k), nd.cells[k]);
    CellKept(cfg.acc, nd.leaf, s, t, nd.content, |s|, CellPtr(s, k), nd.cells[k]);
  }

  lemma InsertedApart(cfg: Cfg, s: Page, t: Page, nd: Node, i: nat, c: Cell, j: nat, k: nat)
    requires Body(cfg, s, nd) && Inserted(cfg, s, t, nd, i, c) && j < k <= |nd.cells|
    ensures var cells := InsertAt(nd.cells, i, c); Apart(cfg.acc, t, nd.leaf, cells[j], j, cells[k], k)
  {
    hide CellAt, SizeOf, FromLE, U16, CellPtr, CellContent, Rightmost, NextLeaf, Agree;
    var j', k' := if j < i then j else j - 1, if k < i then k else k - 1;
    if j != i {
      InsertedOld(cfg, s, t, nd, i, c, j');
    }
    if k != i {
      InsertedOld(cfg, s, t, nd, i, c, k');
    }
    if j != i && k != i {
      assert Apart(cfg.acc, s, nd.leaf, nd.cells[j'], j', nd.cells[k'], k');
    }
  }

  lemma BodyInsert(cfg: Cfg, s: Page, t: Page, nd: Node, i: nat, c: Cell, rightmost: nat)
    requires Body(cfg, s, nd) && Inserted(cfg, s, t, nd, i, c)
    requires t[0] == s[0] && CellContent(t) == nd.content - SizeOf(cfg.acc, nd.leaf, c)
    requires Rightmost(t) == rightmost && NextLeaf(t) == nd.next
    ensures Body(cfg, t, Node(nd.leaf, InsertAt(nd.cells, i, c), rightmost, nd.next,
                              nd.content - SizeOf(cfg.acc, nd.leaf, c)))
  {
    hide CellAt, SizeOf, FromLE, U16, CellPtr, CellContent, Rightmost, NextLeaf, Agree, Apart;
    var cells := InsertAt(nd.cells, i, c);
    forall j | 0 <= j < |cells|
      ensures CellOk(cfg.acc, t, nd.leaf, nd.content - SizeOf(cfg.acc, nd.leaf, c), cells[j], j)
    {
      if j != i {
        InsertedOld(cfg, s, t, nd, i, c, if j < i then j else j - 1);
      }
    }
    forall j, k | 0 <= j < k < |cells|
      ensures Apart(cfg.acc, t, nd.leaf, cells[j], j, cells[k], k)
    {
      InsertedApart(cfg, s, t, nd, i, c, j, k);
    }
  }

  lemma CellEnd(acc: Acc, leaf: bool, s: Page, off: nat, c: Cell)
    requires CellAt(acc, leaf, s, off, c)
    ensures off + SizeOf(acc, leaf, c) <= |s|
  {
  }

  /** Dropping slot i, whose cell's bytes stay behind as garbage. */
  lemma BodyRemove(cfg: Cfg, s: Page, t: Page, nd: Node, i: nat)
    requires Body(cfg, s, nd) && i < |nd.cells|
    requires Agree(s, t, 0, HEADER) && Agree(s, t, nd.content, |s|)
    requires forall j | 0 <= j < |nd.cells| - 1 :: CellPtr(t, j) == CellPtr(s, if j < i then j else j + 1)
    ensures Body(cfg, t, Node(nd.leaf, RemoveAt(nd.cells, i), nd.rightmost, nd.next, nd.content))
  {
    hide CellAt, SizeOf, FromLE, U16, CellPtr, CellContent, Rightmost, NextLeaf, Agree;
    var cells := RemoveAt(nd.cells, i);
    HeaderKept(s, t, HEADER);
    AgreeLength(s, t, 0, HEADER);
    forall j | 0 <= j < |cells|
      ensures CellOk(cfg.acc, t, nd.leaf, nd.content, cells[j], j)
    {
      var k := if j < i then j else j + 1;
      assert CellOk(cfg.acc, s, nd.leaf, nd.content, nd.cells[k], k);
      CellEnd(cfg.acc, nd.leaf, s, CellPtr(s, k), nd.cells[k]);
      CellKept(cfg.acc, nd.leaf, s, t, nd.content, |s|, CellPtr(s, k), nd.cells[k]);
    }
    forall j, k | 0 <= j < k < |cells|
      ensures Apart(cfg.acc, t, nd.leaf, cells[j], j, cells[k], k)
    {
      var j' := if j < i then j else j + 1;
      var k' := if k < i then k else k + 1;
      assert Apart(cfg.acc, s, nd.leaf, nd.cells[j'], j', nd.cells[k'], k');
    }
  }

  /** Rewriting bytes inside the cell in slot i, which does not grow. */
  lemma BodyRewrite(cfg: Cfg, s: Page, t: Page, nd: Node, i: nat, c: Cell)
    requires Body(cfg, s, nd) && i < |nd.cells|
    requires SizeOf(cfg.acc, nd.leaf, c) <= SizeOf(cfg.acc, nd.leaf, nd.cells[i])
    requires Agree(s, t, 0, CellPtr(s, i))
    requires Agree(s, t, CellPtr(s, i) + SizeOf(cfg.acc, nd.leaf, nd.cells[i]), |s|)
    requires CellAt(cfg.acc, nd.leaf, t, CellPtr(s, i), c)
    ensures Body(cfg, t, Node(nd.leaf, nd.cells[i := c], nd.rightmost, nd.next, nd.content))
  {
    hide CellAt, SizeOf, FromLE, U16, CellPtr, CellContent, Rightmost, NextLeaf, Agree;
    var cells := nd.cells[i := c];
    assert CellOk(cfg.acc, s, nd.leaf, nd.content, nd.cells[i], i);
    HeaderKept(s, t, CellPtr(s, i));
    AgreeLength(s, t, 0, CellPtr(s, i));
    forall j | 0 <= j < |cells|
      ensures CellPtr(t, j) == CellPtr(s, j)
      ensures CellOk(cfg.acc, t, nd.leaf, nd.content, cells[j], j)
    {
      PtrKept(s, t, 0, CellPtr(s, i), j);
      if j != i {
        assert CellOk(cfg.acc, s, nd.leaf, nd.content, nd.cells[j], j);
        CellEnd(cfg.acc, nd.leaf, s, CellPtr(s, j), nd.cells[j]);
        if j < i {
          assert Apart(cfg.acc, s, nd.leaf, nd.cells[j], j, nd.cells[i], i);
        } else {
          assert Apart(cfg.acc, s, nd.leaf, nd.cells[i], i, nd.cells[j], j);
        }
        if CellPtr(s, j) + SizeOf(cfg.acc, nd.leaf, nd.cells[j]) <= CellPtr(s, i) {
          CellKept(cfg.acc, nd.leaf, s, t, 0, CellPtr(s, i), CellPtr(s, j), nd.cells[j]);
        } else {
          CellKept(cfg.acc, nd.leaf, s, t, CellPtr(s, i) + SizeOf(cfg.acc, nd.leaf, nd.cells[i]),
              |s|, CellPtr(s, j), nd.cells[j]);
        }
      }
    }
    forall j, k | 0 <= j < k < |cells|
      ensures Apart(cfg.acc, t, nd.leaf, cells[j], j, cells[k], k)
    {
      assert Apart(cfg.acc, s, nd.leaf, nd.cells[j], j, nd.cells[k], k);
    }
  }

  /** Rewriting the header's link fields or the cell count. */
  lemma BodyHeader(cfg: Cfg, s: Page, t: Page, nd: Node, rightmost: nat, next: nat)
    requires Body(cfg, s, nd) && |t| == |s|
    requires t[0] == s[0] && CellContent(t) == nd.content && Rightmost(t) == rightmost && NextLeaf(t) == next
    requires Agree(s, t, HEADER, |s|)
    ensures Body(cfg, t, Node(nd.leaf, nd.cells, rightmost, next, nd.content))
  {
    hide CellAt, SizeOf, FromLE, U16, CellPtr, CellContent, Rightmost, NextLeaf, Agree;
    forall j | 0 <= j < |nd.cells|
      ensures CellPtr(t, j) == CellPtr(s, j)
      ensures CellOk(cfg.acc, t, nd.leaf, nd.content, nd.cells[j], j)
    {
      PtrKept(s, t, HEADER, |s|, j);
      assert CellOk(cfg.acc, s, nd.leaf, nd.content, nd.cells[j], j);
      CellEnd(cfg.acc, nd.leaf, s, CellPtr(s, j), nd.cells[j]);
      CellKept(cfg.acc, nd.leaf, s, t, HEADER, |s|, CellPtr(s, j), nd.cells[j]);
    }
    forall j, k | 0 <= j < k < |nd.cells|
      ensures Apart(cfg.acc, t, nd.leaf, nd.cells[j], j, nd.cells[k], k)
    {
      assert Apart(cfg.acc, s, nd.leaf, nd.cells[j], j, nd.cells[k], k);
    }
  }
}
