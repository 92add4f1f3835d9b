/** The operations on a page buffer, in place (btpage and the accessors' cell writers), proved against Layout.Repr. */
module PageOps {
  import opened Bytes
  import opened Records
  import opened TreeModel
  import opened Layout

  // ---------------------------------------------------------------- raw writes

  /** Only bytes in [lo, hi) may differ. */
  ghost predicate Wrote(s: Page, t: Page, lo: int, hi: int) {
    Agree(s, t, 0, lo) && Agree(s, t, hi, |s|)
  }

  lemma WroteFromBytes(s: Page, t: Page, lo: int, hi: int)
    requires |s| == |t| && forall k | 0 <= k < |s| && !(lo <= k < hi) :: t[k] == s[k]
    ensures Wrote(s, t, lo, hi)
  {
  }

  method PutLE(p: array<byte>, off: nat, n: nat, x: nat)
    requires off + n <= p.Length
    modifies p
    ensures p[off..off + n] == ToLE(n, x)
    ensures Wrote(old(p[..]), p[..], off, off + n)
  {
    var y := x;
    for i := 0 to n
      invariant p[off..off + i] + ToLE(n - i, y) == ToLE(n, x)
      invariant forall k | 0 <= k < p.Length && !(off <= k < off + n) :: p[k] == old(p[k])
    {
      p[off + i] := y % 256;
      assert ToLE(n - i, y) == [y % 256] + ToLE(n - i - 1, y / 256);
      assert p[off..off + i + 1] == p[off..off + i] + [y % 256];
      y := y / 256;
    }
    WroteFromBytes(old(p[..]), p[..], off, off + n);
  }

  method PutU16(p: array<byte>, off: nat, x: nat)
    requires off + 2 <= p.Length && x < 0x1_0000
    modifies p
    ensures U16(p[..], off) == x && Wrote(old(p[..]), p[..], off, off + 2)
  {
    PutLE(p, off, 2, x);
    Widths();
    FromToLE(2, x);
    assert p[..][off..off + 2] == p[off..off + 2];
  }

  method PutU32(p: array<byte>, off: nat, x: nat)
    requires off + 4 <= p.Length && x < 0x1_0000_0000
    modifies p
    ensures U32(p[..], off) == x && Wrote(old(p[..]), p[..], off, off + 4)
  {
    PutLE(p, off, 4, x);
    Widths();
    FromToLE(4, x);
    assert p[..][off..off + 4] == p[off..off + 4];
  }

  method PutU64(p: array<byte>, off: nat, x: nat)
    requires off + 8 <= p.Length && x < 0x1_0000_0000_0000_0000
    modifies p
    ensures U64(p[..], off) == x && Wrote(old(p[..]), p[..], off, off + 8)
  {
    PutLE(p, off, 8, x);
    Widths();
    FromToLE(8, x);
    assert p[..][off..off + 8] == p[off..off + 8];
  }

  method PutBytes(p: array<byte>, off: nat, v: Value)
    requires off + |v| <= p.Length
    modifies p
    ensures p[..][off..off + |v|] == v && Wrote(old(p[..]), p[..], off, off + |v|)
  {
    for i := 0 to |v|
      invariant p[off..off + i] == v[..i]
      invariant forall k | 0 <= k < p.Length && !(off <= k < off + |v|) :: p[k] == old(p[k])
    {
      p[off + i] := v[i];
      assert p[off..off + i + 1] == p[off..off + i] + [v[i]];
    }
    assert p[..][off..off + |v|] == p[off..off + |v|];
    WroteFromBytes(old(p[..]), p[..], off, off + |v|);
  }

  // ---------------------------------------------------------------- the accessors' writers

  /** WriteCell. */
  method WriteCell(acc: Acc, p: array<byte>, off: nat, c: Cell, leaf: bool)
    requires Legal(acc, leaf, c) && off + SizeOf(acc, leaf, c) <= p.Length
    modifies p
    ensures CellAt(acc, leaf, p[..], off, c)
    ensures Wrote(old(p[..]), p[..], off, off + SizeOf(acc, leaf, c))
  {
    if acc.BTreeAcc? {
      PutU32(p, off, c.left);
      PutU64(p, off + 4, ToU64(c.key));
      PutU16(p, off + 12, |c.val|);
      PutBytes(p, off + 14, c.val);
    } else if leaf {
      PutU64(p, off, ToU64(c.key));
      PutU16(p, off + 8, |c.val|);
      PutBytes(p, off + 10, c.val);
    } else {
      PutU32(p, off, c.left);
      PutU64(p, off + 4, ToU64(c.key));
    }
  }

  method OverwriteAt(acc: Acc, p: array<byte>, off: nat, v: Value, leaf: bool, ghost c: Cell)
    requires CellAt(acc, leaf, p[..], off, c) && |v| <= |c.val| && !acc.Upper(leaf)
    modifies p
    ensures CellAt(acc, leaf, p[..], off, c.(val := v))
    ensures Wrote(old(p[..]), p[..], off, off + SizeOf(acc, leaf, c))
  {
    if acc.BTreeAcc? {
      PutU16(p, off + 12, |v|);
      PutBytes(p, off + 14, v);
    } else {
      PutU16(p, off + 8, |v|);
      PutBytes(p, off + 10, v);
    }
  }

  /** OverwriteValue: the cell in slot i gets a value that is no longer than the one it has. */
  method OverwriteValue(cfg: Cfg, p: array<byte>, i: nat, v: Value, ghost nd: Node)
    requires Repr(cfg, p[..], nd) && i < |nd.cells| && |v| <= |nd.cells[i].val|
    requires !cfg.acc.Upper(nd.leaf)
    modifies p
    ensures Repr(cfg, p[..], nd.(cells := nd.cells[i := nd.cells[i].(val := v)]))
  {
    hide CellAt, U16, Wrote;
    ghost var s := p[..];
    SlotInside(cfg, s, nd, i);
    var off := CellPtr(p[..], i);
    OverwriteAt(cfg.acc, p, off, v, IsLeaf(p[..]), nd.cells[i]);
    RewriteSlot(cfg, s, p[..], nd, i, nd.cells[i].(val := v));
  }

  lemma SlotInside(cfg: Cfg, s: Page, nd: Node, i: nat)
    requires Body(cfg, s, nd) && i < |nd.cells|
    ensures nd.content <= CellPtr(s, i) && CellAt(cfg.acc, nd.leaf, s, CellPtr(s, i), nd.cells[i])
  {
    hide CellAt, U16;
    assert CellOk(cfg.acc, s, nd.leaf, nd.content, nd.cells[i], i);
  }

  lemma RewriteSlot(cfg: Cfg, s: Page, t: Page, nd: Node, i: nat, c: Cell)
    requires Body(cfg, s, nd) && i < |nd.cells|
    requires SizeOf(cfg.acc, nd.leaf, c) <= SizeOf(cfg.acc, nd.leaf, nd.cells[i])
    requires Wrote(s, t, CellPtr(s, i), CellPtr(s, i) + SizeOf(cfg.acc, nd.leaf, nd.cells[i]))
    requires CellAt(cfg.acc, nd.leaf, t, CellPtr(s, i), c)
    ensures Body(cfg, t, nd.(cells := nd.cells[i := c])) && NumCells(t) == NumCells(s)
  {
    hide CellAt, U16;
    SlotInside(cfg, s, nd, i);
    HeaderKept(s, t, CellPtr(s, i));
    BodyRewrite(cfg, s, t, nd, i, c);
  }

  // ---------------------------------------------------------------- btpage

  method SetNumCells(p: array<byte>, n: nat)
    requires HEADER <= p.Length && n < 0x1_0000
    modifies p
    ensures NumCells(p[..]) == n && Wrote(old(p[..]), p[..], OFF_NUM_CELLS, OFF_NUM_CELLS + 2)
  {
    PutU16(p, OFF_NUM_CELLS, n);
  }

  method SetCellContent(p: array<byte>, v: nat)
    requires HEADER <= p.Length && v < 0x1_0000
    modifies p
    ensures CellContent(p[..]) == v && Wrote(old(p[..]), p[..], OFF_CONTENT, OFF_CONTENT + 2)
  {
    PutU16(p, OFF_CONTENT, v);
  }

  method SetRightmost(p: array<byte>, id: nat)
    requires HEADER <= p.Length && id < 0x1_0000_0000
    modifies p
    ensures Rightmost(p[..]) == id && Wrote(old(p[..]), p[..], OFF_RIGHTMOST, OFF_RIGHTMOST + 4)
  {
    PutU32(p, OFF_RIGHTMOST, id);
  }

  method SetNextLeaf(p: array<byte>, id: nat)
    requires HEADER <= p.Length && id < 0x1_0000_0000
    modifies p
    ensures NextLeaf(p[..]) == id && Wrote(old(p[..]), p[..], OFF_NEXT_LEAF, OFF_NEXT_LEAF + 4)
  {
    PutU32(p, OFF_NEXT_LEAF, id);
  }

  method SetCellPtr(p: array<byte>, i: nat, off: nat)
    requires HEADER + SLOT * i + SLOT <= p.Length && off < 0x1_0000
    modifies p
    ensures CellPtr(p[..], i) == off && Wrote(old(p[..]), p[..], HEADER + SLOT * i, HEADER + SLOT * i + SLOT)
  {
    PutU16(p, HEADER + SLOT * i, off);
  }

  /** AllocCell. */
  method AllocCell(p: array<byte>, size: nat) returns (top: nat)
    requires HEADER <= p.Length && size <= CellContent(p[..]) < 0x1_0000
    modifies p
    ensures top == old(CellContent(p[..])) - size == CellContent(p[..])
    ensures Wrote(old(p[..]), p[..], OFF_CONTENT, OFF_CONTENT + 2)
  {
    top := CellContent(p[..]) - size;
    SetCellContent(p, top);
  }

  lemma {:induction false} FromZeros(b: Page)
    requires forall k | 0 <= k < |b| :: b[k] == 0
    ensures FromLE(b) == 0
  {
    if b != [] {
      FromZeros(b[1..]);
    }
  }

  /** InitPage: an empty node of the given type. */
  method InitPage(cfg: Cfg, p: array<byte>, leaf: bool)
    requires HEADER <= p.Length == cfg.pageSize < 0x1_0000
    modifies p
    ensures Repr(cfg, p[..], Node(leaf, [], 0, INVALID_PAGE, cfg.pageSize))
  {
    for i := 0 to p.Length
      invariant forall k | 0 <= k < i :: p[k] == 0
    {
      p[i] := 0;
    }
    p[0] := if leaf then 1 else 0;
    ghost var s := p[..];
    FromZeros(s[OFF_RIGHTMOST..OFF_RIGHTMOST + 4]);
    assert Rightmost(s) == 0;
    SetNumCells(p, 0);
    SetCellContent(p, p.Length);
    SetNextLeaf(p, INVALID_PAGE);
    assert p[..][0..1] == s[0..1];
    assert p[..][0] == p[..][0..1][0];
  }

  // ---------------------------------------------------------------- cells and slots

  /** The slots above idx have moved up by one; slot idx is free. */
  ghost predicate Shifted(s: Page, t: Page, idx: nat, n: nat)
    requires idx <= n && HEADER + SLOT * (n + 1) <= |s|
  {
    && Wrote(s, t, HEADER + SLOT * (idx + 1), HEADER + SLOT * (n + 1))
    && forall j | idx < j <= n :: CellPtr(t, j) == CellPtr(s, j - 1)
  }

  method ShiftUp(p: array<byte>, idx: nat, n: nat)
    requires idx <= n && HEADER + SLOT * (n + 1) <= p.Length
    modifies p
    ensures Shifted(old(p[..]), p[..], idx, n)
  {
    ghost var s := p[..];
    for i := n downto idx
      invariant Wrote(s, p[..], HEADER + SLOT * (i + 1), HEADER + SLOT * (n + 1))
      invariant forall j | i < j <= n :: CellPtr(p[..], j) == CellPtr(s, j - 1)
    {
      ghost var t := p[..];
      PtrKept(s, t, 0, HEADER + SLOT * (i + 2), i);
      SetCellPtr(p, i + 1, CellPtr(p[..], i));
      forall j | i + 1 < j <= n
        ensures CellPtr(p[..], j) == CellPtr(t, j)
      {
        PtrKept(t, p[..], HEADER + SLOT * (i + 2), |t|, j);
      }
    }
  }

  method ShiftDown(p: array<byte>, i: nat, n: nat)
    requires i < n && HEADER + SLOT * n <= p.Length
    modifies p
    ensures Wrote(old(p[..]), p[..], HEADER + SLOT * i, HEADER + SLOT * n)
    ensures forall j | i <= j < n - 1 :: CellPtr(p[..], j) == CellPtr(old(p[..]), j + 1)
  {
    ghost var s := p[..];
    for j := i to n - 1
      invariant Wrote(s, p[..], HEADER + SLOT * i, HEADER + SLOT * j)
      invariant forall k | i <= k < j :: CellPtr(p[..], k) == CellPtr(s, k + 1)
    {
      ghost var t := p[..];
      PtrKept(s, t, HEADER + SLOT * j, |s|, j + 1);
      SetCellPtr(p, j, CellPtr(p[..], j + 1));
      forall k | i <= k < j
        ensures CellPtr(p[..], k) == CellPtr(t, k)
      {
        PtrKept(t, p[..], 0, HEADER + SLOT * j, k);
      }
    }
  }

  /** DeleteCell. */
  method DeleteCell(cfg: Cfg, p: array<byte>, i: nat, ghost nd: Node)
    requires Repr(cfg, p[..], nd) && i < |nd.cells|
    modifies p
    ensures Repr(cfg, p[..], nd.(cells := RemoveAt(nd.cells, i)))
  {
    hide CellAt, U16, FromLE;
    ghost var s := p[..];
    var n := NumCells(p[..]);
    ShiftDown(p, i, n);
    ghost var t := p[..];
    forall j | 0 <= j < n - 1
      ensures CellPtr(t, j) == CellPtr(s, if j < i then j else j + 1)
    {
      if j < i {
        PtrKept(s, t, 0, HEADER + SLOT * i, j);
      }
    }
    BodyRemove(cfg, s, t, nd, i);
    SetNumCells(p, n - 1);
    CountWritten(cfg, t, p[..], nd.(cells := RemoveAt(nd.cells, i)));
  }

  /** Writing the count does not touch the rest of the page. */
  lemma CountWritten(cfg: Cfg, s: Page, t: Page, nd: Node)
    requires Body(cfg, s, nd) && Wrote(s, t, OFF_NUM_CELLS, OFF_NUM_CELLS + 2)
    ensures Body(cfg, t, nd)
  {
    hide CellAt;
    assert s[0..1][0] == t[0..1][0];
    BodyHeader(cfg, s, t, nd, nd.rightmost, nd.next);
  }

  /** The three writes that place a cell in a free slot. */
  lemma Placed(cfg: Cfg, s: Page, t: Page, u: Page, v: Page, w: Page, nd: Node, idx: nat, c: Cell)
    requires Body(cfg, s, nd) && idx <= |nd.cells|
    requires HEADER + SLOT * (|nd.cells| + 1) + SizeOf(cfg.acc, nd.leaf, c) <= nd.content
    requires Shifted(s, t, idx, |nd.cells|)
    requires Wrote(t, u, OFF_CONTENT, OFF_CONTENT + 2) && CellContent(u) == nd.content - SizeOf(cfg.acc, nd.leaf, c)
    requires Wrote(u, v, nd.content - SizeOf(cfg.acc, nd.leaf, c), nd.content)
    requires CellAt(cfg.acc, nd.leaf, v, nd.content - SizeOf(cfg.acc, nd.leaf, c), c)
    requires Wrote(v, w, HEADER + SLOT * idx, HEADER + SLOT * idx + SLOT)
    requires CellPtr(w, idx) == nd.content - SizeOf(cfg.acc, nd.leaf, c)
    ensures Body(cfg, w, Node(nd.leaf, InsertAt(nd.cells, idx, c), nd.rightmost, nd.next,
                              nd.content - SizeOf(cfg.acc, nd.leaf, c)))
  {
    hide CellAt, SizeOf, FromLE, CellOk, Apart;
    var size := SizeOf(cfg.acc, nd.leaf, c);
    assert w[0] == s[0] by {
      assert s[0..1] == t[0..1] == u[0..1] == v[0..1] == w[0..1];
      assert w[0] == w[0..1][0];
    }
    CellKept(cfg.acc, nd.leaf, v, w, HEADER + SLOT * idx + SLOT, |v|, nd.content - size, c);
    forall j | 0 <= j < idx
      ensures CellPtr(w, j) == CellPtr(s, j)
    {
      PtrKept(s, t, 0, HEADER + SLOT * (idx + 1), j);
      PtrKept(t, u, OFF_CONTENT + 2, |s|, j);
      PtrKept(u, v, 0, nd.content - size, j);
      PtrKept(v, w, 0, HEADER + SLOT * idx, j);
    }
    forall j | idx < j <= |nd.cells|
      ensures CellPtr(w, j) == CellPtr(s, j - 1)
    {
      PtrKept(t, u, OFF_CONTENT + 2, |s|, j);
      PtrKept(u, v, 0, nd.content - size, j);
      PtrKept(v, w, HEADER + SLOT * idx + SLOT, |s|, j);
    }
    BodyInsert(cfg, s, w, nd, idx, c, nd.rightmost);
  }

  method PlaceCell(cfg: Cfg, p: array<byte>, idx: nat, c: Cell, leaf: bool, ghost s: Page, ghost nd: Node)
    requires Body(cfg, s, nd) && idx <= |nd.cells| && leaf == nd.leaf && Legal(cfg.acc, leaf, c)
    requires HEADER + SLOT * (|nd.cells| + 1) + SizeOf(cfg.acc, nd.leaf, c) <= nd.content
    requires Shifted(s, p[..], idx, |nd.cells|)
    modifies p
    ensures Body(cfg, p[..], Node(nd.leaf, InsertAt(nd.cells, idx, c), nd.rightmost, nd.next,
                                  nd.content - SizeOf(cfg.acc, nd.leaf, c)))
  {
    hide CellAt, FromLE, CellOk, Apart, U16;
    ghost var t := p[..];
    HeaderKept(s, t, HEADER);
    var off := AllocCell(p, SizeOf(cfg.acc, leaf, c));
    ghost var u := p[..];
    WriteCell(cfg.acc, p, off, c, leaf);
    ghost var v := p[..];
    SetCellPtr(p, idx, off);
    Placed(cfg, s, t, u, v, p[..], nd, idx, c);
  }

  /** AppendCell, on a page with room for the cell and its slot. */
  method AppendCell(cfg: Cfg, p: array<byte>, c: Cell, ghost nd: Node)
    requires Repr(cfg, p[..], nd) && Legal(cfg.acc, nd.leaf, c)
    requires HEADER + SLOT * (|nd.cells| + 1) + SizeOf(cfg.acc, nd.leaf, c) <= nd.content
    modifies p
    ensures Repr(cfg, p[..], nd.(cells := nd.cells + [c], content := nd.content - SizeOf(cfg.acc, nd.leaf, c)))
  {
    hide CellAt, FromLE, CellOk, Apart, U16;
    var n := NumCells(p[..]);
    PlaceCell(cfg, p, n, c, IsLeaf(p[..]), p[..], nd);
    ghost var t := p[..];
    SetNumCells(p, n + 1);
    assert InsertAt(nd.cells, n, c) == nd.cells + [c];
    CountWritten(cfg, t, p[..], nd.(cells := nd.cells + [c], content := nd.content - SizeOf(cfg.acc, nd.leaf, c)));
  }

  /** ReadCell of the accessor. */
  function ReadCell(acc: Acc, s: Page, i: nat, leaf: bool): Cell
    requires HEADER + SLOT * i + SLOT <= |s| && CellPtr(s, i) + acc.CellSize(leaf, 0) <= |s|
  {
    DecodeCell(acc, leaf, s, CellPtr(s, i))
  }

  lemma ReadCellRight(cfg: Cfg, s: Page, nd: Node, i: nat)
    requires Body(cfg, s, nd) && i < |nd.cells|
    ensures CellPtr(s, i) + cfg.acc.CellSize(nd.leaf, 0) <= |s|
    ensures ReadCell(cfg.acc, s, i, nd.leaf) == nd.cells[i]
    ensures Legal(cfg.acc, nd.leaf, nd.cells[i])
  {
  }

  /** ChildAt. */
  function ChildAt(acc: Acc, s: Page, idx: nat, n: nat): nat
    requires |s| >= HEADER && idx <= n
    requires idx < n ==> HEADER + SLOT * idx + SLOT <= |s| && CellPtr(s, idx) + acc.CellSize(false, 0) <= |s|
  {
    if idx == n then Rightmost(s) else ReadCell(acc, s, idx, false).left
  }

  function ChildOf(nd: Node, i: nat): nat
    requires i <= |nd.cells|
  {
    if i == |nd.cells| then nd.rightmost else nd.cells[i].left
  }

  lemma ChildRight(cfg: Cfg, s: Page, nd: Node, i: nat)
    requires Body(cfg, s, nd) && i <= |nd.cells| && !nd.leaf
    ensures i < |nd.cells| ==> CellPtr(s, i) + cfg.acc.CellSize(false, 0) <= |s|
    ensures ChildAt(cfg.acc, s, i, |nd.cells|) == ChildOf(nd, i) < 0x1_0000_0000
  {
    hide CellAt, U16, FromLE, CellOk, Apart;
    Widths();
    if i < |nd.cells| {
      SlotInside(cfg, s, nd, i);
      CellEnd(cfg.acc, false, s, CellPtr(s, i), nd.cells[i]);
      DecodeRight(cfg.acc, false, s, CellPtr(s, i), nd.cells[i]);
      LeftSmall(cfg.acc, false, s, CellPtr(s, i), nd.cells[i]);
    }
  }

  lemma LeftSmall(acc: Acc, leaf: bool, s: Page, off: nat, c: Cell)
    requires CellAt(acc, leaf, s, off, c)
    ensures c.left < 0x1_0000_0000
  {
  }

  /** The slot at which the shift stops still names its old cell. */
  lemma ChildAfterShift(cfg: Cfg, s: Page, t: Page, nd: Node, idx: nat)
    requires Body(cfg, s, nd) && idx <= |nd.cells| && !nd.leaf
    requires HEADER + SLOT * (|nd.cells| + 1) <= nd.content && Shifted(s, t, idx, |nd.cells|)
    ensures idx < |nd.cells| ==> CellPtr(t, idx) + cfg.acc.CellSize(false, 0) <= |t|
    ensures ChildAt(cfg.acc, t, idx, |nd.cells|) == ChildOf(nd, idx) < 0x1_0000_0000
  {
    hide CellAt, FromLE, U16, U32;
    ChildRight(cfg, s, nd, idx);
    if idx < |nd.cells| {
      PtrKept(s, t, 0, HEADER + SLOT * (idx + 1), idx);
      SlotInside(cfg, s, nd, idx);
      CellEnd(cfg.acc, false, s, CellPtr(s, idx), nd.cells[idx]);
      CellKept(cfg.acc, false, s, t, HEADER + SLOT * (|nd.cells| + 1), |s|, CellPtr(s, idx), nd.cells[idx]);
      DecodeRight(cfg.acc, false, t, CellPtr(t, idx), nd.cells[idx]);
    } else {
      HeaderKept(s, t, HEADER);
    }
  }

  lemma RightmostWritten(cfg: Cfg, s: Page, t: Page, nd: Node)
    requires Body(cfg, s, nd) && Wrote(s, t, OFF_RIGHTMOST, OFF_RIGHTMOST + 4)
    ensures Body(cfg, t, nd.(rightmost := Rightmost(t))) && NumCells(t) == NumCells(s)
  {
    hide CellAt;
    assert s[0..1][0] == t[0..1][0];
    BodyHeader(cfg, s, t, nd, Rightmost(t), nd.next);
  }

  lemma NextWritten(cfg: Cfg, s: Page, t: Page, nd: Node)
    requires Body(cfg, s, nd) && Wrote(s, t, OFF_NEXT_LEAF, OFF_NEXT_LEAF + 4)
    ensures Body(cfg, t, nd.(next := NextLeaf(t))) && NumCells(t) == NumCells(s)
  {
    hide CellAt;
    assert s[0..1][0] == t[0..1][0];
    BodyHeader(cfg, s, t, nd, nd.rightmost, NextLeaf(t));
  }

  /** Writing the first four bytes of an internal cell changes its left child only. */
  method PatchLeft(cfg: Cfg, p: array<byte>, i: nat, id: nat, ghost nd: Node)
    requires Body(cfg, p[..], nd) && !nd.leaf && i < |nd.cells| && id < 0x1_0000_0000
    modifies p
    ensures Body(cfg, p[..], nd.(cells := nd.cells[i := nd.cells[i].(left := id)]))
  {
    ghost var s := p[..];
    SlotInside(cfg, s, nd, i);
    var off := CellPtr(p[..], i);
    PutU32(p, off, id);
    assert CellAt(cfg.acc, false, p[..], off, nd.cells[i].(left := id));
    hide CellAt, U16, U32, FromLE;
    RewriteSlot(cfg, s, p[..], nd, i, nd.cells[i].(left := id));
  }

  /** What inserting a cell at idx makes of a node whose child idx keeps its page and gets right as a new neighbour. */
  function AddCell(acc: Acc, nd: Node, idx: nat, key: int, val: Value, right: nat): Node
    requires idx <= |nd.cells| && nd.content >= acc.CellSize(nd.leaf, |val|)
  {
    var cells := InsertAt(nd.cells, idx, Cell(key, val, if nd.leaf then 0 else ChildOf(nd, idx)));
    Node(nd.leaf,
         if idx < |nd.cells| && !nd.leaf then cells[idx + 1 := cells[idx + 1].(left := right)] else cells,
         if idx == |nd.cells| then right else nd.rightmost,
         nd.next,
         nd.content - acc.CellSize(nd.leaf, |val|))
  }

  /** The part of doInsert that stays on the page. */
  method InsertCell(cfg: Cfg, p: array<byte>, n: nat, idx: nat, key: int, val: Value, right: nat, ghost nd: Node)
    requires Repr(cfg, p[..], nd) && idx <= n == |nd.cells| && right < 0x1_0000_0000
    requires Legal(cfg.acc, nd.leaf, Cell(key, val, 0))
    requires HEADER + SLOT * (n + 1) + cfg.acc.CellSize(nd.leaf, |val|) <= nd.content
    modifies p
    ensures Repr(cfg, p[..], AddCell(cfg.acc, nd, idx, key, val, right))
  {
    hide CellAt, FromLE, CellOk, Apart, U16, U32, Body;
    ghost var s := p[..];
    BodySize(cfg, s, nd);
    var leaf := IsLeaf(p[..]);
    ShiftUp(p, idx, n);
    var left := 0;
    if !leaf {
      ChildAfterShift(cfg, s, p[..], nd, idx);
      left := ChildAt(cfg.acc, p[..], idx, n);
    }
    PlaceCell(cfg, p, idx, Cell(key, val, left), leaf, s, nd);
    ghost var nd1 := Node(nd.leaf, InsertAt(nd.cells, idx, Cell(key, val, left)), nd.rightmost, nd.next,
                          nd.content - cfg.acc.CellSize(nd.leaf, |val|));
    ghost var t := p[..];
    BodySize(cfg, t, nd1);
    if idx == n {
      SetRightmost(p, right);
      RightmostWritten(cfg, t, p[..], nd1);
    } else if !leaf {
      PatchLeft(cfg, p, idx + 1, right, nd1);
    }
    ghost var u := p[..];
    SetNumCells(p, n + 1);
    CountWritten(cfg, u, p[..], AddCell(cfg.acc, nd, idx, key, val, right));
  }

  lemma BodySize(cfg: Cfg, s: Page, nd: Node)
    requires Body(cfg, s, nd)
    ensures |s| == cfg.pageSize && HEADER <= |s| < 0x1_0000 && IsLeaf(s) == nd.leaf
    ensures HEADER + SLOT * |nd.cells| <= nd.content <= |s| && NextLeaf(s) == nd.next
    ensures CellContent(s) == nd.content && Rightmost(s) == nd.rightmost
  {
    hide CellAt, CellOk, Apart;
  }

  method PutRightmost(cfg: Cfg, p: array<byte>, id: nat, ghost nd: Node)
    requires Repr(cfg, p[..], nd) && id < 0x1_0000_0000
    modifies p
    ensures Repr(cfg, p[..], nd.(rightmost := id))
  {
    hide Body;
    ghost var s := p[..];
    BodySize(cfg, s, nd);
    SetRightmost(p, id);
    RightmostWritten(cfg, s, p[..], nd);
  }

  method PutNextLeaf(cfg: Cfg, p: array<byte>, id: nat, ghost nd: Node)
    requires Repr(cfg, p[..], nd) && id < 0x1_0000_0000
    modifies p
    ensures Repr(cfg, p[..], nd.(next := id))
  {
    hide Body;
    ghost var s := p[..];
    BodySize(cfg, s, nd);
    SetNextLeaf(p, id);
    NextWritten(cfg, s, p[..], nd);
  }
}
