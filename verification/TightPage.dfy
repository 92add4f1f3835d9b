/**
 A case the code does not handle: the room test of doInsert accepts a cell that fits without its two-byte slot.

 The new cell then begins inside the last slot. Appending a cell writes that slot over the first bytes of the cell;
 inserting one further left writes the cell over the slot of the last record, and in an internal node the child pointer
 that is patched next is found through that slot when it belongs to the last record. The TreeModel calls this case
 Broken; here is what it does to the page, byte by byte, and when it does no harm.
 */
module TightPage {
  import opened Bytes
  import opened Records
  import opened TreeModel
  import opened Layout
  import opened PageOps
  import opened ShortPage

  /** x with its low bytes replaced by the bytes of a slot that holds off: both of them, or its high byte alone. */
  function Blot(x: nat, gap: nat, off: nat): nat {
    if gap == 0 then x - x % 0x1_0000 + off else x - x % 0x100 + off / 0x100
  }

  /** What is read back for a cell appended at off when only gap < 2 bytes are left for its slot. */
  function Blotted(acc: Acc, leaf: bool, c: Cell, gap: nat, off: nat): Cell
    requires Legal(acc, leaf, c)
  {
    if acc.CopyUp() && leaf then c.(key := FromU64(Blot(ToU64(c.key), gap, off)))
    else c.(left := Blot(c.left, gap, off))
  }

  /** The bytes of the slot and of the cell agree where they overlap. */
  predicate Harmless(acc: Acc, leaf: bool, c: Cell, gap: nat, off: nat)
    requires Legal(acc, leaf, c)
  {
    var x := if acc.CopyUp() && leaf then ToU64(c.key) else c.left;
    if gap == 0 then x % 0x1_0000 == off else x % 0x100 == off / 0x100
  }

  /**
   An appended cell without room for its slot reads back right exactly when its first bytes happen to be those of its
   own offset. In a leaf of a B-tree these bytes are the unused child pointer, and the record is right in any case.
   */
  lemma HarmlessExactly(acc: Acc, leaf: bool, c: Cell, gap: nat, off: nat)
    requires Legal(acc, leaf, c) && off < 0x1_0000
    ensures Blotted(acc, leaf, c, gap, off) == c <==> Harmless(acc, leaf, c, gap, off)
    ensures acc.BTreeAcc? ==>
      Blotted(acc, leaf, c, gap, off).key == c.key && Blotted(acc, leaf, c, gap, off).val == c.val
  {
  }

  // ---------------------------------------------------------------- the bytes

  lemma LowBytes(b: Page)
    requires |b| >= 2
    ensures FromLE(b) == b[0] as int + 0x100 * FromLE(b[1..])
    ensures FromLE(b) == FromLE(b[..2]) + 0x1_0000 * FromLE(b[2..])
    ensures FromLE(b[..2]) == b[0] as int + 0x100 * (b[1] as int) < 0x1_0000
  {
  }

  lemma BlotBoth(low: nat, rest: nat, off: nat)
    requires low < 0x1_0000
    ensures Blot(low + 0x1_0000 * rest, 0, off) == off + 0x1_0000 * rest
  {
  }

  lemma BlotHigh(low: nat, rest: nat, off: nat)
    requires low < 0x100
    ensures Blot(low + 0x100 * rest, 1, off) == off / 0x100 + 0x100 * rest
  {
  }

  /** Reading k bytes whose first ones a slot has been written over. */
  lemma BlotBytes(v: Page, w: Page, off: nat, gap: nat, k: nat)
    requires |v| == |w| && k >= 4 && off + k <= |v| && gap < 2 <= off - gap
    requires U16(w, off - gap) == off
    requires v[off + 2 - gap..off + k] == w[off + 2 - gap..off + k]
    ensures FromLE(w[off..off + k]) == Blot(FromLE(v[off..off + k]), gap, off)
  {
    hide FromLE, Blot;
    var a, b := v[off..off + k], w[off..off + k];
    LowBytes(a);
    LowBytes(b);
    if gap == 0 {
      assert a[2..] == v[off + 2..off + k] && b[2..] == w[off + 2..off + k];
      assert b[..2] == w[off..off + 2];
      BlotBoth(FromLE(a[..2]), FromLE(a[2..]), off);
    } else {
      assert a[1..] == v[off + 1..off + k] && b[1..] == w[off + 1..off + k];
      var slot := w[off - 1..off + 1];
      LowBytes(slot);
      assert slot[..2] == slot && slot[1] == b[0];
      BlotHigh(a[0], FromLE(a[1..]), off);
    }
  }

  lemma KeyBack(key: int)
    requires MIN_KEY <= key <= MAX_KEY
    ensures FromU64(ToU64(key)) == key
  {
  }

  lemma BlotCell(acc: Acc, leaf: bool, v: Page, w: Page, off: nat, gap: nat, c: Cell)
    requires CellAt(acc, leaf, v, off, c) && |v| == |w| && gap < 2 <= off - gap
    requires U16(w, off - gap) == off && Agree(v, w, off + 2 - gap, |v|)
    ensures DecodeCell(acc, leaf, w, off) == Blotted(acc, leaf, c, gap, off)
  {
    hide FromLE, Blot, FromU64;
    if acc.CopyUp() && leaf {
      BlotBytes(v, w, off, gap, 8);
      KeyBack(c.key);
    } else {
      BlotBytes(v, w, off, gap, 4);
      KeyBack(c.key);
    }
  }

  // ---------------------------------------------------------------- doInsert without a room test

  /** The in-page part of doInsert goes through without an out-of-range access up to the child pointer it patches. */
  predicate Insertable(acc: Acc, s: Page, idx: nat, c: Cell) {
    && HEADER <= |s| < 0x1_0000 && Legal(acc, IsLeaf(s), c) && idx <= NumCells(s)
    && SizeOf(acc, IsLeaf(s), c) <= CellContent(s) <= |s| && HEADER + SLOT * NumCells(s) + SLOT <= |s|
  }

  /** The bytes after shifting the slots, allocating, and writing cell and slot. */
  function Placed(acc: Acc, s: Page, idx: nat, c: Cell): (t: Page)
    requires Insertable(acc, s, idx, c)
    ensures |t| == |s|
  {
    var top := CellContent(s) - SizeOf(acc, IsLeaf(s), c);
    var shifted := Over(s, HEADER + SLOT * (idx + 1), s[HEADER + SLOT * idx..HEADER + SLOT * NumCells(s)]);
    Over(Over(Over(shifted, OFF_CONTENT, ToLE(2, top)), top, Enc(acc, IsLeaf(s), c)), HEADER + SLOT * idx, ToLE(2, top))
  }

  /** Where doInsert writes the page id of the new child: the rightmost pointer, or through the slot behind idx. */
  function PatchAt(acc: Acc, s: Page, idx: nat, c: Cell): nat
    requires Insertable(acc, s, idx, c)
  {
    if idx == NumCells(s) then OFF_RIGHTMOST else CellPtr(Placed(acc, s, idx, c), idx + 1)
  }

  /** The patched child pointer, if there is one, lies on the page. */
  predicate PatchStays(acc: Acc, s: Page, idx: nat, c: Cell)
    requires Insertable(acc, s, idx, c)
  {
    (idx < NumCells(s) && IsLeaf(s)) || PatchAt(acc, s, idx, c) + 4 <= |s|
  }

  /** The bytes after the in-page part of doInsert. */
  function Forced(acc: Acc, s: Page, idx: nat, c: Cell, right: nat): (t: Page)
    requires Insertable(acc, s, idx, c)
    requires PatchStays(acc, s, idx, c)
    ensures |t| == |s|
  {
    var placed := Placed(acc, s, idx, c);
    var patched := if idx < NumCells(s) && IsLeaf(s) then placed
                   else Over(placed, PatchAt(acc, s, idx, c), ToLE(4, right));
    Over(patched, OFF_NUM_CELLS, ToLE(2, NumCells(s) + 1))
  }

  /** The in-page part of doInsert, on any page on which it does not run off the page. */
  method ForceInsert(acc: Acc, p: array<byte>, idx: nat, c: Cell, right: nat)
    requires Insertable(acc, p[..], idx, c) && right < 0x1_0000_0000
    requires PatchStays(acc, p[..], idx, c)
    modifies p
    ensures p[..] == Forced(acc, old(p[..]), idx, c, right)
  {
    hide FromLE, ToLE, CellAt, Wrote, Over, Enc, SizeOf;
    Widths();
    ghost var s := p[..];
    var n, leaf := NumCells(p[..]), IsLeaf(p[..]);
    ShiftUp(p, idx, n);
    ghost var s0 := p[..];
    ShiftedBytes(s, s0, idx, n);
    var off := AllocCell(p, SizeOf(acc, leaf, c));
    ghost var s1 := p[..];
    PutField(s0, s1, OFF_CONTENT, 2, off);
    WriteCell(acc, p, off, c, leaf);
    ghost var s2 := p[..];
    CellBytes(acc, leaf, s2, off, c);
    OverUnique(s1, s2, off, Enc(acc, leaf, c));
    SetCellPtr(p, idx, off);
    ghost var s3 := p[..];
    PutField(s2, s3, HEADER + SLOT * idx, 2, off);
    assert s3 == Placed(acc, s, idx, c);
    ForcePatch(acc, p, idx, n, leaf, right, s, c);
  }

  /** The end of it: the right neighbour's pointer, and the count. */
  method ForcePatch(acc: Acc, p: array<byte>, idx: nat, n: nat, leaf: bool, right: nat, ghost s: Page, ghost c: Cell)
    requires Insertable(acc, s, idx, c) && right < 0x1_0000_0000 && n == NumCells(s) && leaf == IsLeaf(s)
    requires PatchStays(acc, s, idx, c) && p[..] == Placed(acc, s, idx, c)
    modifies p
    ensures p[..] == Forced(acc, s, idx, c, right)
  {
    hide FromLE, ToLE, Wrote, Over, Enc, SizeOf, Placed;
    Widths();
    ghost var s3 := p[..];
    if idx == n {
      SetRightmost(p, right);
      PutField(s3, p[..], OFF_RIGHTMOST, 4, right);
    } else if !leaf {
      var off1 := CellPtr(p[..], idx + 1);
      PutU32(p, off1, right);
      PutField(s3, p[..], off1, 4, right);
    }
    ghost var s4 := p[..];
    SetNumCells(p, n + 1);
    PutField(s4, p[..], OFF_NUM_CELLS, 2, n + 1);
  }

  lemma ShiftedBytes(s: Page, t: Page, idx: nat, n: nat)
    requires idx <= n && HEADER + SLOT * (n + 1) <= |s| && Shifted(s, t, idx, n)
    ensures |t| == |s| && CellContent(t) == CellContent(s)
    ensures t == Over(s, HEADER + SLOT * (idx + 1), s[HEADER + SLOT * idx..HEADER + SLOT * n])
  {
    hide FromLE, ToLE, Over, CellPtr;
    HeaderKept(s, t, HEADER);
    var lo, hi := HEADER + SLOT * (idx + 1), HEADER + SLOT * (n + 1);
    var now, was := t[lo..hi], s[lo - SLOT..hi - SLOT];
    forall k | 0 <= k < |was|
      ensures now[k] == was[k]
    {
      var j := idx + 1 + k / SLOT;
      SameSlot(s, t, j);
      assert now[k] == t[HEADER + SLOT * j..HEADER + SLOT * j + SLOT][k % SLOT];
      assert was[k] == s[HEADER + SLOT * (j - 1)..HEADER + SLOT * (j - 1) + SLOT][k % SLOT];
    }
    OverUnique(s, t, lo, was);
  }

  lemma SameSlot(s: Page, t: Page, j: nat)
    requires j >= 1 && HEADER + SLOT * j + SLOT <= |t| && HEADER + SLOT * j <= |s| && CellPtr(t, j) == CellPtr(s, j - 1)
    ensures t[HEADER + SLOT * j..HEADER + SLOT * j + SLOT] == s[HEADER + SLOT * (j - 1)..HEADER + SLOT * (j - 1) + SLOT]
  {
    ToFromLE(t[HEADER + SLOT * j..HEADER + SLOT * j + SLOT]);
    ToFromLE(s[HEADER + SLOT * (j - 1)..HEADER + SLOT * (j - 1) + SLOT]);
  }

  // ---------------------------------------------------------------- what the page holds then

  /** The page represents nd, and the room test accepts the cell c: it fits, with or without its slot. */
  ghost predicate Accepted(cfg: Cfg, s: Page, nd: Node, idx: nat, c: Cell) {
    && Repr(cfg, s, nd) && Legal(cfg.acc, nd.leaf, c) && idx <= |nd.cells|
    && SizeOf(cfg.acc, nd.leaf, c) <= FreeSpace(nd.content, |nd.cells|)
  }

  function Top(acc: Acc, nd: Node, c: Cell): int {
    nd.content - SizeOf(acc, nd.leaf, c)
  }

  lemma AcceptedFacts(cfg: Cfg, s: Page, nd: Node, idx: nat, c: Cell)
    requires Accepted(cfg, s, nd, idx, c)
    ensures Insertable(cfg.acc, s, idx, c) && |s| == cfg.pageSize && IsLeaf(s) == nd.leaf && NumCells(s) == |nd.cells|
    ensures HEADER + SLOT * |nd.cells| <= Top(cfg.acc, nd, c)
      && Top(cfg.acc, nd, c) + 10 <= nd.content == CellContent(s) <= |s|
    ensures Rightmost(s) == nd.rightmost && NextLeaf(s) == nd.next
  {
    hide CellOk, Apart;
    BodySize(cfg, s, nd);
  }

  lemma PlaceWrites(acc: Acc, s: Page, idx: nat, c: Cell) returns (s0: Page, s1: Page, s2: Page)
    requires Insertable(acc, s, idx, c)
    ensures var n, size, top := NumCells(s), SizeOf(acc, IsLeaf(s), c), CellContent(s) - SizeOf(acc, IsLeaf(s), c);
      var p := Placed(acc, s, idx, c);
      && |s0| == |s1| == |s2| == |s|
      && Shifted(s, s0, idx, n) && Wrote(s0, s1, OFF_CONTENT, OFF_CONTENT + 2) && Wrote(s1, s2, top, top + size)
      && s2[top..top + size] == Enc(acc, IsLeaf(s), c)
      && Wrote(s2, p, HEADER + SLOT * idx, HEADER + SLOT * idx + SLOT) && CellPtr(p, idx) == top
      && s2 == Over(s1, top, Enc(acc, IsLeaf(s), c)) && p == Over(s2, HEADER + SLOT * idx, ToLE(2, top))
  {
    hide Over, Wrote, ToLE, FromLE, Enc, SizeOf, CellPtr, Shifted;
    Widths();
    var n, top := NumCells(s), CellContent(s) - SizeOf(acc, IsLeaf(s), c);
    s0 := Over(s, HEADER + SLOT * (idx + 1), s[HEADER + SLOT * idx..HEADER + SLOT * n]);
    ShiftHolds(s, idx, n);
    s1 := Over(s0, OFF_CONTENT, ToLE(2, top));
    OverWrote(s0, OFF_CONTENT, ToLE(2, top));
    s2 := Over(s1, top, Enc(acc, IsLeaf(s), c));
    OverWrote(s1, top, Enc(acc, IsLeaf(s), c));
    OverWrote(s2, HEADER + SLOT * idx, ToLE(2, top));
    SlotHolds(Placed(acc, s, idx, c), idx, top);
  }

  lemma SlotHolds(t: Page, i: nat, x: nat)
    requires HEADER + SLOT * i + SLOT <= |t| && x < 0x1_0000
    ensures CellPtr(t, i) == x <==> t[HEADER + SLOT * i..HEADER + SLOT * i + SLOT] == ToLE(2, x)
  {
    hide FromLE, ToLE;
    Widths();
    Field(t[HEADER + SLOT * i..HEADER + SLOT * i + SLOT], 2, x);
  }

  lemma PartOf(s: Page, lo: nat, hi: nat, k: nat, n: nat)
    requires lo <= hi <= |s| && k + n <= hi - lo
    ensures s[lo..hi][k..k + n] == s[lo + k..lo + k + n]
  {
    var a, b := s[lo..hi][k..k + n], s[lo + k..lo + k + n];
    forall i | 0 <= i < n
      ensures a[i] == b[i]
    {
    }
  }

  lemma ShiftHolds(s: Page, idx: nat, n: nat)
    requires idx <= n && HEADER + SLOT * (n + 1) <= |s|
    ensures Shifted(s, Over(s, HEADER + SLOT * (idx + 1), s[HEADER + SLOT * idx..HEADER + SLOT * n]), idx, n)
  {
    hide FromLE, Over;
    var moved := s[HEADER + SLOT * idx..HEADER + SLOT * n];
    var t := Over(s, HEADER + SLOT * (idx + 1), moved);
    OverWrote(s, HEADER + SLOT * (idx + 1), moved);
    var now := t[HEADER + SLOT * (idx + 1)..HEADER + SLOT * (n + 1)];
    forall j | idx < j <= n
      ensures CellPtr(t, j) == CellPtr(s, j - 1)
    {
      var k := SLOT * (j - idx - 1);
      PartOf(t, HEADER + SLOT * (idx + 1), HEADER + SLOT * (n + 1), k, SLOT);
      PartOf(s, HEADER + SLOT * idx, HEADER + SLOT * n, k, SLOT);
    }
  }

  /** The slots of the old cells, all but the last one when it has moved. */
  lemma PlacedSlot(cfg: Cfg, s: Page, nd: Node, idx: nat, c: Cell, j: nat)
    requires Accepted(cfg, s, nd, idx, c) && j != idx && j < |nd.cells|
    ensures Insertable(cfg.acc, s, idx, c) && HEADER + SLOT * j + SLOT <= |s|
    ensures CellPtr(Placed(cfg.acc, s, idx, c), j) == CellPtr(s, if j < idx then j else j - 1)
  {
    AcceptedFacts(cfg, s, nd, idx, c);
    hide Over, ToLE, FromLE, U16, Enc, Placed, CellOk, Apart, CellAt, CellPtr;
    var s0, s1, s2 := PlaceWrites(cfg.acc, s, idx, c);
    if j < idx {
      PtrKept(s, s0, 0, HEADER + SLOT * (idx + 1), j);
    }
    PtrKept(s0, s1, OFF_CONTENT + 2, |s|, j);
    PtrKept(s1, s2, 0, Top(cfg.acc, nd, c), j);
    if j < idx {
      PtrKept(s2, Placed(cfg.acc, s, idx, c), 0, HEADER + SLOT * idx, j);
    } else {
      PtrKept(s2, Placed(cfg.acc, s, idx, c), HEADER + SLOT * idx + SLOT, |s|, j);
    }
  }

  /** The last slot, when it has moved, is right exactly when the first bytes of the cell agree with it. */
  lemma PlacedLast(cfg: Cfg, s: Page, nd: Node, idx: nat, c: Cell)
    requires Accepted(cfg, s, nd, idx, c) && idx < |nd.cells|
    ensures Insertable(cfg.acc, s, idx, c)
    ensures var n := |nd.cells|;
      && HEADER + SLOT * n + SLOT <= |s| && CellPtr(s, n - 1) < 0x1_0000
      && (CellPtr(Placed(cfg.acc, s, idx, c), n) == CellPtr(s, n - 1) <==>
            Compatible(HEADER + SLOT * n, ToLE(2, CellPtr(s, n - 1)), Top(cfg.acc, nd, c), Enc(cfg.acc, nd.leaf, c)))
  {
    hide Accepted, Repr, ToLE, FromLE, Enc, Placed, CellAt, Core, RecordAt, Compatible, SizeOf, Top;
    AcceptedFacts(cfg, s, nd, idx, c);
    TopIs(cfg.acc, s, nd, c);
    LastSlot(cfg.acc, s, idx, c);
  }

  lemma TopIs(acc: Acc, s: Page, nd: Node, c: Cell)
    requires |s| >= HEADER && IsLeaf(s) == nd.leaf && nd.content == CellContent(s)
    ensures Top(acc, nd, c) == CellContent(s) - SizeOf(acc, IsLeaf(s), c)
  {
  }

  lemma LastSlot(acc: Acc, s: Page, idx: nat, c: Cell)
    requires Insertable(acc, s, idx, c) && idx < NumCells(s)
    ensures var n, top := NumCells(s), CellContent(s) - SizeOf(acc, IsLeaf(s), c);
      && CellPtr(s, n - 1) < 0x1_0000
      && (CellPtr(Placed(acc, s, idx, c), n) == CellPtr(s, n - 1) <==>
            Compatible(HEADER + SLOT * n, ToLE(2, CellPtr(s, n - 1)), top, Enc(acc, IsLeaf(s), c)))
  {
    hide Over, ToLE, FromLE, Enc, Placed, CellPtr, Compatible, SizeOf;
    var n, p, top := NumCells(s), Placed(acc, s, idx, c), CellContent(s) - SizeOf(acc, IsLeaf(s), c);
    var s0, s1, s2 := PlaceWrites(acc, s, idx, c);
    var want := CellPtr(s, n - 1);
    SlotSmall(s, n - 1);
    PtrKept(s0, s1, OFF_CONTENT + 2, |s|, n);
    SlotHolds(s1, n, want);
    SlotHolds(s2, n, want);
    OverReads(s1, HEADER + SLOT * n, ToLE(2, want), top, Enc(acc, IsLeaf(s), c));
    PtrKept(s2, p, HEADER + SLOT * idx + SLOT, |s|, n);
  }

  lemma SlotSmall(s: Page, j: nat)
    requires HEADER + SLOT * j + SLOT <= |s|
    ensures CellPtr(s, j) < 0x1_0000
  {
    Widths();
  }

  /** The old cells stand where they stood, and the header but for the free pointer is what it was. */
  lemma PlacedRest(cfg: Cfg, s: Page, nd: Node, idx: nat, c: Cell)
    requires Accepted(cfg, s, nd, idx, c)
    ensures Insertable(cfg.acc, s, idx, c)
    ensures var p := Placed(cfg.acc, s, idx, c);
      && IsLeaf(p) == nd.leaf && Rightmost(p) == nd.rightmost && NextLeaf(p) == nd.next
      && forall k | 0 <= k < |nd.cells| :: Stands(cfg.acc, s, p, nd, k)
  {
    AcceptedFacts(cfg, s, nd, idx, c);
    hide Over, ToLE, FromLE, U16, Enc, Placed, CellOk, Apart, CellAt, CellPtr;
    var p, top := Placed(cfg.acc, s, idx, c), Top(cfg.acc, nd, c);
    var s0, s1, s2 := PlaceWrites(cfg.acc, s, idx, c);
    HeaderKept(s, s0, HEADER);
    HeaderKept(s1, s2, HEADER);
    HeaderKept(s2, p, HEADER);
    assert s1[0] == s1[0..1][0] && s0[0] == s0[0..1][0];
    forall k | 0 <= k < |nd.cells|
      ensures Stands(cfg.acc, s, p, nd, k)
    {
      SlotInside(cfg, s, nd, k);
      var at, d := CellPtr(s, k), nd.cells[k];
      CellFits(cfg.acc, nd.leaf, s, at, d);
      CellKept(cfg.acc, nd.leaf, s, s0, HEADER + SLOT * (|nd.cells| + 1), |s|, at, d);
      CellKept(cfg.acc, nd.leaf, s0, s1, OFF_CONTENT + 2, |s|, at, d);
      CellKept(cfg.acc, nd.leaf, s1, s2, nd.content, |s|, at, d);
      CellKept(cfg.acc, nd.leaf, s2, p, HEADER + SLOT * idx + SLOT, |s|, at, d);
    }
  }

  /** Old cell k still stands in t at the offset that its slot in s has. */
  ghost predicate Stands(acc: Acc, s: Page, t: Page, nd: Node, k: nat)
    requires k < |nd.cells|
  {
    HEADER + SLOT * k + SLOT <= |s| && nd.content <= CellPtr(s, k)
      && CellAt(acc, nd.leaf, t, CellPtr(s, k), nd.cells[k])
  }

  /** The new cell: its slot is right, and it reads right exactly when the bytes that its slot shares with it agree. */
  lemma PlacedNew(cfg: Cfg, s: Page, nd: Node, idx: nat, c: Cell)
    requires Accepted(cfg, s, nd, idx, c)
    ensures Insertable(cfg.acc, s, idx, c) && Top(cfg.acc, nd, c) >= 0
    ensures var p, top, u := Placed(cfg.acc, s, idx, c), Top(cfg.acc, nd, c), Unread(cfg.acc, nd.leaf);
      && HEADER + SLOT * idx + SLOT <= |s| && CellPtr(p, idx) == top
      && (RecordAt(cfg.acc, nd.leaf, p, top, c) <==>
            Compatible(top + u, Core(cfg.acc, nd.leaf, c), HEADER + SLOT * idx, ToLE(2, top)))
      && (idx < |nd.cells| ==> CellAt(cfg.acc, nd.leaf, p, top, c))
  {
    hide Accepted, Repr, ToLE, FromLE, Enc, Placed, CellAt, Core, RecordAt, Compatible, SizeOf, Top;
    AcceptedFacts(cfg, s, nd, idx, c);
    TopIs(cfg.acc, s, nd, c);
    NewCell(cfg.acc, s, idx, c);
  }

  lemma NewCell(acc: Acc, s: Page, idx: nat, c: Cell)
    requires Insertable(acc, s, idx, c)
    requires HEADER + SLOT * NumCells(s) <= CellContent(s) - SizeOf(acc, IsLeaf(s), c)
    ensures var p, top, u := Placed(acc, s, idx, c), CellContent(s) - SizeOf(acc, IsLeaf(s), c), Unread(acc, IsLeaf(s));
      && CellPtr(p, idx) == top
      && (RecordAt(acc, IsLeaf(s), p, top, c) <==>
            Compatible(top + u, Core(acc, IsLeaf(s), c), HEADER + SLOT * idx, ToLE(2, top)))
      && (idx < NumCells(s) ==> CellAt(acc, IsLeaf(s), p, top, c))
  {
    hide Over, ToLE, FromLE, U16, Enc, Placed, CellAt, CellPtr, Core, RecordAt, Compatible, SizeOf;
    var leaf, p, top := IsLeaf(s), Placed(acc, s, idx, c), CellContent(s) - SizeOf(acc, IsLeaf(s), c);
    var s0, s1, s2 := PlaceWrites(acc, s, idx, c);
    RecordBytes(acc, leaf, p, top, c);
    CoreInside(acc, leaf, s2, top, c);
    OverReads(s2, top + Unread(acc, leaf), Core(acc, leaf, c), HEADER + SLOT * idx, ToLE(2, top));
    if idx < NumCells(s) {
      CellBytes(acc, leaf, s2, top, c);
      CellKept(acc, leaf, s2, p, HEADER + SLOT * idx + SLOT, |s|, top, c);
    }
  }

  /** The cell that doInsert writes at idx. */
  function CellFor(nd: Node, idx: nat, key: int, val: Value): Cell
    requires idx <= |nd.cells|
  {
    Cell(key, val, if nd.leaf then 0 else ChildOf(nd, idx))
  }

  /** Old cell k in the node after an insert at idx: the child to the right of the new cell is the new one. */
  function OldCell(nd: Node, idx: nat, right: nat, k: nat): Cell
    requires k < |nd.cells|
  {
    if k == idx && !nd.leaf then nd.cells[k].(left := right) else nd.cells[k]
  }

  lemma NewCells(acc: Acc, nd: Node, idx: nat, key: int, val: Value, right: nat, j: nat)
    requires idx <= |nd.cells| && nd.content >= acc.CellSize(nd.leaf, |val|) && j <= |nd.cells|
    ensures var nd' := AddCell(acc, nd, idx, key, val, right);
      && nd'.leaf == nd.leaf && |nd'.cells| == |nd.cells| + 1 && nd'.next == nd.next
      && nd'.rightmost == (if idx == |nd.cells| then right else nd.rightmost)
      && nd'.cells[j] == if j == idx then CellFor(nd, idx, key, val)
                       else OldCell(nd, idx, right, if j < idx then j else j - 1)
  {
  }

  /** The page id of a new child lands in the cell behind idx, if the slot of that cell is right, and nowhere else. */
  lemma Patch(cfg: Cfg, s: Page, nd: Node, idx: nat, c: Cell, right: nat)
    requires Accepted(cfg, s, nd, idx, c) && idx < |nd.cells| && right < 0x1_0000_0000
    requires Insertable(cfg.acc, s, idx, c) && HEADER + SLOT * (idx + 1) + SLOT <= |s|
    requires nd.leaf || CellPtr(Placed(cfg.acc, s, idx, c), idx + 1) == CellPtr(s, idx)
    ensures PatchStays(cfg.acc, s, idx, c)
    ensures var p := Placed(cfg.acc, s, idx, c);
      var q := if nd.leaf then p else Over(p, PatchAt(cfg.acc, s, idx, c), ToLE(4, right));
      && (nd.leaf || nd.content <= PatchAt(cfg.acc, s, idx, c)) && Agree(p, q, 0, nd.content)
      && forall k | 0 <= k < |nd.cells| :: StandsNow(cfg.acc, s, q, nd, idx, right, k)
  {
    hide Over, ToLE, FromLE, U16, Enc, Placed, CellOk, CellAt, CellPtr, SizeOf, Compatible, Insertable, Core;
    AcceptedFacts(cfg, s, nd, idx, c);
    PlacedRest(cfg, s, nd, idx, c);
    var acc, p := cfg.acc, Placed(cfg.acc, s, idx, c);
    if nd.leaf {
      forall k | 0 <= k < |nd.cells|
        ensures StandsNow(acc, s, p, nd, idx, right, k)
      {
        assert Stands(acc, s, p, nd, k);
      }
    } else {
      assert Stands(acc, s, p, nd, idx);
      var at := CellPtr(s, idx);
      LeftInside(acc, p, at, nd.cells[idx]);
      var q := Over(p, at, ToLE(4, right));
      OverWrote(p, at, ToLE(4, right));
      forall k | 0 <= k < |nd.cells|
        ensures StandsNow(acc, s, q, nd, idx, right, k)
      {
        assert Stands(acc, s, p, nd, k);
        if k == idx {
          LeftWritten(acc, p, q, at, nd.cells[idx], right);
        } else {
          assert Apart(acc, s, false, nd.cells[if k < idx then k else idx], if k < idx then k else idx,
                       nd.cells[if k < idx then idx else k], if k < idx then idx else k);
          KeptBeside(acc, p, q, at, nd.cells[idx], CellPtr(s, k), nd.cells[k]);
        }
      }
    }
  }

  ghost predicate StandsNow(acc: Acc, s: Page, t: Page, nd: Node, idx: nat, right: nat, k: nat)
    requires k < |nd.cells|
  {
    && HEADER + SLOT * k + SLOT <= |s| && nd.content <= CellPtr(s, k)
    && CellAt(acc, nd.leaf, t, CellPtr(s, k), OldCell(nd, idx, right, k))
  }

  lemma LeftInside(acc: Acc, s: Page, at: nat, c: Cell)
    requires CellAt(acc, false, s, at, c)
    ensures at + 12 <= at + SizeOf(acc, false, c) <= |s|
  {
  }

  lemma LeftWritten(acc: Acc, s: Page, t: Page, at: nat, c: Cell, right: nat)
    requires CellAt(acc, false, s, at, c) && right < 0x1_0000_0000
    requires Wrote(s, t, at, at + 4) && |t| == |s| && t[at..at + 4] == ToLE(4, right)
    ensures CellAt(acc, false, t, at, c.(left := right))
  {
    hide ToLE, FromLE;
    Widths();
    Field(t[at..at + 4], 4, right);
  }

  lemma KeptBeside(acc: Acc, s: Page, t: Page, at: nat, c: Cell, at': nat, d: Cell)
    requires CellAt(acc, false, s, at', d) && Wrote(s, t, at, at + 4) && SizeOf(acc, false, c) >= 4
    requires at + SizeOf(acc, false, c) <= at' || at' + SizeOf(acc, false, d) <= at
    ensures CellAt(acc, false, t, at', d)
  {
    CellFits(acc, false, s, at', d);
    if at' + SizeOf(acc, false, d) <= at {
      CellKept(acc, false, s, t, 0, at, at', d);
    } else {
      CellKept(acc, false, s, t, at + 4, |s|, at', d);
    }
  }

  /** Writing the count changes no slot and no cell. */
  lemma CountLast(q: Page, n: nat) returns (t: Page)
    requires |q| >= HEADER && n < 0x1_0000
    ensures t == Over(q, OFF_NUM_CELLS, ToLE(2, n)) && |t| == |q| && Wrote(q, t, OFF_NUM_CELLS, OFF_NUM_CELLS + 2)
    ensures NumCells(t) == n && IsLeaf(t) == IsLeaf(q) && Rightmost(t) == Rightmost(q) && NextLeaf(t) == NextLeaf(q)
  {
    hide Over, ToLE, FromLE;
    Widths();
    t := Over(q, OFF_NUM_CELLS, ToLE(2, n));
    OverWrote(q, OFF_NUM_CELLS, ToLE(2, n));
    Field(t[OFF_NUM_CELLS..OFF_NUM_CELLS + 2], 2, n);
    assert t[0] == t[0..1][0] == q[0..1][0] == q[0];
  }

  /**
   Every record that an insert before the last cell does not touch reads right, and so does the new one: the page reads
   as the node with the cell inserted exactly when its last slot leads to the last record.
   */
  lemma ReadsButLast(cfg: Cfg, s: Page, nd: Node, idx: nat, key: int, val: Value, right: nat)
    requires idx < |nd.cells| && right < 0x1_0000_0000 && Accepted(cfg, s, nd, idx, CellFor(nd, idx, key, val))
    requires Insertable(cfg.acc, s, idx, CellFor(nd, idx, key, val)) && HEADER + SLOT * |nd.cells| + SLOT <= |s|
    requires nd.leaf || CellPtr(Placed(cfg.acc, s, idx, CellFor(nd, idx, key, val)), idx + 1) == CellPtr(s, idx)
    ensures PatchStays(cfg.acc, s, idx, CellFor(nd, idx, key, val))
    ensures var n, c := |nd.cells|, CellFor(nd, idx, key, val);
      var t, nd' := Forced(cfg.acc, s, idx, c, right), AddCell(cfg.acc, nd, idx, key, val, right);
      && (forall j | 0 <= j <= n :: SameSlots(t, Placed(cfg.acc, s, idx, c), j))
      && (forall j | 0 <= j < n :: j < |nd'.cells| && ReadsAt(cfg.acc, t, nd', j))
      && (Reads(cfg, t, nd') <==> RecordAt(cfg.acc, nd.leaf, t, CellPtr(t, n), nd'.cells[n]))
      && (CellPtr(t, n) == CellPtr(s, n - 1) ==> Reads(cfg, t, nd'))
  {
    hide Over, ToLE, FromLE, U16, Enc, Placed, CellOk, Apart, CellAt, CellPtr, SizeOf, RecordAt, AddCell, CellFor,
      OldCell, Compatible, Core, Accepted;
    var acc, n, c := cfg.acc, |nd.cells|, CellFor(nd, idx, key, val);
    AcceptedFacts(cfg, s, nd, idx, c);
    CellForSize(acc, nd, idx, key, val);
    Patch(cfg, s, nd, idx, c, right);
    PlacedRest(cfg, s, nd, idx, c);
    PlacedNew(cfg, s, nd, idx, c);
    var p := Placed(acc, s, idx, c);
    var q := if nd.leaf then p else Over(p, PatchAt(acc, s, idx, c), ToLE(4, right));
    HeaderKept(p, q, HEADER);
    var t := CountLast(q, n + 1);
    var nd' := AddCell(acc, nd, idx, key, val, right);
    forall j | 0 <= j <= n
      ensures SameSlots(t, p, j)
    {
      PtrKept(p, q, 0, nd.content, j);
      PtrKept(q, t, OFF_NUM_CELLS + 2, |q|, j);
    }
    NewCells(acc, nd, idx, key, val, right, n);
    assert SameSlots(t, p, n);
    forall j | 0 <= j <= n
      ensures j < n || CellPtr(t, n) == CellPtr(s, n - 1) ==> j < |nd'.cells| && ReadsAt(acc, t, nd', j)
    {
      assert SameSlots(t, p, j);
      NewCells(acc, nd, idx, key, val, right, j);
      if j == idx {
        SizeAt(acc, nd.leaf, p, Top(acc, nd, c), c);
        CellKept(acc, nd.leaf, p, q, 0, nd.content, Top(acc, nd, c), c);
        CellKept(acc, nd.leaf, q, t, OFF_NUM_CELLS + 2, |q|, Top(acc, nd, c), c);
        CellReads(acc, nd.leaf, t, Top(acc, nd, c), c);
      } else {
        var k := if j < idx then j else j - 1;
        if j < n {
          PlacedSlot(cfg, s, nd, idx, c, j);
        }
        assert StandsNow(acc, s, q, nd, idx, right, k);
        var d := OldCell(nd, idx, right, k);
        SizeAt(acc, nd.leaf, q, CellPtr(s, k), d);
        CellKept(acc, nd.leaf, q, t, OFF_NUM_CELLS + 2, |q|, CellPtr(s, k), d);
        CellReads(acc, nd.leaf, t, CellPtr(s, k), d);
      }
    }
    assert ReadsAt(acc, t, nd', n) <==> RecordAt(acc, nd.leaf, t, CellPtr(t, n), nd'.cells[n]);
  }

  ghost predicate SameSlots(s: Page, t: Page, j: nat) {
    HEADER + SLOT * j + SLOT <= |s| == |t| && CellPtr(s, j) == CellPtr(t, j)
  }

  lemma SizeAt(acc: Acc, leaf: bool, s: Page, at: nat, c: Cell)
    requires CellAt(acc, leaf, s, at, c)
    ensures 10 <= SizeOf(acc, leaf, c) && at + SizeOf(acc, leaf, c) <= |s|
  {
  }

  lemma CellForSize(acc: Acc, nd: Node, idx: nat, key: int, val: Value)
    requires idx <= |nd.cells|
    ensures SizeOf(acc, nd.leaf, CellFor(nd, idx, key, val)) == acc.CellSize(nd.leaf, |val|)
  {
  }

  /** The first bytes of the new cell agree with the slot of the last record, which they may overwrite. */
  predicate LastAgrees(acc: Acc, s: Page, nd: Node, c: Cell)
    requires |nd.cells| > 0 && HEADER + SLOT * |nd.cells| <= |s| && Legal(acc, nd.leaf, c) && Top(acc, nd, c) >= 0
  {
    Compatible(HEADER + SLOT * |nd.cells|, ToLE(2, CellPtr(s, |nd.cells| - 1)), Top(acc, nd, c), Enc(acc, nd.leaf, c))
  }

  /**
   Inserting before the last cell. The last slot is right exactly when the bytes agree, and then the page reads as the
   node with the cell inserted. Otherwise a leaf, or an internal node whose patched cell is not the last, reads right
   only if the last record happens to stand a second time where the damaged slot leads; and in an internal node whose
   patched cell is the last, the page id is written where the damaged slot leads.
   */
  lemma TightInsertExactly(cfg: Cfg, s: Page, nd: Node, idx: nat, key: int, val: Value, right: nat)
    requires idx < |nd.cells| && right < 0x1_0000_0000 && Accepted(cfg, s, nd, idx, CellFor(nd, idx, key, val))
    ensures var n, c := |nd.cells|, CellFor(nd, idx, key, val);
      && Insertable(cfg.acc, s, idx, c) && HEADER + SLOT * n + SLOT <= |s| && Top(cfg.acc, nd, c) >= 0
      && (CellPtr(Placed(cfg.acc, s, idx, c), n) == CellPtr(s, n - 1) <==> LastAgrees(cfg.acc, s, nd, c))
    ensures var n, c := |nd.cells|, CellFor(nd, idx, key, val);
      LastAgrees(cfg.acc, s, nd, c) ==>
        && PatchStays(cfg.acc, s, idx, c)
        && Reads(cfg, Forced(cfg.acc, s, idx, c, right), AddCell(cfg.acc, nd, idx, key, val, right))
    ensures var n, c := |nd.cells|, CellFor(nd, idx, key, val);
      nd.leaf || idx + 1 < n ==>
        && PatchStays(cfg.acc, s, idx, c)
        && var t, nd' := Forced(cfg.acc, s, idx, c, right), AddCell(cfg.acc, nd, idx, key, val, right);
          && (forall j | 0 <= j <= n :: SameSlots(t, Placed(cfg.acc, s, idx, c), j))
          && (forall j | 0 <= j < n :: j < |nd'.cells| && ReadsAt(cfg.acc, t, nd', j))
          && (Reads(cfg, t, nd') <==> RecordAt(cfg.acc, nd.leaf, t, CellPtr(t, n), nd.cells[n - 1]))
    ensures var n, c := |nd.cells|, CellFor(nd, idx, key, val);
      !nd.leaf && idx + 1 == n ==> PatchAt(cfg.acc, s, idx, c) == CellPtr(Placed(cfg.acc, s, idx, c), n)
  {
    hide Over, ToLE, FromLE, U16, Enc, Placed, CellOk, Apart, CellAt, CellPtr, SizeOf, RecordAt, AddCell, Compatible,
      Core, Forced, Reads;
    var n, c := |nd.cells|, CellFor(nd, idx, key, val);
    AcceptedFacts(cfg, s, nd, idx, c);
    PlacedLast(cfg, s, nd, idx, c);
    if idx + 1 < n {
      PlacedSlot(cfg, s, nd, idx, c, idx + 1);
    }
    if nd.leaf || idx + 1 < n || LastAgrees(cfg.acc, s, nd, c) {
      CellForSize(cfg.acc, nd, idx, key, val);
      ReadsButLast(cfg, s, nd, idx, key, val, right);
      NewCells(cfg.acc, nd, idx, key, val, right, n);
      assert SameSlots(Forced(cfg.acc, s, idx, c, right), Placed(cfg.acc, s, idx, c), n);
    }
  }

  /**
   Appending. The page reads as the node with the cell added exactly when the bytes of the slot agree with those of the
   record that they overwrite; in a leaf of a B-tree they only overwrite the unread child pointer.
   */
  lemma TightAppendExactly(cfg: Cfg, s: Page, nd: Node, key: int, val: Value, right: nat)
    requires right < 0x1_0000_0000 && Accepted(cfg, s, nd, |nd.cells|, CellFor(nd, |nd.cells|, key, val))
    ensures var n, c := |nd.cells|, CellFor(nd, |nd.cells|, key, val);
      && Insertable(cfg.acc, s, n, c) && PatchStays(cfg.acc, s, n, c) && Top(cfg.acc, nd, c) >= 0
      && (Reads(cfg, Forced(cfg.acc, s, n, c, right), AddCell(cfg.acc, nd, n, key, val, right)) <==>
            SlotAgrees(cfg.acc, nd, c))
  {
    hide Over, ToLE, FromLE, U16, Enc, Placed, CellOk, Apart, CellAt, CellPtr, SizeOf, RecordAt, AddCell, OldCell,
      Compatible, Core, Accepted;
    var acc, n, c := cfg.acc, |nd.cells|, CellFor(nd, |nd.cells|, key, val);
    AcceptedFacts(cfg, s, nd, n, c);
    CellForSize(acc, nd, n, key, val);
    PlacedRest(cfg, s, nd, n, c);
    PlacedNew(cfg, s, nd, n, c);
    var p, top := Placed(acc, s, n, c), Top(acc, nd, c);
    var q := Over(p, OFF_RIGHTMOST, ToLE(4, right));
    RightLast(p, right);
    var t := CountLast(q, n + 1);
    var nd' := AddCell(acc, nd, n, key, val, right);
    NewCells(acc, nd, n, key, val, right, n);
    forall j | 0 <= j < n
      ensures ReadsAt(acc, t, nd', j)
    {
      NewCells(acc, nd, n, key, val, right, j);
      PlacedSlot(cfg, s, nd, n, c, j);
      PtrKept(p, q, HEADER, |p|, j);
      PtrKept(q, t, OFF_NUM_CELLS + 2, |q|, j);
      assert Stands(acc, s, p, nd, j);
      SameOld(nd, n, right, j);
      SizeAt(acc, nd.leaf, p, CellPtr(s, j), nd.cells[j]);
      CellKept(acc, nd.leaf, p, q, HEADER, |p|, CellPtr(s, j), nd.cells[j]);
      CellKept(acc, nd.leaf, q, t, OFF_NUM_CELLS + 2, |q|, CellPtr(s, j), nd.cells[j]);
      CellReads(acc, nd.leaf, t, CellPtr(s, j), nd.cells[j]);
    }
    PtrKept(p, q, HEADER, |p|, n);
    PtrKept(q, t, OFF_NUM_CELLS + 2, |q|, n);
    SameRecord(acc, nd.leaf, p, q, HEADER, top, c);
    SameRecord(acc, nd.leaf, q, t, OFF_NUM_CELLS + 2, top, c);
    assert ReadsAt(acc, t, nd', n) <==> RecordAt(acc, nd.leaf, t, top, c);
  }

  predicate SlotAgrees(acc: Acc, nd: Node, c: Cell)
    requires Legal(acc, nd.leaf, c) && Top(acc, nd, c) >= 0
  {
    var top := Top(acc, nd, c);
    Compatible(top + Unread(acc, nd.leaf), Core(acc, nd.leaf, c), HEADER + SLOT * |nd.cells|, ToLE(2, top))
  }

  lemma SameOld(nd: Node, idx: nat, right: nat, k: nat)
    requires k < |nd.cells| && k != idx
    ensures OldCell(nd, idx, right, k) == nd.cells[k]
  {
  }

  lemma RightLast(p: Page, right: nat)
    requires |p| >= HEADER && right < 0x1_0000_0000
    ensures var q := Over(p, OFF_RIGHTMOST, ToLE(4, right));
      && |q| == |p| && Wrote(p, q, OFF_RIGHTMOST, OFF_RIGHTMOST + 4)
      && Rightmost(q) == right && IsLeaf(q) == IsLeaf(p) && NextLeaf(q) == NextLeaf(p)
  {
    hide Over, ToLE, FromLE;
    Widths();
    var q := Over(p, OFF_RIGHTMOST, ToLE(4, right));
    OverWrote(p, OFF_RIGHTMOST, ToLE(4, right));
    Field(q[OFF_RIGHTMOST..OFF_RIGHTMOST + 4], 4, right);
    assert q[0] == q[0..1][0] == p[0..1][0] == p[0];
  }

  lemma SameRecord(acc: Acc, leaf: bool, s: Page, t: Page, lo: int, at: nat, c: Cell)
    requires Legal(acc, leaf, c) && Agree(s, t, lo, |s|) && lo <= at && at + SizeOf(acc, leaf, c) <= |s|
    ensures RecordAt(acc, leaf, s, at, c) <==> RecordAt(acc, leaf, t, at, c)
  {
    hide Enc, CellAt, RecordAt, Core;
    RecordBytes(acc, leaf, s, at, c);
    RecordBytes(acc, leaf, t, at, c);
    CoreSize(acc, leaf, c);
  }

  lemma CoreSize(acc: Acc, leaf: bool, c: Cell)
    requires Legal(acc, leaf, c)
    ensures Unread(acc, leaf) + |Core(acc, leaf, c)| == SizeOf(acc, leaf, c)
  {
  }

  // ---------------------------------------------------------------- the conditions in numbers

  /** The first bytes of a cell, as a number: the key of a B+ tree record, and the child pointer of any other cell. */
  function Lead(acc: Acc, leaf: bool, c: Cell): nat
    requires Legal(acc, leaf, c)
  {
    if acc.CopyUp() && leaf then ToU64(c.key) else c.left
  }

  lemma LeadBytes(acc: Acc, leaf: bool, c: Cell)
    requires Legal(acc, leaf, c)
    ensures var e, x := Enc(acc, leaf, c), Lead(acc, leaf, c); |e| >= 10 && e[0] == x % 256 && e[1] == x / 256 % 256
  {
    var x, n := Lead(acc, leaf, c), if acc.CopyUp() && leaf then 8 else 4;
    assert ToLE(n, x)[0] == x % 256;
    assert ToLE(n, x)[1] == ToLE(n - 1, x / 256)[0];
  }

  lemma TwoBytes(x: nat)
    ensures ToLE(2, x) == [x % 256, x / 256 % 256]
  {
    assert ToLE(1, x / 256) == [x / 256 % 256] + ToLE(0, x / 256 / 256);
    assert ToLE(0, x / 256 / 256) == [];
  }

  /**
   An append does no harm in a leaf of a B-tree, and elsewhere exactly when the bytes of its slot are those of the
   cell.
   */
  lemma SlotAgreesInNumbers(cfg: Cfg, nd: Node, c: Cell)
    requires Legal(cfg.acc, nd.leaf, c) && SizeOf(cfg.acc, nd.leaf, c) <= FreeSpace(nd.content, |nd.cells|)
    requires FreeSpace(nd.content, |nd.cells|) < SizeOf(cfg.acc, nd.leaf, c) + SLOT && nd.content < 0x1_0000
    ensures var gap, top := FreeSpace(nd.content, |nd.cells|) - SizeOf(cfg.acc, nd.leaf, c), Top(cfg.acc, nd, c);
      && top >= 0
      && (SlotAgrees(cfg.acc, nd, c) <==> (cfg.acc.BTreeAcc? && nd.leaf) || Harmless(cfg.acc, nd.leaf, c, gap, top))
  {
    hide Enc, ToLE, SizeOf, Compatible, Core;
    var acc, leaf, top := cfg.acc, nd.leaf, Top(cfg.acc, nd, c);
    var at := HEADER + SLOT * |nd.cells|;
    CoreSize(acc, leaf, c);
    TwoBytes(top);
    if acc.BTreeAcc? && leaf {
      NoOverlap(top + 4, Core(acc, leaf, c), at, ToLE(2, top));
    } else {
      WholeCore(acc, leaf, c);
      LeadBytes(acc, leaf, c);
      OverlapOfTwo(top, Enc(acc, leaf, c), at, ToLE(2, top));
      LowTwo(Lead(acc, leaf, c), top);
    }
  }

  lemma WholeCore(acc: Acc, leaf: bool, c: Cell)
    requires Legal(acc, leaf, c) && Unread(acc, leaf) == 0
    ensures Core(acc, leaf, c) == Enc(acc, leaf, c)
  {
  }

  lemma NoOverlap(a: nat, x: Page, b: nat, y: Page)
    requires b + |y| <= a || a + |x| <= b
    ensures Compatible(a, x, b, y)
  {
  }

  /** Numbers that agree in their low bytes. */
  lemma LowTwo(x: nat, want: nat)
    requires want < 0x1_0000
    ensures x % 256 == want % 256 && x / 256 % 256 == want / 256 % 256 <==> x % 0x1_0000 == want
    ensures x % 256 == want / 256 % 256 <==> x % 256 == want / 256
  {
    assert x % 0x1_0000 == x % 256 + 256 * (x / 256 % 256);
    assert want == want % 256 + 256 * (want / 256);
  }

  lemma OverlapOfTwo(a: nat, x: Page, b: nat, y: Page)
    requires |x| >= 2 && |y| == 2 && b <= a <= b + 1
    ensures Compatible(a, x, b, y) <==> if a == b then x[0] == y[0] && x[1] == y[1] else x[0] == y[1]
  {
  }

  /** An insert further left leaves the last slot right exactly when the cell starts with the bytes of that slot. */
  lemma LastAgreesInNumbers(cfg: Cfg, s: Page, nd: Node, c: Cell)
    requires |nd.cells| > 0 && HEADER + SLOT * |nd.cells| <= |s| && Legal(cfg.acc, nd.leaf, c)
    requires SizeOf(cfg.acc, nd.leaf, c) <= FreeSpace(nd.content, |nd.cells|) < SizeOf(cfg.acc, nd.leaf, c) + SLOT
    ensures var gap, x := FreeSpace(nd.content, |nd.cells|) - SizeOf(cfg.acc, nd.leaf, c), Lead(cfg.acc, nd.leaf, c);
      var want := CellPtr(s, |nd.cells| - 1);
      && Top(cfg.acc, nd, c) >= 0
      && (LastAgrees(cfg.acc, s, nd, c) <==> if gap == 0 then x % 0x1_0000 == want else x % 0x100 == want / 0x100)
  {
    hide Enc, ToLE, SizeOf, CellPtr, Compatible, Lead;
    var want := CellPtr(s, |nd.cells| - 1);
    SlotSmall(s, |nd.cells| - 1);
    LeadBytes(cfg.acc, nd.leaf, c);
    TwoBytes(want);
    TwoUnder(HEADER + SLOT * |nd.cells|, ToLE(2, want), Top(cfg.acc, nd, c), Enc(cfg.acc, nd.leaf, c));
    LowTwo(Lead(cfg.acc, nd.leaf, c), want);
  }

  lemma TwoUnder(a: nat, x: Page, b: nat, y: Page)
    requires |x| == 2 && |y| >= 2 && a <= b <= a + 1
    ensures Compatible(a, x, b, y) <==> if a == b then x[0] == y[0] && x[1] == y[1] else x[1] == y[0]
  {
  }

  /** What is read back for an appended cell. */
  lemma AppendedReadsBlotted(cfg: Cfg, s: Page, nd: Node, key: int, val: Value, right: nat)
    requires right < 0x1_0000_0000 && Accepted(cfg, s, nd, |nd.cells|, CellFor(nd, |nd.cells|, key, val))
    requires FreeSpace(nd.content, |nd.cells|) < SizeOf(cfg.acc, nd.leaf, CellFor(nd, |nd.cells|, key, val)) + SLOT
    ensures var n, c := |nd.cells|, CellFor(nd, |nd.cells|, key, val);
      && Insertable(cfg.acc, s, n, c) && PatchStays(cfg.acc, s, n, c) && Top(cfg.acc, nd, c) >= 0
      && var t, top := Forced(cfg.acc, s, n, c, right), Top(cfg.acc, nd, c);
        && HEADER + SLOT * n + SLOT <= |t| && CellPtr(t, n) == top && top + cfg.acc.CellSize(nd.leaf, 0) <= |t|
        && ReadCell(cfg.acc, t, n, nd.leaf)
           == Blotted(cfg.acc, nd.leaf, c, FreeSpace(nd.content, n) - SizeOf(cfg.acc, nd.leaf, c), top)
  {
    hide Over, ToLE, FromLE, U16, Enc, Placed, CellOk, Apart, CellAt, DecodeCell, Blotted, Accepted, Repr, SizeOf,
      CellFor;
    var acc, leaf, n, c := cfg.acc, nd.leaf, |nd.cells|, CellFor(nd, |nd.cells|, key, val);
    AcceptedFacts(cfg, s, nd, n, c);
    TopIs(acc, s, nd, c);
    LeastSize(acc, leaf, c);
    PlacedReadsBlotted(acc, s, c);
    var p, top := Placed(acc, s, n, c), Top(acc, nd, c);
    var q := Over(p, OFF_RIGHTMOST, ToLE(4, right));
    RightLast(p, right);
    var t := CountLast(q, n + 1);
    PtrKept(p, q, HEADER, |p|, n);
    PtrKept(q, t, OFF_NUM_CELLS + 2, |q|, n);
    DecodeKept(acc, leaf, p, q, HEADER, top);
    DecodeKept(acc, leaf, q, t, OFF_NUM_CELLS + 2, top);
  }

  /**
   In a leaf of a B-tree such an append is right, and the page takes no other cell: whatever is inserted next, after a
   deletion or not, finds it full and splits it.
   */
  lemma TightThenFull(cfg: Cfg, s: Page, nd: Node, key: int, val: Value, right: nat, len: nat)
    requires cfg.acc.BTreeAcc? && nd.leaf && right < 0x1_0000_0000
    requires Accepted(cfg, s, nd, |nd.cells|, CellFor(nd, |nd.cells|, key, val))
    requires RoomFor(cfg, true, nd.content, |nd.cells|, |val|).Tight?
    ensures var n, c := |nd.cells|, CellFor(nd, |nd.cells|, key, val);
      && Insertable(cfg.acc, s, n, c) && PatchStays(cfg.acc, s, n, c)
      && var t := Forced(cfg.acc, s, n, c, right);
        && Reads(cfg, t, AddCell(cfg.acc, nd, n, key, val, right))
        && RoomFor(cfg, true, CellContent(t), n + 1, len).Full? && RoomFor(cfg, true, CellContent(t), n, len).Full?
  {
    hide Over, ToLE, FromLE, Enc, Placed, Forced, Reads, AddCell, Repr, Legal, SlotAgrees;
    var n, c := |nd.cells|, CellFor(nd, |nd.cells|, key, val);
    AcceptedFacts(cfg, s, nd, n, c);
    TightAppendExactly(cfg, s, nd, key, val, right);
    SlotAgreesInNumbers(cfg, nd, c);
    ContentOfForced(cfg.acc, s, n, c, right);
  }

  lemma ContentOfForced(acc: Acc, s: Page, idx: nat, c: Cell, right: nat)
    requires Insertable(acc, s, idx, c) && idx == NumCells(s) && PatchStays(acc, s, idx, c)
    requires CellContent(s) - SizeOf(acc, IsLeaf(s), c) >= HEADER
    ensures CellContent(Forced(acc, s, idx, c, right)) == CellContent(s) - SizeOf(acc, IsLeaf(s), c)
  {
    hide ToLE, FromLE, Enc, SizeOf, Over;
    Widths();
    var top := CellContent(s) - SizeOf(acc, IsLeaf(s), c);
    var s0 := Over(s, HEADER + SLOT * (idx + 1), s[HEADER + SLOT * idx..HEADER + SLOT * idx]);
    var s1 := Over(s0, OFF_CONTENT, ToLE(2, top));
    var s2 := Over(s1, top, Enc(acc, IsLeaf(s), c));
    var p := Over(s2, HEADER + SLOT * idx, ToLE(2, top));
    var q := Over(p, OFF_RIGHTMOST, ToLE(4, right));
    var t := Over(q, OFF_NUM_CELLS, ToLE(2, idx + 1));
    OverWrote(s0, OFF_CONTENT, ToLE(2, top));
    OverWrote(s1, top, Enc(acc, IsLeaf(s), c));
    OverWrote(s2, HEADER + SLOT * idx, ToLE(2, top));
    OverWrote(p, OFF_RIGHTMOST, ToLE(4, right));
    OverWrote(q, OFF_NUM_CELLS, ToLE(2, idx + 1));
    assert t[3..5] == q[3..5] == p[3..5] == s2[3..5] == s1[3..5];
    Field(t[3..5], 2, top);
  }

  lemma PlacedReadsBlotted(acc: Acc, s: Page, c: Cell)
    requires |s| >= HEADER && Insertable(acc, s, NumCells(s), c)
    requires 0 <= CellContent(s) - SizeOf(acc, IsLeaf(s), c) - (HEADER + SLOT * NumCells(s)) < 2
    ensures var p, top := Placed(acc, s, NumCells(s), c), CellContent(s) - SizeOf(acc, IsLeaf(s), c);
      && top + acc.CellSize(IsLeaf(s), 0) <= |p| && CellPtr(p, NumCells(s)) == top
      && DecodeCell(acc, IsLeaf(s), p, top) == Blotted(acc, IsLeaf(s), c, top - (HEADER + SLOT * NumCells(s)), top)
  {
    hide Over, ToLE, FromLE, U16, Enc, Placed, CellAt, DecodeCell, Blotted, SizeOf;
    var n, leaf, top := NumCells(s), IsLeaf(s), CellContent(s) - SizeOf(acc, IsLeaf(s), c);
    var s0, s1, s2 := PlaceWrites(acc, s, n, c);
    CellBytes(acc, leaf, s2, top, c);
    SizeAt(acc, leaf, s2, top, c);
    LeastSize(acc, leaf, c);
    BlotCell(acc, leaf, s2, Placed(acc, s, n, c), top, top - (HEADER + SLOT * n), c);
  }

  lemma LeastSize(acc: Acc, leaf: bool, c: Cell)
    ensures acc.CellSize(leaf, 0) <= SizeOf(acc, leaf, c)
  {
  }

  lemma DecodeKept(acc: Acc, leaf: bool, s: Page, t: Page, lo: int, off: nat)
    requires Agree(s, t, lo, |s|) && lo <= off && off + acc.CellSize(leaf, 0) <= |s|
    ensures |t| == |s| && DecodeCell(acc, leaf, t, off) == DecodeCell(acc, leaf, s, off)
  {
    AgreeLength(s, t, lo, |s|);
    forall a | 0 <= a <= |s| && lo <= a
      ensures s[a..] == t[a..]
    {
      assert s[a..] == s[a..|s|] && t[a..] == t[a..|t|];
    }
  }
}
