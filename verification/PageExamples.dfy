/** The bytes behind the concrete runs: what the pages of the cases that the code does not handle read as. */
module PageExamples {
  import opened Bytes
  import opened Records
  import opened TreeModel
  import opened Layout
  import opened PageOps
  import opened Refine
  import opened ShortPage
  import opened Examples
  import opened Contents
  import opened Database
  import opened Lengthening
  import opened LengthenTree
  import opened Order
  import opened Shape
  import F = FilledPage
  import H = HalfPage
  import RootPage
  import T = TightPage

  function C(key: int, n: nat): Cell {
    Cell(key, Zeros(n), 0)
  }

  /** In the second record of TightRun, key 2 reads as 15. */
  lemma TightReads(s: Page)
    requires Repr(BP, s, NodeOf(Leaf(2, [R(1, 9)], 45, INVALID_PAGE)))
    ensures T.Insertable(BPTreeAcc, s, 1, C(2, 20)) && T.PatchStays(BPTreeAcc, s, 1, C(2, 20))
    ensures var t := T.Forced(BPTreeAcc, s, 1, C(2, 20), 0);
      && HEADER + SLOT + SLOT <= |t| && CellPtr(t, 1) + 10 <= |t| && ReadCell(BPTreeAcc, t, 1, true).key == 15
  {
    hide Repr, Zeros, T.Forced, ReadCell, T.Insertable, T.PatchStays;
    var nd := NodeOf(Leaf(2, [R(1, 9)], 45, INVALID_PAGE));
    assert nd.leaf && |nd.cells| == 1 && nd.content == 45;
    T.AppendedReadsBlotted(BP, s, nd, 2, Zeros(20), 0);
    TightKey(Zeros(20));
  }

  // ---------------------------------------------------------------- a half over by three bytes

  lemma TwoUsed(cfg: Cfg, leaf: bool, a: Cell, b: Cell)
    ensures UsedBy(cfg, leaf, []) == 0 && UsedBy(cfg, leaf, [a]) == SizeOf(cfg.acc, leaf, a)
    ensures UsedBy(cfg, leaf, [a, b]) == SizeOf(cfg.acc, leaf, a) + SizeOf(cfg.acc, leaf, b)
    ensures [a, b][..1] == [a] && [a][..0] == []
  {
    assert [a, b][..1] == [a] && [a][..0] == [];
    assert UsedBy(cfg, leaf, [a]) == UsedBy(cfg, leaf, []) + SizeOf(cfg.acc, leaf, a);
  }

  /** A cell one byte before a slot that is written over it is wrong when its second byte is not the slot's low byte. */
  lemma OneByteIn(acc: Acc, leaf: bool, c: Cell, top: nat, slot: nat)
    requires Legal(acc, leaf, c) && Unread(acc, leaf) == 0 && slot == top + 1
    requires T.Lead(acc, leaf, c) / 256 % 256 != top % 256
    ensures !Compatible(top, Core(acc, leaf, c), slot, ToLE(2, top))
  {
    T.LeadBytes(acc, leaf, c);
    T.TwoBytes(top);
    T.WholeCore(acc, leaf, c);
    hide *;
    var x, y := Core(acc, leaf, c), ToLE(2, top);
    Differs(top, x, slot, y);
  }

  lemma Differs(a: nat, x: Page, b: nat, y: Page)
    requires b == a + 1 && |x| >= 2 && |y| >= 1 && x[1] != y[0]
    ensures !Compatible(a, x, b, y)
  {
    assert 0 <= a + 1 - b < |y|;
  }

  /** The right half of OversizedRun does not read right, whatever the buffer held before. */
  lemma OversizedHalf(s: Page, link: nat)
    requires Repr(BP, s, H.Blank(BP, true)) && link < 0x1_0000_0000
    ensures var cells := [C(3, 0), C(4, 30)];
      && |s| >= HEADER && H.Fillable(BPTreeAcc, s, cells)
      && !Reads(BP, H.Half(BPTreeAcc, s, true, cells, link), H.HalfNode(BPTreeAcc, true, cells, link))
  {
    hide Repr, Zeros, Reads, H.Half, H.Fillable, H.Fill, UsedBy, Compatible, Core, ToLE, F.SlotKept;
    var a, b := C(3, 0), C(4, 30);
    TwoUsed(BP, true, a, b);
    assert [a, b][..2] == [a, b];
    F.HalfExactly(BP, s, true, [a, b], link);
    assert F.Offset(BP, true, [a, b], 1) == 14;
    OneByteIn(BPTreeAcc, true, b, 14, 15);
  }

  // ---------------------------------------------------------------- an insert refused by the model only

  lemma FrontOfThree(a: KV, b: KV, c: KV, d: KV)
    requires a.key < b.key < c.key < d.key && |a.val| == 19 && |b.val| == |c.val| == |d.val| == 1
    requires Run(BT, Empty(BT), [b, c, d]) == Db(Leaf(2, [b, c, d], 19, INVALID_PAGE), 3)
    ensures Run(BT, Empty(BT), [b, c, d, a]).Failed?
  {
    hide InsRec, Run, Used;
    var t := Leaf(2, [b, c, d], 19, INVALID_PAGE);
    Step(BT, [b, c, d], a);
    LeafSplits(BT, t, a, 3, 0);
    assert [b, c, d] + [a] == [b, c, d, a];
    assert InsertAt([b, c, d], 0, a) == [a, b, c, d];
    assert [a, b, c, d][..2] == [a, b];
    UsedTwo(BT, true, a, b);
  }

  /**
   Four inserts into a B-tree of which the model refuses the last, since the left half of the split is over its page by
   one byte: the code handles it, because that byte is part of a child pointer that no one reads in a leaf.
   */
  lemma HandledAnyway(s: Page, s': Page, newId: nat)
    requires Repr(BT, s, H.Blank(BT, true)) && Repr(BT, s', H.Blank(BT, true)) && newId < 0x1_0000_0000
    ensures Run(BT, Empty(BT), [R(2, 1), R(3, 1), R(4, 1)]).Db?
    ensures Run(BT, Empty(BT), [R(2, 1), R(3, 1), R(4, 1), R(1, 19)]).Failed?
    ensures var all := [C(1, 19), C(2, 1), C(3, 1), C(4, 1)];
      && |s| >= HEADER && |s'| >= HEADER
      && H.Fillable(BTreeAcc, s, all[..2]) && H.Fillable(BTreeAcc, s', RightCells(BTreeAcc, true, all))
      && Reads(BT, H.Half(BTreeAcc, s, true, all[..2], newId), LeftHalf(BT, true, all, newId))
      && Reads(BT, H.Half(BTreeAcc, s', true, RightCells(BTreeAcc, true, all), INVALID_PAGE),
               RightHalf(BT, true, all, 0, INVALID_PAGE))
  {
    hide Repr, Zeros, Reads, H.Half, H.Fillable, H.Fill, UsedBy, Run, InsRec, LeftHalf, RightHalf;
    var a, b, c, d := R(1, 19), R(2, 1), R(3, 1), R(4, 1);
    NoOps(BT);
    Grow(BT, [], b, Empty(BT).t, 3);
    assert [] + [b] == [b];
    Grow(BT, [b], c, Leaf(2, [b], 49, INVALID_PAGE), 3);
    assert [b] + [c] == [b, c];
    Grow(BT, [b, c], d, Leaf(2, [b, c], 34, INVALID_PAGE), 3);
    assert [b, c] + [d] == [b, c, d];
    FrontOfThree(a, b, c, d);
    var all := [C(1, 19), C(2, 1), C(3, 1), C(4, 1)];
    assert all[..2] == [all[0], all[1]] && RightCells(BTreeAcc, true, all) == [all[3]];
    TwoUsed(BT, true, all[0], all[1]);
    TwoUsed(BT, true, all[3], all[3]);
    F.SplitReadsExactly(BT, s, s', true, all, 0, INVALID_PAGE, newId);
  }

  // ---------------------------------------------------------------- a record that fits no page

  lemma HugeSplit(kv: KV)
    requires |kv.val| >= 38
    ensures InsRec(BT, Empty(BT).t, kv.key, kv.val, 3)
         == Ins(Split(Leaf(2, [], 64, INVALID_PAGE), kv, Leaf(3, [], 64, INVALID_PAGE)), 4)
    ensures Used(BT, false, [kv]) == 14 + |kv.val|
  {
    assert InsertAt([], 0, kv) == [kv];
    UsedOne(BT, false, kv);
  }

  /**
   The first insert into an empty B-tree, with a value of 38 bytes or more: the record moves up and fits no root page.
   */
  lemma HugeRun(kv: KV)
    requires |kv.val| >= 38
    ensures Run(BT, Empty(BT), [kv]).Failed?
    ensures InsRec(BT, Empty(BT).t, kv.key, kv.val, 3)
         == Ins(Split(Leaf(2, [], 64, INVALID_PAGE), kv, Leaf(3, [], 64, INVALID_PAGE)), 4)
  {
    hide InsRec, Used, Run;
    NoOps(BT);
    Step(BT, [], kv);
    assert [] + [kv] == [kv];
    HugeSplit(kv);
  }

  /** With 38 bytes the new root does not read right: the left child, page 2, reads as another page. */
  lemma HugeRoot(s: Page)
    requires Repr(BT, s, RootPage.Bare(BT, 3))
    ensures var c := Cell(1, Zeros(38), 2);
      && Appendable(BTreeAcc, s, c)
      && !Reads(BT, Appended(BTreeAcc, s, c), RootPage.Bare(BT, 3).(cells := [c]))
  {
    hide Repr, Zeros, Reads, Appended, Appendable;
    var c := Cell(1, Zeros(38), 2);
    RootPage.RootReadsExactly(BT, s, c, 3);
    OneByteIn(BTreeAcc, false, c, 12, 13);
  }

  // ---------------------------------------------------------------- why the other slots agree in one direction only

  /** A value that is the bytes of the record with key 100 and no value. */
  function Copy(): (v: Value)
    ensures |v| == 10
  {
    Enc(BPTreeAcc, true, Cell(100, [], 0))
  }

  /** A 64-byte leaf with the records 1, whose value is that copy, and 100. */
  function Twice(): Node {
    Node(true, [Cell(1, Copy(), 0), Cell(100, [], 0)], 0, INVALID_PAGE, 34)
  }

  /**
   Inserting key 54 with a value of seven bytes between the two overwrites the slot of record 100 with 54, the first
   bytes of the new cell. The slot is wrong, but at offset 54 stands the copy, and so the page still reads right.
   */
  lemma SecondCopy(s: Page)
    requires Repr(BP, s, Twice()) && CellPtr(s, 0) == 44 && CellPtr(s, 1) == 34
    ensures var c := C(54, 7);
      && T.Accepted(BP, s, Twice(), 1, c) && T.Insertable(BPTreeAcc, s, 1, c) && T.PatchStays(BPTreeAcc, s, 1, c)
      && T.Top(BPTreeAcc, Twice(), c) == 17 && HEADER + SLOT * 2 <= |s|
      && !T.LastAgrees(BPTreeAcc, s, Twice(), c)
      && Reads(BP, T.Forced(BPTreeAcc, s, 1, c, 0), AddCell(BPTreeAcc, Twice(), 1, 54, Zeros(7), 0))
  {
    hide Repr, Zeros, Reads, T.Forced, T.Placed, T.Insertable, T.PatchStays, T.LastAgrees, Enc, AddCell;
    var nd, c := Twice(), C(54, 7);
    assert nd.leaf && |nd.cells| == 2 && nd.content == 34 && Legal(BPTreeAcc, true, c);
    T.TightInsertExactly(BP, s, nd, 1, 54, Zeros(7), 0);
    T.LastAgreesInNumbers(BP, s, nd, c);
    var t := T.Forced(BPTreeAcc, s, 1, c, 0);
    LastSlotIs(s, c);
    T.PlacedSlot(BP, s, nd, 1, c, 0);
    assert T.SameSlots(t, T.Placed(BPTreeAcc, s, 1, c), 0) && T.SameSlots(t, T.Placed(BPTreeAcc, s, 1, c), 2);
    FirstCellKept(c);
    assert ReadsAt(BPTreeAcc, t, AddCell(BPTreeAcc, nd, 1, 54, c.val, 0), 0);
    assert CellPtr(t, 0) == 44 && CellPtr(t, 2) == 54;
    CopyStands(t);
  }

  lemma FirstCellKept(c: Cell)
    requires c == C(54, 7)
    ensures var nd' := AddCell(BPTreeAcc, Twice(), 1, 54, c.val, 0);
      nd'.leaf && |nd'.cells| == 3 && nd'.cells[0] == Cell(1, Copy(), 0)
  {
  }

  /** The slot of the last record holds the first two bytes of the new cell. */
  lemma LastSlotIs(s: Page, c: Cell)
    requires c == C(54, 7) && T.Accepted(BP, s, Twice(), 1, c) && T.Insertable(BPTreeAcc, s, 1, c)
    requires HEADER + SLOT * 3 <= |s|
    ensures CellPtr(T.Placed(BPTreeAcc, s, 1, c), 2) == 54
  {
    hide Repr, Enc, Over, ToLE, Wrote, T.Placed, Shifted;
    T.AcceptedFacts(BP, s, Twice(), 1, c);
    var s0, s1, s2 := T.PlaceWrites(BPTreeAcc, s, 1, c);
    var p := T.Placed(BPTreeAcc, s, 1, c);
    assert SizeOf(BPTreeAcc, true, c) == 17 && CellContent(s) == 34;
    T.LeadBytes(BPTreeAcc, true, c);
    TwoFrom(s2, p, Enc(BPTreeAcc, true, c));
    T.SlotHolds(p, 2, 54);
    T.TwoBytes(54);
  }

  lemma TwoFrom(s: Page, p: Page, e: Page)
    requires |s| >= 34 && s[17..34] == e && Wrote(s, p, 15, 17) && |p| == |s| && |e| == 17
    ensures p[17..19] == [e[0], e[1]]
  {
    assert s[17] == e[0] && s[18] == e[1];
    assert p[17..|p|] == s[17..|s|];
    assert p[17] == p[17..|p|][0] && p[18] == p[17..|p|][1];
  }

  /** At offset 54 stands the copy of the record with key 100. */
  lemma CopyStands(t: Page)
    requires RecordAt(BPTreeAcc, true, t, 44, Cell(1, Copy(), 0))
    ensures RecordAt(BPTreeAcc, true, t, 54, Cell(100, [], 0))
  {
    hide Enc, U64, U16;
    assert t[54..64] == Copy();
    CellBytes(BPTreeAcc, true, t, 54, Cell(100, [], 0));
    CellReads(BPTreeAcc, true, t, 54, Cell(100, [], 0));
  }

  /** Such a page: the two records appended to an empty one. */
  lemma TwiceFilled(s: Page)
    requires Repr(BP, s, H.Blank(BP, true))
    ensures var cells := Twice().cells;
      && H.Fillable(BPTreeAcc, s, cells)
      && var t := H.Fill(BPTreeAcc, s, cells); Repr(BP, t, Twice()) && CellPtr(t, 0) == 44 && CellPtr(t, 1) == 34
  {
    hide Repr, Enc, H.Fill, H.Fillable, UsedBy, CellPtr, Compatible, ToLE, F.RecordState;
    var a, b := Cell(1, Copy(), 0), Cell(100, [], 0);
    TwoUsed(BP, true, a, b);
    assert Twice().cells == [a, b] && [a, b][..2] == [a, b];
    H.FillFits(BP, s, true, [a, b]);
    F.Filling(BP, s, true, [a, b], 2);
    var t := H.Fill(BPTreeAcc, s, [a, b]);
    assert F.SlotState(BP, true, [a, b], 2, t, 0) && F.SlotState(BP, true, [a, b], 2, t, 1);
    assert F.Offset(BP, true, [a, b], 0) == 44 && F.Offset(BP, true, [a, b], 1) == 34;
    T.NoOverlap(13, ToLE(2, 44), 34, Enc(BPTreeAcc, true, b));
    SlotValue(t, 0, 44);
    SlotValue(t, 1, 34);
  }

  // ---------------------------------------------------------------- a longer value for a key in the root

  /**
   After the keys 1, 2, 3 and 4, key 3 is in the root. A longer value for it leaves two records instead of four when
   the cache has room for two pages, and five records when it has not.
   */
  lemma LostUpdate(cap: nat)
    ensures var db := Run(BT, Empty(BT), [R(1, 1), R(2, 1), R(3, 1), R(4, 1)]);
      && db.Db? && Longer(db.t, 3, Zeros(2)) && Insert(BT, db, 3, Zeros(2)).Failed?
      && var view := ViewAfter(BT, db.t, 3, Zeros(2), db.pages, cap);
        && (view.InCache? <==> cap >= 2)
        && var after := LengthenDb(BT, db, 3, Zeros(2), view);
          && after.Db? && |Entries(BTreeAcc, db.t)| == 4
          && |Entries(BTreeAcc, after.t)| == (if view.OnFile? then 5 else 2)
  {
    hide Zeros, Run, Flat, LengthenBelow, InsRec, Pages, Uniform, Invariant, Insert, ViewAfter;
    FourRecordsReached();
    RunKeeps(BT, [R(1, 1), R(2, 1), R(3, 1), R(4, 1)]);
    var db := FourRecords();
    RootShape(db);
    LengthenChild(cap);
    var view := ViewAfter(BT, db.t, 3, Zeros(2), db.pages, cap);
    DbExactly(BT, db, 3, Zeros(2), view, MIN_KEY, MAX_KEY + 1);
    RootFlat(BTreeAcc, db.t.kids[0], db.t.kvs[0], db.t.kids[1]);
  }

  lemma RootShape(db: Db)
    requires Invariant(BT, db) && db == FourRecords()
    ensures Ordered(BTreeAcc, false, db.t, MIN_KEY, MAX_KEY + 1) && Uniform(db.t, 2) && Once(Pages(db.t))
    ensures forall x | x in Pages(db.t) :: x < db.pages
  {
    hide Ordered, Zeros, Pages;
    forall x: nat
      ensures Fresh(2, db.pages)[x] <= 1 && (x in Pages(db.t) ==> x < db.pages)
    {
      FreshCount(2, db.pages, x);
    }
  }

  lemma LengthenChild(cap: nat)
    requires var t := FourRecords().t;
      Ordered(BTreeAcc, false, t, MIN_KEY, MAX_KEY + 1) && Uniform(t, 2) && Once(Pages(t))
        && forall x | x in Pages(t) :: x < 5
    ensures var db := FourRecords();
      && Longer(db.t, 3, Zeros(2)) && LeftOf(db.t, 3) == [R(1, 1), R(2, 1)]
      && (ViewAfter(BT, db.t, 3, Zeros(2), 5, cap).InCache? <==> cap >= 2)
      && Insert(BT, db, 3, Zeros(2)).Failed?
      && forall view :: LengthenDb(BT, db, 3, Zeros(2), view).Db?
  {
    hide Zeros, LeafPut, Pages, Ordered, Uniform, Once, ViewAfter;
    var t := FourRecords().t;
    PositionUnique(t.kvs, 3, false, 0);
    LeafFits(BT, t.kids[1], R(3, 2), 5, 0);
    ViewInNumbers(BT, t, 3, Zeros(2), 5, cap, 2, MIN_KEY, MAX_KEY + 1);
  }
}
