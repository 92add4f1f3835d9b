/** Halves of a split in which several cells lack room: two runs on B+ tree leaves, and the pages they leave. */
module HalfExamples {
  import opened Bytes
  import opened Records
  import opened TreeModel
  import opened Layout
  import opened PageOps
  import opened Refine
  import opened ShortPage
  import opened Examples
  import opened HalfPage
  import opened FilledPage
  import T = TightPage

  // ---------------------------------------------------------------- runs that fill one leaf

  predicate Rising(ops: seq<KV>) {
    forall i, j | 0 <= i < j < |ops| :: ops[i].key < ops[j].key
  }

  /** Rising keys that fit one page stay in the first leaf. */
  lemma {:induction false} OneLeaf(cfg: Cfg, ops: seq<KV>)
    requires Rising(ops) && Fits(cfg, true, ops)
    ensures Used(cfg, true, ops) <= cfg.pageSize
    ensures Run(cfg, Empty(cfg), ops) == Db(Leaf(2, ops, cfg.pageSize - Used(cfg, true, ops), INVALID_PAGE), 3)
    decreases |ops|
  {
    hide InsRec, Run;
    NoOps(cfg);
    if ops != [] {
      var n := |ops| - 1;
      OneLeaf(cfg, ops[..n]);
      assert ops[..n] + [ops[n]] == ops;
      Grow(cfg, ops[..n], ops[n], Leaf(2, ops[..n], cfg.pageSize - Used(cfg, true, ops[..n]), INVALID_PAGE), 3);
    }
  }

  /** A record in front of them that finds the leaf full, and a left half that does not fit its page. */
  lemma FrontFails(cfg: Cfg, ops: seq<KV>, kv: KV)
    requires Rising(ops) && Fits(cfg, true, ops) && ops != [] && kv.key < ops[0].key
    requires cfg.pageSize - Used(cfg, true, ops) < HEADER + SLOT * |ops| + cfg.acc.CellSize(true, |kv.val|)
    requires !Fits(cfg, true, InsertAt(ops, 0, kv)[..(|ops| + 1) / 2])
    ensures Run(cfg, Empty(cfg), ops + [kv]).Failed?
  {
    hide InsRec, Run, Used;
    OneLeaf(cfg, ops);
    Step(cfg, ops, kv);
    LeafSplits(cfg, Leaf(2, ops, cfg.pageSize - Used(cfg, true, ops), INVALID_PAGE), kv, 3, 0);
  }

  lemma {:induction false} UsedSame(cfg: Cfg, kvs: seq<KV>, len: nat)
    requires forall i | 0 <= i < |kvs| :: |kvs[i].val| == len
    ensures Used(cfg, true, kvs) == |kvs| * cfg.acc.CellSize(true, len)
  {
    if kvs != [] {
      UsedSame(cfg, kvs[..|kvs| - 1], len);
    }
  }

  /** A first cell of its own size, and then cells of ten bytes. */
  lemma {:induction false} UsedAfterFirst(cfg: Cfg, cells: seq<Cell>, n: nat)
    requires cfg.acc.BPTreeAcc? && 1 <= n <= |cells| && forall i | 1 <= i < |cells| :: cells[i].val == []
    ensures UsedBy(cfg, true, cells[..n]) == |cells[0].val| + 10 * n
    decreases n
  {
    if n == 1 {
      assert cells[..1] == [cells[0]] && UsedBy(cfg, true, []) == 0;
    } else {
      UsedAfterFirst(cfg, cells, n - 1);
      UsedStep(cfg, true, cells, n - 1);
    }
  }

  // ---------------------------------------------------------------- twenty bytes too many

  const P512 := Cfg(BPTreeAcc, 512)

  /** The records 1 to 41, all empty. */
  function FortyOne(): (ops: seq<KV>)
    ensures |ops| == 41 && forall i | 0 <= i < 41 :: ops[i] == R(i + 1, 0)
  {
    seq(41, i requires i >= 0 => R(i + 1, 0))
  }

  /** The cells of the left half once record 0 has come in front of them, with 267 bytes. */
  function TwentyOne(): (cells: seq<Cell>)
    ensures |cells| == 21 && cells[0] == Cell(0, Zeros(267), 0)
    ensures forall i | 1 <= i < 21 :: cells[i] == Cell(i, [], 0)
  {
    seq(21, i requires i >= 0 => if i == 0 then Cell(0, Zeros(267), 0) else Cell(i, [], 0))
  }

  lemma TwentyOneAt(n: nat)
    requires 1 <= n <= 21
    ensures UsedBy(P512, true, TwentyOne()[..n]) == 267 + 10 * n && Filled(P512, true, TwentyOne()[..n]) == 245 - 10 * n
    ensures TwentyOne()[..21] == TwentyOne()
  {
    hide Zeros, UsedBy;
    UsedAfterFirst(P512, TwentyOne(), n);
  }

  lemma TwentyOneOver()
    ensures OneOver(P512, true, TwentyOne()) && Excess(P512, true, TwentyOne()) == 20
  {
    hide Zeros, UsedBy;
    TwentyOneAt(20);
    TwentyOneAt(21);
  }

  /** The bytes of an empty record with a small key. */
  lemma SmallKey(key: nat)
    requires key < 256
    ensures var e := Enc(BPTreeAcc, true, Cell(key, [], 0));
      |e| == 10 && e[0] == key && forall k | 1 <= k < 10 :: e[k] == 0
  {
    hide ToLE;
    LowByte(8, key);
    LowByte(2, 0);
  }

  lemma {:induction false} LowByte(n: nat, x: nat)
    requires x < 256
    ensures n > 0 ==> ToLE(n, x)[0] == x
    ensures forall k | 1 <= k < n :: ToLE(n, x)[k] == 0
  {
    if n > 0 {
      LowByte(n - 1, 0);
      assert ToLE(n, x) == [x] + ToLE(n - 1, 0);
    }
  }

  lemma Differ(a: nat, x: Page, b: nat, y: Page, k: nat)
    requires k < |x| && 0 <= a + k - b < |y| && x[k] != y[a + k - b]
    ensures !Compatible(a, x, b, y)
  {
  }

  /** The last cell lies over the slots 11 to 15, and the one before it over 16 to 18. */
  lemma SlotLost(i: nat)
    requires 11 <= i <= 18
    ensures !SlotKept(P512, true, TwentyOne(), i, 21)
  {
    hide Zeros, UsedBy, Enc, Compatible, ToLE, Filled;
    var j := if i <= 15 then 20 else 19;
    TwentyOneAt(i + 1);
    TwentyOneAt(j + 1);
    SmallKey(j);
    T.TwoBytes(Offset(P512, true, TwentyOne(), i));
    Differ(HEADER + SLOT * i, ToLE(2, Offset(P512, true, TwentyOne(), i)), Offset(P512, true, TwentyOne(), j),
           Enc(BPTreeAcc, true, TwentyOne()[j]), 0);
  }

  /** The slot of record 19 lies in its own key. */
  lemma RecordLost(link: nat)
    ensures SlotKept(P512, true, TwentyOne(), 19, 21) && !RecordStands(P512, true, TwentyOne(), 19, link)
  {
    hide Zeros, UsedBy, Enc, Compatible, ToLE, Filled;
    var cells := TwentyOne();
    TwentyOneAt(20);
    TwentyOneAt(21);
    SmallKey(19);
    T.TwoBytes(45);
    T.NoOverlap(51, ToLE(2, 45), 35, Enc(BPTreeAcc, true, cells[20]));
    T.WholeCore(BPTreeAcc, true, cells[19]);
    Differ(45, Core(BPTreeAcc, true, cells[19]), 51, ToLE(2, 45), 6);
  }

  /**
   The 42nd insert splits the leaf, and the left half is over its page by 20 bytes. It is written without a panic; the
   slots 11 to 18 are overwritten by later cells, record 19 by its own slot, and the page does not read right.
   */
  lemma TwentyOver(s: Page, link: nat)
    requires Repr(P512, s, Blank(P512, true)) && link < 0x1_0000_0000
    ensures Run(P512, Empty(P512), FortyOne()).Db? && Run(P512, Empty(P512), FortyOne() + [R(0, 267)]).Failed?
    ensures forall i | 0 <= i < 21 :: CellOf(InsertAt(FortyOne(), 0, R(0, 267))[i]) == TwentyOne()[i]
    ensures Excess(P512, true, TwentyOne()) == 20 && |s| >= HEADER && Fillable(BPTreeAcc, s, TwentyOne())
    ensures var half, nd := Half(BPTreeAcc, s, true, TwentyOne(), link), HalfNode(BPTreeAcc, true, TwentyOne(), link);
      && |half| == 512 && (forall i | 11 <= i <= 18 :: CellPtr(half, i) != Offset(P512, true, TwentyOne(), i))
      && !ReadsAt(BPTreeAcc, half, nd, 19) && !Reads(P512, half, nd)
  {
    hide Zeros, UsedBy, Repr, Fillable, Half, Fill, Run, Used, InsRec, Reads, CellPtr, RecordAt, SlotKept, RecordStands,
      OneOver, Offset, Core;
    Sizes(P512, s, Blank(P512, true));
    FortyOneFails();
    TwentyOneOver();
    TwentyOneAt(21);
    HalfExactly(P512, s, true, TwentyOne(), link);
    HalfHeader(P512, s, true, TwentyOne(), link);
    forall i | 11 <= i <= 18
      ensures !SlotKept(P512, true, TwentyOne(), i, 21)
    {
      SlotLost(i);
    }
    RecordLost(link);
  }

  function CellOf(kv: KV): Cell {
    Cell(kv.key, kv.val, 0)
  }

  lemma FortyOneFails()
    ensures Run(P512, Empty(P512), FortyOne()).Db? && Run(P512, Empty(P512), FortyOne() + [R(0, 267)]).Failed?
    ensures forall i | 0 <= i < 21 :: CellOf(InsertAt(FortyOne(), 0, R(0, 267))[i]) == TwentyOne()[i]
  {
    hide Zeros, Used, UsedBy, Run, InsRec;
    UsedSame(P512, FortyOne(), 0);
    OneLeaf(P512, FortyOne());
    TwentyOneAt(21);
    UsedByKvs(P512, true, TwentyOne(), InsertAt(FortyOne(), 0, R(0, 267))[..21]);
    FrontFails(P512, FortyOne(), R(0, 267));
  }

  // ---------------------------------------------------------------- more than a page, and no panic

  const P100 := Cfg(BPTreeAcc, 100)

  function Seven(): seq<KV> {
    [R(7000, 0), R(7680, 0), R(8000, 0), R(8001, 0), R(8002, 0), R(8003, 0), R(8004, 0)]
  }

  /** The cells of the left half once record 0 has come in front of them, with 68 bytes. */
  function Four108(): seq<Cell> {
    [Cell(0, Zeros(68), 0), Cell(7000, [], 0), Cell(7680, [], 0), Cell(8000, [], 0)]
  }

  /** Key 7680 has the bytes 0 and 30 first, and then a zero. */
  lemma Key7680()
    ensures var e := Enc(BPTreeAcc, true, Cell(7680, [], 0)); |e| == 10 && e[1] == 30 && e[2] == 0
  {
    assert ToLE(8, 7680)[1] == ToLE(7, 30)[0];
    assert ToLE(8, 7680)[2] == ToLE(7, 30)[1] == ToLE(6, 0)[0];
  }

  /**
   The eighth insert splits the leaf, and the cells of the left half alone need 108 bytes of a page of 100. The code
   does not panic: the third cell begins at offset 2, the free pointer becomes 30, two bytes of its key, and the fourth
   cell is placed from there, over the first.
   */
  lemma FreePointerLost(s: Page)
    requires Repr(P100, s, Blank(P100, true))
    ensures Run(P100, Empty(P100), Seven()).Db? && Run(P100, Empty(P100), Seven() + [R(0, 68)]).Failed?
    ensures forall i | 0 <= i < 4 :: CellOf(InsertAt(Seven(), 0, R(0, 68))[i]) == Four108()[i]
    ensures UsedBy(P100, true, Four108()) == 108 && Fillable(BPTreeAcc, s, Four108())
    ensures |s| >= HEADER + 8 && CellPtr(Fill(BPTreeAcc, s, Four108()), 3) == 20
  {
    hide Zeros, UsedBy, Repr, Fillable, Fill, Run, Used, InsRec, CellPtr, Appended, Enc, OneOver, Offset, KindKept,
      State, CellContent, NumCells, IsLeaf;
    SevenFails();
    Sizes(P100, s, Blank(P100, true));
    var cells := Four108();
    Used108(1);
    Used108(2);
    TwoOver();
    FillableExactly(P100, s, true, cells[..2]);
    Filling(P100, s, true, cells, 1);
    FillStep(BPTreeAcc, s, cells, 1);
    var t1, t2 := Fill(BPTreeAcc, s, cells[..1]), Fill(BPTreeAcc, s, cells[..2]);
    FreePointerAfter(BPTreeAcc, t1, cells[1]);
    assert Appendable(BPTreeAcc, t2, cells[2]);
    FillStep(BPTreeAcc, s, cells, 2);
    FreePointerAfter(BPTreeAcc, t2, cells[2]);
    Key7680();
    var t3 := Fill(BPTreeAcc, s, cells[..3]);
    assert Appendable(BPTreeAcc, t3, cells[3]);
    FillStep(BPTreeAcc, s, cells, 3);
    NewSlotAfter(BPTreeAcc, t3, cells[3]);
  }

  lemma Used108(n: nat)
    requires 1 <= n <= 4
    ensures UsedBy(P100, true, Four108()[..n]) == 68 + 10 * n && Four108()[..4] == Four108()
  {
    hide Zeros, UsedBy;
    UsedAfterFirst(P100, Four108(), n);
  }

  lemma TwoOver()
    ensures OneOver(P100, true, Four108()[..2]) && KindKept(P100, true, Four108()[..2], 1)
    ensures Four108()[..2][..1] == Four108()[..1] && AllLegal(BPTreeAcc, true, Four108())
  {
    hide Zeros, UsedBy, Enc;
    Used108(1);
    Used108(2);
    assert Four108()[..2][..1] == Four108()[..1] && Four108()[..2][..2] == Four108()[..2];
  }

  lemma SevenFails()
    ensures Run(P100, Empty(P100), Seven()).Db? && Run(P100, Empty(P100), Seven() + [R(0, 68)]).Failed?
    ensures forall i | 0 <= i < 4 :: CellOf(InsertAt(Seven(), 0, R(0, 68))[i]) == Four108()[i]
    ensures UsedBy(P100, true, Four108()) == 108
  {
    hide Zeros, Used, UsedBy, Run, InsRec;
    UsedSame(P100, Seven(), 0);
    OneLeaf(P100, Seven());
    Used108(4);
    UsedByKvs(P100, true, Four108(), InsertAt(Seven(), 0, R(0, 68))[..4]);
    FrontFails(P100, Seven(), R(0, 68));
  }
}
