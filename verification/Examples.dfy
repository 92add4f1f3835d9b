/** Concrete runs, on 64-byte pages, that lead into the cases the code does not handle. */
module Examples {
  import opened Bytes
  import opened Records
  import opened TreeModel
  import opened Database
  import opened Contents
  import opened Layout
  import opened TightPage

  function Zeros(n: nat): (v: Value)
    ensures |v| == n
  {
    seq(n, i => 0)
  }

  function R(key: int, n: nat): KV {
    KV(key, Zeros(n))
  }

  // ---------------------------------------------------------------- evaluating an insert

  lemma Step(cfg: Cfg, ops: seq<KV>, kv: KV)
    ensures Run(cfg, Empty(cfg), ops + [kv]) == Insert(cfg, Run(cfg, Empty(cfg), ops), kv.key, kv.val)
  {
  }

  /** A new record on a leaf with room for it at index i. */
  lemma LeafFits(cfg: Cfg, t: Tree, kv: KV, pages: nat, i: nat)
    requires t.Leaf? && i <= |t.kvs| && (forall j | 0 <= j < i :: t.kvs[j].key < kv.key)
        && (i < |t.kvs| ==> kv.key < t.kvs[i].key)
    requires RoomFor(cfg, true, t.content, |t.kvs|, |kv.val|) == Enough
    ensures InsRec(cfg, t, kv.key, kv.val, pages)
         == Ins(Done(Leaf(t.id, InsertAt(t.kvs, i, kv), t.content - cfg.acc.CellSize(true, |kv.val|), t.next)), pages)
  {
  }

  /** A new record on a leaf without room for it. */
  lemma LeafSplits(cfg: Cfg, t: Tree, kv: KV, pages: nat, i: nat)
    requires t.Leaf? && i <= |t.kvs| && (forall j | 0 <= j < i :: t.kvs[j].key < kv.key)
        && (i < |t.kvs| ==> kv.key < t.kvs[i].key)
    requires RoomFor(cfg, true, t.content, |t.kvs|, |kv.val|) == Full
    ensures InsRec(cfg, t, kv.key, kv.val, pages) == SplitLeaf(cfg, t, InsertAt(t.kvs, i, kv), pages)
  {
  }

  lemma UsedOne(cfg: Cfg, leaf: bool, a: KV)
    ensures Used(cfg, leaf, [a]) == cfg.acc.CellSize(leaf, |a.val|)
  {
  }

  lemma UsedTwo(cfg: Cfg, leaf: bool, a: KV, b: KV)
    ensures Used(cfg, leaf, [a, b]) == cfg.acc.CellSize(leaf, |a.val|) + cfg.acc.CellSize(leaf, |b.val|)
  {
    assert [a, b][..1] == [a];
    UsedOne(cfg, leaf, a);
  }

  // ---------------------------------------------------------------- a B-tree of four records

  const BT := Cfg(BTreeAcc, 64)

  function FourRecords(): Db {
    Db(Inner(4, [R(3, 1)], [Leaf(2, [R(1, 1), R(2, 1)], 34, INVALID_PAGE), Leaf(3, [R(4, 1)], 49, INVALID_PAGE)], 49),
      5)
  }

  /** One more record at the end of a root leaf. */
  lemma Grow(cfg: Cfg, ops: seq<KV>, kv: KV, t: Tree, pages: nat)
    requires t.Leaf? && Run(cfg, Empty(cfg), ops) == Db(t, pages)
      && forall j | 0 <= j < |t.kvs| :: t.kvs[j].key < kv.key
    requires RoomFor(cfg, true, t.content, |t.kvs|, |kv.val|) == Enough
    ensures Run(cfg, Empty(cfg), ops + [kv])
         == Db(Leaf(t.id, t.kvs + [kv], t.content - cfg.acc.CellSize(true, |kv.val|), t.next), pages)
  {
    hide InsRec, Run;
    Step(cfg, ops, kv);
    LeafFits(cfg, t, kv, pages, |t.kvs|);
    assert InsertAt(t.kvs, |t.kvs|, kv) == t.kvs + [kv];
  }

  lemma FourRecordsReached()
    ensures Run(BT, Empty(BT), [R(1, 1), R(2, 1), R(3, 1), R(4, 1)]) == FourRecords()
  {
    hide InsRec, Zeros, SplitLeaf, Run;
    var a, b, c, d := R(1, 1), R(2, 1), R(3, 1), R(4, 1);
    NoOps(BT);
    Grow(BT, [], a, Empty(BT).t, 3);
    assert [] + [a] == [a];
    Grow(BT, [a], b, Leaf(2, [a], 49, INVALID_PAGE), 3);
    assert [a] + [b] == [a, b];
    Grow(BT, [a, b], c, Leaf(2, [a, b], 34, INVALID_PAGE), 3);
    assert [a, b] + [c] == [a, b, c];
    FourthRecord(a, b, c, d);
  }

  lemma FourthRecord(a: KV, b: KV, c: KV, d: KV)
    requires a.key < b.key < c.key < d.key && |a.val| == |b.val| == |c.val| == |d.val| == 1
    requires Run(BT, Empty(BT), [a, b, c]) == Db(Leaf(2, [a, b, c], 19, INVALID_PAGE), 3)
    ensures Run(BT, Empty(BT), [a, b, c, d])
         == Db(Inner(4, [c], [Leaf(2, [a, b], 34, INVALID_PAGE), Leaf(3, [d], 49, INVALID_PAGE)], 49), 5)
  {
    hide InsRec, SplitLeaf, Run, Used;
    var t := Leaf(2, [a, b, c], 19, INVALID_PAGE);
    Step(BT, [a, b, c], d);
    LeafSplits(BT, t, d, 3, 3);
    assert [a, b, c] + [d] == [a, b, c, d] == InsertAt([a, b, c], 3, d);
    MoveUpSplit(t, a, b, c, d);
  }

  lemma NoOps(cfg: Cfg)
    ensures Run(cfg, Empty(cfg), []) == Empty(cfg)
  {
  }

  lemma MoveUpSplit(t: Tree, a: KV, b: KV, c: KV, d: KV)
    requires t.Leaf? && |a.val| == |b.val| == |c.val| == |d.val| == 1
    ensures SplitLeaf(BT, t, [a, b, c, d], 3)
         == Ins(Split(Leaf(t.id, [a, b], 34, INVALID_PAGE), c, Leaf(3, [d], 49, INVALID_PAGE)), 4)
    ensures Used(BT, false, [c]) == 15
  {
    assert [a, b, c, d][..2] == [a, b] && [a, b, c, d][3..] == [d];
    UsedTwo(BT, true, a, b);
    UsedOne(BT, true, d);
    UsedOne(BT, false, c);
  }

  // ---------------------------------------------------------------- B+ tree leaves

  const BP := Cfg(BPTreeAcc, 64)

  /**
   Two records that fit a 64-byte page without the second slot: the room test accepts the second one, and its key 2 is
   read back as 15, the offset of its cell.
   */
  lemma TightRun()
    ensures Run(BP, Empty(BP), [R(1, 9)]) == Db(Leaf(2, [R(1, 9)], 45, INVALID_PAGE), 3)
    ensures RoomFor(BP, true, 45, 1, 20) == Tight && Run(BP, Empty(BP), [R(1, 9), R(2, 20)]).Failed?
    ensures Blotted(BPTreeAcc, true, Cell(2, Zeros(20), 0), 0, 45 - 30).key == 15
  {
    hide Zeros, Run, InsRec, Blotted;
    var a, b := R(1, 9), R(2, 20);
    NoOps(BP);
    Grow(BP, [], a, Empty(BP).t, 3);
    assert [] + [a] == [a];
    Step(BP, [a], b);
    assert [a] + [b] == [a, b];
    PositionUnique([a], 2, false, 1);
    TightLeaf(Leaf(2, [a], 45, INVALID_PAGE), b);
    TightKey(b.val);
  }

  lemma TightKey(val: Value)
    requires |val| == 20
    ensures Blotted(BPTreeAcc, true, Cell(2, val, 0), 0, 15).key == 15
  {
  }

  lemma TightLeaf(t: Tree, kv: KV)
    requires t.Leaf? && t.kvs != [] && Position(t.kvs, kv.key, false) == |t.kvs|
    requires RoomFor(BP, true, t.content, |t.kvs|, |kv.val|) == Tight
    ensures InsRec(BP, t, kv.key, kv.val, 3).out.Broken?
  {
  }

  /** Three empty values and one of 30 bytes: the leaf splits two and two, and the right half does not fit its page. */
  lemma OversizedRun()
    ensures Run(BP, Empty(BP), [R(1, 0), R(2, 0), R(3, 0)]).Db?
    ensures Run(BP, Empty(BP), [R(1, 0), R(2, 0), R(3, 0), R(4, 30)]).Failed?
    ensures Fits(BP, true, [R(4, 30)]) && !Fits(BP, true, [R(3, 0), R(4, 30)])
  {
    hide Zeros, Run, InsRec, SplitLeaf, Used;
    var a, b, c, d := R(1, 0), R(2, 0), R(3, 0), R(4, 30);
    NoOps(BP);
    Grow(BP, [], a, Empty(BP).t, 3);
    assert [] + [a] == [a];
    Grow(BP, [a], b, Leaf(2, [a], 54, INVALID_PAGE), 3);
    assert [a] + [b] == [a, b];
    Grow(BP, [a, b], c, Leaf(2, [a, b], 44, INVALID_PAGE), 3);
    assert [a, b] + [c] == [a, b, c];
    UsedOne(BP, true, d);
    UsedTwo(BP, true, c, d);
    OversizedSplit(a, b, c, d);
  }

  lemma OversizedSplit(a: KV, b: KV, c: KV, d: KV)
    requires a.key < b.key < c.key < d.key && !Fits(BP, true, [c, d]) && |d.val| >= 13
    requires Run(BP, Empty(BP), [a, b, c]) == Db(Leaf(2, [a, b, c], 34, INVALID_PAGE), 3)
    ensures Run(BP, Empty(BP), [a, b, c, d]).Failed?
  {
    hide InsRec, Run, Used, Fits;
    var t := Leaf(2, [a, b, c], 34, INVALID_PAGE);
    Step(BP, [a, b, c], d);
    LeafSplits(BP, t, d, 3, 3);
    assert [a, b, c] + [d] == [a, b, c, d] == InsertAt([a, b, c], 3, d);
    assert [a, b, c, d][2..] == [c, d];
  }
}
