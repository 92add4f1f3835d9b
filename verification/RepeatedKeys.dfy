/**
 A run of eight inserts on 64-byte pages that makes the code misplace half of a node, and what follows: a range scan
 that returns a record before its start, and an insert that stores a key twice.
 */
module RepeatedKeys {
  import opened Bytes
  import opened Records
  import opened TreeModel
  import opened Database
  import opened Contents
  import opened Examples
  import opened Misplaced
  import opened Shape
  import opened BPTree

  // ---------------------------------------------------------------- evaluating an insert into a B+ tree

  function K(key: int): KV {
    KV(key, [])
  }

  /** A longer value for the only record of a leaf without room for it. */
  lemma LoneSplit(id: nat, content: nat, next: nat, kv: KV, was: KV, pages: nat)
    requires kv.key == was.key && |was.val| < |kv.val| && RoomFor(BP, true, content, 0, |kv.val|) == Full
        && |kv.val| <= 39
    ensures InsRec(BP, Leaf(id, [was], content, next), kv.key, kv.val, pages)
         == Ins(Split(Leaf(id, [], 64, pages), K(kv.key), Leaf(pages, [kv], 54 - |kv.val|, next)), pages + 1)
  {
    hide SplitLeaf;
    PositionUnique([was], kv.key, false, 0);
    assert RemoveAt([was], 0) == [] && InsertAt([], 0, kv) == [kv];
    OneRecord(Leaf(id, [], content, next), kv, pages);
  }

  lemma OneRecord(t: Tree, kv: KV, pages: nat)
    requires t.Leaf? && |kv.val| <= 39
    ensures SplitLeaf(BP, t, [kv], pages)
         == Ins(Split(Leaf(t.id, [], 64, pages), K(kv.key), Leaf(pages, [kv], 54 - |kv.val|, t.next)), pages + 1)
  {
  }

  lemma TwoRecords(t: Tree, a: KV, b: KV, pages: nat)
    requires t.Leaf? && |a.val| <= 39 && |b.val| <= 39
    ensures SplitLeaf(BP, t, [a, b], pages)
         == Ins(Split(Leaf(t.id, [a], 54 - |a.val|, pages), K(b.key), Leaf(pages, [b], 54 - |b.val|, t.next)),
           pages + 1)
  {
    assert [a, b][..1] == [a] && [a, b][1..] == [b];
    UsedOne(BP, true, a);
    UsedOne(BP, true, b);
  }

  /** Where an internal node sends a key. */
  ghost predicate Down(t: Tree, key: int, i: nat) {
    && t.Inner? && |t.kids| == |t.kvs| + 1 && i < |t.kids|
    && (forall j | 0 <= j < i :: t.kvs[j].key <= key) && (i < |t.kvs| ==> key < t.kvs[i].key)
  }

  lemma Through(t: Tree, kv: KV, pages: nat, i: nat, c: Tree, pages': nat)
    requires Down(t, kv.key, i) && InsRec(BP, t.kids[i], kv.key, kv.val, pages) == Ins(Done(c), pages')
    ensures InsRec(BP, t, kv.key, kv.val, pages) == Ins(Done(t.(kids := t.kids[i := c])), pages')
  {
  }

  lemma IntoParent(t: Tree, kv: KV, pages: nat, i: nat, l: Tree, m: KV, r: Tree, pages': nat)
    requires Down(t, kv.key, i) && InsRec(BP, t.kids[i], kv.key, kv.val, pages) == Ins(Split(l, m, r), pages')
    requires Down(t, m.key, i)
    ensures InsRec(BP, t, kv.key, kv.val, pages) == InnerPut(BP, t, i, l, m, r, pages')
  {
    hide InnerPut;
    PositionUnique(t.kvs, kv.key, true, i);
    PositionUnique(t.kvs, m.key, true, i);
  }

  lemma FourSeparators(id: nat, a: int, b: int, c: int, d: int, kids: seq<Tree>, pages: nat)
    requires |kids| == 5
    ensures SplitInner(BP, id, [K(a), K(b), K(c), K(d)], kids, pages)
         == Ins(Split(Inner(id, [K(a), K(b)], kids[..3], 40), K(c), Inner(pages, [K(d)], kids[3..], 52)), pages + 1)
  {
    var all := [K(a), K(b), K(c), K(d)];
    assert all[..2] == [K(a), K(b)] && all[3..] == [K(d)];
    UsedTwo(BP, false, K(a), K(b));
    UsedOne(BP, false, K(d));
  }

  // ---------------------------------------------------------------- the run

  function E(id: nat, next: nat): Tree {
    Leaf(id, [], 64, next)
  }

  function One(id: nat, kv: KV, next: nat): Tree {
    Leaf(id, [kv], 54 - if |kv.val| <= 54 then |kv.val| else 54, next)
  }

  function T2(): Tree { Inner(4, [K(10)], [E(2, 3), One(3, R(10, 17), INVALID_PAGE)], 52) }
  function T3(): Tree { Inner(4, [K(10), K(10)], [E(2, 3), E(3, 5), One(5, R(10, 18), INVALID_PAGE)], 40) }
  function T4(): Tree { Inner(4, [K(10), K(10), K(10)], [E(2, 3), E(3, 5), E(5, 6), One(6, R(10, 19), INVALID_PAGE)],
      28) }

  /** The node with the record of key 10. */
  function Full10(): Tree { Inner(8, [K(10)], [E(6, 7), One(7, R(10, 20), INVALID_PAGE)], 52) }

  function T5(): Tree { Inner(9, [K(10)], [Inner(4, [K(10), K(10)], [E(2, 3), E(3, 5), E(5, 6)], 40), Full10()], 52) }
  function T6(): Tree {
    Inner(9, [K(10)], [Inner(4, [K(10), K(10)], [One(2, R(1, 15), 3), E(3, 5), E(5, 6)], 40), Full10()], 52)
  }
  function T7(): Tree {
    Inner(9, [K(10)],
          [Inner(4, [K(2), K(10), K(10)], [One(2, R(1, 15), 10), One(10, R(2, 15), 3), E(3, 5), E(5, 6)], 28),
            Full10()],
          52)
  }

  /** The two halves of node 4 after the eighth insert, and the tree that the code then leaves behind. */
  function Low(): Tree {
    Inner(4, [K(2), K(3)], [One(2, R(1, 15), 10), One(10, R(2, 15), 11), One(11, R(3, 15), 3)], 40)
  }
  function High(): Tree { Inner(12, [K(10)], [E(3, 5), E(5, 6)], 52) }
  function T8(): Tree { Inner(9, [K(10), K(10)], [Low(), Full10(), High()], 40) }

  lemma Insert2()
    ensures Insert(BP, Db(One(2, R(10, 15), INVALID_PAGE), 3), 10, Zeros(17)) == Db(T2(), 5)
  {
    hide Zeros, InsRec;
    LoneSplit(2, 39, INVALID_PAGE, R(10, 17), R(10, 15), 3);
    UsedOne(BP, false, K(10));
  }

  lemma Insert3()
    ensures Insert(BP, Db(T2(), 5), 10, Zeros(18)) == Db(T3(), 6)
  {
    hide Zeros, InsRec;
    LoneSplit(3, 37, INVALID_PAGE, R(10, 18), R(10, 17), 5);
    IntoParent(T2(), R(10, 18), 5, 1, E(3, 5), K(10), One(5, R(10, 18), INVALID_PAGE), 6);
    assert InsertAt(T2().kvs, 1, K(10)) == T3().kvs;
    assert InsertAt(T2().kids[1 := E(3, 5)], 2, T3().kids[2]) == T3().kids;
  }

  lemma Insert4()
    ensures Insert(BP, Db(T3(), 6), 10, Zeros(19)) == Db(T4(), 7)
  {
    hide Zeros, InsRec;
    LoneSplit(5, 36, INVALID_PAGE, R(10, 19), R(10, 18), 6);
    IntoParent(T3(), R(10, 19), 6, 2, E(5, 6), K(10), One(6, R(10, 19), INVALID_PAGE), 7);
    assert InsertAt(T3().kvs, 2, K(10)) == T4().kvs;
    assert InsertAt(T3().kids[2 := E(5, 6)], 3, T4().kids[3]) == T4().kids;
  }

  lemma Insert5()
    ensures Insert(BP, Db(T4(), 7), 10, Zeros(20)) == Db(T5(), 10)
  {
    hide Zeros, InsRec, SplitInner;
    LoneSplit(6, 35, INVALID_PAGE, R(10, 20), R(10, 19), 7);
    IntoParent(T4(), R(10, 20), 7, 3, E(6, 7), K(10), One(7, R(10, 20), INVALID_PAGE), 8);
    var kids := [E(2, 3), E(3, 5), E(5, 6), E(6, 7), One(7, R(10, 20), INVALID_PAGE)];
    assert InsertAt(T4().kids[3 := E(6, 7)], 4, kids[4]) == kids;
    assert InsertAt(T4().kvs, 3, K(10)) == [K(10), K(10), K(10), K(10)];
    FourSeparators(4, 10, 10, 10, 10, kids, 8);
    assert kids[..3] == [E(2, 3), E(3, 5), E(5, 6)] && kids[3..] == [E(6, 7), kids[4]];
    UsedOne(BP, false, K(10));
  }

  lemma Insert6()
    ensures Insert(BP, Db(T5(), 10), 1, Zeros(15)) == Db(T6(), 10)
  {
    hide Zeros, InsRec;
    LeafFits(BP, E(2, 3), R(1, 15), 10, 0);
    assert InsertAt([], 0, R(1, 15)) == [R(1, 15)];
    Through(T5().kids[0], R(1, 15), 10, 0, One(2, R(1, 15), 3), 10);
    assert T5().kids[0].kids[0 := One(2, R(1, 15), 3)] == T6().kids[0].kids;
    Through(T5(), R(1, 15), 10, 0, T6().kids[0], 10);
    assert T5().kids[0 := T6().kids[0]] == T6().kids;
  }

  lemma Insert7()
    ensures Insert(BP, Db(T6(), 10), 2, Zeros(15)) == Db(T7(), 11)
  {
    hide Zeros, InsRec, SplitLeaf;
    LeafSplits(BP, One(2, R(1, 15), 3), R(2, 15), 10, 1);
    assert InsertAt([R(1, 15)], 1, R(2, 15)) == [R(1, 15), R(2, 15)];
    TwoRecords(One(2, R(1, 15), 3), R(1, 15), R(2, 15), 10);
    IntoParent(T6().kids[0], R(2, 15), 10, 0, One(2, R(1, 15), 10), K(2), One(10, R(2, 15), 3), 11);
    assert InsertAt(T6().kids[0].kvs, 0, K(2)) == T7().kids[0].kvs;
    assert InsertAt(T6().kids[0].kids[0 := One(2, R(1, 15), 10)], 1, One(10, R(2, 15), 3)) == T7().kids[0].kids;
    Through(T6(), R(2, 15), 10, 0, T7().kids[0], 11);
    assert T6().kids[0 := T7().kids[0]] == T7().kids;
  }

  /** The eighth insert: node 4 splits, and the key it promotes is the separator to its right in the root. */
  lemma Insert8()
    ensures InsRec(BP, T7().kids[0], 3, Zeros(15), 11) == Ins(Split(Low(), K(10), High()), 13)
    ensures Insert(BP, Db(T7(), 11), 3, Zeros(15)).Failed? && Repeats(T7(), 0, K(10))
    ensures Resumed(BP, T7(), 0, Low(), K(10), High(), 13) == Ins(Done(T8()), 13)
  {
    hide Zeros, InsRec, SplitLeaf, SplitInner;
    var t := T7().kids[0];
    LeafSplits(BP, One(10, R(2, 15), 3), R(3, 15), 11, 1);
    assert InsertAt([R(2, 15)], 1, R(3, 15)) == [R(2, 15), R(3, 15)];
    TwoRecords(One(10, R(2, 15), 3), R(2, 15), R(3, 15), 11);
    IntoParent(t, R(3, 15), 11, 1, One(10, R(2, 15), 11), K(3), One(11, R(3, 15), 3), 12);
    var kids := [One(2, R(1, 15), 10), One(10, R(2, 15), 11), One(11, R(3, 15), 3), E(3, 5), E(5, 6)];
    assert InsertAt(t.kvs, 1, K(3)) == [K(2), K(3), K(10), K(10)];
    assert InsertAt(t.kids[1 := kids[1]], 2, kids[2]) == kids;
    FourSeparators(4, 2, 3, 10, 10, kids, 12);
    assert kids[..3] == Low().kids && kids[3..] == High().kids;
    Rejected();
  }

  lemma Rejected()
    requires InsRec(BP, T7().kids[0], 3, Zeros(15), 11) == Ins(Split(Low(), K(10), High()), 13)
    ensures Insert(BP, Db(T7(), 11), 3, Zeros(15)).Failed?
    ensures Resumed(BP, T7(), 0, Low(), K(10), High(), 13) == Ins(Done(T8()), 13)
  {
    hide InsRec, Zeros, Low, High, Full10, Resumed;
    PositionUnique(T7().kvs, 10, true, 1);
    NotModelled(T7(), R(3, 15), 11, Low(), K(10), High(), 13);
    PutFar(Low(), High());
  }

  lemma NotModelled(t: Tree, kv: KV, pages: nat, l: Tree, m: KV, r: Tree, pages': nat)
    requires Down(t, kv.key, 0) && InsRec(BP, t.kids[0], kv.key, kv.val, pages) == Ins(Split(l, m, r), pages')
    requires Position(t.kvs, m.key, true) != 0
    ensures InsRec(BP, t, kv.key, kv.val, pages).out.Broken?
  {
  }

  lemma PutFar(l: Tree, r: Tree)
    ensures Resumed(BP, T7(), 0, l, K(10), r, 13) == Ins(Done(Inner(9, [K(10), K(10)], [l, Full10(), r], 40)), 13)
  {
    hide Full10;
    PositionUnique(T7().kvs, 10, true, 1);
    assert InsertAt([K(10)], 1, K(10)) == [K(10), K(10)];
    assert InsertAt(T7().kids[0 := l][1 := Full10()], 2, r) == [l, Full10(), r];
  }

  function Ops(): seq<KV> {
    [R(10, 15), R(10, 17), R(10, 18), R(10, 19), R(10, 20), R(1, 15), R(2, 15)]
  }

  lemma SevenInserts()
    ensures Run(BP, Empty(BP), Ops()) == Db(T7(), 11)
  {
    hide Zeros, InsRec, Insert, Run, T2, T3, T4, T5, T6, T7;
    NoOps(BP);
    First();
    Next([R(10, 15)], R(10, 17), Db(One(2, R(10, 15), INVALID_PAGE), 3));
    Insert2();
    Next(Ops()[..2], R(10, 18), Db(T2(), 5));
    Insert3();
    Next(Ops()[..3], R(10, 19), Db(T3(), 6));
    Insert4();
    Next(Ops()[..4], R(10, 20), Db(T4(), 7));
    Insert5();
    Next(Ops()[..5], R(1, 15), Db(T5(), 10));
    Insert6();
    Next(Ops()[..6], R(2, 15), Db(T6(), 10));
    Insert7();
    Prefixes();
  }

  lemma First()
    ensures Run(BP, Empty(BP), [R(10, 15)]) == Db(One(2, R(10, 15), INVALID_PAGE), 3)
  {
    hide Zeros, InsRec, Run;
    NoOps(BP);
    Grow(BP, [], R(10, 15), Empty(BP).t, 3);
    assert [] + [R(10, 15)] == [R(10, 15)];
  }

  lemma Next(ops: seq<KV>, kv: KV, db: Db)
    ensures Run(BP, Empty(BP), ops) == db ==> Run(BP, Empty(BP), ops + [kv]) == Insert(BP, db, kv.key, kv.val)
  {
  }

  lemma Prefixes()
    ensures [R(10, 15)] + [R(10, 17)] == Ops()[..2]
    ensures Ops()[..2] + [R(10, 18)] == Ops()[..3] && Ops()[..3] + [R(10, 19)] == Ops()[..4]
    ensures Ops()[..4] + [R(10, 20)] == Ops()[..5] && Ops()[..5] + [R(1, 15)] == Ops()[..6]
    ensures Ops()[..6] + [R(2, 15)] == Ops()
  {
  }

  // ---------------------------------------------------------------- what follows

  lemma TwoKids(kvs: seq<KV>, a: Tree, b: Tree)
    requires |kvs| == 1
    ensures Flat(BPTreeAcc, kvs, [a, b]) == Entries(BPTreeAcc, a) + Entries(BPTreeAcc, b)
  {
  }

  lemma ThreeKids(kvs: seq<KV>, a: Tree, b: Tree, c: Tree)
    requires |kvs| == 2
    ensures Flat(BPTreeAcc, kvs, [a, b, c]) == Entries(BPTreeAcc, a) + (Entries(BPTreeAcc, b) + Entries(BPTreeAcc, c))
  {
    assert [a, b, c][1..] == [b, c];
    TwoKids(kvs[1..], b, c);
    var e := Entries(BPTreeAcc, b) + Entries(BPTreeAcc, c);
    assert Sep(BPTreeAcc, kvs[0]) + e == e;
  }

  lemma FourStored()
    ensures Entries(BPTreeAcc, T8()) == [R(1, 15), R(2, 15), R(3, 15), R(10, 20)]
  {
    hide Zeros, Flat;
    ThreeKids(T8().kvs, Low(), Full10(), High());
    ThreeKids(Low().kvs, Low().kids[0], Low().kids[1], Low().kids[2]);
    TwoKids(Full10().kvs, Full10().kids[0], Full10().kids[1]);
    TwoKids(High().kvs, High().kids[0], High().kids[1]);
  }

  /**
   A scan from 15 finds no record in the tree, but descends to the empty leaf 5, and the chain leads from there to the
   record with key 10, which the iterator does not compare with the start of the range.
   */
  lemma ScanStartsTooEarly()
    ensures Down(T8(), 15, 2) && Down(High(), 15, 1) && T8().kids[2] == High()
    ensures var chain := [E(5, 6), E(6, 7), One(7, R(10, 20), INVALID_PAGE)];
      && High().kids[1] == chain[0] && Chained(chain, INVALID_PAGE)
      && RestAt(chain, 0, Position(chain[0].kvs, 15, false)) == [R(10, 20)]
    ensures Between(Entries(BPTreeAcc, T8()), 15, MAX_KEY) == []
  {
    hide Zeros, Entries;
    FourStored();
    var chain := [E(5, 6), E(6, 7), One(7, R(10, 20), INVALID_PAGE)];
    assert Link(chain, INVALID_PAGE, 0) && Link(chain, INVALID_PAGE, 1) && Link(chain, INVALID_PAGE, 2);
    assert chain[1..] == [E(6, 7), chain[2]] && chain[1..][1..] == [chain[2]] && [chain[2]][1..] == [];
    assert LeafRecords([chain[2]]) == [R(10, 20)] + LeafRecords([]);
    var s := [R(1, 15), R(2, 15), R(3, 15), R(10, 20)];
    BetweenDrops(s);
  }

  lemma BetweenDrops(s: seq<KV>)
    requires forall i | 0 <= i < |s| :: s[i].key < 15
    ensures Between(s, 15, MAX_KEY) == []
  {
  }

  /** One more insert of key 10 does not find the stored record and stores a second one. */
  lemma KeyStoredTwice()
    ensures var out := InsRec(BP, T8(), 10, Zeros(0), 13).out;
      out.Done? && Entries(BPTreeAcc, out.t) == [R(1, 15), R(2, 15), R(3, 15), R(10, 20), R(10, 0)]
  {
    hide Zeros, InsRec, Flat;
    LeafFits(BP, E(5, 6), R(10, 0), 13, 0);
    assert InsertAt([], 0, R(10, 0)) == [R(10, 0)];
    var leaf := One(5, R(10, 0), 6);
    Through(High(), R(10, 0), 13, 1, leaf, 13);
    var high := High().(kids := [E(3, 5), leaf]);
    assert High().kids[1 := leaf] == high.kids;
    Through(T8(), R(10, 0), 13, 2, high, 13);
    assert T8().kids[2 := high] == [Low(), Full10(), high];
    ThreeKids(T8().kvs, Low(), Full10(), high);
    ThreeKids(Low().kvs, Low().kids[0], Low().kids[1], Low().kids[2]);
    TwoKids(Full10().kvs, Full10().kids[0], Full10().kids[1]);
    TwoKids(high.kvs, E(3, 5), leaf);
  }
}
