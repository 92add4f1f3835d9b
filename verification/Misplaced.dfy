/**
 A case the code does not handle: after a child has split, insertRec searches the node again for the promoted key, and
 finds another index than the one it descended at.

 This happens in a B+ tree whose separators repeat. A leaf that holds one record, without room for a longer value,
 splits into an empty leaf and a leaf with the record, and so puts the same separator next to an equal one. When an
 internal node later promotes a separator equal to its own right neighbour in the parent, the search passes that
 neighbour too, and the right half is linked in too far to the right. The TreeModel calls this case Broken; here is
 what it does.
 */
module Misplaced {
  import opened Bytes
  import opened Records
  import opened TreeModel
  import opened Order
  import opened Contents
  import opened Shape
  import opened Refine
  import Seqs

  /** The end of insertRec as the code has it: child i has become l and r around m, and m is searched for. */
  function Resumed(cfg: Cfg, t: Tree, i: nat, l: Tree, m: KV, r: Tree, pages: nat): Ins
    requires t.Inner? && |t.kids| == |t.kvs| + 1 && i < |t.kids|
  {
    var t' := t.(kids := t.kids[i := l]);
    var j := Position(t.kvs, m.key, cfg.acc.Upper(false));
    InnerPut(cfg, t', j, t'.kids[j], m, r, pages)
  }

  /** Where the search finds the index of the descent, this is what the TreeModel's insert does. */
  lemma ResumedAsModelled(cfg: Cfg, t: Tree, i: nat, l: Tree, m: KV, r: Tree, pages: nat)
    requires t.Inner? && |t.kids| == |t.kvs| + 1 && i < |t.kids| && Position(t.kvs, m.key, cfg.acc.Upper(false)) == i
    ensures Resumed(cfg, t, i, l, m, r, pages) == InnerPut(cfg, t, i, l, m, r, pages)
  {
    hide Position, SplitInner, RoomFor;
    var t' := t.(kids := t.kids[i := l]);
    assert t'.kids[i := t'.kids[i]] == t.kids[i := l];
  }

  /** The promoted key equals the separator to the right of the child. */
  predicate Repeats(t: Tree, i: nat, m: KV) {
    i < |t.kvs| && m.key == t.kvs[i].key
  }

  /**
   The second search finds another index exactly when the promoted key equals the separator to the right; in a B-tree
   never.
   */
  lemma MissExactly(acc: Acc, t: Tree, i: nat, l: Tree, m: KV, r: Tree, lo: int, hi: int)
    requires t.Inner? && |t.kids| == |t.kvs| + 1 && i < |t.kids| && NodeOrdered(acc, false, false, t.kvs, lo, hi)
    requires SplitOrdered(acc, false, l, m, r, Lo(acc, t.kvs, i, lo), Hi(t.kvs, i, hi))
    ensures var j := Position(t.kvs, m.key, acc.Upper(false));
      && i <= j && (j != i <==> Repeats(t, i, m)) && (acc.BTreeAcc? ==> j == i)
  {
    hide Ordered;
    assert [m][0] == m;
    var j := Position(t.kvs, m.key, acc.Upper(false));
    if !Repeats(t, i, m) {
      PositionUnique(t.kvs, m.key, acc.Upper(false), i);
    } else {
      assert i > 0 ==> t.kvs[i - 1].key <= m.key;
    }
  }

  /** A half between two equal separators holds no record. */
  lemma HalfEmpty(acc: Acc, l: Tree, m: KV, r: Tree, lo: int, hi: int)
    requires acc.CopyUp() && SplitOrdered(acc, false, l, m, r, lo, hi) && m.key == hi
    ensures Entries(acc, r) == []
  {
    hide Ordered, NodeOrdered;
    assert [l, r][1] == r && [m][0] == m;
    EntriesSorted(acc, false, r, m.key, hi);
    NoneWithin(Entries(acc, r), hi);
  }

  lemma NoneWithin(s: seq<KV>, lo: int)
    ensures Within(s, lo, lo) ==> s == []
  {
    if s != [] {
      assert !(lo <= s[0].key < lo);
    }
  }

  /** The records are right even then. */
  lemma ResumedEntries(cfg: Cfg, t: Tree, key: int, val: Value, pages: nat, pages': nat, lo: int, hi: int)
    requires cfg.acc.CopyUp() && t.Inner? && |t.kids| == |t.kvs| + 1 && Ordered(cfg.acc, false, t, lo, hi)
        && lo <= key < hi
    requires var i := Position(t.kvs, key, true);
      var out := InsRec(cfg, t.kids[i], key, val, pages).out;
      out.Split? && !Resumed(cfg, t, i, out.l, out.m, out.r, pages').out.Broken?
    ensures var i := Position(t.kvs, key, true);
      var out := InsRec(cfg, t.kids[i], key, val, pages).out;
      OutEntries(cfg.acc, Resumed(cfg, t, i, out.l, out.m, out.r, pages').out) == Put(Entries(cfg.acc, t), key, val)
  {
    var acc, i := cfg.acc, Position(t.kvs, key, true);
    DescentRange(acc, false, t, key, lo, hi);
    hide Flat, Pre, Post, InnerPut, InsRec, Put, KidsOrdered, SplitOrdered, Position;
    var klo, khi := Lo(acc, t.kvs, i, lo), Hi(t.kvs, i, hi);
    KidOrdered(acc, false, t.kvs, t.kids, i, lo, hi);
    InsertOrdered(cfg, false, t.kids[i], key, val, pages, klo, khi);
    InsertEntries(cfg, t.kids[i], key, val, pages, klo, khi);
    PutIntoKid(acc, t.kvs, t.kids, i, key, val, lo, hi);
    var out := InsRec(cfg, t.kids[i], key, val, pages).out;
    var l, m, r := out.l, out.m, out.r;
    MissExactly(acc, t, i, l, m, r, lo, hi);
    var j := Position(t.kvs, m.key, true);
    if j == i {
      ResumedAsModelled(cfg, t, i, l, m, r, pages');
      InnerPutEntries(cfg, t, i, l, m, r, pages');
    } else {
      HalfEmpty(acc, l, m, r, klo, khi);
      var t' := t.(kids := t.kids[i := l]);
      InnerPutEntries(cfg, t', j, t'.kids[j], m, r, pages');
      FlatAt(acc, t'.kvs, t'.kids, j);
      FlatReplace(acc, t.kvs, t.kids, i, l);
      NoSep(acc, m, Entries(acc, t'.kids[j]));
      NoSep(acc, m, Entries(acc, l));
    }
  }

  lemma NoSep(acc: Acc, m: KV, e: seq<KV>)
    requires acc.CopyUp()
    ensures e + Sep(acc, m) + [] == e
  {
  }

  // ---------------------------------------------------------------- the chain

  /** The leaves of the result, left to right, when the right half goes behind child j > i. */
  lemma ResumedLeaves(cfg: Cfg, t: Tree, i: nat, l: Tree, m: KV, r: Tree, pages: nat) returns (rest: seq<Tree>)
    requires t.Inner? && |t.kids| == |t.kvs| + 1 && i < Position(t.kvs, m.key, cfg.acc.Upper(false))
    requires !Resumed(cfg, t, i, l, m, r, pages).out.Broken?
    ensures OutLeaves(Resumed(cfg, t, i, l, m, r, pages).out)
         == LeavesOf(t.kids[..i]) + (Leaves(l) + (Leaves(t.kids[i + 1]) + rest))
  {
    hide Position, InnerPut, Leaves, LeavesOf, OutLeaves, InsertAt;
    var j := Position(t.kvs, m.key, cfg.acc.Upper(false));
    var t' := t.(kids := t.kids[i := l]);
    InnerPutShape(cfg, t', j, t'.kids[j], m, r, pages);
    var kids := InsertAt(t'.kids[j := t'.kids[j]], j + 1, r);
    FarKids(t.kids, i, l, j, r);
    rest := TwoInFront(kids, i);
  }

  lemma FarKids(kids: seq<Tree>, i: nat, l: Tree, j: nat, r: Tree)
    requires i < j < |kids|
    ensures var s := InsertAt(kids[i := l][j := kids[i := l][j]], j + 1, r);
      i + 1 < |s| && s[..i] == kids[..i] && s[i] == l && s[i + 1] == kids[i + 1]
  {
  }

  lemma TwoInFront(kids: seq<Tree>, i: nat) returns (rest: seq<Tree>)
    requires i + 1 < |kids|
    ensures LeavesOf(kids) == LeavesOf(kids[..i]) + (Leaves(kids[i]) + (Leaves(kids[i + 1]) + rest))
  {
    hide *;
    ListSplit(kids, i);
    var tail := kids[i + 1..];
    ListSplit(tail, 0);
    assert tail[..0] == [];
    NoLeaves();
    rest := LeavesOf(tail[1..]);
    var c := Leaves(kids[i + 1]);
    assert [] + c == c;
    Seqs.Assoc(LeavesOf(kids[..i]), Leaves(kids[i]), c + rest);
  }

  lemma NoLeaves()
    ensures LeavesOf([]) == []
  {
  }

  lemma {:induction false} LeavesAreUniform(t: Tree, h: nat)
    requires Uniform(t, h)
    ensures Leaves(t) != [] && Leaves(t)[0].id in Pages(t)
    decreases t
  {
    if t.Inner? {
      LeavesAreUniform(t.kids[0], h - 1);
    }
  }

  /** Two chains that start with the same leaves, in both of which the last of them points at what follows. */
  lemma SameNext(a: seq<Tree>, b: seq<Tree>, c: seq<Tree>, rest: seq<Tree>, d: seq<Tree>, end: nat, end': nat)
    requires b != [] && c != [] && d != []
    requires Chained(a + (b + (c + rest)), end) && Chained(b + d, end')
    ensures c[0].id == d[0].id
  {
    var s, n := a + (b + (c + rest)), |a| + |b| - 1;
    assert Link(s, end, n) && Link(b + d, end', |b| - 1);
    assert s[n] == b[|b| - 1] == (b + d)[|b| - 1];
    assert s[n + 1] == c[0] && (b + d)[|b|] == d[0];
  }

  /** The pages of child i and of the halves it splits into are not those of its right neighbour. */
  lemma NotTheNeighbour(cfg: Cfg, t: Tree, i: nat, key: int, val: Value, pages: nat, x: nat)
    requires t.Inner? && i + 1 < |t.kids| && Once(Pages(t)) && x in Pages(t.kids[i + 1])
        && forall y | y in Pages(t) :: y < pages
    requires !InsRec(cfg, t.kids[i], key, val, pages).out.Broken?
    ensures x !in OutPages(InsRec(cfg, t.kids[i], key, val, pages).out)
  {
    hide InsRec, OutPages, PagesOf;
    InsertPages(cfg, t.kids[i], key, val, pages);
    TwoInPagesOf(t.kids, i, i + 1, x);
    assert x in Pages(t);
    FreshCount(pages, InsRec(cfg, t.kids[i], key, val, pages).pages, x);
  }

  /** With the right half too far to the right, the leaves of the tree are no chain any more. */
  lemma ChainBroken(cfg: Cfg, t: Tree, i: nat, key: int, val: Value, pages: nat, pages': nat, h: nat, end: nat)
    requires cfg.acc.CopyUp() && t.Inner? && |t.kids| == |t.kvs| + 1 && i < |t.kvs|
    requires Uniform(t, h) && Chained(Leaves(t), end) && Once(Pages(t)) && forall y | y in Pages(t) :: y < pages
    requires var out := InsRec(cfg, t.kids[i], key, val, pages).out;
      && out.Split? && i < Position(t.kvs, out.m.key, true)
      && !Resumed(cfg, t, i, out.l, out.m, out.r, pages').out.Broken?
    ensures var out := InsRec(cfg, t.kids[i], key, val, pages).out;
      !Chained(OutLeaves(Resumed(cfg, t, i, out.l, out.m, out.r, pages').out), end)
  {
    hide InsRec, Resumed, Position, Chained, Leaves, LeavesOf, Pages, Uniform;
    var out := InsRec(cfg, t.kids[i], key, val, pages).out;
    var l, m, r := out.l, out.m, out.r;
    KidsUniform(t, i, h);
    ChainOfKid(t, i, h, end);
    var e :| Chained(Leaves(t.kids[i]), e);
    InsertChained(cfg, t.kids[i], key, val, pages, h - 1, e);
    InsertUniform(cfg, t.kids[i], key, val, pages, h - 1);
    LeavesAreUniform(l, h - 1);
    LeavesAreUniform(r, h - 1);
    LeavesAreUniform(t.kids[i + 1], h - 1);
    NotTheNeighbour(cfg, t, i, key, val, pages, Leaves(t.kids[i + 1])[0].id);
    var rest := ResumedLeaves(cfg, t, i, l, m, r, pages');
    var all := OutLeaves(Resumed(cfg, t, i, l, m, r, pages').out);
    if Chained(all, end) {
      SameNext(LeavesOf(t.kids[..i]), Leaves(l), Leaves(t.kids[i + 1]), rest, Leaves(r), end, e);
      assert false;
    }
  }

  lemma KidsUniform(t: Tree, i: nat, h: nat)
    requires t.Inner? && Uniform(t, h) && i + 1 < |t.kids|
    ensures h > 1 && Uniform(t.kids[i], h - 1) && Uniform(t.kids[i + 1], h - 1)
  {
  }

  lemma ChainOfKid(t: Tree, i: nat, h: nat, end: nat)
    requires t.Inner? && Uniform(t, h) && i < |t.kids| && Chained(Leaves(t), end)
    ensures exists e :: Chained(Leaves(t.kids[i]), e)
  {
    hide Chained, LeavesOf;
    ListSplit(t.kids, i);
    LeavesNonempty(t.kids[i], h - 1);
    ChainMiddle(LeavesOf(t.kids[..i]), Leaves(t.kids[i]), LeavesOf(t.kids[i + 1..]), end);
  }

  /**
   What the code makes of a split child, in any reachable B+ tree: the records are always right, and the leaves are
   still a chain from left to right exactly unless the promoted key equals the separator to the child's right.
   */
  lemma ResumedExactly(cfg: Cfg, t: Tree, key: int, val: Value, pages: nat, pages': nat, h: nat, lo: int, hi: int,
      end: nat)
    requires cfg.acc.CopyUp() && t.Inner? && |t.kids| == |t.kvs| + 1 && Ordered(cfg.acc, false, t, lo, hi)
        && lo <= key < hi
    requires Uniform(t, h) && Chained(Leaves(t), end) && Once(Pages(t)) && forall y | y in Pages(t) :: y < pages
    requires var i := Position(t.kvs, key, true);
      var out := InsRec(cfg, t.kids[i], key, val, pages).out;
      && out.Split? && !Resumed(cfg, t, i, out.l, out.m, out.r, pages').out.Broken?
    ensures var i := Position(t.kvs, key, true);
      var out := InsRec(cfg, t.kids[i], key, val, pages).out;
      var result := Resumed(cfg, t, i, out.l, out.m, out.r, pages').out;
      && OutEntries(cfg.acc, result) == Put(Entries(cfg.acc, t), key, val)
      && (Chained(OutLeaves(result), end) <==> !Repeats(t, i, out.m))
  {
    var acc, i := cfg.acc, Position(t.kvs, key, true);
    DescentRange(acc, false, t, key, lo, hi);
    hide InsRec, Resumed, Position, Chained, Leaves, LeavesOf, Pages, Entries, OutEntries, OutLeaves, KidsOrdered,
      SplitOrdered;
    ResumedEntries(cfg, t, key, val, pages, pages', lo, hi);
    var klo, khi := Lo(acc, t.kvs, i, lo), Hi(t.kvs, i, hi);
    KidOrdered(acc, false, t.kvs, t.kids, i, lo, hi);
    InsertOrdered(cfg, false, t.kids[i], key, val, pages, klo, khi);
    var out := InsRec(cfg, t.kids[i], key, val, pages).out;
    MissExactly(acc, t, i, out.l, out.m, out.r, lo, hi);
    if Repeats(t, i, out.m) {
      ChainBroken(cfg, t, i, key, val, pages, pages', h, end);
    } else {
      ResumedAsModelled(cfg, t, i, out.l, out.m, out.r, pages');
      ChainKept(cfg, t, i, key, val, pages, pages', h, end);
    }
  }

  lemma ChainKept(cfg: Cfg, t: Tree, i: nat, key: int, val: Value, pages: nat, pages': nat, h: nat, end: nat)
    requires cfg.acc.CopyUp() && t.Inner? && |t.kids| == |t.kvs| + 1 && i <= |t.kvs| && Uniform(t, h)
        && Chained(Leaves(t), end)
    requires var out := InsRec(cfg, t.kids[i], key, val, pages).out;
      out.Split? && !InnerPut(cfg, t, i, out.l, out.m, out.r, pages').out.Broken?
    ensures var out := InsRec(cfg, t.kids[i], key, val, pages).out;
      Chained(OutLeaves(InnerPut(cfg, t, i, out.l, out.m, out.r, pages').out), end)
  {
    hide InnerPut, InsRec, LeavesOf, Chained;
    var out := InsRec(cfg, t.kids[i], key, val, pages).out;
    var a, b, c := LeavesOf(t.kids[..i]), Leaves(t.kids[i]), LeavesOf(t.kids[i + 1..]);
    ListSplit(t.kids, i);
    LeavesNonempty(t.kids[i], h - 1);
    ChainMiddle(a, b, c, end);
    InsertChained(cfg, t.kids[i], key, val, pages, h - 1, if c == [] then end else c[0].id);
    ChainReplace(a, b, OutLeaves(out), c, end);
    ListSplice(t.kids, i, out.l, out.r);
    InnerPutShape(cfg, t, i, out.l, out.m, out.r, pages');
  }
}
