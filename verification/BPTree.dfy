/** The B+ tree's own operations: lookup and range scan along the leaf chain. */
module BPTree {
  import opened Bytes
  import Seqs
  import opened Records
  import opened TreeModel
  import opened Order
  import opened Contents
  import opened Shape
  import opened Layout
  import opened PageOps
  import opened Refine
  import opened Search
  import opened Database
  import opened Shared
  import Lru
  import P = Pager

  /** The page id of leaf j of the chain, or InvalidPage behind its end. */
  function ChainId(ls: seq<Tree>, j: nat): nat {
    if j < |ls| then ls[j].id else INVALID_PAGE
  }

  /** The chain of a stored B+ tree: its leaves are on their pages, sorted, and each page names the next leaf. */
  ghost predicate ChainStored(cfg: Cfg, file: seq<Page>, ls: seq<Tree>) {
    forall j | 0 <= j < |ls| :: LeafStored(cfg, file, ls, j)
  }

  ghost predicate LeafStored(cfg: Cfg, file: seq<Page>, ls: seq<Tree>, j: nat)
    requires j < |ls|
  {
    && ls[j].Leaf? && ls[j].id < INVALID_PAGE
    && HoldsNode(cfg, file, ls[j].id, NodeOf(ls[j]))
    && NodeOf(ls[j]).next == ChainId(ls, j + 1)
    && NodeOf(ls[j]).leaf && |NodeOf(ls[j]).cells| == |ls[j].kvs|
    && SameRecords(NodeOf(ls[j]).cells, ls[j].kvs) && Sorted(ls[j].kvs)
  }

  /**
   In every stored B+ tree the chain visits exactly the tree's leaves, left to right, and ends; its records are sorted
   and are exactly the tree's.
   */
  lemma ChainOfTree(cfg: Cfg, file: seq<Page>, t: Tree)
    requires Stored(cfg, file, t) && cfg.acc.CopyUp()
    ensures ChainStored(cfg, file, Leaves(t))
    ensures LeafRecords(Leaves(t)) == Entries(cfg.acc, t) && Sorted(Entries(cfg.acc, t))
  {
    hide Ordered, Holds, Uniform, Pages, Leaves, LeafRecords, Entries;
    LeavesHoldEntries(t, HeightOf(t));
    EntriesSorted(cfg.acc, false, t, MIN_KEY, MAX_KEY + 1);
    LeavesHeld(cfg, file, t);
    forall j | 0 <= j < |Leaves(t)|
      ensures LeafStored(cfg, file, Leaves(t), j)
    {
      assert Link(Leaves(t), INVALID_PAGE, j);
      LeafInPages(t, j);
      FreshCount(2, |file|, Leaves(t)[j].id);
      LeafRecordsAt(Leaves(t), j);
      MiddleSorted(LeafRecords(Leaves(t)[..j]), Leaves(t)[j].kvs, LeafRecords(Leaves(t)[j + 1..]));
      LeafNode(cfg, file, Leaves(t)[j]);
    }
  }

  lemma LeafNode(cfg: Cfg, file: seq<Page>, t: Tree)
    requires t.Leaf? && Holds(cfg, file, t)
    ensures HoldsNode(cfg, file, t.id, NodeOf(t)) && NodeOf(t).leaf && |NodeOf(t).cells| == |t.kvs|
    ensures SameRecords(NodeOf(t).cells, t.kvs) && NodeOf(t).next == t.next
  {
  }

  lemma MiddleSorted(a: seq<KV>, b: seq<KV>, c: seq<KV>)
    requires Sorted(a + b + c)
    ensures Sorted(b)
  {
    forall i, j | 0 <= i < j < |b|
      ensures b[i].key < b[j].key
    {
      assert b[i] == (a + b + c)[|a| + i] && b[j] == (a + b + c)[|a| + j];
    }
  }

  /** What leaf j decides about a key that is above the records of the leaves before it. */
  lemma ChainLookup(ls: seq<Tree>, j: nat, key: int)
    requires j < |ls| && Sorted(LeafRecords(ls)) && Below(LeafRecords(ls[..j]), key) && Sorted(ls[j].kvs)
    ensures var i := Position(ls[j].kvs, key, false);
      && (i < |ls[j].kvs| ==>
            Lookup(LeafRecords(ls), key) == if ls[j].kvs[i].key == key then Some(ls[j].kvs[i].val) else None)
      && (i == |ls[j].kvs| ==> Below(LeafRecords(ls[..j + 1]), key))
  {
    LeafRecordsAt(ls, j);
    hide LeafRecords, Position, Lookup;
    var a, b, c := LeafRecords(ls[..j]), ls[j].kvs, LeafRecords(ls[j + 1..]);
    var i := Position(b, key, false);
    LookupSorted(b, key);
    LookupAbsent(a, key);
    LookupConcat(a + b, c, key);
    LookupConcat(a, b, key);
    if i < |b| && b[i].key != key {
      forall k | 0 <= k < |c|
        ensures c[k].key != key
      {
        assert (a + b + c)[|a| + i] == b[i] && (a + b + c)[|a| + |b| + k] == c[k];
      }
      LookupAbsent(c, key);
    }
  }

  /** Get: descend to a leaf, then walk the chain while every record is smaller. The answer is the map's. */
  method Get(t: PageTree, key: int) returns (r: Option<Value>)
    requires t.Valid() && IsKey(key) && t.cfg.acc.CopyUp()
    modifies t.pg.cache, t.pg.cache.Repr
    ensures t.Valid()
    ensures forall e | e in t.pg.cache.Repr :: e in old(t.pg.cache.Repr) || fresh(e)
    ensures forall b | b in t.pg.Buffers() :: b in old(t.pg.Buffers()) || fresh(b)
    ensures r == Lookup(Entries(t.cfg.acc, t.tree), key)
  {
    hide Repr, NodeOf, Lru.LruCache.Valid, P.Slots, Position, Stored, Leaves, LeafRecords, Entries, Lookup, HoldsNode,
      SameRecords, NumCells, IsLeaf, NextLeaf, CellPtr, DecodeCell, Below, NotBelow, P.Pager.Ready, P.Pager.StaleSlots,
      P.Pager.CachedIds;
    ghost var cfg, file, ls := t.cfg, t.pg.file, Leaves(t.tree);
    ChainOfTree(cfg, file, t.tree);
    var leafId, j := t.FindLeaf(key);
    while leafId != INVALID_PAGE
      invariant t.Valid() && t.pg.file == file
      invariant forall e | e in t.pg.cache.Repr :: e in old(t.pg.cache.Repr) || fresh(e)
      invariant forall b | b in t.pg.Buffers() :: b in old(t.pg.Buffers()) || fresh(b)
      invariant j <= |ls| && leafId == ChainId(ls, j) && Below(LeafRecords(ls[..j]), key)
      decreases |ls| - j
    {
      assert LeafStored(cfg, file, ls, j);
      ghost var nd := NodeOf(ls[j]);
      ChainLookup(ls, j, key);
      var p := t.OpenPage(leafId, nd);
      t.ReprOf(leafId, p, nd);
      var n := NumCells(p[..]);
      var idx := FindIdx(t.cfg, p, key, n, true, nd, ls[j].kvs);
      if idx < n {
        ReadRecord(cfg, p[..], ls[j], idx);
        var c := ReadCell(t.cfg.acc, p[..], idx, true);
        if c.key == key {
          return Some(c.val);
        }
        if c.key > key {
          return None;
        }
      }
      PageFacts(cfg, p[..], nd);
      leafId := NextLeaf(p[..]);
      j := j + 1;
    }
    assert j < |ls| ==> LeafStored(cfg, file, ls, j);
    ChainEnd(ls, key);
    return None;
  }

  lemma ChainEnd(ls: seq<Tree>, key: int)
    requires Below(LeafRecords(ls[..|ls|]), key)
    ensures Lookup(LeafRecords(ls), key) == None
  {
    assert ls[..|ls|] == ls;
    LookupAbsent(LeafRecords(ls), key);
  }

  // ---------------------------------------------------------------- range scan

  /** The records from index idx of leaf j on. */
  ghost function RestAt(ls: seq<Tree>, j: nat, idx: nat): seq<KV> {
    if j < |ls| && idx <= |ls[j].kvs| then ls[j].kvs[idx..] + LeafRecords(ls[j + 1..]) else []
  }

  lemma RestTake(ls: seq<Tree>, j: nat, idx: nat)
    requires j < |ls| && idx < |ls[j].kvs|
    ensures RestAt(ls, j, idx) != [] && RestAt(ls, j, idx)[0] == ls[j].kvs[idx]
    ensures RestAt(ls, j, idx)[1..] == RestAt(ls, j, idx + 1)
  {
    hide LeafRecords;
    Seqs.Behind(ls[j].kvs[idx..], LeafRecords(ls[j + 1..]));
    assert ls[j].kvs[idx..][1..] == ls[j].kvs[idx + 1..];
  }

  lemma RestAdvance(ls: seq<Tree>, j: nat)
    requires j < |ls|
    ensures RestAt(ls, j, |ls[j].kvs|) == RestAt(ls, j + 1, 0)
  {
  }

  lemma RestEnd(ls: seq<Tree>, idx: nat)
    ensures RestAt(ls, |ls|, idx) == []
  {
  }

  /** RangeIterator: a position in the chain, with the buffer of its page. */
  class RangeIterator {
    const tree: PageTree
    const end: int
    var leafId: nat
    var idx: nat
    var currPg: array?<byte>
    var k: int
    var v: Value
    /** The leaf's position in the chain. */
    ghost var j: nat

    ghost predicate Valid()
      reads this, tree, tree.pg, tree.pg.cache, tree.pg.cache.list, tree.pg.Buffers(), currPg
    {
      && tree.Valid() && tree.cfg.acc.CopyUp()
      && var ls := Leaves(tree.tree);
        && j <= |ls| && leafId == ChainId(ls, j)
        && (j < |ls| ==> ls[j].Leaf? && idx <= |ls[j].kvs|)
        && (j < |ls| && currPg != null ==> Repr(tree.cfg, currPg[..], NodeOf(ls[j])))
        && (currPg == null ==> idx == 0)
    }

    /** The records that the iterator has not passed. */
    ghost function Rest(): seq<KV>
      reads this, tree
    {
      RestAt(Leaves(tree.tree), j, idx)
    }

    /** Range: positioned before the first record at or above start. */
    constructor (t: PageTree, start: int, end: int)
      requires t.Valid() && t.cfg.acc.CopyUp() && IsKey(start)
      modifies t.pg.cache, t.pg.cache.Repr
      ensures Valid() && tree == t && this.end == end
      ensures forall e | e in t.pg.cache.Repr :: e in old(t.pg.cache.Repr) || fresh(e)
      ensures forall b | b in t.pg.Buffers() :: b in old(t.pg.Buffers()) || fresh(b)
      ensures Rest() == Entries(t.cfg.acc, t.tree)[Position(Entries(t.cfg.acc, t.tree), start, false)..]
    {
      hide Repr, NodeOf, Lru.LruCache.Valid, P.Slots, Position, Stored, Leaves, LeafRecords, Entries, HoldsNode,
        SameRecords, Below, NotBelow, P.Pager.Ready;
      ghost var cfg, file, ls := t.cfg, t.pg.file, Leaves(t.tree);
      ChainOfTree(cfg, file, t.tree);
      tree := t;
      this.end := end;
      k, v := 0, [];
      var leaf, j0 := t.FindLeaf(start);
      assert LeafStored(cfg, file, ls, j0);
      ghost var nd := NodeOf(ls[j0]);
      var p := t.OpenPage(leaf, nd);
      t.ReprOf(leaf, p, nd);
      var n := NumCells(p[..]);
      var i := FindIdx(t.cfg, p, start, n, true, nd, ls[j0].kvs);
      leafId, idx, currPg, j := leaf, i, p, j0;
      RestFrom(ls, j0, start);
    }

    /** Next: true with the next record while it does not lie beyond end. */
    method Next() returns (more: bool)
      requires Valid()
      modifies this, tree.pg.cache, tree.pg.cache.Repr
      ensures Valid()
      ensures forall e | e in tree.pg.cache.Repr :: e in old(tree.pg.cache.Repr) || fresh(e)
      ensures forall b | b in tree.pg.Buffers() :: b in old(tree.pg.Buffers()) || fresh(b)
      ensures more <==> old(Rest()) != [] && old(Rest())[0].key <= end
      ensures more ==> old(Rest())[0] == KV(k, v) && Rest() == old(Rest())[1..]
      ensures !more ==> Rest() == old(Rest())
    {
      hide Repr, NodeOf, Lru.LruCache.Valid, P.Slots, Stored, Leaves, LeafRecords, HoldsNode, SameRecords,
        P.Pager.Ready, RestAt, PageTree.Valid;
      ghost var cfg, file, ls := tree.cfg, tree.pg.file, Leaves(tree.tree);
      StoredChain();
      while leafId != INVALID_PAGE
        invariant Valid() && tree.pg.file == file
        invariant forall e | e in tree.pg.cache.Repr :: e in old(tree.pg.cache.Repr) || fresh(e)
        invariant forall b | b in tree.pg.Buffers() :: b in old(tree.pg.Buffers()) || fresh(b)
        invariant Rest() == old(Rest())
        decreases |ls| - j
      {
        assert LeafStored(cfg, file, ls, j);
        Pin();
        PageFacts(cfg, currPg[..], NodeOf(ls[j]));
        if idx < NumCells(currPg[..]) {
          more := Take();
          return;
        }
        Advance(NextLeaf(currPg[..]));
      }
      assert j < |ls| ==> LeafStored(cfg, file, ls, j);
      RestEnd(ls, idx);
      return false;
    }

    lemma StoredChain()
      requires tree.Valid() && tree.cfg.acc.CopyUp()
      ensures ChainStored(tree.cfg, tree.pg.file, Leaves(tree.tree))
    {
      hide Stored;
      ChainOfTree(tree.cfg, tree.pg.file, tree.tree);
    }

    /** The part of Next that looks at a record of the current leaf. */
    method Take() returns (more: bool)
      requires Valid() && j < |Leaves(tree.tree)| && idx < |Leaves(tree.tree)[j].kvs|
      requires currPg != null && Repr(tree.cfg, currPg[..], NodeOf(Leaves(tree.tree)[j]))
      modifies this`k, this`v, this`idx
      ensures Valid() && old(Rest()) != [] && (more <==> old(Rest())[0].key <= end)
      ensures more ==> old(Rest())[0] == KV(k, v) && Rest() == old(Rest())[1..]
      ensures !more ==> Rest() == old(Rest())
    {
      hide Repr, NodeOf, Leaves, RestAt, Stored, Lru.LruCache.Valid, P.Slots;
      ghost var ls := Leaves(tree.tree);
      RestTake(ls, j, idx);
      ReadRecord(tree.cfg, currPg[..], ls[j], idx);
      var c := ReadCell(tree.cfg.acc, currPg[..], idx, true);
      if c.key > end {
        return false;
      }
      k, v := c.key, c.val;
      idx := idx + 1;
      return true;
    }

    /** The part of Next that leaves an exhausted leaf. */
    method Advance(next: nat)
      requires Valid() && j < |Leaves(tree.tree)| && idx == |Leaves(tree.tree)[j].kvs|
      requires ChainStored(tree.cfg, tree.pg.file, Leaves(tree.tree)) && next == ChainId(Leaves(tree.tree), j + 1)
      modifies this`leafId, this`idx, this`currPg, this`j
      ensures Valid() && Rest() == old(Rest()) && j == old(j) + 1
    {
      hide Repr, NodeOf, Leaves, HoldsNode, SameRecords, RestAt, Stored, Lru.LruCache.Valid, P.Slots;
      ghost var ls := Leaves(tree.tree);
      RestAdvance(ls, j);
      assert j + 1 < |ls| ==> LeafStored(tree.cfg, tree.pg.file, ls, j + 1);
      leafId := next;
      currPg := null;
      idx := 0;
      j := j + 1;
    }

    /** The part of Next that fetches the page of the current leaf. */
    method Pin()
      requires Valid() && leafId != INVALID_PAGE && j < |Leaves(tree.tree)|
      requires LeafStored(tree.cfg, tree.pg.file, Leaves(tree.tree), j)
      modifies this`currPg, tree.pg.cache, tree.pg.cache.Repr
      ensures Valid() && tree.pg.file == old(tree.pg.file) && Rest() == old(Rest())
      ensures currPg != null && Repr(tree.cfg, currPg[..], NodeOf(Leaves(tree.tree)[j]))
      ensures forall e | e in tree.pg.cache.Repr :: e in old(tree.pg.cache.Repr) || fresh(e)
      ensures forall b | b in tree.pg.Buffers() :: b in old(tree.pg.Buffers()) || fresh(b)
    {
      hide Repr, NodeOf, Lru.LruCache.Valid, P.Slots, Stored, Leaves, HoldsNode, SameRecords, P.Pager.Ready;
      if currPg == null {
        ghost var nd := NodeOf(Leaves(tree.tree)[j]);
        var p := tree.OpenPage(leafId, nd);
        tree.ReprOf(leafId, p, nd);
        currPg := p;
      }
    }
  }

  /** The records from the found index on are the records from start on. */
  lemma RestFrom(ls: seq<Tree>, j: nat, start: int)
    requires j < |ls| && Below(LeafRecords(ls[..j]), start) && NotBelow(LeafRecords(ls[j + 1..]), start)
    requires Sorted(ls[j].kvs)
    ensures RestAt(ls, j, Position(ls[j].kvs, start, false))
      == LeafRecords(ls)[Position(LeafRecords(ls), start, false)..]
  {
    hide LeafRecords, Position;
    LeafRecordsAt(ls, j);
    var l, m, r := LeafRecords(ls[..j]), ls[j].kvs, LeafRecords(ls[j + 1..]);
    var i := Position(m, start, false);
    assert NotBelow(m[i..], start) by {
      assert i < |m| ==> forall k | i < k < |m| :: m[i].key < m[k].key;
    }
    assert m == m[..i] + m[i..];
    assert (l + m) + r == (l + m[..i]) + (m[i..] + r);
    SuffixFrom(l + m[..i], m[i..] + r, start);
  }

  /** A range scan, as the tests and the benchmarks run it: every record of the range, once, in ascending order. */
  method Scan(t: PageTree, start: int, end: int) returns (s: seq<KV>)
    requires t.Valid() && t.cfg.acc.CopyUp() && IsKey(start)
    modifies t.pg.cache, t.pg.cache.Repr
    ensures t.Valid()
    ensures s == Between(Entries(t.cfg.acc, t.tree), start, end)
  {
    hide Stored, Leaves, Entries, Between, RestAt, ScanState, Position, RangeIterator.Rest;
    ghost var all := Entries(t.cfg.acc, t.tree);
    ChainOfTree(t.cfg, t.pg.file, t.tree);
    ScanBegins(all, start, end);
    var it := new RangeIterator(t, start, end);
    s := [];
    ghost var rest := it.Rest();
    var more := it.Next();
    while more
      invariant it.Valid() && it.tree == t && it.end == end && fresh(it)
      invariant forall e | e in t.pg.cache.Repr :: e in old(t.pg.cache.Repr) || fresh(e)
      invariant ScanState(all, start, end, s, rest)
      invariant more <==> rest != [] && rest[0].key <= end
      invariant more ==> rest[0] == KV(it.k, it.v) && it.Rest() == rest[1..]
      decreases |rest|
    {
      ScanTakes(all, start, end, s, rest);
      s := s + [KV(it.k, it.v)];
      rest := it.Rest();
      more := it.Next();
    }
    ScanEnds(all, start, end, s, rest);
  }
}
