/** The B-tree's range scan: an in-order walk with an explicit stack of frames. */
module BTree {
  import opened Bytes
  import opened Records
  import opened TreeModel
  import opened Order
  import opened Contents
  import opened Shape
  import opened Layout
  import opened PageOps
  import opened Refine
  import opened Search
  import opened Database
  import opened Shared
  import Lru
  import P = Pager

  /** done: the subtree to the left of cell idx has been visited. */
  datatype Frame = Frame(id: nat, idx: nat, done: bool)

  // ---------------------------------------------------------------- what a stack has left

  ghost predicate Shaped(f: Frame, t: Tree) {
    f.idx <= |t.kvs| && (t.Inner? ==> |t.kids| == |t.kvs| + 1) && (t.Leaf? ==> !f.done)
  }

  /** The records behind the subtree of a frame's current child. */
  ghost function Behind(f: Frame, t: Tree): seq<KV>
    requires Shaped(f, t)
  {
    if t.Leaf? then [] else Post(BTreeAcc, t.kvs, t.kids, f.idx)
  }

  /** The records of the top frame's node that are still to come. */
  ghost function TopRest(f: Frame, t: Tree): seq<KV>
    requires Shaped(f, t)
  {
    if t.Leaf? then t.kvs[f.idx..]
    else if f.done then Post(BTreeAcc, t.kvs, t.kids, f.idx)
    else Entries(BTreeAcc, t.kids[f.idx]) + Post(BTreeAcc, t.kvs, t.kids, f.idx)
  }

  /** A frame below the top stands at an internal node whose child idx is being visited. */
  ghost predicate Lower(fs: seq<Frame>, ts: seq<Tree>) {
    |fs| == |ts| && forall i | 0 <= i < |fs| :: Shaped(fs[i], ts[i]) && ts[i].Inner? && !fs[i].done
  }

  ghost function LowerRest(fs: seq<Frame>, ts: seq<Tree>): seq<KV>
    requires Lower(fs, ts)
  {
    if fs == [] then [] else Behind(fs[|fs| - 1], ts[|ts| - 1]) + LowerRest(fs[..|fs| - 1], ts[..|ts| - 1])
  }

  ghost predicate Stacked(fs: seq<Frame>, ts: seq<Tree>) {
    && |fs| == |ts|
    && (fs != [] ==> Lower(fs[..|fs| - 1], ts[..|ts| - 1]) && Shaped(fs[|fs| - 1], ts[|ts| - 1]))
  }

  /** Every record that the walk has not passed. */
  ghost function StackRest(fs: seq<Frame>, ts: seq<Tree>): seq<KV>
    requires Stacked(fs, ts)
  {
    if fs == [] then []
    else TopRest(fs[|fs| - 1], ts[|ts| - 1]) + LowerRest(fs[..|fs| - 1], ts[..|ts| - 1])
  }

  // ---------------------------------------------------------------- a measure of the walk

  ghost function Count(t: Tree): (n: nat)
    ensures n >= 1
    decreases t
  {
    if t.Leaf? then 1 else 1 + CountAll(t.kids)
  }

  ghost function CountAll(kids: seq<Tree>): nat
    decreases kids
  {
    if kids == [] then 0 else Count(kids[0]) + CountAll(kids[1..])
  }

  /** The nodes that a frame has not pushed. */
  ghost function Unpushed(f: Frame, t: Tree, visiting: bool): nat
    requires Shaped(f, t)
  {
    if t.Leaf? then 0 else if f.done || visiting then CountAll(t.kids[f.idx + 1..]) else CountAll(t.kids[f.idx..])
  }

  ghost function LowerWork(fs: seq<Frame>, ts: seq<Tree>): nat
    requires Lower(fs, ts)
  {
    if fs == [] then 0
    else Unpushed(fs[|fs| - 1], ts[|ts| - 1], true) + LowerWork(fs[..|fs| - 1], ts[..|ts| - 1])
  }

  ghost function Work(fs: seq<Frame>, ts: seq<Tree>): nat
    requires Stacked(fs, ts)
  {
    if fs == [] then 0
    else Unpushed(fs[|fs| - 1], ts[|ts| - 1], false) + LowerWork(fs[..|fs| - 1], ts[..|ts| - 1])
  }

  // ---------------------------------------------------------------- the moves of Next

  /** Leaving a node with nothing left. */
  ghost function Popped(fs: seq<Frame>): seq<Frame>
    requires fs != []
  {
    var top := |fs| - 1;
    if top == 0 then [] else fs[..top][top - 1 := fs[top - 1].(done := true)]
  }

  /** An exhausted frame has nothing left to give and nothing left to push. */
  lemma Exhausted(f: Frame, t: Tree)
    requires Shaped(f, t) && f.idx == |t.kvs| && (t.Leaf? || f.done)
    ensures TopRest(f, t) == [] && Unpushed(f, t, false) == 0
  {
    hide Entries, Flat;
    assert t.Inner? ==> t.kids[f.idx + 1..] == [];
    CountNone();
  }

  lemma Pop(fs: seq<Frame>, ts: seq<Tree>)
    requires Stacked(fs, ts) && fs != []
    requires var f, t := fs[|fs| - 1], ts[|ts| - 1]; f.idx == |t.kvs| && (t.Leaf? || f.done)
    ensures var ts' := ts[..|ts| - 1];
      && Stacked(Popped(fs), ts')
      && StackRest(Popped(fs), ts') == StackRest(fs, ts)
      && Work(Popped(fs), ts') == Work(fs, ts)
  {
    hide Entries, Flat, CountAll, Post;
    var top := |fs| - 1;
    Exhausted(fs[top], ts[top]);
    var l, lt := fs[..top], ts[..top];
    assert [] + LowerRest(l, lt) == LowerRest(l, lt);
    if top > 0 {
      var u := Popped(fs);
      assert u[..top - 1] == l[..top - 1] && |u| == top;
      assert u[top - 1] == l[top - 1].(done := true);
      assert TopRest(u[top - 1], lt[top - 1]) == Behind(l[top - 1], lt[top - 1]);
    }
  }

  lemma CountNone()
    ensures CountAll([]) == 0
  {
  }

  lemma Push(fs: seq<Frame>, ts: seq<Tree>, child: Frame)
    requires Stacked(fs, ts) && fs != []
    requires var f, t := fs[|fs| - 1], ts[|ts| - 1]; t.Inner? && !f.done
    requires var c := ts[|ts| - 1].kids[fs[|fs| - 1].idx];
      child == Frame(c.id, 0, false) && (c.Inner? ==> |c.kids| == |c.kvs| + 1)
    ensures var ts' := ts + [ts[|ts| - 1].kids[fs[|fs| - 1].idx]];
      && Stacked(fs + [child], ts')
      && StackRest(fs + [child], ts') == StackRest(fs, ts)
      && Work(fs + [child], ts') < Work(fs, ts)
  {
    hide Entries, Flat, CountAll, Count, Post;
    var top := |fs| - 1;
    var f, t := fs[top], ts[top];
    var c := t.kids[f.idx];
    var fs', ts' := fs + [child], ts + [c];
    assert fs'[..|fs|] == fs && ts'[..|ts|] == ts;
    assert Lower(fs, ts);
    FirstRest(c, child);
    CountChild(t, f.idx, c);
    var e, b, r := Entries(BTreeAcc, c), Behind(f, t), LowerRest(fs[..top], ts[..top]);
    assert e + (b + r) == (e + b) + r;
  }

  /** A node just pushed has all of its records to come. */
  lemma FirstRest(c: Tree, child: Frame)
    requires child.idx == 0 && !child.done && (c.Inner? ==> |c.kids| == |c.kvs| + 1)
    ensures Shaped(child, c) && TopRest(child, c) == Entries(BTreeAcc, c)
  {
    if c.Inner? {
      hide Flat;
      FlatHead(BTreeAcc, c.kvs, c.kids);
    }
  }

  lemma CountChild(t: Tree, i: nat, c: Tree)
    requires t.Inner? && i < |t.kids| && c == t.kids[i]
    ensures CountAll(t.kids[i..]) == Count(c) + CountAll(t.kids[i + 1..])
    ensures c.Inner? ==> CountAll(c.kids[0..]) == Count(c) - 1
  {
  }

  lemma TakeLeaf(fs: seq<Frame>, ts: seq<Tree>)
    requires Stacked(fs, ts) && fs != []
    requires var f, t := fs[|fs| - 1], ts[|ts| - 1]; t.Leaf? && f.idx < |t.kvs|
    ensures var top := |fs| - 1;
      var fs' := fs[top := fs[top].(idx := fs[top].idx + 1)];
      && Stacked(fs', ts)
      && StackRest(fs, ts) == [ts[top].kvs[fs[top].idx]] + StackRest(fs', ts)
  {
    hide Entries, Flat;
    var top := |fs| - 1;
    var f, t := fs[top], ts[top];
    var fs' := fs[top := f.(idx := f.idx + 1)];
    assert fs'[..top] == fs[..top];
    assert t.kvs[f.idx..] == [t.kvs[f.idx]] + t.kvs[f.idx + 1..];
    var r := LowerRest(fs[..top], ts[..top]);
    assert ([t.kvs[f.idx]] + t.kvs[f.idx + 1..]) + r == [t.kvs[f.idx]] + (t.kvs[f.idx + 1..] + r);
  }

  lemma TakeInner(fs: seq<Frame>, ts: seq<Tree>)
    requires Stacked(fs, ts) && fs != []
    requires var f, t := fs[|fs| - 1], ts[|ts| - 1]; t.Inner? && f.done && f.idx < |t.kvs|
    ensures var top := |fs| - 1;
      var fs' := fs[top := Frame(fs[top].id, fs[top].idx + 1, false)];
      && Stacked(fs', ts)
      && StackRest(fs, ts) == [ts[top].kvs[fs[top].idx]] + StackRest(fs', ts)
  {
    hide Entries, Flat;
    var top := |fs| - 1;
    var f, t := fs[top], ts[top];
    var fs' := fs[top := Frame(f.id, f.idx + 1, false)];
    assert fs'[..top] == fs[..top];
    InnerRest(f, t);
    var r, x, y := LowerRest(fs[..top], ts[..top]), [t.kvs[f.idx]], TopRest(fs'[top], t);
    assert (x + y) + r == x + (y + r);
  }

  lemma InnerRest(f: Frame, t: Tree)
    requires Shaped(f, t) && t.Inner? && f.done && f.idx < |t.kvs|
    ensures TopRest(f, t) == [t.kvs[f.idx]] + TopRest(Frame(f.id, f.idx + 1, false), t)
  {
    hide Entries, Flat;
    var i := f.idx + 1;
    FlatHead(BTreeAcc, t.kvs[i..], t.kids[i..]);
    assert t.kids[i..][0] == t.kids[i];
    if i < |t.kvs| {
      assert t.kvs[i..][1..] == t.kvs[i + 1..] && t.kids[i..][1..] == t.kids[i + 1..];
    }
  }

  // ---------------------------------------------------------------- the iterator

  /** The frame stands on the page of its node. */
  ghost predicate FrameHeld(cfg: Cfg, file: seq<Page>, f: Frame, t: Tree) {
    f.id == t.id && Holds(cfg, file, t)
  }

  ghost predicate StackHeld(cfg: Cfg, file: seq<Page>, fs: seq<Frame>, ts: seq<Tree>) {
    Stacked(fs, ts) && forall i | 0 <= i < |fs| :: FrameHeld(cfg, file, fs[i], ts[i])
  }

  /** One step of the descent to start: what lies before the child is smaller, what lies behind it is not. */
  lemma StepToStart(t: Tree, i: nat, start: int, lo: int, hi: int)
    requires t.Inner? && |t.kids| == |t.kvs| + 1 && Ordered(BTreeAcc, false, t, lo, hi) && lo <= start <= hi
    requires i == Position(t.kvs, start, false)
    ensures Entries(BTreeAcc, t)
        == Pre(BTreeAcc, t.kvs[..i], t.kids[..i]) + (Entries(BTreeAcc, t.kids[i]) + Post(BTreeAcc, t.kvs, t.kids, i))
    ensures Below(Pre(BTreeAcc, t.kvs[..i], t.kids[..i]), start) && NotBelow(Post(BTreeAcc, t.kvs, t.kids, i), start)
    ensures Ordered(BTreeAcc, false, t.kids[i], Lo(BTreeAcc, t.kvs, i, lo), Hi(t.kvs, i, hi))
    ensures Lo(BTreeAcc, t.kvs, i, lo) <= start <= Hi(t.kvs, i, hi)
  {
    KidOrdered(BTreeAcc, false, t.kvs, t.kids, i, lo, hi);
    hide Entries, Post, KidsOrdered, Flat;
    Around(BTreeAcc, t, i, lo, hi);
    assert i == 0 ==> Pre(BTreeAcc, t.kvs[..i], t.kids[..i]) == [];
  }

  /** The state of the descent: a holds the smaller records, the frames so far hold the records behind. */
  ghost predicate Descending(all: seq<KV>, a: seq<KV>, cur: Tree, fs: seq<Frame>, ts: seq<Tree>, start: int) {
    Lower(fs, ts) && all == a + (Entries(BTreeAcc, cur) + LowerRest(fs, ts)) && Below(a, start)
        && NotBelow(LowerRest(fs, ts), start)
  }

  lemma DescendOne(all: seq<KV>, a: seq<KV>, t: Tree, fs: seq<Frame>, ts: seq<Tree>, i: nat, start: int, lo: int,
      hi: int)
    requires t.Inner? && |t.kids| == |t.kvs| + 1 && Ordered(BTreeAcc, false, t, lo, hi) && lo <= start <= hi
    requires i == Position(t.kvs, start, false) && Descending(all, a, t, fs, ts, start)
    ensures Descending(all, a + Pre(BTreeAcc, t.kvs[..i], t.kids[..i]), t.kids[i],
        fs + [Frame(t.id, i, false)], ts + [t], start)
  {
    hide Entries, Post, Pre, Ordered, Position, Below, NotBelow;
    StepToStart(t, i, start, lo, hi);
    var f := Frame(t.id, i, false);
    var fs', ts' := fs + [f], ts + [t];
    assert fs'[..|fs|] == fs && ts'[..|ts|] == ts;
    assert LowerRest(fs', ts') == Behind(f, t) + LowerRest(fs, ts);
    var p, e, b, r := Pre(BTreeAcc, t.kvs[..i], t.kids[..i]), Entries(BTreeAcc, t.kids[i]), Behind(f, t),
        LowerRest(fs, ts);
    SidesAppend(a, p, start);
    SidesAppend(b, r, start);
    hide LowerRest;
    assert a + ((p + (e + b)) + r) == (a + p) + (e + (b + r));
  }

  lemma DescendLast(all: seq<KV>, a: seq<KV>, t: Tree, fs: seq<Frame>, ts: seq<Tree>, i: nat, start: int, lo: int,
      hi: int)
    requires t.Leaf? && Ordered(BTreeAcc, false, t, lo, hi) && i == Position(t.kvs, start, false)
    requires Descending(all, a, t, fs, ts, start)
    ensures Stacked(fs + [Frame(t.id, i, false)], ts + [t])
    ensures StackRest(fs + [Frame(t.id, i, false)], ts + [t]) == all[Position(all, start, false)..]
  {
    hide Position, LowerRest, Below, NotBelow;
    var f := Frame(t.id, i, false);
    var fs', ts' := fs + [f], ts + [t];
    assert fs'[..|fs|] == fs && ts'[..|ts|] == ts;
    var m, r := t.kvs, LowerRest(fs, ts);
    SidesOfPosition(m, start);
    SidesAppend(a, m[..i], start);
    SidesAppend(m[i..], r, start);
    assert StackRest(fs', ts') == m[i..] + r;
    hide Ordered, StackRest;
    assert m == m[..i] + m[i..];
    assert a + (m + r) == (a + m[..i]) + (m[i..] + r);
    SuffixFrom(a + m[..i], m[i..] + r, start);
  }

  class RangeIterator {
    const tree: PageTree
    const end: int
    var stack: seq<Frame>
    var k: int
    var v: Value
    /** The nodes that the frames stand at. */
    ghost var nodes: seq<Tree>

    ghost predicate Valid()
      reads this, tree, tree.pg, tree.pg.cache, tree.pg.cache.list, tree.pg.Buffers()
    {
      tree.Valid() && !tree.cfg.acc.CopyUp() && StackHeld(tree.cfg, tree.pg.file, stack, nodes)
    }

    /** The records that the iterator has not passed. */
    ghost function Rest(): seq<KV>
      requires Stacked(stack, nodes)
      reads this
    {
      StackRest(stack, nodes)
    }

    /** Range: positioned before the first record at or above start. */
    constructor (t: PageTree, start: int, end: int)
      requires t.Valid() && !t.cfg.acc.CopyUp() && IsKey(start)
      modifies t.pg.cache, t.pg.cache.Repr
      ensures Valid() && tree == t && this.end == end
      ensures forall e | e in t.pg.cache.Repr :: e in old(t.pg.cache.Repr) || fresh(e)
      ensures forall b | b in t.pg.Buffers() :: b in old(t.pg.Buffers()) || fresh(b)
      ensures Rest() == Entries(t.cfg.acc, t.tree)[Position(Entries(t.cfg.acc, t.tree), start, false)..]
    {
      hide Repr, NodeOf, Lru.LruCache.Valid, P.Slots, Position, Stored, Entries, Holds, Ordered, P.Pager.Ready,
        Descending, StackRest, Lo, Hi, Pre;
      RootFacts(t.cfg, t.pg.file, t.tree);
      tree := t;
      this.end := end;
      k, v := 0, [];
      ghost var file, all := t.pg.file, Entries(t.cfg.acc, t.tree);
      var curr := t.rootId;
      var fs: seq<Frame> := [];
      ghost var cur, lo, hi, a, ts := t.tree, MIN_KEY, MAX_KEY + 1, [], [];
      DescendFirst(cur, start);
      while true
        invariant t.pg.Ready() && t.pg.file == file
        invariant forall e | e in t.pg.cache.Repr :: e in old(t.pg.cache.Repr) || fresh(e)
        invariant forall b | b in t.pg.Buffers() :: b in old(t.pg.Buffers()) || fresh(b)
        invariant Holds(t.cfg, file, cur) && cur.id == curr && Ordered(BTreeAcc, false, cur, lo, hi)
          && lo <= start <= hi
        invariant Descending(all, a, cur, fs, ts, start)
        invariant |fs| == |ts| && forall i | 0 <= i < |fs| :: FrameHeld(t.cfg, file, fs[i], ts[i])
        decreases cur
      {
        var p, n, leaf, idx := t.Visit(curr, start, cur, lo, hi);
        if leaf {
          DescendLast(all, a, cur, fs, ts, idx, start, lo, hi);
          fs, ts := fs + [Frame(curr, idx, false)], ts + [cur];
          break;
        }
        ChildIsKid(t.cfg, p[..], cur, idx);
        StepToStart(cur, idx, start, lo, hi);
        DescendOne(all, a, cur, fs, ts, idx, start, lo, hi);
        KidHeld(t.cfg, file, cur, idx);
        fs, ts := fs + [Frame(curr, idx, false)], ts + [cur];
        curr := ChildAt(t.cfg.acc, p[..], idx, n);
        a := a + Pre(BTreeAcc, cur.kvs[..idx], cur.kids[..idx]);
        cur, lo, hi := cur.kids[idx], Lo(BTreeAcc, cur.kvs, idx, lo), Hi(cur.kvs, idx, hi);
      }
      stack, nodes := fs, ts;
    }

    /** The part of Next that reads the page of the top frame. */
    method ReadTop() returns (p: array<byte>)
      requires Valid() && stack != []
      modifies tree.pg.cache, tree.pg.cache.Repr
      ensures Valid() && tree.pg.file == old(tree.pg.file)
      ensures forall e | e in tree.pg.cache.Repr :: e in old(tree.pg.cache.Repr) || fresh(e)
      ensures forall b | b in tree.pg.Buffers() :: b in old(tree.pg.Buffers()) || fresh(b)
      ensures TopShaped(stack, nodes)
      ensures var t := nodes[|nodes| - 1];
        Repr(tree.cfg, p[..], NodeOf(t)) && |p[..]| >= HEADER && IsLeaf(p[..]) == t.Leaf? && NumCells(p[..]) == |t.kvs|
    {
      hide Repr, NodeOf, Lru.LruCache.Valid, P.Slots, Holds, P.Pager.Ready, Stored, HoldsNode;
      TopFacts(tree.cfg, tree.pg.file, stack, nodes);
      ghost var nd := NodeOf(nodes[|nodes| - 1]);
      p := tree.OpenPage(stack[|stack| - 1].id, nd);
      tree.ReprOf(stack[|stack| - 1].id, p, nd);
    }

    /** The part of Next that has read the record at the top frame's index. */
    method Take(key: int, val: Value) returns (more: bool)
      requires Valid() && TopShaped(stack, nodes) && TopHas(stack, nodes, key, val)
      modifies this`k, this`v, this`stack
      ensures Valid()
      ensures old(Rest()) != [] && (more <==> old(Rest())[0].key <= end)
      ensures more ==> old(Rest())[0] == KV(k, v) && Rest() == old(Rest())[1..]
      ensures !more ==> Rest() == old(Rest())
    {
      hide Stored, Lru.LruCache.Valid, P.Slots, Holds, StackRest, Stacked, Entries;
      var top := |stack| - 1;
      var f := stack[top];
      if nodes[top].Leaf? {
        TakeLeaf(stack, nodes);
      } else {
        TakeInner(stack, nodes);
      }
      if key > end {
        return false;
      }
      k, v := key, val;
      stack := stack[top := Frame(f.id, f.idx + 1, false)];
      return true;
    }

    /** The part of Next that leaves an exhausted node. */
    method Leave()
      requires Valid() && TopShaped(stack, nodes)
      requires var f, t := stack[|stack| - 1], nodes[|nodes| - 1]; f.idx == |t.kvs| && (t.Leaf? || f.done)
      modifies this`stack, this`nodes
      ensures Valid() && Rest() == old(Rest())
      ensures Work(stack, nodes) == old(Work(stack, nodes)) && |stack| < old(|stack|)
    {
      hide Stored, Lru.LruCache.Valid, P.Slots, Holds, StackRest, Stacked, Work;
      Pop(stack, nodes);
      var top := |stack| - 1;
      ghost var fs, ts := stack, nodes;
      stack := stack[..top];
      if top > 0 {
        stack := stack[top - 1 := stack[top - 1].(done := true)];
      }
      nodes := nodes[..top];
      forall i | 0 <= i < |stack|
        ensures FrameHeld(tree.cfg, tree.pg.file, stack[i], nodes[i])
      {
        assert FrameHeld(tree.cfg, tree.pg.file, fs[i], ts[i]);
      }
    }

    /** The part of Next that goes down to the child at the top frame's index. */
    method Enter(p: array<byte>)
      requires Valid() && TopShaped(stack, nodes)
      requires var f, t := stack[|stack| - 1], nodes[|nodes| - 1];
        t.Inner? && !f.done && Repr(tree.cfg, p[..], NodeOf(t))
      modifies this`stack, this`nodes
      ensures Valid() && Rest() == old(Rest())
      ensures Work(stack, nodes) < old(Work(stack, nodes))
    {
      hide Repr, NodeOf, Stored, Lru.LruCache.Valid, P.Slots, Holds, StackRest, Stacked, Work;
      var f := stack[|stack| - 1];
      ghost var t := nodes[|nodes| - 1];
      assert FrameHeld(tree.cfg, tree.pg.file, f, t);
      KidHeld(tree.cfg, tree.pg.file, t, f.idx);
      ghost var kid := t.kids[f.idx];
      HeldShape(tree.cfg, tree.pg.file, kid);
      ChildIsKid(tree.cfg, p[..], t, f.idx);
      NumCellsOf(tree.cfg, p[..], t);
      var child := Frame(ChildAt(tree.cfg.acc, p[..], f.idx, NumCells(p[..])), 0, false);
      Push(stack, nodes, child);
      stack := stack + [child];
      nodes := nodes + [kid];
    }

    /** Next: true with the next record while it does not lie beyond end. */
    method Next() returns (more: bool)
      requires Valid()
      modifies this, tree.pg.cache, tree.pg.cache.Repr
      ensures Valid()
      ensures forall e | e in tree.pg.cache.Repr :: e in old(tree.pg.cache.Repr) || fresh(e)
      ensures forall b | b in tree.pg.Buffers() :: b in old(tree.pg.Buffers()) || fresh(b)
      ensures more <==> old(Rest()) != [] && old(Rest())[0].key <= end
      ensures more ==> old(Rest())[0] == KV(k, v) && Rest() == old(Rest())[1..]
      ensures !more ==> Rest() == old(Rest())
    {
      hide Repr, NodeOf, Lru.LruCache.Valid, P.Slots, Holds, P.Pager.Ready, StackRest, Work, PageTree.Valid, Popped,
        Lower, NumCells, IsLeaf, DecodeCell, CellPtr, P.Pager.StaleSlots, P.Pager.CachedIds;
      ghost var file := tree.pg.file;
      while |stack| > 0
        invariant Valid() && tree.pg.file == file
        invariant forall e | e in tree.pg.cache.Repr :: e in old(tree.pg.cache.Repr) || fresh(e)
        invariant forall b | b in tree.pg.Buffers() :: b in old(tree.pg.Buffers()) || fresh(b)
        invariant Rest() == old(Rest())
        decreases Work(stack, nodes), |stack|
      {
        var top := |stack| - 1;
        var f := stack[top];
        var p := ReadTop();
        if IsLeaf(p[..]) {
          if f.idx < NumCells(p[..]) {
            TopRecord(tree.cfg, p[..], stack, nodes);
            var c := ReadCell(tree.cfg.acc, p[..], f.idx, true);
            more := Take(c.key, c.val);
            return;
          }
          Leave();
        } else if !f.done {
          Enter(p);
        } else if f.idx < NumCells(p[..]) {
          TopRecord(tree.cfg, p[..], stack, nodes);
          var c := ReadCell(tree.cfg.acc, p[..], f.idx, false);
          more := Take(c.key, c.val);
          return;
        } else {
          Leave();
        }
      }
      NoneLeft(nodes);
      return false;
    }
  }

  lemma NoneLeft(ts: seq<Tree>)
    requires Stacked([], ts)
    ensures StackRest([], ts) == []
  {
  }

  ghost predicate TopShaped(fs: seq<Frame>, ts: seq<Tree>) {
    fs != [] && |ts| == |fs| && Shaped(fs[|fs| - 1], ts[|ts| - 1])
  }

  /** The next record is the one at the top frame's index. */
  ghost predicate TopHas(fs: seq<Frame>, ts: seq<Tree>, key: int, val: Value)
    requires TopShaped(fs, ts)
  {
    var f, t := fs[|fs| - 1], ts[|ts| - 1];
    f.idx < |t.kvs| && (t.Leaf? || f.done) && t.kvs[f.idx] == KV(key, val)
  }

  lemma TopRecord(cfg: Cfg, s: Page, fs: seq<Frame>, ts: seq<Tree>)
    requires TopShaped(fs, ts) && !cfg.acc.CopyUp()
    requires var f, t := fs[|fs| - 1], ts[|ts| - 1]; Repr(cfg, s, NodeOf(t)) && f.idx < |t.kvs| && (t.Leaf? || f.done)
    ensures var f, t := fs[|fs| - 1], ts[|ts| - 1];
      && |s| >= HEADER && IsLeaf(s) == t.Leaf?
      && HEADER + SLOT * f.idx + SLOT <= |s| && CellPtr(s, f.idx) + cfg.acc.CellSize(t.Leaf?, 0) <= |s|
      && var c := ReadCell(cfg.acc, s, f.idx, t.Leaf?); TopHas(fs, ts, c.key, c.val)
  {
    hide Repr;
    ReadRecord(cfg, s, ts[|ts| - 1], fs[|fs| - 1].idx);
    NumCellsOf(cfg, s, ts[|ts| - 1]);
  }

  lemma TopFacts(cfg: Cfg, file: seq<Page>, fs: seq<Frame>, ts: seq<Tree>)
    requires StackHeld(cfg, file, fs, ts) && fs != []
    ensures TopShaped(fs, ts)
    ensures var f, t := fs[|fs| - 1], ts[|ts| - 1];
      && f.id == t.id && (t.Inner? ==> |t.kids| == |t.kvs| + 1)
      && HoldsNode(cfg, file, t.id, NodeOf(t)) && NodeOf(t).leaf == t.Leaf? && |NodeOf(t).cells| == |t.kvs|
  {
    hide Lower, HoldsNode;
    assert FrameHeld(cfg, file, fs[|fs| - 1], ts[|ts| - 1]);
  }

  lemma HeldShape(cfg: Cfg, file: seq<Page>, t: Tree)
    requires Holds(cfg, file, t)
    ensures t.Inner? ==> |t.kids| == |t.kvs| + 1
  {
    hide HoldsNode, NodeOf;
  }

  lemma NumCellsOf(cfg: Cfg, s: Page, t: Tree)
    requires (t.Inner? ==> |t.kids| == |t.kvs| + 1) && Repr(cfg, s, NodeOf(t))
    ensures |s| >= HEADER && NumCells(s) == |t.kvs| && IsLeaf(s) == t.Leaf?
  {
    hide Repr;
    PageFacts(cfg, s, NodeOf(t));
  }

  lemma DescendFirst(t: Tree, start: int)
    ensures Descending(Entries(BTreeAcc, t), [], t, [], [], start)
  {
    hide Entries;
    assert Entries(BTreeAcc, t) == [] + (Entries(BTreeAcc, t) + []);
  }

  lemma KidHeld(cfg: Cfg, file: seq<Page>, t: Tree, i: nat)
    requires t.Inner? && Holds(cfg, file, t) && i < |t.kids|
    ensures Holds(cfg, file, t.kids[i])
  {
    hide HoldsNode, NodeOf;
    assert HoldsAll(cfg, file, t.kids);
  }

  lemma StoredSorted(cfg: Cfg, file: seq<Page>, t: Tree)
    requires Stored(cfg, file, t)
    ensures Sorted(Entries(cfg.acc, t))
  {
    hide Holds, Ordered, Uniform, Pages, Entries;
    EntriesSorted(cfg.acc, false, t, MIN_KEY, MAX_KEY + 1);
  }

  /** A range scan, as the tests and the benchmarks run it: every record of the range, once, in ascending order. */
  method Scan(t: PageTree, start: int, end: int) returns (s: seq<KV>)
    requires t.Valid() && !t.cfg.acc.CopyUp() && IsKey(start)
    modifies t.pg.cache, t.pg.cache.Repr
    ensures t.Valid()
    ensures s == Between(Entries(t.cfg.acc, t.tree), start, end)
  {
    hide Stored, Entries, Between, ScanState, Position, StackRest, Stacked, FrameHeld;
    ghost var all := Entries(t.cfg.acc, t.tree);
    StoredSorted(t.cfg, t.pg.file, t.tree);
    ScanBegins(all, start, end);
    var it := new RangeIterator(t, start, end);
    s := [];
    ghost var rest := it.Rest();
    var more := it.Next();
    while more
      invariant it.Valid() && it.tree == t && it.end == end && fresh(it)
      invariant forall e | e in t.pg.cache.Repr :: e in old(t.pg.cache.Repr) || fresh(e)
      invariant ScanState(all, start, end, s, rest)
      invariant more <==> rest != [] && rest[0].key <= end
      invariant more ==> rest[0] == KV(it.k, it.v) && it.Rest() == rest[1..]
      decreases |rest|
    {
      ScanTakes(all, start, end, s, rest);
      s := s + [KV(it.k, it.v)];
      rest := it.Rest();
      more := it.Next();
    }
    ScanEnds(all, start, end, s, rest);
  }
}
