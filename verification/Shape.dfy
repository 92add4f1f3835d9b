/** Depth, page ids and the leaf chain: what one insert does to the form of a tree. */
module Shape {
  import opened Bytes
  import Seqs
  import opened Records
  import opened TreeModel

  /** All leaves lie at depth h, and every internal node has one child more than it has cells. */
  ghost predicate Uniform(t: Tree, h: nat)
    decreases t
  {
    if t.Leaf? then h == 1
    else
      && h > 1
      && |t.kids| == |t.kvs| + 1
      && forall j | 0 <= j < |t.kids| :: Uniform(t.kids[j], h - 1)
  }

  /** The leaves from left to right. */
  function Leaves(t: Tree): seq<Tree>
    decreases t
  {
    if t.Leaf? then [t] else LeavesOf(t.kids)
  }

  function LeavesOf(kids: seq<Tree>): seq<Tree>
    decreases kids
  {
    if kids == [] then [] else Leaves(kids[0]) + LeavesOf(kids[1..])
  }

  /** Every page of the tree, as often as the tree refers to it. */
  function Pages(t: Tree): multiset<nat>
    decreases t
  {
    if t.Leaf? then multiset{t.id} else multiset{t.id} + PagesOf(t.kids)
  }

  function PagesOf(kids: seq<Tree>): multiset<nat>
    decreases kids
  {
    if kids == [] then multiset{} else Pages(kids[0]) + PagesOf(kids[1..])
  }

  /** The page ids lo, lo + 1, ..., hi - 1, once each. */
  function Fresh(lo: nat, hi: nat): multiset<nat>
    requires lo <= hi
    decreases hi
  {
    if lo == hi then multiset{} else Fresh(lo, hi - 1) + multiset{hi - 1}
  }

  lemma {:induction false} FreshAppend(a: nat, b: nat, c: nat)
    requires a <= b <= c
    ensures Fresh(a, b) + Fresh(b, c) == Fresh(a, c)
    decreases c
  {
    if b < c {
      FreshAppend(a, b, c - 1);
    }
  }

  lemma {:induction false} FreshCount(lo: nat, hi: nat, x: nat)
    requires lo <= hi
    ensures Fresh(lo, hi)[x] == if lo <= x < hi then 1 else 0
    decreases hi
  {
    if lo < hi {
      FreshCount(lo, hi - 1, x);
    }
  }

  lemma FreshFew(p: nat)
    ensures Fresh(p, p) == multiset{} && Fresh(p, p + 1) == multiset{p}
  {
  }

  ghost predicate Link(ls: seq<Tree>, end: nat, i: nat)
    requires i < |ls|
  {
    ls[i].Leaf? && ls[i].next == if i + 1 < |ls| then ls[i + 1].id else end
  }

  /** ls is linked from left to right, and its last leaf points to end. */
  ghost predicate Chained(ls: seq<Tree>, end: nat) {
    forall i | 0 <= i < |ls| :: Link(ls, end, i)
  }

  // ---------------------------------------------------------------- lists of children

  lemma {:induction false} LeavesAppend(a: seq<Tree>, b: seq<Tree>)
    ensures LeavesOf(a + b) == LeavesOf(a) + LeavesOf(b)
  {
    hide Leaves;
    if a == [] {
      assert a + b == b;
    } else {
      LeavesAppend(a[1..], b);
      Seqs.Behind(a, b);
      Seqs.Assoc(Leaves(a[0]), LeavesOf(a[1..]), LeavesOf(b));
    }
  }

  lemma {:induction false} PagesAppend(a: seq<Tree>, b: seq<Tree>)
    ensures PagesOf(a + b) == PagesOf(a) + PagesOf(b)
  {
    hide Pages;
    if a == [] {
      assert a + b == b;
    } else {
      PagesAppend(a[1..], b);
      Seqs.Behind(a, b);
    }
  }

  lemma ListAppend(a: seq<Tree>, b: seq<Tree>)
    ensures LeavesOf(a + b) == LeavesOf(a) + LeavesOf(b)
    ensures PagesOf(a + b) == PagesOf(a) + PagesOf(b)
  {
    LeavesAppend(a, b);
    PagesAppend(a, b);
  }

  lemma ListOne(c: Tree)
    ensures LeavesOf([c]) == Leaves(c) && PagesOf([c]) == Pages(c)
  {
    hide Leaves, Pages;
    assert [c][1..] == [];
    assert LeavesOf([c]) == Leaves(c) + [];
  }

  lemma ListSplit(kids: seq<Tree>, i: nat)
    requires i < |kids|
    ensures LeavesOf(kids) == LeavesOf(kids[..i]) + Leaves(kids[i]) + LeavesOf(kids[i + 1..])
    ensures PagesOf(kids) == PagesOf(kids[..i]) + Pages(kids[i]) + PagesOf(kids[i + 1..])
  {
    hide *;
    Seqs.Around(kids, i);
    ListAppend(kids[..i] + [kids[i]], kids[i + 1..]);
    ListAppend(kids[..i], [kids[i]]);
    ListOne(kids[i]);
  }

  lemma ListReplace(kids: seq<Tree>, i: nat, c: Tree)
    requires i < |kids|
    ensures LeavesOf(kids[i := c]) == LeavesOf(kids[..i]) + Leaves(c) + LeavesOf(kids[i + 1..])
    ensures PagesOf(kids[i := c]) == PagesOf(kids[..i]) + Pages(c) + PagesOf(kids[i + 1..])
  {
    hide *;
    var kids' := kids[i := c];
    ListSplit(kids', i);
    assert kids'[..i] == kids[..i] && kids'[i + 1..] == kids[i + 1..];
  }

  lemma ListSplice(kids: seq<Tree>, i: nat, l: Tree, r: Tree)
    requires i < |kids|
    ensures LeavesOf(InsertAt(kids[i := l], i + 1,
        r)) == LeavesOf(kids[..i]) + (Leaves(l) + Leaves(r)) + LeavesOf(kids[i + 1..])
    ensures PagesOf(InsertAt(kids[i := l], i + 1,
        r)) == PagesOf(kids[..i]) + (Pages(l) + Pages(r)) + PagesOf(kids[i + 1..])
  {
    var kids' := InsertAt(kids[i := l], i + 1, r);
    assert kids' == kids[..i] + ([l] + [r]) + kids[i + 1..];
    hide *;
    ListAppend(kids[..i] + ([l] + [r]), kids[i + 1..]);
    ListAppend(kids[..i], [l] + [r]);
    ListAppend([l], [r]);
    ListOne(l);
    ListOne(r);
  }

  // ---------------------------------------------------------------- one insert

  function OutLeaves(out: Out): seq<Tree> {
    match out
    case Done(t) => Leaves(t)
    case Split(l, m, r) => Leaves(l) + Leaves(r)
    case Broken => []
  }

  function OutPages(out: Out): multiset<nat> {
    match out
    case Done(t) => Pages(t)
    case Split(l, m, r) => Pages(l) + Pages(r)
    case Broken => multiset{}
  }

  ghost predicate OutUniform(out: Out, h: nat) {
    match out
    case Done(t) => Uniform(t, h)
    case Split(l, m, r) => Uniform(l, h) && Uniform(r, h)
    case Broken => true
  }

  /** doInsert at an internal node: the children of the result, left to right, and the pages it takes. */
  lemma InnerPutShape(cfg: Cfg, t: Tree, i: nat, l: Tree, m: KV, r: Tree, pages: nat)
    requires t.Inner? && |t.kids| == |t.kvs| + 1 && i <= |t.kvs|
    requires !InnerPut(cfg, t, i, l, m, r, pages).out.Broken?
    ensures var ins := InnerPut(cfg, t, i, l, m, r, pages);
      && OutLeaves(ins.out) == LeavesOf(InsertAt(t.kids[i := l], i + 1, r))
      && pages <= ins.pages
      && OutPages(ins.out) == multiset{t.id} + PagesOf(InsertAt(t.kids[i := l], i + 1, r)) + Fresh(pages, ins.pages)
  {
    hide LeavesOf, PagesOf, Used, Fits, RoomFor, InsertAt, Fresh;
    var all, kids := InsertAt(t.kvs, i, m), InsertAt(t.kids[i := l], i + 1, r);
    var ins := InnerPut(cfg, t, i, l, m, r, pages);
    FreshFew(pages);
    if ins.out.Split? {
      var mid := |all| / 2;
      ListAppend(kids[..mid + 1], kids[mid + 1..]);
      assert kids == kids[..mid + 1] + kids[mid + 1..];
    } else {
      assert ins.out.Done? && ins.out.t.kids == kids;
    }
  }

  lemma InnerPutUniform(cfg: Cfg, t: Tree, i: nat, l: Tree, m: KV, r: Tree, pages: nat, h: nat)
    requires t.Inner? && Uniform(t, h) && |t.kids| == |t.kvs| + 1 && i <= |t.kvs|
    requires h > 1 && Uniform(l, h - 1) && Uniform(r, h - 1)
    ensures OutUniform(InnerPut(cfg, t, i, l, m, r, pages).out, h)
  {
    hide Used, Fits, RoomFor;
    var kids := InsertAt(t.kids[i := l], i + 1, r);
    assert forall j | 0 <= j < |kids| :: Uniform(kids[j], h - 1);
  }

  lemma {:induction false} InsertUniform(cfg: Cfg, t: Tree, key: int, val: Value, pages: nat, h: nat)
    requires Uniform(t, h)
    ensures OutUniform(InsRec(cfg, t, key, val, pages).out, h)
    decreases t
  {
    hide InnerPut, Used, Fits, RoomFor, Position, InsertAt, RemoveAt;
    var i := Position(t.kvs, key, cfg.acc.Upper(t.Leaf?));
    if t.Inner? && !(i < |t.kvs| && t.kvs[i].key == key) {
      InsertUniform(cfg, t.kids[i], key, val, pages, h - 1);
      var sub := InsRec(cfg, t.kids[i], key, val, pages);
      if sub.out.Split? {
        InnerPutUniform(cfg, t, i, sub.out.l, sub.out.m, sub.out.r, sub.pages, h);
      }
    }
  }

  lemma LeafPages(cfg: Cfg, t: Tree, key: int, val: Value, pages: nat)
    requires t.Leaf? && !InsRec(cfg, t, key, val, pages).out.Broken?
    ensures var ins := InsRec(cfg, t, key, val, pages);
      pages <= ins.pages && OutPages(ins.out) == Pages(t) + Fresh(pages, ins.pages)
  {
    hide Used, Fits, Fresh, PagesOf, Position, InsertAt, RemoveAt, LeafPut;
    FreshFew(pages);
    var i := Position(t.kvs, key, cfg.acc.Upper(true));
    var found := i < |t.kvs| && t.kvs[i].key == key;
    if !(found && |val| <= |t.kvs[i].val|) {
      LeafPutPages(cfg, if found then Leaf(t.id, RemoveAt(t.kvs, i), t.content, t.next) else t, i, KV(key, val), pages);
    }
  }

  lemma LeafPutPages(cfg: Cfg, t: Tree, i: nat, kv: KV, pages: nat)
    requires t.Leaf? && i <= |t.kvs| && !LeafPut(cfg, t, i, kv, pages).out.Broken?
    ensures var ins := LeafPut(cfg, t, i, kv, pages);
      pages <= ins.pages && OutPages(ins.out) == Pages(t) + Fresh(pages, ins.pages)
  {
    hide Used, Fits, Fresh, PagesOf, InsertAt, RoomFor;
    FreshFew(pages);
  }

  /** No page is lost, shared or leaked: the result has the old pages and exactly the newly allocated ones. */
  lemma {:induction false} InsertPages(cfg: Cfg, t: Tree, key: int, val: Value, pages: nat)
    requires !InsRec(cfg, t, key, val, pages).out.Broken?
    ensures var ins := InsRec(cfg, t, key, val, pages);
      pages <= ins.pages && OutPages(ins.out) == Pages(t) + Fresh(pages, ins.pages)
    decreases t
  {
    hide InnerPut, LeafPut, Used, Fits, RoomFor, PagesOf, Fresh;
    FreshFew(pages);
    var i := Position(t.kvs, key, cfg.acc.Upper(t.Leaf?));
    if t.Leaf? {
      LeafPages(cfg, t, key, val, pages);
    } else if !(i < |t.kvs| && t.kvs[i].key == key) {
      InsertPages(cfg, t.kids[i], key, val, pages);
      var sub := InsRec(cfg, t.kids[i], key, val, pages);
      ListSplit(t.kids, i);
      if sub.out.Split? {
        ListSplice(t.kids, i, sub.out.l, sub.out.r);
        InnerPutShape(cfg, t, i, sub.out.l, sub.out.m, sub.out.r, sub.pages);
        FreshAppend(pages, sub.pages, InsRec(cfg, t, key, val, pages).pages);
      } else {
        ListReplace(t.kids, i, sub.out.t);
      }
    }
  }

  // ---------------------------------------------------------------- the leaf chain

  lemma {:induction false} LeavesNonempty(t: Tree, h: nat)
    requires Uniform(t, h)
    ensures Leaves(t) != []
    decreases t
  {
    if t.Inner? {
      LeavesNonempty(t.kids[0], h - 1);
    }
  }

  lemma ChainSplit(a: seq<Tree>, b: seq<Tree>, end: nat)
    requires b != []
    ensures Chained(a + b, end) <==> Chained(a, b[0].id) && Chained(b, end)
  {
    var s := a + b;
    assert forall i | 0 <= i < |a| :: Link(s, end, i) == Link(a, b[0].id, i);
    assert forall i | 0 <= i < |b| :: Link(s, end, |a| + i) == Link(b, end, i);
    if Chained(a, b[0].id) && Chained(b, end) {
      forall i | 0 <= i < |s|
        ensures Link(s, end, i)
      {
        assert i < |a| ==> Link(a, b[0].id, i);
        assert i >= |a| ==> Link(b, end, i - |a|);
      }
    }
    if Chained(s, end) {
      forall i | 0 <= i < |b|
        ensures Link(b, end, i)
      {
        assert Link(s, end, |a| + i);
      }
    }
  }

  /** Replacing a run of chained leaves by another with the same first page and the same end keeps the chain. */
  lemma ChainReplace(a: seq<Tree>, b: seq<Tree>, b': seq<Tree>, c: seq<Tree>, end: nat)
    requires b != [] && b' != [] && b'[0].id == b[0].id
    requires Chained(a + b + c, end)
    requires Chained(b', if c == [] then end else c[0].id)
    ensures Chained(a + b' + c, end)
  {
    hide Chained;
    assert a + b + c == a + (b + c) && a + b' + c == a + (b' + c);
    ChainSplit(a, b + c, end);
    ChainSplit(a, b' + c, end);
    if c == [] {
      assert b' + c == b';
    } else {
      ChainSplit(b, c, end);
      ChainSplit(b', c, end);
    }
  }

  lemma ChainMiddle(a: seq<Tree>, b: seq<Tree>, c: seq<Tree>, end: nat)
    requires b != [] && Chained(a + b + c, end)
    ensures Chained(b, if c == [] then end else c[0].id)
  {
    hide Chained;
    assert a + b + c == a + (b + c);
    ChainSplit(a, b + c, end);
    if c == [] {
      assert b + c == b;
    } else {
      ChainSplit(b, c, end);
    }
  }

  lemma LeafChained(cfg: Cfg, t: Tree, key: int, val: Value, pages: nat, end: nat)
    requires t.Leaf? && cfg.acc.CopyUp() && t.next == end
    requires !InsRec(cfg, t, key, val, pages).out.Broken?
    ensures var ls := OutLeaves(InsRec(cfg, t, key, val, pages).out);
      Chained(ls, end) && ls != [] && ls[0].id == t.id
  {
    hide Used, Fits, RoomFor, Position, RemoveAt, InsertAt;
    var out := InsRec(cfg, t, key, val, pages).out;
    if out.Split? {
      assert OutLeaves(out) == [out.l, out.r];
      assert Link([out.l, out.r], end, 0) && Link([out.l, out.r], end, 1);
    } else {
      assert OutLeaves(out) == [out.t];
      assert Link([out.t], end, 0);
    }
  }

  /** A copy-up insert keeps the leaf chain: same first leaf, same end, every leaf linked to its right neighbour. */
  lemma {:induction false} InsertChained(cfg: Cfg, t: Tree, key: int, val: Value, pages: nat, h: nat, end: nat)
    requires cfg.acc.CopyUp() && Uniform(t, h) && Chained(Leaves(t), end)
    requires !InsRec(cfg, t, key, val, pages).out.Broken?
    ensures var ls := OutLeaves(InsRec(cfg, t, key, val, pages).out);
      Chained(ls, end) && ls != [] && Leaves(t) != [] && ls[0].id == Leaves(t)[0].id
    decreases t
  {
    hide InnerPut, LeafPut, Used, Fits, RoomFor, LeavesOf, Chained, Position;
    var i := Position(t.kvs, key, cfg.acc.Upper(t.Leaf?));
    LeavesNonempty(t, h);
    if t.Leaf? {
      ChainLast(t, end);
      LeafChained(cfg, t, key, val, pages, end);
    } else if !(i < |t.kvs| && t.kvs[i].key == key) {
      var a, b, c := LeavesOf(t.kids[..i]), Leaves(t.kids[i]), LeavesOf(t.kids[i + 1..]);
      ListSplit(t.kids, i);
      LeavesNonempty(t.kids[i], h - 1);
      ChainMiddle(a, b, c, end);
      InsertChained(cfg, t.kids[i], key, val, pages, h - 1, if c == [] then end else c[0].id);
      var sub := InsRec(cfg, t.kids[i], key, val, pages);
      ChainReplace(a, b, OutLeaves(sub.out), c, end);
      if sub.out.Split? {
        ListSplice(t.kids, i, sub.out.l, sub.out.r);
        InnerPutShape(cfg, t, i, sub.out.l, sub.out.m, sub.out.r, sub.pages);
      } else {
        ListReplace(t.kids, i, sub.out.t);
      }
    }
  }

  lemma ChainLast(t: Tree, end: nat)
    requires t.Leaf?
    ensures Chained(Leaves(t), end) <==> t.next == end
  {
    assert Leaves(t) == [t];
    assert Link([t], end, 0) <==> t.next == end;
  }

  // ---------------------------------------------------------------- the records on the leaves

  function LeafRecords(ls: seq<Tree>): seq<KV> {
    if ls == [] then [] else ls[0].kvs + LeafRecords(ls[1..])
  }

  lemma {:induction false} LeafRecordsAppend(a: seq<Tree>, b: seq<Tree>)
    ensures LeafRecords(a + b) == LeafRecords(a) + LeafRecords(b)
  {
    if a == [] {
      assert a + b == b;
    } else {
      LeafRecordsAppend(a[1..], b);
      Seqs.Behind(a, b);
      Seqs.Assoc(a[0].kvs, LeafRecords(a[1..]), LeafRecords(b));
    }
  }

  /** In a B+ tree the leaves, read left to right, hold exactly the records of the tree. */
  lemma {:induction false} LeavesHoldEntries(t: Tree, h: nat)
    requires Uniform(t, h)
    ensures LeafRecords(Leaves(t)) == Entries(BPTreeAcc, t)
    decreases t
  {
    if t.Leaf? {
      assert LeafRecords([t]) == t.kvs + LeafRecords([][..]);
    } else {
      LeavesHoldFlat(t.kvs, t.kids, h - 1);
    }
  }

  lemma {:induction false} LeavesHoldFlat(kvs: seq<KV>, kids: seq<Tree>, h: nat)
    requires |kids| == |kvs| + 1 && forall j | 0 <= j < |kids| :: Uniform(kids[j], h)
    ensures LeafRecords(LeavesOf(kids)) == Flat(BPTreeAcc, kvs, kids)
    decreases kids
  {
    hide Leaves, Entries, LeafRecords;
    LeavesHoldEntries(kids[0], h);
    LeafRecordsAppend(Leaves(kids[0]), LeavesOf(kids[1..]));
    if kvs == [] {
      ListOne(kids[0]);
      assert kids == [kids[0]];
    } else {
      LeavesHoldFlat(kvs[1..], kids[1..], h);
    }
  }
}
