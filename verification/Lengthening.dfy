/**
 A case the code does not handle: a B-tree insert finds its key in an internal node, and the new value is longer.

 insertRec then deletes the cell, and with it the pointer to the left child, from the page in memory, goes on with the
 child to the right, and does not write the page when that child keeps its record. What later reads see depends on the
 cache: the page in the file still has the old cell, the page in the cache has lost it. The TreeModel calls this case
 Broken; here is what it does.
 */
module Lengthening {
  import opened Bytes
  import opened Records
  import opened TreeModel
  import opened Order
  import opened Contents
  import Database
  import Seqs

  datatype View = OnFile | InCache

  /** insertRec finds key in an internal B-tree node with a shorter value. */
  ghost predicate Found(t: Tree, key: int, val: Value, lo: int, hi: int) {
    && t.Inner? && |t.kids| == |t.kvs| + 1 && Ordered(BTreeAcc, false, t, lo, hi) && lo <= key < hi
    && var i := Position(t.kvs, key, false);
      i < |t.kvs| && t.kvs[i].key == key && |val| > |t.kvs[i].val|
  }

  /** The node that reads see after DeleteCell on cell i. */
  function Seen(t: Tree, i: nat, view: View): Tree
    requires t.Inner? && |t.kids| == |t.kvs| + 1 && i < |t.kvs|
  {
    if view.OnFile? then t else Inner(t.id, RemoveAt(t.kvs, i), RemoveAt(t.kids, i), t.content)
  }

  /**
   The rest of insertRec: into the child behind the deleted cell, and a promoted cell into the node that is seen then.
   */
  function Lengthen(cfg: Cfg, t: Tree, key: int, val: Value, pages: nat, view: View): Ins
    requires t.Inner? && |t.kids| == |t.kvs| + 1 && Position(t.kvs, key, false) < |t.kvs|
  {
    var i := Position(t.kvs, key, false);
    var node := Seen(t, i, view);
    var at := if view.OnFile? then i + 1 else i;
    var sub := InsRec(cfg, t.kids[i + 1], key, val, pages);
    match sub.out
    case Broken => sub
    case Done(c) => Ins(Done(node.(kids := node.kids[at := c])), sub.pages)
    case Split(l, m, r) =>
      var node' := node.(kids := node.kids[at := l]);
      var j := Position(node'.kvs, m.key, false);
      InnerPut(cfg, node', j, node'.kids[j], m, r, sub.pages)
  }

  // ---------------------------------------------------------------- counting records

  lemma {:induction false} OrderedFromBelow(acc: Acc, t: Tree, lo: int, lo': int, hi: int)
    requires Ordered(acc, false, t, lo, hi) && lo' <= lo
    ensures Ordered(acc, false, t, lo', hi)
    decreases t
  {
    if t.Inner? {
      hide NodeOrdered;
      forall j | 0 <= j < |t.kids|
        ensures Ordered(acc, false, t.kids[j], Lo(acc, t.kvs, j, lo'), Hi(t.kvs, j, hi))
      {
        if j == 0 {
          OrderedFromBelow(acc, t.kids[0], lo, lo', Hi(t.kvs, 0, hi));
        }
      }
      NodeFromBelow(acc, t.kvs, lo, lo', hi);
    }
  }

  lemma NodeFromBelow(acc: Acc, kvs: seq<KV>, lo: int, lo': int, hi: int)
    requires NodeOrdered(acc, false, false, kvs, lo, hi) && lo' <= lo
    ensures NodeOrdered(acc, false, false, kvs, lo', hi)
  {
  }

  /** The records around cell i of an internal B-tree node, and what deleting the cell leaves. */
  lemma Parts(t: Tree, i: nat)
    requires t.Inner? && |t.kids| == |t.kvs| + 1 && i < |t.kvs|
    ensures var a, g := Pre(BTreeAcc, t.kvs[..i], t.kids[..i]), Flat(BTreeAcc, t.kvs[i + 1..], t.kids[i + 1..]);
      && Entries(BTreeAcc, t) == a + (Entries(BTreeAcc, t.kids[i]) + ([t.kvs[i]] + g))
      && Entries(BTreeAcc, Seen(t, i, InCache)) == a + g
  {
    hide Flat, Pre;
    FlatAt(BTreeAcc, t.kvs, t.kids, i);
    FlatAppend(BTreeAcc, t.kvs[..i], t.kids[..i], t.kvs[i + 1..], t.kids[i + 1..]);
  }

  /** Where the child behind the deleted cell stands in the node that is seen, and the records around it. */
  lemma Place(t: Tree, i: nat, view: View)
    requires t.Inner? && |t.kids| == |t.kvs| + 1 && i < |t.kvs|
    ensures var node, at := Seen(t, i, view), if view.OnFile? then i + 1 else i;
      && node.kids[at] == t.kids[i + 1]
      && |Entries(BTreeAcc, node)|
          == |Entries(BTreeAcc, t)| - if view.OnFile? then 0 else |Entries(BTreeAcc, t.kids[i])| + 1
  {
    hide Flat, Pre, Entries;
    Parts(t, i);
  }

  lemma ReplaceCount(t: Tree, at: nat, c: Tree)
    requires t.Inner? && |t.kids| == |t.kvs| + 1 && at < |t.kids|
    ensures |Entries(BTreeAcc, t.(kids := t.kids[at := c]))|
         == |Entries(BTreeAcc, t)| - |Entries(BTreeAcc, t.kids[at])| + |Entries(BTreeAcc, c)|
  {
    hide Flat, Pre, Post;
    FlatReplace(BTreeAcc, t.kvs, t.kids, at, c);
    FlatAt(BTreeAcc, t.kvs, t.kids, at);
  }

  lemma PutCount(cfg: Cfg, t: Tree, j: nat, m: KV, r: Tree, pages: nat)
    requires cfg.acc.BTreeAcc? && t.Inner? && |t.kids| == |t.kvs| + 1 && j <= |t.kvs|
    requires !InnerPut(cfg, t, j, t.kids[j], m, r, pages).out.Broken?
    ensures |OutEntries(BTreeAcc, InnerPut(cfg, t, j, t.kids[j], m, r, pages).out)|
         == |Entries(BTreeAcc, t)| + 1 + |Entries(BTreeAcc, r)|
  {
    hide Flat, Pre, Post, InnerPut, OutEntries;
    InnerPutEntries(cfg, t, j, t.kids[j], m, r, pages);
    FlatAt(BTreeAcc, t.kvs, t.kids, j);
  }

  lemma PutFirst(s: seq<KV>, key: int, val: Value)
    requires forall j | 0 <= j < |s| :: key < s[j].key
    ensures Put(s, key, val) == [KV(key, val)] + s
  {
  }

  lemma FirstCell(t: Tree, i: nat, lo: int, hi: int)
    requires t.Inner? && |t.kids| == |t.kvs| + 1 && Ordered(BTreeAcc, false, t, lo, hi) && i < |t.kvs|
    ensures Ordered(BTreeAcc, false, t.kids[i + 1], t.kvs[i].key, Hi(t.kvs, i + 1, hi))
    ensures Within(Entries(BTreeAcc, t.kids[i + 1]), t.kvs[i].key + 1, Hi(t.kvs, i + 1, hi))
    ensures t.kvs[i].key < Hi(t.kvs, i + 1, hi)
  {
    KidOrdered(BTreeAcc, false, t.kvs, t.kids, i + 1, lo, hi);
    EntriesSorted(BTreeAcc, false, t.kids[i + 1], t.kvs[i].key + 1, Hi(t.kvs, i + 1, hi));
    OrderedFromBelow(BTreeAcc, t.kids[i + 1], t.kvs[i].key + 1, t.kvs[i].key, Hi(t.kvs, i + 1, hi));
  }

  /** The insert into the child puts the new record before all of the child's. */
  lemma BehindCell(cfg: Cfg, t: Tree, key: int, val: Value, pages: nat, lo: int, hi: int)
    requires cfg.acc.BTreeAcc? && Found(t, key, val, lo, hi)
    requires !InsRec(cfg, t.kids[Position(t.kvs, key, false) + 1], key, val, pages).out.Broken?
    ensures var i := Position(t.kvs, key, false);
      var out := InsRec(cfg, t.kids[i + 1], key, val, pages).out;
      && OutEntries(BTreeAcc, out) == [KV(key, val)] + Entries(BTreeAcc, t.kids[i + 1])
      && (out.Split? ==> key <= out.m.key < Hi(t.kvs, i + 1, hi))
  {
    var i := Position(t.kvs, key, false);
    hide InsRec, OutEntries, KidsOrdered, Entries, SplitOrdered;
    FirstCell(t, i, lo, hi);
    InsertEntries(cfg, t.kids[i + 1], key, val, pages, key, Hi(t.kvs, i + 1, hi));
    InsertOrdered(cfg, false, t.kids[i + 1], key, val, pages, key, Hi(t.kvs, i + 1, hi));
    PutFirst(Entries(BTreeAcc, t.kids[i + 1]), key, val);
    var out := InsRec(cfg, t.kids[i + 1], key, val, pages).out;
    if out.Split? {
      SplitKey(out.l, out.m, out.r, key, Hi(t.kvs, i + 1, hi));
    }
  }

  lemma SplitKey(l: Tree, m: KV, r: Tree, lo: int, hi: int)
    requires SplitOrdered(BTreeAcc, false, l, m, r, lo, hi)
    ensures lo <= m.key < hi
  {
    assert [m][0] == m;
  }

  /** Either copy of the node ends up with exactly one record more than it had. */
  lemma OneMore(cfg: Cfg, t: Tree, key: int, val: Value, pages: nat, view: View, lo: int, hi: int)
    requires cfg.acc.BTreeAcc? && Found(t, key, val, lo, hi) && !Lengthen(cfg, t, key, val, pages, view).out.Broken?
    ensures |OutEntries(BTreeAcc, Lengthen(cfg, t, key, val, pages, view).out)|
         == |Entries(BTreeAcc, Seen(t, Position(t.kvs, key, false), view))| + 1
  {
    hide Entries, InnerPut, InsRec, Ordered, Sep;
    var i := Position(t.kvs, key, false);
    var node, at := Seen(t, i, view), if view.OnFile? then i + 1 else i;
    var sub := InsRec(cfg, t.kids[i + 1], key, val, pages);
    Place(t, i, view);
    BehindCell(cfg, t, key, val, pages, lo, hi);
    match sub.out {
      case Done(c) => ReplaceCount(node, at, c);
      case Split(l, m, r) =>
        var node' := node.(kids := node.kids[at := l]);
        ReplaceCount(node, at, l);
        SepCount(m);
        PutCount(cfg, node', Position(node'.kvs, m.key, false), m, r, sub.pages);
    }
  }

  lemma SepCount(m: KV)
    ensures |Sep(BTreeAcc, m)| == 1
  {
  }

  // ---------------------------------------------------------------- when the result is right

  lemma PutPresent(s: seq<KV>, i: nat, key: int, val: Value)
    requires Sorted(s) && i < |s| && s[i].key == key
    ensures |Put(s, key, val)| == |s|
  {
    forall j | 0 <= j < |s| && j != i
      ensures j < i ==> s[j].key < key
      ensures i < j ==> key < s[j].key
    {
      assert j < i ==> s[j].key < s[i].key;
      assert i < j ==> s[i].key < s[j].key;
    }
    PutOld(s, i, key, val);
  }

  /** The update that insertRec should make. */
  lemma Wanted(t: Tree, key: int, val: Value, lo: int, hi: int)
    requires Found(t, key, val, lo, hi)
    ensures var i := Position(t.kvs, key, false);
      var a, g := Pre(BTreeAcc, t.kvs[..i], t.kids[..i]), Flat(BTreeAcc, t.kvs[i + 1..], t.kids[i + 1..]);
      && |Put(Entries(BTreeAcc, t), key, val)| == |Entries(BTreeAcc, t)|
      && (Entries(BTreeAcc, t.kids[i]) == [] ==> Put(Entries(BTreeAcc, t), key, val) == a + ([KV(key, val)] + g))
  {
    hide KidsOrdered, Entries, Pre, Flat, Sorted, Put;
    var i := Position(t.kvs, key, false);
    EntriesSorted(BTreeAcc, false, t, lo, hi);
    Parts(t, i);
    var a, e, g := Pre(BTreeAcc, t.kvs[..i], t.kids[..i]), Entries(BTreeAcc, t.kids[i]),
        Flat(BTreeAcc, t.kvs[i + 1..], t.kids[i + 1..]);
    PutPresent(Entries(BTreeAcc, t), |a| + |e|, key, val);
    PreBelow(BTreeAcc, false, t.kvs, t.kids, i, lo, hi);
    PostAbove(BTreeAcc, false, t.kvs, t.kids, i + 1, lo, hi);
    if e == [] {
      assert e + ([t.kvs[i]] + g) == [t.kvs[i]] + g;
      FlatAbove(t, i, lo, hi);
      PutMiddle(a, [t.kvs[i]], g, key, val);
      assert Put([t.kvs[i]], key, val) == [KV(key, val)] by {
        PutOne(t.kvs[i], key, val);
      }
    }
  }

  lemma PutOne(kv: KV, key: int, val: Value)
    requires kv.key == key
    ensures Put([kv], key, val) == [KV(key, val)]
  {
  }

  lemma FlatAbove(t: Tree, i: nat, lo: int, hi: int)
    requires t.Inner? && |t.kids| == |t.kvs| + 1 && Ordered(BTreeAcc, false, t, lo, hi) && i < |t.kvs|
    ensures Within(Flat(BTreeAcc, t.kvs[i + 1..], t.kids[i + 1..]), t.kvs[i].key + 1, hi)
  {
    hide KidsOrdered, Flat;
    KidsCut(BTreeAcc, false, t.kvs, t.kids, i, lo, hi);
    FlatSorted(BTreeAcc, false, t.kvs[i + 1..], t.kids[i + 1..], t.kvs[i].key + 1, hi);
  }

  /** The copy in the cache gets the new record in the deleted one's place. */
  lemma InCacheResult(cfg: Cfg, t: Tree, key: int, val: Value, pages: nat, lo: int, hi: int)
    requires cfg.acc.BTreeAcc? && Found(t, key, val, lo, hi) && !Lengthen(cfg, t, key, val, pages, InCache).out.Broken?
    ensures var i := Position(t.kvs, key, false);
      OutEntries(BTreeAcc, Lengthen(cfg, t, key, val, pages, InCache).out)
      == Pre(BTreeAcc, t.kvs[..i], t.kids[..i]) + ([KV(key, val)] + Flat(BTreeAcc, t.kvs[i + 1..], t.kids[i + 1..]))
  {
    hide Entries, InnerPut, InsRec, KidsOrdered, Sep, Pre, Flat;
    var i := Position(t.kvs, key, false);
    var node := Seen(t, i, InCache);
    var sub := InsRec(cfg, t.kids[i + 1], key, val, pages);
    BehindCell(cfg, t, key, val, pages, lo, hi);
    assert node.kvs[..i] == t.kvs[..i] && node.kids[..i] == t.kids[..i];
    assert node.kvs[i..] == t.kvs[i + 1..] && node.kids[i + 1..] == t.kids[i + 1..][1..];
    FlatHead(BTreeAcc, t.kvs[i + 1..], t.kids[i + 1..]);
    var e, p := Entries(BTreeAcc, t.kids[i + 1]), Post(BTreeAcc, node.kvs, node.kids, i);
    assert Flat(BTreeAcc, t.kvs[i + 1..], t.kids[i + 1..]) == e + p by {
      SamePost(t, i);
    }
    Seqs.Assoc([KV(key, val)], e, p);
    match sub.out {
      case Done(c) =>
        FlatReplace(BTreeAcc, node.kvs, node.kids, i, c);
        InnerEntries(node.(kids := node.kids[i := c]));
      case Split(l, m, r) =>
        var node' := node.(kids := node.kids[i := l]);
        PositionUnique(node.kvs, m.key, false, i);
        InnerPutEntries(cfg, node', i, l, m, r, sub.pages);
        assert node'.kids[..i] == node.kids[..i] && node'.kids[i + 1..] == node.kids[i + 1..];
    }
  }

  lemma InnerEntries(t: Tree)
    requires t.Inner?
    ensures Entries(BTreeAcc, t) == Flat(BTreeAcc, t.kvs, t.kids)
  {
  }

  lemma SamePost(t: Tree, i: nat)
    requires t.Inner? && |t.kids| == |t.kvs| + 1 && i < |t.kvs|
    ensures var node := Seen(t, i, InCache);
      Post(BTreeAcc, node.kvs, node.kids, i) == Post(BTreeAcc, t.kvs[i + 1..], t.kids[i + 1..], 0)
  {
    var node := Seen(t, i, InCache);
    if i + 1 < |t.kvs| {
      assert node.kvs[i] == t.kvs[i + 1];
      assert node.kvs[i + 1..] == t.kvs[i + 1..][1..] && node.kids[i + 1..] == t.kids[i + 1..][1..];
    }
  }

  /**
   When an insert finds its key in an internal B-tree node with a shorter value, it does what it should exactly when
   the subtree to the left of the cell is empty and later reads see the page in the cache. On the page in the file the
   key is there twice; on the page in the cache the records of the left subtree are gone.
   */
  lemma LengthenExactly(cfg: Cfg, t: Tree, key: int, val: Value, pages: nat, view: View, lo: int, hi: int)
    requires cfg.acc.BTreeAcc? && Found(t, key, val, lo, hi) && !Lengthen(cfg, t, key, val, pages, view).out.Broken?
    ensures var out := Lengthen(cfg, t, key, val, pages, view).out;
      var lost := |Entries(BTreeAcc, t.kids[Position(t.kvs, key, false)])|;
      && |OutEntries(BTreeAcc, out)| == |Entries(BTreeAcc, t)| + (if view.OnFile? then 1 else -lost)
      && (OutEntries(BTreeAcc, out) == Put(Entries(BTreeAcc, t), key, val) <==> view.InCache? && lost == 0)
  {
    hide Entries, KidsOrdered, OutEntries, Lengthen, Put, Pre, Flat;
    var i := Position(t.kvs, key, false);
    OneMore(cfg, t, key, val, pages, view, lo, hi);
    Place(t, i, view);
    Wanted(t, key, val, lo, hi);
    if view.InCache? {
      InCacheResult(cfg, t, key, val, pages, lo, hi);
    }
  }

  // ---------------------------------------------------------------- from the node to the root

  /** The node on the search path that holds the key, or the leaf where the search ends. */
  function Holder(t: Tree, key: int): Tree
    decreases t
  {
    var i := Position(t.kvs, key, false);
    if t.Leaf? || |t.kids| != |t.kvs| + 1 || (i < |t.kvs| && t.kvs[i].key == key) then t else Holder(t.kids[i], key)
  }

  /** The search meets the key in an internal node, with a shorter value. */
  predicate Longer(t: Tree, key: int, val: Value) {
    var n := Holder(t, key);
    var i := Position(n.kvs, key, false);
    n.Inner? && |n.kids| == |n.kvs| + 1 && i < |n.kvs| && n.kvs[i].key == key && |val| > |n.kvs[i].val|
  }

  /** insertRec at a node above: the child's outcome is linked in as always. */
  function LengthenBelow(cfg: Cfg, t: Tree, key: int, val: Value, pages: nat, view: View): Ins
    requires Longer(t, key, val)
    decreases t
  {
    var i := Position(t.kvs, key, false);
    if i < |t.kvs| && t.kvs[i].key == key then Lengthen(cfg, t, key, val, pages, view)
    else
      var sub := LengthenBelow(cfg, t.kids[i], key, val, pages, view);
      match sub.out
      case Broken => sub
      case Done(c) => Ins(Done(t.(kids := t.kids[i := c])), sub.pages)
      case Split(l, m, r) => InnerPut(cfg, t, i, l, m, r, sub.pages)
  }

  /** The records left of the cell that holds the key. */
  function LeftOf(t: Tree, key: int): seq<KV>
  {
    var n := Holder(t, key);
    var i := Position(n.kvs, key, false);
    if n.Inner? && i < |n.kids| then Entries(BTreeAcc, n.kids[i]) else []
  }

  lemma OneDown(t: Tree, key: int, val: Value, lo: int, hi: int)
    requires Longer(t, key, val) && Ordered(BTreeAcc, false, t, lo, hi) && lo <= key < hi
    ensures t.Inner? && |t.kids| == |t.kvs| + 1
    ensures var i := Position(t.kvs, key, false);
      if i < |t.kvs| && t.kvs[i].key == key then
        Found(t, key, val, lo, hi) && LeftOf(t, key) == Entries(BTreeAcc, t.kids[i])
      else
        && i < |t.kids| && Longer(t.kids[i], key, val) && LeftOf(t, key) == LeftOf(t.kids[i], key)
        && Ordered(BTreeAcc, false, t.kids[i], Lo(BTreeAcc, t.kvs, i, lo), Hi(t.kvs, i, hi))
        && Lo(BTreeAcc, t.kvs, i, lo) <= key < Hi(t.kvs, i, hi)
  {
    hide KidsOrdered, Entries;
    var i := Position(t.kvs, key, false);
    DescentRange(BTreeAcc, false, t, key, lo, hi);
    KidOrdered(BTreeAcc, false, t.kvs, t.kids, i, lo, hi);
  }

  lemma SameAround(a: seq<KV>, x: seq<KV>, y: seq<KV>, b: seq<KV>)
    ensures a + (x + b) == a + (y + b) <==> x == y
    ensures |a + (x + b)| == |a + (y + b)| + |x| - |y|
  {
    if a + (x + b) == a + (y + b) {
      assert (a + (x + b))[|a|..] == x + b && (a + (y + b))[|a|..] == y + b;
      assert (x + b)[..|x|] == x && (y + b)[..|y|] == y;
    }
  }

  /**
   The same at the root, whatever lies between: the insert does what it should exactly when the subtree to the left of
   the cell is empty and reads see the page in the cache; otherwise one record is there twice, or the left subtree's
   are gone.
   */
  lemma {:induction false} LengthenedExactly(cfg: Cfg, t: Tree, key: int, val: Value, pages: nat, view: View, lo: int,
      hi: int)
    requires cfg.acc.BTreeAcc? && Longer(t, key, val) && Ordered(BTreeAcc, false, t, lo, hi) && lo <= key < hi
    requires !LengthenBelow(cfg, t, key, val, pages, view).out.Broken?
    ensures var out, lost := LengthenBelow(cfg, t, key, val, pages, view).out, |LeftOf(t, key)|;
      && |OutEntries(BTreeAcc, out)| == |Entries(BTreeAcc, t)| + (if view.OnFile? then 1 else -lost)
      && (OutEntries(BTreeAcc, out) == Put(Entries(BTreeAcc, t), key, val) <==> view.InCache? && lost == 0)
    decreases t
  {
    OneDown(t, key, val, lo, hi);
    var i := Position(t.kvs, key, false);
    if i < |t.kvs| && t.kvs[i].key == key {
      LengthenExactly(cfg, t, key, val, pages, view, lo, hi);
    } else {
      LengthenedExactly(cfg, t.kids[i], key, val, pages, view, Lo(BTreeAcc, t.kvs, i, lo), Hi(t.kvs, i, hi));
      LinkedIn(cfg, t, i, key, val, pages, view, lo, hi);
    }
  }

  /** What stays around a child's outcome. */
  lemma LinkedIn(cfg: Cfg, t: Tree, i: nat, key: int, val: Value, pages: nat, view: View, lo: int, hi: int)
    requires cfg.acc.BTreeAcc? && Longer(t, key, val) && Ordered(BTreeAcc, false, t, lo, hi) && lo <= key < hi
    requires i == Position(t.kvs, key, false) && t.Inner? && |t.kids| == |t.kvs| + 1
      && !(i < |t.kvs| && t.kvs[i].key == key)
    requires Longer(t.kids[i], key, val) && !LengthenBelow(cfg, t, key, val, pages, view).out.Broken?
    requires Lo(BTreeAcc, t.kvs, i, lo) <= key < Hi(t.kvs, i, hi)
    ensures var out, sub := LengthenBelow(cfg, t, key, val, pages, view).out,
                            LengthenBelow(cfg, t.kids[i], key, val, pages, view).out;
      && !sub.Broken?
      && |OutEntries(BTreeAcc, out)| - |Entries(BTreeAcc, t)|
          == |OutEntries(BTreeAcc, sub)| - |Entries(BTreeAcc, t.kids[i])|
      && (OutEntries(BTreeAcc, out) == Put(Entries(BTreeAcc, t), key, val) <==>
            OutEntries(BTreeAcc, sub) == Put(Entries(BTreeAcc, t.kids[i]), key, val))
  {
    hide Pre, Post, Flat, InnerPut, KidsOrdered, Lengthen, Longer, Put;
    var sub := LengthenBelow(cfg, t.kids[i], key, val, pages, view);
    var a, b := Pre(BTreeAcc, t.kvs[..i], t.kids[..i]), Post(BTreeAcc, t.kvs, t.kids, i);
    FlatAt(BTreeAcc, t.kvs, t.kids, i);
    PutIntoKid(BTreeAcc, t.kvs, t.kids, i, key, val, lo, hi);
    SameAround(a, OutEntries(BTreeAcc, sub.out), Put(Entries(BTreeAcc, t.kids[i]), key, val), b);
    SameAround(a, OutEntries(BTreeAcc, sub.out), Entries(BTreeAcc, t.kids[i]), b);
    match sub.out {
      case Done(c) => FlatReplace(BTreeAcc, t.kvs, t.kids, i, c);
      case Split(l, m, r) => InnerPutEntries(cfg, t, i, l, m, r, sub.pages);
    }
  }

  /** Insert in that case: a new root page when the root splits. */
  function LengthenDb(cfg: Cfg, db: Db, key: int, val: Value, view: View): Db
    requires db.Db? && Longer(db.t, key, val)
  {
    var ins := LengthenBelow(cfg, db.t, key, val, db.pages, view);
    match ins.out
    case Broken => Failed
    case Done(t) => Db(t, ins.pages)
    case Split(l, m, r) =>
      if !Fits(cfg, false, [m]) then Failed
      else Db(Inner(ins.pages, [m], [l, r], cfg.pageSize - Used(cfg, false, [m])), ins.pages + 1)
  }

  /** The same about the database. */
  lemma DbExactly(cfg: Cfg, db: Db, key: int, val: Value, view: View, lo: int, hi: int)
    requires cfg.acc.BTreeAcc? && db.Db? && Longer(db.t, key, val) && Ordered(BTreeAcc, false, db.t, lo, hi)
      && lo <= key < hi
    requires LengthenDb(cfg, db, key, val, view).Db?
    ensures var after, lost := LengthenDb(cfg, db, key, val, view), |LeftOf(db.t, key)|;
      && |Entries(BTreeAcc, after.t)| == |Entries(BTreeAcc, db.t)| + (if view.OnFile? then 1 else -lost)
      && (Entries(BTreeAcc, after.t) == Put(Entries(BTreeAcc, db.t), key, val) <==> view.InCache? && lost == 0)
  {
    hide LengthenBelow, Put, Ordered, Used, Fits;
    LengthenedExactly(cfg, db.t, key, val, db.pages, view, lo, hi);
    var out := LengthenBelow(cfg, db.t, key, val, db.pages, view).out;
    if out.Split? {
      Database.RootFlat(BTreeAcc, out.l, out.m, out.r);
    }
  }
}
