/**
 The case of Lengthening between tree and pages: which of the two copies of the node is read, which pages the outcome
 has, and when the file holds it.

 The page that lost the cell is changed in its buffer only. Whether later reads see the buffer or the file depends on
 the accesses below that page: it stays cached exactly when they touch fewer other pages than the cache has room for.
 */
module LengthenTree {
  import opened Bytes
  import opened Records
  import opened TreeModel
  import opened Order
  import opened Shape
  import opened Layout
  import opened PageOps
  import opened Refine
  import opened Lru
  import opened Recency
  import opened Trace
  import opened Resident
  import opened Lengthening
  import S = Shared
  import P = Pager

  // ---------------------------------------------------------------- which copy is read

  /** The node that reads give after the insert below it, for a cache of this capacity. */
  function ViewAfter(cfg: Cfg, t: Tree, key: int, val: Value, pages: nat, cap: nat): View
    requires Longer(t, key, val)
  {
    var n := Holder(t, key);
    var below := Touched(cfg, n.kids[Position(n.kvs, key, false) + 1], key, val, pages);
    if |Distinct(below)| < cap then InCache else OnFile
  }

  /** The child behind the cell splits, so that the node is written. */
  function Written(cfg: Cfg, t: Tree, key: int, val: Value, pages: nat): bool
    requires Longer(t, key, val)
  {
    var n := Holder(t, key);
    InsRec(cfg, n.kids[Position(n.kvs, key, false) + 1], key, val, pages).out.Split?
  }

  /** The condition under which the model below covers the insert. */
  ghost predicate CanLengthen(cfg: Cfg, file: seq<Page>, t: Tree, key: int, val: Value, view: View, lo: int, hi: int) {
    && cfg.acc.BTreeAcc? && Holds(cfg, file, t) && Once(Pages(t)) && (forall x | x in Pages(t) :: x < |file|)
    && Ordered(BTreeAcc, false, t, lo, hi) && lo <= key < hi && MIN_KEY <= key <= MAX_KEY && |val| < 0x1_0000
    && Longer(t, key, val)
    && !LengthenBelow(cfg, t, key, val, |file|, view).out.Broken?
    && LengthenBelow(cfg, t, key, val, |file|, view).pages < INVALID_PAGE
  }

  /**
   What the insert leaves: seen is what reads give. When the child behind the cell split, the node has been written and
   file and cache agree. Otherwise the file still has the old cell.
   */
  ghost predicate Left(cfg: Cfg, was: seq<Page>, file: seq<Page>, seen: seq<Page>, stale: set<nat>, t: Tree, key: int,
      val: Value, view: View, mk: int, mv: Value, newId: nat, split: bool)
    requires Longer(t, key, val)
  {
    var ins := LengthenBelow(cfg, t, key, val, |was|, view);
    && HoldsOut(cfg, seen, ins.out) && |seen| == |file| == ins.pages
      && S.Reports(cfg.acc, ins.out, mk, mv, newId, split)
    && OnlyPages(was, file, Pages(t)) && OnlyPages(was, seen, Pages(t))
    && if Written(cfg, t, key, val, |was|) then seen == file && stale == {}
       else
         && !split && HoldsOut(cfg, file, LengthenBelow(cfg, t, key, val, |was|, OnFile).out)
         && (if view.InCache? then stale == {Holder(t, key).id} else stale == {} && seen == file)
  }

  // ---------------------------------------------------------------- page ids and promoted keys

  /** The pages of the child that the deleted cell pointed to. */
  function Dropped(t: Tree, key: int, view: View): multiset<nat>
  {
    var n := Holder(t, key);
    var i := Position(n.kvs, key, false);
    if view.InCache? && n.Inner? && i < |n.kids| then Pages(n.kids[i]) else multiset{}
  }

  lemma SeenPages(t: Tree, i: nat, view: View)
    requires t.Inner? && |t.kids| == |t.kvs| + 1 && i < |t.kvs|
    ensures var u := Seen(t, i, view);
      u.Inner? && Pages(u) + (if view.InCache? then Pages(t.kids[i]) else multiset{}) == Pages(t)
  {
    hide Pages, PagesOf;
    ListSplit(t.kids, i);
    var u := Seen(t, i, InCache);
    ListAppend(t.kids[..i], t.kids[i + 1..]);
    assert u.kids == t.kids[..i] + t.kids[i + 1..];
    InnerPages(t);
    InnerPages(u);
  }

  lemma InnerPages(t: Tree)
    requires t.Inner?
    ensures Pages(t) == multiset{t.id} + PagesOf(t.kids)
  {
  }

  /** The node and its outcome when child at has been replaced by an outcome with these pages. */
  lemma LinkedPages(cfg: Cfg, u: Tree, at: nat, sub: Ins, j: nat, pages: nat, lost: multiset<nat>)
    requires u.Inner? && |u.kids| == |u.kvs| + 1 && at < |u.kids| && !sub.out.Broken? && pages <= sub.pages
    requires OutPages(sub.out) + lost == Pages(u.kids[at]) + Fresh(pages, sub.pages)
    ensures sub.out.Done? ==> Pages(u.(kids := u.kids[at := sub.out.t])) + lost == Pages(u) + Fresh(pages, sub.pages)
    ensures sub.out.Split? && j <= |u.kvs| ==>
      var u' := u.(kids := u.kids[at := sub.out.l]);
      var ins := InnerPut(cfg, u', j, u'.kids[j], sub.out.m, sub.out.r, sub.pages);
      !ins.out.Broken? ==> ins.pages >= pages && OutPages(ins.out) + lost == Pages(u) + Fresh(pages, ins.pages)
  {
    hide Pages, PagesOf, InnerPut, Fresh;
    var a, b := PagesOf(u.kids[..at]), PagesOf(u.kids[at + 1..]);
    ListSplit(u.kids, at);
    InnerPages(u);
    Around(multiset{u.id}, a, b, OutPages(sub.out), lost, Pages(u.kids[at]), Fresh(pages, sub.pages));
    if sub.out.Done? {
      ListReplace(u.kids, at, sub.out.t);
      InnerPages(u.(kids := u.kids[at := sub.out.t]));
    } else if j <= |u.kvs| {
      var u' := u.(kids := u.kids[at := sub.out.l]);
      ListReplace(u.kids, at, sub.out.l);
      var ins := InnerPut(cfg, u', j, u'.kids[j], sub.out.m, sub.out.r, sub.pages);
      if !ins.out.Broken? {
        InnerPutShape(cfg, u', j, u'.kids[j], sub.out.m, sub.out.r, sub.pages);
        ListSplit(u'.kids, j);
        ListSplice(u'.kids, j, u'.kids[j], sub.out.r);
        FreshAppend(pages, sub.pages, ins.pages);
        assert PagesOf(InsertAt(u'.kids[j := u'.kids[j]], j + 1, sub.out.r)) == PagesOf(u'.kids) + Pages(sub.out.r);
        var x := a + OutPages(sub.out) + b;
        assert PagesOf(u'.kids) + Pages(sub.out.r) == x;
        Later(multiset{u.id} + x, lost, Pages(u), Fresh(pages, sub.pages), Fresh(sub.pages, ins.pages));
      }
    }
  }

  lemma Later(x: multiset<nat>, lost: multiset<nat>, y: multiset<nat>, f: multiset<nat>, g: multiset<nat>)
    requires x + lost == y + f
    ensures x + g + lost == y + (f + g)
  {
    forall e: nat
      ensures (x + g + lost)[e] == (y + (f + g))[e]
    {
      assert (x + lost)[e] == (y + f)[e];
    }
  }

  lemma Around(i: multiset<nat>, a: multiset<nat>, b: multiset<nat>, x: multiset<nat>, lost: multiset<nat>,
      kid: multiset<nat>, more: multiset<nat>)
    requires x + lost == kid + more
    ensures i + (a + x + b) + lost == i + (a + kid + b) + more
  {
    forall e: nat
      ensures (i + (a + x + b) + lost)[e] == (i + (a + kid + b) + more)[e]
    {
      assert (x + lost)[e] == (kid + more)[e];
    }
  }

  lemma AtNode(t: Tree, key: int, val: Value)
    requires Longer(t, key, val) && t.Inner? && Position(t.kvs, key, false) < |t.kvs|
        && t.kvs[Position(t.kvs, key, false)].key == key
    ensures Holder(t, key) == t && |t.kids| == |t.kvs| + 1
  {
  }

  /**
   The pages of the outcome are the old ones and the new ones, without those of the left subtree when the copy in the
   cache is the one that counts: these pages are in the file and belong to no tree any more.
   */
  lemma {:induction false} LengthenedPages(cfg: Cfg, t: Tree, key: int, val: Value, pages: nat, view: View)
    requires Longer(t, key, val) && !LengthenBelow(cfg, t, key, val, pages, view).out.Broken?
    ensures var ins := LengthenBelow(cfg, t, key, val, pages, view);
      && ins.pages >= pages
      && OutPages(ins.out) + Dropped(t, key, view) == Pages(t) + Fresh(pages, ins.pages)
    decreases t
  {
    hide InsRec, InnerPut, Pages, PagesOf, Fresh, OutPages, Position, LengthenBelow, Dropped;
    var i := Position(t.kvs, key, false);
    LongerInner(t, key, val);
    if i < |t.kvs| && t.kvs[i].key == key {
      PagesHere(cfg, t, i, key, val, pages, view);
    } else {
      OneLower(t, key, val);
      NotBroken(cfg, t, i, key, val, pages, view);
      LengthenedPages(cfg, t.kids[i], key, val, pages, view);
      LinkedWithout(cfg, t, i, key, val, pages, view);
    }
  }

  lemma PagesHere(cfg: Cfg, t: Tree, i: nat, key: int, val: Value, pages: nat, view: View)
    requires Longer(t, key, val) && !LengthenBelow(cfg, t, key, val, pages, view).out.Broken?
    requires i == Position(t.kvs, key, false) && i < |t.kvs| && t.kvs[i].key == key && t.Inner?
    ensures var ins := LengthenBelow(cfg, t, key, val, pages, view);
      ins.pages >= pages && OutPages(ins.out) + Dropped(t, key, view) == Pages(t) + Fresh(pages, ins.pages)
  {
    hide InsRec, InnerPut, Pages, PagesOf, Fresh, Position;
    AtNode(t, key, val);
    var u, at := Seen(t, i, view), if view.OnFile? then i + 1 else i;
    SeenPages(t, i, view);
    SeenKid(t, i, view);
    var sub := InsRec(cfg, t.kids[i + 1], key, val, pages);
    var ins := LengthenBelow(cfg, t, key, val, pages, view);
    InsertPages(cfg, t.kids[i + 1], key, val, pages);
    var j := if sub.out.Split? then Position(u.(kids := u.kids[at := sub.out.l]).kvs, sub.out.m.key, false) else 0;
    PositionIn(u.kvs, if sub.out.Split? then sub.out.m.key else 0);
    LinkedPages(cfg, u, at, sub, j, pages, multiset{});
    assert OutPages(ins.out) == Pages(u) + Fresh(pages, ins.pages);
    Later(Pages(u), Dropped(t, key, view), Pages(t), multiset{}, Fresh(pages, ins.pages));
  }

  lemma LinkedWithout(cfg: Cfg, t: Tree, i: nat, key: int, val: Value, pages: nat, view: View)
    requires Longer(t, key, val) && i == Position(t.kvs, key, false) && !(i < |t.kvs| && t.kvs[i].key == key)
    requires t.Inner? && |t.kids| == |t.kvs| + 1 && Longer(t.kids[i], key, val)
      && Holder(t, key) == Holder(t.kids[i], key)
    requires !LengthenBelow(cfg, t, key, val, pages, view).out.Broken?
    requires var sub := LengthenBelow(cfg, t.kids[i], key, val, pages, view);
      sub.pages >= pages
      && OutPages(sub.out) + Dropped(t.kids[i], key, view) == Pages(t.kids[i]) + Fresh(pages, sub.pages)
    ensures var ins := LengthenBelow(cfg, t, key, val, pages, view);
      ins.pages >= pages && OutPages(ins.out) + Dropped(t, key, view) == Pages(t) + Fresh(pages, ins.pages)
  {
    hide InsRec, InnerPut, Pages, PagesOf, Fresh, Longer, Holder;
    var sub := LengthenBelow(cfg, t.kids[i], key, val, pages, view);
    if sub.out.Split? {
      SameInnerPut(cfg, t, i, sub.out.l, sub.out.m, sub.out.r, sub.pages);
    }
    LinkedPages(cfg, t, i, sub, i, pages, Dropped(t, key, view));
  }

  lemma SameInnerPut(cfg: Cfg, t: Tree, i: nat, l: Tree, m: KV, r: Tree, pages: nat)
    requires t.Inner? && |t.kids| == |t.kvs| + 1 && i <= |t.kvs|
    ensures var u := t.(kids := t.kids[i := l]);
      InnerPut(cfg, u, i, u.kids[i], m, r, pages) == InnerPut(cfg, t, i, l, m, r, pages)
  {
    hide SplitInner, RoomFor;
    var u := t.(kids := t.kids[i := l]);
    assert u.kids[i := u.kids[i]] == t.kids[i := l];
  }

  lemma PositionIn(kvs: seq<KV>, key: int)
    ensures Position(kvs, key, false) <= |kvs|
  {
  }

  lemma SeenKid(t: Tree, i: nat, view: View)
    requires t.Inner? && |t.kids| == |t.kvs| + 1 && i < |t.kvs|
    ensures var u := Seen(t, i, view);
      u.Inner? && |u.kids| == |u.kvs| + 1 && u.id == t.id
          && u.kids[if view.OnFile? then i + 1 else i] == t.kids[i + 1]
  {
  }

  lemma LongerInner(t: Tree, key: int, val: Value)
    requires Longer(t, key, val)
    ensures t.Inner?
  {
  }

  lemma NotBroken(cfg: Cfg, t: Tree, i: nat, key: int, val: Value, pages: nat, view: View)
    requires Longer(t, key, val) && t.Inner? && i == Position(t.kvs, key, false) && i < |t.kids|
    requires !(i < |t.kvs| && t.kvs[i].key == key) && Longer(t.kids[i], key, val)
    ensures LengthenBelow(cfg, t.kids[i], key, val, pages, view).out.Broken? ==>
      LengthenBelow(cfg, t, key, val, pages, view).out.Broken?
  {
  }

  lemma OneLower(t: Tree, key: int, val: Value)
    requires Longer(t, key, val)
    ensures var i := Position(t.kvs, key, false);
      !(i < |t.kvs| && t.kvs[i].key == key) ==>
        && t.Inner? && |t.kids| == |t.kvs| + 1 && Longer(t.kids[i], key, val)
          && Holder(t, key) == Holder(t.kids[i], key)
  {
  }

  /** The children under the node that is read again, with the two halves of the one that split. */
  function Halved(t: Tree, i: nat, view: View, l: Tree): Tree
    requires t.Inner? && |t.kids| == |t.kvs| + 1 && i < |t.kvs|
  {
    var node := Seen(t, i, view);
    node.(kids := node.kids[if view.OnFile? then i + 1 else i := l])
  }

  /** A promoted key is one of the node's keys or the one put in. */
  lemma PutKey(cfg: Cfg, t: Tree, i: nat, l: Tree, m: KV, r: Tree, pages: nat, lo: int, hi: int)
    requires t.Inner? && |t.kids| == |t.kvs| + 1 && i <= |t.kvs| && Within(t.kvs, lo, hi) && lo <= m.key < hi
    ensures var out := InnerPut(cfg, t, i, l, m, r, pages).out; out.Split? ==> lo <= out.m.key < hi
  {
    hide Used, Fits, RoomFor;
  }

  ghost predicate Shaped(t: Tree, ins: Ins, lo: int, hi: int) {
    && (ins.out.Done? ==> ins.out.t.id == t.id)
    && (ins.out.Split? ==>
          ins.out.l.id == t.id && ins.pages > 0 && ins.out.r.id == ins.pages - 1 && lo <= ins.out.m.key < hi)
  }

  lemma ShapedPut(cfg: Cfg, t: Tree, u: Tree, i: nat, l: Tree, m: KV, r: Tree, pages: nat, lo: int, hi: int)
    requires u.Inner? && |u.kids| == |u.kvs| + 1 && i <= |u.kvs| && Within(u.kvs, lo, hi) && lo <= m.key < hi
      && u.id == t.id
    ensures Shaped(t, InnerPut(cfg, u, i, l, m, r, pages), lo, hi)
  {
    InnerPutForm(cfg, u, i, l, m, r, pages);
    PutKey(cfg, u, i, l, m, r, pages, lo, hi);
    hide InnerPut;
  }

  lemma ShapedHere(cfg: Cfg, t: Tree, key: int, val: Value, pages: nat, view: View, lo: int, hi: int)
    requires cfg.acc.BTreeAcc? && Found(t, key, val, lo, hi) && Longer(t, key, val)
    ensures Shaped(t, LengthenBelow(cfg, t, key, val, pages, view), lo, hi)
  {
    hide InsRec, InnerPut, KidsOrdered;
    var i := Position(t.kvs, key, false);
    var sub := InsRec(cfg, t.kids[i + 1], key, val, pages);
    SeenKid(t, i, view);
    if sub.out.Split? {
      BehindCell(cfg, t, key, val, pages, lo, hi);
      var u := Halved(t, i, view, sub.out.l);
      assert Within(u.kvs, lo, hi);
      ShapedPut(cfg, t, u, Position(u.kvs, sub.out.m.key, false), u.kids[Position(u.kvs, sub.out.m.key, false)],
        sub.out.m, sub.out.r, sub.pages, lo, hi);
    }
  }

  /** The node keeps its page, the right half is on the last new page, and a promoted key is in the node's range. */
  lemma {:induction false} LengthenedShape(cfg: Cfg, t: Tree, key: int, val: Value, pages: nat, view: View, lo: int,
      hi: int)
    requires cfg.acc.BTreeAcc? && Longer(t, key, val) && Ordered(BTreeAcc, false, t, lo, hi) && lo <= key < hi
    ensures Shaped(t, LengthenBelow(cfg, t, key, val, pages, view), lo, hi)
    decreases t
  {
    hide InnerPut, Lengthen, Position, Longer, KidsOrdered;
    OneDown(t, key, val, lo, hi);
    var i := Position(t.kvs, key, false);
    if i < |t.kvs| && t.kvs[i].key == key {
      ShapedHere(cfg, t, key, val, pages, view, lo, hi);
    } else {
      LengthenedShape(cfg, t.kids[i], key, val, pages, view, Lo(BTreeAcc, t.kvs, i, lo), Hi(t.kvs, i, hi));
      var sub := LengthenBelow(cfg, t.kids[i], key, val, pages, view);
      if sub.out.Split? {
        ShapedPut(cfg, t, t, i, sub.out.l, sub.out.m, sub.out.r, sub.pages, lo, hi);
      }
    }
  }

  // ---------------------------------------------------------------- the node with the cell

  lemma SeenNode(t: Tree, i: nat)
    requires t.Inner? && |t.kids| == |t.kvs| + 1 && i < |t.kvs|
    ensures var u := Seen(t, i, InCache);
      && u.Inner? && |u.kids| == |u.kvs| + 1 && |u.kvs| == |t.kvs| - 1 && u.kids[i] == t.kids[i + 1] && u.id == t.id
      && i < |NodeOf(t).cells| && NodeOf(u) == NodeOf(t).(cells := RemoveAt(NodeOf(t).cells, i))
  {
  }

  lemma OnFileNode(t: Tree, i: nat)
    requires t.Inner? && |t.kids| == |t.kvs| + 1 && i < |t.kvs|
    ensures Seen(t, i, OnFile) == t
  {
  }

  /** The child behind the cell: insertRec may go there. */
  lemma BehindCan(cfg: Cfg, file: seq<Page>, t: Tree, key: int, val: Value, view: View, lo: int, hi: int)
    requires CanLengthen(cfg, file, t, key, val, view, lo, hi) && Found(t, key, val, lo, hi)
    ensures var i := Position(t.kvs, key, false);
      var kid := t.kids[i + 1];
      && S.CanRec(cfg, file, kid, key, val, key, Hi(t.kvs, i + 1, hi))
      && t.id !in Pages(kid) && (forall x | x in Pages(kid) :: x in Pages(t) && x < |file|) && Once(Pages(kid))
  {
    hide InsRec, Holds, NodeOf, KidsOrdered, Position, NodeOrdered, HoldsNode, InnerPut;
    var i := Position(t.kvs, key, false);
    var kid := t.kids[i + 1];
    FirstCell(t, i, lo, hi);
    KidPages(t, i + 1);
    KidHeld(cfg, file, t, i + 1);
    LengthenMore(cfg, t, key, val, |file|, view);
  }

  lemma KidHeld(cfg: Cfg, file: seq<Page>, t: Tree, i: nat)
    requires t.Inner? && Holds(cfg, file, t) && i < |t.kids|
    ensures |t.kids| == |t.kvs| + 1 && HoldsAll(cfg, file, t.kids) && Holds(cfg, file, t.kids[i])
    ensures HoldsNode(cfg, file, t.id, NodeOf(t))
  {
    hide HoldsNode, NodeOf;
  }

  lemma KidPages(t: Tree, i: nat)
    requires t.Inner? && i < |t.kids| && Once(Pages(t))
    ensures t.id !in Pages(t.kids[i]) && Once(Pages(t.kids[i])) && forall x | x in Pages(t.kids[i]) :: x in Pages(t)
  {
    forall x
      ensures Pages(t.kids[i])[x] <= PagesOf(t.kids)[x] <= Pages(t)[x] <= 1
      ensures Pages(t)[t.id] == 1 + PagesOf(t.kids)[t.id]
    {
      InPagesOf(t.kids, i, x);
    }
  }

  lemma LengthenMore(cfg: Cfg, t: Tree, key: int, val: Value, pages: nat, view: View)
    requires t.Inner? && |t.kids| == |t.kvs| + 1 && Position(t.kvs, key, false) < |t.kvs|
    ensures var sub := InsRec(cfg, t.kids[Position(t.kvs, key, false) + 1], key, val, pages);
      var ins := Lengthen(cfg, t, key, val, pages, view);
      ins.pages >= sub.pages && (!ins.out.Broken? ==> !sub.out.Broken?)
  {
    hide InsRec, InnerPut;
    var i := Position(t.kvs, key, false);
    var sub := InsRec(cfg, t.kids[i + 1], key, val, pages);
    if sub.out.Split? {
      var node, at := Seen(t, i, view), if view.OnFile? then i + 1 else i;
      var node' := node.(kids := node.kids[at := sub.out.l]);
      var j := Position(node'.kvs, sub.out.m.key, false);
      S.InnerPutMore(cfg, node', j, node'.kids[j], sub.out.m, sub.out.r, sub.pages);
    }
  }

  /** The child behind the cell did not split. */
  lemma DoneHere(cfg: Cfg, f0: seq<Page>, f1: seq<Page>, seen: seq<Page>, stale: set<nat>, t: Tree, key: int,
      val: Value, view: View, mk: int, mv: Value, newId: nat, lo: int, hi: int)
    requires CanLengthen(cfg, f0, t, key, val, view, lo, hi) && Found(t, key, val, lo, hi)
    requires S.Effect(cfg, f0, f1, t.kids[Position(t.kvs, key, false) + 1], key, val, mk, mv, newId, false)
    requires if view.OnFile? then seen == f1 && stale == {}
             else |seen| == |f1| && OnlyPages(f1, seen, multiset{t.id}) && stale == {t.id}
                  && HoldsNode(cfg, seen, t.id, NodeOf(Seen(t, Position(t.kvs, key, false), InCache)))
    ensures Left(cfg, f0, f1, seen, stale, t, key, val, view, mk, mv, newId, false)
  {
    hide InsRec, Holds, NodeOf, Position, HoldsNode, Ordered, Pages, Once, LengthenBelow, Seen, S.CanRec, Longer,
      Holder, Found, OnlyPages, PagesOf;
    var i := Position(t.kvs, key, false);
    Start(cfg, f0, t, key, val, view, lo, hi);
    RootIn(t);
    DoneThere(cfg, f0, f1, seen, stale, t, i, key, val, view, mk, mv, newId);
  }

  lemma DoneThere(cfg: Cfg, f0: seq<Page>, f1: seq<Page>, seen: seq<Page>, stale: set<nat>, t: Tree, i: nat, key: int,
      val: Value, view: View, mk: int, mv: Value, newId: nat)
    requires t.Inner? && |t.kids| == |t.kvs| + 1 && i < |t.kvs| && i == Position(t.kvs, key, false)
      && Longer(t, key, val)
    requires t.kvs[i].key == key && Holds(cfg, f0, t) && Once(Pages(t)) && t.id !in Pages(t.kids[i + 1]) && t.id < |f0|
    requires S.Effect(cfg, f0, f1, t.kids[i + 1], key, val, mk, mv, newId, false)
    requires if view.OnFile? then seen == f1 && stale == {}
             else |seen| == |f1| && OnlyPages(f1, seen, multiset{t.id}) && stale == {t.id}
                  && HoldsNode(cfg, seen, t.id, NodeOf(Seen(t, i, InCache)))
    ensures Left(cfg, f0, f1, seen, stale, t, key, val, view, mk, mv, newId, false)
  {
    hide InsRec, Holds, NodeOf, Position, HoldsNode, Ordered, Pages, Once, LengthenBelow, Seen, Longer, Holder, PagesOf;
    AtNode(t, key, val);
    var kid := t.kids[i + 1];
    var sub := InsRec(cfg, kid, key, val, |f0|);
    BelowDone(cfg, t, i, key, val, |f0|);
    InsertIds(cfg, kid, key, val, |f0|);
    NewIds(cfg, kid, key, val, |f0|);
    S.DoneHolds(cfg, f0, f1, t, i + 1, sub.out.t);
    if view.InCache? {
      SeenHolds(cfg, f0, f1, seen, t, i, sub.out.t);
      RootIn(t);
    }
  }

  lemma BelowDone(cfg: Cfg, t: Tree, i: nat, key: int, val: Value, pages: nat)
    requires Longer(t, key, val) && t.Inner? && |t.kids| == |t.kvs| + 1 && i == Position(t.kvs, key, false)
      && i < |t.kvs|
    requires t.kvs[i].key == key && InsRec(cfg, t.kids[i + 1], key, val, pages).out.Done?
    ensures var sub, u := InsRec(cfg, t.kids[i + 1], key, val, pages), Seen(t, i, InCache);
      && LengthenBelow(cfg, t, key, val, pages, OnFile) == Ins(Done(t.(kids := t.kids[i + 1 := sub.out.t])), sub.pages)
      && u.Inner? && |u.kids| == |t.kids| - 1
      && LengthenBelow(cfg, t, key, val, pages, InCache) == Ins(Done(u.(kids := u.kids[i := sub.out.t])), sub.pages)
  {
    hide InsRec, Position;
  }

  /** The insert below keeps to the child's pages and new ones. */
  lemma NewIds(cfg: Cfg, kid: Tree, key: int, val: Value, pages: nat)
    requires !InsRec(cfg, kid, key, val, pages).out.Broken?
    ensures var ins := InsRec(cfg, kid, key, val, pages);
      forall x | x in OutPages(ins.out) :: x in Pages(kid) || x >= pages
  {
    hide InsRec, OutPages, Pages;
    InsertPages(cfg, kid, key, val, pages);
    var ins := InsRec(cfg, kid, key, val, pages);
    forall x | x in OutPages(ins.out)
      ensures x in Pages(kid) || x >= pages
    {
      FreshCount(pages, ins.pages, x);
    }
  }

  lemma SeenHolds(cfg: Cfg, f0: seq<Page>, f1: seq<Page>, seen: seq<Page>, t: Tree, i: nat, c: Tree)
    requires t.Inner? && |t.kids| == |t.kvs| + 1 && i < |t.kvs| && Holds(cfg, f0, t) && Once(Pages(t))
    requires OnlyPages(f0, f1, Pages(t.kids[i + 1])) && Holds(cfg, f1, c) && c.id == t.kids[i + 1].id
    requires forall x | x in Pages(c) && x < |f0| :: x != t.id
    requires t.id < |f0| && |seen| == |f1| && OnlyPages(f1, seen, multiset{t.id})
    requires HoldsNode(cfg, seen, t.id, NodeOf(Seen(t, i, InCache)))
    ensures var u := Seen(t, i, InCache); Holds(cfg, seen, u.(kids := u.kids[i := c]))
  {
    hide Repr, NodeOf, Pages, Holds;
    SiblingsKept(cfg, f0, f1, t, i + 1);
    var u := Seen(t, i, InCache);
    assert u.kids[i] == t.kids[i + 1];
    HoldsFrame(cfg, f1, seen, c);
    forall j | 0 <= j < |u.kids| && j != i
      ensures Holds(cfg, seen, u.kids[j])
    {
      var k := if j < i then j else j + 1;
      assert u.kids[j] == t.kids[k];
      KidPages(t, k);
      HoldsFrame(cfg, f1, seen, t.kids[k]);
    }
    HoldsReplace(cfg, seen, u, i, c);
  }

  lemma {:induction false} NotInPagesOf(kids: seq<Tree>, x: nat)
    requires forall j | 0 <= j < |kids| :: x !in Pages(kids[j])
    ensures x !in PagesOf(kids)
  {
    hide Pages;
    if kids != [] {
      NotInPagesOf(kids[1..], x);
    }
  }

  lemma BelowSplit(cfg: Cfg, t: Tree, i: nat, key: int, val: Value, pages: nat, view: View)
    requires Longer(t, key, val) && t.Inner? && |t.kids| == |t.kvs| + 1 && i == Position(t.kvs, key, false)
      && i < |t.kvs|
    requires t.kvs[i].key == key && InsRec(cfg, t.kids[i + 1], key, val, pages).out.Split?
    ensures var sub := InsRec(cfg, t.kids[i + 1], key, val, pages);
      var u := Halved(t, i, view, sub.out.l);
      var j := Position(u.kvs, sub.out.m.key, false);
      && u.Inner? && |u.kids| == |u.kvs| + 1 && j <= |u.kvs| && u.id == t.id
      && LengthenBelow(cfg, t, key, val, pages, view) == InnerPut(cfg, u, j, u.kids[j], sub.out.m, sub.out.r, sub.pages)
  {
    hide InsRec, InnerPut;
  }

  lemma HalvedNode(t: Tree, i: nat, view: View, l: Tree)
    requires t.Inner? && |t.kids| == |t.kvs| + 1 && i < |t.kvs| && l.id == t.kids[i + 1].id
    ensures var u, seen := Halved(t, i, view, l), Seen(t, i, view);
      u.Inner? && |u.kids| == |u.kvs| + 1 && |seen.kids| == |seen.kvs| + 1 && seen.Inner? && NodeOf(u) == NodeOf(seen)
  {
    var u, seen := Halved(t, i, view, l), Seen(t, i, view);
    assert InnerCells(u.kvs, u.kids) == InnerCells(seen.kvs, seen.kids);
  }

  lemma HalvedHeld(cfg: Cfg, f0: seq<Page>, f1: seq<Page>, t: Tree, i: nat, view: View, l: Tree, r: Tree, j: nat)
    requires t.Inner? && |t.kids| == |t.kvs| + 1 && i < |t.kvs| && Holds(cfg, f0, t) && Once(Pages(t))
    requires OnlyPages(f0, f1, Pages(t.kids[i + 1])) && Holds(cfg, f1, l) && Holds(cfg, f1, r)
    requires t.id !in Pages(l) && t.id !in Pages(r) && j < |Halved(t, i, view, l).kids|
    ensures var kids := Halved(t, i, view, l).kids;
      var kids' := InsertAt(kids[j := kids[j]], j + 1, r);
      HoldsAll(cfg, f1, kids') && t.id !in PagesOf(kids')
  {
    hide Repr, NodeOf, Pages, Holds, PagesOf, Once;
    SiblingsKept(cfg, f0, f1, t, i + 1);
    var kids := Halved(t, i, view, l).kids;
    forall k | 0 <= k < |kids|
      ensures Holds(cfg, f1, kids[k]) && t.id !in Pages(kids[k])
    {
      HalvedKid(t, i, view, l, k);
      KidPages(t, if view.OnFile? || k < i then k else k + 1);
    }
    PutHeld(cfg, f1, kids, j, r, t.id);
  }

  lemma HalvedKid(t: Tree, i: nat, view: View, l: Tree, k: nat)
    requires t.Inner? && |t.kids| == |t.kvs| + 1 && i < |t.kvs| && k < |Halved(t, i, view, l).kids|
    ensures var from := if view.OnFile? || k < i then k else k + 1;
      from < |t.kids| && Halved(t, i, view, l).kids[k] == if from == i + 1 then l else t.kids[from]
  {
  }

  lemma PutHeld(cfg: Cfg, file: seq<Page>, kids: seq<Tree>, j: nat, r: Tree, id: nat)
    requires j < |kids| && Holds(cfg, file, r) && id !in Pages(r)
    requires forall k | 0 <= k < |kids| :: Holds(cfg, file, kids[k]) && id !in Pages(kids[k])
    ensures var kids' := InsertAt(kids[j := kids[j]], j + 1, r); HoldsAll(cfg, file, kids') && id !in PagesOf(kids')
  {
    hide Holds, Pages, PagesOf;
    var kids' := InsertAt(kids[j := kids[j]], j + 1, r);
    NotInPagesOf(kids', id);
  }

  /** The child behind the cell split, and the node that was read again has been written. */
  lemma SplitHere(cfg: Cfg, f0: seq<Page>, f1: seq<Page>, f2: seq<Page>, t: Tree, key: int, val: Value, view: View,
      mk0: int, mv0: Value, newId0: nat, mk: int, mv: Value, newId: nat, split: bool, lo: int, hi: int)
    requires CanLengthen(cfg, f0, t, key, val, view, lo, hi) && Found(t, key, val, lo, hi)
    requires S.Effect(cfg, f0, f1, t.kids[Position(t.kvs, key, false) + 1], key, val, mk0, mv0, newId0, true)
    requires OnlyPages(f1, f2, multiset{t.id})
    requires var ins := LengthenBelow(cfg, t, key, val, |f0|, view);
      S.InnerPages(cfg, f2, t.id, |f1|, ins.out) && |f2| == ins.pages
        && S.Reports(cfg.acc, ins.out, mk, mv, newId, split)
    ensures Left(cfg, f0, f2, f2, {}, t, key, val, view, mk, mv, newId, split)
  {
    var i := Position(t.kvs, key, false);
    var kid := t.kids[i + 1];
    BehindCan(cfg, f0, t, key, val, view, lo, hi);
    AtNode(t, key, val);
    var sub := InsRec(cfg, kid, key, val, |f0|);
    BelowSplit(cfg, t, i, key, val, |f0|, view);
    NewIds(cfg, kid, key, val, |f0|);
    assert t.id in Pages(t);
    var u := Halved(t, i, view, sub.out.l);
    var j := Position(u.kvs, sub.out.m.key, false);
    assert OnlyPages(f0, f1, Pages(kid)) && Holds(cfg, f1, sub.out.l) && Holds(cfg, f1, sub.out.r) && |f1| == sub.pages;
    assert Holds(cfg, f0, t) && Once(Pages(t));
    hide *;
    HalvedPut(cfg, f0, f1, f2, t, i, view, sub.out.l, sub.out.m, sub.out.r, j);
    LeftSplit(cfg, f0, f2, t, key, val, view, mk, mv, newId, split);
  }

  lemma LeftSplit(cfg: Cfg, f0: seq<Page>, f2: seq<Page>, t: Tree, key: int, val: Value, view: View, mk: int, mv: Value,
      newId: nat, split: bool)
    requires Longer(t, key, val) && Written(cfg, t, key, val, |f0|) && OnlyPages(f0, f2, Pages(t))
    requires var ins := LengthenBelow(cfg, t, key, val, |f0|, view);
      HoldsOut(cfg, f2, ins.out) && |f2| == ins.pages && S.Reports(cfg.acc, ins.out, mk, mv, newId, split)
    ensures Left(cfg, f0, f2, f2, {}, t, key, val, view, mk, mv, newId, split)
  {
    hide Longer, Written, LengthenBelow, S.Reports, Pages, HoldsOut, OnlyPages;
  }

  lemma HalvedPut(cfg: Cfg, f0: seq<Page>, f1: seq<Page>, f2: seq<Page>, t: Tree, i: nat, view: View, l: Tree, m: KV,
      r: Tree, j: nat)
    requires t.Inner? && |t.kids| == |t.kvs| + 1 && i < |t.kvs| && Holds(cfg, f0, t) && Once(Pages(t))
    requires OnlyPages(f0, f1, Pages(t.kids[i + 1])) && Holds(cfg, f1, l) && Holds(cfg, f1, r) && |f0| <= |f1|
    requires t.id !in Pages(l) && t.id !in Pages(r) && OnlyPages(f1, f2, multiset{t.id})
    requires var u := Halved(t, i, view, l);
      && u.Inner? && |u.kids| == |u.kvs| + 1 && j <= |u.kvs| && u.id == t.id
      && S.InnerPages(cfg, f2, t.id, |f1|, InnerPut(cfg, u, j, u.kids[j], m, r, |f1|).out)
    ensures var u := Halved(t, i, view, l); HoldsOut(cfg, f2, InnerPut(cfg, u, j, u.kids[j], m, r, |f1|).out)
    ensures OnlyPages(f0, f2, Pages(t))
  {
    hide Holds, NodeOf, HoldsNode, Once, Halved, InnerPut, Pages, InsertAt, HoldsAll, PagesOf;
    var u := Halved(t, i, view, l);
    HalvedHeld(cfg, f0, f1, t, i, view, l, r, j);
    InnerPutHolds(cfg, f1, f2, u, j, u.kids[j], m, r, |f1|);
    KidPages(t, i + 1);
    RootIn(t);
  }

  /** What LengthenHere needs to know before it starts. */
  lemma Start(cfg: Cfg, file: seq<Page>, t: Tree, key: int, val: Value, view: View, lo: int, hi: int)
    requires CanLengthen(cfg, file, t, key, val, view, lo, hi) && Found(t, key, val, lo, hi)
    ensures var i := Position(t.kvs, key, false);
      && i < |t.kvs| && t.Inner? && |t.kids| == |t.kvs| + 1 && t.kvs[i].key == key && cfg.acc.BTreeAcc?
      && HoldsNode(cfg, file, t.id, NodeOf(t)) && S.Ascending(t.kvs)
      && S.CanRec(cfg, file, t.kids[i + 1], key, val, key, Hi(t.kvs, i + 1, hi)) && t.id !in Pages(t.kids[i + 1])
      && Once(Pages(t)) && (forall x | x in Pages(t) :: x < |file|)
      && !InsRec(cfg, t.kids[i + 1], key, val, |file|).out.Broken?
  {
    BehindCan(cfg, file, t, key, val, view, lo, hi);
    hide InsRec, NodeOf, HoldsNode, Position, Pages, Holds, KidsOrdered, LengthenBelow;
    KidHeld(cfg, file, t, 0);
  }

  lemma Longest(cfg: Cfg, f0: seq<Page>, f1: seq<Page>, t: Tree, key: int, val: Value, mk: int, mv: Value, newId: nat)
    requires t.Inner? && |t.kids| == |t.kvs| + 1 && Position(t.kvs, key, false) < |t.kvs| && t.id < |f0|
    requires S.Effect(cfg, f0, f1, t.kids[Position(t.kvs, key, false) + 1], key, val, mk, mv, newId, false)
    ensures t.id < |f1|
  {
    hide InsRec, HoldsOut, S.Reports;
  }

  /** What writing the node back needs to know. */
  ghost predicate Pending(cfg: Cfg, f0: seq<Page>, f1: seq<Page>, t: Tree, i: nat, key: int, val: Value, view: View,
      mk0: int, mv0: Value, rc: nat) {
    && t.Inner? && |t.kids| == |t.kvs| + 1 && i < |t.kvs| && i == Position(t.kvs, key, false) && Longer(t, key, val)
    && HoldsNode(cfg, f1, t.id, NodeOf(t)) && |f1| < INVALID_PAGE
    && Legal(cfg.acc, false, Cell(mk0, mv0, 0)) && !cfg.acc.Upper(false)
    && var sub := InsRec(cfg, t.kids[i + 1], key, val, |f0|).out;
      && sub.Split? && sub.m == KV(mk0, mv0) && rc == sub.r.id < 0x1_0000_0000
      && var u := Halved(t, i, view, sub.l);
        var j := Position(u.kvs, mk0, false);
        && u.Inner? && |u.kids| == |u.kvs| + 1 && u.id == t.id && j <= |u.kvs| && S.Ascending(u.kvs)
        && Seen(t, i, view).Inner? && |Seen(t, i, view).kids| == |Seen(t, i, view).kvs| + 1
        && NodeOf(u) == NodeOf(Seen(t, i, view))
        && LengthenBelow(cfg, t, key, val, |f0|, view) == InnerPut(cfg, u, j, u.kids[j], KV(mk0, mv0), sub.r, |f1|)
        && !InnerPut(cfg, u, j, u.kids[j], KV(mk0, mv0), sub.r, |f1|).out.Broken?
  }

  lemma BackFacts(cfg: Cfg, f0: seq<Page>, f1: seq<Page>, t: Tree, i: nat, key: int, val: Value, view: View, mk0: int,
      mv0: Value, rc: nat, lo: int, hi: int)
    requires CanLengthen(cfg, f0, t, key, val, view, lo, hi) && Found(t, key, val, lo, hi)
    requires t.Inner? && i == Position(t.kvs, key, false) && i + 1 < |t.kids|
    requires S.Effect(cfg, f0, f1, t.kids[i + 1], key, val, mk0, mv0, rc, true)
    ensures Pending(cfg, f0, f1, t, i, key, val, view, mk0, mv0, rc)
  {
    hide InsRec, NodeOf, HoldsNode, Position, Pages, Holds, Ordered, LengthenBelow, InnerPut, Halved, Seen, S.Ascending,
      S.CanRec, Found, Longer, PagesOf, Once;
    var kid := t.kids[i + 1];
    Start(cfg, f0, t, key, val, view, lo, hi);
    var sub := InsRec(cfg, kid, key, val, |f0|);
    InsertIds(cfg, kid, key, val, |f0|);
    BelowSplit(cfg, t, i, key, val, |f0|, view);
    HalvedNode(t, i, view, sub.out.l);
    var u := Halved(t, i, view, sub.out.l);
    var j := Position(u.kvs, mk0, false);
    S.InnerPutMore(cfg, u, j, u.kids[j], sub.out.m, sub.out.r, sub.pages);
    HalvedAscending(t, i, view, sub.out.l);
    SiblingsKept(cfg, f0, f1, t, i + 1);
  }

  lemma HalvedAscending(t: Tree, i: nat, view: View, l: Tree)
    requires t.Inner? && |t.kids| == |t.kvs| + 1 && i < |t.kvs| && S.Ascending(t.kvs)
    ensures S.Ascending(Halved(t, i, view, l).kvs)
  {
  }

  /** The node's page is still cached after the insert below it exactly when ViewAfter says so. */
  lemma Residency(cfg: Cfg, t: Tree, i: nat, key: int, val: Value, pages: nat, cap: nat, ids0: seq<nat>, ids1: seq<nat>,
      ids2: seq<nat>)
    requires Longer(t, key, val) && t.Inner? && i == Position(t.kvs, key, false) && i < |t.kvs| && t.kvs[i].key == key
    requires |t.kids| == |t.kvs| + 1
    requires Once(Pages(t)) && (forall x | x in Pages(t) :: x < pages) && NoRepeats(ids0) && |ids0| <= cap
    requires !InsRec(cfg, t.kids[i + 1], key, val, pages).out.Broken?
    requires Accesses(ids0, ids1, cap, [t.id])
      && Accesses(ids1, ids2, cap, Touched(cfg, t.kids[i + 1], key, val, pages))
    ensures t.id in ids2 <==> ViewAfter(cfg, t, key, val, pages, cap).InCache?
  {
    AtNode(t, key, val);
    hide InsRec, Position, Pages, Touched, Longer, Accessed, NoRepeats;
    KidPages(t, i + 1);
    RootIn(t);
    TouchedCount(cfg, t.kids[i + 1], key, val, pages);
    AccessOne(ids0, cap, t.id);
    NotTouched(t.id, Touched(cfg, t.kids[i + 1], key, val, pages));
    StaysCached(ids0, cap, t.id, Touched(cfg, t.kids[i + 1], key, val, pages));
  }

  lemma NotTouched(id: nat, trace: seq<nat>)
    requires id !in Distinct(trace)
    ensures id !in trace
  {
  }

  // ---------------------------------------------------------------- the nodes above

  /** A node above the one with the cell: the same holds for the child on the search path. */
  lemma AboveCan(cfg: Cfg, file: seq<Page>, t: Tree, i: nat, key: int, val: Value, view: View, lo: int, hi: int)
    requires CanLengthen(cfg, file, t, key, val, view, lo, hi) && i == Position(t.kvs, key, false)
    requires !(i < |t.kvs| && t.kvs[i].key == key)
    ensures t.Inner? && |t.kids| == |t.kvs| + 1 && i <= |t.kvs| && Longer(t.kids[i], key, val)
    ensures CanLengthen(cfg, file, t.kids[i], key, val, view, Lo(BTreeAcc, t.kvs, i, lo), Hi(t.kvs, i, hi))
    ensures forall cap :: ViewAfter(cfg, t, key, val, |file|, cap) == ViewAfter(cfg, t.kids[i], key, val, |file|, cap)
    ensures Written(cfg, t, key, val, |file|) == Written(cfg, t.kids[i], key, val, |file|)
  {
    hide InsRec, NodeOf, HoldsNode, Position, Pages, Holds, KidsOrdered, InnerPut, Lengthen, Touched, NodeOrdered, Once;
    OneDown(t, key, val, lo, hi);
    OneLower(t, key, val);
    KidHeld(cfg, file, t, i);
    KidPages(t, i);
    BelowMore(cfg, t, i, key, val, |file|, view);
  }

  lemma BelowMore(cfg: Cfg, t: Tree, i: nat, key: int, val: Value, pages: nat, view: View)
    requires t.Inner? && |t.kids| == |t.kvs| + 1 && i == Position(t.kvs, key, false) && i <= |t.kvs|
    requires Longer(t, key, val) && Longer(t.kids[i], key, val) && !(i < |t.kvs| && t.kvs[i].key == key)
    ensures var sub, ins := LengthenBelow(cfg, t.kids[i], key, val, pages, view),
      LengthenBelow(cfg, t, key, val, pages, view);
      && sub.pages <= ins.pages
      && (!ins.out.Broken? ==> !sub.out.Broken?)
      && (sub.out.Done? ==> ins == Ins(Done(t.(kids := t.kids[i := sub.out.t])), sub.pages))
      && (sub.out.Split? ==> ins == InnerPut(cfg, t, i, sub.out.l, sub.out.m, sub.out.r, sub.pages))
  {
    hide InnerPut, Lengthen, Longer, Position;
    var sub := LengthenBelow(cfg, t.kids[i], key, val, pages, view);
    if sub.out.Split? {
      S.InnerPutMore(cfg, t, i, sub.out.l, sub.out.m, sub.out.r, sub.pages);
    }
  }

  /** What a node above its child's outcome relies on. */
  ghost predicate Above(cfg: Cfg, f0: seq<Page>, t: Tree, i: nat, key: int, val: Value, view: View, lo: int, hi: int) {
    && CanLengthen(cfg, f0, t, key, val, view, lo, hi) && i == Position(t.kvs, key, false)
    && !(i < |t.kvs| && t.kvs[i].key == key) && t.Inner? && |t.kids| == |t.kvs| + 1 && i <= |t.kvs|
    && Longer(t.kids[i], key, val)
  }

  lemma ChildShape(cfg: Cfg, f0: seq<Page>, t: Tree, i: nat, key: int, val: Value, view: View, lo: int, hi: int)
    requires Above(cfg, f0, t, i, key, val, view, lo, hi)
    ensures Holds(cfg, f0, t) && Once(Pages(t)) && t.id !in Pages(t.kids[i]) && (forall x | x in Pages(t) :: x < |f0|)
    ensures Shaped(t.kids[i], LengthenBelow(cfg, t.kids[i], key, val, |f0|, view), Lo(BTreeAcc, t.kvs, i, lo),
      Hi(t.kvs, i, hi))
    ensures Shaped(t.kids[i], LengthenBelow(cfg, t.kids[i], key, val, |f0|, OnFile), Lo(BTreeAcc, t.kvs, i, lo),
      Hi(t.kvs, i, hi))
  {
    hide InsRec, NodeOf, HoldsNode, Position, Pages, Holds, KidsOrdered, LengthenBelow, Shaped, Longer, NodeOrdered;
    OneDown(t, key, val, lo, hi);
    KidPages(t, i);
    LengthenedShape(cfg, t.kids[i], key, val, |f0|, view, Lo(BTreeAcc, t.kvs, i, lo), Hi(t.kvs, i, hi));
    LengthenedShape(cfg, t.kids[i], key, val, |f0|, OnFile, Lo(BTreeAcc, t.kvs, i, lo), Hi(t.kvs, i, hi));
  }

  /** A child that did not split ends the insert at the nodes above as well. */
  lemma AboveDone(cfg: Cfg, f0: seq<Page>, f1: seq<Page>, seen: seq<Page>, stale: set<nat>, t: Tree, i: nat, key: int,
      val: Value, view: View, mk: int, mv: Value, newId: nat, lo: int, hi: int)
    requires Above(cfg, f0, t, i, key, val, view, lo, hi)
    requires Left(cfg, f0, f1, seen, stale, t.kids[i], key, val, view, mk, mv, newId, false)
    ensures Longer(t, key, val) && Left(cfg, f0, f1, seen, stale, t, key, val, view, mk, mv, newId, false)
  {
    hide InsRec, NodeOf, HoldsNode, Position, Pages, Holds, Ordered, LengthenBelow, Longer, Once, OnlyPages, PagesOf,
      Touched, ViewAfter, Holder, CanLengthen;
    ChildShape(cfg, f0, t, i, key, val, view, lo, hi);
    SamePath(cfg, f0, t, i, key, val, view, lo, hi);
    BelowMore(cfg, t, i, key, val, |f0|, view);
    BelowMore(cfg, t, i, key, val, |f0|, OnFile);
    var sub, sub' := LengthenBelow(cfg, t.kids[i], key, val, |f0|, view),
      LengthenBelow(cfg, t.kids[i], key, val, |f0|, OnFile);
    S.DoneHolds(cfg, f0, seen, t, i, sub.out.t);
    if Written(cfg, t, key, val, |f0|) {
      assert f1 == seen;
    } else {
      OnFileDone(cfg, t.kids[i], key, val, |f0|);
      S.DoneHolds(cfg, f0, f1, t, i, sub'.out.t);
    }
  }

  lemma SamePath(cfg: Cfg, f0: seq<Page>, t: Tree, i: nat, key: int, val: Value, view: View, lo: int, hi: int)
    requires Above(cfg, f0, t, i, key, val, view, lo, hi)
    ensures Longer(t, key, val) && Holder(t, key) == Holder(t.kids[i], key)
    ensures Written(cfg, t, key, val, |f0|) == Written(cfg, t.kids[i], key, val, |f0|)
  {
    hide InsRec, Position, LengthenBelow;
    OneLower(t, key, val);
  }

  /** When the node with the cell is not written, no node on the path splits. */
  lemma {:induction false} OnFileDone(cfg: Cfg, t: Tree, key: int, val: Value, pages: nat)
    requires Longer(t, key, val) && !Written(cfg, t, key, val, pages)
    ensures !LengthenBelow(cfg, t, key, val, pages, OnFile).out.Split?
    decreases t
  {
    hide InsRec, InnerPut;
    var i := Position(t.kvs, key, false);
    if !(i < |t.kvs| && t.kvs[i].key == key) {
      OneLower(t, key, val);
      OnFileDone(cfg, t.kids[i], key, val, pages);
    }
  }

  /** What putting the child's halves into the node above relies on. */
  ghost predicate Rising(cfg: Cfg, f0: seq<Page>, f1: seq<Page>, t: Tree, i: nat, key: int, val: Value, view: View,
      mk: int, mv: Value, newId: nat) {
    && t.Inner? && |t.kids| == |t.kvs| + 1 && i <= |t.kvs| && Longer(t, key, val) && Longer(t.kids[i], key, val)
    && HoldsNode(cfg, f1, t.id, NodeOf(t)) && S.Ascending(t.kvs) && |f1| < INVALID_PAGE
    && Legal(cfg.acc, false, Cell(mk, mv, 0)) && Position(t.kvs, mk, cfg.acc.Upper(false)) == i
    && var sub := LengthenBelow(cfg, t.kids[i], key, val, |f0|, view);
      && sub.out.Split? && sub.out.m == KV(mk, mv) && sub.out.l.id == t.kids[i].id
        && newId == sub.out.r.id < 0x1_0000_0000
      && sub.pages == |f1|
      && LengthenBelow(cfg, t, key, val, |f0|, view) == InnerPut(cfg, t, i, sub.out.l, KV(mk, mv), sub.out.r, |f1|)
      && !InnerPut(cfg, t, i, sub.out.l, KV(mk, mv), sub.out.r, |f1|).out.Broken?
  }

  lemma AtAbove(cfg: Cfg, f0: seq<Page>, f1: seq<Page>, seen: seq<Page>, stale: set<nat>, t: Tree, i: nat, key: int,
      val: Value, view: View, mk: int, mv: Value, newId: nat, lo: int, hi: int)
    requires Above(cfg, f0, t, i, key, val, view, lo, hi)
    requires Left(cfg, f0, f1, seen, stale, t.kids[i], key, val, view, mk, mv, newId, true)
    ensures stale == {} && seen == f1 && Written(cfg, t.kids[i], key, val, |f0|)
    ensures Rising(cfg, f0, f1, t, i, key, val, view, mk, mv, newId)
  {
    hide InsRec, NodeOf, HoldsNode, Position, Pages, Holds, KidsOrdered, LengthenBelow, Longer, Once, PagesOf, Touched,
      HoldsOut, ViewAfter, Holder, InnerPut, Legal, NodeOrdered, Written;
    ChildShape(cfg, f0, t, i, key, val, view, lo, hi);
    BelowMore(cfg, t, i, key, val, |f0|, view);
    SiblingsKept(cfg, f0, f1, t, i);
    KeyAbove(t, i, mk, lo, hi);
  }

  lemma KeyAbove(t: Tree, i: nat, mk: int, lo: int, hi: int)
    requires t.Inner? && |t.kids| == |t.kvs| + 1 && i <= |t.kvs| && Ordered(BTreeAcc, false, t, lo, hi)
    requires Lo(BTreeAcc, t.kvs, i, lo) <= mk < Hi(t.kvs, i, hi)
    ensures S.Ascending(t.kvs) && Position(t.kvs, mk, false) == i
  {
    hide KidsOrdered;
    forall j | 0 <= j < i
      ensures t.kvs[j].key < mk
    {
      assert j < i - 1 ==> t.kvs[j].key < t.kvs[i - 1].key;
    }
    PositionUnique(t.kvs, mk, false, i);
  }

  lemma AboveSplit(cfg: Cfg, f0: seq<Page>, f1: seq<Page>, f2: seq<Page>, seen: seq<Page>, stale: set<nat>, t: Tree,
      i: nat, key: int, val: Value, view: View, mk0: int, mv0: Value, newId0: nat, mk: int, mv: Value, newId: nat,
      split: bool, lo: int, hi: int)
    requires Above(cfg, f0, t, i, key, val, view, lo, hi)
    requires Left(cfg, f0, f1, seen, stale, t.kids[i], key, val, view, mk0, mv0, newId0, true)
    requires OnlyPages(f1, f2, multiset{t.id})
    requires Longer(t, key, val)
    requires var ins := LengthenBelow(cfg, t, key, val, |f0|, view);
      S.InnerPages(cfg, f2, t.id, |f1|, ins.out) && |f2| == ins.pages
        && S.Reports(cfg.acc, ins.out, mk, mv, newId, split)
    ensures Left(cfg, f0, f2, f2, {}, t, key, val, view, mk, mv, newId, split)
  {
    hide InsRec, NodeOf, HoldsNode, Position, Pages, Holds, Ordered, LengthenBelow, Longer, Once, PagesOf, Touched,
      ViewAfter, Holder, InnerPut, Legal, Written, CanLengthen, S.InnerPages, S.Reports, Lo, Hi;
    AtAbove(cfg, f0, f1, seen, stale, t, i, key, val, view, mk0, mv0, newId0, lo, hi);
    ChildShape(cfg, f0, t, i, key, val, view, lo, hi);
    SamePath(cfg, f0, t, i, key, val, view, lo, hi);
    var sub := LengthenBelow(cfg, t.kids[i], key, val, |f0|, view);
    NewIdsBelow(cfg, t.kids[i], key, val, |f0|, view);
    RootIn(t);
    PutAbove(cfg, f0, f1, f2, t, i, sub.out.l, sub.out.m, sub.out.r);
    LeftSplit(cfg, f0, f2, t, key, val, view, mk, mv, newId, split);
  }

  lemma NewIdsBelow(cfg: Cfg, t: Tree, key: int, val: Value, pages: nat, view: View)
    requires Longer(t, key, val) && !LengthenBelow(cfg, t, key, val, pages, view).out.Broken?
    ensures forall x | x in OutPages(LengthenBelow(cfg, t, key, val, pages, view).out) :: x in Pages(t) || x >= pages
  {
    hide LengthenBelow, OutPages, Pages, Longer, Dropped;
    LengthenedPages(cfg, t, key, val, pages, view);
    var ins := LengthenBelow(cfg, t, key, val, pages, view);
    forall x | x in OutPages(ins.out)
      ensures x in Pages(t) || x >= pages
    {
      FreshCount(pages, ins.pages, x);
      assert x in OutPages(ins.out) + Dropped(t, key, view);
    }
  }

  lemma PutAbove(cfg: Cfg, f0: seq<Page>, f1: seq<Page>, f2: seq<Page>, t: Tree, i: nat, l: Tree, m: KV, r: Tree)
    requires t.Inner? && |t.kids| == |t.kvs| + 1 && i <= |t.kvs| && Holds(cfg, f0, t) && Once(Pages(t))
    requires OnlyPages(f0, f1, Pages(t.kids[i])) && Holds(cfg, f1, l) && Holds(cfg, f1, r) && |f0| <= |f1|
    requires t.id !in Pages(l) && t.id !in Pages(r) && OnlyPages(f1, f2, multiset{t.id})
    requires S.InnerPages(cfg, f2, t.id, |f1|, InnerPut(cfg, t, i, l, m, r, |f1|).out)
    ensures HoldsOut(cfg, f2, InnerPut(cfg, t, i, l, m, r, |f1|).out) && OnlyPages(f0, f2, Pages(t))
  {
    hide Holds, NodeOf, HoldsNode, Once, InnerPut, Pages, HoldsAll, PagesOf;
    SiblingsKept(cfg, f0, f1, t, i);
    var kids := t.kids[i := l];
    forall k | 0 <= k < |kids|
      ensures Holds(cfg, f1, kids[k]) && t.id !in Pages(kids[k])
    {
      KidPages(t, k);
    }
    PutHeld(cfg, f1, kids, i, r, t.id);
    assert kids[i := kids[i]] == kids;
    InnerPutHolds(cfg, f1, f2, t, i, l, m, r, |f1|);
    RootIn(t);
  }

  // ---------------------------------------------------------------- the condition in numbers

  lemma {:induction false} WalkDown(t: Tree, key: int, h: nat, lo: int, hi: int)
    requires Uniform(t, h) && Ordered(BTreeAcc, false, t, lo, hi) && key < lo
    ensures Walk(BTreeAcc, t, key) == h
    decreases t
  {
    hide KidsOrdered;
    var i := Position(t.kvs, key, false);
    if t.Inner? {
      KidOrdered(BTreeAcc, false, t.kvs, t.kids, 0, lo, hi);
      WalkDown(t.kids[0], key, h - 1, lo, Hi(t.kvs, 0, hi));
    }
  }

  /**
   The node stays cached exactly when the cache is larger than the subtree behind the cell is high, by one more page
   for each page that is allocated below the node. A cache without room for any page never shows the copy in the
   buffer.
   */
  lemma ViewInNumbers(cfg: Cfg, t: Tree, key: int, val: Value, pages: nat, cap: nat, h: nat, lo: int, hi: int)
    requires cfg.acc.BTreeAcc? && Found(t, key, val, lo, hi) && Longer(t, key, val) && Uniform(t, h)
    requires Once(Pages(t)) && forall x | x in Pages(t) :: x < pages
    requires var kid := t.kids[Position(t.kvs, key, false) + 1]; !InsRec(cfg, kid, key, val, pages).out.Broken?
    ensures var below := InsRec(cfg, t.kids[Position(t.kvs, key, false) + 1], key, val, pages).pages - pages;
      ViewAfter(cfg, t, key, val, pages, cap).InCache? <==> h - 1 + below < cap
  {
    hide InsRec, Pages, Touched, KidsOrdered, Uniform;
    var i := Position(t.kvs, key, false);
    AtNode(t, key, val);
    FirstCell(t, i, lo, hi);
    KidOrdered(BTreeAcc, false, t.kvs, t.kids, i + 1, lo, hi);
    KidUniform(t, i + 1, h);
    WalkDown(t.kids[i + 1], key, h - 1, key + 1, Hi(t.kvs, i + 1, hi));
    KidPages(t, i + 1);
    TouchedCount(cfg, t.kids[i + 1], key, val, pages);
  }

  lemma KidUniform(t: Tree, i: nat, h: nat)
    requires t.Inner? && Uniform(t, h) && i < |t.kids|
    ensures h > 1 && Uniform(t.kids[i], h - 1)
  {
  }
}
