/**
 The case of Misplaced carried to the root: what insertRec makes of a B+ tree when the second search of any node on the
 path may pass right neighbours. The records are always right; the leaves stay a chain exactly when no promoted key
 repeats.
 */
module MisplacedRoot {
  import opened Bytes
  import opened Records
  import opened TreeModel
  import opened Order
  import opened Contents
  import opened Shape
  import opened Database
  import opened Refine
  import opened Misplaced
  import L = LengthenTree

  /** insertRec of a B+ tree, wherever its second searches lead. */
  function CodeRec(cfg: Cfg, t: Tree, key: int, val: Value, pages: nat): Ins
    decreases t
  {
    var i := Position(t.kvs, key, cfg.acc.Upper(t.Leaf?));
    if t.Leaf? then InsRec(cfg, t, key, val, pages)
    else if |t.kids| != |t.kvs| + 1 then Ins(Broken, pages)
    else
      var sub := CodeRec(cfg, t.kids[i], key, val, pages);
      match sub.out
      case Broken => sub
      case Done(c) => Ins(Done(t.(kids := t.kids[i := c])), sub.pages)
      case Split(l, m, r) => Resumed(cfg, t, i, l, m, r, sub.pages)
  }

  /** At some node of the search path the promoted key equals the separator to the child's right. */
  predicate RepeatsBelow(cfg: Cfg, t: Tree, key: int, val: Value, pages: nat)
    decreases t
  {
    var i := Position(t.kvs, key, cfg.acc.Upper(t.Leaf?));
    t.Inner? && |t.kids| == |t.kvs| + 1 &&
    (|| RepeatsBelow(cfg, t.kids[i], key, val, pages)
     || var out := CodeRec(cfg, t.kids[i], key, val, pages).out; out.Split? && Repeats(t, i, out.m))
  }

  /** Where the model has an answer it is this one. */
  lemma {:induction false} ExtendsModel(cfg: Cfg, t: Tree, key: int, val: Value, pages: nat)
    requires cfg.acc.CopyUp() && !InsRec(cfg, t, key, val, pages).out.Broken?
    ensures CodeRec(cfg, t, key, val, pages) == InsRec(cfg, t, key, val, pages)
    decreases t
  {
    hide InnerPut, LeafPut, Resumed;
    if t.Inner? {
      var i := Position(t.kvs, key, true);
      ExtendsModel(cfg, t.kids[i], key, val, pages);
      var sub := InsRec(cfg, t.kids[i], key, val, pages);
      if sub.out.Split? {
        ResumedAsModelled(cfg, t, i, sub.out.l, sub.out.m, sub.out.r, sub.pages);
      }
    }
  }

  // ---------------------------------------------------------------- the records

  ghost predicate AllAbove(s: seq<KV>, x: int) {
    forall i | 0 <= i < |s| :: x <= s[i].key
  }

  /** A promoted key is in the node's range, and no record to its right is smaller. */
  ghost predicate Cut(acc: Acc, out: Out, lo: int, hi: int) {
    out.Split? ==> lo <= out.m.key <= hi && AllAbove(Entries(acc, out.r), out.m.key)
  }

  lemma {:induction false} FlatAllAbove(acc: Acc, kvs: seq<KV>, kids: seq<Tree>, x: int)
    requires acc.CopyUp() && |kids| == |kvs| + 1 && forall j | 0 <= j < |kids| :: AllAbove(Entries(acc, kids[j]), x)
    ensures AllAbove(Flat(acc, kvs, kids), x)
    decreases kids
  {
    hide Entries;
    if kvs != [] {
      FlatAllAbove(acc, kvs[1..], kids[1..], x);
    }
  }

  lemma KidAbove(acc: Acc, t: Tree, a: nat, b: nat, lo: int, hi: int)
    requires acc.CopyUp() && t.Inner? && |t.kids| == |t.kvs| + 1 && Ordered(acc, false, t, lo, hi) && a < b < |t.kids|
    ensures AllAbove(Entries(acc, t.kids[b]), t.kvs[a].key)
  {
    hide KidsOrdered;
    KidOrdered(acc, false, t.kvs, t.kids, b, lo, hi);
    EntriesSorted(acc, false, t.kids[b], Lo(acc, t.kvs, b, lo), Hi(t.kvs, b, hi));
    assert a < b - 1 ==> t.kvs[a].key <= t.kvs[b - 1].key;
  }

  /** Parts of the records of a child that has split. */
  lemma HalvesAbove(acc: Acc, out: Out, s: seq<KV>, klo: int, khi: int)
    requires acc.CopyUp() && out.Split? && OutEntries(acc, out) == s && Within(s, klo, khi)
    ensures Within(Entries(acc, out.l), klo, khi) && Within(Entries(acc, out.r), klo, khi)
  {
    hide Entries;
    var a, b := Entries(acc, out.l), Entries(acc, out.r);
    forall i | 0 <= i < |a|
      ensures klo <= a[i].key < khi
    {
      assert s[i] == a[i];
    }
    forall i | 0 <= i < |b|
      ensures klo <= b[i].key < khi
    {
      assert s[|a| + i] == b[i];
    }
  }

  lemma PutWithin(s: seq<KV>, key: int, val: Value, lo: int, hi: int)
    requires Within(s, lo, hi) && lo <= key < hi
    ensures Within(Put(s, key, val), lo, hi)
  {
  }

  /** What the parent knows about the outcome at child i. */
  ghost predicate Below(cfg: Cfg, t: Tree, i: nat, key: int, val: Value, out: Out, lo: int, hi: int) {
    && cfg.acc.CopyUp() && t.Inner? && |t.kids| == |t.kvs| + 1 && i <= |t.kvs| && Ordered(cfg.acc, false, t, lo, hi)
    && lo <= key < hi && i == Position(t.kvs, key, true) && out.Split?
    && OutEntries(cfg.acc, out) == Put(Entries(cfg.acc, t.kids[i]), key, val)
    && Cut(cfg.acc, out, Lo(cfg.acc, t.kvs, i, lo), Hi(t.kvs, i, hi))
  }

  lemma BelowFacts(cfg: Cfg, t: Tree, i: nat, key: int, val: Value, out: Out, lo: int, hi: int)
    requires Below(cfg, t, i, key, val, out, lo, hi)
    ensures var klo, khi := Lo(cfg.acc, t.kvs, i, lo), Hi(t.kvs, i, hi);
      && klo <= key < khi
      && Within(Entries(cfg.acc, out.l), klo, khi) && Within(Entries(cfg.acc, out.r), klo, khi)
      && AllAbove(Entries(cfg.acc, out.r), out.m.key)
    ensures var j := Position(t.kvs, out.m.key, true);
      i <= j <= |t.kvs| && (j != i <==> Repeats(t, i, out.m)) && (j != i ==> Entries(cfg.acc, out.r) == [])
  {
    hide KidsOrdered, Entries, Put, Position, OutEntries;
    var klo, khi := Lo(cfg.acc, t.kvs, i, lo), Hi(t.kvs, i, hi);
    DescentRange(cfg.acc, false, t, key, lo, hi);
    KidOrdered(cfg.acc, false, t.kvs, t.kids, i, lo, hi);
    EntriesSorted(cfg.acc, false, t.kids[i], klo, khi);
    PutWithin(Entries(cfg.acc, t.kids[i]), key, val, klo, khi);
    HalvesAbove(cfg.acc, out, Put(Entries(cfg.acc, t.kids[i]), key, val), klo, khi);
    Missed(cfg.acc, t, i, out.m, lo, hi);
    if Repeats(t, i, out.m) {
      assert out.m.key == khi;
      NothingLeft(Entries(cfg.acc, out.r), klo, khi);
    }
  }

  lemma NothingLeft(s: seq<KV>, lo: int, hi: int)
    ensures Within(s, lo, hi) && AllAbove(s, hi) ==> s == []
  {
    assert s != [] ==> !(hi <= s[0].key < hi);
  }

  lemma Missed(acc: Acc, t: Tree, i: nat, m: KV, lo: int, hi: int)
    requires acc.CopyUp() && t.Inner? && NodeOrdered(acc, false, false, t.kvs, lo, hi) && i <= |t.kvs|
    requires Lo(acc, t.kvs, i, lo) <= m.key <= Hi(t.kvs, i, hi)
    ensures var j := Position(t.kvs, m.key, true); i <= j <= |t.kvs| && (j != i <==> Repeats(t, i, m))
  {
    if !Repeats(t, i, m) {
      PositionUnique(t.kvs, m.key, true, i);
    } else {
      assert i > 0 ==> t.kvs[i - 1].key <= m.key;
    }
  }

  /** The records of the node after its end of insertRec. */
  lemma ResumedPut(cfg: Cfg, t: Tree, i: nat, key: int, val: Value, out: Out, pages: nat, lo: int, hi: int)
    requires Below(cfg, t, i, key, val, out, lo, hi) && !Resumed(cfg, t, i, out.l, out.m, out.r, pages).out.Broken?
    ensures OutEntries(cfg.acc, Resumed(cfg, t, i, out.l, out.m, out.r, pages).out)
      == Put(Entries(cfg.acc, t), key, val)
  {
    hide Flat, Pre, Post, InnerPut, Put, KidsOrdered, Position;
    var acc, l, m, r := cfg.acc, out.l, out.m, out.r;
    BelowFacts(cfg, t, i, key, val, out, lo, hi);
    PutIntoKid(acc, t.kvs, t.kids, i, key, val, lo, hi);
    var j := Position(t.kvs, m.key, true);
    if j == i {
      ResumedAsModelled(cfg, t, i, l, m, r, pages);
      InnerPutEntries(cfg, t, i, l, m, r, pages);
    } else {
      var t' := t.(kids := t.kids[i := l]);
      InnerPutEntries(cfg, t', j, t'.kids[j], m, r, pages);
      FlatAt(acc, t'.kvs, t'.kids, j);
      FlatReplace(acc, t.kvs, t.kids, i, l);
      NoSep(acc, m, Entries(acc, t'.kids[j]));
      NoSep(acc, m, Entries(acc, l));
    }
  }

  /** Every child to the right of a separator has no smaller record, in the node that results. */
  lemma RightAbove(cfg: Cfg, t: Tree, i: nat, key: int, val: Value, out: Out, p: nat, q: nat, lo: int, hi: int)
    requires Below(cfg, t, i, key, val, out, lo, hi)
    requires p < q <= |t.kvs| + 1
    ensures var j := Position(t.kvs, out.m.key, true);
      && j <= |t.kvs|
      && var all, kids := InsertAt(t.kvs, j, out.m), InsertAt(t.kids[i := out.l], j + 1, out.r);
        AllAbove(Entries(cfg.acc, kids[q]), all[p].key)
  {
    hide KidsOrdered, Entries, Put, Position, OutEntries, NodeOrdered;
    BelowFacts(cfg, t, i, key, val, out, lo, hi);
    var j := Position(t.kvs, out.m.key, true);
    Around(t, j, out.m.key);
    Rising(cfg.acc, t, lo, hi);
    var b := if q <= j then q else if q == j + 1 then j else q - 1;
    var a := if p < j then p else if p == j then j else p - 1;
    if q != j + 1 && !(q <= j && q == i) {
      KidAbove(cfg.acc, t, if p == j then b - 1 else a, b, lo, hi);
    }
  }

  lemma Around(t: Tree, j: nat, key: int)
    requires j == Position(t.kvs, key, true)
    ensures j <= |t.kvs| && (forall k | 0 <= k < j :: t.kvs[k].key <= key) && (j < |t.kvs| ==> key < t.kvs[j].key)
  {
  }

  lemma Rising(acc: Acc, t: Tree, lo: int, hi: int)
    requires acc.CopyUp() && t.Inner? && NodeOrdered(acc, false, false, t.kvs, lo, hi)
    ensures forall a, b | 0 <= a <= b < |t.kvs| :: t.kvs[a].key <= t.kvs[b].key
    ensures forall a | 0 <= a < |t.kvs| :: lo <= t.kvs[a].key <= hi
  {
  }

  /** The outcome of the node is cut as well. */
  lemma ResumedCut(cfg: Cfg, t: Tree, i: nat, key: int, val: Value, out: Out, pages: nat, lo: int, hi: int)
    requires Below(cfg, t, i, key, val, out, lo, hi)
    ensures Cut(cfg.acc, Resumed(cfg, t, i, out.l, out.m, out.r, pages).out, lo, hi)
  {
    hide Below, Entries, Flat, Position, Used, Fits, RoomFor;
    BelowShape(cfg, t, i, key, val, out, lo, hi);
    var j := Position(t.kvs, out.m.key, true);
    var all, kids := InsertAt(t.kvs, j, out.m), InsertAt(t.kids[i := out.l], j + 1, out.r);
    var mid := |all| / 2;
    var result := Resumed(cfg, t, i, out.l, out.m, out.r, pages).out;
    SameKids(t.kids[i := out.l], j, out.r);
    if result.Split? {
      var right := kids[mid + 1..];
      forall k | 0 <= k < |right|
        ensures AllAbove(Entries(cfg.acc, right[k]), all[mid].key)
      {
        RightAbove(cfg, t, i, key, val, out, mid, mid + 1 + k, lo, hi);
      }
      FlatAllAbove(cfg.acc, all[mid + 1..], right, all[mid].key);
      InnerRecords(cfg.acc, result.r);
    }
  }

  lemma InnerRecords(acc: Acc, t: Tree)
    ensures t.Inner? ==> Entries(acc, t) == Flat(acc, t.kvs, t.kids)
  {
  }

  lemma SameKids(kids: seq<Tree>, j: nat, r: Tree)
    requires j < |kids|
    ensures InsertAt(kids[j := kids[j]], j + 1, r) == InsertAt(kids, j + 1, r)
  {
    assert kids[j := kids[j]] == kids;
  }

  lemma BelowShape(cfg: Cfg, t: Tree, i: nat, key: int, val: Value, out: Out, lo: int, hi: int)
    requires Below(cfg, t, i, key, val, out, lo, hi)
    ensures cfg.acc.CopyUp() && t.Inner? && |t.kids| == |t.kvs| + 1 && i <= |t.kvs| && out.Split?
    ensures Position(t.kvs, out.m.key, true) <= |t.kvs|
    ensures lo <= out.m.key <= hi && forall a | 0 <= a < |t.kvs| :: lo <= t.kvs[a].key <= hi
  {
    hide KidsOrdered, Entries, Put, Position, OutEntries;
    BelowFacts(cfg, t, i, key, val, out, lo, hi);
    hide NodeOrdered;
    Rising(cfg.acc, t, lo, hi);
  }

  lemma LeafCut(cfg: Cfg, t: Tree, key: int, val: Value, pages: nat, lo: int, hi: int)
    requires cfg.acc.CopyUp() && t.Leaf? && Ordered(cfg.acc, false, t, lo, hi) && lo <= key < hi
    ensures Cut(cfg.acc, InsRec(cfg, t, key, val, pages).out, lo, hi)
  {
    hide InsRec, Entries;
    InsertOrdered(cfg, false, t, key, val, pages, lo, hi);
    var out := InsRec(cfg, t, key, val, pages).out;
    if out.Split? {
      assert [out.m][0] == out.m && [out.l, out.r][1] == out.r;
      EntriesSorted(cfg.acc, false, out.r, out.m.key, hi);
    }
  }

  /** The records are right, whatever the second searches find. */
  lemma {:induction false} CodeEntries(cfg: Cfg, t: Tree, key: int, val: Value, pages: nat, lo: int, hi: int)
    requires cfg.acc.CopyUp() && Ordered(cfg.acc, false, t, lo, hi) && lo <= key < hi
    requires !CodeRec(cfg, t, key, val, pages).out.Broken?
    ensures OutEntries(cfg.acc, CodeRec(cfg, t, key, val, pages).out) == Put(Entries(cfg.acc, t), key, val)
    ensures Cut(cfg.acc, CodeRec(cfg, t, key, val, pages).out, lo, hi)
    decreases t
  {
    hide InsRec, Put, KidsOrdered, NodeOrdered, Resumed, Flat, Pre, Post;
    if t.Leaf? {
      InsertEntries(cfg, t, key, val, pages, lo, hi);
      LeafCut(cfg, t, key, val, pages, lo, hi);
    } else {
      var acc, i := cfg.acc, Position(t.kvs, key, true);
      DescentRange(acc, false, t, key, lo, hi);
      KidOrdered(acc, false, t.kvs, t.kids, i, lo, hi);
      CodeEntries(cfg, t.kids[i], key, val, pages, Lo(acc, t.kvs, i, lo), Hi(t.kvs, i, hi));
      var sub := CodeRec(cfg, t.kids[i], key, val, pages);
      match sub.out {
        case Done(c) =>
          PutIntoKid(acc, t.kvs, t.kids, i, key, val, lo, hi);
          FlatReplace(acc, t.kvs, t.kids, i, c);
        case Split(l, m, r) =>
          ResumedPut(cfg, t, i, key, val, sub.out, sub.pages, lo, hi);
          ResumedCut(cfg, t, i, key, val, sub.out, sub.pages, lo, hi);
      }
    }
  }

  // ---------------------------------------------------------------- depth and pages

  lemma {:induction false} CodeUniform(cfg: Cfg, t: Tree, key: int, val: Value, pages: nat, h: nat)
    requires Uniform(t, h)
    ensures OutUniform(CodeRec(cfg, t, key, val, pages).out, h)
    decreases t
  {
    hide InsRec, InnerPut, Position;
    if t.Leaf? {
      InsertUniform(cfg, t, key, val, pages, h);
    } else {
      var i := Position(t.kvs, key, cfg.acc.Upper(false));
      CodeUniform(cfg, t.kids[i], key, val, pages, h - 1);
      var sub := CodeRec(cfg, t.kids[i], key, val, pages);
      if sub.out.Split? {
        var t' := t.(kids := t.kids[i := sub.out.l]);
        var j := Position(t.kvs, sub.out.m.key, cfg.acc.Upper(false));
        InnerPutUniform(cfg, t', j, t'.kids[j], sub.out.m, sub.out.r, sub.pages, h);
      }
    }
  }

  lemma {:induction false} CodePages(cfg: Cfg, t: Tree, key: int, val: Value, pages: nat)
    requires !CodeRec(cfg, t, key, val, pages).out.Broken?
    ensures var ins := CodeRec(cfg, t, key, val, pages);
      ins.pages >= pages && OutPages(ins.out) == Pages(t) + Fresh(pages, ins.pages)
    decreases t
  {
    hide InsRec, InnerPut, Position, Pages, PagesOf, Fresh;
    if t.Leaf? {
      InsertPages(cfg, t, key, val, pages);
    } else {
      var i := Position(t.kvs, key, cfg.acc.Upper(false));
      CodePages(cfg, t.kids[i], key, val, pages);
      var sub := CodeRec(cfg, t.kids[i], key, val, pages);
      var j := if sub.out.Split? then Position(t.kvs, sub.out.m.key, cfg.acc.Upper(false)) else 0;
      L.LinkedPages(cfg, t, i, sub, j, pages, multiset{});
    }
  }

  // ---------------------------------------------------------------- the chain

  /** Some leaf points to a page of this tree that does not follow it. */
  ghost predicate Torn(ls: seq<Tree>, ids: multiset<nat>) {
    exists p | 0 <= p < |ls| - 1 :: TornAt(ls, ids, p)
  }

  ghost predicate TornAt(ls: seq<Tree>, ids: multiset<nat>, p: nat) {
    p + 1 < |ls| && ls[p].Leaf? && ls[p].next != ls[p + 1].id && ls[p].next in ids
  }

  lemma TornNoChain(ls: seq<Tree>, ids: multiset<nat>, end: nat)
    requires Torn(ls, ids)
    ensures !Chained(ls, end)
  {
    var p :| 0 <= p < |ls| - 1 && TornAt(ls, ids, p);
    assert Chained(ls, end) ==> Link(ls, end, p);
  }

  lemma TornInside(a: seq<Tree>, ls: seq<Tree>, b: seq<Tree>, ids: multiset<nat>, ids': multiset<nat>)
    requires Torn(ls, ids) && forall x | x in ids :: x in ids'
    ensures Torn(a + ls + b, ids')
  {
    var p :| 0 <= p < |ls| - 1 && TornAt(ls, ids, p);
    assert TornAt(a + ls + b, ids', |a| + p);
  }

  /** Without a repeated key the code does what the model says. */
  lemma {:induction false} NoRepeat(cfg: Cfg, t: Tree, key: int, val: Value, pages: nat, lo: int, hi: int)
    requires cfg.acc.CopyUp() && Ordered(cfg.acc, false, t, lo, hi) && lo <= key < hi
    requires !CodeRec(cfg, t, key, val, pages).out.Broken? && !RepeatsBelow(cfg, t, key, val, pages)
    ensures InsRec(cfg, t, key, val, pages) == CodeRec(cfg, t, key, val, pages)
    decreases t
  {
    hide LeafPut, InnerPut, Resumed, KidsOrdered, NodeOrdered, Cut;
    if t.Inner? {
      var i := Position(t.kvs, key, true);
      DescentRange(cfg.acc, false, t, key, lo, hi);
      KidOrdered(cfg.acc, false, t.kvs, t.kids, i, lo, hi);
      NoRepeat(cfg, t.kids[i], key, val, pages, Lo(cfg.acc, t.kvs, i, lo), Hi(t.kvs, i, hi));
      var sub := CodeRec(cfg, t.kids[i], key, val, pages);
      if sub.out.Split? {
        NoMiss(cfg, t, i, key, val, pages, lo, hi);
        ResumedAsModelled(cfg, t, i, sub.out.l, sub.out.m, sub.out.r, sub.pages);
      }
    }
  }

  lemma NoMiss(cfg: Cfg, t: Tree, i: nat, key: int, val: Value, pages: nat, lo: int, hi: int)
    requires cfg.acc.CopyUp() && t.Inner? && |t.kids| == |t.kvs| + 1 && Ordered(cfg.acc, false, t, lo, hi)
      && lo <= key < hi
    requires i == Position(t.kvs, key, true) && i <= |t.kvs| && CodeRec(cfg, t.kids[i], key, val, pages).out.Split?
    ensures var m := CodeRec(cfg, t.kids[i], key, val, pages).out.m;
      var j := Position(t.kvs, m.key, true);
      i <= j <= |t.kvs| && (j != i <==> Repeats(t, i, m))
  {
    hide CodeRec, KidsOrdered;
    DescentRange(cfg.acc, false, t, key, lo, hi);
    KidOrdered(cfg.acc, false, t.kvs, t.kids, i, lo, hi);
    CodeEntries(cfg, t.kids[i], key, val, pages, Lo(cfg.acc, t.kvs, i, lo), Hi(t.kvs, i, hi));
    Missed(cfg.acc, t, i, CodeRec(cfg, t.kids[i], key, val, pages).out.m, lo, hi);
  }

  /** What the chain argument relies on at a node: the outcome at child i, and what surrounds it. */
  ghost predicate Outcome(cfg: Cfg, t: Tree, i: nat, key: int, val: Value, pages: nat, h: nat) {
    && cfg.acc.CopyUp() && t.Inner? && |t.kids| == |t.kvs| + 1 && i == Position(t.kvs, key, true) && i <= |t.kvs|
    && Uniform(t, h) && Once(Pages(t)) && (forall x | x in Pages(t) :: x < pages)
    && !CodeRec(cfg, t, key, val, pages).out.Broken?
  }

  /** The pages of the child's outcome are among those of the node's, and not those of the child's right neighbour. */
  lemma OutcomePages(cfg: Cfg, t: Tree, i: nat, key: int, val: Value, pages: nat, h: nat, x: nat)
    requires Outcome(cfg, t, i, key, val, pages, h)
    ensures var sub := CodeRec(cfg, t.kids[i], key, val, pages).out;
      && !sub.Broken?
      && (x in OutPages(sub) ==> x in OutPages(CodeRec(cfg, t, key, val, pages).out))
      && (x in OutPages(sub) && i + 1 < |t.kids| ==> x !in Pages(t.kids[i + 1]))
  {
    hide Pages, PagesOf, OutPages, InnerPut, Position, InsRec;
    CodePages(cfg, t, key, val, pages);
    CodePages(cfg, t.kids[i], key, val, pages);
    var to, subTo := CodeRec(cfg, t, key, val, pages).pages, CodeRec(cfg, t.kids[i], key, val, pages).pages;
    OutcomeGrows(cfg, t, i, key, val, pages);
    FreshCount(pages, to, x);
    FreshCount(pages, subTo, x);
    InPagesOf(t.kids, i, x);
    L.InnerPages(t);
    if i + 1 < |t.kids| {
      TwoInPagesOf(t.kids, i, i + 1, x);
    }
  }

  lemma OutcomeGrows(cfg: Cfg, t: Tree, i: nat, key: int, val: Value, pages: nat)
    requires cfg.acc.CopyUp() && t.Inner? && |t.kids| == |t.kvs| + 1 && i == Position(t.kvs, key, true) && i <= |t.kvs|
    requires !CodeRec(cfg, t, key, val, pages).out.Broken?
    ensures !CodeRec(cfg, t.kids[i], key, val, pages).out.Broken?
    ensures CodeRec(cfg, t.kids[i], key, val, pages).pages <= CodeRec(cfg, t, key, val, pages).pages
  {
    hide InnerPut, Position, InsRec;
    var sub := CodeRec(cfg, t.kids[i], key, val, pages);
    if sub.out.Split? {
      var t' := t.(kids := t.kids[i := sub.out.l]);
      var j := Position(t.kvs, sub.out.m.key, true);
      L.S.InnerPutMore(cfg, t', j, t'.kids[j], sub.out.m, sub.out.r, sub.pages);
    }
  }

  /** The leaves of the node's outcome around those of the child's, in the three ways in which they can be linked in. */
  lemma LeavesAround(cfg: Cfg, t: Tree, i: nat, key: int, val: Value, pages: nat, h: nat)
      returns (a: seq<Tree>, b: seq<Tree>, c: seq<Tree>)
    requires Outcome(cfg, t, i, key, val, pages, h)
    ensures var sub, out := CodeRec(cfg, t.kids[i], key, val, pages).out, CodeRec(cfg, t, key, val, pages).out;
      && !sub.Broken?
      && (sub.Done? ==> OutLeaves(out) == a + OutLeaves(sub) + b)
      && (sub.Split? && Position(t.kvs, sub.m.key, true) == i ==> OutLeaves(out) == a + OutLeaves(sub) + b)
      && (sub.Split? && Position(t.kvs, sub.m.key, true) > i ==>
            && i + 1 < |t.kids|
            && OutLeaves(out) == a + (Leaves(sub.l) + (Leaves(t.kids[i + 1]) + b))
            && OutLeaves(out) == c + Leaves(sub.r) + LeavesOf(t.kids[Position(t.kvs, sub.m.key, true) + 1..]))
  {
    hide Uniform, Pages, Once, InnerPut, LeavesOf, Leaves, Position, InsRec;
    OutcomeGrows(cfg, t, i, key, val, pages);
    var sub := CodeRec(cfg, t.kids[i], key, val, pages);
    a, b, c := LeavesOf(t.kids[..i]), LeavesOf(t.kids[i + 1..]), [];
    if sub.out.Done? {
      ListReplace(t.kids, i, sub.out.t);
      LeavesInner(t.(kids := t.kids[i := sub.out.t]));
    } else {
      var j := Position(t.kvs, sub.out.m.key, true);
      if j == i {
        ResumedAsModelled(cfg, t, i, sub.out.l, sub.out.m, sub.out.r, sub.pages);
        InnerPutShape(cfg, t, i, sub.out.l, sub.out.m, sub.out.r, sub.pages);
        ListSplice(t.kids, i, sub.out.l, sub.out.r);
      } else if j > i {
        b := ResumedLeaves(cfg, t, i, sub.out.l, sub.out.m, sub.out.r, sub.pages);
        c := FarLeaves(cfg, t, i, sub.out.l, sub.out.m, sub.out.r, sub.pages);
      }
    }
  }

  lemma LeavesInner(t: Tree)
    ensures t.Inner? ==> Leaves(t) == LeavesOf(t.kids)
  {
  }

  /** The right half's leaves are together, wherever they are. */
  lemma FarLeaves(cfg: Cfg, t: Tree, i: nat, l: Tree, m: KV, r: Tree, pages: nat) returns (c: seq<Tree>)
    requires t.Inner? && |t.kids| == |t.kvs| + 1 && i < Position(t.kvs, m.key, cfg.acc.Upper(false))
    requires Position(t.kvs, m.key, cfg.acc.Upper(false)) <= |t.kvs|
    requires !Resumed(cfg, t, i, l, m, r, pages).out.Broken?
    ensures OutLeaves(Resumed(cfg, t, i, l, m, r, pages).out)
         == c + Leaves(r) + LeavesOf(t.kids[Position(t.kvs, m.key, cfg.acc.Upper(false)) + 1..])
  {
    hide *;
    var j := Position(t.kvs, m.key, cfg.acc.Upper(false));
    var t' := t.(kids := t.kids[i := l]);
    ResumedIs(cfg, t, i, l, m, r, pages);
    InnerPutShape(cfg, t', j, t'.kids[j], m, r, pages);
    ListSplice(t'.kids, j, t'.kids[j], r);
    assert t'.kids[j + 1..] == t.kids[j + 1..];
    c := LeavesOf(t'.kids[..j]) + Leaves(t'.kids[j]);
    Together(LeavesOf(t'.kids[..j]), Leaves(t'.kids[j]), Leaves(r), LeavesOf(t.kids[j + 1..]));
  }

  lemma ResumedIs(cfg: Cfg, t: Tree, i: nat, l: Tree, m: KV, r: Tree, pages: nat)
    requires t.Inner? && |t.kids| == |t.kvs| + 1 && i < |t.kids|
    ensures var t', j := t.(kids := t.kids[i := l]), Position(t.kvs, m.key, cfg.acc.Upper(false));
      j <= |t.kvs| && Resumed(cfg, t, i, l, m, r, pages) == InnerPut(cfg, t', j, t'.kids[j], m, r, pages)
  {
    hide InnerPut;
  }

  lemma Together(a: seq<Tree>, b: seq<Tree>, c: seq<Tree>, d: seq<Tree>)
    ensures a + (b + c) + d == (a + b) + c + d
  {
  }

  lemma FirstLeaf(t: Tree, h: nat)
    requires Uniform(t, h)
    ensures Leaves(t) != [] && Leaves(t)[0].id in Pages(t)
  {
    LeavesAreUniform(t, h);
  }

  /** The child's leaves were torn already, and stay so. */
  lemma StaysTorn(cfg: Cfg, t: Tree, i: nat, key: int, val: Value, pages: nat, h: nat, lo: int, hi: int)
    requires Outcome(cfg, t, i, key, val, pages, h) && Ordered(cfg.acc, false, t, lo, hi) && lo <= key < hi
    requires var sub := CodeRec(cfg, t.kids[i], key, val, pages).out;
      !sub.Broken? && Torn(OutLeaves(sub), OutPages(sub))
    ensures var out := CodeRec(cfg, t, key, val, pages).out; Torn(OutLeaves(out), OutPages(out))
  {
    hide CodeRec, Ordered, Pages, PagesOf, Position, Leaves, LeavesOf, Once, Uniform, Torn, OutPages;
    var sub, out := CodeRec(cfg, t.kids[i], key, val, pages).out, CodeRec(cfg, t, key, val, pages).out;
    var a, b, c := LeavesAround(cfg, t, i, key, val, pages, h);
    forall x | x in OutPages(sub)
      ensures x in OutPages(out)
    {
      OutcomePages(cfg, t, i, key, val, pages, h, x);
    }
    if sub.Split? {
      NoMiss(cfg, t, i, key, val, pages, lo, hi);
    }
    if sub.Done? || Position(t.kvs, sub.m.key, true) == i {
      TornInside(a, OutLeaves(sub), b, OutPages(sub), OutPages(out));
    } else {
      TornApart(cfg, t, i, key, val, pages, h, a, b, c);
    }
  }

  lemma TornApart(cfg: Cfg, t: Tree, i: nat, key: int, val: Value, pages: nat, h: nat, a: seq<Tree>, b: seq<Tree>,
      c: seq<Tree>)
    requires Outcome(cfg, t, i, key, val, pages, h)
    requires var sub, out := CodeRec(cfg, t.kids[i], key, val, pages).out, CodeRec(cfg, t, key, val, pages).out;
      && sub.Split? && Torn(OutLeaves(sub), OutPages(sub)) && (forall x | x in OutPages(sub) :: x in OutPages(out))
      && i + 1 < |t.kids| && OutLeaves(out) == a + (Leaves(sub.l) + (Leaves(t.kids[i + 1]) + b))
      && OutLeaves(out) == c + Leaves(sub.r) + LeavesOf(t.kids[Position(t.kvs, sub.m.key, true) + 1..])
    ensures var out := CodeRec(cfg, t, key, val, pages).out; Torn(OutLeaves(out), OutPages(out))
  {
    hide CodeRec, Pages, PagesOf, Position, Leaves, LeavesOf, Once, Uniform, OutPages;
    var sub, out := CodeRec(cfg, t.kids[i], key, val, pages).out, CodeRec(cfg, t, key, val, pages).out;
    var ll, lr, n := Leaves(sub.l), Leaves(sub.r), Leaves(t.kids[i + 1]);
    var p :| 0 <= p < |ll + lr| - 1 && TornAt(ll + lr, OutPages(sub), p);
    NextLeaves(t, i + 1, h);
    OutcomePages(cfg, t, i, key, val, pages, h, n[0].id);
    if p + 1 < |ll| {
      assert TornAt(OutLeaves(out), OutPages(out), |a| + p);
    } else if p + 1 == |ll| {
      assert OutLeaves(out)[|a| + p] == ll[p] && OutLeaves(out)[|a| + p + 1] == n[0];
      assert TornAt(OutLeaves(out), OutPages(out), |a| + p);
    } else {
      assert TornAt(OutLeaves(out), OutPages(out), |c| + p - |ll|);
    }
  }

  lemma NextLeaves(t: Tree, i: nat, h: nat)
    requires t.Inner? && Uniform(t, h) && i < |t.kids|
    ensures h > 1 && Leaves(t.kids[i]) != [] && Leaves(t.kids[i])[0].id in Pages(t.kids[i])
  {
    hide Leaves, Pages;
    FirstLeaf(t.kids[i], h - 1);
  }

  /** A half that is linked in too far to the right tears the chain. */
  lemma BecomesTorn(cfg: Cfg, t: Tree, i: nat, key: int, val: Value, pages: nat, h: nat, lo: int, hi: int, end: nat)
    requires Outcome(cfg, t, i, key, val, pages, h) && Ordered(cfg.acc, false, t, lo, hi) && lo <= key < hi
    requires Chained(Leaves(t), end) && !RepeatsBelow(cfg, t.kids[i], key, val, pages)
    requires var sub := CodeRec(cfg, t.kids[i], key, val, pages).out; sub.Split? && Repeats(t, i, sub.m)
    ensures var out := CodeRec(cfg, t, key, val, pages).out; Torn(OutLeaves(out), OutPages(out))
  {
    hide CodeRec, KidsOrdered, NodeOrdered, Pages, PagesOf, Position, Leaves, LeavesOf, Once, Uniform, OutPages, InsRec,
      Chained, RepeatsBelow;
    var sub, out := CodeRec(cfg, t.kids[i], key, val, pages).out, CodeRec(cfg, t, key, val, pages).out;
    NoMiss(cfg, t, i, key, val, pages, lo, hi);
    var a, b, c := LeavesAround(cfg, t, i, key, val, pages, h);
    DescentRange(cfg.acc, false, t, key, lo, hi);
    KidOrdered(cfg.acc, false, t.kvs, t.kids, i, lo, hi);
    NoRepeat(cfg, t.kids[i], key, val, pages, Lo(cfg.acc, t.kvs, i, lo), Hi(t.kvs, i, hi));
    var e := HalvesChained(cfg, t, i, key, val, pages, h, end);
    NextLeaves(t, i + 1, h);
    OutcomePages(cfg, t, i, key, val, pages, h, Leaves(t.kids[i + 1])[0].id);
    OutcomePages(cfg, t, i, key, val, pages, h, Leaves(sub.r)[0].id);
    LastPoints(Leaves(sub.l), Leaves(sub.r), e);
    var p := |a| + |Leaves(sub.l)| - 1;
    assert OutLeaves(out)[p] == Leaves(sub.l)[|Leaves(sub.l)| - 1] && OutLeaves(out)[p + 1] == Leaves(t.kids[i + 1])[0];
    assert TornAt(OutLeaves(out), OutPages(out), p);
  }

  lemma HalvesChained(cfg: Cfg, t: Tree, i: nat, key: int, val: Value, pages: nat, h: nat, end: nat) returns (e: nat)
    requires Outcome(cfg, t, i, key, val, pages, h) && Chained(Leaves(t), end)
    requires InsRec(cfg, t.kids[i], key, val, pages) == CodeRec(cfg, t.kids[i], key, val, pages)
    requires CodeRec(cfg, t.kids[i], key, val, pages).out.Split?
    ensures var sub := CodeRec(cfg, t.kids[i], key, val, pages).out;
      && Leaves(sub.l) != [] && Leaves(sub.r) != [] && Leaves(sub.r)[0].id in OutPages(sub)
      && Chained(Leaves(sub.l) + Leaves(sub.r), e)
  {
    hide CodeRec, Pages, PagesOf, Position, Leaves, LeavesOf, Once, InsRec, Chained;
    KidUniform(t, i, h);
    ChainOfKid(t, i, h, end);
    e :| Chained(Leaves(t.kids[i]), e);
    InsertChained(cfg, t.kids[i], key, val, pages, h - 1, e);
    InsertUniform(cfg, t.kids[i], key, val, pages, h - 1);
    var sub := CodeRec(cfg, t.kids[i], key, val, pages).out;
    FirstLeaf(sub.l, h - 1);
    FirstLeaf(sub.r, h - 1);
  }

  lemma KidUniform(t: Tree, i: nat, h: nat)
    requires t.Inner? && Uniform(t, h) && i < |t.kids|
    ensures h > 1 && Uniform(t.kids[i], h - 1)
  {
  }

  lemma LastPoints(ll: seq<Tree>, lr: seq<Tree>, e: nat)
    requires ll != [] && lr != [] && Chained(ll + lr, e)
    ensures ll[|ll| - 1].Leaf? && ll[|ll| - 1].next == lr[0].id
  {
    assert Link(ll + lr, e, |ll| - 1);
  }

  /** A repeated key anywhere on the path tears the chain. */
  lemma {:induction false} RepeatTears(cfg: Cfg, t: Tree, key: int, val: Value, pages: nat, h: nat, lo: int, hi: int,
      end: nat)
    requires cfg.acc.CopyUp() && Ordered(cfg.acc, false, t, lo, hi) && lo <= key < hi
    requires Uniform(t, h) && Chained(Leaves(t), end) && Once(Pages(t)) && forall x | x in Pages(t) :: x < pages
    requires !CodeRec(cfg, t, key, val, pages).out.Broken? && RepeatsBelow(cfg, t, key, val, pages)
    ensures var out := CodeRec(cfg, t, key, val, pages).out; Torn(OutLeaves(out), OutPages(out))
    decreases t
  {
    hide KidsOrdered, NodeOrdered, Pages, PagesOf, Position, Leaves, LeavesOf, Once, OutPages, InsRec, Chained, Torn,
      Resumed, OutLeaves, CodeRec;
    var i := Position(t.kvs, key, true);
    OutcomeGrows(cfg, t, i, key, val, pages);
    if RepeatsBelow(cfg, t.kids[i], key, val, pages) {
      DescentRange(cfg.acc, false, t, key, lo, hi);
      KidOrdered(cfg.acc, false, t.kvs, t.kids, i, lo, hi);
      ChainOfKid(t, i, h, end);
      var e :| Chained(Leaves(t.kids[i]), e);
      KidIds(t, i);
      RepeatTears(cfg, t.kids[i], key, val, pages, h - 1, Lo(cfg.acc, t.kvs, i, lo), Hi(t.kvs, i, hi), e);
      StaysTorn(cfg, t, i, key, val, pages, h, lo, hi);
    } else {
      BecomesTorn(cfg, t, i, key, val, pages, h, lo, hi, end);
    }
  }

  lemma KidIds(t: Tree, i: nat)
    requires t.Inner? && i < |t.kids| && Once(Pages(t))
    ensures Once(Pages(t.kids[i])) && forall x | x in Pages(t.kids[i]) :: x in Pages(t)
  {
    L.KidPages(t, i);
  }

  /**
   What insertRec makes of any reachable B+ tree: always the right records, and a chain of leaves from left to right
   exactly when no promoted key on the path equals the separator to its child's right.
   */
  lemma CodeExactly(cfg: Cfg, t: Tree, key: int, val: Value, pages: nat, h: nat, lo: int, hi: int, end: nat)
    requires cfg.acc.CopyUp() && Ordered(cfg.acc, false, t, lo, hi) && lo <= key < hi
    requires Uniform(t, h) && Chained(Leaves(t), end) && Once(Pages(t)) && forall x | x in Pages(t) :: x < pages
    requires !CodeRec(cfg, t, key, val, pages).out.Broken?
    ensures var out := CodeRec(cfg, t, key, val, pages).out;
      && OutEntries(cfg.acc, out) == Put(Entries(cfg.acc, t), key, val)
      && (Chained(OutLeaves(out), end) <==> !RepeatsBelow(cfg, t, key, val, pages))
  {
    hide CodeRec, Ordered, Uniform, Chained, Pages, Leaves, Once, Entries, Put, RepeatsBelow, InsRec, OutLeaves,
      OutEntries, Torn;
    CodeEntries(cfg, t, key, val, pages, lo, hi);
    if RepeatsBelow(cfg, t, key, val, pages) {
      RepeatTears(cfg, t, key, val, pages, h, lo, hi, end);
      var out := CodeRec(cfg, t, key, val, pages).out;
      TornNoChain(OutLeaves(out), OutPages(out), end);
    } else {
      NoRepeat(cfg, t, key, val, pages, lo, hi);
      InsertChained(cfg, t, key, val, pages, h, end);
    }
  }

  // ---------------------------------------------------------------- Insert

  /** Insert of a B+ tree, wherever its second searches lead. */
  function CodeDb(cfg: Cfg, db: Db, key: int, val: Value): Db
    requires db.Db?
  {
    var ins := CodeRec(cfg, db.t, key, val, db.pages);
    match ins.out
    case Broken => Failed
    case Done(t) => Db(t, ins.pages)
    case Split(l, m, r) =>
      if !Fits(cfg, false, [m]) then Failed
      else Db(Inner(ins.pages, [m], [l, r], cfg.pageSize - Used(cfg, false, [m])), ins.pages + 1)
  }

  /** The same about a database that inserts have built. */
  lemma DatabaseExactly(cfg: Cfg, db: Db, key: int, val: Value)
    requires cfg.acc.CopyUp() && Invariant(cfg, db) && IsKey(key) && CodeDb(cfg, db, key, val).Db?
    ensures var after := CodeDb(cfg, db, key, val);
      && Entries(cfg.acc, after.t) == Put(Entries(cfg.acc, db.t), key, val)
      && (Chained(Leaves(after.t), INVALID_PAGE) <==> !RepeatsBelow(cfg, db.t, key, val, db.pages))
  {
    hide CodeRec, Ordered, Uniform, Chained, Pages, Once, Entries, Put, RepeatsBelow, Used, Fits, Fresh, Leaves;
    forall x: nat
      ensures Fresh(2, db.pages)[x] <= 1 && (x in Pages(db.t) ==> x < db.pages)
    {
      FreshCount(2, db.pages, x);
    }
    TreePages(db.t);
    CodeExactly(cfg, db.t, key, val, db.pages, HeightOf(db.t), MIN_KEY, MAX_KEY + 1, INVALID_PAGE);
    var out := CodeRec(cfg, db.t, key, val, db.pages).out;
    if out.Split? {
      RootFlat(cfg.acc, out.l, out.m, out.r);
      InnerRecords(cfg.acc, CodeDb(cfg, db, key, val).t);
      TwoLeaves(CodeDb(cfg, db, key, val).t, out.l, out.r);
    }
  }

  lemma TreePages(t: Tree)
    ensures (forall x: nat :: Pages(t)[x] <= 1) ==> Once(Pages(t))
  {
  }

  lemma TwoLeaves(t: Tree, l: Tree, r: Tree)
    requires t.Inner? && t.kids == [l, r]
    ensures Leaves(t) == Leaves(l) + Leaves(r)
  {
    assert t.kids == [l] + [r];
    LeavesInner(t);
    hide *;
    ListAppend([l], [r]);
    ListOne(l);
    ListOne(r);
  }
}
