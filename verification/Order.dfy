/** The search order of a tree, kept by every insert. */
module Order {
  import opened Bytes
  import opened Records
  import opened TreeModel

  /**
   The keys of one node, which must lie in [lo, hi). Separators of a B+ tree may repeat, and may equal hi: a leaf that
   holds one record and no room splits into an empty leaf and a leaf with that record. The strict form excludes this.
   */
  ghost predicate NodeOrdered(acc: Acc, strict: bool, leaf: bool, kvs: seq<KV>, lo: int, hi: int) {
    if !acc.Upper(leaf) then Sorted(kvs) && Within(kvs, lo, hi)
    else if strict then Sorted(kvs) && Within(kvs, lo + 1, hi)
    else (forall i, j | 0 <= i < j < |kvs| :: kvs[i].key <= kvs[j].key) && Within(kvs, lo, hi + 1)
  }

  /** The first key of child j: a B+ tree keeps the separator's own key on the right. */
  function Lo(acc: Acc, kvs: seq<KV>, j: nat, lo: int): int
    requires j <= |kvs|
  {
    if j == 0 then lo else if acc.CopyUp() then kvs[j - 1].key else kvs[j - 1].key + 1
  }

  function Hi(kvs: seq<KV>, j: nat, hi: int): int
    requires j <= |kvs|
  {
    if j == |kvs| then hi else kvs[j].key
  }

  ghost predicate Ordered(acc: Acc, strict: bool, t: Tree, lo: int, hi: int)
    decreases t
  {
    && NodeOrdered(acc, strict, t.Leaf?, t.kvs, lo, hi)
    && (t.Inner? ==> KidsOrdered(acc, strict, t.kvs, t.kids, lo, hi))
  }

  ghost predicate KidsOrdered(acc: Acc, strict: bool, kvs: seq<KV>, kids: seq<Tree>, lo: int, hi: int)
    decreases kids
  {
    && |kids| == |kvs| + 1
    && forall j | 0 <= j < |kids| :: Ordered(acc, strict, kids[j], Lo(acc, kvs, j, lo), Hi(kvs, j, hi))
  }

  ghost predicate SplitOrdered(acc: Acc, strict: bool, l: Tree, m: KV, r: Tree, lo: int, hi: int) {
    && NodeOrdered(acc, strict, false, [m], lo, hi)
    && KidsOrdered(acc, strict, [m], [l, r], lo, hi)
  }

  ghost predicate OutOrdered(acc: Acc, strict: bool, out: Out, lo: int, hi: int) {
    match out
    case Done(t) => Ordered(acc, strict, t, lo, hi)
    case Split(l, m, r) => SplitOrdered(acc, strict, l, m, r, lo, hi)
    case Broken => true
  }

  /** The search for a key that is not in an internal node picks the child whose range holds the key. */
  lemma DescentRange(acc: Acc, strict: bool, t: Tree, key: int, lo: int, hi: int)
    requires Ordered(acc, strict, t, lo, hi) && t.Inner? && lo <= key < hi
    ensures var i := Position(t.kvs, key, acc.Upper(false));
      (i < |t.kvs| ==> t.kvs[i].key != key) ==> Lo(acc, t.kvs, i, lo) <= key < Hi(t.kvs, i, hi)
  {
  }

  lemma InsertSorted(s: seq<KV>, i: nat, kv: KV, lo: int, hi: int)
    requires Sorted(s) && Within(s, lo, hi) && lo <= kv.key < hi
    requires i <= |s| && (i > 0 ==> s[i - 1].key < kv.key) && (i < |s| ==> kv.key < s[i].key)
    ensures Sorted(InsertAt(s, i, kv)) && Within(InsertAt(s, i, kv), lo, hi)
  {
    var all := InsertAt(s, i, kv);
    forall a, b | 0 <= a < b < |all|
      ensures all[a].key < all[b].key
    {
      if b < i {
        assert s[a].key < s[b].key;
      } else if b == i {
        assert a < i - 1 ==> s[a].key < s[i - 1].key;
        assert all[a] == s[a];
      } else if a < i {
        assert s[a].key < s[b - 1].key;
      } else if a == i {
        assert i < b - 1 ==> s[i].key < s[b - 1].key;
        assert all[b] == s[b - 1];
      } else {
        assert s[a - 1].key < s[b - 1].key;
      }
    }
    forall k | 0 <= k < |all|
      ensures lo <= all[k].key < hi
    {
      assert k < i ==> lo <= s[k].key < hi;
      assert k > i ==> lo <= s[k - 1].key < hi;
    }
  }

  lemma PairOrdered(acc: Acc, strict: bool, l: Tree, m: KV, r: Tree, lo: int, hi: int)
    requires NodeOrdered(acc, strict, false, [m], lo, hi)
    requires Ordered(acc, strict, l, lo, m.key)
    requires Ordered(acc, strict, r, if acc.CopyUp() then m.key else m.key + 1, hi)
    ensures SplitOrdered(acc, strict, l, m, r, lo, hi)
  {
    hide Ordered, NodeOrdered;
    var kids := [l, r];
    assert kids[0] == l && kids[1] == r && [m][0] == m;
  }

  lemma RemoveSorted(s: seq<KV>, i: nat, lo: int, hi: int)
    requires Sorted(s) && Within(s, lo, hi) && i < |s|
    ensures Sorted(RemoveAt(s, i)) && Within(RemoveAt(s, i), lo, hi)
    ensures i > 0 ==> RemoveAt(s, i)[i - 1].key < s[i].key
    ensures i < |s| - 1 ==> s[i].key < RemoveAt(s, i)[i].key
  {
  }

  /** The two parts of a sorted sequence, around the element in the middle. */
  lemma SortedCut(s: seq<KV>, mid: nat, lo: int, hi: int)
    requires Sorted(s) && Within(s, lo, hi) && mid < |s|
    ensures Sorted(s[..mid]) && Within(s[..mid], lo, s[mid].key)
    ensures Sorted(s[mid..]) && Within(s[mid..], s[mid].key, hi)
    ensures Sorted(s[mid + 1..]) && Within(s[mid + 1..], s[mid].key + 1, hi)
    ensures lo <= s[mid].key < hi && (mid > 0 ==> lo < s[mid].key)
  {
    assert mid > 0 ==> s[0].key < s[mid].key;
  }

  lemma LeafIsOrdered(acc: Acc, strict: bool, t: Tree, lo: int, hi: int)
    requires t.Leaf? && Sorted(t.kvs) && Within(t.kvs, lo, hi)
    ensures Ordered(acc, strict, t, lo, hi)
  {
  }

  lemma KeyOrdered(acc: Acc, strict: bool, m: KV, lo: int, hi: int)
    requires lo <= m.key < hi && (strict ==> lo < m.key)
    ensures NodeOrdered(acc, strict, false, [m], lo, hi)
  {
  }

  lemma SplitLeafOrdered(cfg: Cfg, strict: bool, t: Tree, all: seq<KV>, pages: nat, lo: int, hi: int)
    requires t.Leaf? && all != [] && Sorted(all) && Within(all, lo, hi)
    requires strict ==> |all| >= 2
    ensures OutOrdered(cfg.acc, strict, SplitLeaf(cfg, t, all, pages).out, lo, hi)
  {
    hide Used, Fits, Sorted, Within, NodeOrdered, Ordered, SplitOrdered;
    var out := SplitLeaf(cfg, t, all, pages).out;
    if out.Split? {
      SortedCut(all, |all| / 2, lo, hi);
      LeafIsOrdered(cfg.acc, strict, out.l, lo, out.m.key);
      LeafIsOrdered(cfg.acc, strict, out.r, if cfg.acc.CopyUp() then out.m.key else out.m.key + 1, hi);
      KeyOrdered(cfg.acc, strict, out.m, lo, hi);
      PairOrdered(cfg.acc, strict, out.l, out.m, out.r, lo, hi);
    }
  }

  lemma LeafPutOrdered(cfg: Cfg, strict: bool, t: Tree, i: nat, kv: KV, pages: nat, lo: int, hi: int)
    requires t.Leaf? && Ordered(cfg.acc, strict, t, lo, hi) && lo <= kv.key < hi
    requires i <= |t.kvs| && (i > 0 ==> t.kvs[i - 1].key < kv.key) && (i < |t.kvs| ==> kv.key < t.kvs[i].key)
    requires strict ==> RoomFor(cfg, true, t.content, |t.kvs|, |kv.val|).Full? ==> t.kvs != []
    ensures OutOrdered(cfg.acc, strict, LeafPut(cfg, t, i, kv, pages).out, lo, hi)
  {
    InsertSorted(t.kvs, i, kv, lo, hi);
    if RoomFor(cfg, true, t.content, |t.kvs|, |kv.val|).Full? {
      SplitLeafOrdered(cfg, strict, t, InsertAt(t.kvs, i, kv), pages, lo, hi);
    }
  }

  lemma KidsCut(acc: Acc, strict: bool, kvs: seq<KV>, kids: seq<Tree>, mid: nat, lo: int, hi: int)
    requires NodeOrdered(acc, strict, false, kvs, lo, hi) && KidsOrdered(acc, strict, kvs, kids, lo, hi)
    requires mid < |kvs|
    ensures NodeOrdered(acc, strict, false, [kvs[mid]], lo, hi)
    ensures NodeOrdered(acc, strict, false, kvs[..mid], lo, kvs[mid].key)
    ensures KidsOrdered(acc, strict, kvs[..mid], kids[..mid + 1], lo, kvs[mid].key)
    ensures NodeOrdered(acc, strict, false, kvs[mid + 1..], Lo(acc, kvs, mid + 1, lo), hi)
    ensures KidsOrdered(acc, strict, kvs[mid + 1..], kids[mid + 1..], Lo(acc, kvs, mid + 1, lo), hi)
  {
    var ks, cs := kvs[mid + 1..], kids[mid + 1..];
    forall j | 0 <= j < |cs|
      ensures Ordered(acc, strict, cs[j], Lo(acc, ks, j, Lo(acc, kvs, mid + 1, lo)), Hi(ks, j, hi))
    {
      assert cs[j] == kids[mid + 1 + j];
      assert j > 0 ==> ks[j - 1] == kvs[mid + j];
    }
    var kl, cl := kvs[..mid], kids[..mid + 1];
    forall j | 0 <= j < |cl|
      ensures Ordered(acc, strict, cl[j], Lo(acc, kl, j, lo), Hi(kl, j, kvs[mid].key))
    {
      assert cl[j] == kids[j];
    }
  }

  lemma SpliceKeys(acc: Acc, strict: bool, kvs: seq<KV>, idx: nat, m: KV, lo: int, hi: int)
    requires NodeOrdered(acc, strict, false, kvs, lo, hi) && idx <= |kvs|
    requires NodeOrdered(acc, strict, false, [m], Lo(acc, kvs, idx, lo), Hi(kvs, idx, hi))
    ensures NodeOrdered(acc, strict, false, InsertAt(kvs, idx, m), lo, hi)
  {
    hide InsertAt;
    assert [m][0] == m;
    if !acc.Upper(false) {
      InsertSorted(kvs, idx, m, lo, hi);
    } else if strict {
      InsertSorted(kvs, idx, m, lo + 1, hi);
    } else {
      InsertRising(kvs, idx, m, lo, hi + 1);
    }
  }

  lemma InsertRising(s: seq<KV>, i: nat, kv: KV, lo: int, hi: int)
    requires forall a, b | 0 <= a < b < |s| :: s[a].key <= s[b].key
    requires Within(s, lo, hi) && lo <= kv.key < hi
    requires i <= |s| && (i > 0 ==> s[i - 1].key <= kv.key) && (i < |s| ==> kv.key <= s[i].key)
    ensures var all := InsertAt(s, i, kv); forall a, b | 0 <= a < b < |all| :: all[a].key <= all[b].key
    ensures Within(InsertAt(s, i, kv), lo, hi)
  {
  }

  lemma SpliceKids(acc: Acc, strict: bool, kvs: seq<KV>, kids: seq<Tree>, idx: nat, l: Tree, m: KV, r: Tree, lo: int,
      hi: int)
    requires KidsOrdered(acc, strict, kvs, kids, lo, hi) && idx <= |kvs|
    requires KidsOrdered(acc, strict, [m], [l, r], Lo(acc, kvs, idx, lo), Hi(kvs, idx, hi))
    ensures KidsOrdered(acc, strict, InsertAt(kvs, idx, m), InsertAt(kids[idx := l], idx + 1, r), lo, hi)
  {
    hide Ordered;
    var all := InsertAt(kvs, idx, m);
    var kids' := InsertAt(kids[idx := l], idx + 1, r);
    assert [l, r][0] == l && [l, r][1] == r && [m][0] == m;
    forall j | 0 <= j < |kids'|
      ensures Ordered(acc, strict, kids'[j], Lo(acc, all, j, lo), Hi(all, j, hi))
    {
      if j < idx {
        assert kids'[j] == kids[j];
      } else if j == idx {
        assert kids'[j] == [l, r][0];
      } else if j == idx + 1 {
        assert kids'[j] == [l, r][1];
      } else {
        assert kids'[j] == kids[j - 1];
      }
    }
  }

  lemma SplitInnerOrdered(cfg: Cfg, strict: bool, id: nat, all: seq<KV>, kids: seq<Tree>, pages: nat, lo: int, hi: int)
    requires all != [] && |kids| == |all| + 1
    requires NodeOrdered(cfg.acc, strict, false, all, lo, hi) && KidsOrdered(cfg.acc, strict, all, kids, lo, hi)
    ensures OutOrdered(cfg.acc, strict, SplitInner(cfg, id, all, kids, pages).out, lo, hi)
  {
    hide NodeOrdered, KidsOrdered, Used, Fits;
    var mid := |all| / 2;
    KidsCut(cfg.acc, strict, all, kids, mid, lo, hi);
    var out := SplitInner(cfg, id, all, kids, pages).out;
    if out.Split? {
      PairOrdered(cfg.acc, strict, out.l, out.m, out.r, lo, hi);
    }
  }

  /** Splitting child idx around m keeps the parent in order. */
  lemma InnerPutOrdered(cfg: Cfg, strict: bool, t: Tree, idx: nat, l: Tree, m: KV, r: Tree, pages: nat, lo: int,
      hi: int)
    requires t.Inner? && |t.kids| == |t.kvs| + 1 && Ordered(cfg.acc, strict, t, lo, hi) && idx <= |t.kvs|
    requires SplitOrdered(cfg.acc, strict, l, m, r, Lo(cfg.acc, t.kvs, idx, lo), Hi(t.kvs, idx, hi))
    ensures OutOrdered(cfg.acc, strict, InnerPut(cfg, t, idx, l, m, r, pages).out, lo, hi)
  {
    hide NodeOrdered, KidsOrdered;
    var all := InsertAt(t.kvs, idx, m);
    var kids := InsertAt(t.kids[idx := l], idx + 1, r);
    SpliceKeys(cfg.acc, strict, t.kvs, idx, m, lo, hi);
    SpliceKids(cfg.acc, strict, t.kvs, t.kids, idx, l, m, r, lo, hi);
    SplitInnerOrdered(cfg, strict, t.id, all, kids, pages, lo, hi);
  }

  /** A leaf that has to split holds a record already (the case of records of one length). */
  ghost predicate NoLoneSplit(cfg: Cfg, t: Tree, key: int, val: Value)
    decreases t
  {
    var i := Position(t.kvs, key, cfg.acc.Upper(t.Leaf?));
    var found := i < |t.kvs| && t.kvs[i].key == key;
    if t.Leaf? then
      (found ==> |val| <= |t.kvs[i].val|) && (RoomFor(cfg, true, t.content, |t.kvs|, |val|).Full? ==> t.kvs != [])
    else !found && |t.kids| == |t.kvs| + 1 ==> NoLoneSplit(cfg, t.kids[i], key, val)
  }

  /** Every insert the code completes keeps the search order. */
  lemma {:induction false} InsertOrdered(cfg: Cfg, strict: bool, t: Tree, key: int, val: Value, pages: nat, lo: int,
      hi: int)
    requires Ordered(cfg.acc, strict, t, lo, hi) && lo <= key < hi
    requires strict ==> NoLoneSplit(cfg, t, key, val)
    ensures OutOrdered(cfg.acc, strict, InsRec(cfg, t, key, val, pages).out, lo, hi)
    decreases t
  {
    hide KidsOrdered, LeafPut, InnerPut, RoomFor, RemoveAt, SplitOrdered;
    var i := Position(t.kvs, key, cfg.acc.Upper(t.Leaf?));
    var found := i < |t.kvs| && t.kvs[i].key == key;
    if found && |val| <= |t.kvs[i].val| {
      OverwriteOrdered(cfg.acc, strict, t, i, val, lo, hi);
    } else if t.Leaf? {
      var t' := if found then Leaf(t.id, RemoveAt(t.kvs, i), t.content, t.next) else t;
      if found {
        RemoveSorted(t.kvs, i, lo, hi);
      }
      LeafPutOrdered(cfg, strict, t', i, KV(key, val), pages, lo, hi);
    } else if !found && |t.kids| == |t.kvs| + 1 {
      DescentRange(cfg.acc, strict, t, key, lo, hi);
      var klo, khi := Lo(cfg.acc, t.kvs, i, lo), Hi(t.kvs, i, hi);
      KidOrdered(cfg.acc, strict, t.kvs, t.kids, i, lo, hi);
      InsertOrdered(cfg, strict, t.kids[i], key, val, pages, klo, khi);
      var sub := InsRec(cfg, t.kids[i], key, val, pages);
      match sub.out {
        case Done(c) => ReplaceKid(cfg.acc, strict, t.kvs, t.kids, i, c, lo, hi);
        case Split(l, m, r) => InnerPutOrdered(cfg, strict, t, i, l, m, r, sub.pages, lo, hi);
        case Broken =>
      }
    }
  }

  lemma KidOrdered(acc: Acc, strict: bool, kvs: seq<KV>, kids: seq<Tree>, i: nat, lo: int, hi: int)
    requires KidsOrdered(acc, strict, kvs, kids, lo, hi) && i <= |kvs|
    ensures |kids| == |kvs| + 1 && Ordered(acc, strict, kids[i], Lo(acc, kvs, i, lo), Hi(kvs, i, hi))
  {
  }

  lemma ReplaceKid(acc: Acc, strict: bool, kvs: seq<KV>, kids: seq<Tree>, i: nat, c: Tree, lo: int, hi: int)
    requires KidsOrdered(acc, strict, kvs, kids, lo, hi) && i < |kids|
    requires Ordered(acc, strict, c, Lo(acc, kvs, i, lo), Hi(kvs, i, hi))
    ensures KidsOrdered(acc, strict, kvs, kids[i := c], lo, hi)
  {
    hide Ordered;
  }

  lemma OverwriteOrdered(acc: Acc, strict: bool, t: Tree, i: nat, val: Value, lo: int, hi: int)
    requires Ordered(acc, strict, t, lo, hi) && i < |t.kvs|
    ensures Ordered(acc, strict, t.(kvs := t.kvs[i := KV(t.kvs[i].key, val)]), lo, hi)
  {
    var t' := t.(kvs := t.kvs[i := KV(t.kvs[i].key, val)]);
    assert forall j | 0 <= j < |t.kvs| :: t'.kvs[j].key == t.kvs[j].key;
    if t.Inner? {
      forall j | 0 <= j < |t.kids|
        ensures Ordered(acc, strict, t'.kids[j], Lo(acc, t'.kvs, j, lo), Hi(t'.kvs, j, hi))
      {
        assert Ordered(acc, strict, t.kids[j], Lo(acc, t.kvs, j, lo), Hi(t.kvs, j, hi));
      }
    }
  }
}
