/** What one insert does to the records of a tree: exactly one map update. */
module Contents {
  import opened Bytes
  import Seqs
  import opened Records
  import opened TreeModel
  import opened Order

  // ---------------------------------------------------------------- flattening a child list

  /** The records of the children in kids, each followed by the separator at its right. */
  function Pre(acc: Acc, kvs: seq<KV>, kids: seq<Tree>): seq<KV>
    requires |kvs| == |kids|
  {
    if kids == [] then [] else Entries(acc, kids[0]) + Sep(acc, kvs[0]) + Pre(acc, kvs[1..], kids[1..])
  }

  /** The records to the right of child i. */
  function Post(acc: Acc, kvs: seq<KV>, kids: seq<Tree>, i: nat): seq<KV>
    requires |kids| == |kvs| + 1 && i < |kids|
  {
    if i == |kvs| then [] else Sep(acc, kvs[i]) + Flat(acc, kvs[i + 1..], kids[i + 1..])
  }

  lemma {:induction false} FlatAppend(acc: Acc, k1: seq<KV>, c1: seq<Tree>, k2: seq<KV>, c2: seq<Tree>)
    requires |k1| == |c1| && c2 != []
    ensures Flat(acc, k1 + k2, c1 + c2) == Pre(acc, k1, c1) + Flat(acc, k2, c2)
  {
    hide Entries, Sep;
    if k1 == [] {
      assert k1 + k2 == k2 && c1 + c2 == c2;
    } else {
      FlatAppend(acc, k1[1..], c1[1..], k2, c2);
      Seqs.Behind(k1, k2);
      Seqs.Behind(c1, c2);
      Seqs.Assoc4(Entries(acc, c1[0]), Sep(acc, k1[0]), Pre(acc, k1[1..], c1[1..]), Flat(acc, k2, c2));
    }
  }

  lemma FlatHead(acc: Acc, kvs: seq<KV>, kids: seq<Tree>)
    requires |kids| == |kvs| + 1
    ensures Flat(acc, kvs, kids) == Entries(acc, kids[0]) + Post(acc, kvs, kids, 0)
  {
    hide Entries, Sep;
    if kvs == [] {
      assert Post(acc, kvs, kids, 0) == [];
    }
  }

  lemma FlatAt(acc: Acc, kvs: seq<KV>, kids: seq<Tree>, i: nat)
    requires |kids| == |kvs| + 1 && i < |kids|
    ensures Flat(acc, kvs, kids) == Pre(acc, kvs[..i], kids[..i]) + (Entries(acc, kids[i]) + Post(acc, kvs, kids, i))
  {
    hide Entries, Sep, Pre, Flat;
    FlatAppend(acc, kvs[..i], kids[..i], kvs[i..], kids[i..]);
    assert kvs[..i] + kvs[i..] == kvs && kids[..i] + kids[i..] == kids;
    FlatHead(acc, kvs[i..], kids[i..]);
    assert kids[i..][1..] == kids[i + 1..];
    if i < |kvs| {
      assert kvs[i..][1..] == kvs[i + 1..];
    }
  }

  lemma FlatCut(acc: Acc, kvs: seq<KV>, kids: seq<Tree>, mid: nat)
    requires |kids| == |kvs| + 1 && mid < |kvs|
    ensures Flat(acc, kvs, kids)
         == Flat(acc, kvs[..mid], kids[..mid + 1]) + Sep(acc, kvs[mid]) + Flat(acc, kvs[mid + 1..], kids[mid + 1..])
  {
    hide Entries, Sep, Pre, Flat;
    FlatAt(acc, kvs, kids, mid);
    FlatAt(acc, kvs[..mid], kids[..mid + 1], mid);
    assert kvs[..mid][..mid] == kvs[..mid] && kids[..mid + 1][..mid] == kids[..mid];
    var a, e, s, g := Pre(acc, kvs[..mid], kids[..mid]), Entries(acc, kids[mid]), Sep(acc, kvs[mid]),
      Flat(acc, kvs[mid + 1..], kids[mid + 1..]);
    assert e + [] == e;
    Seqs.Assoc4(a, e, s, g);
  }

  lemma FlatReplace(acc: Acc, kvs: seq<KV>, kids: seq<Tree>, i: nat, c: Tree)
    requires |kids| == |kvs| + 1 && i < |kids|
    ensures Flat(acc, kvs, kids[i := c])
         == Pre(acc, kvs[..i], kids[..i]) + (Entries(acc, c) + Post(acc, kvs, kids, i))
  {
    hide Entries, Sep, Pre, Flat;
    var kids' := kids[i := c];
    FlatAt(acc, kvs, kids', i);
    assert kids'[..i] == kids[..i] && kids'[i + 1..] == kids[i + 1..];
  }

  lemma FlatSplice(acc: Acc, kvs: seq<KV>, kids: seq<Tree>, i: nat, l: Tree, m: KV, r: Tree)
    requires |kids| == |kvs| + 1 && i < |kids|
    ensures Flat(acc, InsertAt(kvs, i, m), InsertAt(kids[i := l], i + 1, r))
         == Pre(acc, kvs[..i], kids[..i])
            + ((Entries(acc, l) + Sep(acc, m) + Entries(acc, r)) + Post(acc, kvs, kids, i))
  {
    hide Entries, Sep, Pre, Flat;
    var all, kids' := InsertAt(kvs, i, m), InsertAt(kids[i := l], i + 1, r);
    FlatAt(acc, all, kids', i);
    assert all[..i] == kvs[..i] && kids'[..i] == kids[..i];
    assert all[i + 1..] == kvs[i..] && kids'[i + 1..] == [r] + kids[i + 1..];
    FlatHead(acc, kvs[i..], [r] + kids[i + 1..]);
    assert ([r] + kids[i + 1..])[1..] == kids[i + 1..];
    if i < |kvs| {
      assert kvs[i..][1..] == kvs[i + 1..];
    }
    var el, sm, er, p := Entries(acc, l), Sep(acc, m), Entries(acc, r), Post(acc, kvs, kids, i);
    assert el + (sm + (er + p)) == (el + sm + er) + p;
  }

  // ---------------------------------------------------------------- order of the flattened records

  /** In a tree in search order the records come in strictly increasing key order, inside the tree's range. */
  lemma {:induction false} EntriesSorted(acc: Acc, strict: bool, t: Tree, lo: int, hi: int)
    requires Ordered(acc, strict, t, lo, hi)
    ensures Sorted(Entries(acc, t)) && Within(Entries(acc, t), lo, hi)
    decreases t
  {
    if t.Inner? {
      FlatSorted(acc, strict, t.kvs, t.kids, lo, hi);
    }
  }

  lemma {:induction false} FlatSorted(acc: Acc, strict: bool, kvs: seq<KV>, kids: seq<Tree>, lo: int, hi: int)
    requires NodeOrdered(acc, strict, false, kvs, lo, hi) && KidsOrdered(acc, strict, kvs, kids, lo, hi)
    ensures Sorted(Flat(acc, kvs, kids)) && Within(Flat(acc, kvs, kids), lo, hi)
    decreases kids
  {
    hide Ordered, Entries, KidsOrdered, Sorted, Within, Sep;
    KidOrdered(acc, strict, kvs, kids, 0, lo, hi);
    EntriesSorted(acc, strict, kids[0], lo, Hi(kvs, 0, hi));
    if kvs != [] {
      SepSorted(acc, strict, kvs, lo, hi);
      KidsCut(acc, strict, kvs, kids, 0, lo, hi);
      FlatSorted(acc, strict, kvs[1..], kids[1..], Lo(acc, kvs, 1, lo), hi);
      Join(Entries(acc, kids[0]), Sep(acc, kvs[0]), Flat(acc, kvs[1..], kids[1..]),
          lo, kvs[0].key, Lo(acc, kvs, 1, lo), hi);
    }
  }

  lemma SepSorted(acc: Acc, strict: bool, kvs: seq<KV>, lo: int, hi: int)
    requires NodeOrdered(acc, strict, false, kvs, lo, hi) && kvs != []
    ensures Sorted(Sep(acc, kvs[0])) && Within(Sep(acc, kvs[0]), kvs[0].key, Lo(acc, kvs, 1, lo))
    ensures lo <= kvs[0].key <= Lo(acc, kvs, 1, lo) <= hi
  {
  }

  lemma Join(a: seq<KV>, s: seq<KV>, b: seq<KV>, lo: int, mid: int, mid': int, hi: int)
    requires Sorted(a) && Within(a, lo, mid) && Sorted(b) && Within(b, mid', hi)
    requires Sorted(s) && Within(s, mid, mid')
    requires lo <= mid <= mid' <= hi
    ensures Sorted(a + (s + b)) && Within(a + (s + b), lo, hi)
  {
  }

  lemma WithinJoin(a: seq<KV>, s: seq<KV>, b: seq<KV>, lo: int, mid: int, mid': int, hi: int)
    requires Within(a, lo, mid) && Within(s, mid, mid') && Within(b, mid', hi) && lo <= mid <= mid' <= hi
    ensures Within(a + s + b, lo, hi)
  {
  }

  lemma LoSteps(acc: Acc, strict: bool, kvs: seq<KV>, i: nat, lo: int, hi: int)
    requires NodeOrdered(acc, strict, false, kvs, lo, hi) && 0 < i <= |kvs|
    ensures Lo(acc, kvs, 1, lo) <= Lo(acc, kvs, i, lo)
    ensures Lo(acc, kvs[1..], i - 1, Lo(acc, kvs, 1, lo)) == Lo(acc, kvs, i, lo)
  {
  }

  lemma {:induction false} PreBelow(acc: Acc, strict: bool, kvs: seq<KV>, kids: seq<Tree>, i: nat, lo: int, hi: int)
    requires NodeOrdered(acc, strict, false, kvs, lo, hi) && KidsOrdered(acc, strict, kvs, kids, lo, hi)
    requires |kids| == |kvs| + 1 && i < |kids|
    ensures Within(Pre(acc, kvs[..i], kids[..i]), lo, Lo(acc, kvs, i, lo))
    decreases i
  {
    hide Ordered, Entries, KidsOrdered, NodeOrdered, Sorted, Sep;
    if i > 0 {
      KidOrdered(acc, strict, kvs, kids, 0, lo, hi);
      EntriesSorted(acc, strict, kids[0], lo, Hi(kvs, 0, hi));
      SepSorted(acc, strict, kvs, lo, hi);
      LoSteps(acc, strict, kvs, i, lo, hi);
      KidsCut(acc, strict, kvs, kids, 0, lo, hi);
      PreBelow(acc, strict, kvs[1..], kids[1..], i - 1, Lo(acc, kvs, 1, lo), hi);
      assert kvs[..i][1..] == kvs[1..][..i - 1] && kids[..i][1..] == kids[1..][..i - 1];
      WithinJoin(Entries(acc, kids[0]), Sep(acc, kvs[0]), Pre(acc, kvs[1..][..i - 1], kids[1..][..i - 1]),
                 lo, kvs[0].key, Lo(acc, kvs, 1, lo), Lo(acc, kvs, i, lo));
    }
  }

  lemma PostAbove(acc: Acc, strict: bool, kvs: seq<KV>, kids: seq<Tree>, i: nat, lo: int, hi: int)
    requires NodeOrdered(acc, strict, false, kvs, lo, hi) && KidsOrdered(acc, strict, kvs, kids, lo, hi)
    requires i < |kids|
    ensures forall j | 0 <= j < |Post(acc, kvs, kids, i)| :: Hi(kvs, i, hi) <= Post(acc, kvs, kids, i)[j].key
  {
    hide Ordered, Entries;
    if i < |kvs| {
      KidsCut(acc, strict, kvs, kids, i, lo, hi);
      FlatSorted(acc, strict, kvs[i + 1..], kids[i + 1..], Lo(acc, kvs, i + 1, lo), hi);
    }
  }

  // ---------------------------------------------------------------- one insert

  function OutEntries(acc: Acc, out: Out): seq<KV> {
    match out
    case Done(t) => Entries(acc, t)
    case Split(l, m, r) => Entries(acc, l) + Sep(acc, m) + Entries(acc, r)
    case Broken => []
  }

  /** Splitting a leaf, by move-up or by copy-up, loses and duplicates nothing. */
  lemma SplitLeafEntries(cfg: Cfg, t: Tree, all: seq<KV>, pages: nat)
    requires t.Leaf? && all != []
    requires !SplitLeaf(cfg, t, all, pages).out.Broken?
    ensures OutEntries(cfg.acc, SplitLeaf(cfg, t, all, pages).out) == all
  {
    hide Used, Fits;
    var mid := |all| / 2;
    assert all == all[..mid] + [all[mid]] + all[mid + 1..];
    assert all == all[..mid] + [] + all[mid..];
  }

  lemma SplitInnerEntries(cfg: Cfg, id: nat, all: seq<KV>, kids: seq<Tree>, pages: nat)
    requires all != [] && |kids| == |all| + 1
    requires !SplitInner(cfg, id, all, kids, pages).out.Broken?
    ensures OutEntries(cfg.acc, SplitInner(cfg, id, all, kids, pages).out) == Flat(cfg.acc, all, kids)
  {
    hide Used, Fits, Flat;
    FlatCut(cfg.acc, all, kids, |all| / 2);
  }

  lemma LeafPutEntries(cfg: Cfg, t: Tree, i: nat, kv: KV, pages: nat)
    requires t.Leaf? && i <= |t.kvs|
    requires !LeafPut(cfg, t, i, kv, pages).out.Broken?
    ensures OutEntries(cfg.acc, LeafPut(cfg, t, i, kv, pages).out) == t.kvs[..i] + ([kv] + t.kvs[i..])
  {
    hide SplitLeaf, Flat;
    var all := InsertAt(t.kvs, i, kv);
    assert all == t.kvs[..i] + ([kv] + t.kvs[i..]);
    if RoomFor(cfg, true, t.content, |t.kvs|, |kv.val|).Full? {
      SplitLeafEntries(cfg, t, all, pages);
    } else {
      assert LeafPut(cfg, t, i, kv, pages).out.Done?;
    }
  }

  lemma InnerPutEntries(cfg: Cfg, t: Tree, i: nat, l: Tree, m: KV, r: Tree, pages: nat)
    requires t.Inner? && |t.kids| == |t.kvs| + 1 && i <= |t.kvs|
    requires !InnerPut(cfg, t, i, l, m, r, pages).out.Broken?
    ensures OutEntries(cfg.acc, InnerPut(cfg, t, i, l, m, r, pages).out)
         == Pre(cfg.acc, t.kvs[..i], t.kids[..i])
            + ((Entries(cfg.acc, l) + Sep(cfg.acc, m) + Entries(cfg.acc, r)) + Post(cfg.acc, t.kvs, t.kids, i))
  {
    hide Flat, SplitInner, Pre, Sep, Post;
    var all, kids := InsertAt(t.kvs, i, m), InsertAt(t.kids[i := l], i + 1, r);
    FlatSplice(cfg.acc, t.kvs, t.kids, i, l, m, r);
    if RoomFor(cfg, false, t.content, |t.kvs|, |m.val|).Full? {
      SplitInnerEntries(cfg, t.id, all, kids, pages);
    }
  }

  /** Put at the index that the search finds. */
  lemma PutNew(s: seq<KV>, i: nat, key: int, val: Value)
    requires i <= |s|
    requires forall j | 0 <= j < i :: s[j].key < key
    requires forall j | i <= j < |s| :: key < s[j].key
    ensures Put(s, key, val) == s[..i] + ([KV(key, val)] + s[i..])
  {
    assert s == s[..i] + ([] + s[i..]);
    PutMiddle(s[..i], [], s[i..], key, val);
    assert Put([], key, val) == [KV(key, val)];
  }

  lemma PutOld(s: seq<KV>, i: nat, key: int, val: Value)
    requires i < |s| && s[i].key == key
    requires forall j | 0 <= j < i :: s[j].key < key
    requires forall j | i < j < |s| :: key < s[j].key
    ensures Put(s, key, val) == s[i := KV(key, val)]
  {
    assert s == s[..i] + ([s[i]] + s[i + 1..]);
    PutMiddle(s[..i], [s[i]], s[i + 1..], key, val);
    assert Put([s[i]], key, val) == [KV(key, val)];
  }

  lemma RemoveThenInsert(s: seq<KV>, i: nat, kv: KV)
    requires i < |s|
    ensures RemoveAt(s, i)[..i] + ([kv] + RemoveAt(s, i)[i..]) == s[i := kv]
  {
  }

  /** One insert is one map update on the records, through any cascade of splits. */
  lemma {:induction false} InsertEntries(cfg: Cfg, t: Tree, key: int, val: Value, pages: nat, lo: int, hi: int)
    requires Ordered(cfg.acc, false, t, lo, hi) && lo <= key < hi
    requires !InsRec(cfg, t, key, val, pages).out.Broken?
    ensures OutEntries(cfg.acc, InsRec(cfg, t, key, val, pages).out) == Put(Entries(cfg.acc, t), key, val)
    decreases t
  {
    hide LeafPut, InnerPut, Flat, KidsOrdered, Put, Sep, RoomFor, Pre, Post;
    var acc := cfg.acc;
    var i := Position(t.kvs, key, acc.Upper(t.Leaf?));
    var found := i < |t.kvs| && t.kvs[i].key == key;
    if t.Leaf? {
      if found {
        PutOld(t.kvs, i, key, val);
        RemoveThenInsert(t.kvs, i, KV(key, val));
      } else {
        PutNew(t.kvs, i, key, val);
      }
      if !found || |val| > |t.kvs[i].val| {
        LeafPutEntries(cfg, if found then Leaf(t.id, RemoveAt(t.kvs, i), t.content, t.next) else t,
            i, KV(key, val), pages);
      }
    } else if found {
      InnerOverwrite(acc, t, i, key, val, lo, hi);
    } else {
      DescentRange(acc, false, t, key, lo, hi);
      KidOrdered(acc, false, t.kvs, t.kids, i, lo, hi);
      InsertEntries(cfg, t.kids[i], key, val, pages, Lo(acc, t.kvs, i, lo), Hi(t.kvs, i, hi));
      PutIntoKid(acc, t.kvs, t.kids, i, key, val, lo, hi);
      var sub := InsRec(cfg, t.kids[i], key, val, pages);
      match sub.out {
        case Done(c) => FlatReplace(acc, t.kvs, t.kids, i, c);
        case Split(l, m, r) => InnerPutEntries(cfg, t, i, l, m, r, sub.pages);
      }
    }
  }

  lemma PutIntoKid(acc: Acc, kvs: seq<KV>, kids: seq<Tree>, i: nat, key: int, val: Value, lo: int, hi: int)
    requires NodeOrdered(acc, false, false, kvs, lo, hi) && KidsOrdered(acc, false, kvs, kids, lo, hi)
    requires i < |kids| && Lo(acc, kvs, i, lo) <= key < Hi(kvs, i, hi)
    ensures Put(Flat(acc, kvs, kids), key, val)
         == Pre(acc, kvs[..i], kids[..i]) + (Put(Entries(acc, kids[i]), key, val) + Post(acc, kvs, kids, i))
  {
    PreBelow(acc, false, kvs, kids, i, lo, hi);
    PostAbove(acc, false, kvs, kids, i, lo, hi);
    hide *;
    FlatAt(acc, kvs, kids, i);
    PutMiddle(Pre(acc, kvs[..i], kids[..i]), Entries(acc, kids[i]), Post(acc, kvs, kids, i), key, val);
  }

  /** Overwriting the value of a record held in an internal B-tree node. */
  lemma InnerOverwrite(acc: Acc, t: Tree, i: nat, key: int, val: Value, lo: int, hi: int)
    requires t.Inner? && Ordered(acc, false, t, lo, hi) && lo <= key < hi
    requires i < |t.kvs| && t.kvs[i].key == key && !acc.CopyUp()
    ensures Flat(acc, t.kvs[i := KV(key, val)], t.kids) == Put(Flat(acc, t.kvs, t.kids), key, val)
  {
    hide Flat, Entries;
    var kvs' := t.kvs[i := KV(key, val)];
    FlatCut(acc, t.kvs, t.kids, i);
    FlatCut(acc, kvs', t.kids, i);
    assert kvs'[..i] == t.kvs[..i] && kvs'[i + 1..] == t.kvs[i + 1..];
    KidsCut(acc, false, t.kvs, t.kids, i, lo, hi);
    assert Lo(acc, t.kvs, i + 1, lo) == key + 1;
    FlatSorted(acc, false, t.kvs[..i], t.kids[..i + 1], lo, key);
    FlatSorted(acc, false, t.kvs[i + 1..], t.kids[i + 1..], key + 1, hi);
    var a, c := Flat(acc, t.kvs[..i], t.kids[..i + 1]), Flat(acc, t.kvs[i + 1..], t.kids[i + 1..]);
    PutMiddle(a, [t.kvs[i]], c, key, val);
    assert a + [t.kvs[i]] + c == a + ([t.kvs[i]] + c);
  }
}
