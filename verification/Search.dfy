/** Searching a tree: what the descents of Get, FindLeaf and the range scans rely on. */
module Search {
  import opened Bytes
  import opened Records
  import opened TreeModel
  import opened Order
  import opened Contents
  import opened Shape
  import opened Layout
  import opened Refine

  /** The records of a tree around child i: those before it lie below the child's range, those after it do not. */
  lemma Around(acc: Acc, t: Tree, i: nat, lo: int, hi: int)
    requires t.Inner? && Ordered(acc, false, t, lo, hi) && |t.kids| == |t.kvs| + 1 && i < |t.kids|
    ensures Entries(acc, t)
         == Pre(acc, t.kvs[..i], t.kids[..i]) + (Entries(acc, t.kids[i]) + Post(acc, t.kvs, t.kids, i))
    ensures Within(Pre(acc, t.kvs[..i], t.kids[..i]), lo, Lo(acc, t.kvs, i, lo))
    ensures forall j | 0 <= j < |Post(acc, t.kvs, t.kids, i)| :: Hi(t.kvs, i, hi) <= Post(acc, t.kvs, t.kids, i)[j].key
  {
    hide KidsOrdered, NodeOrdered, Pre, Post, Flat;
    FlatAt(acc, t.kvs, t.kids, i);
    PreBelow(acc, false, t.kvs, t.kids, i, lo, hi);
    PostAbove(acc, false, t.kvs, t.kids, i, lo, hi);
  }

  /** A key that is not in an internal node can only be in the child that the search picks. */
  lemma LookupBelow(acc: Acc, t: Tree, key: int, lo: int, hi: int)
    requires t.Inner? && Ordered(acc, false, t, lo, hi) && |t.kids| == |t.kvs| + 1 && lo <= key < hi
    requires var i := Position(t.kvs, key, acc.Upper(false)); i < |t.kvs| ==> t.kvs[i].key != key
    ensures var i := Position(t.kvs, key, acc.Upper(false));
      && Ordered(acc, false, t.kids[i], Lo(acc, t.kvs, i, lo), Hi(t.kvs, i, hi))
      && Lo(acc, t.kvs, i, lo) <= key < Hi(t.kvs, i, hi)
      && Lookup(Entries(acc, t), key) == Lookup(Entries(acc, t.kids[i]), key)
  {
    var i := Position(t.kvs, key, acc.Upper(false));
    DescentRange(acc, false, t, key, lo, hi);
    KidOrdered(acc, false, t.kvs, t.kids, i, lo, hi);
    Around(acc, t, i, lo, hi);
    hide Entries, Pre, Post, Ordered, Position;
    var a, b, c := Pre(acc, t.kvs[..i], t.kids[..i]), Entries(acc, t.kids[i]), Post(acc, t.kvs, t.kids, i);
    LookupAbsent(a, key);
    LookupAbsent(c, key);
    LookupConcat(a, b + c, key);
    LookupConcat(b, c, key);
  }

  /** A key found in an internal B-tree node is stored there. */
  lemma LookupHere(acc: Acc, t: Tree, key: int, lo: int, hi: int)
    requires t.Inner? && Ordered(acc, false, t, lo, hi) && |t.kids| == |t.kvs| + 1 && lo <= key < hi && !acc.CopyUp()
    requires var i := Position(t.kvs, key, acc.Upper(false)); i < |t.kvs| && t.kvs[i].key == key
    ensures Lookup(Entries(acc, t), key) == Some(t.kvs[Position(t.kvs, key, acc.Upper(false))].val)
  {
    var i := Position(t.kvs, key, acc.Upper(false));
    KidOrdered(acc, false, t.kvs, t.kids, i, lo, hi);
    EntriesSorted(acc, false, t.kids[i], Lo(acc, t.kvs, i, lo), Hi(t.kvs, i, hi));
    Around(acc, t, i, lo, hi);
    var a, b, c := Pre(acc, t.kvs[..i], t.kids[..i]), Entries(acc, t.kids[i]), Post(acc, t.kvs, t.kids, i);
    assert c == [t.kvs[i]] + Flat(acc, t.kvs[i + 1..], t.kids[i + 1..]);
    hide Entries, Pre, Post, Ordered, Position, Flat;
    LookupAbsent(a, key);
    LookupAbsent(b, key);
    LookupConcat(a, b + c, key);
    LookupConcat(b, c, key);
  }

  /** Looking a key up in a sorted sequence at the position the search finds. */
  lemma LookupSorted(s: seq<KV>, key: int)
    requires Sorted(s)
    ensures var i := Position(s, key, false);
      Lookup(s, key) == if i < |s| && s[i].key == key then Some(s[i].val) else None
  {
  }

  // ---------------------------------------------------------------- leaves

  /** The records in a tree's leaves lie in its range. */
  lemma {:induction false} LeavesWithin(acc: Acc, t: Tree, lo: int, hi: int)
    requires Ordered(acc, false, t, lo, hi)
    ensures Within(LeafRecords(Leaves(t)), lo, hi)
    decreases t, 1
  {
    if t.Leaf? {
      assert LeafRecords([t]) == t.kvs + LeafRecords([][..]);
    } else {
      LeavesOfWithin(acc, t, 0, |t.kids|, lo, hi);
      assert t.kids[0..|t.kids|] == t.kids;
    }
  }

  /** Those of the children from a to b - 1 lie between the separators around them. */
  lemma {:induction false} LeavesOfWithin(acc: Acc, t: Tree, a: nat, b: nat, lo: int, hi: int)
    requires t.Inner? && Ordered(acc, false, t, lo, hi) && a <= b <= |t.kids|
    ensures |t.kids| == |t.kvs| + 1
    ensures b > a ==>
      Within(LeafRecords(LeavesOf(t.kids[a..b])), Lo(acc, t.kvs, a, lo), Hi(t.kvs, b - 1, hi))
    decreases t, 0, b - a
  {
    hide KidsOrdered, Leaves, LeavesOf, LeafRecords;
    assert |t.kids| == |t.kvs| + 1 by {
      KidsCount(acc, t, lo, hi);
    }
    if b > a {
      KidOrdered(acc, false, t.kvs, t.kids, b - 1, lo, hi);
      LeavesWithin(acc, t.kids[b - 1], Lo(acc, t.kvs, b - 1, lo), Hi(t.kvs, b - 1, hi));
      LastKid(t.kids, a, b);
      if b > a + 1 {
        LeavesOfWithin(acc, t, a, b - 1, lo, hi);
        Bounds(acc, t.kvs, a, b - 1, lo, hi);
      }
    }
  }

  lemma KidsCount(acc: Acc, t: Tree, lo: int, hi: int)
    requires t.Inner? && Ordered(acc, false, t, lo, hi)
    ensures |t.kids| == |t.kvs| + 1
  {
  }

  lemma LastKid(kids: seq<Tree>, a: nat, b: nat)
    requires a < b <= |kids|
    ensures LeafRecords(LeavesOf(kids[a..b]))
      == LeafRecords(LeavesOf(kids[a..b - 1])) + LeafRecords(Leaves(kids[b - 1]))
    ensures b == a + 1 ==> LeafRecords(LeavesOf(kids[a..b])) == LeafRecords(Leaves(kids[b - 1]))
  {
    assert kids[a..b] == kids[a..b - 1] + [kids[b - 1]];
    assert LeafRecords(LeavesOf([])) == [];
    hide *;
    ListAppend(kids[a..b - 1], [kids[b - 1]]);
    ListOne(kids[b - 1]);
    LeafRecordsAppend(LeavesOf(kids[a..b - 1]), Leaves(kids[b - 1]));
    assert b == a + 1 ==> kids[a..b - 1] == [];
  }

  lemma Bounds(acc: Acc, kvs: seq<KV>, a: nat, b: nat, lo: int, hi: int)
    requires NodeOrdered(acc, false, false, kvs, lo, hi) && a < b <= |kvs|
    ensures Lo(acc, kvs, a, lo) <= Lo(acc, kvs, b, lo) && Hi(kvs, b - 1, hi) <= Hi(kvs, b, hi)
  {
  }

  /** The leaves to the left of the child that the search picks hold smaller keys; those to its right do not. */
  lemma LeavesAround(acc: Acc, t: Tree, key: int, lo: int, hi: int)
    requires t.Inner? && Ordered(acc, false, t, lo, hi) && lo <= key <= hi
    ensures var i := Position(t.kvs, key, acc.Upper(false));
      && |t.kids| == |t.kvs| + 1
      && Leaves(t) == LeavesOf(t.kids[..i]) + Leaves(t.kids[i]) + LeavesOf(t.kids[i + 1..])
      && Below(LeafRecords(LeavesOf(t.kids[..i])), key)
      && NotBelow(LeafRecords(LeavesOf(t.kids[i + 1..])), key)
  {
    hide KidsOrdered, LeafRecords, LeavesOf;
    KidsCount(acc, t, lo, hi);
    var i := Position(t.kvs, key, acc.Upper(false));
    LeavesOfWithin(acc, t, 0, i, lo, hi);
    LeavesOfWithin(acc, t, i + 1, |t.kids|, lo, hi);
    NoLeafRecords();
    assert t.kids[0..i] == t.kids[..i] && t.kids[i + 1..|t.kids|] == t.kids[i + 1..];
    ListSplit(t.kids, i);
  }

  lemma NoLeafRecords()
    ensures LeafRecords(LeavesOf([])) == []
  {
  }

  ghost predicate Below(s: seq<KV>, key: int) {
    forall i | 0 <= i < |s| :: s[i].key < key
  }

  ghost predicate NotBelow(s: seq<KV>, key: int) {
    forall i | 0 <= i < |s| :: key <= s[i].key
  }

  lemma SidesAppend(a: seq<KV>, b: seq<KV>, key: int)
    ensures Below(a, key) && Below(b, key) ==> Below(a + b, key)
    ensures NotBelow(a, key) && NotBelow(b, key) ==> NotBelow(a + b, key)
  {
  }

  /** The search splits a sorted sequence into the smaller records and the others. */
  lemma SidesOfPosition(s: seq<KV>, key: int)
    requires Sorted(s)
    ensures var i := Position(s, key, false); Below(s[..i], key) && NotBelow(s[i..], key)
  {
  }

  // ---------------------------------------------------------------- ranges

  /** In a sorted sequence, what follows the records below start is what the search for start leaves over. */
  lemma SuffixFrom(a: seq<KV>, b: seq<KV>, start: int)
    requires Below(a, start) && NotBelow(b, start)
    ensures (a + b)[Position(a + b, start, false)..] == b
  {
    PositionUnique(a + b, start, false, |a|);
  }

  /** The records of a range are the records from start on, up to the first one beyond end. */
  lemma {:induction false} BetweenSuffix(s: seq<KV>, start: int, end: int)
    requires Sorted(s)
    ensures Between(s, start, end) == Between(s[Position(s, start, false)..], start, end)
  {
    if s != [] && s[0].key < start {
      BetweenSuffix(s[1..], start, end);
      assert s[1..][Position(s[1..], start, false)..] == s[Position(s, start, false)..];
    }
  }

  lemma {:induction false} BetweenDone(s: seq<KV>, start: int, end: int)
    requires Sorted(s) && (s != [] ==> s[0].key > end)
    ensures Between(s, start, end) == []
  {
    if s != [] {
      assert |s| > 1 ==> s[0].key < s[1].key;
      BetweenDone(s[1..], start, end);
    }
  }

  /** Every leaf of a tree on the file is on the file. */
  lemma {:induction false} LeavesHeld(cfg: Cfg, file: seq<Page>, t: Tree)
    requires Holds(cfg, file, t)
    ensures forall i | 0 <= i < |Leaves(t)| :: Leaves(t)[i].Leaf? && Holds(cfg, file, Leaves(t)[i])
    decreases t
  {
    hide HoldsNode, NodeOf;
    if t.Inner? {
      LeavesOfHeld(cfg, file, t.kids);
    }
  }

  lemma {:induction false} LeavesOfHeld(cfg: Cfg, file: seq<Page>, kids: seq<Tree>)
    requires HoldsAll(cfg, file, kids)
    ensures forall i | 0 <= i < |LeavesOf(kids)| :: LeavesOf(kids)[i].Leaf? && Holds(cfg, file, LeavesOf(kids)[i])
    decreases kids
  {
    hide Holds, Leaves;
    if kids != [] {
      LeavesHeld(cfg, file, kids[0]);
      LeavesOfHeld(cfg, file, kids[1..]);
    }
  }

  lemma {:induction false} LeafRecordsAt(ls: seq<Tree>, j: nat)
    requires j < |ls|
    ensures LeafRecords(ls) == LeafRecords(ls[..j]) + ls[j].kvs + LeafRecords(ls[j + 1..])
    ensures LeafRecords(ls[..j + 1]) == LeafRecords(ls[..j]) + ls[j].kvs
  {
    assert ls == ls[..j] + [ls[j]] + ls[j + 1..];
    assert ls[..j + 1] == ls[..j] + [ls[j]];
    LeafRecordsAppend(ls[..j] + [ls[j]], ls[j + 1..]);
    LeafRecordsAppend(ls[..j], [ls[j]]);
    assert LeafRecords([ls[j]]) == ls[j].kvs + LeafRecords([ls[j]][1..]);
  }

  /** Every leaf is a page of the tree. */
  lemma {:induction false} LeafInPages(t: Tree, i: nat)
    requires i < |Leaves(t)|
    ensures Leaves(t)[i].id in Pages(t)
    decreases t
  {
    if t.Inner? {
      LeafInPagesOf(t.kids, i);
    }
  }

  lemma {:induction false} LeafInPagesOf(kids: seq<Tree>, i: nat)
    requires i < |LeavesOf(kids)|
    ensures LeavesOf(kids)[i].id in PagesOf(kids)
    decreases kids
  {
    hide Leaves, Pages;
    if i < |Leaves(kids[0])| {
      LeafInPages(kids[0], i);
    } else {
      LeafInPagesOf(kids[1..], i - |Leaves(kids[0])|);
    }
  }

  // ---------------------------------------------------------------- scanning

  /** What a scan knows when records remain: they are sorted, start at start, and complete what it has returned. */
  ghost predicate ScanState(all: seq<KV>, start: int, end: int, seen: seq<KV>, rest: seq<KV>) {
    Sorted(rest) && NotBelow(rest, start) && seen + Between(rest, start, end) == Between(all, start, end)
  }

  lemma ScanBegins(all: seq<KV>, start: int, end: int)
    requires Sorted(all)
    ensures ScanState(all, start, end, [], all[Position(all, start, false)..])
  {
    var i := Position(all, start, false);
    BetweenSuffix(all, start, end);
    assert i < |all| ==> forall k | i < k < |all| :: all[i].key < all[k].key;
    assert [] + Between(all[i..], start, end) == Between(all[i..], start, end);
  }

  lemma ScanTakes(all: seq<KV>, start: int, end: int, seen: seq<KV>, rest: seq<KV>)
    requires ScanState(all, start, end, seen, rest) && rest != [] && rest[0].key <= end
    ensures ScanState(all, start, end, seen + [rest[0]], rest[1..])
  {
  }

  lemma ScanEnds(all: seq<KV>, start: int, end: int, seen: seq<KV>, rest: seq<KV>)
    requires ScanState(all, start, end, seen, rest) && (rest != [] ==> rest[0].key > end)
    ensures seen == Between(all, start, end)
  {
    BetweenDone(rest, start, end);
  }
}
