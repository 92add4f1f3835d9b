/**
 Values of one fixed length, as the benchmarks use: every insert completes, pages fill evenly, and the height of the
 tree is logarithmic in the number of records.
 */
module FixedLength {
  import opened Bytes
  import opened Records
  import opened TreeModel
  import opened Order
  import opened Contents
  import opened Shape

  /** The length of the values in a node: internal B+ tree cells carry none. */
  function Len(acc: Acc, leaf: bool, v: nat): nat {
    if acc.Upper(leaf) then 0 else v
  }

  function Size(cfg: Cfg, leaf: bool, v: nat): (s: nat)
    ensures s >= 10
  {
    cfg.acc.CellSize(leaf, Len(cfg.acc, leaf, v))
  }

  /** How many cells with their slots fit on a page. */
  function Cap(cfg: Cfg, leaf: bool, v: nat): nat
    requires cfg.pageSize >= HEADER
  {
    (cfg.pageSize - HEADER) / (Size(cfg, leaf, v) + SLOT)
  }

  /** The fewest cells of a page other than the root. */
  function Least(cfg: Cfg, leaf: bool, v: nat): nat
    requires cfg.pageSize >= HEADER
  {
    if leaf && cfg.acc.CopyUp() then (Cap(cfg, leaf, v) + 1) / 2 else Cap(cfg, leaf, v) / 2
  }

  /** What a full page leaves over is too small for the room test to accept one more cell. */
  predicate KindOk(cfg: Cfg, leaf: bool, v: nat) {
    && cfg.pageSize >= HEADER
    && Cap(cfg, leaf, v) >= 2
    && (cfg.pageSize - HEADER) % (Size(cfg, leaf, v) + SLOT) < Size(cfg, leaf, v)
  }

  predicate Geometry(cfg: Cfg, v: nat) {
    KindOk(cfg, true, v) && KindOk(cfg, false, v)
  }

  lemma TimesAtLeast(k: int, d: int)
    requires d >= 0
    ensures k >= 1 ==> k * d >= d
    ensures k <= -1 ==> k * d <= -d
  {
  }

  lemma DivUnique(d: nat, q: nat, r: nat)
    requires r < d
    ensures (q * d + r) / d == q && (q * d + r) % d == r
  {
    var x := q * d + r;
    assert x == x / d * d + x % d;
    TimesAtLeast(q - x / d, d);
    assert (q - x / d) * d == q * d - x / d * d;
  }

  lemma KindByDivision(cfg: Cfg, leaf: bool, v: nat, q: nat, r: nat)
    requires q >= 2 && r < Size(cfg, leaf, v)
    requires cfg.pageSize == HEADER + q * (Size(cfg, leaf, v) + SLOT) + r
    ensures KindOk(cfg, leaf, v)
  {
    DivUnique(Size(cfg, leaf, v) + SLOT, q, r);
  }

  /** The geometry of the benchmarks: 4, 8 and 16 KiB pages with 128-byte values. */
  lemma BenchmarkGeometry(acc: Acc)
    ensures Geometry(Cfg(acc, 4096), 128) && Geometry(Cfg(acc, 8192), 128) && Geometry(Cfg(acc, 16384), 128)
  {
    hide KindOk;
    if acc.CopyUp() {
      KindByDivision(Cfg(acc, 4096), true, 128, 29, 23);
      KindByDivision(Cfg(acc, 8192), true, 128, 58, 59);
      KindByDivision(Cfg(acc, 16384), true, 128, 116, 131);
      KindByDivision(Cfg(acc, 4096), false, 128, 291, 9);
      KindByDivision(Cfg(acc, 8192), false, 128, 584, 3);
      KindByDivision(Cfg(acc, 16384), false, 128, 1169, 5);
    } else {
      KindByDivision(Cfg(acc, 4096), true, 128, 28, 51);
      KindByDivision(Cfg(acc, 8192), true, 128, 56, 115);
      KindByDivision(Cfg(acc, 16384), true, 128, 113, 99);
      KindByDivision(Cfg(acc, 4096), false, 128, 28, 51);
      KindByDivision(Cfg(acc, 8192), false, 128, 56, 115);
      KindByDivision(Cfg(acc, 16384), false, 128, 113, 99);
    }
  }

  /** A page with n cells of the kind's size and no space lost. */
  ghost predicate PageFixed(cfg: Cfg, v: nat, leaf: bool, kvs: seq<KV>, content: nat, least: nat) {
    && cfg.pageSize >= HEADER
    && least <= |kvs| <= Cap(cfg, leaf, v)
    && (forall i | 0 <= i < |kvs| :: |kvs[i].val| == Len(cfg.acc, leaf, v))
    && content == cfg.pageSize - |kvs| * Size(cfg, leaf, v)
  }

  ghost predicate Fixed(cfg: Cfg, v: nat, root: bool, t: Tree)
    decreases t
  {
    && cfg.pageSize >= HEADER
    && PageFixed(cfg, v, t.Leaf?, t.kvs, t.content, if !root then Least(cfg, t.Leaf?, v) else if t.Leaf? then 0 else 1)
    && (t.Inner? ==> KidsFixed(cfg, v, t.kids))
  }

  ghost predicate KidsFixed(cfg: Cfg, v: nat, kids: seq<Tree>)
    decreases kids
  {
    forall j | 0 <= j < |kids| :: Fixed(cfg, v, false, kids[j])
  }

  ghost predicate OutFixed(cfg: Cfg, v: nat, root: bool, out: Out) {
    match out
    case Done(t) => Fixed(cfg, v, root, t)
    case Split(l, m, r) => Fixed(cfg, v, false, l) && Fixed(cfg, v, false, r) && |m.val| == Len(cfg.acc, false, v)
    case Broken => false
  }

  // ---------------------------------------------------------------- space

  lemma {:induction false} UsedExactly(cfg: Cfg, v: nat, leaf: bool, kvs: seq<KV>)
    requires forall i | 0 <= i < |kvs| :: |kvs[i].val| == Len(cfg.acc, leaf, v)
    ensures Used(cfg, leaf, kvs) == |kvs| * Size(cfg, leaf, v)
  {
    if kvs != [] {
      var s := Size(cfg, leaf, v);
      UsedExactly(cfg, v, leaf, kvs[..|kvs| - 1]);
      assert (|kvs| - 1) * s + s == |kvs| * s;
    }
  }

  lemma UpToCap(cfg: Cfg, leaf: bool, v: nat, n: nat)
    requires KindOk(cfg, leaf, v)
    ensures n <= Cap(cfg, leaf, v) ==> HEADER + SLOT * n + n * Size(cfg, leaf, v) <= cfg.pageSize
    ensures n == Cap(cfg, leaf, v) ==> cfg.pageSize - n * Size(cfg, leaf, v) - (HEADER + SLOT * n) < Size(cfg, leaf, v)
  {
    var s, c := Size(cfg, leaf, v), Cap(cfg, leaf, v);
    var space := cfg.pageSize - HEADER;
    hide *;
    assert space == c * (s + SLOT) + space % (s + SLOT);
    Spread(c, s);
    Spread(n, s);
    if n <= c {
      TimesMonotone(n, c, s + SLOT);
    }
  }

  lemma Spread(n: nat, s: nat)
    ensures n * (s + SLOT) == n * s + SLOT * n
  {
  }

  /** On such a page the room test is right: it accepts a cell exactly while there is room for cell and slot. */
  lemma RoomRight(cfg: Cfg, v: nat, leaf: bool, kvs: seq<KV>, content: nat, least: nat)
    requires KindOk(cfg, leaf, v) && PageFixed(cfg, v, leaf, kvs, content, least)
    ensures RoomFor(cfg, leaf, content, |kvs|, Len(cfg.acc, leaf, v))
         == if |kvs| < Cap(cfg, leaf, v) then Enough else Full
    ensures |kvs| < Cap(cfg, leaf, v) ==>
      content - Size(cfg, leaf, v) == cfg.pageSize - (|kvs| + 1) * Size(cfg, leaf, v)
  {
    hide Cap;
    var n, s := |kvs|, Size(cfg, leaf, v);
    assert (n + 1) * s == n * s + s;
    if n < Cap(cfg, leaf, v) {
      UpToCap(cfg, leaf, v, n + 1);
    } else {
      UpToCap(cfg, leaf, v, n);
    }
  }

  lemma HalfPage(cfg: Cfg, v: nat, leaf: bool, kvs: seq<KV>, least: nat)
    requires KindOk(cfg, leaf, v) && least <= |kvs| <= Cap(cfg, leaf, v)
    requires forall i | 0 <= i < |kvs| :: |kvs[i].val| == Len(cfg.acc, leaf, v)
    ensures Fits(cfg, leaf, kvs)
    ensures PageFixed(cfg, v, leaf, kvs, cfg.pageSize - Used(cfg, leaf, kvs), least)
  {
    hide Used, Cap;
    UsedExactly(cfg, v, leaf, kvs);
    UpToCap(cfg, leaf, v, |kvs|);
  }

  // ---------------------------------------------------------------- one insert

  lemma LeafPutFixed(cfg: Cfg, v: nat, root: bool, t: Tree, i: nat, kv: KV, pages: nat)
    requires Geometry(cfg, v) && t.Leaf? && Fixed(cfg, v, root, t) && i <= |t.kvs| && |kv.val| == v
    ensures OutFixed(cfg, v, root, LeafPut(cfg, t, i, kv, pages).out)
    ensures RoomFor(cfg, true, t.content, |t.kvs|, |kv.val|).Full? ==> t.kvs != []
  {
    hide Used, Fits, Cap, RoomFor, KidsFixed;
    var all := InsertAt(t.kvs, i, kv);
    var mid := |all| / 2;
    RoomRight(cfg, v, true, t.kvs, t.content, if root then 0 else Least(cfg, true, v));
    if |t.kvs| == Cap(cfg, true, v) {
      HalfPage(cfg, v, true, all[..mid], Least(cfg, true, v));
      HalfPage(cfg, v, true, if cfg.acc.CopyUp() then all[mid..] else all[mid + 1..], Least(cfg, true, v));
    }
  }

  lemma SpliceFixed(cfg: Cfg, v: nat, kids: seq<Tree>, i: nat, l: Tree, r: Tree)
    requires i < |kids| && KidsFixed(cfg, v, kids) && Fixed(cfg, v, false, l) && Fixed(cfg, v, false, r)
    ensures KidsFixed(cfg, v, InsertAt(kids[i := l], i + 1, r))
  {
    hide Fixed;
  }

  lemma CutFixed(cfg: Cfg, v: nat, kids: seq<Tree>, i: nat)
    requires i <= |kids| && KidsFixed(cfg, v, kids)
    ensures KidsFixed(cfg, v, kids[..i]) && KidsFixed(cfg, v, kids[i..])
  {
    hide Fixed;
  }

  lemma InnerFixed(cfg: Cfg, v: nat, root: bool, t: Tree)
    requires t.Inner? && cfg.pageSize >= HEADER && KidsFixed(cfg, v, t.kids)
    requires PageFixed(cfg, v, false, t.kvs, t.content, if root then 1 else Least(cfg, false, v))
    ensures Fixed(cfg, v, root, t)
  {
  }

  lemma SplitInnerFixed(cfg: Cfg, v: nat, id: nat, all: seq<KV>, kids: seq<Tree>, pages: nat)
    requires KindOk(cfg, false, v) && |all| == Cap(cfg, false, v) + 1
    requires forall i | 0 <= i < |all| :: |all[i].val| == Len(cfg.acc, false, v)
    requires |kids| == |all| + 1 && KidsFixed(cfg, v, kids)
    ensures OutFixed(cfg, v, false, SplitInner(cfg, id, all, kids, pages).out)
  {
    hide Used, Fits, Cap, KidsFixed, Fixed, PageFixed;
    var mid := |all| / 2;
    HalfPage(cfg, v, false, all[..mid], Least(cfg, false, v));
    HalfPage(cfg, v, false, all[mid + 1..], Least(cfg, false, v));
    CutFixed(cfg, v, kids, mid + 1);
    var out := SplitInner(cfg, id, all, kids, pages).out;
    InnerFixed(cfg, v, false, out.l);
    InnerFixed(cfg, v, false, out.r);
  }

  lemma InnerPutFixed(cfg: Cfg, v: nat, root: bool, t: Tree, i: nat, l: Tree, m: KV, r: Tree, pages: nat)
    requires Geometry(cfg, v) && t.Inner? && |t.kids| == |t.kvs| + 1 && Fixed(cfg, v, root, t) && i <= |t.kvs|
    requires Fixed(cfg, v, false, l) && Fixed(cfg, v, false, r) && |m.val| == Len(cfg.acc, false, v)
    ensures OutFixed(cfg, v, root, InnerPut(cfg, t, i, l, m, r, pages).out)
  {
    var least := if root then 1 else Least(cfg, false, v);
    assert PageFixed(cfg, v, false, t.kvs, t.content, least) && KidsFixed(cfg, v, t.kids);
    hide Used, Fits, Cap, Least, RoomFor, KidsFixed, Fixed;
    SpliceFixed(cfg, v, t.kids, i, l, r);
    var all, kids := InsertAt(t.kvs, i, m), InsertAt(t.kids[i := l], i + 1, r);
    RoomRight(cfg, v, false, t.kvs, t.content, least);
    if |t.kvs| == Cap(cfg, false, v) {
      SplitInnerFixed(cfg, v, t.id, all, kids, pages);
    } else {
      InnerFixed(cfg, v, root, InnerPut(cfg, t, i, l, m, r, pages).out.t);
    }
  }

  /** In strict search order the code's second search of a node, for the promoted key, finds the child again. */
  lemma SearchAgain(acc: Acc, t: Tree, i: nat, l: Tree, m: KV, r: Tree, lo: int, hi: int)
    requires t.Inner? && Ordered(acc, true, t, lo, hi) && i <= |t.kvs|
    requires SplitOrdered(acc, true, l, m, r, Lo(acc, t.kvs, i, lo), Hi(t.kvs, i, hi))
    ensures Position(t.kvs, m.key, acc.Upper(false)) == i
  {
    hide KidsOrdered, Position;
    assert [m][0] == m;
    assert i > 0 ==> t.kvs[i - 1].key < m.key;
    forall j | 0 <= j < i
      ensures t.kvs[j].key <= t.kvs[i - 1].key
    {
    }
    PositionUnique(t.kvs, m.key, acc.Upper(false), i);
  }

  lemma NoLoneSplitFixed(cfg: Cfg, v: nat, root: bool, t: Tree, key: int, val: Value)
    requires Geometry(cfg, v) && Fixed(cfg, v, root, t) && |val| == v
    ensures NoLoneSplit(cfg, t, key, val)
    decreases t
  {
    hide Position, Cap, RoomFor;
    var i := Position(t.kvs, key, cfg.acc.Upper(t.Leaf?));
    if t.Leaf? {
      LeafPutFixed(cfg, v, root, t, 0, KV(key, val), 0);
    } else if |t.kids| == |t.kvs| + 1 {
      NoLoneSplitFixed(cfg, v, false, t.kids[i], key, val);
    }
  }

  lemma OverwriteFixed(cfg: Cfg, v: nat, root: bool, t: Tree, i: nat, val: Value)
    requires Fixed(cfg, v, root, t) && i < |t.kvs| && |val| == Len(cfg.acc, t.Leaf?, v)
    ensures Fixed(cfg, v, root, t.(kvs := t.kvs[i := KV(t.kvs[i].key, val)]))
  {
    hide KidsFixed;
  }

  /** With values of one length every insert completes, and keeps every page at least half full. */
  lemma {:induction false} InsertFixed(cfg: Cfg, v: nat, root: bool, t: Tree, key: int, val: Value, pages: nat, lo: int,
      hi: int)
    requires Geometry(cfg, v) && Fixed(cfg, v, root, t) && |val| == v
    requires Ordered(cfg.acc, true, t, lo, hi) && lo <= key < hi
    ensures OutFixed(cfg, v, root, InsRec(cfg, t, key, val, pages).out)
    decreases t
  {
    hide LeafPut, InnerPut, Cap, RoomFor, KidsOrdered, NodeOrdered, Least;
    var i := Position(t.kvs, key, cfg.acc.Upper(t.Leaf?));
    var found := i < |t.kvs| && t.kvs[i].key == key;
    if found {
      OverwriteFixed(cfg, v, root, t, i, val);
    } else if t.Leaf? {
      LeafPutFixed(cfg, v, root, t, i, KV(key, val), pages);
    } else {
      DescentRange(cfg.acc, true, t, key, lo, hi);
      KidOrdered(cfg.acc, true, t.kvs, t.kids, i, lo, hi);
      var klo, khi := Lo(cfg.acc, t.kvs, i, lo), Hi(t.kvs, i, hi);
      InsertFixed(cfg, v, false, t.kids[i], key, val, pages, klo, khi);
      NoLoneSplitFixed(cfg, v, false, t.kids[i], key, val);
      InsertOrdered(cfg, true, t.kids[i], key, val, pages, klo, khi);
      var sub := InsRec(cfg, t.kids[i], key, val, pages);
      if sub.out.Split? {
        SearchAgain(cfg.acc, t, i, sub.out.l, sub.out.m, sub.out.r, lo, hi);
        InnerPutFixed(cfg, v, root, t, i, sub.out.l, sub.out.m, sub.out.r, sub.pages);
      } else {
        assert KidsFixed(cfg, v, t.kids[i := sub.out.t]);
      }
    }
  }

  // ---------------------------------------------------------------- height

  function Pow(b: nat, e: nat): (r: nat)
    ensures b >= 1 ==> r >= 1
  {
    if e == 0 then 1 else b * Pow(b, e - 1)
  }

  /** A tree of height h below the root holds at least this many records. */
  function LeastRecords(cfg: Cfg, v: nat, h: nat): nat
    requires cfg.pageSize >= HEADER && h >= 1
  {
    if cfg.acc.CopyUp() then Pow(Least(cfg, false, v) + 1, h - 1) * Least(cfg, true, v)
    else Pow(Least(cfg, false, v) + 1, h) - 1
  }

  lemma {:induction false} FlatCount(acc: Acc, kvs: seq<KV>, kids: seq<Tree>, each: nat)
    requires |kids| == |kvs| + 1
    requires forall j | 0 <= j < |kids| :: |Entries(acc, kids[j])| >= each
    ensures |Flat(acc, kvs, kids)| >= |kids| * each + if acc.CopyUp() then 0 else |kvs|
    decreases kids
  {
    hide Entries;
    assert |kids| * each == (|kids| - 1) * each + each;
    if kvs != [] {
      FlatCount(acc, kvs[1..], kids[1..], each);
    }
  }

  lemma TimesMonotone(a: nat, b: nat, x: nat)
    requires a <= b
    ensures a * x <= b * x
  {
  }

  lemma LeafRecords(cfg: Cfg, v: nat, t: Tree)
    requires t.Leaf? && Fixed(cfg, v, false, t)
    ensures |t.kvs| >= LeastRecords(cfg, v, 1)
  {
    var b := Least(cfg, false, v) + 1;
    assert Pow(b, 1) == b * Pow(b, 0) == b;
    if !cfg.acc.CopyUp() {
      assert Cap(cfg, true, v) == Cap(cfg, false, v);
    }
  }

  lemma {:induction false} SubtreeRecords(cfg: Cfg, v: nat, t: Tree, h: nat)
    requires Geometry(cfg, v) && Fixed(cfg, v, false, t) && Uniform(t, h) && h >= 1
    ensures |Entries(cfg.acc, t)| >= LeastRecords(cfg, v, h)
    decreases t
  {
    if t.Leaf? {
      LeafRecords(cfg, v, t);
    } else {
      hide Cap, Flat;
      KidsRecords(cfg, v, t, h);
      LevelRecords(cfg, v, h, Least(cfg, false, v) + 1);
      TimesMonotone(Least(cfg, false, v) + 1, |t.kids|, LeastRecords(cfg, v, h - 1));
    }
  }

  lemma KidsRecords(cfg: Cfg, v: nat, t: Tree, h: nat)
    requires Geometry(cfg, v) && t.Inner? && KidsFixed(cfg, v, t.kids) && Uniform(t, h)
    ensures h > 1
    ensures |Entries(cfg.acc, t)| >= |t.kids| * LeastRecords(cfg, v, h - 1) + if cfg.acc.CopyUp() then 0 else |t.kvs|
    decreases t, 0
  {
    forall j | 0 <= j < |t.kids|
      ensures |Entries(cfg.acc, t.kids[j])| >= LeastRecords(cfg, v, h - 1)
    {
      SubtreeRecords(cfg, v, t.kids[j], h - 1);
    }
    FlatCount(cfg.acc, t.kvs, t.kids, LeastRecords(cfg, v, h - 1));
  }

  /** k subtrees of height h - 1, with k - 1 records between them in a B-tree. */
  lemma LevelRecords(cfg: Cfg, v: nat, h: nat, k: nat)
    requires cfg.pageSize >= HEADER && h >= 2 && k >= 1
    ensures cfg.acc.CopyUp() ==>
      k * LeastRecords(cfg, v, h - 1) == k * Pow(Least(cfg, false, v) + 1, h - 2) * Least(cfg, true, v)
    ensures !cfg.acc.CopyUp() ==>
      k * LeastRecords(cfg, v, h - 1) + (k - 1) == k * Pow(Least(cfg, false, v) + 1, h - 1) - 1
  {
    hide Least;
    var p := Pow(Least(cfg, false, v) + 1, h - 1);
    assert k * (p - 1) == k * p - k;
    var q, s := Pow(Least(cfg, false, v) + 1, h - 2), Least(cfg, true, v);
    assert k * (q * s) == k * q * s;
  }

  /** A tree of height h >= 2 holds at least this many records: its height is logarithmic in their number. */
  lemma HeightBound(cfg: Cfg, v: nat, t: Tree, h: nat)
    requires Geometry(cfg, v) && Fixed(cfg, v, true, t) && Uniform(t, h) && h >= 2
    ensures cfg.acc.CopyUp() ==>
      |Entries(cfg.acc, t)| >= 2 * Pow(Cap(cfg, false, v) / 2 + 1, h - 2) * ((Cap(cfg, true, v) + 1) / 2)
    ensures !cfg.acc.CopyUp() ==>
      |Entries(cfg.acc, t)| >= 2 * Pow(Cap(cfg, false, v) / 2 + 1, h - 1) - 1
  {
    hide Cap, Flat;
    KidsRecords(cfg, v, t, h);
    LevelRecords(cfg, v, h, 2);
    TimesMonotone(2, |t.kids|, LeastRecords(cfg, v, h - 1));
  }

  // ---------------------------------------------------------------- pages

  /** Below the root every node earns its page: a subtree has fewer than two pages for each record. */
  lemma {:induction false} SubtreePages(cfg: Cfg, v: nat, t: Tree, h: nat)
    requires Geometry(cfg, v) && Fixed(cfg, v, false, t) && Uniform(t, h)
    ensures |Pages(t)| + 1 <= 2 * |Entries(cfg.acc, t)|
    decreases t
  {
    hide Cap, Used;
    if t.Inner? {
      KidsPages(cfg, v, t.kvs, t.kids, h - 1);
    }
  }

  lemma {:induction false} KidsPages(cfg: Cfg, v: nat, kvs: seq<KV>, kids: seq<Tree>, h: nat)
    requires Geometry(cfg, v) && |kids| == |kvs| + 1 && KidsFixed(cfg, v, kids)
    requires forall j | 0 <= j < |kids| :: Uniform(kids[j], h)
    ensures |PagesOf(kids)| + |kids| <= 2 * |Flat(cfg.acc, kvs, kids)|
    decreases kids
  {
    hide Fixed, Uniform, Pages, Entries, Geometry;
    SubtreePages(cfg, v, kids[0], h);
    if kvs == [] {
      ListOne(kids[0]);
      assert kids == [kids[0]];
    } else {
      KidsPages(cfg, v, kvs[1..], kids[1..], h);
    }
  }

  /** A tree has at most two pages for each record, and one when it is empty. */
  lemma PageBound(cfg: Cfg, v: nat, t: Tree, h: nat)
    requires Geometry(cfg, v) && Fixed(cfg, v, true, t) && Uniform(t, h)
    ensures |Pages(t)| <= 2 * |Entries(cfg.acc, t)| + 1
  {
    hide Cap, Flat;
    if t.Inner? {
      KidsPages(cfg, v, t.kvs, t.kids, h - 1);
    }
  }

  // ---------------------------------------------------------------- the geometry condition is exact

  /** The room test on a page with n cells of the kind's size. */
  ghost predicate TightAt(cfg: Cfg, leaf: bool, v: nat, n: nat) {
    var content := cfg.pageSize - n * Size(cfg, leaf, v);
    content >= 0 && RoomFor(cfg, leaf, content, n, Len(cfg.acc, leaf, v)).Tight?
  }

  /** What n of c cells leave free, when c cells and their slots leave r bytes. */
  lemma FreeBytes(space: nat, s: nat, c: nat, n: nat, r: nat)
    requires space == c * (s + SLOT) + r && n <= c
    ensures space - n * s - SLOT * n == (c - n) * (s + SLOT) + r
    ensures n < c ==> (c - n) * (s + SLOT) >= s + SLOT
    ensures n * s <= space
  {
    Spread(n, s);
    TimesAtLeast(c - n, s + SLOT);
    Distribute(c, n, s + SLOT);
    TimesMonotone(n, c, s + SLOT);
  }

  lemma Distribute(c: nat, n: nat, d: nat)
    requires n <= c
    ensures (c - n) * d == c * d - n * d
  {
  }

  lemma TightHere(cfg: Cfg, leaf: bool, v: nat, n: nat)
    requires cfg.pageSize >= HEADER && n <= Cap(cfg, leaf, v)
    ensures TightAt(cfg, leaf, v, n) <==>
      n == Cap(cfg, leaf, v) && (cfg.pageSize - HEADER) % (Size(cfg, leaf, v) + SLOT) >= Size(cfg, leaf, v)
  {
    var s, c, space := Size(cfg, leaf, v), Cap(cfg, leaf, v), cfg.pageSize - HEADER;
    var r := space % (s + SLOT);
    assert space == c * (s + SLOT) + r;
    hide Size, Cap;
    FreeBytes(space, s, c, n, r);
    assert n == c ==> (c - n) * (s + SLOT) == 0;
    assert s == cfg.acc.CellSize(leaf, Len(cfg.acc, leaf, v)) by {
      SizeIs(cfg, leaf, v);
    }
  }

  lemma SizeIs(cfg: Cfg, leaf: bool, v: nat)
    ensures Size(cfg, leaf, v) == cfg.acc.CellSize(leaf, Len(cfg.acc, leaf, v))
  {
  }

  /**
   On pages filled with cells of one size the room test accepts a cell without room for its slot exactly when the space
   left by a full page is at least a cell: a property of page size and value length alone.
   */
  lemma TightExactly(cfg: Cfg, leaf: bool, v: nat)
    requires cfg.pageSize >= HEADER
    ensures (exists n | 0 <= n <= Cap(cfg, leaf, v) :: TightAt(cfg, leaf, v, n))
       <==> (cfg.pageSize - HEADER) % (Size(cfg, leaf, v) + SLOT) >= Size(cfg, leaf, v)
  {
    hide TightAt, Size, Cap;
    forall n | 0 <= n <= Cap(cfg, leaf, v)
      ensures TightAt(cfg, leaf, v, n) <==>
        n == Cap(cfg, leaf, v) && (cfg.pageSize - HEADER) % (Size(cfg, leaf, v) + SLOT) >= Size(cfg, leaf, v)
    {
      TightHere(cfg, leaf, v, n);
    }
    TightHere(cfg, leaf, v, Cap(cfg, leaf, v));
  }
}
