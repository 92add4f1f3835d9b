/**
 The tree that a set of pages stands for, and the effect of one insert on it.

 A Tree value records, page by page, what the engine reads: page id, cells, free pointer and leaf link. The functions
 below give the effect of Insert, insertRec, doInsert and splitNode on such a value; the Shared module proves that the
 page-level code has exactly that effect.
 */
module TreeModel {
  import opened Bytes
  import opened Records

  const HEADER := 13
  const SLOT := 2
  const INVALID_PAGE := 0xFFFF_FFFF
  const MIN_KEY := -0x8000_0000_0000_0000
  const MAX_KEY := 0x7FFF_FFFF_FFFF_FFFF

  /** The two node accessors: move-up leaf splits (B-tree) or copy-up leaf splits (B+ tree). */
  datatype Acc = BTreeAcc | BPTreeAcc {
    predicate CopyUp() { BPTreeAcc? }

    function CellSize(leaf: bool, len: nat): nat {
      if BTreeAcc? then 14 + len else if leaf then 10 + len else 12
    }

    /** Whether the search of a node passes an equal key. */
    predicate Upper(leaf: bool) { CopyUp() && !leaf }
  }

  datatype Cfg = Cfg(acc: Acc, pageSize: nat)

  /** content is the page's free pointer: cells lie at or above it. */
  datatype Tree =
    | Leaf(id: nat, kvs: seq<KV>, content: nat, next: nat)
    | Inner(id: nat, kvs: seq<KV>, kids: seq<Tree>, content: nat)

  // ---------------------------------------------------------------- space on a page

  function Used(cfg: Cfg, leaf: bool, kvs: seq<KV>): nat {
    if kvs == [] then 0
    else Used(cfg, leaf, kvs[..|kvs| - 1]) + cfg.acc.CellSize(leaf, |kvs[|kvs| - 1].val|)
  }

  /** The cells and their slots fit on an empty page. */
  predicate Fits(cfg: Cfg, leaf: bool, kvs: seq<KV>) {
    HEADER + SLOT * |kvs| + Used(cfg, leaf, kvs) <= cfg.pageSize
  }

  /** What is left above the slots of n cells. */
  function FreeSpace(content: nat, n: nat): int {
    content - (HEADER + SLOT * n)
  }

  /**
   The room test of doInsert compares the free space with the cell alone. Tight is the case where the cell fits but the
   cell and its two-byte slot do not.
   */
  datatype Room = Full | Tight | Enough

  function RoomFor(cfg: Cfg, leaf: bool, content: nat, n: nat, len: nat): Room {
    var size := cfg.acc.CellSize(leaf, len);
    if FreeSpace(content, n) < size then Full
    else if FreeSpace(content, n) < size + SLOT then Tight
    else Enough
  }

  // ---------------------------------------------------------------- one insert

  /** Broken: the code takes a step that it has not checked. Cases lists these steps; some of them turn out right. */
  datatype Out = Done(t: Tree) | Split(l: Tree, m: KV, r: Tree) | Broken

  datatype Ins = Ins(out: Out, pages: nat)

  function InsertAt<T>(s: seq<T>, i: nat, x: T): (r: seq<T>)
    requires i <= |s|
    ensures |r| == |s| + 1
    ensures forall j | 0 <= j < |r| :: r[j] == if j < i then s[j] else if j == i then x else s[j - 1]
  {
    s[..i] + [x] + s[i..]
  }

  function RemoveAt<T>(s: seq<T>, i: nat): (r: seq<T>)
    requires i < |s|
    ensures |r| == |s| - 1
    ensures forall j | 0 <= j < |r| :: r[j] == if j < i then s[j] else s[j + 1]
  {
    s[..i] + s[i + 1..]
  }

  function SplitLeaf(cfg: Cfg, t: Tree, all: seq<KV>, pages: nat): Ins
    requires t.Leaf? && all != []
  {
    var mid := |all| / 2;
    var left := all[..mid];
    var right := if cfg.acc.CopyUp() then all[mid..] else all[mid + 1..];
    if !Fits(cfg, true, left) || !Fits(cfg, true, right) then Ins(Broken, pages)
    else
      Ins(Split(Leaf(t.id, left, cfg.pageSize - Used(cfg, true, left),
        if cfg.acc.CopyUp() then pages else INVALID_PAGE),
                if cfg.acc.CopyUp() then KV(all[mid].key, []) else all[mid],
                Leaf(pages, right, cfg.pageSize - Used(cfg, true, right),
                    if cfg.acc.CopyUp() then t.next else INVALID_PAGE)),
          pages + 1)
  }

  /** doInsert on a leaf. */
  function LeafPut(cfg: Cfg, t: Tree, idx: nat, kv: KV, pages: nat): Ins
    requires t.Leaf? && idx <= |t.kvs|
  {
    var all := InsertAt(t.kvs, idx, kv);
    match RoomFor(cfg, true, t.content, |t.kvs|, |kv.val|)
    case Enough => Ins(Done(Leaf(t.id, all, t.content - cfg.acc.CellSize(true, |kv.val|), t.next)), pages)
    case Tight => Ins(Broken, pages)
    case Full => SplitLeaf(cfg, t, all, pages)
  }

  function SplitInner(cfg: Cfg, id: nat, all: seq<KV>, kids: seq<Tree>, pages: nat): Ins
    requires all != [] && |kids| == |all| + 1
  {
    var mid := |all| / 2;
    var left := all[..mid];
    var right := all[mid + 1..];
    if !Fits(cfg, false, left) || !Fits(cfg, false, right) then Ins(Broken, pages)
    else
      Ins(Split(Inner(id, left, kids[..mid + 1], cfg.pageSize - Used(cfg, false, left)),
                all[mid],
                Inner(pages, right, kids[mid + 1..], cfg.pageSize - Used(cfg, false, right))),
          pages + 1)
  }

  /** doInsert on an internal node whose child idx has split into l and r around m. */
  function InnerPut(cfg: Cfg, t: Tree, idx: nat, l: Tree, m: KV, r: Tree, pages: nat): Ins
    requires t.Inner? && |t.kids| == |t.kvs| + 1 && idx <= |t.kvs|
  {
    var all := InsertAt(t.kvs, idx, m);
    var kids := InsertAt(t.kids[idx := l], idx + 1, r);
    match RoomFor(cfg, false, t.content, |t.kvs|, |m.val|)
    case Enough => Ins(Done(Inner(t.id, all, kids, t.content - cfg.acc.CellSize(false, |m.val|))), pages)
    case Tight => Ins(Broken, pages)
    case Full => SplitInner(cfg, t.id, all, kids, pages)
  }

  /** insertRec. New pages get the ids pages, pages + 1, ... */
  function InsRec(cfg: Cfg, t: Tree, key: int, val: Value, pages: nat): Ins
    decreases t
  {
    var idx := Position(t.kvs, key, cfg.acc.Upper(t.Leaf?));
    var found := idx < |t.kvs| && t.kvs[idx].key == key;
    if found && |val| <= |t.kvs[idx].val| then Ins(Done(t.(kvs := t.kvs[idx := KV(key, val)])), pages)
    else if t.Leaf? then
      LeafPut(cfg, if found then Leaf(t.id, RemoveAt(t.kvs, idx), t.content, t.next) else t, idx, KV(key, val), pages)
    else if found || |t.kids| != |t.kvs| + 1 then Ins(Broken, pages)
    else
      var sub := InsRec(cfg, t.kids[idx], key, val, pages);
      match sub.out
      case Done(c) => Ins(Done(t.(kids := t.kids[idx := c])), sub.pages)
      case Split(l, m, r) =>
        // The code searches this node again, for the promoted key.
        if Position(t.kvs, m.key, cfg.acc.Upper(false)) != idx then Ins(Broken, sub.pages)
        else InnerPut(cfg, t, idx, l, m, r, sub.pages)
      case Broken => sub
  }

  /** A database: the tree under the root page, and the pager's page count. */
  datatype Db = Db(t: Tree, pages: nat) | Failed

  /** A new database: page 0 is the pager's header, page 1 the tree's header, page 2 an empty root leaf. */
  function Empty(cfg: Cfg): Db {
    Db(Leaf(2, [], cfg.pageSize, INVALID_PAGE), 3)
  }

  /** Insert: insertRec at the root, and a new root page when the root splits. */
  function Insert(cfg: Cfg, db: Db, key: int, val: Value): Db {
    if db.Failed? then Failed
    else
      var ins := InsRec(cfg, db.t, key, val, db.pages);
      match ins.out
      case Broken => Failed
      case Done(t) => Db(t, ins.pages)
      case Split(l, m, r) =>
        if !Fits(cfg, false, [m]) then Failed
        else Db(Inner(ins.pages, [m], [l, r], cfg.pageSize - Used(cfg, false, [m])), ins.pages + 1)
  }

  /** A run of inserts. */
  function Run(cfg: Cfg, db: Db, ops: seq<KV>): Db {
    if ops == [] then db
    else
      var before := Run(cfg, db, ops[..|ops| - 1]);
      Insert(cfg, before, ops[|ops| - 1].key, ops[|ops| - 1].val)
  }

  // ---------------------------------------------------------------- what a tree holds

  /** An internal B-tree cell is a record; an internal B+ tree cell is only a separator. */
  function Sep(acc: Acc, kv: KV): seq<KV> {
    if acc.CopyUp() then [] else [kv]
  }

  /** The records of the tree in key order. */
  function Entries(acc: Acc, t: Tree): seq<KV>
    decreases t
  {
    match t
    case Leaf(_, kvs, _, _) => kvs
    case Inner(_, kvs, kids, _) => Flat(acc, kvs, kids)
  }

  function Flat(acc: Acc, kvs: seq<KV>, kids: seq<Tree>): seq<KV>
    decreases kids
  {
    if kids == [] then []
    else if kvs == [] then Entries(acc, kids[0])
    else Entries(acc, kids[0]) + (Sep(acc, kvs[0]) + Flat(acc, kvs[1..], kids[1..]))
  }

  function MapOf(acc: Acc, db: Db): map<int, Value> {
    if db.Failed? then map[] else ToMap(Entries(acc, db.t))
  }
}
