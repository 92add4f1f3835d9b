/**
 The complete list of the cases in which the model gives no answer: an insert into a database that inserts have built
 fails exactly when one of five guards holds on its search path, and never two of them. Every other insert is a map
 update.
 */
module Cases {
  import opened Bytes
  import opened Records
  import opened TreeModel
  import opened Order
  import opened Database
  import M = Misplaced

  datatype Case =
    /** The room test accepts a cell without room for its slot (TightPage). */
    | TightRoom
    /** The key is in an internal node, with a shorter value (Lengthening). */
    | LongerInside
    /** A half of a split does not fit its page (PageCapacity, HalfPage). */
    | LargeHalf
    /** The promoted key equals the separator to the right of the child (Misplaced). */
    | RepeatedKey
    /** The promoted cell does not fit a new root page (RootPage). */
    | LargeRoot

  /** The cells that the right page of a split gets. */
  function UpperHalf(acc: Acc, leaf: bool, all: seq<KV>): seq<KV>
    requires all != []
  {
    if leaf && acc.CopyUp() then all[|all| / 2..] else all[|all| / 2 + 1..]
  }

  /** The guards of doInsert and splitNode: n cells are on the page, the new one has a value of len bytes. */
  predicate PutFails(c: Case, cfg: Cfg, leaf: bool, content: nat, n: nat, len: nat, all: seq<KV>)
    requires all != []
  {
    match c
    case TightRoom => RoomFor(cfg, leaf, content, n, len).Tight?
    case LargeHalf =>
      && RoomFor(cfg, leaf, content, n, len).Full?
      && !(Fits(cfg, leaf, all[..|all| / 2]) && Fits(cfg, leaf, UpperHalf(cfg.acc, leaf, all)))
    case _ => false
  }

  /** The case arises at this node or further down the search path. */
  predicate Arises(c: Case, cfg: Cfg, t: Tree, key: int, val: Value, pages: nat)
    decreases t
  {
    var i := Position(t.kvs, key, cfg.acc.Upper(t.Leaf?));
    var found := i < |t.kvs| && t.kvs[i].key == key;
    if found && |val| <= |t.kvs[i].val| then false
    else if t.Leaf? then
      var kvs := if found then RemoveAt(t.kvs, i) else t.kvs;
      i <= |kvs| && PutFails(c, cfg, true, t.content, |kvs|, |val|, InsertAt(kvs, i, KV(key, val)))
    else if found then c.LongerInside?
    else if |t.kids| != |t.kvs| + 1 then false
    else
      || Arises(c, cfg, t.kids[i], key, val, pages)
      || var sub := InsRec(cfg, t.kids[i], key, val, pages).out;
        sub.Split? &&
        if M.Repeats(t, i, sub.m) then c.RepeatedKey?
        else PutFails(c, cfg, false, t.content, |t.kvs|, |sub.m.val|, InsertAt(t.kvs, i, sub.m))
  }

  /** The same for a whole insert. */
  predicate Fails(c: Case, cfg: Cfg, db: Db, key: int, val: Value)
    requires db.Db?
  {
    || Arises(c, cfg, db.t, key, val, db.pages)
    || (c.LargeRoot? && var out := InsRec(cfg, db.t, key, val, db.pages).out; out.Split? && !Fits(cfg, false, [out.m]))
  }

  // ---------------------------------------------------------------- one node

  lemma PutExactly(cfg: Cfg, leaf: bool, content: nat, n: nat, len: nat, all: seq<KV>)
    requires all != []
    ensures (exists c :: PutFails(c, cfg, leaf, content, n, len, all)) <==>
      || RoomFor(cfg, leaf, content, n, len).Tight?
      || (RoomFor(cfg, leaf, content, n, len).Full?
          && !(Fits(cfg, leaf, all[..|all| / 2]) && Fits(cfg, leaf, UpperHalf(cfg.acc, leaf, all))))
    ensures forall c, c' ::
      (PutFails(c, cfg, leaf, content, n, len, all) && PutFails(c', cfg, leaf, content, n, len, all) ==> c == c')
  {
    hide Fits, RoomFor;
    assert RoomFor(cfg, leaf, content, n, len).Tight? ==> PutFails(TightRoom, cfg, leaf, content, n, len, all);
    assert PutFails(LargeHalf, cfg, leaf, content, n, len, all) ==> RoomFor(cfg, leaf, content, n, len).Full?;
  }

  lemma LeafExactly(cfg: Cfg, t: Tree, i: nat, kv: KV, pages: nat)
    requires t.Leaf? && i <= |t.kvs|
    ensures LeafPut(cfg, t, i, kv, pages).out.Broken? <==>
      exists c :: PutFails(c, cfg, true, t.content, |t.kvs|, |kv.val|, InsertAt(t.kvs, i, kv))
  {
    hide Fits, RoomFor, Used;
    PutExactly(cfg, true, t.content, |t.kvs|, |kv.val|, InsertAt(t.kvs, i, kv));
  }

  lemma InnerExactly(cfg: Cfg, t: Tree, i: nat, l: Tree, m: KV, r: Tree, pages: nat)
    requires t.Inner? && |t.kids| == |t.kvs| + 1 && i <= |t.kvs|
    ensures InnerPut(cfg, t, i, l, m, r, pages).out.Broken? <==>
      exists c :: PutFails(c, cfg, false, t.content, |t.kvs|, |m.val|, InsertAt(t.kvs, i, m))
  {
    hide Fits, RoomFor, Used;
    PutExactly(cfg, false, t.content, |t.kvs|, |m.val|, InsertAt(t.kvs, i, m));
  }

  // ---------------------------------------------------------------- one insert

  ghost predicate SomeArises(cfg: Cfg, t: Tree, key: int, val: Value, pages: nat) {
    exists c :: Arises(c, cfg, t, key, val, pages)
  }

  ghost predicate OneArises(cfg: Cfg, t: Tree, key: int, val: Value, pages: nat) {
    forall c, c' :: Arises(c, cfg, t, key, val, pages) && Arises(c', cfg, t, key, val, pages) ==> c == c'
  }

  /** insertRec has no answer exactly when a case arises on the search path, and then just one. */
  lemma {:induction false} ArisesExactly(cfg: Cfg, t: Tree, key: int, val: Value, pages: nat, lo: int, hi: int)
    requires Ordered(cfg.acc, false, t, lo, hi) && lo <= key < hi
    ensures InsRec(cfg, t, key, val, pages).out.Broken? <==> SomeArises(cfg, t, key, val, pages)
    ensures OneArises(cfg, t, key, val, pages)
    decreases t
  {
    hide KidsOrdered, LeafPut, InnerPut, PutFails;
    var i := Position(t.kvs, key, cfg.acc.Upper(t.Leaf?));
    var found := i < |t.kvs| && t.kvs[i].key == key;
    if found && |val| <= |t.kvs[i].val| {
    } else if t.Leaf? {
      var t' := if found then Leaf(t.id, RemoveAt(t.kvs, i), t.content, t.next) else t;
      LeafExactly(cfg, t', i, KV(key, val), pages);
      assert forall c :: Arises(c, cfg, t, key, val, pages) <==>
        PutFails(c, cfg, true, t.content, |t'.kvs|, |val|, InsertAt(t'.kvs, i, KV(key, val)));
      PutExactly(cfg, true, t.content, |t'.kvs|, |val|, InsertAt(t'.kvs, i, KV(key, val)));
    } else if found {
      assert Arises(LongerInside, cfg, t, key, val, pages);
    } else {
      DescentRange(cfg.acc, false, t, key, lo, hi);
      KidOrdered(cfg.acc, false, t.kvs, t.kids, i, lo, hi);
      ArisesExactly(cfg, t.kids[i], key, val, pages, Lo(cfg.acc, t.kvs, i, lo), Hi(t.kvs, i, hi));
      AtInner(cfg, t, i, key, val, pages, lo, hi);
    }
  }

  lemma AtInner(cfg: Cfg, t: Tree, i: nat, key: int, val: Value, pages: nat, lo: int, hi: int)
    requires t.Inner? && |t.kids| == |t.kvs| + 1 && Ordered(cfg.acc, false, t, lo, hi) && lo <= key < hi
    requires i == Position(t.kvs, key, cfg.acc.Upper(false)) && i <= |t.kvs| && (i < |t.kvs| ==> t.kvs[i].key != key)
    requires var kid := t.kids[i];
      && (InsRec(cfg, kid, key, val, pages).out.Broken? <==> SomeArises(cfg, kid, key, val, pages))
      && OneArises(cfg, kid, key, val, pages)
    ensures InsRec(cfg, t, key, val, pages).out.Broken? <==> SomeArises(cfg, t, key, val, pages)
    ensures OneArises(cfg, t, key, val, pages)
  {
    hide InnerPut, PutFails, KidsOrdered, Position, NodeOrdered, M.Repeats;
    var sub := InsRec(cfg, t.kids[i], key, val, pages);
    if !sub.out.Split? {
      assert forall c :: Arises(c, cfg, t, key, val, pages) <==> Arises(c, cfg, t.kids[i], key, val, pages);
    }
    if sub.out.Broken? {
      var c :| Arises(c, cfg, t.kids[i], key, val, pages);
      assert Arises(c, cfg, t, key, val, pages);
    } else if sub.out.Split? {
      var m := sub.out.m;
      SecondSearch(cfg, t, i, key, val, pages, lo, hi);
      assert forall c :: !Arises(c, cfg, t.kids[i], key, val, pages);
      assert forall c :: Arises(c, cfg, t, key, val, pages) <==>
        if M.Repeats(t, i, m) then c.RepeatedKey?
        else PutFails(c, cfg, false, t.content, |t.kvs|, |m.val|, InsertAt(t.kvs, i, m));
      InnerExactly(cfg, t, i, sub.out.l, m, sub.out.r, sub.pages);
      PutExactly(cfg, false, t.content, |t.kvs|, |m.val|, InsertAt(t.kvs, i, m));
      if M.Repeats(t, i, m) {
        assert Arises(RepeatedKey, cfg, t, key, val, pages);
      } else if InnerPut(cfg, t, i, sub.out.l, m, sub.out.r, sub.pages).out.Broken? {
        var c :| PutFails(c, cfg, false, t.content, |t.kvs|, |m.val|, InsertAt(t.kvs, i, m));
        assert Arises(c, cfg, t, key, val, pages);
      }
    }
  }

  /** The second search of a node misses the index of the descent exactly at a repeated key. */
  lemma SecondSearch(cfg: Cfg, t: Tree, i: nat, key: int, val: Value, pages: nat, lo: int, hi: int)
    requires t.Inner? && |t.kids| == |t.kvs| + 1 && Ordered(cfg.acc, false, t, lo, hi) && lo <= key < hi
    requires i == Position(t.kvs, key, cfg.acc.Upper(false)) && i <= |t.kvs| && (i < |t.kvs| ==> t.kvs[i].key != key)
    requires InsRec(cfg, t.kids[i], key, val, pages).out.Split?
    ensures var m := InsRec(cfg, t.kids[i], key, val, pages).out.m;
      && (Position(t.kvs, m.key, cfg.acc.Upper(false)) != i <==> M.Repeats(t, i, m))
      && (M.Repeats(t, i, m) ==> cfg.acc.CopyUp())
  {
    hide InsRec, KidsOrdered, SplitOrdered;
    DescentRange(cfg.acc, false, t, key, lo, hi);
    KidOrdered(cfg.acc, false, t.kvs, t.kids, i, lo, hi);
    var klo, khi := Lo(cfg.acc, t.kvs, i, lo), Hi(t.kvs, i, hi);
    InsertOrdered(cfg, false, t.kids[i], key, val, pages, klo, khi);
    var out := InsRec(cfg, t.kids[i], key, val, pages).out;
    M.MissExactly(cfg.acc, t, i, out.l, out.m, out.r, lo, hi);
  }

  /** Two of the cases belong to one of the trees each. */
  lemma {:induction false} WhichTree(c: Case, cfg: Cfg, t: Tree, key: int, val: Value, pages: nat, lo: int, hi: int)
    requires Ordered(cfg.acc, false, t, lo, hi) && lo <= key < hi && Arises(c, cfg, t, key, val, pages)
    ensures c.LongerInside? ==> cfg.acc.BTreeAcc?
    ensures c.RepeatedKey? ==> cfg.acc.BPTreeAcc?
    ensures !c.LargeRoot?
    decreases t
  {
    hide KidsOrdered, InsRec, RoomFor, Fits;
    var i := Position(t.kvs, key, cfg.acc.Upper(t.Leaf?));
    if t.Inner? && !(i < |t.kvs| && t.kvs[i].key == key) {
      DescentRange(cfg.acc, false, t, key, lo, hi);
      KidOrdered(cfg.acc, false, t.kvs, t.kids, i, lo, hi);
      if Arises(c, cfg, t.kids[i], key, val, pages) {
        WhichTree(c, cfg, t.kids[i], key, val, pages, Lo(cfg.acc, t.kvs, i, lo), Hi(t.kvs, i, hi));
      } else {
        SecondSearch(cfg, t, i, key, val, pages, lo, hi);
      }
    }
  }

  // ---------------------------------------------------------------- whole inserts and runs

  /** An insert into a reachable database fails exactly when one of the five cases arises, and never two of them do. */
  lemma InsertFailsExactly(cfg: Cfg, db: Db, key: int, val: Value)
    requires Invariant(cfg, db) && IsKey(key)
    ensures Insert(cfg, db, key, val).Failed? <==> exists c :: Fails(c, cfg, db, key, val)
    ensures forall c, c' :: Fails(c, cfg, db, key, val) && Fails(c', cfg, db, key, val) ==> c == c'
    ensures Fails(LongerInside, cfg, db, key, val) ==> cfg.acc.BTreeAcc?
    ensures Fails(RepeatedKey, cfg, db, key, val) ==> cfg.acc.BPTreeAcc?
    ensures Fails(LargeRoot, cfg, db, key, val) ==> cfg.acc.BTreeAcc? || cfg.pageSize < HEADER + SLOT + 12
  {
    hide Ordered, InsRec, Arises, Used, Fits;
    ArisesExactly(cfg, db.t, key, val, db.pages, MIN_KEY, MAX_KEY + 1);
    forall c | Arises(c, cfg, db.t, key, val, db.pages)
      ensures c.LongerInside? ==> cfg.acc.BTreeAcc?
      ensures c.RepeatedKey? ==> cfg.acc.BPTreeAcc?
      ensures !c.LargeRoot? && Fails(c, cfg, db, key, val)
    {
      WhichTree(c, cfg, db.t, key, val, db.pages, MIN_KEY, MAX_KEY + 1);
    }
    var out := InsRec(cfg, db.t, key, val, db.pages).out;
    var large := out.Split? && !Fits(cfg, false, [out.m]);
    assert forall c :: Fails(c, cfg, db, key, val) <==>
      Arises(c, cfg, db.t, key, val, db.pages) || (c.LargeRoot? && large);
    if out.Split? {
      RootCell(cfg, out.m);
      assert !Fits(cfg, false, [out.m]) ==> Fails(LargeRoot, cfg, db, key, val);
    }
  }

  lemma RootCell(cfg: Cfg, m: KV)
    ensures !Fits(cfg, false, [m]) ==> cfg.acc.BTreeAcc? || cfg.pageSize < HEADER + SLOT + 12
  {
    assert [m][..0] == [];
    assert Used(cfg, false, [m]) == Used(cfg, false, []) + cfg.acc.CellSize(false, |m.val|);
  }

  /** Insert k of the run meets one of the cases in the database that the inserts before it built. */
  ghost predicate FailsAt(cfg: Cfg, ops: seq<KV>, k: nat) {
    k < |ops| && var db := Run(cfg, Empty(cfg), ops[..k]);
      db.Db? && exists c :: Fails(c, cfg, db, ops[k].key, ops[k].val)
  }

  /** A run of inserts fails exactly when one of them meets one of the five cases. */
  lemma {:induction false} RunFailsExactly(cfg: Cfg, ops: seq<KV>)
    requires forall i | 0 <= i < |ops| :: IsKey(ops[i].key)
    ensures Run(cfg, Empty(cfg), ops).Failed? <==> exists k :: FailsAt(cfg, ops, k)
    decreases |ops|
  {
    hide InsRec, Fails, Invariant, MapOf;
    if ops != [] {
      var n := |ops| - 1;
      var before := ops[..n];
      RunFailsExactly(cfg, before);
      forall k | 0 <= k < n
        ensures FailsAt(cfg, before, k) <==> FailsAt(cfg, ops, k)
      {
        assert before[..k] == ops[..k];
      }
      var db := Run(cfg, Empty(cfg), before);
      if db.Db? {
        RunKeeps(cfg, before);
        InsertFailsExactly(cfg, db, ops[n].key, ops[n].val);
        assert Run(cfg, Empty(cfg), ops).Failed? <==> FailsAt(cfg, ops, n);
      } else {
        var k :| FailsAt(cfg, before, k);
        assert FailsAt(cfg, ops, k);
      }
    }
  }
}
