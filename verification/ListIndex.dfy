/** The in-memory index that the tests compare the trees with, and its agreement with them. */
module ListIndex {
  import opened Bytes
  import opened Records
  import opened TreeModel
  import opened Database

  // ---------------------------------------------------------------- the list as a value

  /** Insert: replace the value of the first record with the key, or append a new record. */
  function ListPut(s: seq<KV>, key: int, val: Value): seq<KV> {
    if s == [] then [KV(key, val)]
    else if s[0].key == key then [KV(key, val)] + s[1..]
    else [s[0]] + ListPut(s[1..], key, val)
  }

  /** The list after a run of inserts. */
  function ListRun(ops: seq<KV>): seq<KV> {
    if ops == [] then [] else ListPut(ListRun(ops[..|ops| - 1]), ops[|ops| - 1].key, ops[|ops| - 1].val)
  }

  /** No two records have the same key. */
  predicate Distinct(s: seq<KV>) {
    s == [] || (s[0].key !in ToMap(s[1..]) && Distinct(s[1..]))
  }

  /** Insert refines map update on the list, and keeps its keys distinct. */
  lemma {:induction false} ListPutIsUpdate(s: seq<KV>, key: int, val: Value)
    requires Distinct(s)
    ensures Distinct(ListPut(s, key, val)) && ToMap(ListPut(s, key, val)) == ToMap(s)[key := val]
  {
    var p := ListPut(s, key, val);
    if s == [] {
      assert p[1..] == [];
    } else if s[0].key == key {
      assert p[1..] == s[1..];
    } else {
      ListPutIsUpdate(s[1..], key, val);
      assert p[1..] == ListPut(s[1..], key, val);
    }
  }

  lemma {:induction false} ListRunIsMap(ops: seq<KV>)
    ensures Distinct(ListRun(ops)) && ToMap(ListRun(ops)) == Updates(ops)
  {
    if ops != [] {
      var n := |ops| - 1;
      ListRunIsMap(ops[..n]);
      ListPutIsUpdate(ListRun(ops[..n]), ops[n].key, ops[n].val);
    }
  }

  // ---------------------------------------------------------------- agreement

  lemma {:induction false} CountOfMap(s: seq<KV>, kv: KV)
    requires Distinct(s)
    ensures multiset(s)[kv] == if kv.key in ToMap(s) && ToMap(s)[kv.key] == kv.val then 1 else 0
  {
    if s != [] {
      CountOfMap(s[1..], kv);
      assert s == [s[0]] + s[1..];
    }
  }

  lemma {:induction false} SortedDistinct(s: seq<KV>)
    requires Sorted(s)
    ensures Distinct(s)
  {
    if s != [] {
      SortedDistinct(s[1..]);
      ToMapKeys(s[1..]);
      forall i | 0 <= i < |s[1..]|
        ensures s[1..][i].key != s[0].key
      {
        assert s[1..][i] == s[i + 1];
      }
    }
  }

  /** Two lists of distinct keys that stand for the same map are permutations of each other. */
  lemma SameMap(a: seq<KV>, b: seq<KV>)
    requires Distinct(a) && Distinct(b) && ToMap(a) == ToMap(b)
    ensures multiset(a) == multiset(b)
  {
    forall kv: KV
      ensures multiset(a)[kv] == multiset(b)[kv]
    {
      CountOfMap(a, kv);
      CountOfMap(b, kv);
    }
  }

  lemma {:induction false} CountBetween(s: seq<KV>, start: int, end: int, kv: KV)
    ensures multiset(Between(s, start, end))[kv] == if start <= kv.key <= end then multiset(s)[kv] else 0
  {
    if s != [] {
      CountBetween(s[1..], start, end, kv);
      assert s == [s[0]] + s[1..];
    }
  }

  /** A range of a permutation is a permutation of the range. */
  lemma SameRange(a: seq<KV>, b: seq<KV>, start: int, end: int)
    requires multiset(a) == multiset(b)
    ensures multiset(Between(a, start, end)) == multiset(Between(b, start, end))
  {
    forall kv: KV
      ensures multiset(Between(a, start, end))[kv] == multiset(Between(b, start, end))[kv]
    {
      CountBetween(a, start, end, kv);
      CountBetween(b, start, end, kv);
    }
  }

  lemma {:induction false} BetweenSorted(s: seq<KV>, start: int, end: int)
    requires Sorted(s)
    ensures Sorted(Between(s, start, end))
    ensures s != [] ==> forall i | 0 <= i < |Between(s, start, end)| :: s[0].key <= Between(s, start, end)[i].key
  {
    if s != [] {
      BetweenSorted(s[1..], start, end);
      assert |s| > 1 ==> s[0].key < s[1].key;
    }
  }

  lemma {:induction false} PutsSorted(ops: seq<KV>)
    requires forall i | 0 <= i < |ops| :: IsKey(ops[i].key)
    ensures Sorted(Puts(ops)) && Within(Puts(ops), MIN_KEY, MAX_KEY + 1) && ToMap(Puts(ops)) == Updates(ops)
  {
    if ops != [] {
      hide Put, ToMap;
      var n := |ops| - 1;
      PutsSorted(ops[..n]);
      PutSorted(Puts(ops[..n]), ops[n].key, ops[n].val, MIN_KEY, MAX_KEY + 1);
      PutIsUpdate(Puts(ops[..n]), ops[n].key, ops[n].val);
    }
  }

  /**
   After the same inserts a tree of either kind holds a sorted permutation of the list: every range of the tree is the
   key-sorted permutation of the list's range, and every lookup gives the same answer, absent keys included.
   */
  lemma TreeAgreesWithList(cfg: Cfg, ops: seq<KV>, start: int, end: int, key: int)
    requires (forall i | 0 <= i < |ops| :: IsKey(ops[i].key)) && Run(cfg, Empty(cfg), ops).Db?
    ensures var tree := Entries(cfg.acc, Run(cfg, Empty(cfg), ops).t);
      && multiset(tree) == multiset(ListRun(ops))
      && Sorted(Between(tree, start, end))
      && multiset(Between(tree, start, end)) == multiset(Between(ListRun(ops), start, end))
      && Lookup(tree, key) == Lookup(ListRun(ops), key)
  {
    hide ToMap, Between, Lookup, Puts, ListRun, Run, Entries, Distinct;
    RunIsPuts(cfg, ops);
    PutsSorted(ops);
    ListRunIsMap(ops);
    SortedDistinct(Puts(ops));
    SameMap(Puts(ops), ListRun(ops));
    SameRange(Puts(ops), ListRun(ops), start, end);
    BetweenSorted(Puts(ops), start, end);
    LookupIsMap(Puts(ops), key);
    LookupIsMap(ListRun(ops), key);
  }

  // ---------------------------------------------------------------- the classes

  lemma {:induction false} PutAt(s: seq<KV>, i: nat, key: int, val: Value)
    requires i < |s| && s[i].key == key && forall j | 0 <= j < i :: s[j].key != key
    ensures ListPut(s, key, val) == s[i := KV(key, val)]
  {
    if i > 0 {
      PutAt(s[1..], i - 1, key, val);
    }
  }

  lemma {:induction false} PutEnd(s: seq<KV>, key: int, val: Value)
    requires forall j | 0 <= j < |s| :: s[j].key != key
    ensures ListPut(s, key, val) == s + [KV(key, val)]
  {
    if s != [] {
      PutEnd(s[1..], key, val);
    }
  }

  lemma {:induction false} FirstLookup(s: seq<KV>, i: nat, key: int)
    requires i < |s| && s[i].key == key && forall j | 0 <= j < i :: s[j].key != key
    ensures Lookup(s, key) == Some(s[i].val)
  {
    if i > 0 {
      FirstLookup(s[1..], i - 1, key);
    }
  }

  class ListIndex {
    var data: seq<KV>

    constructor ()
      ensures data == []
    {
      data := [];
    }

    method Insert(key: int, val: Value)
      modifies this
      ensures data == ListPut(old(data), key, val)
    {
      for i := 0 to |data|
        invariant data == old(data) && forall j | 0 <= j < i :: data[j].key != key
      {
        if data[i].key == key {
          PutAt(data, i, key, val);
          data := data[i := KV(key, val)];
          return;
        }
      }
      PutEnd(data, key, val);
      data := data + [KV(key, val)];
    }

    /** None stands for the error of an absent key. */
    method Get(key: int) returns (r: Option<Value>)
      ensures r == Lookup(data, key)
    {
      for i := 0 to |data|
        invariant forall j | 0 <= j < i :: data[j].key != key
      {
        if data[i].key == key {
          FirstLookup(data, i, key);
          return Some(data[i].val);
        }
      }
      LookupAbsent(data, key);
      return None;
    }

    method Range(start: int, end: int) returns (it: ListIterator)
      ensures fresh(it) && it.Valid() && it.data == data && it.start == start && it.end == end
      ensures it.Rest() == Between(data, start, end)
    {
      it := new ListIterator(data, start, end);
    }
  }

  lemma BetweenStep(s: seq<KV>, i: nat, start: int, end: int)
    requires i < |s|
    ensures Between(s[i..], start, end)
        == (if start <= s[i].key <= end then [s[i]] else []) + Between(s[i + 1..], start, end)
    ensures i + 1 == |s| ==> Between(s[i + 1..], start, end) == []
  {
  }

  class ListIterator {
    const data: seq<KV>
    const start: int
    const end: int
    var cur: int

    ghost predicate Valid()
      reads this
    {
      cur >= -1
    }

    /** The records of the range behind the iterator's position. */
    ghost function Rest(): seq<KV>
      requires Valid()
      reads this
    {
      if cur + 1 < |data| then Between(data[cur + 1..], start, end) else []
    }

    constructor (data: seq<KV>, start: int, end: int)
      ensures Valid() && this.data == data && this.start == start && this.end == end
      ensures Rest() == Between(data, start, end)
    {
      this.data, this.start, this.end, cur := data, start, end, -1;
    }

    method Next() returns (more: bool)
      requires Valid()
      modifies this
      ensures Valid() && (more <==> old(Rest()) != [])
      ensures more ==> 0 <= cur < |data| && old(Rest()) == [data[cur]] + Rest()
      ensures !more ==> Rest() == []
    {
      hide Between;
      cur := cur + 1;
      while cur < |data|
        invariant cur >= 0 && old(Rest()) == if cur < |data| then Between(data[cur..], start, end) else []
      {
        BetweenStep(data, cur, start, end);
        if data[cur].key >= start && data[cur].key <= end {
          return true;
        }
        cur := cur + 1;
      }
      return false;
    }
  }
}
