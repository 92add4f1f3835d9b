/** Key/value records, the sorted sequences that stand for a finite map, and the search over them. */
module Records {
  import opened Bytes
  import Seqs

  type Value = seq<byte>

  datatype KV = KV(key: int, val: Value)

  datatype Option<+T> = None | Some(value: T)

  ghost predicate Sorted(s: seq<KV>) {
    forall i, j | 0 <= i < j < |s| :: s[i].key < s[j].key
  }

  ghost predicate Within(s: seq<KV>, lo: int, hi: int) {
    forall i | 0 <= i < |s| :: lo <= s[i].key < hi
  }

  /** How many leading records the search passes: those below key, and also an equal one when upper. */
  function Position(s: seq<KV>, key: int, upper: bool): (i: nat)
    ensures i <= |s|
    ensures forall j | 0 <= j < i :: s[j].key < key || (upper && s[j].key == key)
    ensures i < |s| ==> key < s[i].key || (!upper && s[i].key == key)
  {
    if s == [] || key < s[0].key || (!upper && s[0].key == key) then 0
    else 1 + Position(s[1..], key, upper)
  }

  lemma {:induction false} PositionUnique(s: seq<KV>, key: int, upper: bool, i: nat)
    requires i <= |s|
    requires forall j | 0 <= j < i :: s[j].key < key || (upper && s[j].key == key)
    requires i < |s| ==> key < s[i].key || (!upper && s[i].key == key)
    ensures i == Position(s, key, upper)
  {
  }

  function Lookup(s: seq<KV>, key: int): Option<Value> {
    if s == [] then None
    else if s[0].key == key then Some(s[0].val)
    else Lookup(s[1..], key)
  }

  /** Sets key to val in a sorted sequence. */
  function Put(s: seq<KV>, key: int, val: Value): seq<KV> {
    if s == [] || key < s[0].key then [KV(key, val)] + s
    else if key == s[0].key then [KV(key, val)] + s[1..]
    else [s[0]] + Put(s[1..], key, val)
  }

  function ToMap(s: seq<KV>): map<int, Value> {
    if s == [] then map[] else ToMap(s[1..])[s[0].key := s[0].val]
  }

  /** The records with start <= key <= end, in the order of s. */
  function Between(s: seq<KV>, start: int, end: int): seq<KV> {
    if s == [] then []
    else (if start <= s[0].key <= end then [s[0]] else []) + Between(s[1..], start, end)
  }

  lemma {:induction false} PutPrefix(a: seq<KV>, b: seq<KV>, key: int, val: Value)
    requires forall i | 0 <= i < |a| :: a[i].key < key
    ensures Put(a + b, key, val) == a + Put(b, key, val)
  {
    if a == [] {
      assert a + b == b;
    } else {
      PutPrefix(a[1..], b, key, val);
      Seqs.Behind(a, b);
      Seqs.Assoc([a[0]], a[1..], Put(b, key, val));
      assert [a[0]] + a[1..] == a;
    }
  }

  lemma {:induction false} PutSuffix(b: seq<KV>, c: seq<KV>, key: int, val: Value)
    requires forall i | 0 <= i < |c| :: key < c[i].key
    ensures Put(b + c, key, val) == Put(b, key, val) + c
  {
    if b == [] {
      assert b + c == c;
    } else {
      Seqs.Behind(b, c);
      if key < b[0].key {
        Seqs.Assoc([KV(key, val)], b, c);
      } else if key == b[0].key {
        Seqs.Assoc([KV(key, val)], b[1..], c);
      } else {
        PutSuffix(b[1..], c, key, val);
        Seqs.Assoc([b[0]], Put(b[1..], key, val), c);
      }
    }
  }

  /** Put only looks at the middle of a sequence whose ends are known to lie below and above key. */
  lemma PutMiddle(a: seq<KV>, b: seq<KV>, c: seq<KV>, key: int, val: Value)
    requires forall i | 0 <= i < |a| :: a[i].key < key
    requires forall i | 0 <= i < |c| :: key < c[i].key
    ensures Put(a + (b + c), key, val) == a + (Put(b, key, val) + c)
  {
    PutPrefix(a, b + c, key, val);
    PutSuffix(b, c, key, val);
  }

  lemma {:induction false} PutSorted(s: seq<KV>, key: int, val: Value, lo: int, hi: int)
    requires Sorted(s) && Within(s, lo, hi) && lo <= key < hi
    ensures Sorted(Put(s, key, val)) && Within(Put(s, key, val), lo, hi)
    ensures Put(s, key, val) != []
  {
    if s == [] || key <= s[0].key {
    } else {
      PutSorted(s[1..], key, val, s[0].key + 1, hi);
    }
  }

  lemma {:induction false} ToMapKeys(s: seq<KV>)
    ensures forall k :: k in ToMap(s) <==> exists i :: 0 <= i < |s| && s[i].key == k
  {
    if s != [] {
      ToMapKeys(s[1..]);
      forall k
        ensures k in ToMap(s) <==> exists i :: 0 <= i < |s| && s[i].key == k
      {
        if k in ToMap(s[1..]) {
          var i :| 0 <= i < |s[1..]| && s[1..][i].key == k;
          assert s[i + 1].key == k;
        }
        if i :| 0 <= i < |s| && s[i].key == k {
          assert i > 0 ==> s[1..][i - 1].key == k;
        }
      }
    }
  }

  /** Put on a sorted sequence is map update. */
  lemma {:induction false} PutIsUpdate(s: seq<KV>, key: int, val: Value)
    requires Sorted(s)
    ensures ToMap(Put(s, key, val)) == ToMap(s)[key := val]
  {
    var p := Put(s, key, val);
    if s == [] || key < s[0].key {
      assert p[1..] == s;
    } else if key == s[0].key {
      assert p[1..] == s[1..];
    } else {
      PutIsUpdate(s[1..], key, val);
      assert p[1..] == Put(s[1..], key, val);
    }
  }

  lemma {:induction false} LookupIsMap(s: seq<KV>, key: int)
    ensures Lookup(s, key) == if key in ToMap(s) then Some(ToMap(s)[key]) else None
  {
    if s != [] {
      LookupIsMap(s[1..], key);
    }
  }

  lemma {:induction false} LookupAt(s: seq<KV>, i: nat)
    requires Sorted(s) && i < |s|
    ensures Lookup(s, s[i].key) == Some(s[i].val)
  {
    if i > 0 {
      LookupAt(s[1..], i - 1);
    }
  }

  lemma {:induction false} LookupAbsent(s: seq<KV>, key: int)
    requires forall i | 0 <= i < |s| :: s[i].key != key
    ensures Lookup(s, key) == None
  {
    if s != [] {
      LookupAbsent(s[1..], key);
    }
  }

  lemma {:induction false} LookupConcat(a: seq<KV>, b: seq<KV>, key: int)
    ensures Lookup(a + b, key) == if Lookup(a, key).Some? then Lookup(a, key) else Lookup(b, key)
  {
    if a == [] {
      assert a + b == b;
    } else {
      LookupConcat(a[1..], b, key);
      assert (a + b)[1..] == a[1..] + b;
    }
  }
}
