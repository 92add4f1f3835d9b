/** What the cache holds after any run of page accesses: the most recently used pages, as many as fit. */
module Recency {
  import opened TreeModel
  import opened Bytes
  import opened Lru

  /** The ids without id. */
  function Without(ids: seq<nat>, id: nat): seq<nat> {
    if ids == [] then []
    else if ids[0] == id then Without(ids[1..], id)
    else [ids[0]] + Without(ids[1..], id)
  }

  /** The ids of a run of accesses, once each, the last used one first. */
  function Recent(trace: seq<nat>): seq<nat> {
    if trace == [] then []
    else [trace[|trace| - 1]] + Without(Recent(trace[..|trace| - 1]), trace[|trace| - 1])
  }

  /** The time of the last access to id. */
  function LastUse(trace: seq<nat>, id: nat): (t: int)
    ensures -1 <= t < |trace|
    ensures t >= 0 ==> trace[t] == id
    ensures forall i | t < i < |trace| :: trace[i] != id
  {
    if trace == [] then -1
    else if trace[|trace| - 1] == id then |trace| - 1
    else LastUse(trace[..|trace| - 1], id)
  }

  ghost predicate Falling(trace: seq<nat>, ids: seq<nat>) {
    forall i, j | 0 <= i < j < |ids| :: LastUse(trace, ids[i]) > LastUse(trace, ids[j])
  }

  lemma {:induction false} WithoutKeeps(trace: seq<nat>, ids: seq<nat>, id: nat)
    requires Falling(trace, ids)
    ensures Falling(trace, Without(ids, id))
    ensures forall x :: x in Without(ids, id) <==> x in ids && x != id
  {
    if ids != [] {
      assert ids == [ids[0]] + ids[1..];
      WithoutKeeps(trace, ids[1..], id);
      var w := Without(ids[1..], id);
      forall i | 0 <= i < |w|
        ensures LastUse(trace, ids[0]) > LastUse(trace, w[i])
      {
        assert w[i] in ids[1..];
      }
    }
  }

  /** Recent has each accessed id once, in falling order of last use. */
  lemma {:induction false} RecentMeans(trace: seq<nat>)
    ensures Falling(trace, Recent(trace))
    ensures forall id :: id in Recent(trace) <==> id in trace
  {
    if trace != [] {
      var n, id := |trace| - 1, trace[|trace| - 1];
      var before := trace[..n];
      assert trace == before + [id];
      RecentMeans(before);
      WithoutKeeps(before, Recent(before), id);
      var w := Without(Recent(before), id);
      forall i | 0 <= i < |w|
        ensures LastUse(trace, w[i]) == LastUse(before, w[i]) < n
      {
        assert w[i] in w;
      }
    }
  }

  /** The cached ids after a run of accesses. */
  function AccessAll(ids: seq<nat>, cap: nat, trace: seq<nat>): seq<nat> {
    if trace == [] then ids else Accessed(AccessAll(ids, cap, trace[..|trace| - 1]), cap, trace[|trace| - 1])
  }

  /** The same from an empty cache. */
  function Cached(cap: nat, trace: seq<nat>): seq<nat> {
    AccessAll([], cap, trace)
  }

  lemma {:induction false} AccessMore(ids: seq<nat>, cap: nat, a: seq<nat>, b: seq<nat>)
    ensures AccessAll(AccessAll(ids, cap, a), cap, b) == AccessAll(ids, cap, a + b)
  {
    hide Accessed;
    if b == [] {
      assert a + b == a;
    } else {
      var n := |b| - 1;
      AccessMore(ids, cap, a, b[..n]);
      assert (a + b)[..|a + b| - 1] == a + b[..n];
    }
  }

  lemma AccessOne(ids: seq<nat>, cap: nat, x: nat)
    ensures AccessAll(ids, cap, [x]) == Accessed(ids, cap, x)
  {
  }

  lemma AccessThree(ids: seq<nat>, cap: nat, x: nat, y: nat, z: nat)
    ensures AccessAll(ids, cap, [x, y, z]) == Accessed(Accessed(Accessed(ids, cap, x), cap, y), cap, z)
  {
    hide Accessed;
    assert [x, y, z][..2] == [x, y] && [x, y][..1] == [x];
    AccessOne(ids, cap, x);
  }

  function Min(a: nat, b: nat): nat {
    if a <= b then a else b
  }

  lemma {:induction false} WithoutAt(ids: seq<nat>, i: nat)
    requires i < |ids| && forall j, k | 0 <= j < k < |ids| :: ids[j] != ids[k]
    ensures Without(ids, ids[i]) == RemoveAt(ids, i)
  {
    if i == 0 {
      WithoutAbsent(ids[1..], ids[0]);
    } else {
      WithoutAt(ids[1..], i - 1);
      assert RemoveAt(ids, i) == [ids[0]] + RemoveAt(ids[1..], i - 1);
    }
  }

  lemma {:induction false} WithoutAbsent(ids: seq<nat>, id: nat)
    requires id !in ids
    ensures Without(ids, id) == ids
  {
    if ids != [] {
      assert ids == [ids[0]] + ids[1..];
      WithoutAbsent(ids[1..], id);
    }
  }

  lemma CutHit(ids: seq<nat>, c: nat, i: nat)
    requires i < c <= |ids|
    ensures ([ids[i]] + RemoveAt(ids, i))[..c] == [ids[i]] + RemoveAt(ids[..c], i)
  {
  }

  lemma CutMiss(ids: seq<nat>, c: nat, k: nat)
    requires c <= k < |ids|
    ensures ([ids[k]] + RemoveAt(ids, k))[..c] == ([ids[k]] + ids[..c])[..c]
  {
  }

  /** One access takes the first cap ids of a recency list to the first cap ids of the next one. */
  lemma OneAccess(ids: seq<nat>, cap: nat, id: nat)
    requires forall j, k | 0 <= j < k < |ids| :: ids[j] != ids[k]
    ensures var next := [id] + Without(ids, id);
      Accessed(ids[..Min(cap, |ids|)], cap, id) == next[..Min(cap, |next|)]
  {
    hide At, Without, RemoveAt;
    var c := Min(cap, |ids|);
    var m := ids[..c];
    var i := At(m, id);
    if i < |m| {
      WithoutAt(ids, i);
      CutHit(ids, c, i);
    } else if id in ids {
      var k := At(ids, id);
      FirstAt(ids, id);
      NotBefore(ids, c, k);
      WithoutAt(ids, k);
      CutMiss(ids, c, k);
    } else {
      WithoutAbsent(ids, id);
      assert c == cap < |ids| ==> ([id] + ids)[..cap] == ([id] + m)[..cap];
    }
  }

  lemma NotBefore(ids: seq<nat>, c: nat, k: nat)
    requires c <= |ids| && k < |ids|
    ensures At(ids[..c], ids[k]) == c ==> c <= k
  {
  }

  lemma FirstAt(ids: seq<nat>, id: nat)
    requires id in ids
    ensures At(ids, id) < |ids|
  {
  }

  /**
   The cache holds the most recently used pages, as many as its capacity allows, and so evicts the least recently used.
   */
  lemma {:induction false} CachedIsRecent(cap: nat, trace: seq<nat>)
    ensures Cached(cap, trace) == Recent(trace)[..Min(cap, |Recent(trace)|)]
  {
    if trace != [] {
      var n := |trace| - 1;
      CachedIsRecent(cap, trace[..n]);
      RecentMeans(trace[..n]);
      var r := Recent(trace[..n]);
      forall j, k | 0 <= j < k < |r|
        ensures r[j] != r[k]
      {
        assert LastUse(trace[..n], r[j]) > LastUse(trace[..n], r[k]);
      }
      OneAccess(r, cap, trace[n]);
    }
  }

  /** A larger cache always holds what a smaller one does: more pages never cause more misses. */
  lemma {:induction false} LargerCacheHoldsMore(cap: nat, cap': nat, trace: seq<nat>)
    requires cap <= cap'
    ensures Cached(cap, trace) <= Cached(cap', trace) && |Cached(cap, trace)| <= cap
  {
    CachedIsRecent(cap, trace);
    CachedIsRecent(cap', trace);
  }
}
