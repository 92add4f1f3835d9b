/** The pager: a file of fixed-size pages behind a write-through cache whose pages the tree changes in place. */
module Pager {
  import opened Bytes
  import opened TreeModel
  import opened Layout
  import opened Lru
  import opened PageOps

  /** Cached pages: one buffer per id, one id per buffer, all of allocated pages. */
  ghost predicate Slots(m: seq<Slot>, pageSize: nat, pages: nat) {
    && (forall s | s in m :: s.page.Length == pageSize && s.id < pages)
    && forall s, t | s in m && t in m && s.page == t.page :: s == t
  }

  lemma TouchElements(m: seq<Slot>, id: nat)
    ensures forall s: Slot :: s in Touch(m, id) <==> s in m
    ensures IndexOf(m, id) < |m| <==> exists s :: s in m && s.id == id
  {
  }

  lemma StoreElements(m: seq<Slot>, cap: nat, id: nat, page: array<byte>)
    requires forall i, j | 0 <= i < j < |m| :: m[i].id != m[j].id
    ensures forall s | s in Store(m, cap, id, page) :: s == Slot(id, page) || (s in m && s.id != id)
  {
  }

  lemma OnlySlot(m: seq<Slot>, id: nat)
    requires forall i, j | 0 <= i < j < |m| :: m[i].id != m[j].id
    ensures forall s | s in m && s.id == id :: IndexOf(m, id) < |m| && s == m[IndexOf(m, id)]
  {
    forall s | s in m && s.id == id
      ensures IndexOf(m, id) < |m| && s == m[IndexOf(m, id)]
    {
      var i :| 0 <= i < |m| && m[i] == s;
      assert i == IndexOf(m, id);
    }
  }

  class Pager {
    const pageSize: nat
    const cache: LruCache
    var file: seq<Page>
    var pageCount: nat
    /** The pages whose cached copy has been changed in place and not been written. */
    ghost var stale: set<nat>

    ghost predicate Valid()
      reads this, cache, cache.list
    {
      && cache.Valid()
      && pageCount == |file| && (forall x | x in stale :: x < |file|)
      && (forall i | 0 <= i < |file| :: |file[i]| == pageSize)
      && Slots(cache.model, pageSize, |file|)
    }

    /** Every buffer a client can reach through the cache, apart from stale pages. */
    ghost function Buffers(): set<object>
      reads this, cache
    {
      set s | s in cache.model && s.id !in stale :: s.page as object
    }

    ghost function StaleSlots(): set<Slot>
      reads this, cache
    {
      set s | s in cache.model && s.id in stale
    }

    /** The cached ids, the most recently used one first. */
    ghost function CachedIds(): seq<nat>
      reads cache
    {
      Ids(cache.model)
    }

    /** The bytes that the next Read of page id gives. */
    ghost function Sees(id: nat): Page
      requires id < |file|
      reads this, cache, set s | s in cache.model :: s.page as object
    {
      var i := IndexOf(cache.model, id);
      if i < |cache.model| then cache.model[i].page[..] else file[id]
    }

    /** Page by page, the bytes that reads give. */
    ghost predicate Shows(seen: seq<Page>)
      reads this, cache, set s | s in cache.model :: s.page as object
    {
      |seen| == |file| && forall id | 0 <= id < |file| :: seen[id] == Sees(id)
    }

    /** Every cached page equals its page in the file, apart from stale pages and the pages being changed in place. */
    ghost predicate Coherent(dirty: set<nat>)
      reads this, cache, Buffers()
    {
      forall s | s in cache.model && s.id < |file| && s.id !in dirty && s.id !in stale :: s.page[..] == file[s.id]
    }

    ghost predicate Ready()
      reads this, cache, cache.list, Buffers()
    {
      Valid() && Coherent({})
    }

    /** The cache knows this buffer, if at all, as page id. */
    ghost predicate Owns(id: nat, p: array<byte>)
      reads cache
    {
      forall s | s in cache.model && s.page == p :: s.id == id
    }

    /** The page count that a file's header page records. */
    static function StoredCount(file: seq<Page>): nat
      requires file != [] && |file[0]| >= HEADER
    {
      U64(file[0], 0)
    }

    /** Open: a new file gets its header page; an old one must have been closed. */
    constructor Open(file: seq<Page>, cachePages: nat, pageSize: nat)
      requires pageSize >= HEADER && forall i | 0 <= i < |file| :: |file[i]| == pageSize
      requires file != [] ==> StoredCount(file) == |file|
      ensures Ready() && fresh(cache) && cache.Repr == {}
      ensures this.pageSize == pageSize && cache.cap == cachePages && cache.model == [] && stale == {}
      ensures file != [] ==> this.file == file
      ensures file == [] ==> |this.file| == 1
    {
      this.pageSize := pageSize;
      cache := new LruCache(cachePages);
      this.file := file;
      pageCount := 1;
      stale := {};
      new;
      if file != [] {
        pageCount := U64(file[0], 0);
      } else {
        this.file := [seq(pageSize, i => 0)];
        WritePageCount();
      }
    }

    /** writePageCount: the header page keeps its other bytes. */
    method WritePageCount()
      requires Valid() && pageSize >= HEADER && 0 < pageCount < 0x1_0000_0000_0000_0000
      modifies this`file
      ensures Valid() && |file| == |old(file)|
      ensures StoredCount(file) == pageCount && file[1..] == old(file)[1..]
    {
      var hdr := new byte[pageSize](_ => 0);
      if pageCount > 1 {
        PutBytes(hdr, 0, file[0]);
      }
      PutU64(hdr, 0, pageCount);
      file := file[0 := hdr[..]];
    }

    /** Close: record the page count. */
    method Close()
      requires Valid() && pageSize >= HEADER && 0 < pageCount < 0x1_0000_0000_0000_0000
      modifies this`file
      ensures Valid() && |file| == |old(file)| == StoredCount(file) && file[1..] == old(file)[1..]
    {
      WritePageCount();
    }

    /** Allocate: a fresh page of zeros at the end of the file. */
    method Allocate() returns (id: nat)
      requires Valid()
      modifies this`file, this`pageCount
      ensures Valid() && id == |old(file)|
      ensures file == old(file) + [seq(pageSize, i => 0)]
    {
      id := pageCount;
      pageCount := pageCount + 1;
      file := file + [seq(pageSize, i => 0)];
    }

    method ReadPageFromDisk(id: nat) returns (p: array<byte>)
      requires id < |file| && |file[id]| == pageSize
      ensures fresh(p) && p.Length == pageSize && p[..] == file[id]
    {
      p := new byte[pageSize](_ => 0);
      PutBytes(p, 0, file[id]);
      assert p[..] == p[..][0..pageSize];
    }

    /** Read: from the cache if it has the page, or else a new buffer with the file's bytes. */
    method Read(id: nat, ghost dirty: set<nat>) returns (p: array<byte>)
      requires Valid() && Coherent(dirty) && id < |file| && id !in dirty
      modifies cache, cache.Repr
      ensures Valid() && Coherent(dirty) && fresh(cache.Repr - old(cache.Repr))
      ensures p.Length == pageSize && p[..] == old(Sees(id)) && Owns(id, p)
      ensures id !in stale ==> p[..] == file[id] && (p in old(Buffers()) || fresh(p))
      ensures if forall s | s in old(cache.model) :: s.id != id then fresh(p) else Slot(id, p) in old(cache.model)
      ensures forall s | s in cache.model && s.id == id :: s.page == p
      ensures forall s | s in cache.model :: s in old(cache.model) || s == Slot(id, p)
      ensures Ids(cache.model) == Accessed(Ids(old(cache.model)), cache.cap, id)
    {
      hide LruCache.Valid, Accessed, Ids;
      ghost var m := cache.model;
      cache.DistinctModel();
      OnlySlot(m, id);
      var hit := cache.Get(id);
      TouchElements(m, id);
      if hit != null {
        TouchIds(m, cache.cap, id);
        p := hit;
      } else {
        p := ReadMiss(id, dirty);
      }
    }

    method ReadMiss(id: nat, ghost dirty: set<nat>) returns (p: array<byte>)
      requires Valid() && Coherent(dirty) && id < |file| && forall s | s in cache.model :: s.id != id
      modifies cache, cache.Repr
      ensures Valid() && Coherent(dirty) && fresh(cache.Repr - old(cache.Repr))
      ensures fresh(p) && p.Length == pageSize && p[..] == file[id]
      ensures forall s | s in cache.model :: s in old(cache.model) || s == Slot(id, p)
      ensures Ids(cache.model) == Accessed(Ids(old(cache.model)), cache.cap, id)
    {
      hide LruCache.Valid, Store, Accessed, Ids;
      p := ReadPageFromDisk(id);
      cache.DistinctModel();
      StoreIds(cache.model, cache.cap, id, p);
      StoreElements(cache.model, cache.cap, id, p);
      cache.Put(id, p);
    }

    /** Write: through the cache to the file. */
    method Write(id: nat, p: array<byte>, ghost dirty: set<nat>)
      requires Valid() && Coherent(dirty + {id}) && id < |file| && p.Length == pageSize && Owns(id, p)
      modifies this`file, cache, cache.Repr
      ensures Valid() && Coherent(dirty) && fresh(cache.Repr - old(cache.Repr))
      ensures file == old(file)[id := p[..]]
      ensures forall s | s in cache.model :: (s in old(cache.model) && s.id != id) || s == Slot(id, p)
      ensures Ids(cache.model) == Accessed(Ids(old(cache.model)), cache.cap, id)
    {
      hide LruCache.Valid, Store, Accessed, Ids;
      cache.DistinctModel();
      StoreIds(cache.model, cache.cap, id, p);
      StoreElements(cache.model, cache.cap, id, p);
      cache.Put(id, p);
      file := file[id := p[..]];
    }
  }
}
