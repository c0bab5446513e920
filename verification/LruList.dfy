/** The LRU cache (LRU.c) on the linked queue of cacheObj.c and cache_get_base (cache.c). */
module LruList {
  import opened NextUse
  import opened ObjQueue
  import opened ObjCache
  import opened Lru

  class ListCache {
    const cacheSize: nat
    const queue: ObjQueue.Queue
    const base: CacheBase

    ghost predicate Valid()
      reads Footprint()
    {
      queue.Valid() && base.Books(queue.objs)
    }

    ghost function Held(): Lru.Queue
      reads queue
    {
      Entries(queue.objs)
    }

    /** Everything a method may change. */
    ghost function Footprint(): (f: set<object>)
      reads queue
      ensures queue in f && base in f
    {
      {queue, base} + set o | o in SetOf(queue.objs) :: o as object
    }

    lemma Alive()
      ensures forall o | o in Footprint() :: allocated(o)
    {
    }

    constructor (cacheSize: nat, objMdSize: nat)
      ensures Valid() && Held() == [] && forall o | o in Footprint() :: fresh(o)
      ensures this.cacheSize == cacheSize && base.objMdSize == objMdSize
    {
      this.cacheSize := cacheSize;
      queue := new ObjQueue.Queue();
      base := new CacheBase(objMdSize);
    }

    /** LRU_find */
    method Find(x: ObjId, updateCache: bool) returns (obj: CacheObj?)
      requires Valid()
      modifies Footprint()
      ensures Footprint() == old(Footprint())
      ensures !updateCache ==> Held() == old(Held())
      ensures Valid() && (obj != null) == Has(old(Held()), x) && (obj != null ==> obj.objId == x)
      ensures Held() == if obj != null && updateCache then Promote(old(Held()), x) else old(Held())
    {
      hide ObjQueue.Queue.Valid, CacheBase.Books, Promote, Entries, NoRepeats, RemoveAt;
      base.BooksHas(queue.objs, x);
      obj := if x in base.table then base.table[x] else null;
      if obj != null && updateCache {
        ghost var objs := queue.objs;
        ghost var k :| 0 <= k < |objs| && objs[k] == obj;
        queue.Distinct();
        base.BooksPromote(objs, k);
        base.BooksFront(objs, k);
        queue.MoveToHead(obj, k);
      }
    }

    /** LRU_insert */
    method Insert(e: Entry) returns (obj: CacheObj)
      requires Valid() && !Has(Held(), e.id)
      modifies Footprint()
      ensures Valid() && Held() == [e] + old(Held())
      ensures forall o | o in Footprint() && o !in old(Footprint()) :: fresh(o)
    {
      hide ObjQueue.Queue.Valid, CacheBase.Books, Entries;
      base.BooksHas(queue.objs, e.id);
      obj := new CacheObj(e.id, e.size);
      EntriesFront(obj, queue.objs);
      base.InsertBase(obj, queue.objs);
      queue.PrependToHead(obj);
      assert forall o | o in SetOf(queue.objs) :: o == obj || o in old(SetOf(queue.objs));
    }

    /** LRU_to_evict */
    method ToEvict() returns (obj: CacheObj?)
      requires Valid()
      ensures obj == if Held() == [] then null else queue.objs[|queue.objs| - 1]
      ensures Held() != [] ==> obj != null && Entry(obj.objId, obj.objSize) == Held()[|Held()| - 1]
    {
      queue.Ends();
      obj := queue.tail;
    }

    lemma UnitBytes()
      requires Valid() && base.objMdSize == 0 && Units(Held())
      ensures base.occupiedByte == |Held()|
    {
      UnitWeight(Held());
    }

    /** The unlinking that LRU_evict does by hand. */
    method DropTail()
      requires queue.Valid() && queue.objs != []
      modifies queue, SetOf(queue.objs)`next
      ensures queue.Valid() && queue.objs == old(queue.objs)[..|old(queue.objs)| - 1]
    {
      ghost var objs := queue.objs;
      assert ChainedAt(objs, |objs| - 1);
      queue.tail := queue.tail.prev;
      if queue.tail != null {
        queue.tail.next := null;
      } else {
        queue.head := null;
      }
      queue.objs := objs[..|objs| - 1];
      forall i | 0 <= i < |queue.objs|
        ensures ChainedAt(queue.objs, i)
      {
        assert old(ChainedAt(objs, i));
      }
    }

    /** LRU_evict: evicts what `ToEvict` names. */
    method Evict()
      requires Valid() && Held() != []
      modifies Footprint()
      ensures Valid() && Held() == old(Held())[..|old(Held())| - 1] && Footprint() <= old(Footprint())
    {
      hide ObjQueue.Queue.Valid, CacheBase.Books, Entries, NoRepeats;
      ghost var objs := queue.objs;
      queue.Distinct();
      queue.Ends();
      EntriesLast(objs);
      base.RemoveObjBase(queue.tail, objs, |objs| - 1);
      DropTail();
    }

    /** LRU_remove */
    method Remove(x: ObjId) returns (removed: bool)
      requires Valid()
      modifies Footprint()
      ensures Footprint() <= old(Footprint())
      ensures Valid() && removed == Has(old(Held()), x) && Held() == Without(old(Held()), x)
    {
      hide ObjQueue.Queue.Valid, CacheBase.Books, Entries, NoRepeats, RemoveAt;
      base.BooksHas(queue.objs, x);
      removed := x in base.table;
      if removed {
        var obj := base.table[x];
        ghost var objs := queue.objs;
        ghost var k :| 0 <= k < |objs| && objs[k] == obj;
        queue.Distinct();
        base.BooksPromote(objs, k);
        base.RemoveObjBase(obj, objs, k);
        Fewer(objs, k);
        queue.RemoveObj(obj, k);
      }
    }

    static lemma Fewer(objs: seq<CacheObj>, k: nat)
      requires k < |objs|
      ensures SetOf(RemoveAt(objs, k)) <= SetOf(objs)
    {
    }

    /** cache_get_base */
    method Get(e: Entry) returns (hit: bool)
      requires Valid()
      modifies Footprint()
      ensures Valid() && hit == Has(old(Held()), e.id)
      ensures Held() == LruGet(old(Held()), cacheSize, base.objMdSize, e)
      ensures forall o | o in Footprint() && o !in old(Footprint()) :: fresh(o)
    {
      hide Valid, Footprint, Held, Promote, Has, Trim;
      var obj := Find(e.id, true);
      hit := obj != null;
      if hit || e.size + base.objMdSize > cacheSize {
        return;
      }
      MakeRoom(e);
      var _ := Insert(e);
    }

    /** The eviction loop of cache_get_base. */
    method MakeRoom(e: Entry)
      requires Valid() && !Has(Held(), e.id) && e.size + base.objMdSize <= cacheSize
      modifies Footprint()
      ensures Valid() && !Has(Held(), e.id) && Footprint() <= old(Footprint())
      ensures Held() == Trim(old(Held()), base.objMdSize, cacheSize - e.size - base.objMdSize)
    {
      hide ObjQueue.Queue.Valid, Promote, Entries, Indexed;
      ghost var room := cacheSize - e.size - base.objMdSize;
      while base.occupiedByte + e.size + base.objMdSize > cacheSize
        invariant Valid() && Footprint() <= old(Footprint()) && !Has(Held(), e.id)
        invariant Trim(Held(), base.objMdSize, room) == Trim(old(Held()), base.objMdSize, room)
        decreases |Held()|
      {
        Evict();
      }
    }
  }

  /** A whole trace through the linked cache. */
  method Simulate(cacheSize: nat, objMdSize: nat, trace: seq<Entry>) returns (cache: ListCache, hits: seq<bool>)
    ensures cache.Valid() && cache.Held() == LruRun(cacheSize, objMdSize, trace) && |hits| == |trace|
    ensures forall i | 0 <= i < |trace| :: hits[i] == Has(LruRun(cacheSize, objMdSize, trace[..i]), trace[i].id)
  {
    hide ListCache.Valid, LruGet;
    cache := new ListCache(cacheSize, objMdSize);
    hits := [];
    assert trace[..0] == [];
    for i := 0 to |trace|
      invariant cache.Valid() && fresh(cache) && forall o | o in cache.Footprint() :: fresh(o)
      invariant cache.cacheSize == cacheSize && cache.base.objMdSize == objMdSize
      invariant cache.Held() == LruRun(cacheSize, objMdSize, trace[..i]) && |hits| == i
      invariant forall j | 0 <= j < i :: hits[j] == Has(LruRun(cacheSize, objMdSize, trace[..j]), trace[j].id)
    {
      assert trace[..i + 1][..i] == trace[..i];
      var hit := cache.Get(trace[i]);
      hits := hits + [hit];
    }
    assert trace[..|trace|] == trace;
  }
}
