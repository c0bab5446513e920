/** The AdaptiveClimb cache (AdaptiveClimb.c), driven by get and, on a miss, insert (sim.c). */
module AdaptiveClimb {
  import opened NextUse
  import opened ObjQueue
  import opened ObjCache
  import opened ClimbTuner
  import opened Lru
  import LruStack

  // ---------- its queue discipline on plain queues ----------

  /** Unlike LRU it inserts objects that do not fit, after evicting everything. */
  function ClimbGet(q: Lru.Queue, capacity: nat, e: Entry): Lru.Queue
  {
    if Has(q, e.id) then Promote(q, e.id) else [e] + Trim(q, 0, capacity - e.size)
  }

  function ClimbRun(capacity: nat, trace: seq<Entry>): Lru.Queue
  {
    if trace == [] then [] else ClimbGet(ClimbRun(capacity, trace[..|trace| - 1]), capacity, trace[|trace| - 1])
  }

  /** The request finds the object or at least could store it. */
  predicate Storable(q: Lru.Queue, capacity: nat, e: Entry)
  {
    Has(q, e.id) || e.size <= capacity
  }

  /** Exactly the storable requests are served as LRU would, and exactly those keep the cache within its
      size. */
  lemma ClimbStep(q: Lru.Queue, capacity: nat, e: Entry)
    requires Distinct(q) && Weight(q, 0) <= capacity
    ensures Storable(q, capacity, e) <==> ClimbGet(q, capacity, e) == LruGet(q, capacity, 0, e)
    ensures Storable(q, capacity, e) <==> Weight(ClimbGet(q, capacity, e), 0) <= capacity
    ensures Distinct(ClimbGet(q, capacity, e))
    ensures !Storable(q, capacity, e) ==> ClimbGet(q, capacity, e) == [e]
  {
    GetKeeps(q, capacity, 0, e);
    if !Storable(q, capacity, e) {
      var kept := Trim(q, 0, capacity - e.size);
      assert ([e] + kept)[0].id == e.id;
      WeightConcat([e], kept, 0);
      WeightSplit([e], 0, 0);
    }
  }

  ghost predicate Agree(capacity: nat, trace: seq<Entry>, i: nat)
    requires i <= |trace|
  {
    ClimbRun(capacity, trace[..i]) == LruRun(capacity, 0, trace[..i])
  }

  lemma {:induction false} LruRunKeeps(capacity: nat, trace: seq<Entry>)
    ensures Distinct(LruRun(capacity, 0, trace)) && Weight(LruRun(capacity, 0, trace), 0) <= capacity
  {
    if trace != [] {
      var before := trace[..|trace| - 1];
      LruRunKeeps(capacity, before);
      GetKeeps(LruRun(capacity, 0, before), capacity, 0, trace[|trace| - 1]);
    }
  }

  ghost predicate Serves(capacity: nat, trace: seq<Entry>, i: nat)
    requires i < |trace|
  {
    Storable(LruRun(capacity, 0, trace[..i]), capacity, trace[i])
  }

  lemma {:induction false} ClimbIsLruUpTo(capacity: nat, trace: seq<Entry>, n: nat)
    requires n <= |trace|
    ensures (forall i | 0 <= i <= n :: Agree(capacity, trace, i)) <==>
              (forall i | 0 <= i < n :: Serves(capacity, trace, i))
  {
    hide ClimbGet, LruGet, Storable, Weight, Distinct;
    if n > 0 {
      var i := n - 1;
      ClimbIsLruUpTo(capacity, trace, i);
      assert trace[..n][..i] == trace[..i];
      LruRunKeeps(capacity, trace[..i]);
      ClimbStep(LruRun(capacity, 0, trace[..i]), capacity, trace[i]);
      assert Agree(capacity, trace, i) ==> (Agree(capacity, trace, n) <==> Serves(capacity, trace, i));
    }
  }

  /** AdaptiveClimb holds what LRU holds, in the same order, throughout a trace if and only if no request
      misses for an object larger than the cache. K and jump do not matter. */
  lemma ClimbIsLru(capacity: nat, trace: seq<Entry>)
    ensures (forall i | 0 <= i <= |trace| :: Agree(capacity, trace, i)) <==>
            (forall i | 0 <= i < |trace| :: Serves(capacity, trace, i))
  {
    ClimbIsLruUpTo(capacity, trace, |trace|);
  }

  /** An object that does not fit costs AdaptiveClimb a hit that LRU has. */
  lemma OversizeLoses()
    ensures var trace := [Entry(1, 1), Entry(2, 9)];
            Has(LruRun(4, 0, trace), 1) && !Has(ClimbRun(4, trace), 1) && Weight(ClimbRun(4, trace), 0) > 4
  {
    var trace := [Entry(1, 1), Entry(2, 9)];
    assert trace[..1] == [Entry(1, 1)] && trace[..1][..0] == [];
    assert LruRun(4, 0, []) == [] && ClimbRun(4, []) == [];
    assert Trim([], 0, 3) == [];
    assert LruRun(4, 0, trace[..1]) == [Entry(1, 1)];
    assert ClimbRun(4, trace[..1]) == [Entry(1, 1)];
    WeightSplit([Entry(1, 1)], 0, 0);
    assert Trim([Entry(1, 1)], 0, -5) == [];
    assert ClimbRun(4, trace) == [Entry(2, 9)];
    WeightSplit([Entry(2, 9)], 0, 0);
    assert LruRun(4, 0, trace)[0].id == 1;
  }

  /** On unit-size objects this is the LRU cache of the stack-distance analysis. */
  lemma {:induction false} ClimbIsStack(tr: seq<ObjId>, trace: seq<Entry>, c: nat, i: nat)
    requires i <= |tr| == |trace| && 1 <= c && forall j | 0 <= j < |tr| :: trace[j] == Entry(tr[j], 1)
    ensures ClimbRun(c, trace[..i]) == LruStack.LruQueue(tr, c, i)
  {
    hide ClimbGet, LruGet;
    assert trace[..0] == [];
    if i > 0 {
      SameGet(ClimbRun(c, trace[..i - 1]), c, tr[i - 1]);
      ClimbIsStack(tr, trace, c, i - 1);
      ClimbOn(c, trace, i);
    }
  }

  lemma ClimbOn(c: nat, trace: seq<Entry>, i: nat)
    requires 0 < i <= |trace|
    ensures ClimbRun(c, trace[..i]) == ClimbGet(ClimbRun(c, trace[..i - 1]), c, trace[i - 1])
  {
    assert trace[..i][..i - 1] == trace[..i - 1];
  }

  lemma SameGet(q: Lru.Queue, c: nat, x: ObjId)
    requires 1 <= c
    ensures ClimbGet(q, c, Entry(x, 1)) == LruGet(q, c, 0, Entry(x, 1))
  {
  }

  // ---------- the cache ----------

  class ClimbCache {
    const cacheSize: nat
    const queue: ObjQueue.Queue
    const tuner: Tuner
    const base: CacheBase

    ghost predicate Valid()
      reads this, queue, queue.objs, base, tuner, tuner.recentHits
    {
      queue.Valid() && tuner.Valid() && base.Books(queue.objs) && base.objMdSize == 0
    }

    ghost function Held(): Lru.Queue
      reads queue
    {
      Entries(queue.objs)
    }

    constructor (cacheSize: nat)
      ensures Valid() && Held() == [] && tuner.history == [] && this.cacheSize == cacheSize
      ensures fresh(queue) && fresh(base) && fresh(tuner) && fresh(tuner.recentHits)
    {
      this.cacheSize := cacheSize;
      queue := new ObjQueue.Queue();
      tuner := new Tuner();
      base := new CacheBase(0);
    }

    /** The unlinking in AdaptiveClimb_get and AdaptiveClimb_remove. */
    method Unlink(obj: CacheObj, ghost k: nat)
      requires queue.Valid() && k < |queue.objs| && queue.objs[k] == obj
      modifies queue, SetOf(queue.objs)`prev, SetOf(queue.objs)`next
      ensures queue.Valid() && queue.objs == RemoveAt(old(queue.objs), k)
    {
      ghost var objs := queue.objs;
      assert ChainedAt(objs, k);
      Neighbours(objs, k);
      NoRepeatsRemove(objs, k);
      hide NoRepeats;
      if obj.prev != null {
        obj.prev.next := obj.next;
      } else {
        queue.head := obj.next;
      }
      if obj.next != null {
        obj.next.prev := obj.prev;
      } else {
        queue.tail := obj.prev;
      }
      queue.objs := RemoveAt(objs, k);
      forall i | 0 <= i < |queue.objs|
        ensures ChainedAt(queue.objs, i)
      {
        assert old(ChainedAt(objs, if i < k then i else i + 1));
      }
    }

    /** The linking at the head in AdaptiveClimb_get and AdaptiveClimb_insert. */
    method PushHead(obj: CacheObj)
      requires queue.Valid() && obj !in queue.objs
      modifies queue, SetOf(queue.objs)`prev, obj`prev, obj`next
      ensures queue.Valid() && queue.objs == [obj] + old(queue.objs)
    {
      ghost var objs := queue.objs;
      assert objs != [] ==> ChainedAt(objs, 0);
      obj.next := queue.head;
      obj.prev := null;
      if queue.head != null {
        queue.head.prev := obj;
      } else {
        queue.tail := obj;
      }
      queue.head := obj;
      queue.objs := [obj] + objs;
      forall i | 0 <= i < |queue.objs|
        ensures ChainedAt(queue.objs, i)
      {
        assert i > 0 ==> old(ChainedAt(objs, i - 1));
      }
    }

    /** The unlinking of the tail in AdaptiveClimb_insert and AdaptiveClimb_evict. */
    method PopTail() returns (victim: CacheObj)
      requires queue.Valid() && queue.objs != []
      modifies queue, SetOf(queue.objs)`next
      ensures queue.Valid() && queue.objs == old(queue.objs)[..|old(queue.objs)| - 1]
      ensures victim == old(queue.objs)[|old(queue.objs)| - 1]
    {
      ghost var objs := queue.objs;
      assert ChainedAt(objs, |objs| - 1);
      victim := queue.tail;
      if victim.prev != null {
        victim.prev.next := null;
      } else {
        queue.head := null;
      }
      queue.tail := victim.prev;
      queue.objs := objs[..|objs| - 1];
      forall i | 0 <= i < |queue.objs|
        ensures ChainedAt(queue.objs, i)
      {
        assert old(ChainedAt(objs, i));
      }
    }

    /** AdaptiveClimb_find */
    method Find(x: ObjId) returns (obj: CacheObj?)
      requires Valid()
      ensures obj == (if x in base.table then base.table[x] else null) && (obj != null) == Has(Held(), x)
    {
      EntriesHas(base.table, queue.objs, x);
      obj := if x in base.table then base.table[x] else null;
    }

    /** AdaptiveClimb_get: a miss changes nothing, not even the window. */
    method Get(x: ObjId) returns (hit: bool)
      requires Valid()
      modifies queue, SetOf(queue.objs)`prev, SetOf(queue.objs)`next, tuner, tuner.recentHits
      ensures Valid() && hit == Has(old(Held()), x) && tuner.recentHits == old(tuner.recentHits)
      ensures Held() == if hit then Promote(old(Held()), x) else old(Held())
      ensures tuner.history == if hit then old(tuner.history) + [true] else old(tuner.history)
      ensures SetOf(queue.objs) == old(SetOf(queue.objs))
    {
      var obj := Find(x);
      hit := obj != null;
      if hit {
        tuner.Record(true);
        ToFront(obj);
      }
    }

    method ToFront(obj: CacheObj)
      requires queue.Valid() && Indexed(base.table, queue.objs) && obj in queue.objs
      modifies queue, SetOf(queue.objs)`prev, SetOf(queue.objs)`next
      ensures queue.Valid() && Indexed(base.table, queue.objs) && |queue.objs| == |old(queue.objs)|
      ensures Has(old(Held()), obj.objId) && Held() == Promote(old(Held()), obj.objId)
      ensures Weight(Held(), 0) == Weight(old(Held()), 0)
      ensures SetOf(queue.objs) == old(SetOf(queue.objs))
    {
      hide ObjQueue.Queue.Valid, Weight, Promote, Indexed, Entries, NoRepeats, RemoveAt;
      ghost var objs := queue.objs;
      ghost var k :| 0 <= k < |objs| && objs[k] == obj;
      queue.Distinct();
      EntriesPromote(base.table, objs, k);
      PromoteWeight(Held(), obj.objId, 0);
      Regrouped(objs, k);
      FrontIndexed(base.table, objs, k);
      Unlink(obj, k);
      PushHead(obj);
    }

    /** Takes the oldest object out: the loop body of AdaptiveClimb_insert, and AdaptiveClimb_evict. */
    method EvictTail() returns (victim: CacheObj)
      requires Valid() && queue.objs != []
      modifies base, queue, SetOf(queue.objs)`next
      ensures Valid() && Held() == old(Held())[..|old(Held())| - 1]
      ensures victim == old(queue.objs)[|old(queue.objs)| - 1] && base.table == old(base.table) - {victim.objId}
      ensures queue.objs <= old(queue.objs)
    {
      hide ObjQueue.Queue.Valid, Tuner.Valid, CacheBase.Books, Entries;
      ghost var objs := queue.objs;
      ghost var n := |objs| - 1;
      queue.Distinct();
      EntriesLast(objs);
      queue.Ends();
      base.RemoveObjBase(queue.tail, objs, n);
      victim := PopTail();
    }

    /** AdaptiveClimb_to_evict */
    method ToEvict() returns (obj: CacheObj?)
      requires Valid()
      ensures obj == if Held() == [] then null else queue.objs[|queue.objs| - 1]
    {
      queue.Ends();
      obj := queue.tail;
    }

    /** AdaptiveClimb_evict: evicts what `ToEvict` names. */
    method Evict()
      requires Valid()
      modifies base, queue, SetOf(queue.objs)`next
      ensures Valid() && Held() == if old(Held()) == [] then [] else old(Held())[..|old(Held())| - 1]
    {
      queue.Ends();
      if queue.tail == null {
        return;
      }
      var _ := EvictTail();
    }

    /** AdaptiveClimb_insert */
    method Insert(e: Entry) returns (obj: CacheObj)
      requires Valid()
      modifies base, queue, SetOf(queue.objs)`prev, SetOf(queue.objs)`next, tuner, tuner.recentHits
      ensures Valid() && Held() == ClimbGet(old(Held()), cacheSize, e)
      ensures tuner.history == old(tuner.history) + [Has(old(Held()), e.id)]
      ensures tuner.recentHits == old(tuner.recentHits)
      ensures forall o | o in SetOf(queue.objs) && o !in old(SetOf(queue.objs)) :: fresh(o)
    {
      hide ClimbGet, Tuner.Valid, ObjQueue.Queue.Valid, CacheBase.Books, Promote, Entries;
      var found := Find(e.id);
      if found != null {
        GetIsClimb(e);
        var _ := Get(e.id);
        return found;
      }
      MissIsClimb(e);
      tuner.Record(false);
      MakeRoom(e.size);
      obj := Add(e);
    }

    lemma GetIsClimb(e: Entry)
      requires Has(Held(), e.id)
      ensures ClimbGet(Held(), cacheSize, e) == Promote(Held(), e.id)
    {
    }

    lemma MissIsClimb(e: Entry)
      requires !Has(Held(), e.id)
      ensures ClimbGet(Held(), cacheSize, e) == [e] + Trim(Held(), 0, cacheSize - e.size)
    {
    }

    /** The loop of AdaptiveClimb_insert: evicts until the object fits or nothing is left. */
    method MakeRoom(size: nat)
      requires Valid()
      modifies base, queue, SetOf(queue.objs)`next
      ensures Valid() && Held() == Trim(old(Held()), 0, cacheSize - size)
      ensures queue.objs <= old(queue.objs) && base.table.Keys <= old(base.table.Keys)
    {
      hide ObjQueue.Queue.Valid, Tuner.Valid, Indexed, Weight, Entries;
      while base.occupiedByte + size > cacheSize
        invariant Valid() && queue.objs <= old(queue.objs) && base.table.Keys <= old(base.table.Keys)
        invariant Trim(Held(), 0, cacheSize - size) == Trim(old(Held()), 0, cacheSize - size)
        decreases |queue.objs|
      {
        queue.Ends();
        var victim := queue.tail;
        if victim == null {
          break;
        }
        victim := EvictTail();
      }
    }

    /** cache_insert_base and the linking at the head */
    method Add(e: Entry) returns (obj: CacheObj)
      requires Valid() && e.id !in base.table
      modifies base, queue, SetOf(queue.objs)`prev
      ensures Valid() && Held() == [e] + old(Held()) && fresh(obj) && queue.objs == [obj] + old(queue.objs)
    {
      hide ObjQueue.Queue.Valid, CacheBase.Books, Tuner.Valid;
      obj := new CacheObj(e.id, e.size);
      EntriesFront(obj, queue.objs);
      base.InsertBase(obj, queue.objs);
      PushHead(obj);
    }

    /** AdaptiveClimb_remove */
    method Remove(x: ObjId) returns (removed: bool)
      requires Valid()
      modifies base, queue, SetOf(queue.objs)`prev, SetOf(queue.objs)`next
      ensures Valid() && removed == Has(old(Held()), x) && Held() == Without(old(Held()), x)
    {
      hide ObjQueue.Queue.Valid, Indexed, Weight, Tuner.Valid;
      EntriesHas(base.table, queue.objs, x);
      var obj := Find(x);
      removed := obj != null;
      if removed {
        Drop(obj);
      }
    }

    method Drop(obj: CacheObj)
      requires Valid() && obj in queue.objs
      modifies base, queue, SetOf(queue.objs)`prev, SetOf(queue.objs)`next
      ensures Valid() && Held() == Without(old(Held()), obj.objId)
    {
      hide ObjQueue.Queue.Valid, Tuner.Valid, CacheBase.Books, Entries, Without;
      ghost var objs := queue.objs;
      ghost var k :| 0 <= k < |objs| && objs[k] == obj;
      queue.Distinct();
      base.BooksPromote(objs, k);
      base.RemoveObjBase(obj, objs, k);
      Unlink(obj, k);
    }

    /** One request as the simulator drives it: get, and insert if that misses. */
    method Request(e: Entry) returns (hit: bool)
      requires Valid()
      modifies base, queue, SetOf(queue.objs)`prev, SetOf(queue.objs)`next, tuner, tuner.recentHits
      ensures Valid() && hit == Has(old(Held()), e.id) && Held() == ClimbGet(old(Held()), cacheSize, e)
      ensures tuner.history == old(tuner.history) + [hit] && tuner.recentHits == old(tuner.recentHits)
      ensures forall o | o in SetOf(queue.objs) && o !in old(SetOf(queue.objs)) :: fresh(o)
    {
      hide Valid;
      hit := Get(e.id);
      if !hit {
        var _ := Insert(e);
      }
    }
  }

  /** A whole trace through the cache, and the hits it gets. */
  method Simulate(cacheSize: nat, trace: seq<Entry>) returns (cache: ClimbCache, hits: seq<bool>)
    ensures cache.Valid() && cache.cacheSize == cacheSize && cache.Held() == ClimbRun(cacheSize, trace)
    ensures |hits| == |trace| && cache.tuner.history == hits
    ensures forall i | 0 <= i < |trace| :: hits[i] == Has(ClimbRun(cacheSize, trace[..i]), trace[i].id)
    ensures 4 <= cache.tuner.k <= 5001 && 1 <= cache.tuner.jump <= 5001
  {
    hide ClimbCache.Valid, ClimbGet;
    cache := new ClimbCache(cacheSize);
    hits := [];
    for i := 0 to |trace|
      invariant cache.Valid() && fresh(cache) && fresh(cache.queue) && fresh(cache.base) && fresh(cache.tuner) &&
                fresh(cache.tuner.recentHits)
      invariant forall o | o in SetOf(cache.queue.objs) :: fresh(o)
      invariant cache.cacheSize == cacheSize && cache.Held() == ClimbRun(cacheSize, trace[..i])
      invariant |hits| == i && cache.tuner.history == hits
      invariant forall j | 0 <= j < i :: hits[j] == Has(ClimbRun(cacheSize, trace[..j]), trace[j].id)
    {
      assert trace[..i + 1][..i] == trace[..i];
      var hit := cache.Request(trace[i]);
      hits := hits + [hit];
    }
    assert trace[..|trace|] == trace;
    InRange(cache);
  }

  lemma InRange(cache: ClimbCache)
    requires cache.Valid()
    ensures 4 <= cache.tuner.k <= 5001 && 1 <= cache.tuner.jump <= 5001
  {
    KnobsRange(cache.tuner.history);
  }
}
