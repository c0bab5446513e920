/** ARC built from four LRU caches (ARCv0.c). On unit-size objects it is ARC.c: both are proved
    against the same states. */
module ArcV0 {
  import opened NextUse
  import opened Lru
  import opened LruList
  import opened ArcSpec

  /** An LRU cache with room to spare just puts a new unit object in front. */
  lemma GetWithRoom(q: Queue, c: nat, e: Entry)
    requires Units(q) && |q| < c && e.size == 1 && !Has(q, e.id)
    ensures LruGet(q, c, 0, e) == [e] + q
  {
    UnitWeight(q);
  }

  class ArcV0Cache {
    const size: nat
    const t1: ListCache
    const b1: ListCache
    const t2: ListCache
    const b2: ListCache
    var p: real
    var inL1Ghost: bool
    var inL2Ghost: bool
    var vtimeLastReqInGhost: int
    var nReq: int

    ghost function Footprint(): set<object>
      reads t1.queue, b1.queue, t2.queue, b2.queue
    {
      t1.Footprint() + b1.Footprint() + t2.Footprint() + b2.Footprint()
    }

    /** The four caches share nothing. */
    ghost predicate Caches()
      reads t1.Footprint(), b1.Footprint(), t2.Footprint(), b2.Footprint()
    {
      && t1.Footprint() !! b1.Footprint() !! t2.Footprint() !! b2.Footprint()
      && this !in Footprint()
      && t1.Valid() && b1.Valid() && t2.Valid() && b2.Valid()
      && t1.cacheSize == b1.cacheSize == t2.cacheSize == b2.cacheSize == size
      && t1.base.objMdSize == b1.base.objMdSize == t2.base.objMdSize == b2.base.objMdSize == 0
    }

    ghost function Abs(): State
      reads this, t1.Footprint(), b1.Footprint(), t2.Footprint(), b2.Footprint()
    {
      State(t1.Held(), b1.Held(), t2.Held(), b2.Held(), p, inL1Ghost, inL2Ghost, vtimeLastReqInGhost, nReq)
    }

    /** Between requests the bounds hold, which keep the four caches from evicting on their own. */
    ghost predicate Valid()
      reads this, t1.Footprint(), b1.Footprint(), t2.Footprint(), b2.Footprint()
    {
      Caches() && UnitState(Abs()) && Wf(Abs(), Config(size, 0)) && Bounded(Abs(), size)
    }

    lemma Alive()
      ensures forall o | o in Footprint() :: allocated(o)
    {
      t1.Alive();
      b1.Alive();
      t2.Alive();
      b2.Alive();
    }

    static lemma StartsWell(size: nat)
      ensures UnitState(Init()) && Wf(Init(), Config(size, 0)) && Bounded(Init(), size)
    {
    }

    lemma NotMine()
      requires Caches()
      ensures this !in Footprint()
    {
    }

    constructor (size: nat)
      ensures Valid() && Abs() == Init() && this.size == size
      ensures forall o | o in Footprint() :: fresh(o)
    {
      hide ListCache.Valid, ListCache.Footprint, ListCache.Held, Valid;
      this.size := size;
      var l1 := new ListCache(size, 0);
      l1.Alive();
      var g1 := new ListCache(size, 0);
      g1.Alive();
      var l2 := new ListCache(size, 0);
      l2.Alive();
      var g2 := new ListCache(size, 0);
      g2.Alive();
      assert l1.Footprint() !! g1.Footprint() !! l2.Footprint() !! g2.Footprint();
      assert l1.Valid() && g1.Valid() && l2.Valid() && g2.Valid();
      assert l1.Held() == g1.Held() == l2.Held() == g2.Held() == [];
      t1, b1, t2, b2 := l1, g1, l2, g2;
      p, inL1Ghost, inL2Ghost, vtimeLastReqInGhost, nReq := 0.0, false, false, -1, 0;
      new;
      Started();
    }

    lemma Started()
      requires Caches() && Abs() == Init()
      ensures Valid()
    {
      StartsWell(size);
    }

    lemma Sizes()
      requires Caches() && UnitState(Abs())
      ensures t1.base.occupiedByte == |t1.Held()| == Weight(t1.Held(), 0)
      ensures b1.base.occupiedByte == |b1.Held()| == Weight(b1.Held(), 0)
      ensures t2.base.occupiedByte == |t2.Held()| == Weight(t2.Held(), 0)
      ensures b2.base.occupiedByte == |b2.Held()| == Weight(b2.Held(), 0)
      ensures Sized(Abs())
    {
      UnitWeights(Abs());
    }

    /** _ARCv0_replace */
    method Replace()
      requires Caches() && UnitState(Abs()) && ArcSpec.Lists(Abs())
      requires 0 < |t1.Held()| + |t2.Held()| <= size && |t1.Held()| + |b1.Held()| <= size
      requires |b1.Held()| + |b2.Held()| < size
      modifies Footprint()
      ensures forall o | o in Footprint() && o !in old(Footprint()) :: fresh(o)
      ensures Evictable(old(Abs()), Config(size, 0))
      ensures Caches() && Abs() == ArcSpec.Replace(old(Abs()), Config(size, 0))
    {
      hide LruGet, Lru.Has, Distinct, ArcSpec.Lists, ListCache.Valid, ListCache.Footprint, ListCache.Held;
      Alive();
      Sizes();
      var cond1 := t1.base.occupiedByte > 0;
      var cond2 := t1.base.occupiedByte as real > p;
      var cond3 := t1.base.occupiedByte as real == p && inL2Ghost;
      var cond4 := t2.base.occupiedByte == 0;
      if (cond1 && (cond2 || cond3)) || cond4 {
        T1ToB1();
      } else {
        T2ToB2();
      }
    }

    method T1ToB1()
      requires Caches() && UnitState(Abs()) && ArcSpec.Lists(Abs()) && t1.Held() != [] && |b1.Held()| < size
      modifies t1.Footprint(), b1.Footprint()
      ensures forall o | o in Footprint() && o !in old(Footprint()) :: fresh(o)
      ensures Caches() && Abs() == DemoteT1(old(Abs()))
    {
      hide LruGet, Lru.Has, Distinct, Weight, ArcSpec.Lists, ListCache.Valid, ListCache.Footprint, ListCache.Held;
      Alive();
      TailElsewhere(Abs());
      var obj := t1.ToEvict();
      var e := Entry(obj.objId, obj.objSize);
      GetWithRoom(b1.Held(), size, e);
      var hit := b1.Get(e);
      b1.Alive();
      t1.Evict();
    }

    method T2ToB2()
      requires Caches() && UnitState(Abs()) && ArcSpec.Lists(Abs()) && t2.Held() != [] && |b2.Held()| < size
      modifies t2.Footprint(), b2.Footprint()
      ensures forall o | o in Footprint() && o !in old(Footprint()) :: fresh(o)
      ensures Caches() && Abs() == DemoteT2(old(Abs()))
    {
      hide LruGet, Lru.Has, Distinct, Weight, ArcSpec.Lists, ListCache.Valid, ListCache.Footprint, ListCache.Held;
      Alive();
      TailElsewhere(Abs());
      var obj := t2.ToEvict();
      t2.Evict();
      var e := Entry(obj.objId, obj.objSize);
      GetWithRoom(b2.Held(), size, e);
      var hit := b2.Get(e);
    }

    /** The victim of either data list is not a ghost already. */
    lemma TailElsewhere(s: State)
      requires ArcSpec.Lists(s)
      ensures s.t1 != [] ==> !Has(s.b1, Last(s.t1).id)
      ensures s.t2 != [] ==> !Has(s.b2, Last(s.t2).id)
    {
      if s.t1 != [] {
        FrontIs(s.t1, 0);
      }
      if s.t2 != [] {
        FrontIs(s.t2, 0);
      }
    }

    /** The loop that makes B2 fit; it turns at most once. */
    method TrimB2(others: int)
      requires b2.Valid() && b2.base.objMdSize == 0 && Units(b2.Held())
      requires others + |b2.Held()| <= size * 2 && others < size * 2
      modifies b2.Footprint()
      ensures b2.Valid() && b2.Footprint() <= old(b2.Footprint())
      ensures b2.Held() == if others + |old(b2.Held())| < size * 2 then old(b2.Held()) else Front(old(b2.Held()))
    {
      hide ListCache.Valid, ListCache.Footprint, ListCache.Held;
      Alive();
      b2.UnitBytes();
      while others + b2.base.occupiedByte >= size * 2
        invariant b2.Valid() && b2.base.occupiedByte == |b2.Held()| && b2.Footprint() <= old(b2.Footprint())
        invariant b2.Held() == old(b2.Held())
                  || (others + |old(b2.Held())| == size * 2 && b2.Held() == Front(old(b2.Held())))
        decreases |b2.Held()|
      {
        b2.Evict();
        b2.UnitBytes();
      }
    }

    /** _ARCv0_evict_miss_on_all_queues */
    method EvictMissOnAllQueues()
      requires Caches() && UnitState(Abs()) && ArcSpec.Lists(Abs())
      requires |t1.Held()| + |t2.Held()| == size >= 1 && |t1.Held()| + |b1.Held()| <= size
      requires |t1.Held()| + |t2.Held()| + |b1.Held()| + |b2.Held()| <= 2 * size
      modifies Footprint()
      ensures forall o | o in Footprint() && o !in old(Footprint()) :: fresh(o)
      ensures Evictable(old(Abs()), Config(size, 0))
      ensures Caches() && Abs() == EvictMiss(old(Abs()), Config(size, 0), 1)
    {
      hide ArcSpec.Lists, ArcSpec.Replace, Weight, Distinct, Sized, ListCache.Valid, ListCache.Footprint,
        ListCache.Held;
      Alive();
      Sizes();
      ForgetKeeps(Abs(), Config(size, 0));
      UnitForget(Abs());
      var t1Size, b1Size := t1.base.occupiedByte, b1.base.occupiedByte;
      if t1Size + b1Size + 1 > size {
        if b1Size > 0 {
          b1.Evict();
          Replace();
        } else {
          t1.Evict();
        }
      } else {
        TrimB2(t1Size + b1Size + t2.base.occupiedByte);
        Replace();
      }
    }

    /** ARCv0_evict */
    method Evict()
      requires Caches() && UnitState(Abs()) && ArcSpec.Lists(Abs())
      requires |t1.Held()| + |t2.Held()| == size >= 1 && |t1.Held()| + |b1.Held()| <= size
      requires |t1.Held()| + |t2.Held()| + |b1.Held()| + |b2.Held()| <= 2 * size
      requires GhostHit(Abs()) ==> |b1.Held()| + |b2.Held()| < size
      modifies Footprint()
      ensures forall o | o in Footprint() && o !in old(Footprint()) :: fresh(o)
      ensures Evictable(old(Abs()), Config(size, 0))
      ensures Caches() && Abs() == ArcSpec.Evict(old(Abs()), Config(size, 0), 1)
    {
      hide ListCache.Valid, ListCache.Footprint, ListCache.Held;
      Alive();
      if vtimeLastReqInGhost == nReq && (inL1Ghost || inL2Ghost) {
        Replace();
      } else {
        EvictMissOnAllQueues();
      }
    }

    /** A ghost hit moves the target and forgets the ghost. */
    method FindGhost(x: ObjId, objB1: bool)
      requires Caches() && UnitState(Abs()) && !inL1Ghost && !inL2Ghost
      requires objB1 == Has(b1.Held(), x) && (!objB1 ==> Has(b2.Held(), x))
      modifies this, Footprint()
      ensures forall o | o in Footprint() && o !in old(Footprint()) :: fresh(o)
      ensures Caches()
      ensures 0 < Weight(if objB1 then old(b1.Held()) else old(b2.Held()), 0)
      ensures objB1 ==> Abs() == GhostHitB1(old(Abs()), Config(size, 0), x)
      ensures !objB1 ==> Abs() == GhostHitB2(old(Abs()), Config(size, 0), x)
    {
      hide Without, Delta, Min, Max, UnitState, Lru.Has, Weight, Distinct, SizedQueue, ListCache.Valid,
        ListCache.Footprint, ListCache.Held;
      Alive();
      Sizes();
      var b1Size, b2Size := b1.base.occupiedByte, b2.base.occupiedByte;
      vtimeLastReqInGhost := nReq;
      if objB1 {
        inL1Ghost := true;
        HasWeight(b1.Held(), 0, x);
        var delta := Delta(b2Size, b1Size);
        p := Min(p + delta, size as real);
        var removed := b1.Remove(x);
      } else {
        inL2Ghost := true;
        HasWeight(b2.Held(), 0, x);
        var delta := Delta(b1Size, b2Size);
        p := Max(p - delta, 0.0);
        var removed := b2.Remove(x);
      }
    }

    /** A hit in T1 moves to T2, which has room because T1 gives it up first. */
    method FindT1(e: Entry)
      requires Caches() && UnitState(Abs()) && e.size == 1 && Has(t1.Held(), e.id) && !Has(t2.Held(), e.id)
      requires |t1.Held()| + |t2.Held()| <= size
      modifies Footprint()
      ensures forall o | o in Footprint() && o !in old(Footprint()) :: fresh(o)
      ensures Caches()
      ensures Abs() == old(Abs()).(t1 := Without(old(t1.Held()), e.id),
                                   t2 := [Lookup(old(t1.Held()), e.id)] + old(t2.Held()))
    {
      hide LruGet, Without, UnitState, ListCache.Valid, ListCache.Footprint, ListCache.Held;
      Alive();
      UnitLists(Abs());
      UnitWithout(t1.Held(), e.id);
      UnitLookup(t1.Held(), e.id);
      var removed := t1.Remove(e.id);
      GetWithRoom(t2.Held(), size, e);
      var _ := t2.Get(e);
    }

    lemma UnitLists(s: State)
      requires UnitState(s)
      ensures Units(s.t1) && Units(s.t2)
    {
    }

    /** The four lookups of ARCv0_find, which change nothing. */
    method LookUp(x: ObjId) returns (objT1: bool, objT2: bool, objB1: bool, objB2: bool)
      requires Caches()
      modifies Footprint()
      ensures Footprint() == old(Footprint()) && Caches() && Abs() == old(Abs())
      ensures objT1 == Has(t1.Held(), x) && objT2 == Has(t2.Held(), x)
      ensures objB1 == Has(b1.Held(), x) && objB2 == Has(b2.Held(), x)
    {
      hide Lru.Has, ListCache.Valid, ListCache.Footprint, ListCache.Held;
      Alive();
      var found := t1.Find(x, false);
      objT1 := found != null;
      found := t2.Find(x, false);
      objT2 := found != null;
      found := b1.Find(x, false);
      objB1 := found != null;
      found := b2.Find(x, false);
      objB2 := found != null;
    }

    /** ARCv0_find with `update_cache` set. */
    method Find(e: Entry) returns (hit: bool)
      requires Caches() && UnitState(Abs()) && ArcSpec.Lists(Abs()) && e.size == 1
      requires |t1.Held()| + |t2.Held()| <= size
      modifies this, Footprint()
      ensures forall o | o in Footprint() && o !in old(Footprint()) :: fresh(o)
      ensures Sized(old(Abs()))
      ensures Caches() && Abs() == ArcSpec.Find(old(Abs()), Config(size, 0), e.id) && hit == Hit(old(Abs()), e.id)
    {
      hide ArcSpec.Lists, Without, Promote, Delta, Lru.Has, UnitState, Weight, SizedQueue, Caches,
        ListCache.Footprint, ListCache.Held;
      ListsSized(Abs());
      DataHas(Abs(), e.id);
      OneList(Abs(), e.id);
      NotMine();
      var objT1, objT2, objB1, objB2 := LookUp(e.id);
      hit := objT1 || objT2;
      if !hit && !objB1 && !objB2 {
        return;
      }
      NotMine();
      inL1Ghost, inL2Ghost := false, false;
      UnitFlags(old(Abs()), Abs());
      if objB1 || objB2 {
        FindGhost(e.id, objB1);
      } else if objT1 {
        FindT1(e);
      } else {
        FindT2(e);
      }
    }

    /** A hit in T2 moves to its front. */
    method FindT2(e: Entry)
      requires Caches() && Has(t2.Held(), e.id)
      modifies Footprint()
      ensures Footprint() == old(Footprint()) && Caches()
      ensures Abs() == old(Abs()).(t2 := Promote(old(t2.Held()), e.id))
    {
      hide Promote, Lru.Has, ListCache.Valid, ListCache.Footprint, ListCache.Held;
      Alive();
      var _ := t2.Find(e.id, true);
    }

    lemma UnitFlags(s: State, g: State)
      requires UnitState(s) && s.t1 == g.t1 && s.t2 == g.t2 && s.b1 == g.b1 && s.b2 == g.b2
      ensures UnitState(g)
    {
    }

    lemma OneList(s: State, x: ObjId)
      requires ArcSpec.Lists(s)
      ensures Has(s.t1, x) ==> !Has(s.t2, x) && !Has(s.b1, x) && !Has(s.b2, x)
      ensures Has(s.t2, x) ==> !Has(s.b1, x) && !Has(s.b2, x)
    {
      assert x in Ids(s.t1) <==> Has(s.t1, x);
      assert x in Ids(s.t2) <==> Has(s.t2, x);
      assert x in Ids(s.b1) <==> Has(s.b1, x);
      assert x in Ids(s.b2) <==> Has(s.b2, x);
    }

    lemma UnitLookup(q: Queue, x: ObjId)
      requires Units(q) && Has(q, x)
      ensures Lookup(q, x) == Entry(x, 1)
    {
    }

    /** ARCv0_insert */
    method Insert(e: Entry)
      requires Caches() && !Has(t1.Held(), e.id) && !Has(t2.Held(), e.id)
      modifies this, Footprint()
      ensures forall o | o in Footprint() && o !in old(Footprint()) :: fresh(o)
      ensures Caches() && Abs() == ArcSpec.Insert(old(Abs()), e)
    {
      hide ListCache.Valid, ListCache.Footprint, ListCache.Held;
      Alive();
      if vtimeLastReqInGhost == nReq && (inL1Ghost || inL2Ghost) {
        var _ := t2.Insert(e);
        inL1Ghost, inL2Ghost, vtimeLastReqInGhost := false, false, -1;
      } else {
        var _ := t1.Insert(e);
      }
    }

    /** The eviction loop of cache_get_base; it turns at most once. */
    method MakeRoom()
      requires Caches() && UnitState(Abs()) && ArcSpec.Lists(Abs()) && 1 <= size && Ready(Abs(), size)
      modifies Footprint()
      ensures forall o | o in Footprint() && o !in old(Footprint()) :: fresh(o)
      ensures Sized(old(Abs()))
      ensures Caches() && Abs() == ArcSpec.MakeRoom(old(Abs()), Config(size, 0), 1)
    {
      hide ArcSpec.Lists, UnitState, ArcSpec.Evict, Weight, Distinct, GhostHit, Sized, ArcSpec.MakeRoom,
        ListCache.Valid, ListCache.Footprint, ListCache.Held;
      Alive();
      UnitMakeRoom(Abs(), size);
      Sizes();
      while t1.base.occupiedByte + t2.base.occupiedByte + 1 > size
        invariant Caches() && UnitState(Abs())
        invariant forall o | o in Footprint() && o !in old(Footprint()) :: fresh(o)
        invariant Abs() == old(Abs())
                  || (|t1.Held()| + |t2.Held()| < size && Abs() == ArcSpec.MakeRoom(old(Abs()), Config(size, 0), 1))
        decreases |t1.Held()| + |t2.Held()|
      {
        Sizes();
        Evict();
      }
      Sizes();
    }

    /** cache_get_base */
    method Get(x: ObjId) returns (hit: bool)
      requires Valid() && 0 <= nReq
      modifies this, Footprint()
      ensures forall o | o in Footprint() && o !in old(Footprint()) :: fresh(o)
      ensures Valid() && nReq == old(nReq) + 1 && Sized(old(Abs()))
      ensures hit == Hit(old(Abs()), x) && Abs() == ArcSpec.Get(old(Abs()), Config(size, 0), Entry(x, 1))
    {
      hide Caches, UnitState, ArcSpec.Lists, Sized, ArcSpec.Find, ArcSpec.Insert, ArcSpec.MakeRoom, Data, Ghosts,
        ListCache.Valid, ListCache.Footprint, ListCache.Held;
      Alive();
      ghost var conf, e := Config(size, 0), Entry(x, 1);
      ListsSized(Abs());
      ArcSpec.GetKeeps(Abs(), conf, e);
      GetBounded(Abs(), size, x);
      ghost var s0 := Abs().(now := nReq + 1);
      SameLists(Abs(), s0);
      SameData(Abs(), s0, conf);
      UnitFlags(Abs(), s0);
      FindReady(s0, size, x);
      FindSized(s0, conf, x);
      NotMine();
      nReq := nReq + 1;
      hit := Find(Entry(x, 1));
      if !hit && 1 <= size {
        ghost var s1 := Abs();
        Alive();
        MakeRoom();
        MakeRoomKeeps(s1, conf, 1);
        DataHas(Abs(), x);
        Insert(Entry(x, 1));
      }
    }
  }
}
