/** The ARC cache (ARC.c) on four linked lists and one hash table. */
module Arc {
  import opened NextUse
  import opened Lru
  import opened ObjQueue
  import opened ArcFiling
  import opened ArcSpec

  lemma AtStart(c: Config)
    ensures Filed(map[], [[], [], [], []]) && Wf(ArcSpec.Init(), c)
    ensures Snap([]) == [] && Weight([], c.md) == 0
  {
  }

  class ArcCache {
    const conf: Config
    const t1: ObjQueue.Queue
    const b1: ObjQueue.Queue
    const t2: ObjQueue.Queue
    const b2: ObjQueue.Queue
    var l1DataSize: int
    var l1GhostSize: int
    var l2DataSize: int
    var l2GhostSize: int
    var p: real
    var inL1Ghost: bool
    var inL2Ghost: bool
    var vtimeLastReqInGhost: int
    var nReq: int
    var occupiedByte: int
    var nObj: int
    var table: map<ObjId, CacheObj>

    ghost function Ls(): ArcFiling.Lists
      reads t1, b1, t2, b2
    {
      [t1.objs, b1.objs, t2.objs, b2.objs]
    }

    ghost function Objs(): set<CacheObj>
      reads t1, b1, t2, b2
    {
      SetOf(t1.objs) + SetOf(b1.objs) + SetOf(t2.objs) + SetOf(b2.objs)
    }

    /** Four intact chains. */
    ghost predicate Chains()
      reads t1, b1, t2, b2, Objs()`prev, Objs()`next
    {
      && t1 != b1 && t1 != t2 && t1 != b2 && b1 != t2 && b1 != b2 && t2 != b2
      && t1.Valid() && b1.Valid() && t2.Valid() && b2.Valid()
    }

    /** Every object knows its list. */
    ghost predicate Tagged()
      reads t1, b1, t2, b2, Objs()`lruId, Objs()`isGhost
    {
      && (forall o | o in SetOf(t1.objs) :: o.lruId == 1 && !o.isGhost)
      && (forall o | o in SetOf(b1.objs) :: o.lruId == 1 && o.isGhost)
      && (forall o | o in SetOf(t2.objs) :: o.lruId == 2 && !o.isGhost)
      && (forall o | o in SetOf(b2.objs) :: o.lruId == 2 && o.isGhost)
    }

    ghost predicate Counted()
      reads `l1DataSize, `l1GhostSize, `l2DataSize, `l2GhostSize, `occupiedByte, `nObj, t1, b1, t2, b2
    {
      && l1DataSize == Weight(Snap(t1.objs), conf.md) && l1GhostSize == Weight(Snap(b1.objs), conf.md)
      && l2DataSize == Weight(Snap(t2.objs), conf.md) && l2GhostSize == Weight(Snap(b2.objs), conf.md)
      && occupiedByte == l1DataSize + l2DataSize && nObj == |t1.objs| + |t2.objs|
    }

    ghost predicate Valid()
      reads this, t1, b1, t2, b2, Objs()
    {
      Chains() && Tagged() && Counted() && Filed(table, Ls()) && Wf(Abs(), conf)
    }

    ghost function Abs(): State
      reads this, t1, b1, t2, b2
    {
      State(Snap(t1.objs), Snap(b1.objs), Snap(t2.objs), Snap(b2.objs), p,
            inL1Ghost, inL2Ghost, vtimeLastReqInGhost, nReq)
    }

    /** All of `Valid` but for the bounds, which hold only between requests. */
    ghost predicate Sound()
      reads this, t1, b1, t2, b2, Objs()
    {
      Chains() && Tagged() && Counted() && Filed(table, Ls())
    }

    lemma Apart()
      requires Filed(table, Ls())
      ensures SetOf(t1.objs) !! SetOf(b1.objs) !! SetOf(t2.objs) !! SetOf(b2.objs)
      ensures forall o | o in SetOf(t1.objs) :: allocated(o)
      ensures forall o | o in SetOf(b1.objs) :: allocated(o)
      ensures forall o | o in SetOf(t2.objs) :: allocated(o)
      ensures forall o | o in SetOf(b2.objs) :: allocated(o)
    {
      var ls := Ls();
      assert ls[0] == t1.objs && ls[1] == b1.objs && ls[2] == t2.objs && ls[3] == b2.objs;
      assert SetOf(ls[0]) !! SetOf(ls[1]);
      assert SetOf(ls[0]) !! SetOf(ls[2]);
      assert SetOf(ls[0]) !! SetOf(ls[3]);
      assert SetOf(ls[1]) !! SetOf(ls[2]);
      assert SetOf(ls[1]) !! SetOf(ls[3]);
      assert SetOf(ls[2]) !! SetOf(ls[3]);
    }

    constructor (size: nat, md: nat)
      ensures Valid() && Abs() == Init() && conf == Config(size, md)
      ensures fresh(t1) && fresh(b1) && fresh(t2) && fresh(b2) && Objs() == {}
    {
      conf := Config(size, md);
      t1 := new ObjQueue.Queue();
      b1 := new ObjQueue.Queue();
      t2 := new ObjQueue.Queue();
      b2 := new ObjQueue.Queue();
      l1DataSize, l1GhostSize, l2DataSize, l2GhostSize := 0, 0, 0, 0;
      p, inL1Ghost, inL2Ghost, vtimeLastReqInGhost := 0.0, false, false, -1;
      nReq, occupiedByte, nObj, table := 0, 0, 0, map[];
      new;
      hide ObjQueue.Queue.Valid, Filed, Snap, Wf, Weight;
      AtStart(conf);
      assert Ls() == [[], [], [], []];
    }

    /** The linking part of an L1 eviction. */
    method DemoteL1(obj: CacheObj, ghost k: nat)
      requires Chains() && Tagged() && Filed(table, Ls()) && k < |t1.objs| && t1.objs[k] == obj
      modifies t1, b1, Objs()
      ensures Chains() && Tagged() && Filed(table, Ls())
      ensures t1.objs == RemoveAt(old(t1.objs), k) && b1.objs == [obj] + old(b1.objs)
      ensures Objs() == old(Objs())
    {
      hide ObjQueue.Queue.Valid, Filed, RemoveAt, SetOf;
      Apart();
      Refile(table, Ls(), 0, k, 1);
      Transfer(t1, b1, obj, k);
      obj.isGhost := true;
      assert Ls() == old(Ls())[0 := t1.objs][1 := b1.objs];
    }

    /** The linking part of an L2 eviction. */
    method DemoteL2(obj: CacheObj, ghost k: nat)
      requires Chains() && Tagged() && Filed(table, Ls()) && k < |t2.objs| && t2.objs[k] == obj
      modifies t2, b2, Objs()
      ensures Chains() && Tagged() && Filed(table, Ls())
      ensures t2.objs == RemoveAt(old(t2.objs), k) && b2.objs == [obj] + old(b2.objs)
      ensures Objs() == old(Objs())
    {
      hide ObjQueue.Queue.Valid, Filed, RemoveAt, SetOf;
      Apart();
      Refile(table, Ls(), 2, k, 3);
      Transfer(t2, b2, obj, k);
      obj.isGhost := true;
      assert Ls() == old(Ls())[2 := t2.objs][3 := b2.objs];
    }

    /** The linking part of forgetting an object of T1. */
    method ForgetT1(obj: CacheObj, ghost k: nat)
      requires Chains() && Tagged() && Filed(table, Ls()) && k < |t1.objs| && t1.objs[k] == obj
      modifies `table, t1, Objs()
      ensures Chains() && Tagged() && Filed(table, Ls())
      ensures t1.objs == RemoveAt(old(t1.objs), k) && Objs() <= old(Objs())
    {
      hide ObjQueue.Queue.Valid, Filed, RemoveAt, SetOf;
      Apart();
      Unfile(table, Ls(), 0, k);
      Take(t1, obj, k);
      table := table - {obj.objId};
      assert Ls() == old(Ls())[0 := t1.objs];
    }

    /** The linking part of forgetting an object of B1. */
    method ForgetB1(obj: CacheObj, ghost k: nat)
      requires Chains() && Tagged() && Filed(table, Ls()) && k < |b1.objs| && b1.objs[k] == obj
      modifies `table, b1, Objs()
      ensures Chains() && Tagged() && Filed(table, Ls())
      ensures b1.objs == RemoveAt(old(b1.objs), k) && Objs() <= old(Objs())
    {
      hide ObjQueue.Queue.Valid, Filed, RemoveAt, SetOf;
      Apart();
      Unfile(table, Ls(), 1, k);
      Take(b1, obj, k);
      table := table - {obj.objId};
      assert Ls() == old(Ls())[1 := b1.objs];
    }

    /** The linking part of forgetting an object of B2. */
    method ForgetB2(obj: CacheObj, ghost k: nat)
      requires Chains() && Tagged() && Filed(table, Ls()) && k < |b2.objs| && b2.objs[k] == obj
      modifies `table, b2, Objs()
      ensures Chains() && Tagged() && Filed(table, Ls())
      ensures b2.objs == RemoveAt(old(b2.objs), k) && Objs() <= old(Objs())
    {
      hide ObjQueue.Queue.Valid, Filed, RemoveAt, SetOf;
      Apart();
      Unfile(table, Ls(), 3, k);
      Take(b2, obj, k);
      table := table - {obj.objId};
      assert Ls() == old(Ls())[3 := b2.objs];
    }

    /** The linking part of moving an object from T1 to the front of T2. */
    method PromoteL1(obj: CacheObj, ghost k: nat)
      requires Chains() && Tagged() && Filed(table, Ls()) && k < |t1.objs| && t1.objs[k] == obj
      modifies t1, t2, Objs()
      ensures Chains() && Tagged() && Filed(table, Ls())
      ensures t1.objs == RemoveAt(old(t1.objs), k) && t2.objs == [obj] + old(t2.objs)
      ensures Objs() == old(Objs())
    {
      hide ObjQueue.Queue.Valid, Filed, RemoveAt, SetOf;
      Apart();
      Refile(table, Ls(), 0, k, 2);
      Member(t1.objs, k);
      obj.lruId := 2;
      Transfer(t1, t2, obj, k);
      assert Ls() == old(Ls())[0 := t1.objs][2 := t2.objs];
    }

    /** _ARC_evict_L1_data: the oldest of T1 becomes the newest of B1. */
    method EvictL1Data()
      requires Sound() && t1.objs != []
      modifies this, t1, b1, Objs()
      ensures Sound() && Abs() == DemoteT1(old(Abs())) && Objs() == old(Objs())
      ensures table == old(table)
    {
      hide ObjQueue.Queue.Valid, Filed, Snap, RemoveAt, Weight, SetOf, Tagged;
      var obj := t1.tail;
      ghost var k := |t1.objs| - 1;
      t1.Ends();
      MoveWeight(t1.objs, b1.objs);
      var w := obj.objSize + conf.md;
      l1DataSize := l1DataSize - w;
      l1GhostSize := l1GhostSize + w;
      DemoteL1(obj, k);
      occupiedByte := occupiedByte - w;
      nObj := nObj - 1;
    }

    /** _ARC_evict_L2_data: the oldest of T2 becomes the newest of B2. */
    method EvictL2Data()
      requires Sound() && t2.objs != []
      modifies this, t2, b2, Objs()
      ensures Sound() && Abs() == DemoteT2(old(Abs())) && Objs() == old(Objs())
      ensures table == old(table)
    {
      hide ObjQueue.Queue.Valid, Filed, Snap, RemoveAt, Weight, SetOf, Tagged;
      var obj := t2.tail;
      ghost var k := |t2.objs| - 1;
      t2.Ends();
      MoveWeight(t2.objs, b2.objs);
      var w := obj.objSize + conf.md;
      l2DataSize := l2DataSize - w;
      l2GhostSize := l2GhostSize + w;
      DemoteL2(obj, k);
      occupiedByte := occupiedByte - w;
      nObj := nObj - 1;
    }

    /** _ARC_evict_L1_data_no_ghost */
    method EvictL1DataNoGhost()
      requires Sound() && t1.objs != []
      modifies this, t1, Objs()
      ensures Sound() && Abs() == old(Abs()).(t1 := Front(old(Abs()).t1)) && Objs() <= old(Objs())
    {
      hide ObjQueue.Queue.Valid, Filed, Snap, RemoveAt, Weight, SetOf, Tagged;
      var obj := t1.tail;
      ghost var k := |t1.objs| - 1;
      t1.Ends();
      MoveWeight(t1.objs, []);
      var w := obj.objSize + conf.md;
      l1DataSize := l1DataSize - w;
      occupiedByte := occupiedByte - w;
      nObj := nObj - 1;
      ForgetT1(obj, k);
    }

    /** _ARC_evict_L1_ghost */
    method EvictL1Ghost()
      requires Sound() && b1.objs != []
      modifies this, b1, Objs()
      ensures Sound() && Abs() == old(Abs()).(b1 := Front(old(Abs()).b1)) && Objs() <= old(Objs())
    {
      hide ObjQueue.Queue.Valid, Filed, Snap, RemoveAt, Weight, SetOf, Tagged;
      var obj := b1.tail;
      ghost var k := |b1.objs| - 1;
      b1.Ends();
      MoveWeight(b1.objs, []);
      var w := obj.objSize + conf.md;
      l1GhostSize := l1GhostSize - w;
      ForgetB1(obj, k);
    }

    /** _ARC_evict_L2_ghost */
    method EvictL2Ghost()
      requires Sound() && b2.objs != []
      modifies this, b2, Objs()
      ensures Sound() && Abs() == old(Abs()).(b2 := Front(old(Abs()).b2)) && Objs() <= old(Objs())
    {
      hide ObjQueue.Queue.Valid, Filed, Snap, RemoveAt, Weight, SetOf, Tagged;
      var obj := b2.tail;
      ghost var k := |b2.objs| - 1;
      b2.Ends();
      MoveWeight(b2.objs, []);
      var w := obj.objSize + conf.md;
      l2GhostSize := l2GhostSize - w;
      ForgetB2(obj, k);
    }

    /** What moving the oldest of one list to the front of another does to the entries. */
    lemma MoveWeight(from: seq<CacheObj>, to: seq<CacheObj>)
      requires from != []
      ensures var o, rest := from[|from| - 1], RemoveAt(from, |from| - 1);
              && Snap(rest) == Front(Snap(from)) && Snap([o] + to) == [Last(Snap(from))] + Snap(to)
              && Weight(Snap(rest), conf.md) == Weight(Snap(from), conf.md) - o.objSize - conf.md
              && Weight(Snap([o] + to), conf.md) == Weight(Snap(to), conf.md) + o.objSize + conf.md
    {
      SnapOps(from, |from| - 1, from[|from| - 1]);
      SnapOps(to, 0, from[|from| - 1]);
      assert Snap(RemoveAt(from, |from| - 1)) == Front(Snap(from));
      WeightConcat([Last(Snap(from))], Snap(to), conf.md);
    }

    /** Whether _ARC_replace and _ARC_to_replace choose L1. */
    method ChooseL1() returns (fromL1: bool)
      requires Sound()
      ensures fromL1 == FromT1(Abs(), conf)
    {
      var cond1 := l1DataSize > 0;
      var cond2 := l1DataSize as real > p;
      var cond3 := l1DataSize as real == p && inL2Ghost;
      var cond4 := l2DataSize == 0;
      fromL1 := (cond1 && (cond2 || cond3)) || cond4;
    }

    lemma NonEmpty()
      requires Sound()
      ensures l1DataSize > 0 ==> t1.objs != []
      ensures l2DataSize != 0 ==> t2.objs != []
      ensures l1GhostSize > 0 ==> b1.objs != []
      ensures l2GhostSize > 0 ==> b2.objs != []
    {
    }

    /** _ARC_replace */
    method Replace()
      requires Sound() && Evictable(Abs(), conf)
      modifies this, t1, b1, t2, b2, Objs()
      ensures Sound() && Abs() == ArcSpec.Replace(old(Abs()), conf) && Objs() == old(Objs())
    {
      hide Chains, Tagged, Filed, Sized;
      NonEmpty();
      var fromL1 := ChooseL1();
      if fromL1 {
        EvictL1Data();
      } else {
        EvictL2Data();
      }
    }

    /** _ARC_evict_miss_on_all_queues */
    method EvictMissOnAllQueues(incomingSize: nat)
      requires Sound() && Evictable(Abs(), conf) && incomingSize <= conf.size
      modifies this, t1, b1, t2, b2, Objs()
      ensures Sound() && Abs() == EvictMiss(old(Abs()), conf, incomingSize) && Objs() <= old(Objs())
    {
      hide Chains, Tagged, Filed, Sized, Weight, Snap, FromT1, ArcSpec.Replace, SetOf;
      NonEmpty();
      ForgetSized(Abs());
      if l1DataSize + l1GhostSize + incomingSize > conf.size {
        if l1GhostSize > 0 {
          EvictL1Ghost();
          Replace();
        } else {
          EvictL1DataNoGhost();
        }
      } else {
        if l1DataSize + l1GhostSize + l2DataSize + l2GhostSize >= conf.size * 2 {
          if l2GhostSize > 0 {
            EvictL2Ghost();
          }
        }
        Replace();
      }
    }

    /** ARC_evict */
    method Evict(incomingSize: nat)
      requires Sound() && Evictable(Abs(), conf) && incomingSize <= conf.size
      modifies this, t1, b1, t2, b2, Objs()
      ensures Sound() && Abs() == ArcSpec.Evict(old(Abs()), conf, incomingSize) && Objs() <= old(Objs())
    {
      hide Sound, Evictable, ArcSpec.Replace, EvictMiss;
      if vtimeLastReqInGhost == nReq && (inL1Ghost || inL2Ghost) {
        Replace();
      } else {
        EvictMissOnAllQueues(incomingSize);
      }
    }

    /** _ARC_to_replace */
    method ToReplace() returns (obj: CacheObj)
      requires Sound() && Evictable(Abs(), conf)
      ensures var s := Abs(); Entry(obj.objId, obj.objSize) == if FromT1(s, conf) then Last(s.t1) else Last(s.t2)
    {
      hide Tagged, Filed, Sized, ObjQueue.Queue.Valid;
      NonEmpty();
      t1.Ends();
      t2.Ends();
      var fromL1 := ChooseL1();
      if fromL1 {
        obj := t1.tail;
      } else {
        obj := t2.tail;
      }
    }

    /** ARC_to_evict: the object the next `Evict` takes, with nothing changed. */
    method ToEvict(incomingSize: nat) returns (obj: CacheObj)
      requires Sound() && Evictable(Abs(), conf) && incomingSize <= conf.size
      ensures Entry(obj.objId, obj.objSize) == Victim(Abs(), conf, incomingSize)
    {
      hide Tagged, Filed, Sized, ObjQueue.Queue.Valid;
      NonEmpty();
      t1.Ends();
      if vtimeLastReqInGhost == nReq && (inL1Ghost || inL2Ghost) {
        obj := ToReplace();
      } else if l1DataSize + l1GhostSize + incomingSize > conf.size {
        if l1GhostSize > 0 {
          obj := ToReplace();
        } else {
          obj := t1.tail;
        }
      } else {
        obj := ToReplace();
      }
    }

    /** Where the hash table says an object is, there it is. */
    lemma Where(x: ObjId)
      requires Sound()
      ensures x !in table ==> !Has(Abs().t1, x) && !Has(Abs().b1, x) && !Has(Abs().t2, x) && !Has(Abs().b2, x)
      ensures x in table ==> table[x].objId == x
      ensures x in table && table[x].lruId == 1 && !table[x].isGhost ==> In(t1.objs, x)
      ensures x in table && table[x].lruId == 1 && table[x].isGhost ==>
                In(b1.objs, x) && !Has(Abs().t1, x) && !Has(Abs().t2, x)
      ensures x in table && table[x].lruId != 1 && !table[x].isGhost ==> In(t2.objs, x) && !Has(Abs().t1, x)
      ensures x in table && table[x].lruId != 1 && table[x].isGhost ==>
                In(b2.objs, x) && !Has(Abs().b1, x) && !Has(Abs().t1, x) && !Has(Abs().t2, x)
      ensures x in table && !table[x].isGhost ==> !Has(Abs().b1, x) && !Has(Abs().b2, x)
      ensures x in table ==> Has(Abs().t1, x) || Has(Abs().b1, x) || Has(Abs().t2, x) || Has(Abs().b2, x)
    {
      hide Snap, Chains, Counted;
      var ls := Ls();
      Located(table, ls, 0, x);
      Located(table, ls, 1, x);
      Located(table, ls, 2, x);
      Located(table, ls, 3, x);
      Apart();
      if x in table {
        assert Somewhere(table[x], ls);
        var i :| 0 <= i < |ls| && table[x] in ls[i];
        assert table[x] in SetOf(ls[i]);
      }
    }

    ghost predicate In(objs: seq<CacheObj>, x: ObjId)
      reads `table
    {
      x in table && Has(Snap(objs), x) && objs[IndexOf(Snap(objs), x)] == table[x]
    }

    /** What taking object `k` out of a list does to the entries. */
    lemma TakeWeight(from: seq<CacheObj>, x: ObjId)
      requires Has(Snap(from), x)
      ensures var k := IndexOf(Snap(from), x);
              && Snap(RemoveAt(from, k)) == Without(Snap(from), x)
              && Lookup(Snap(from), x) == Entry(from[k].objId, from[k].objSize)
              && Weight(Snap(RemoveAt(from, k)), conf.md) == Weight(Snap(from), conf.md) - from[k].objSize - conf.md
    {
      var k := IndexOf(Snap(from), x);
      SnapOps(from, k, from[k]);
      WeightSplit(Snap(from), k, conf.md);
    }

    /** Case II: found in B1. */
    method HitL1Ghost(obj: CacheObj)
      requires Sound() && In(b1.objs, obj.objId) && table[obj.objId] == obj && Sized(Abs())
      modifies this, b1, Objs()
      ensures Has(old(Abs()).b1, obj.objId) && 0 < Weight(old(Abs()).b1, conf.md)
      ensures Sound() && Abs() == GhostHitB1(old(Abs()), conf, obj.objId) && Objs() <= old(Objs())
    {
      hide ObjQueue.Queue.Valid, Filed, Snap, RemoveAt, Weight, SetOf, Without, SizedQueue, Lookup, Has, Tagged,
        Delta, Min, Max;
      ghost var k := IndexOf(Snap(b1.objs), obj.objId);
      HasWeight(Abs().b1, conf.md, obj.objId);
      vtimeLastReqInGhost := nReq;
      inL1Ghost, inL2Ghost := true, false;
      var delta := Delta(l2GhostSize, l1GhostSize);
      p := Min(p + delta, conf.size as real);
      TakeWeight(b1.objs, obj.objId);
      l1GhostSize := l1GhostSize - (obj.objSize + conf.md);
      ForgetB1(obj, k);
    }

    /** Case III: found in B2. */
    method HitL2Ghost(obj: CacheObj)
      requires Sound() && In(b2.objs, obj.objId) && table[obj.objId] == obj && Sized(Abs())
      modifies this, b2, Objs()
      ensures Has(old(Abs()).b2, obj.objId) && 0 < Weight(old(Abs()).b2, conf.md)
      ensures Sound() && Abs() == GhostHitB2(old(Abs()), conf, obj.objId) && Objs() <= old(Objs())
    {
      hide ObjQueue.Queue.Valid, Filed, Snap, RemoveAt, Weight, SetOf, Without, SizedQueue, Lookup, Has, Tagged,
        Delta, Min, Max;
      ghost var k := IndexOf(Snap(b2.objs), obj.objId);
      HasWeight(Abs().b2, conf.md, obj.objId);
      vtimeLastReqInGhost := nReq;
      inL1Ghost, inL2Ghost := false, true;
      var delta := Delta(l1GhostSize, l2GhostSize);
      p := Max(p - delta, 0.0);
      TakeWeight(b2.objs, obj.objId);
      l2GhostSize := l2GhostSize - (obj.objSize + conf.md);
      ForgetB2(obj, k);
    }

    /** Case I, found in T1: it moves to the front of T2. */
    method HitL1Data(obj: CacheObj)
      requires Sound() && In(t1.objs, obj.objId) && table[obj.objId] == obj
      modifies this, t1, t2, Objs()
      ensures Has(old(Abs()).t1, obj.objId) && Sound() && Objs() == old(Objs())
      ensures var s, x := old(Abs()), obj.objId;
              Abs() == s.(t1 := Without(s.t1, x), t2 := [Lookup(s.t1, x)] + s.t2)
    {
      hide ObjQueue.Queue.Valid, Filed, Snap, RemoveAt, Weight, SetOf, Without, Lookup, Has, Tagged;
      ghost var k := IndexOf(Snap(t1.objs), obj.objId);
      TakeWeight(t1.objs, obj.objId);
      PutWeight(t2.objs, obj);
      PromoteL1(obj, k);
      l1DataSize := l1DataSize - (obj.objSize + conf.md);
      l2DataSize := l2DataSize + (obj.objSize + conf.md);
    }

    lemma PutWeight(to: seq<CacheObj>, o: CacheObj)
      ensures Snap([o] + to) == [Entry(o.objId, o.objSize)] + Snap(to)
      ensures Weight(Snap([o] + to), conf.md) == Weight(Snap(to), conf.md) + o.objSize + conf.md
    {
      SnapOps(to, 0, o);
      WeightConcat([Entry(o.objId, o.objSize)], Snap(to), conf.md);
      WeightSplit([Entry(o.objId, o.objSize)], 0, conf.md);
    }

    /** Case I, found in T2: it moves to the front. */
    method HitL2Data(obj: CacheObj)
      requires Sound() && In(t2.objs, obj.objId) && table[obj.objId] == obj
      modifies t2, Objs()
      ensures Has(old(Abs()).t2, obj.objId) && Sound() && Objs() == old(Objs())
      ensures Abs() == old(Abs()).(t2 := Promote(old(Abs()).t2, obj.objId))
    {
      hide ObjQueue.Queue.Valid, Filed, Snap, RemoveAt, Weight, SetOf, Without, Lookup, Has;
      ghost var k := IndexOf(Snap(t2.objs), obj.objId);
      Apart();
      Refile(table, Ls(), 2, k, 2);
      TakeWeight(t2.objs, obj.objId);
      PutWeight(RemoveAt(t2.objs, k), obj);
      MoveSet(t2, k);
      t2.MoveToHead(obj, k);
      assert Ls() == old(Ls())[2 := RemoveAt(old(t2.objs), k)][2 := t2.objs];
    }

    lemma MoveSet(q: ObjQueue.Queue, k: nat)
      requires q.Valid() && k < |q.objs|
      ensures SetOf([q.objs[k]] + RemoveAt(q.objs, k)) == SetOf(q.objs)
    {
      hide RemoveAt;
      q.Distinct();
      RemoveSet(q.objs, k);
      Member(q.objs, k);
      NotMember(RemoveAt(q.objs, k), q.objs[k]);
      AddSet(RemoveAt(q.objs, k), q.objs[k]);
    }

    method FindGhost(obj: CacheObj)
      requires Sound() && Sized(Abs()) && obj.objId in table && table[obj.objId] == obj && obj.isGhost
      modifies this, b1, b2, Objs()
      ensures Sound() && Objs() <= old(Objs()) && Abs() == ArcSpec.Find(old(Abs()), conf, obj.objId)
    {
      hide Sound, SizedQueue, Delta, Min, Max, Weight, Without, Promote, Lookup, Has, SetOf, In;
      Where(obj.objId);
      if obj.lruId == 1 {
        HitL1Ghost(obj);
      } else {
        HitL2Ghost(obj);
      }
    }

    method FindData(obj: CacheObj)
      requires Sound() && Sized(Abs()) && obj.objId in table && table[obj.objId] == obj && !obj.isGhost
      requires !inL1Ghost && !inL2Ghost
      modifies this, t1, t2, Objs()
      ensures Sound() && Objs() <= old(Objs()) && Abs() == ArcSpec.Find(old(Abs()), conf, obj.objId)
    {
      hide Sound, SizedQueue, Weight, Without, Promote, Lookup, Has, SetOf, In;
      Where(obj.objId);
      if obj.lruId == 1 {
        HitL1Data(obj);
      } else {
        HitL2Data(obj);
      }
    }

    /** ARC_find with `update_cache` set. */
    method Find(x: ObjId) returns (obj: CacheObj?)
      requires Sound() && Sized(Abs())
      modifies this, t1, b1, t2, b2, Objs()
      ensures Sound() && Abs() == ArcSpec.Find(old(Abs()), conf, x) && Objs() <= old(Objs())
      ensures (obj != null) == Hit(old(Abs()), x)
    {
      hide Chains, Tagged, Counted, Filed, SizedQueue, Delta, Min, Max, Weight, Without, Promote, Lookup, Has,
        SetOf, In;
      Where(x);
      DataHas(Abs(), x);
      if x !in table {
        return null;
      }
      var found := table[x];
      obj := found;
      Cleared(Abs(), x);
      inL1Ghost, inL2Ghost := false, false;
      assert Sound();
      hide Sound, ArcSpec.Find;
      if found.isGhost {
        obj := null;
        FindGhost(found);
      } else {
        FindData(found);
      }
    }

    /** An object found takes both flags down first. */
    lemma Cleared(s: State, x: ObjId)
      requires Sized(s)
      ensures Has(s.t1, x) || Has(s.b1, x) || Has(s.t2, x) || Has(s.b2, x) ==>
                ArcSpec.Find(s.(inB1 := false, inB2 := false), conf, x) == ArcSpec.Find(s, conf, x)
    {
      hide Weight, Without, Promote, Has, Delta;
    }

    /** The linking part of inserting into T1. */
    method PutT1(obj: CacheObj)
      requires Chains() && Tagged() && Filed(table, Ls()) && obj.objId !in table
      requires obj !in Objs() && obj.lruId == 1 && !obj.isGhost
      modifies `table, t1, Objs()`prev, obj`prev, obj`next
      ensures Chains() && Tagged() && Filed(table, Ls())
      ensures t1.objs == [obj] + old(t1.objs) && Objs() == old(Objs()) + {obj}
    {
      hide ObjQueue.Queue.Valid, Filed, SetOf;
      Apart();
      File(table, Ls(), 0, obj);
      t1.Distinct();
      AddSet(t1.objs, obj);
      table := table[obj.objId := obj];
      t1.PrependToHead(obj);
      assert Ls() == old(Ls())[0 := t1.objs];
    }

    /** The linking part of inserting into T2. */
    method PutT2(obj: CacheObj)
      requires Chains() && Tagged() && Filed(table, Ls()) && obj.objId !in table
      requires obj !in Objs() && obj.lruId == 2 && !obj.isGhost
      modifies `table, t2, Objs()`prev, obj`prev, obj`next
      ensures Chains() && Tagged() && Filed(table, Ls())
      ensures t2.objs == [obj] + old(t2.objs) && Objs() == old(Objs()) + {obj}
    {
      hide ObjQueue.Queue.Valid, Filed, SetOf;
      Apart();
      File(table, Ls(), 2, obj);
      t2.Distinct();
      AddSet(t2.objs, obj);
      table := table[obj.objId := obj];
      t2.PrependToHead(obj);
      assert Ls() == old(Ls())[2 := t2.objs];
    }

    /** A new object at the head of T1. */
    method AddNewT1(e: Entry)
      requires Chains() && Tagged() && Filed(table, Ls()) && e.id !in table
      modifies `table, t1, Objs()`prev
      ensures Chains() && Tagged() && Filed(table, Ls())
      ensures Abs() == old(Abs()).(t1 := [e] + old(Abs()).t1) && |t1.objs| == |old(t1.objs)| + 1
      ensures Weight(Snap(t1.objs), conf.md) == Weight(Snap(old(t1.objs)), conf.md) + e.size + conf.md
      ensures b1.objs == old(b1.objs) && t2.objs == old(t2.objs) && b2.objs == old(b2.objs)
      ensures forall o | o in Objs() :: o in old(Objs()) || fresh(o)
    {
      hide ObjQueue.Queue.Valid, Filed, Snap, Weight, SetOf;
      Apart();
      var obj := new CacheObj(e.id, e.size);
      obj.lruId := 1;
      PutWeight(t1.objs, obj);
      PutT1(obj);
    }

    /** A new object at the head of T2. */
    method AddNewT2(e: Entry)
      requires Chains() && Tagged() && Filed(table, Ls()) && e.id !in table
      modifies `table, t2, Objs()`prev
      ensures Chains() && Tagged() && Filed(table, Ls())
      ensures Abs() == old(Abs()).(t2 := [e] + old(Abs()).t2) && |t2.objs| == |old(t2.objs)| + 1
      ensures Weight(Snap(t2.objs), conf.md) == Weight(Snap(old(t2.objs)), conf.md) + e.size + conf.md
      ensures t1.objs == old(t1.objs) && b1.objs == old(b1.objs) && b2.objs == old(b2.objs)
      ensures forall o | o in Objs() :: o in old(Objs()) || fresh(o)
    {
      hide ObjQueue.Queue.Valid, Filed, Snap, Weight, SetOf;
      Apart();
      var obj := new CacheObj(e.id, e.size);
      obj.lruId := 2;
      PutWeight(t2.objs, obj);
      PutT2(obj);
    }

    method InsertL1(e: Entry)
      requires Sound() && e.id !in table
      modifies `table, `l1DataSize, `occupiedByte, `nObj, t1, Objs()`prev
      ensures Sound() && Abs() == old(Abs()).(t1 := [e] + old(Abs()).t1)
      ensures forall o | o in Objs() :: o in old(Objs()) || fresh(o)
    {
      hide Filed, Snap, SetOf, Tagged, Weight, Chains;
      occupiedByte, nObj := occupiedByte + e.size + conf.md, nObj + 1;
      l1DataSize := l1DataSize + e.size + conf.md;
      AddNewT1(e);
    }

    method InsertL2(e: Entry)
      requires Sound() && e.id !in table
      modifies `table, `l2DataSize, `occupiedByte, `nObj, t2, Objs()`prev
      ensures Sound() && Abs() == old(Abs()).(t2 := [e] + old(Abs()).t2)
      ensures forall o | o in Objs() :: o in old(Objs()) || fresh(o)
    {
      hide Filed, Snap, SetOf, Tagged, Weight, Chains;
      occupiedByte, nObj := occupiedByte + e.size + conf.md, nObj + 1;
      l2DataSize := l2DataSize + e.size + conf.md;
      AddNewT2(e);
    }

    /** ARC_insert, on cache_insert_base */
    method Insert(e: Entry)
      requires Sound() && e.id !in table
      modifies this, t1, t2, Objs()
      ensures Sound() && Abs() == ArcSpec.Insert(old(Abs()), e)
      ensures forall o | o in Objs() :: o in old(Objs()) || fresh(o)
    {
      hide Chains, Tagged, Counted, Filed, Snap, SetOf;
      if vtimeLastReqInGhost == nReq && (inL1Ghost || inL2Ghost) {
        InsertL2(e);
        inL1Ghost, inL2Ghost, vtimeLastReqInGhost := false, false, -1;
      } else {
        InsertL1(e);
      }
    }

    /** The eviction loop of cache_get_base. */
    method MakeRoom(need: nat)
      requires Sound() && ArcSpec.Lists(Abs()) && need <= conf.size
      modifies this, t1, b1, t2, b2, Objs()
      ensures Sound() && Sized(old(Abs())) && Abs() == ArcSpec.MakeRoom(old(Abs()), conf, need)
      ensures Objs() <= old(Objs())
    {
      hide Chains, Tagged, Filed, Snap, ArcSpec.Lists, ArcSpec.Evict, SizedQueue, Weight, SetOf;
      ListsSized(Abs());
      while occupiedByte + need > conf.size
        invariant Sound() && ArcSpec.Lists(Abs()) && Sized(Abs()) && Objs() <= old(Objs())
        invariant ArcSpec.MakeRoom(Abs(), conf, need) == ArcSpec.MakeRoom(old(Abs()), conf, need)
        decreases |Abs().t1| + |Abs().t2|
      {
        EvictKeeps(Abs(), conf, need);
        EvictSized(Abs(), conf, need);
        Evict(need);
      }
    }

    /** The objects in the table are those of the four lists. */
    lemma TableIds(x: ObjId)
      requires Sound()
      ensures x in table <==> x in Data(Abs()) || x in Ghosts(Abs())
    {
      hide Chains, Counted, Filed, Snap;
      Where(x);
      DataHas(Abs(), x);
    }

    /** cache_get_base */
    method Get(e: Entry) returns (hit: bool)
      requires Valid() && 1 <= e.size && 0 <= nReq
      modifies this, t1, b1, t2, b2, Objs()
      ensures Valid() && nReq == old(nReq) + 1
      ensures hit == Hit(old(Abs()), e.id) && Sized(old(Abs())) && Abs() == ArcSpec.Get(old(Abs()), conf, e)
      ensures forall o | o in Objs() :: o in old(Objs()) || fresh(o)
    {
      hide Chains, Tagged, Counted, Filed, SizedQueue, ArcSpec.Lists, ArcSpec.Insert, ArcSpec.Find, ArcSpec.Evict,
        Data, Ghosts, Weight, Snap, SetOf, ArcSpec.MakeRoom;
      ListsSized(Abs());
      ArcSpec.GetKeeps(Abs(), conf, e);
      SameLists(Abs(), Abs().(now := nReq + 1));
      SameData(Abs(), Abs().(now := nReq + 1), conf);
      nReq := nReq + 1;
      ghost var s0 := Abs();
      FindKeeps(s0, conf, e.id);
      FindSized(s0, conf, e.id);
      var obj := Find(e.id);
      hit := obj != null;
      if !hit && e.size + conf.md <= conf.size {
        MakeRoomKeeps(Abs(), conf, e.size + conf.md);
        MakeRoom(e.size + conf.md);
        TableIds(e.id);
        Insert(e);
      }
    }
  }
}
