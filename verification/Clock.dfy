/** The Clock cache (Clock.c) on the linked queue of cacheObj.c and cache_get_base (cache.c). */
module Clock {
  import opened NextUse
  import opened ClockSpec
  import opened ObjQueue

  /** Counters never go negative. */
  ghost predicate Counting(s: seq<CacheObj>)
    reads s`freq
  {
    forall i | 0 <= i < |s| :: 0 <= s[i].freq
  }

  ghost function Snap(s: seq<CacheObj>): (q: Ring)
    requires Counting(s)
    reads s`freq
    ensures |q| == |s|
    ensures forall i | 0 <= i < |s| :: q[i] == Slot(s[i].objId, s[i].objSize, s[i].freq)
  {
    if s == [] then []
    else Snap(s[..|s| - 1]) + [Slot(s[|s| - 1].objId, s[|s| - 1].objSize, s[|s| - 1].freq)]
  }

  /** The queue after the hand passed the objects older than `k`. */
  ghost function Rotated(objs: seq<CacheObj>, k: int): (r: seq<CacheObj>)
    requires -1 <= k < |objs|
    ensures |r| == |objs|
    ensures SetOf(r) == SetOf(objs)
  {
    assert objs == objs[..k + 1] + objs[k + 1..];
    objs[k + 1..] + objs[..k + 1]
  }

  lemma RotatedOn(objs: seq<CacheObj>, k: int)
    requires 0 <= k < |objs|
    ensures var r := Rotated(objs, k);
            && r[|r| - 1] == objs[k]
            && [objs[k]] + r[..|r| - 1] == Rotated(objs, k - 1)
            && (k == 0 ==> Rotated(objs, -1) == objs == Rotated(objs, |objs| - 1))
  {
  }

  lemma SnapRemove(s: seq<CacheObj>, k: nat)
    requires Counting(s) && k < |s|
    ensures Counting(RemoveAt(s, k)) && Snap(RemoveAt(s, k)) == RemoveAt(Snap(s), k)
  {
    hide Snap;
    var r := RemoveAt(s, k);
    forall i | 0 <= i < |r|
      ensures r[i] == s[if i < k then i else i + 1]
    {
    }
  }

  class ClockCache {
    const cacheSize: nat
    const maxFreq: nat
    const queue: Queue
    var table: map<ObjId, CacheObj>
    var occupiedByte: int
    var nObj: int
    var nObjRewritten: int
    var nByteRewritten: int

    ghost predicate Valid()
      reads this, queue, queue.objs
    {
      && queue.Valid() && Indexed(table, queue.objs) && Counting(queue.objs)
      && occupiedByte == Bytes(Snap(queue.objs)) && nObj == |queue.objs|
    }

    ghost function Ring(): ClockSpec.Ring
      requires Counting(queue.objs)
      reads this, queue, queue.objs
    {
      Snap(queue.objs)
    }

    constructor (cacheSize: nat, maxFreq: nat)
      ensures Valid() && Ring() == [] && fresh(queue)
      ensures this.cacheSize == cacheSize && this.maxFreq == maxFreq
    {
      this.cacheSize, this.maxFreq := cacheSize, maxFreq;
      queue := new Queue();
      table, occupiedByte, nObj := map[], 0, 0;
      nObjRewritten, nByteRewritten := 0, 0;
    }

    /** Clock_to_evict: walks the queue and counts rounds, changing nothing. */
    method ToEvict() returns (obj: CacheObj)
      requires Valid() && queue.objs != []
      ensures obj == queue.objs[VictimOf(Ring())]
    {
      hide Queue.Valid, IsVictim, Snap;
      ghost var objs, q := queue.objs, Ring();
      ghost var k: int := |objs| - 1;
      var nRound := 0;
      queue.Ends();
      obj := queue.tail;
      while obj.freq - nRound >= 1
        invariant 0 <= k < |objs| && obj == objs[k] && 0 <= nRound <= obj.freq
        invariant Credit(q, k, nRound) && queue.Valid()
        decreases q[0].freq - nRound, k
      {
        queue.Before(k);
        var prev := obj.prev;
        k := k - 1;
        if prev == null {
          obj := queue.tail;
          k := |objs| - 1;
          nRound := nRound + 1;
        } else {
          obj := prev;
        }
      }
      CreditStop(q, k, nRound);
      VictimUnique(q, k, VictimOf(q));
    }

    /** The oldest object pays one credit and goes to the head. */
    method TakeCredit(obj: CacheObj)
      requires queue.Valid() && queue.objs != [] && obj == queue.tail
      requires Counting(queue.objs) && obj.freq >= 1
      modifies `nObjRewritten, `nByteRewritten, queue, SetOf(queue.objs)
      ensures queue.Valid() && Counting(queue.objs) && nObjRewritten == old(nObjRewritten) + 1
      ensures queue.objs == [obj] + old(queue.objs)[..|old(queue.objs)| - 1]
      ensures Ring() == Turn(old(Ring()))
    {
      hide Queue.Valid, Snap;
      ghost var n := |queue.objs| - 1;
      ghost var q := Ring();
      queue.Ends();
      queue.Others(n);
      obj.freq := obj.freq - 1;
      nObjRewritten := nObjRewritten + 1;
      nByteRewritten := nByteRewritten + obj.objSize;
      queue.MoveToHead(obj, n);
      forall i | 0 <= i <= n
        ensures 0 <= queue.objs[i].freq
        ensures Slot(queue.objs[i].objId, queue.objs[i].objSize, queue.objs[i].freq) == Turn(q)[i]
      {
      }
    }

    /** remove_obj_from_list and cache_evict_base */
    method Drop(obj: CacheObj, ghost k: nat)
      requires queue.Valid() && Indexed(table, queue.objs) && k < |queue.objs| && queue.objs[k] == obj
      requires Counting(queue.objs)
      modifies this`table, this`occupiedByte, this`nObj, queue, SetOf(queue.objs)`prev, SetOf(queue.objs)`next
      ensures queue.Valid() && Indexed(table, queue.objs) && Counting(queue.objs)
      ensures queue.objs == RemoveAt(old(queue.objs), k) && Ring() == RemoveAt(old(Ring()), k)
      ensures occupiedByte == old(occupiedByte) - obj.objSize && nObj == old(nObj) - 1
      ensures table == old(table) - {obj.objId}
    {
      hide Queue.Valid, Snap, Indexed, RemoveAt, Counting;
      queue.Others(k);
      DropIndexed(table, queue.objs, k);
      SnapRemove(queue.objs, k);
      queue.RemoveObj(obj, k);
      occupiedByte := occupiedByte - obj.objSize;
      nObj := nObj - 1;
      table := table - {obj.objId};
    }

    /** The hand is at `k` in round `n` of a queue that started as `objs` with counters `q`. */
    ghost predicate Sweeping(objs: seq<CacheObj>, q: ClockSpec.Ring, k: int, n: int)
      reads queue, queue.objs
    {
      && 0 <= k < |objs| == |q| && 0 <= n && Credit(q, k, n)
      && queue.Valid() && Counting(queue.objs) && Snap(queue.objs) == Swept(q, k, n)
      && queue.objs == Rotated(objs, k) && queue.tail == objs[k]
    }

    method SweepOne(obj: CacheObj, ghost objs: seq<CacheObj>, ghost q: ClockSpec.Ring, ghost k: int, ghost n: int)
      returns (ghost k': int, ghost n': int)
      requires Sweeping(objs, q, k, n) && obj == objs[k] && obj.freq >= 1
      modifies `nObjRewritten, `nByteRewritten, queue, SetOf(objs)
      ensures Sweeping(objs, q, k', n') && SumFreq(Snap(queue.objs)) == SumFreq(old(Snap(queue.objs))) - 1
      ensures nObjRewritten == old(nObjRewritten) + 1
    {
      hide Turn, Credit, Swept, SumFreq, Queue.Valid, Snap, Rotated, Counting;
      SweptLast(q, k, n);
      RotatedOn(objs, k);
      assert Snap(queue.objs)[|objs| - 1].freq == obj.freq;
      SweptTurn(q, k, n);
      TurnSum(Snap(queue.objs));
      TakeCredit(obj);
      k', n' := k - 1, n;
      if k' < 0 {
        k', n' := |objs| - 1, n + 1;
      }
      RotatedOn(objs, k');
      queue.Ends();
    }

    /** Clock_evict: takes credit from the tail and moves it to the head until the tail has none. The
        victim is the one `ToEvict` names, and every credit taken counts as one object rewritten. */
    method Evict() returns (victim: CacheObj)
      requires Valid() && queue.objs != []
      modifies this, queue, SetOf(queue.objs)
      ensures Valid() && victim == old(queue.objs)[VictimOf(old(Ring()))]
      ensures Ring() == AfterEvict(old(Ring()), VictimOf(old(Ring())))
      ensures nObjRewritten == old(nObjRewritten) + SumFreq(old(Ring())) - SumFreq(Ring())
      ensures table == old(table) - {victim.objId}
      ensures SetOf(queue.objs) <= old(SetOf(queue.objs))
    {
      hide Sweeping, SumFreq, Bytes, Indexed, Snap, AfterEvict, Queue.Valid;
      ghost var objs, q := queue.objs, Ring();
      ghost var k, n := |objs| - 1, 0;
      StartSweep();
      victim := queue.tail;
      while victim.freq >= 1
        invariant Sweeping(objs, q, k, n) && 0 <= k < |objs| && victim == objs[k] && Counting(queue.objs)
        invariant nObjRewritten == old(nObjRewritten) + SumFreq(q) - SumFreq(Snap(queue.objs))
        invariant table == old(table) && occupiedByte == old(occupiedByte) && nObj == old(nObj)
        decreases SumFreq(Snap(queue.objs))
      {
        k, n := SweepOne(victim, objs, q, k, n);
        AtTail(objs, q, k, n);
        victim := queue.tail;
      }
      EndSweep(objs, q, k, n);
      Drop(victim, |objs| - 1);
    }

    lemma StartSweep()
      requires Valid() && queue.objs != []
      ensures Sweeping(queue.objs, Ring(), |queue.objs| - 1, 0)
      ensures queue.tail == queue.objs[|queue.objs| - 1]
    {
      SweptStart(Ring());
      RotatedOn(queue.objs, 0);
      queue.Ends();
    }

    lemma AtTail(objs: seq<CacheObj>, q: ClockSpec.Ring, k: int, n: int)
      requires Sweeping(objs, q, k, n)
      ensures 0 <= k < |objs| && queue.tail == objs[k] && Counting(queue.objs)
    {
    }

    lemma EndSweep(objs: seq<CacheObj>, q: ClockSpec.Ring, k: int, n: int)
      requires Sweeping(objs, q, k, n) && objs[k].freq < 1 && Indexed(table, objs)
      ensures queue.Valid() && Counting(queue.objs) && Indexed(table, queue.objs)
      ensures |queue.objs| == |objs| == |q| && queue.objs[|objs| - 1] == objs[k] && k == VictimOf(q)
      ensures RemoveAt(Snap(queue.objs), |objs| - 1) == AfterEvict(q, k)
      ensures SumFreq(Snap(queue.objs)) == SumFreq(AfterEvict(q, k))
      ensures Bytes(AfterEvict(q, k)) == Bytes(q) - q[k].size
      ensures SetOf(queue.objs) == SetOf(objs)
    {
      hide Snap, IsVictim, Bytes, SumFreq, Queue.Valid;
      RotatedOn(objs, k);
      RotateIndexed(table, objs, k);
      SweptLast(q, k, n);
      CreditStop(q, k, n);
      VictimUnique(q, k, VictimOf(q));
      SweptEnd(q, k, n);
      BytesAfterEvict(q, k);
    }

    lemma InRing(x: ObjId)
      requires Indexed(table, queue.objs) && Counting(queue.objs)
      ensures Has(Snap(queue.objs), x) <==> x in table
      ensures x in table ==> table[x] in queue.objs
      ensures forall i | 0 <= i < |queue.objs| ::
                queue.objs[i].objId == x <==> x in table && queue.objs[i] == table[x]
    {
      if x in table {
        var i :| 0 <= i < |queue.objs| && queue.objs[i] == table[x];
        assert Snap(queue.objs)[i].id == x;
      }
      if Has(Snap(queue.objs), x) {
        var i :| 0 <= i < |queue.objs| && Snap(queue.objs)[i].id == x;
        assert queue.objs[i] in queue.objs;
      }
    }

    /** Clock_find */
    method Find(x: ObjId, updateCache: bool) returns (obj: CacheObj?)
      requires Valid()
      modifies SetOf(queue.objs)`freq
      ensures Valid() && obj == if x in table then table[x] else null
      ensures (obj != null) == Has(old(Ring()), x)
      ensures Ring() == if obj != null && updateCache then Credited(old(Ring()), x, maxFreq) else old(Ring())
    {
      hide Snap, Queue.Valid, Bytes;
      InRing(x);
      obj := if x in table then table[x] else null;
      if obj != null && updateCache {
        ghost var q := Ring();
        if obj.freq < maxFreq {
          obj.freq := obj.freq + 1;
        }
        assert Counting(queue.objs);
        assert Ring() == Credited(q, x, maxFreq);
        CreditedBytes(q, x, maxFreq);
      }
    }

    /** Clock_insert */
    method Insert(x: ObjId, size: nat) returns (obj: CacheObj)
      requires Valid() && x !in table
      modifies this, queue, SetOf(queue.objs)`prev
      ensures Valid() && Ring() == [Slot(x, size, 0)] + old(Ring())
      ensures fresh(obj) && queue.objs == [obj] + old(queue.objs) && nObjRewritten == old(nObjRewritten)
    {
      hide Snap, Queue.Valid, Bytes, Indexed;
      obj := new CacheObj(x, size);
      IndexMore(table, queue.objs, obj);
      table := table[x := obj];
      occupiedByte := occupiedByte + size;
      nObj := nObj + 1;
      ghost var q := Ring();
      queue.PrependToHead(obj);
      obj.freq := 0;
      assert Counting(queue.objs) && Ring() == [Slot(x, size, 0)] + q;
      BytesFront(Slot(x, size, 0), q);
    }

    /** cache_get_base */
    method Get(x: ObjId, size: nat) returns (hit: bool)
      requires Valid()
      modifies this, queue, SetOf(queue.objs)
      ensures Valid() && hit == Has(old(Ring()), x)
      ensures Ring() == ClockGet(old(Ring()), cacheSize, maxFreq, x, size)
    {
      hide Snap, Queue.Valid, Indexed, AfterEvict, Credited, SumFreq;
      var obj := Find(x, true);
      hit := obj != null;
      if hit || size > cacheSize {
        return;
      }
      ghost var q := Ring();
      while occupiedByte + size > cacheSize
        invariant Valid() && SetOf(queue.objs) <= old(SetOf(queue.objs)) && x !in table
        invariant MakeRoom(Ring(), cacheSize - size) == MakeRoom(q, cacheSize - size)
        decreases |Ring()|
      {
        var victim := Evict();
      }
      var newObj := Insert(x, size);
    }

    /** Clock_remove */
    method Remove(x: ObjId) returns (removed: bool)
      requires Valid()
      modifies this, queue, SetOf(queue.objs)`prev, SetOf(queue.objs)`next
      ensures Valid() && removed == Has(old(Ring()), x)
      ensures !removed ==> Ring() == old(Ring())
      ensures removed ==>
                exists k | 0 <= k < |old(Ring())| && old(Ring())[k].id == x :: Ring() == RemoveAt(old(Ring()), k)
    {
      hide Snap, Queue.Valid, Bytes, Indexed;
      InRing(x);
      removed := x in table;
      if removed {
        ghost var q := Ring();
        ghost var k :| 0 <= k < |queue.objs| && queue.objs[k] == table[x];
        assert q[k].id == x;
        BytesAround(q, k);
        BytesConcat(q[..k], q[k + 1..]);
        Drop(table[x], k);
      }
    }
  }

  lemma RotateIndexed(table: map<ObjId, CacheObj>, objs: seq<CacheObj>, k: int)
    requires Indexed(table, objs) && -1 <= k < |objs|
    ensures Indexed(table, Rotated(objs, k))
  {
  }
}
