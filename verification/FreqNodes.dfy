/** The list of objects with one frequency (freq_node_t in CR_LFU.c). */
module FreqNodes {
  import opened NextUse
  import opened ObjQueue

  function ObjIds(objs: seq<CacheObj>): (ids: seq<ObjId>)
    ensures |ids| == |objs| && forall i | 0 <= i < |objs| :: ids[i] == objs[i].objId
  {
    seq(|objs|, i requires 0 <= i < |objs| => objs[i].objId)
  }

  class FreqNode {
    const freq: int
    const queue: ObjQueue.Queue    // first_obj and last_obj
    var nObj: int

    ghost predicate Valid()
      reads this, queue, SetOf(queue.objs)`prev, SetOf(queue.objs)`next
    {
      queue.Valid() && nObj == |queue.objs|
    }

    constructor (freq: int)
      ensures Valid() && queue.objs == [] && this.freq == freq && nObj == 0
      ensures fresh(queue)
    {
      this.freq := freq;
      queue := new ObjQueue.Queue();
      nObj := 0;
    }

    /** The object is added to the tail, as CR_LFU_find and CR_LFU_insert do by hand. */
    method AddToTail(obj: CacheObj)
      requires Valid() && obj !in queue.objs
      modifies `nObj, queue, SetOf(queue.objs)`next, obj`prev, obj`next
      ensures Valid() && queue.objs == old(queue.objs) + [obj] && nObj == old(nObj) + 1
    {
      ghost var objs := queue.objs;
      assert objs != [] ==> ChainedAt(objs, |objs| - 1);
      if queue.tail != null {
        queue.tail.next := obj;
        obj.prev := queue.tail;
      } else {
        queue.head := obj;
        obj.prev := null;
      }
      obj.next := null;
      queue.tail := obj;
      nObj := nObj + 1;
      queue.objs := objs + [obj];
      forall i | 0 <= i < |queue.objs|
        ensures ChainedAt(queue.objs, i)
      {
        assert i < |objs| ==> old(ChainedAt(objs, i));
      }
    }

    /** The object leaves the list: CR_LFU_find and CR_LFU_remove. */
    method Take(obj: CacheObj, ghost k: nat)
      requires Valid() && k < |queue.objs| && queue.objs[k] == obj
      modifies `nObj, queue, SetOf(queue.objs)`prev, SetOf(queue.objs)`next
      ensures Valid() && queue.objs == RemoveAt(old(queue.objs), k) && nObj == old(nObj) - 1
    {
      nObj := nObj - 1;
      queue.RemoveObj(obj, k);
    }

    /** The last object leaves the list, as CR_LFU_evict does it by hand. */
    method DropLast() returns (obj: CacheObj)
      requires Valid() && queue.objs != []
      modifies `nObj, queue, SetOf(queue.objs)`next
      ensures Valid() && queue.objs == old(queue.objs)[..|old(queue.objs)| - 1] && nObj == old(nObj) - 1
      ensures obj == old(queue.objs)[|old(queue.objs)| - 1]
    {
      ghost var objs := queue.objs;
      assert ChainedAt(objs, |objs| - 1);
      nObj := nObj - 1;
      obj := queue.tail;
      if obj.prev == null {
        queue.head := null;
        queue.tail := null;
      } else {
        queue.tail := obj.prev;
        obj.prev.next := null;
      }
      queue.objs := objs[..|objs| - 1];
      forall i | 0 <= i < |queue.objs|
        ensures ChainedAt(queue.objs, i)
      {
        assert old(ChainedAt(objs, i));
      }
    }

    /** Object `k` leaves the list, one way or the other. */
    method TakeAt(obj: CacheObj, ghost k: nat, evicting: bool)
      requires Valid() && k < |queue.objs| && queue.objs[k] == obj && (evicting ==> k == |queue.objs| - 1)
      modifies `nObj, queue, SetOf(queue.objs)`prev, SetOf(queue.objs)`next
      ensures Valid() && queue.objs == RemoveAt(old(queue.objs), k) && nObj == old(nObj) - 1
    {
      if evicting {
        var _ := DropLast();
      } else {
        Take(obj, k);
      }
    }

    lemma Tail()
      requires Valid() && queue.objs != []
      ensures queue.tail == queue.objs[|queue.objs| - 1]
    {
    }

    lemma NoRepeat()
      requires Valid()
      ensures NoRepeats(queue.objs)
    {
    }
  }
}
