/** The intrusive doubly linked list of cached objects (cacheObj.c). */
module ObjQueue {
  import opened NextUse

  class CacheObj {
    const objId: ObjId
    const objSize: nat
    var prev: CacheObj?
    var next: CacheObj?
    var freq: int        // used by Clock
    var lruId: int       // used by ARC
    var isGhost: bool

    constructor (objId: ObjId, objSize: nat)
      ensures this.objId == objId && this.objSize == objSize
      ensures prev == null && next == null && freq == 0 && lruId == 0 && !isGhost
    {
      this.objId, this.objSize := objId, objSize;
      prev, next, freq, lruId, isGhost := null, null, 0, 0, false;
    }
  }

  function RemoveAt<T>(s: seq<T>, k: nat): (r: seq<T>)
    requires k < |s|
    ensures |r| == |s| - 1
  {
    s[..k] + s[k + 1..]
  }

  ghost predicate NoRepeats<T>(s: seq<T>)
  {
    forall i, j | 0 <= i < j < |s| :: s[i] != s[j]
  }

  lemma NoRepeatsRemove<T>(s: seq<T>, k: nat)
    requires NoRepeats(s) && k < |s|
    ensures NoRepeats(RemoveAt(s, k)) && s[k] !in RemoveAt(s, k)
  {
    var r := RemoveAt(s, k);
    forall i | 0 <= i < |r|
      ensures r[i] == s[if i < k then i else i + 1]
    {
    }
  }

  lemma NoRepeatsInsert<T>(s: seq<T>, k: nat, x: T)
    requires NoRepeats(s) && k <= |s| && x !in s
    ensures NoRepeats(s[..k] + [x] + s[k..])
  {
  }

  /** Object `k` and its neighbours differ from all others. */
  lemma Neighbours<T>(s: seq<T>, k: nat)
    requires NoRepeats(s) && k < |s|
    ensures forall i | 0 <= i < |s| && i != k :: s[i] != s[k]
    ensures k > 0 ==> forall i | 0 <= i < |s| && i != k - 1 :: s[i] != s[k - 1]
    ensures k < |s| - 1 ==> forall i | 0 <= i < |s| && i != k + 1 :: s[i] != s[k + 1]
  {
  }

  /** The pointers of object `i` lead to its neighbours. */
  ghost predicate ChainedAt(s: seq<CacheObj>, i: int)
    requires 0 <= i < |s|
    reads s`prev, s`next
  {
    && s[i].prev == (if i == 0 then null else s[i - 1])
    && s[i].next == (if i == |s| - 1 then null else s[i + 1])
  }

  ghost predicate Chained(s: seq<CacheObj>)
    reads s`prev, s`next
  {
    forall i | 0 <= i < |s| :: ChainedAt(s, i)
  }

  ghost function SetOf(s: seq<CacheObj>): set<CacheObj>
  {
    set o | o in s
  }

  /** The hash table and the queue hold the same objects. */
  ghost predicate Indexed(table: map<ObjId, CacheObj>, objs: seq<CacheObj>)
  {
    && (forall x | x in table :: table[x] in objs && table[x].objId == x)
    && (forall o | o in objs :: o.objId in table && table[o.objId] == o)
  }

  lemma DropIndexed(table: map<ObjId, CacheObj>, objs: seq<CacheObj>, k: nat)
    requires Indexed(table, objs) && k < |objs|
    requires forall i | 0 <= i < |objs| && i != k :: objs[i] != objs[k]
    ensures Indexed(table - {objs[k].objId}, RemoveAt(objs, k))
  {
    var rest := RemoveAt(objs, k);
    forall o | o in objs && o != objs[k]
      ensures o in rest
    {
      var i :| 0 <= i < |objs| && objs[i] == o;
      assert rest[if i < k then i else i - 1] == o;
    }
    forall o | o in rest
      ensures o in objs && o != objs[k]
    {
      var i :| 0 <= i < |rest| && rest[i] == o;
      assert objs[if i < k then i else i + 1] == o;
    }
  }

  lemma IndexMore(table: map<ObjId, CacheObj>, objs: seq<CacheObj>, obj: CacheObj)
    requires Indexed(table, objs) && obj.objId !in table
    ensures Indexed(table[obj.objId := obj], [obj] + objs) && obj !in objs
  {
  }

  class Queue {
    var head: CacheObj?
    var tail: CacheObj?
    ghost var objs: seq<CacheObj>

    ghost predicate Valid()
      reads this, SetOf(objs)`prev, SetOf(objs)`next
    {
      && NoRepeats(objs) && Chained(objs)
      && head == (if objs == [] then null else objs[0])
      && tail == (if objs == [] then null else objs[|objs| - 1])
    }

    constructor ()
      ensures Valid() && objs == []
    {
      head, tail, objs := null, null, [];
    }

    lemma Ends()
      requires Valid()
      ensures head == (if objs == [] then null else objs[0])
      ensures tail == (if objs == [] then null else objs[|objs| - 1])
    {
    }

    lemma Distinct()
      requires Valid()
      ensures NoRepeats(objs)
    {
    }

    lemma Others(k: int)
      requires Valid() && 0 <= k < |objs|
      ensures forall i | 0 <= i < |objs| && i != k :: objs[i] != objs[k]
    {
    }

    lemma Before(k: int)
      requires Valid() && 0 <= k < |objs|
      ensures objs[k].prev == if k == 0 then null else objs[k - 1]
    {
      assert ChainedAt(objs, k);
    }

    /** remove_obj_from_list */
    method RemoveObj(obj: CacheObj, ghost k: nat)
      requires Valid() && k < |objs| && objs[k] == obj
      modifies this, SetOf(objs)`prev, SetOf(objs)`next
      ensures Valid() && objs == RemoveAt(old(objs), k)
      ensures obj.prev == null && obj.next == null
    {
      Neighbours(objs, k);
      NoRepeatsRemove(objs, k);
      assert ChainedAt(objs, k);
      hide NoRepeats;
      if obj == head {
        head := obj.next;
        if obj.next != null {
          obj.next.prev := null;
        }
      }
      if obj == tail {
        tail := obj.prev;
        if obj.prev != null {
          obj.prev.next := null;
        }
      }
      if obj.prev != null {
        obj.prev.next := obj.next;
      }
      if obj.next != null {
        obj.next.prev := obj.prev;
      }
      obj.prev := null;
      obj.next := null;
      objs := RemoveAt(objs, k);
      forall i | 0 <= i < |objs|
        ensures ChainedAt(objs, i)
      {
        assert old(ChainedAt(objs, if i < k then i else i + 1));
      }
    }

    /** The unlinking in move_obj_to_tail and move_obj_to_head, of an object that is not alone. */
    method Detach(obj: CacheObj, ghost k: nat)
      requires Valid() && 2 <= |objs| && k < |objs| && objs[k] == obj
      modifies this, SetOf(objs)`prev, SetOf(objs)`next
      ensures Valid() && objs == RemoveAt(old(objs), k) && obj !in objs
    {
      Neighbours(objs, k);
      Neighbours(objs, 0);
      Neighbours(objs, |objs| - 1);
      NoRepeatsRemove(objs, k);
      assert ChainedAt(objs, k);
      hide NoRepeats;
      if obj == head {
        head := obj.next;
        obj.next.prev := null;
      } else if obj == tail {
        obj.prev.next := obj.next;
        tail := obj.prev;
      } else {
        obj.prev.next := obj.next;
        obj.next.prev := obj.prev;
      }
      objs := RemoveAt(objs, k);
      forall i | 0 <= i < |objs|
        ensures ChainedAt(objs, i)
      {
        assert old(ChainedAt(objs, if i < k then i else i + 1));
      }
    }

    /** move_obj_to_tail */
    method MoveToTail(obj: CacheObj, ghost k: nat)
      requires Valid() && k < |objs| && objs[k] == obj
      modifies this, SetOf(objs)`prev, SetOf(objs)`next
      ensures Valid() && objs == RemoveAt(old(objs), k) + [obj]
    {
      if head == tail {
        Neighbours(objs, 0);
        return;
      }
      if obj == tail {
        Neighbours(objs, k);
        return;
      }
      Detach(obj, k);
      LinkTail(obj);
    }

    /** move_obj_to_head */
    method MoveToHead(obj: CacheObj, ghost k: nat)
      requires Valid() && k < |objs| && objs[k] == obj
      modifies this, SetOf(objs)`prev, SetOf(objs)`next
      ensures Valid() && objs == [obj] + RemoveAt(old(objs), k)
    {
      if head == tail {
        Neighbours(objs, 0);
        return;
      }
      if obj == head {
        Neighbours(objs, k);
        return;
      }
      Detach(obj, k);
      LinkHead(obj);
    }

    /** An object is linked in front of a queue that is not empty. */
    method LinkHead(obj: CacheObj)
      requires Valid() && objs != [] && obj !in objs
      modifies this, SetOf(objs)`prev, obj`prev, obj`next
      ensures Valid() && objs == [obj] + old(objs)
    {
      assert ChainedAt(objs, 0);
      head.prev := obj;
      obj.prev := null;
      obj.next := head;
      head := obj;
      objs := [obj] + objs;
      forall i | 0 <= i < |objs|
        ensures ChainedAt(objs, i)
      {
        assert i > 0 ==> old(ChainedAt(objs, i - 1));
      }
    }

    /** An object is linked behind a queue that is not empty. */
    method LinkTail(obj: CacheObj)
      requires Valid() && objs != [] && obj !in objs
      modifies this, SetOf(objs)`next, obj`prev, obj`next
      ensures Valid() && objs == old(objs) + [obj]
    {
      assert ChainedAt(objs, |objs| - 1);
      tail.next := obj;
      obj.next := null;
      obj.prev := tail;
      tail := obj;
      objs := objs + [obj];
      forall i | 0 <= i < |objs|
        ensures ChainedAt(objs, i)
      {
        assert i < |objs| - 1 ==> old(ChainedAt(objs, i));
      }
    }

    /** prepend_obj_to_head */
    method PrependToHead(obj: CacheObj)
      requires Valid() && obj !in objs
      modifies this, SetOf(objs)`prev, obj`prev, obj`next
      ensures Valid() && objs == [obj] + old(objs)
    {
      assert objs != [] ==> ChainedAt(objs, 0);
      obj.prev := null;
      obj.next := head;
      if tail == null {
        tail := obj;
      }
      if head != null {
        head.prev := obj;
      }
      head := obj;
      objs := [obj] + objs;
      forall i | 0 <= i < |objs|
        ensures ChainedAt(objs, i)
      {
        assert i > 0 ==> old(ChainedAt(objs, i - 1));
      }
    }

    /** append_obj_to_tail */
    method AppendToTail(obj: CacheObj)
      requires Valid() && obj !in objs
      modifies this, SetOf(objs)`next, obj`prev, obj`next
      ensures Valid() && objs == old(objs) + [obj]
    {
      assert objs != [] ==> ChainedAt(objs, |objs| - 1);
      obj.next := null;
      obj.prev := tail;
      if head == null {
        head := obj;
      }
      if tail != null {
        tail.next := obj;
      }
      tail := obj;
      objs := objs + [obj];
      forall i | 0 <= i < |objs|
        ensures ChainedAt(objs, i)
      {
        assert i < |objs| - 1 ==> old(ChainedAt(objs, i));
      }
    }

    /** insert_obj_after */
    method InsertAfter(pos: CacheObj?, obj: CacheObj?, ghost k: nat)
      requires Valid()
      requires pos != null ==> k < |objs| && objs[k] == pos
      requires obj != null ==> obj !in objs
      modifies this, SetOf(objs)`prev, SetOf(objs)`next, (if obj == null then {} else {obj})
      ensures Valid()
      ensures objs == if pos == null || obj == null then old(objs)
                      else old(objs)[..k + 1] + [obj] + old(objs)[k + 1..]
    {
      if pos == null || obj == null {
        return;
      }
      assert ChainedAt(objs, k);
      Neighbours(objs, k);
      NoRepeatsInsert(objs, k + 1, obj);
      hide NoRepeats;
      obj.prev := pos;
      obj.next := pos.next;
      if pos.next != null {
        pos.next.prev := obj;
      } else {
        tail := obj;
      }
      pos.next := obj;
      objs := objs[..k + 1] + [obj] + objs[k + 1..];
      forall i | 0 <= i < |objs|
        ensures ChainedAt(objs, i)
      {
        assert i != k + 1 ==> old(ChainedAt(objs, if i <= k then i else i - 1));
      }
    }
  }
}
