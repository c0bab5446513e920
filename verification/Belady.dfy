/** The Belady cache of Belady.c on top of cache_get_base (cache.c). */
module Belady {
  import opened NextUse
  import opened PriorityQueue

  datatype Request = Request(objId: ObjId, size: nat, nextAccess: int)

  /** What the cache knows about an object, heap node aside. */
  datatype Item = Item(size: nat, nextAccess: int)

  type Contents = map<ObjId, Item>

  ghost function Bytes(m: Contents, md: nat): nat
  {
    if m == map[] then 0
    else
      var x :| x in m;
      m[x].size + md + Bytes(m - {x}, md)
  }

  lemma {:induction false} BytesWithout(m: Contents, md: nat, y: ObjId)
    requires y in m
    ensures Bytes(m, md) == m[y].size + md + Bytes(m - {y}, md)
    decreases |m|
  {
    var x :| x in m && Bytes(m, md) == m[x].size + md + Bytes(m - {x}, md);
    if x != y {
      BytesWithout(m - {x}, md, y);
      BytesWithout(m - {y}, md, x);
      assert m - {x} - {y} == m - {y} - {x};
    }
  }

  lemma BytesUpdate(m: Contents, md: nat, y: ObjId, item: Item)
    ensures y !in m ==> Bytes(m[y := item], md) == Bytes(m, md) + item.size + md
    ensures y in m ==> Bytes(m[y := item], md) == Bytes(m, md) - m[y].size + item.size
  {
    BytesWithout(m[y := item], md, y);
    assert m[y := item] - {y} == m - {y};
    if y in m {
      BytesWithout(m, md, y);
    } else {
      assert m - {y} == m;
    }
  }

  /** `after` is `before` without some objects that are used no sooner than any object kept. */
  ghost predicate FarthestGone(before: Contents, after: Contents)
  {
    && after.Keys <= before.Keys
    && (forall k | k in after :: after[k] == before[k])
    && (forall e, k | e in before && e !in after && k in after ::
          before[k].nextAccess <= before[e].nextAccess)
  }

  /** Nothing was evicted without need: the last victim did not fit next to the newcomer. */
  ghost predicate OnlyAsNeeded(before: Contents, after: Contents, md: nat, room: int)
  {
    after.Keys != before.Keys ==>
      exists v | v in before && v !in after :: room < Bytes(after, md) + before[v].size + md
  }

  lemma NothingGone(m: Contents, md: nat, room: int)
    ensures FarthestGone(m, m) && OnlyAsNeeded(m, m, md, room)
  {
  }

  lemma OneMoreGone(before: Contents, mid: Contents, victim: ObjId, md: nat, room: int)
    requires FarthestGone(before, mid) && victim in mid
    requires forall x | x in mid :: mid[x].nextAccess <= mid[victim].nextAccess
    requires room < Bytes(mid, md)
    ensures FarthestGone(before, mid - {victim})
    ensures OnlyAsNeeded(before, mid - {victim}, md, room)
  {
    BytesWithout(mid, md, victim);
  }

  /** What one `get` does to the contents of a cache of `capacity` bytes. */
  ghost predicate GetSpec(capacity: nat, md: nat, before: Contents, req: Request, hit: bool, after: Contents)
  {
    && hit == (req.objId in before)
    && (hit ==> after == before[req.objId := before[req.objId].(nextAccess := req.nextAccess)])
    && (!hit && capacity < req.size + md ==> after == before)
    && (!hit && req.size + md <= capacity ==>
          exists kept ::
            && FarthestGone(before, kept)
            && OnlyAsNeeded(before, kept, md, capacity - req.size - md)
            && after == if req.nextAccess == -1 then kept else kept[req.objId := Item(req.size, req.nextAccess)])
  }

  class BeladyCache {
    const cacheSize: nat
    const objMdSize: nat
    const pq: Pqueue
    var occupiedByte: int
    var nObj: int
    var nReq: int
    var table: Contents
    var pqNode: map<ObjId, PqNode>    // the heap node each cached object points to

    ghost predicate Accounted()
      reads `table, `occupiedByte
    {
      occupiedByte == Bytes(table, objMdSize)
    }

    /** Heap and hash table index the same objects with the same next accesses. */
    ghost predicate Indexed()
      reads `table, `pqNode, pq, pq.nodes
    {
      && table.Keys == pqNode.Keys
      && (forall x | x in table ::
            pqNode[x] in pq.nodes && pqNode[x].objId == x && pqNode[x].pri == table[x].nextAccess)
      && (forall n | n in pq.nodes :: n.objId in table && pqNode[n.objId] == n)
    }

    ghost predicate Valid()
      reads this, pq, pq.d, pq.nodes
    {
      && pq.Valid() && Indexed() && Accounted()
      && nObj == pq.size - 1 && occupiedByte <= cacheSize
    }

    constructor (cacheSize: nat, objMdSize: nat)
      ensures Valid() && table == map[] && fresh(pq) && fresh(pq.d) && fresh(pq.nodes)
      ensures this.cacheSize == cacheSize && this.objMdSize == objMdSize
    {
      this.cacheSize := cacheSize;
      this.objMdSize := objMdSize;
      this.pq := new Pqueue(8000000);
      occupiedByte, nObj, nReq, table, pqNode := 0, 0, 0, map[], map[];
    }

    method Find(req: Request) returns (hit: bool)
      requires Valid()
      modifies this, pq, pq.d, pq.nodes
      ensures Valid() && hit == (req.objId in old(table))
      ensures !hit ==> table == old(table)
      ensures hit ==> table == old(table)[req.objId := old(table)[req.objId].(nextAccess := req.nextAccess)]
      ensures pq.d == old(pq.d) && pq.nodes == old(pq.nodes) && nReq == old(nReq)
    {
      hide Pqueue.Valid;
      hit := req.objId in table;
      if hit {
        var item := table[req.objId];
        BytesUpdate(table, objMdSize, req.objId, item.(nextAccess := req.nextAccess));
        table := table[req.objId := item.(nextAccess := req.nextAccess)];
        pq.ChangePriority(req.nextAccess, pqNode[req.objId]);
      }
    }

    /** cache_remove_obj_base */
    method RemoveBase(x: ObjId)
      requires Accounted() && x in table
      modifies `table, `pqNode, `nObj, `occupiedByte
      ensures Accounted() && table == old(table) - {x} && pqNode == old(pqNode) - {x}
      ensures nObj == old(nObj) - 1
      ensures occupiedByte == old(occupiedByte) - old(table)[x].size - objMdSize
    {
      BytesWithout(table, objMdSize, x);
      occupiedByte := occupiedByte - (table[x].size + objMdSize);
      nObj := nObj - 1;
      table := table - {x};
      pqNode := pqNode - {x};
    }

    /** cache_insert_base */
    method InsertBase(req: Request, node: PqNode)
      requires Accounted() && req.objId !in table
      modifies `table, `pqNode, `nObj, `occupiedByte
      ensures Accounted() && pqNode == old(pqNode)[req.objId := node]
      ensures table == old(table)[req.objId := Item(req.size, req.nextAccess)]
      ensures nObj == old(nObj) + 1
      ensures occupiedByte == old(occupiedByte) + req.size + objMdSize
    {
      BytesUpdate(table, objMdSize, req.objId, Item(req.size, req.nextAccess));
      occupiedByte := occupiedByte + req.size + objMdSize;
      nObj := nObj + 1;
      table := table[req.objId := Item(req.size, req.nextAccess)];
      pqNode := pqNode[req.objId := node];
    }

    method Evict() returns (victim: ObjId)
      requires Valid() && table != map[]
      modifies this, pq, pq.d, pq.nodes
      ensures Valid() && victim in old(table) && table == old(table) - {victim}
      ensures forall x | x in old(table) :: old(table)[x].nextAccess <= old(table)[victim].nextAccess
      ensures occupiedByte == old(occupiedByte) - old(table)[victim].size - objMdSize
      ensures pq.d == old(pq.d) && pq.nodes <= old(pq.nodes) && nReq == old(nReq)
    {
      hide Pqueue.Valid, Accounted;
      var node := pq.Pop();
      victim := node.objId;
      RemoveBase(victim);
    }

    /** Belady_remove and Belady_remove_obj: the object leaves the heap wherever it sits there. */
    method Remove(x: ObjId) returns (removed: bool)
      requires Valid()
      modifies this, pq, pq.d, pq.nodes
      ensures Valid() && removed == (x in old(table)) && table == old(table) - {x}
      ensures pq.d == old(pq.d) && pq.nodes <= old(pq.nodes) && nReq == old(nReq)
    {
      hide Pqueue.Valid, Accounted;
      removed := x in table;
      if removed {
        BytesWithout(table, objMdSize, x);
        pq.Remove(pqNode[x]);
        RemoveBase(x);
      }
    }

    twostate lemma StillIndexed(req: Request, new node: PqNode)
      requires old(Indexed()) && pq.nodes == old(pq.nodes) + {node} && req.objId !in old(table)
      requires forall n | n in old(pq.nodes) :: n.pri == old(n.pri)
      requires node.objId == req.objId && node.pri == req.nextAccess
      requires table == old(table)[req.objId := Item(req.size, req.nextAccess)]
      requires pqNode == old(pqNode)[req.objId := node]
      ensures Indexed()
    {
    }

    /** Belady_insert: a next access of -1 is an error, which aborts. */
    method Insert(req: Request) returns (aborted: bool)
      requires Valid() && req.objId !in table
      requires occupiedByte + req.size + objMdSize <= cacheSize
      modifies this, pq, pq.d, pq.nodes
      ensures Valid() && aborted == (req.nextAccess == -1)
      ensures table == if aborted then old(table) else old(table)[req.objId := Item(req.size, req.nextAccess)]
      ensures (pq.d == old(pq.d) || fresh(pq.d)) && fresh(pq.nodes - old(pq.nodes)) && nReq == old(nReq)
    {
      hide Pqueue.Valid, Accounted, Indexed;
      aborted := req.nextAccess == -1;
      if aborted {
        return;
      }
      var node := new PqNode(req.objId, req.nextAccess);
      pq.Insert(node);
      InsertBase(req, node);
      StillIndexed(req, node);
    }

    /** The eviction loop of cache_get_base. */
    method MakeRoom(size: nat)
      requires Valid() && size + objMdSize <= cacheSize
      modifies this, pq, pq.d, pq.nodes
      ensures Valid() && occupiedByte + size + objMdSize <= cacheSize
      ensures FarthestGone(old(table), table)
      ensures OnlyAsNeeded(old(table), table, objMdSize, cacheSize - size - objMdSize)
      ensures table.Keys <= old(table).Keys
      ensures pq.d == old(pq.d) && pq.nodes <= old(pq.nodes) && nReq == old(nReq)
    {
      hide Pqueue.Valid, Indexed, FarthestGone, OnlyAsNeeded;
      NothingGone(table, objMdSize, cacheSize - size - objMdSize);
      while occupiedByte + size + objMdSize > cacheSize
        invariant Valid() && table.Keys <= old(table).Keys
        invariant FarthestGone(old(table), table)
        invariant OnlyAsNeeded(old(table), table, objMdSize, cacheSize - size - objMdSize)
        invariant pq.d == old(pq.d) && pq.nodes <= old(pq.nodes) && nReq == old(nReq)
        decreases table.Keys
      {
        ghost var mid := table;
        var victim := Evict();
        OneMoreGone(old(table), mid, victim, objMdSize, cacheSize - size - objMdSize);
      }
    }

    /** cache_get_base; what cannot be inserted aborts after room was made. */
    method Get(req: Request) returns (hit: bool, aborted: bool)
      requires Valid()
      modifies this, pq, pq.d, pq.nodes
      ensures Valid() && nReq == old(nReq) + 1
      ensures GetSpec(cacheSize, objMdSize, old(table), req, hit, table)
      ensures aborted == (!hit && req.size + objMdSize <= cacheSize && req.nextAccess == -1)
      ensures Bytes(table, objMdSize) <= cacheSize
      ensures (pq.d == old(pq.d) || fresh(pq.d)) && fresh(pq.nodes - old(pq.nodes))
    {
      hide Pqueue.Valid, Indexed, FarthestGone, OnlyAsNeeded;
      nReq := nReq + 1;
      hit := Find(req);
      aborted := false;
      if hit {
        return;
      }
      if req.size + objMdSize > cacheSize {
        return;
      }
      MakeRoom(req.size);
      aborted := Insert(req);
    }
  }
}
