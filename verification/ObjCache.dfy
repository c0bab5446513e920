/** Linked queues of cached objects as plain queues, and what every cache does with its hash table and counters
    (cache.c). */
module ObjCache {
  import opened NextUse
  import opened ObjQueue
  import opened Lru

  function Entries(objs: seq<CacheObj>): (q: Lru.Queue)
    ensures |q| == |objs|
    ensures forall i | 0 <= i < |objs| :: q[i] == Entry(objs[i].objId, objs[i].objSize)
  {
    seq(|objs|, i requires 0 <= i < |objs| => Entry(objs[i].objId, objs[i].objSize))
  }

  lemma EntriesIndex(table: map<ObjId, CacheObj>, objs: seq<CacheObj>, k: nat)
    requires Indexed(table, objs) && NoRepeats(objs) && k < |objs|
    ensures Has(Entries(objs), objs[k].objId) && IndexOf(Entries(objs), objs[k].objId) == k
  {
    var x := objs[k].objId;
    assert Entries(objs)[k].id == x;
    var j := IndexOf(Entries(objs), x);
    assert objs[j] in objs && objs[k] in objs;
  }

  lemma EntriesLast(objs: seq<CacheObj>)
    requires objs != []
    ensures RemoveAt(objs, |objs| - 1) == objs[..|objs| - 1]
    ensures Entries(objs[..|objs| - 1]) == Entries(objs)[..|objs| - 1]
  {
  }

  lemma EntriesFront(obj: CacheObj, objs: seq<CacheObj>)
    ensures Entries([obj] + objs) == [Entry(obj.objId, obj.objSize)] + Entries(objs)
  {
  }

  /** The queues without object `k`, and with it moved to the front. */
  lemma EntriesPromote(table: map<ObjId, CacheObj>, objs: seq<CacheObj>, k: nat)
    requires Indexed(table, objs) && NoRepeats(objs) && k < |objs|
    ensures Has(Entries(objs), objs[k].objId) && IndexOf(Entries(objs), objs[k].objId) == k
    ensures Entries(RemoveAt(objs, k)) == Without(Entries(objs), objs[k].objId)
    ensures Entries([objs[k]] + RemoveAt(objs, k)) == Promote(Entries(objs), objs[k].objId)
  {
    EntriesIndex(table, objs, k);
    hide Indexed, NoRepeats;
    var q, r := Entries(objs), Entries(RemoveAt(objs, k));
    assert r == q[..k] + q[k + 1..];
    EntriesFront(objs[k], RemoveAt(objs, k));
  }

  lemma EntriesHas(table: map<ObjId, CacheObj>, objs: seq<CacheObj>, x: ObjId)
    requires Indexed(table, objs)
    ensures Has(Entries(objs), x) <==> x in table
    ensures x in table ==> table[x] in objs && table[x].objId == x
  {
    if Has(Entries(objs), x) {
      assert objs[IndexOf(Entries(objs), x)] in objs;
    }
    if x in table {
      var i :| 0 <= i < |objs| && objs[i] == table[x];
      assert Entries(objs)[i].id == x;
    }
  }

  lemma Regrouped(objs: seq<CacheObj>, k: nat)
    requires k < |objs| && NoRepeats(objs)
    ensures objs[k] !in RemoveAt(objs, k) && SetOf([objs[k]] + RemoveAt(objs, k)) == SetOf(objs)
  {
    var r := RemoveAt(objs, k);
    forall o | o in objs && o != objs[k]
      ensures o in r
    {
      var i :| 0 <= i < |objs| && objs[i] == o;
      assert r[if i < k then i else i - 1] == o;
    }
  }

  lemma FrontIndexed(table: map<ObjId, CacheObj>, objs: seq<CacheObj>, k: nat)
    requires Indexed(table, objs) && NoRepeats(objs) && k < |objs|
    ensures Indexed(table, [objs[k]] + RemoveAt(objs, k))
  {
    Regrouped(objs, k);
    var r := [objs[k]] + RemoveAt(objs, k);
    assert forall o :: o in r <==> o in SetOf(r);
    assert forall o :: o in objs <==> o in SetOf(objs);
  }

  lemma Lighter(objs: seq<CacheObj>, k: nat, md: nat)
    requires k < |objs|
    ensures Weight(Entries(RemoveAt(objs, k)), md) == Weight(Entries(objs), md) - objs[k].objSize - md
  {
    var q := Entries(objs);
    assert Entries(RemoveAt(objs, k)) == q[..k] + q[k + 1..];
    WeightSplit(q, k, md);
  }

  lemma Heavier(obj: CacheObj, objs: seq<CacheObj>, md: nat)
    ensures Weight(Entries([obj] + objs), md) == Weight(Entries(objs), md) + obj.objSize + md
  {
    var e := Entry(obj.objId, obj.objSize);
    EntriesFront(obj, objs);
    WeightConcat([e], Entries(objs), md);
    WeightSplit([e], 0, md);
  }

  class CacheBase {
    const objMdSize: nat
    var table: map<ObjId, CacheObj>
    var occupiedByte: int
    var nObj: int

    /** Hash table and counters agree with the queue. */
    ghost predicate Books(objs: seq<CacheObj>)
      reads this
    {
      Indexed(table, objs) && occupiedByte == Weight(Entries(objs), objMdSize) && nObj == |objs|
    }

    constructor (objMdSize: nat)
      ensures Books([]) && this.objMdSize == objMdSize
    {
      this.objMdSize := objMdSize;
      table, occupiedByte, nObj := map[], 0, 0;
    }

    /** cache_insert_base */
    method InsertBase(obj: CacheObj, ghost objs: seq<CacheObj>)
      requires Books(objs) && obj.objId !in table
      modifies this
      ensures Books([obj] + objs) && obj !in objs && table == old(table)[obj.objId := obj]
    {
      IndexMore(table, objs, obj);
      Heavier(obj, objs, objMdSize);
      hide Indexed, Weight, Entries;
      table := table[obj.objId := obj];
      occupiedByte := occupiedByte + obj.objSize + objMdSize;
      nObj := nObj + 1;
    }

    /** cache_evict_base and cache_remove_obj_base */
    method RemoveObjBase(obj: CacheObj, ghost objs: seq<CacheObj>, ghost k: nat)
      requires Books(objs) && NoRepeats(objs) && k < |objs| && objs[k] == obj
      modifies this
      ensures Books(RemoveAt(objs, k)) && table == old(table) - {obj.objId}
    {
      DropIndexed(table, objs, k);
      Lighter(objs, k, objMdSize);
      hide Indexed, Weight, Entries, NoRepeats, RemoveAt;
      occupiedByte := occupiedByte - (obj.objSize + objMdSize);
      nObj := nObj - 1;
      table := table - {obj.objId};
    }

    lemma BooksPromote(objs: seq<CacheObj>, k: nat)
      requires Books(objs) && NoRepeats(objs) && k < |objs|
      ensures Has(Entries(objs), objs[k].objId) && IndexOf(Entries(objs), objs[k].objId) == k
      ensures Entries(RemoveAt(objs, k)) == Without(Entries(objs), objs[k].objId)
      ensures Entries([objs[k]] + RemoveAt(objs, k)) == Promote(Entries(objs), objs[k].objId)
    {
      EntriesPromote(table, objs, k);
    }

    lemma BooksHas(objs: seq<CacheObj>, x: ObjId)
      requires Books(objs)
      ensures Has(Entries(objs), x) <==> x in table
      ensures x in table ==> table[x] in objs && table[x].objId == x
    {
      EntriesHas(table, objs, x);
    }

    /** Moving object `k` to the front changes nothing here. */
    lemma BooksFront(objs: seq<CacheObj>, k: nat)
      requires Books(objs) && NoRepeats(objs) && k < |objs|
      ensures Books([objs[k]] + RemoveAt(objs, k))
      ensures objs[k] !in RemoveAt(objs, k) && SetOf([objs[k]] + RemoveAt(objs, k)) == SetOf(objs)
    {
      FrontIndexed(table, objs, k);
      Regrouped(objs, k);
      Lighter(objs, k, objMdSize);
      Heavier(objs[k], RemoveAt(objs, k), objMdSize);
    }
  }
}
