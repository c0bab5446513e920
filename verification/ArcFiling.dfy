/** Several queues of objects that share one hash table. */
module ArcFiling {
  import opened NextUse
  import opened Lru
  import opened ObjQueue

  type Lists = seq<seq<CacheObj>>

  /** Every object of the table is in exactly one list, and the lists hold nothing else. */
  ghost predicate Filed(table: map<ObjId, CacheObj>, ls: Lists)
  {
    && (forall i, o: CacheObj | 0 <= i < |ls| && o in ls[i] :: o.objId in table && table[o.objId] == o)
    && (forall i, j | 0 <= i < j < |ls| :: SetOf(ls[i]) !! SetOf(ls[j]))
    && (forall i | 0 <= i < |ls| :: NoRepeats(ls[i]))
    && (forall x | x in table :: table[x].objId == x && Somewhere(table[x], ls))
  }

  ghost predicate Somewhere(o: CacheObj, ls: Lists)
  {
    exists i :: 0 <= i < |ls| && o in ls[i]
  }

  /** The entries of a queue of objects. */
  ghost function Snap(s: seq<CacheObj>): (q: Lru.Queue)
    ensures |q| == |s|
    ensures forall k | 0 <= k < |s| :: q[k] == Entry(s[k].objId, s[k].objSize)
  {
    seq(|s|, k requires 0 <= k < |s| => Entry(s[k].objId, s[k].objSize))
  }

  lemma RemoveSet(s: seq<CacheObj>, k: nat)
    requires NoRepeats(s) && k < |s|
    ensures NoRepeats(RemoveAt(s, k)) && SetOf(RemoveAt(s, k)) == SetOf(s) - {s[k]}
  {
    var r := RemoveAt(s, k);
    forall o | o in s && o != s[k]
      ensures o in r
    {
      var i :| 0 <= i < |s| && s[i] == o;
      assert r[if i < k then i else i - 1] == o;
    }
    forall o | o in r
      ensures o in s && o != s[k]
    {
      var i :| 0 <= i < |r| && r[i] == o;
      assert s[if i < k then i else i + 1] == o;
    }
  }

  lemma AddSet(s: seq<CacheObj>, o: CacheObj)
    requires NoRepeats(s) && o !in s
    ensures NoRepeats([o] + s) && SetOf([o] + s) == SetOf(s) + {o}
  {
    var r := [o] + s;
    assert r[0] == o;
    forall p | p in s
      ensures p in r
    {
      var i :| 0 <= i < |s| && s[i] == p;
      assert r[i + 1] == p;
    }
  }

  /** Take object `k` out of list `i`. */
  lemma Unfile(table: map<ObjId, CacheObj>, ls: Lists, i: nat, k: nat)
    requires Filed(table, ls) && i < |ls| && k < |ls[i]|
    ensures var ms := ls[i := RemoveAt(ls[i], k)];
            Filed(table - {ls[i][k].objId}, ms) && (forall j | 0 <= j < |ls| :: ls[i][k] !in ms[j])
  {
    var o := ls[i][k];
    var ms := ls[i := RemoveAt(ls[i], k)];
    RemoveSet(ls[i], k);
    assert o in SetOf(ls[i]);
    forall j | 0 <= j < |ls|
      ensures SetOf(ms[j]) == SetOf(ls[j]) - {o}
    {
    }
    UnfileIndex(table, ls, ms, o);
  }

  lemma UnfileIndex(table: map<ObjId, CacheObj>, ls: Lists, ms: Lists, o: CacheObj)
    requires Filed(table, ls) && |ms| == |ls| && o.objId in table && table[o.objId] == o
    requires forall j | 0 <= j < |ls| :: SetOf(ms[j]) == SetOf(ls[j]) - {o}
    requires forall j | 0 <= j < |ls| :: NoRepeats(ms[j])
    ensures Filed(table - {o.objId}, ms)
    ensures forall j | 0 <= j < |ls| :: o !in ms[j]
  {
    forall j, p: CacheObj | 0 <= j < |ls| && p in ms[j]
      ensures p in ls[j] && p != o
    {
      assert p in SetOf(ms[j]);
    }
    forall x | x in table && x != o.objId
      ensures Somewhere(table[x], ms)
    {
      var j :| 0 <= j < |ls| && table[x] in ls[j];
      assert table[x] in SetOf(ms[j]);
    }
  }

  /** Put a new object at the head of list `i`. */
  lemma File(table: map<ObjId, CacheObj>, ls: Lists, i: nat, o: CacheObj)
    requires Filed(table, ls) && i < |ls| && o.objId !in table
    ensures o !in ls[i]
    ensures Filed(table[o.objId := o], ls[i := [o] + ls[i]])
  {
    var t, ms := table[o.objId := o], ls[i := [o] + ls[i]];
    AddSet(ls[i], o);
    forall j, p: CacheObj | 0 <= j < |ls| && p in ms[j]
      ensures p.objId in t && t[p.objId] == p
    {
      assert p in SetOf(ms[j]);
      assert p == o || p in ls[j];
    }
    forall j | 0 <= j < |ls|
      ensures o !in SetOf(ls[j])
    {
    }
    forall x | x in t
      ensures t[x].objId == x && Somewhere(t[x], ms)
    {
      if x == o.objId {
        assert o in SetOf(ms[i]);
      } else {
        var j :| 0 <= j < |ls| && table[x] in ls[j];
        assert table[x] in SetOf(ms[j]);
      }
    }
  }

  /** Move object `k` of list `i` to the head of list `j`. */
  lemma Refile(table: map<ObjId, CacheObj>, ls: Lists, i: nat, k: nat, j: nat)
    requires Filed(table, ls) && i < |ls| && k < |ls[i]| && j < |ls|
    ensures var ms := ls[i := RemoveAt(ls[i], k)];
            Filed(table, ms[j := [ls[i][k]] + ms[j]]) && ls[i][k] !in ms[j]
  {
    var o := ls[i][k];
    Unfile(table, ls, i, k);
    File(table - {o.objId}, ls[i := RemoveAt(ls[i], k)], j, o);
    assert (table - {o.objId})[o.objId := o] == table;
  }

  /** The hash table finds an object exactly if some list has it. */
  lemma Located(table: map<ObjId, CacheObj>, ls: Lists, i: nat, x: ObjId)
    requires Filed(table, ls) && i < |ls|
    ensures Has(Snap(ls[i]), x) <==> x in table && table[x] in ls[i]
    ensures Has(Snap(ls[i]), x) ==> ls[i][IndexOf(Snap(ls[i]), x)] == table[x]
  {
    var q := Snap(ls[i]);
    if Has(q, x) {
      var k := IndexOf(q, x);
      assert ls[i][k] in ls[i];
    }
    if x in table && table[x] in ls[i] {
      var k :| 0 <= k < |ls[i]| && ls[i][k] == table[x];
      assert q[k].id == x;
    }
  }

  lemma SnapOps(s: seq<CacheObj>, k: nat, o: CacheObj)
    ensures Snap([o] + s) == [Entry(o.objId, o.objSize)] + Snap(s)
    ensures k < |s| ==> Snap(RemoveAt(s, k)) == RemoveAt(Snap(s), k)
  {
  }

  /** Object `k` of one queue goes to the head of another. */
  method Transfer(from: ObjQueue.Queue, to: ObjQueue.Queue, obj: CacheObj, ghost k: nat)
    requires from != to && from.Valid() && to.Valid() && SetOf(from.objs) !! SetOf(to.objs)
    requires k < |from.objs| && from.objs[k] == obj
    modifies from, to, SetOf(from.objs)`prev, SetOf(from.objs)`next, SetOf(to.objs)`prev
    ensures from.Valid() && from.objs == RemoveAt(old(from.objs), k)
    ensures to.Valid() && to.objs == [obj] + old(to.objs)
    ensures obj in old(SetOf(from.objs)) && SetOf(from.objs) == old(SetOf(from.objs)) - {obj}
    ensures SetOf(to.objs) == old(SetOf(to.objs)) + {obj}
  {
    hide ObjQueue.Queue.Valid, RemoveAt;
    from.Distinct();
    to.Distinct();
    RemoveSet(from.objs, k);
    Member(from.objs, k);
    NotMember(to.objs, obj);
    AddSet(to.objs, obj);
    from.RemoveObj(obj, k);
    to.PrependToHead(obj);
  }

  /** Object `k` leaves its queue. */
  method Take(from: ObjQueue.Queue, obj: CacheObj, ghost k: nat)
    requires from.Valid() && k < |from.objs| && from.objs[k] == obj
    modifies from, SetOf(from.objs)`prev, SetOf(from.objs)`next
    ensures from.Valid() && from.objs == RemoveAt(old(from.objs), k)
    ensures obj in old(SetOf(from.objs)) && SetOf(from.objs) == old(SetOf(from.objs)) - {obj}
  {
    hide ObjQueue.Queue.Valid, RemoveAt;
    from.Distinct();
    RemoveSet(from.objs, k);
    Member(from.objs, k);
    from.RemoveObj(obj, k);
  }

  lemma Member(s: seq<CacheObj>, k: nat)
    requires k < |s|
    ensures s[k] in SetOf(s)
  {
  }

  lemma NotMember(s: seq<CacheObj>, o: CacheObj)
    requires o !in SetOf(s)
    ensures o !in s
  {
  }
}
