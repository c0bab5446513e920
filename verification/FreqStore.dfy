/** The hash table and the frequency map of a CR-LFU cache, and what they hold. */
module FreqStore {
  import opened NextUse
  import opened ObjQueue
  import opened FreqNodes
  import opened CrLfuSpec

  /** What a list of objects with one frequency holds. */
  datatype Node = Node(objs: seq<ObjId>, nObj: int)

  datatype Obj = Obj(size: nat, freq: int)

  /** The node of frequency `f` with `x` added to its tail; a missing node is made. */
  function Appended(freqMap: map<int, Node>, f: int, x: ObjId): Node
  {
    if f in freqMap then Node(freqMap[f].objs + [x], freqMap[f].nObj + 1) else Node([x], 1)
  }

  /** The node of frequency `f` without `x`. */
  function Removed(freqMap: map<int, Node>, f: int, x: ObjId): Node
    requires f in freqMap
  {
    Node(Drop(freqMap[f].objs, x), freqMap[f].nObj - 1)
  }

  lemma DropIds(objs: seq<CacheObj>, k: nat)
    requires k < |objs| && forall j | 0 <= j < k :: objs[j].objId != objs[k].objId
    ensures ObjIds(RemoveAt(objs, k)) == Drop(ObjIds(objs), objs[k].objId)
  {
    var ids := ObjIds(objs);
    hide Drop;
    DropAt(ids[..k], ids[k], ids[k + 1..]);
    assert ids == ids[..k] + [ids[k]] + ids[k + 1..];
    assert ObjIds(RemoveAt(objs, k)) == ids[..k] + ids[k + 1..];
  }

  class Store {
    var hashtable: map<ObjId, CacheObj>
    var freqMap: map<int, FreqNode>
    ghost var table: map<ObjId, Obj>
    ghost var nodes: map<int, Node>

    ghost predicate Indexed()
      reads `hashtable, `table, hashtable.Values`freq
    {
      && hashtable.Keys == table.Keys
      && forall x | x in hashtable ::
           hashtable[x].objId == x && table[x] == Obj(hashtable[x].objSize, hashtable[x].freq)
    }

    /** The object is the one the hash table knows, and it has this frequency. */
    ghost predicate Known(o: CacheObj, f: int)
      reads `hashtable, o`freq
    {
      o.objId in hashtable && hashtable[o.objId] == o && o.freq == f
    }

    /** The node of frequency `f` is as `nodes` says. */
    ghost predicate NodeOk(f: int)
      requires f in freqMap && f in nodes
      reads `hashtable, `freqMap, `nodes, freqMap[f], freqMap[f].queue, SetOf(freqMap[f].queue.objs)
    {
      var n := freqMap[f];
      && n.freq == f && n.Valid() && nodes[f] == Node(ObjIds(n.queue.objs), n.nObj)
      && forall o | o in n.queue.objs :: Known(o, f)
    }

    ghost function Queues(): set<ObjQueue.Queue>
      reads `freqMap
    {
      set f | f in freqMap :: freqMap[f].queue
    }

    ghost function Objs(): set<CacheObj>
      reads `freqMap, Queues()
    {
      set f, o | f in freqMap && o in freqMap[f].queue.objs :: o
    }

    /** The lists hold objects of the hash table only. */
    ghost predicate Within()
      reads this, Queues()
    {
      forall f | f in freqMap :: SetOf(freqMap[f].queue.objs) <= hashtable.Values
    }

    ghost predicate Valid()
      reads Footprint()
    {
      && (forall f | f in freqMap :: freqMap[f] in freqMap.Values && freqMap[f].queue in Queues())
      && Within() && Indexed() && freqMap.Keys == nodes.Keys
      && (forall f | f in freqMap :: NodeOk(f))
      && (forall f, g | f in freqMap && g in freqMap && f != g :: freqMap[f].queue != freqMap[g].queue)
    }

    constructor ()
      ensures Valid() && table == map[] && nodes == map[1 := Node([], 0)]
      ensures forall o | o in Footprint() :: fresh(o)
    {
      var one := new FreqNode(1);
      hashtable, freqMap := map[], map[1 := one];
      table, nodes := map[], map[1 := Node([], 0)];
      new;
      hide FreqNode.Valid;
      assert ObjIds([]) == [];
      assert freqMap[1] in freqMap.Values && freqMap[1].queue in Queues();
      assert NodeOk(1);
    }

    /** Everything a method may change. */
    ghost function Footprint(): (f: set<object>)
      reads `freqMap, `hashtable
      ensures this in f
    {
      {this} + (set n | n in freqMap.Values :: n as object) + (set q | q in Queues() :: q as object)
      + (set o | o in hashtable.Values :: o as object)
    }

    lemma Alive()
      ensures forall o | o in Footprint() :: allocated(o)
    {
    }

    /** Where the object is in the list of its frequency. */
    lemma Where(x: ObjId) returns (k: nat)
      requires Valid() && x in table && table[x].freq in nodes && x in nodes[table[x].freq].objs
      ensures x in hashtable && hashtable[x].freq == table[x].freq && table[x].freq in freqMap
      ensures var objs := freqMap[table[x].freq].queue.objs;
              && k < |objs| && objs[k] == hashtable[x] && hashtable[x].objId == x
              && forall j | 0 <= j < k :: objs[j].objId != x
    {
      var f := table[x].freq;
      assert NodeOk(f);
      var n := freqMap[f];
      n.NoRepeat();
      k :| 0 <= k < |n.queue.objs| && ObjIds(n.queue.objs)[k] == x;
      assert n.queue.objs[k] in n.queue.objs;
      forall j | 0 <= j < k
        ensures n.queue.objs[j].objId != x
      {
        assert n.queue.objs[j] in n.queue.objs;
      }
    }

    /** Lists of different frequencies share no object. */
    lemma Apart(f: int)
      requires Valid() && f in freqMap
      ensures forall g | g in freqMap && g != f ::
                freqMap[g] != freqMap[f] && freqMap[g].queue != freqMap[f].queue &&
                SetOf(freqMap[g].queue.objs) !! SetOf(freqMap[f].queue.objs)
    {
      forall g | g in freqMap && g != f
        ensures freqMap[g] != freqMap[f] && freqMap[g].queue != freqMap[f].queue
        ensures SetOf(freqMap[g].queue.objs) !! SetOf(freqMap[f].queue.objs)
      {
        assert NodeOk(f) && NodeOk(g);
      }
    }

    /** The object leaves its list but stays in the hash table. */
    method TakeOut(obj: CacheObj, ghost k: nat, evicting: bool)
      requires Valid() && Known(obj, obj.freq) && obj.freq in freqMap
      requires k < |freqMap[obj.freq].queue.objs| && freqMap[obj.freq].queue.objs[k] == obj
      requires forall j | 0 <= j < k :: freqMap[obj.freq].queue.objs[j].objId != obj.objId
      requires evicting ==> k == |freqMap[obj.freq].queue.objs| - 1
      modifies `nodes, freqMap[obj.freq], freqMap[obj.freq].queue,
               SetOf(freqMap[obj.freq].queue.objs)`prev, SetOf(freqMap[obj.freq].queue.objs)`next
      ensures Valid() && obj !in Objs()
      ensures obj.freq in old(nodes) && nodes == old(nodes)[obj.freq := Removed(old(nodes), obj.freq, obj.objId)]
    {
      hide FreqNode.Valid, Drop, RemoveAt, ObjIds, Indexed;
      var f := obj.freq;
      assert NodeOk(f);
      Apart(f);
      var n := freqMap[f];
      ghost var objs := n.queue.objs;
      DropIds(objs, k);
      n.NoRepeat();
      GoneFrom(objs, k);
      nodes := nodes[f := Removed(nodes, f, obj.objId)];
      n.TakeAt(obj, k, evicting);
      forall g | g in freqMap
        ensures NodeOk(g)
      {
        assert old(NodeOk(g));
      }
    }

    static lemma GoneFrom(objs: seq<CacheObj>, k: nat)
      requires NoRepeats(objs) && k < |objs|
      ensures objs[k] !in RemoveAt(objs, k) && forall o | o in RemoveAt(objs, k) :: o in objs
    {
      NoRepeatsRemove(objs, k);
    }

    /** An object in no list is added to the list of its frequency; a missing node is made. */
    method PutIn(obj: CacheObj)
      requires Valid() && Known(obj, obj.freq) && obj !in Objs()
      modifies Footprint()
      ensures Valid() && nodes == old(nodes)[obj.freq := Appended(old(nodes), obj.freq, obj.objId)]
      ensures table == old(table) && hashtable == old(hashtable) && obj.freq == old(obj.freq)
      ensures forall o | o in Footprint() && o !in old(Footprint()) :: fresh(o)
    {
      hide Valid, Footprint;
      var f := obj.freq;
      Owned();
      MadeNode(nodes, f, obj.objId);
      if f !in freqMap {
        AddNode(f);
        Owned();
      }
      Append(obj);
    }

    static lemma MadeNode(m: map<int, Node>, f: int, x: ObjId)
      ensures f !in m ==>
                var made := m[f := Node([], 0)]; made[f := Appended(made, f, x)] == m[f := Appended(m, f, x)]
    {
      assert [] + [x] == [x];
    }

    /** Everything in a list is in the hash table, and all of it is in the footprint. */
    lemma Owned()
      requires Valid()
      ensures freqMap.Keys == nodes.Keys
      ensures forall o | o in Objs() :: o in hashtable.Values && o in Footprint()
      ensures forall f | f in freqMap :: freqMap[f] in Footprint() && freqMap[f].queue in Footprint()
      ensures forall f | f in freqMap :: forall o | o in SetOf(freqMap[f].queue.objs) :: o in Objs()
      ensures forall x | x in hashtable :: hashtable[x] in Footprint()
    {
      assert forall x | x in hashtable :: hashtable[x] in hashtable.Values;
      forall o | o in Objs()
        ensures o in hashtable.Values && o in Footprint()
      {
        var f :| f in freqMap && o in freqMap[f].queue.objs;
        assert NodeOk(f) && Known(o, f);
      }
      forall f | f in freqMap
        ensures freqMap[f] in Footprint() && freqMap[f].queue in Footprint()
      {
        assert freqMap[f] in freqMap.Values && freqMap[f].queue in Queues();
      }
    }

    method NewNode(f: int) returns (n: FreqNode)
      requires Valid()
      ensures Valid() && n.Valid() && n.freq == f && n.queue.objs == [] && n.nObj == 0
      ensures fresh(n) && fresh(n.queue)
    {
      hide Valid, Footprint;
      Alive();
      n := new FreqNode(f);
    }

    /** A node without objects. */
    method AddNode(f: int)
      requires Valid() && f !in freqMap
      modifies `freqMap, `nodes
      ensures Valid() && nodes == old(nodes)[f := Node([], 0)] && freqMap.Keys == old(freqMap.Keys) + {f}
      ensures forall g | g in old(freqMap) :: freqMap[g] == old(freqMap[g])
      ensures forall o | o in Footprint() && o !in old(Footprint()) :: fresh(o)
      ensures fresh(freqMap[f]) && fresh(freqMap[f].queue) && freqMap[f].queue.objs == []
    {
      hide *;
      var n := NewNode(f);
      Install(f, n);
      Grown(f);
    }

    method Install(f: int, n: FreqNode)
      requires Valid() && f !in freqMap && n.Valid() && n.freq == f && n.queue.objs == [] && n.nObj == 0
      requires forall g | g in freqMap :: freqMap[g].queue != n.queue
      modifies `freqMap, `nodes
      ensures Valid() && nodes == old(nodes)[f := Node([], 0)] && freqMap == old(freqMap)[f := n]
    {
      hide FreqNode.Valid, Indexed;
      freqMap := freqMap[f := n];
      nodes := nodes[f := Node([], 0)];
      assert ObjIds([]) == [];
      forall g | g in freqMap
        ensures NodeOk(g) && freqMap[g] in freqMap.Values && freqMap[g].queue in Queues()
      {
        assert g != f ==> old(NodeOk(g));
      }
    }

    twostate lemma Grown(f: int)
      requires hashtable == old(hashtable) && freqMap.Keys == old(freqMap.Keys) + {f}
      requires forall g | g in old(freqMap) :: freqMap[g] == old(freqMap[g])
      requires fresh(freqMap[f]) && fresh(freqMap[f].queue)
      ensures forall o | o in Footprint() && o !in old(Footprint()) :: fresh(o)
    {
      assert forall g | g in old(freqMap) :: old(freqMap[g]) in old(freqMap.Values) &&
                old(freqMap[g].queue) in old(Queues());
      assert forall g | g in freqMap :: fresh(freqMap[g]) || freqMap[g] in old(freqMap.Values);
      forall q | q in Queues()
        ensures fresh(q) || q in old(Queues())
      {
        var g :| g in freqMap && freqMap[g].queue == q;
      }
    }

    method Append(obj: CacheObj)
      requires Valid() && Known(obj, obj.freq) && obj.freq in freqMap && obj !in Objs()
      modifies `nodes, freqMap[obj.freq], freqMap[obj.freq].queue, SetOf(freqMap[obj.freq].queue.objs)`next,
               obj`prev, obj`next
      ensures Valid() && nodes == old(nodes)[obj.freq := Appended(old(nodes), obj.freq, obj.objId)]
    {
      hide FreqNode.Valid, ObjIds, Indexed;
      var f := obj.freq;
      assert NodeOk(f);
      Apart(f);
      var n := freqMap[f];
      AppendIds(n.queue.objs, obj);
      nodes := nodes[f := Appended(nodes, f, obj.objId)];
      n.AddToTail(obj);
      forall g | g in freqMap
        ensures NodeOk(g)
      {
        assert old(NodeOk(g));
      }
    }

    static lemma AppendIds(objs: seq<CacheObj>, obj: CacheObj)
      ensures ObjIds(objs + [obj]) == ObjIds(objs) + [obj.objId]
    {
    }

    // ---------- the three changes of a CR-LFU cache ----------

    /** The object counts one more access. */
    method Count(obj: CacheObj)
      requires Valid() && Known(obj, obj.freq) && obj !in Objs()
      modifies `table, obj`freq
      ensures Valid() && Known(obj, obj.freq) && obj !in Objs() && obj.freq == old(obj.freq) + 1
      ensures table == old(table)[obj.objId := old(table)[obj.objId].(freq := obj.freq)]
    {
      hide FreqNode.Valid, ObjIds;
      ghost var x := obj.objId;
      obj.freq := obj.freq + 1;
      table := table[x := table[x].(freq := obj.freq)];
      forall g | g in freqMap
        ensures NodeOk(g)
      {
        assert old(NodeOk(g));
        assert obj !in freqMap[g].queue.objs;
      }
    }

    /** The object moves from the list of its frequency to the tail of the next. */
    method Raise(x: ObjId)
      requires Valid() && x in table && table[x].freq in nodes && x in nodes[table[x].freq].objs
      modifies Footprint()
      ensures Valid() && forall o | o in Footprint() && o !in old(Footprint()) :: fresh(o)
      ensures var freq := old(table[x].freq) + 1;
              && table == old(table)[x := old(table[x]).(freq := freq)]
              && var moved := old(nodes)[freq - 1 := Removed(old(nodes), freq - 1, x)];
                 nodes == moved[freq := Appended(moved, freq, x)]
    {
      hide Valid, Footprint;
      Owned();
      ghost var k := Where(x);
      var obj := hashtable[x];
      TakeOut(obj, k, false);
      Count(obj);
      PutIn(obj);
    }

    /** A new object of frequency 1. */
    method Add(x: ObjId, size: nat)
      requires Valid() && x !in table
      modifies Footprint()
      ensures Valid() && forall o | o in Footprint() && o !in old(Footprint()) :: fresh(o)
      ensures table == old(table)[x := Obj(size, 1)] && nodes == old(nodes)[1 := Appended(old(nodes), 1, x)]
    {
      hide Footprint, Valid;
      var obj := NewObj(x, size);
      PutIn(obj);
    }

    method FreshObj(x: ObjId, size: nat) returns (obj: CacheObj)
      requires Valid()
      ensures Valid() && obj.objId == x && obj.objSize == size && obj.freq == 1 && fresh(obj)
      ensures obj !in hashtable.Values
    {
      hide Valid, Footprint;
      Alive();
      obj := new CacheObj(x, size);
      obj.freq := 1;
    }

    method NewObj(x: ObjId, size: nat) returns (obj: CacheObj)
      requires Valid() && x !in table
      modifies `hashtable, `table
      ensures Valid() && obj !in Objs() && Known(obj, 1) && obj.objId == x && fresh(obj)
      ensures table == old(table)[x := Obj(size, 1)]
      ensures forall o | o in Footprint() && o !in old(Footprint()) :: o == obj
    {
      obj := FreshObj(x, size);
      hide FreqNode.Valid, ObjIds;
      label made:
      hashtable := hashtable[x := obj];
      table := table[x := Obj(size, 1)];
      forall g | g in freqMap
        ensures NodeOk(g) && obj !in freqMap[g].queue.objs
      {
        assert old@made(NodeOk(g));
      }
      assert forall o | o in hashtable.Values :: o == obj || o in old(hashtable.Values);
    }

    /** The object leaves its list and the hash table. */
    method Remove(x: ObjId, evicting: bool)
      requires Valid() && x in table && table[x].freq in nodes && x in nodes[table[x].freq].objs
      requires evicting ==> var ids := nodes[table[x].freq].objs; x == ids[|ids| - 1]
      modifies Footprint()
      ensures Valid() && Footprint() <= old(Footprint())
      ensures table == old(table) - {x}
      ensures var f := old(table[x].freq); nodes == old(nodes)[f := Removed(old(nodes), f, x)]
    {
      hide Valid, Footprint;
      Owned();
      ghost var k := Where(x);
      var obj := hashtable[x];
      AtEnd(x, k, evicting);
      TakeOut(obj, k, evicting);
      Forget(obj);
    }

    /** Ids are not repeated, so the last id belongs to the last object. */
    lemma AtEnd(x: ObjId, k: nat, evicting: bool)
      requires Valid() && x in table && table[x].freq in nodes && table[x].freq in freqMap
      requires var objs, ids := freqMap[table[x].freq].queue.objs, nodes[table[x].freq].objs;
               && k < |objs| && x in hashtable && objs[k] == hashtable[x] && hashtable[x].objId == x
               && ids != [] && (evicting ==> x == ids[|ids| - 1])
      ensures evicting ==> k == |freqMap[table[x].freq].queue.objs| - 1
    {
      var n := freqMap[table[x].freq];
      assert NodeOk(table[x].freq);
      n.NoRepeat();
      var last := |n.queue.objs| - 1;
      if evicting {
        assert n.queue.objs[last] in n.queue.objs;
      }
    }

    /** The object leaves the hash table. */
    method Forget(obj: CacheObj)
      requires Valid() && Known(obj, obj.freq) && obj !in Objs()
      modifies `hashtable, `table
      ensures Valid() && table == old(table) - {obj.objId} && Footprint() <= old(Footprint())
    {
      hide FreqNode.Valid, ObjIds;
      hashtable := hashtable - {obj.objId};
      table := table - {obj.objId};
      forall g | g in freqMap
        ensures NodeOk(g)
      {
        assert old(NodeOk(g));
        assert obj !in freqMap[g].queue.objs;
      }
      assert forall o | o in hashtable.Values :: o in old(hashtable.Values);
    }

    // ---------- looking things up ----------

    function Contains(x: ObjId): (found: bool)
      requires Valid()
      reads Footprint()
      ensures found <==> x in table
    {
      x in hashtable
    }

    function Frequency(x: ObjId): (freq: int)
      requires Valid() && x in table
      reads Footprint()
      ensures freq == table[x].freq
    {
      assert hashtable[x] in hashtable.Values;
      hashtable[x].freq
    }

    function Size(x: ObjId): (size: nat)
      requires Valid() && x in table
      reads Footprint()
      ensures size == table[x].size
    {
      hashtable[x].objSize
    }

    /** How many objects have frequency `f`. */
    function CountAt(f: int): (n: int)
      requires Valid()
      reads Footprint()
      ensures n == if f in nodes then nodes[f].nObj else 0
    {
      if f in freqMap then assert NodeOk(f); freqMap[f].nObj else 0
    }

    /** The object at the tail of the list. */
    function LastAt(f: int): (x: ObjId)
      requires Valid() && f in nodes && nodes[f].objs != []
      reads Footprint()
      ensures x == nodes[f].objs[|nodes[f].objs| - 1]
    {
      assert NodeOk(f);
      freqMap[f].Tail();
      freqMap[f].queue.tail.objId
    }
  }
}
