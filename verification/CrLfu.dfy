/** The CR-LFU cache (CR_LFU.c without a companion cache) and cache_get_base (cache.c): buckets by frequency
    and a cached minimum frequency. */
module CrLfu {
  import opened NextUse
  import opened ObjQueue
  import opened CrLfuSpec
  import opened FreqStore

  /** The hash table holds what the log holds. */
  ghost predicate Tabled(table: map<ObjId, Obj>, q: Log)
  {
    && Distinct(q) && (forall x :: x in table <==> Has(q, x))
    && (forall k | 0 <= k < |q| :: q[k].id in table && table[q[k].id] == Obj(q[k].size, q[k].freq))
  }

  /** Every object is in the bucket of its frequency, in order of arrival, and the buckets count right. */
  ghost predicate Bucketed(freqMap: map<int, Node>, q: Log)
  {
    && 1 in freqMap
    && (forall f | f in freqMap :: freqMap[f] == Node(Bucket(q, f), |Bucket(q, f)|))
    && (forall f | f !in freqMap :: Bucket(q, f) == [])
  }

  ghost predicate Bounded(q: Log, maxFreq: int)
  {
    1 <= maxFreq && forall k | 0 <= k < |q| :: 1 <= q[k].freq <= maxFreq
  }

  ghost predicate AllAbove(q: Log, f: int)
  {
    forall k | 0 <= k < |q| :: f < q[k].freq
  }

  /** The least frequency with an object. */
  ghost predicate Least(q: Log, f: int)
  {
    Bucket(q, f) != [] && AllAbove(q, f - 1)
  }

  // ---------- each step on the table, the buckets and the log ----------

  lemma Lookup(table: map<ObjId, Obj>, q: Log, x: ObjId)
    requires Tabled(table, q)
    ensures x in table <==> Has(q, x)
    ensures x in table ==> q[IndexOf(q, x)] == Item(x, table[x].size, table[x].freq)
  {
  }

  lemma NodeOf(freqMap: map<int, Node>, q: Log, f: int)
    requires Bucketed(freqMap, q)
    ensures f in freqMap ==> freqMap[f] == Node(Bucket(q, f), |Bucket(q, f)|)
    ensures f !in freqMap ==> Bucket(q, f) == []
    ensures 1 in freqMap
  {
  }

  lemma IndexAdd(table: map<ObjId, Obj>, q: Log, i: Item)
    requires Tabled(table, q) && i.id !in table
    ensures Tabled(table[i.id := Obj(i.size, i.freq)], q + [i])
  {
    Lookup(table, q, i.id);
    Added(q, i, 0);
    forall y
      ensures Has(q + [i], y) <==> Has(q, y) || y == i.id
    {
      AddedHas(q, i, y);
    }
  }

  lemma IndexRemove(table: map<ObjId, Obj>, q: Log, k: nat)
    requires Tabled(table, q) && k < |q|
    ensures Tabled(table - {q[k].id}, RemoveAt(q, k))
  {
    DistinctRemove(q, k);
    var r := RemoveAt(q, k);
    forall j | 0 <= j < |r|
      ensures r[j] == q[if j < k then j else j + 1]
    {
    }
  }

  lemma IndexRaise(table: map<ObjId, Obj>, q: Log, x: ObjId)
    requires Tabled(table, q) && x in table && Has(q, x)
    ensures Tabled(table[x := table[x].(freq := table[x].freq + 1)], Raised(q, x))
  {
    var k := IndexOf(q, x);
    var i := q[k].(freq := q[k].freq + 1);
    IndexRemove(table, q, k);
    IndexAdd(table - {x}, RemoveAt(q, k), i);
    assert (table - {x})[x := Obj(i.size, i.freq)] == table[x := table[x].(freq := table[x].freq + 1)];
  }

  lemma BucketsAdd(freqMap: map<int, Node>, q: Log, i: Item)
    requires Bucketed(freqMap, q)
    ensures Bucketed(freqMap[i.freq := Appended(freqMap, i.freq, i.id)], q + [i])
  {
    forall f
      ensures Bucket(q + [i], f) == if i.freq == f then Bucket(q, f) + [i.id] else Bucket(q, f)
    {
      BucketAdd(q, i, f);
    }
  }

  lemma {:induction false} BucketsRemove(freqMap: map<int, Node>, q: Log, k: nat)
    requires Bucketed(freqMap, q) && k < |q| && Distinct(q)
    ensures var f, x := q[k].freq, q[k].id;
            && f in freqMap && freqMap[f].objs == Bucket(q, f) && x in freqMap[f].objs
            && Bucketed(freqMap[f := Removed(freqMap, f, x)], RemoveAt(q, k))
  {
    forall f
      ensures Bucket(RemoveAt(q, k), f) == if q[k].freq == f then Drop(Bucket(q, f), q[k].id) else Bucket(q, f)
      ensures q[k].freq == f ==> q[k].id in Bucket(q, f) && |Bucket(RemoveAt(q, k), f)| == |Bucket(q, f)| - 1
    {
      BucketRemove(q, k, f);
    }
  }

  lemma BoundedRemove(q: Log, k: nat, maxFreq: int)
    requires Bounded(q, maxFreq) && k < |q|
    ensures Bounded(RemoveAt(q, k), maxFreq)
  {
    var r := RemoveAt(q, k);
    forall j | 0 <= j < |r|
      ensures 1 <= r[j].freq <= maxFreq
    {
      assert r[j] == q[if j < k then j else j + 1];
    }
  }

  lemma BoundedRaise(q: Log, x: ObjId, maxFreq: int)
    requires Bounded(q, maxFreq) && Has(q, x)
    ensures var freq := q[IndexOf(q, x)].freq + 1; Bounded(Raised(q, x), if maxFreq < freq then freq else maxFreq)
  {
    BoundedRemove(q, IndexOf(q, x), maxFreq);
  }

  /** Nothing is left at the least frequency: everything is above it. */
  lemma LeastGone(q: Log, f: int)
    requires AllAbove(q, f - 1) && Bucket(q, f) == []
    ensures AllAbove(q, f)
  {
    forall k | 0 <= k < |q|
      ensures f < q[k].freq
    {
      BucketHas(q, f, q[k].id);
    }
  }

  lemma RemoveAbove(q: Log, k: nat, f: int)
    requires AllAbove(q, f) && k < |q|
    ensures AllAbove(RemoveAt(q, k), f)
  {
    var r := RemoveAt(q, k);
    forall j | 0 <= j < |r|
      ensures f < r[j].freq
    {
      assert r[j] == q[if j < k then j else j + 1];
    }
  }

  /** Taking an object out keeps the least frequency, unless it was the last one there. */
  lemma LeastRemove(q: Log, k: nat, f: int)
    requires Least(q, f) && k < |q| && Distinct(q)
    ensures AllAbove(RemoveAt(q, k), f - 1)
    ensures q[k].freq != f ==> Least(RemoveAt(q, k), f)
  {
    BucketRemove(q, k, f);
    RemoveAbove(q, k, f - 1);
  }

  lemma LeastRaise(q: Log, x: ObjId, f: int)
    requires Least(q, f) && Has(q, x) && Distinct(q)
    ensures AllAbove(Raised(q, x), f - 1)
    ensures q[IndexOf(q, x)].freq != f ==> Least(Raised(q, x), f)
  {
    var k := IndexOf(q, x);
    LeastRemove(q, k, f);
    BucketAdd(RemoveAt(q, k), q[k].(freq := q[k].freq + 1), f);
  }

  lemma LeastOne(q: Log, i: Item, maxFreq: int)
    requires Bounded(q, maxFreq) && i.freq == 1
    ensures Least(q + [i], 1) && Bounded(q + [i], maxFreq)
  {
    BucketAdd(q, i, 1);
  }

  lemma DistinctOf(table: map<ObjId, Obj>, q: Log)
    requires Tabled(table, q)
    ensures Distinct(q)
  {
  }

  // ---------- whole operations ----------

  lemma RaiseAll(table: map<ObjId, Obj>, freqMap: map<int, Node>, q: Log, maxFreq: int, x: ObjId, md: nat)
    requires Tabled(table, q) && Bucketed(freqMap, q) && Bounded(q, maxFreq) && x in table
    ensures Has(q, x) && q[IndexOf(q, x)].freq == table[x].freq
    ensures var freq := table[x].freq + 1;
            && freq - 1 in freqMap
            && Tabled(table[x := table[x].(freq := freq)], Raised(q, x))
            && Bounded(Raised(q, x), if maxFreq < freq then freq else maxFreq)
            && var moved := freqMap[freq - 1 := Removed(freqMap, freq - 1, x)];
               Bucketed(moved[freq := Appended(moved, freq, x)], Raised(q, x))
    ensures Weight(Raised(q, x), md) == Weight(q, md) && |Raised(q, x)| == |q|
  {
    hide Bucketed, Bounded, Weight, Removed, Appended, Tabled, Distinct, Bucket, Drop;
    Lookup(table, q, x);
    DistinctOf(table, q);
    var k, freq := IndexOf(q, x), table[x].freq + 1;
    RaisedKeeps(q, x, md);
    IndexRaise(table, q, x);
    BucketsRemove(freqMap, q, k);
    BoundedRaise(q, x, maxFreq);
    BucketsAdd(freqMap[freq - 1 := Removed(freqMap, freq - 1, x)], RemoveAt(q, k), q[k].(freq := freq));
  }

  lemma InsertAll(table: map<ObjId, Obj>, freqMap: map<int, Node>, q: Log, maxFreq: int, i: Item, md: nat)
    requires Tabled(table, q) && Bucketed(freqMap, q) && Bounded(q, maxFreq) && i.id !in table && i.freq == 1
    ensures Tabled(table[i.id := Obj(i.size, 1)], q + [i]) && Bounded(q + [i], maxFreq) && Least(q + [i], 1)
    ensures 1 in freqMap
    ensures Bucketed(freqMap[1 := Node(freqMap[1].objs + [i.id], freqMap[1].nObj + 1)], q + [i])
    ensures Weight(q + [i], md) == Weight(q, md) + i.size + md
  {
    hide Tabled, Weight, Bounded, Least;
    IndexAdd(table, q, i);
    WeightAdd(q, i, md);
    BucketsAdd(freqMap, q, i);
    LeastOne(q, i, maxFreq);
  }

  lemma RemoveAll(table: map<ObjId, Obj>, freqMap: map<int, Node>, q: Log, maxFreq: int, k: nat, md: nat)
    requires Tabled(table, q) && Bucketed(freqMap, q) && Bounded(q, maxFreq) && k < |q|
    ensures var f, x := q[k].freq, q[k].id;
            && x in table && table[x] == Obj(q[k].size, f) && f in freqMap && freqMap[f].objs == Bucket(q, f)
            && Tabled(table - {x}, RemoveAt(q, k)) && Bounded(RemoveAt(q, k), maxFreq)
            && Bucketed(freqMap[f := Removed(freqMap, f, x)], RemoveAt(q, k))
    ensures Weight(RemoveAt(q, k), md) == Weight(q, md) - q[k].size - md
  {
    hide Bucketed, Bounded, Weight, Removed, Distinct;
    BucketsRemove(freqMap, q, k);
    BoundedRemove(q, k, maxFreq);
    IndexRemove(table, q, k);
    WeightRemove(q, k, md);
  }

  /** What taking the last of `n` objects of the least frequency leaves. */
  ghost predicate Leaves(n: nat, rest: Log, f: int)
  {
    if n == 1 then AllAbove(rest, f) else rest != [] && Least(rest, f)
  }

  lemma WhatsLeft(n: nat, rest: Log, f: int)
    requires Leaves(n, rest, f)
    ensures n == 1 ==> AllAbove(rest, f)
    ensures n != 1 ==> rest != [] && Least(rest, f)
  {
  }

  /** What the node of the least frequency shows about the victim. */
  lemma EvictAll(freqMap: map<int, Node>, q: Log, minFreq: int)
    requires Bucketed(freqMap, q) && q != [] && Least(q, minFreq) && Distinct(q)
    ensures minFreq in freqMap && freqMap[minFreq].objs == Bucket(q, minFreq) != []
    ensures freqMap[minFreq].nObj == |freqMap[minFreq].objs|
    ensures var k, objs, rest := Victim(q), freqMap[minFreq].objs, RemoveAt(q, Victim(q));
            && q[k].freq == minFreq && q[k].id == objs[|objs| - 1]
            && objs[..|objs| - 1] == Drop(objs, q[k].id) == Bucket(rest, minFreq)
            && Leaves(|objs|, rest, minFreq)
  {
    VictimInBucket(q, minFreq);
    BucketRemove(q, Victim(q), minFreq);
    LeastRemove(q, Victim(q), minFreq);
    var rest := RemoveAt(q, Victim(q));
    if Bucket(rest, minFreq) == [] {
      LeastGone(rest, minFreq);
    }
  }

  class CrLfuCache {
    const cacheSize: nat
    const objMdSize: nat
    const store: Store
    var minFreq: int
    var maxFreq: int
    var occupiedByte: int
    var nObj: int
    ghost var log: Log

    ghost predicate Books()
      reads `occupiedByte, `nObj, `log, store`table
    {
      Tabled(store.table, log) && occupiedByte == Weight(log, objMdSize) && nObj == |log|
    }

    ghost predicate Buckets()
      reads `maxFreq, `log, store`nodes
    {
      Bucketed(store.nodes, log) && Bounded(log, maxFreq)
    }

    ghost predicate Valid()
      reads this, store.Footprint()
    {
      && this !in store.Footprint() && store.Valid()
      && Books() && Buckets() && (log != [] ==> Least(log, minFreq))
    }

    constructor (cacheSize: nat, objMdSize: nat)
      ensures Valid() && log == [] && this.cacheSize == cacheSize && this.objMdSize == objMdSize
      ensures forall o | o in store.Footprint() :: fresh(o)
    {
      this.cacheSize, this.objMdSize := cacheSize, objMdSize;
      var empty := new Store();
      store := empty;
      minFreq, maxFreq, occupiedByte, nObj := 1, 1, 0, 0;
      log := [];
      new;
      hide Store.Valid, Store.Footprint;
      empty.Alive();
    }

    /** Nothing but these counters and this log is outside the store. */
    ghost predicate Stored()
      reads this, store.Footprint()
    {
      this !in store.Footprint() && store.Valid() && Books() && Buckets()
    }

    /** The loop that looks for the next frequency with an object. */
    method NextMin()
      requires Stored() && AllAbove(log, minFreq)
      modifies `minFreq
      ensures Stored()
      ensures if log == [] then minFreq == old(minFreq) else Least(log, minFreq) && minFreq > old(minFreq)
    {
      hide Store.Valid, Store.Footprint, Books, Bucketed;
      var freq := minFreq + 1;
      while freq <= maxFreq
        invariant AllAbove(log, freq - 1) && minFreq == old(minFreq) < freq && Stored()
        decreases maxFreq - freq
      {
        NodeOf(store.nodes, log, freq);
        if store.CountAt(freq) > 0 {
          minFreq := freq;
          return;
        }
        LeastGone(log, freq);
        freq := freq + 1;
      }
    }

    /** The steps of CR_LFU_find before it looks at `min_freq`: the object moves up one bucket. */
    method Raise(x: ObjId)
      requires Stored() && x in store.table
      modifies `maxFreq, `log, store.Footprint()
      ensures Stored() && forall o | o in store.Footprint() && o !in old(store.Footprint()) :: fresh(o)
      ensures Has(old(log), x) && log == Raised(old(log), x)
      ensures old(log)[IndexOf(old(log), x)].freq == old(store.table[x].freq) &&
                old(store.table[x].freq) in store.nodes
    {
      hide Store.Valid, Store.Footprint, Tabled, Weight, Bounded, Bucketed, Removed, Appended, Raised, Has, IndexOf;
      ghost var q := log;
      RaiseAll(store.table, store.nodes, q, maxFreq, x, objMdSize);
      InBucket(store.table, store.nodes, q, x);
      var freq := store.Frequency(x) + 1;
      if maxFreq < freq {
        maxFreq := freq;
      }
      log := Raised(q, x);
      store.Raise(x);
    }

    /** CR_LFU_find */
    method Find(x: ObjId, updateCache: bool) returns (hit: bool)
      requires Valid()
      modifies `maxFreq, `minFreq, `log, store.Footprint()
      ensures Valid() && hit == Has(old(log), x)
      ensures forall o | o in store.Footprint() && o !in old(store.Footprint()) :: fresh(o)
      ensures log == if hit && updateCache then Raised(old(log), x) else old(log)
    {
      hide Store.Valid, Store.Footprint, Bucketed, Tabled, Weight, Bounded, Raised, AllAbove, Has, IndexOf, Bucket;
      hit := store.Contains(x);
      Lookup(store.table, log, x);
      if hit && updateCache {
        ghost var q := log;
        DistinctOf(store.table, q);
        LeastRaise(q, x, minFreq);
        var freq := store.Frequency(x);
        Raise(x);
        NodeOf(store.nodes, log, freq);
        if minFreq == freq && store.CountAt(freq) == 0 {
          LeastGone(log, freq);
          NextMin();
        }
      }
    }

    /** CR_LFU_insert */
    method Insert(x: ObjId, size: nat)
      requires Valid() && x !in store.table
      modifies this, store.Footprint()
      ensures Valid() && log == old(log) + [Item(x, size, 1)] && minFreq == 1
      ensures forall o | o in store.Footprint() && o !in old(store.Footprint()) :: fresh(o)
    {
      hide Store.Valid, Store.Footprint, Tabled, Weight, Bucketed, Bounded, Least;
      ghost var q, i := log, Item(x, size, 1);
      InsertAll(store.table, store.nodes, q, maxFreq, i, objMdSize);
      occupiedByte := occupiedByte + size + objMdSize;
      nObj := nObj + 1;
      minFreq := 1;
      log := q + [i];
      store.Add(x, size);
    }

    lemma Absent(x: ObjId)
      requires Valid() && !Has(log, x)
      ensures x !in store.table
    {
      Lookup(store.table, log, x);
    }

    /** CR_LFU_to_evict */
    method ToEvict() returns (victim: ObjId)
      requires Valid() && log != []
      ensures victim == log[Victim(log)].id
    {
      NodeOf(store.nodes, log, minFreq);
      VictimInBucket(log, minFreq);
      hide Store.Valid, Store.Footprint, Bucketed, Bucket, Victim;
      victim := store.LastAt(minFreq);
    }

    /** Object `k` leaves its bucket, the hash table and the counters: the unlinking and
        cache_remove_obj_base. */
    method Unlink(x: ObjId, ghost k: nat, evicting: bool)
      requires Stored() && k < |log| && x == log[k].id
      requires evicting ==> var b := Bucket(log, log[k].freq); b != [] && x == b[|b| - 1]
      modifies `log, `occupiedByte, `nObj, store.Footprint()
      ensures Stored() && log == RemoveAt(old(log), k) && store.nodes.Keys == old(store.nodes.Keys)
      ensures store.Footprint() <= old(store.Footprint())
    {
      hide Store.Valid, Store.Footprint, Tabled, Weight, Bucketed, Bounded, Bucket, Drop, RemoveAt;
      ghost var q := log;
      RemoveAll(store.table, store.nodes, q, maxFreq, k, objMdSize);
      InBucketAt(store.nodes, q, k);
      var size := store.Size(x);
      occupiedByte := occupiedByte - size - objMdSize;
      nObj := nObj - 1;
      log := RemoveAt(q, k);
      store.Remove(x, evicting);
    }

    /** CR_LFU_evict: evicts what `ToEvict` names; the minimum frequency becomes -1 when nothing is left. */
    method Evict()
      requires Valid() && log != []
      modifies this, store.Footprint()
      ensures Valid() && log == RemoveAt(old(log), Victim(old(log)))
      ensures store.Footprint() <= old(store.Footprint())
      ensures log == [] ==> minFreq == -1
    {
      hide RemoveAt, Victim, Least, AllAbove, Books, Buckets, Store.Valid, Store.Footprint;
      var n := TakeLast();
      WhatsLeft(n, log, minFreq);
      if n == 1 {
        NextMinOrNone();
      }
    }

    /** The newest object of the least frequency leaves; `n` is how many there were. */
    method TakeLast() returns (n: nat)
      requires Valid() && log != []
      modifies `log, `occupiedByte, `nObj, store.Footprint()
      ensures Stored() && log == RemoveAt(old(log), Victim(old(log))) && Leaves(n, log, minFreq)
      ensures store.Footprint() <= old(store.Footprint())
    {
      hide Bucketed, Weight, Bounded, Bucket, Drop, Victim, RemoveAt, AllAbove, Has, Distinct, Least, Tabled,
        IsVictim, Leaves, Store.Valid, Store.Footprint;
      ghost var k := Victim(log);
      DistinctOf(store.table, log);
      EvictAll(store.nodes, log, minFreq);
      n := store.CountAt(minFreq);
      var x := store.LastAt(minFreq);
      Unlink(x, k, true);
    }

    /** Looks for the next frequency with an object; -1 if there is none. */
    method NextMinOrNone()
      requires Stored() && AllAbove(log, minFreq)
      modifies `minFreq
      ensures Stored() && if log == [] then minFreq == -1 else Least(log, minFreq)
    {
      hide Store.Valid, Store.Footprint, Books, Buckets;
      var oldMinFreq := minFreq;
      NextMin();
      if minFreq == oldMinFreq {
        minFreq := -1;
      }
    }

    /** CR_LFU_remove. Afterwards the minimum frequency is right if and only if there was another object: unlike
        `Evict`, removing the last object leaves it at a frequency with no object, not at -1. */
    method Remove(x: ObjId) returns (removed: bool)
      requires Valid()
      modifies this, store.Footprint()
      ensures Valid() && removed == Has(old(log), x)
      ensures log == if removed then RemoveAt(old(log), IndexOf(old(log), x)) else old(log)
      ensures removed ==> (MinFreqRight(log, minFreq) <==> |old(log)| > 1)
      ensures log == [] ==> minFreq == old(minFreq)
      ensures store.Footprint() <= old(store.Footprint())
    {
      hide Store.Valid, Store.Footprint, Bucketed, Tabled, Weight, Drop, RemoveAt, AllAbove, Has, IndexOf, Bucket,
        Distinct;
      Lookup(store.table, log, x);
      removed := store.Contains(x);
      if removed {
        ghost var q := log;
        ghost var k := IndexOf(q, x);
        DistinctOf(store.table, q);
        LeastRemove(q, k, minFreq);
        LeastPositive(q, maxFreq, minFreq);
        NodeOf(store.nodes, q, minFreq);
        Unlink(x, k, false);
        NodeOf(store.nodes, log, minFreq);
        if store.CountAt(minFreq) == 0 {
          LeastGone(log, minFreq);
          NextMin();
        }
      }
    }

    /** cache_get_base */
    method Get(x: ObjId, size: nat) returns (hit: bool)
      requires Valid()
      modifies this, store.Footprint()
      ensures Valid() && hit == Has(old(log), x) && log == LfuGet(old(log), cacheSize, objMdSize, x, size)
      ensures forall o | o in store.Footprint() && o !in old(store.Footprint()) :: fresh(o)
    {
      ghost var q := log;
      ghost var room := cacheSize - size - objMdSize;
      LfuGetIs(q, x, size);
      hide Store.Valid, Store.Footprint, Buckets, Raised, Victim, Least, LfuGet, Has, Tabled;
      hit := Find(x, true);
      if hit || size + objMdSize > cacheSize {
        return;
      }
      while occupiedByte + size + objMdSize > cacheSize
        invariant Valid() && !Has(log, x) && MakeRoom(log, objMdSize, room) == MakeRoom(q, objMdSize, room)
        invariant forall o | o in store.Footprint() && o !in old(store.Footprint()) :: fresh(o)
        decreases |log|
      {
        DistinctOf(store.table, log);
        DistinctRemove(log, Victim(log));
        Evict();
      }
      Lookup(store.table, log, x);
      Insert(x, size);
    }

    lemma LfuGetIs(q: Log, x: ObjId, size: nat)
      ensures LfuGet(q, cacheSize, objMdSize, x, size) ==
              if Has(q, x) then Raised(q, x)
              else if size + objMdSize > cacheSize then q
              else MakeRoom(q, objMdSize, cacheSize - size - objMdSize) + [Item(x, size, 1)]
    {
    }
  }

  /** What the code relies on: the least frequency with an object, or -1 if there is none. */
  ghost predicate MinFreqRight(q: Log, f: int)
  {
    if q == [] then f == -1 else Least(q, f)
  }

  lemma LeastPositive(q: Log, maxFreq: int, f: int)
    requires Bounded(q, maxFreq) && Least(q, f)
    ensures f >= 1
  {
    BucketHas(q, f, Bucket(q, f)[0]);
  }

  /** The object is in the bucket of its frequency. */
  lemma InBucketAt(nodes: map<int, Node>, q: Log, k: nat)
    requires Bucketed(nodes, q) && k < |q|
    ensures q[k].freq in nodes && q[k].id in nodes[q[k].freq].objs && nodes[q[k].freq].objs == Bucket(q, q[k].freq)
  {
    BucketHas(q, q[k].freq, q[k].id);
  }

  lemma InBucket(table: map<ObjId, Obj>, nodes: map<int, Node>, q: Log, x: ObjId)
    requires Tabled(table, q) && Bucketed(nodes, q) && x in table
    ensures table[x].freq in nodes && x in nodes[table[x].freq].objs
  {
    Lookup(table, q, x);
    InBucketAt(nodes, q, IndexOf(q, x));
  }

  /** One object comes and goes: evicting it leaves the minimum frequency at -1, removing it leaves it at 1, where
      there is nothing. */
  method LastObject(x: ObjId) returns (afterEvict: int, afterRemove: int)
    ensures afterEvict == -1 && afterRemove == 1
  {
    hide CrLfuCache.Valid, Least, Store.Footprint;
    var c := new CrLfuCache(1, 0);
    c.Absent(x);
    c.Insert(x, 1);
    c.Evict();
    afterEvict := c.minFreq;
    c := new CrLfuCache(1, 0);
    c.Absent(x);
    c.Insert(x, 1);
    assert c.log[0].id == x;
    var _ := c.Remove(x);
    afterRemove := c.minFreq;
  }
}
