/** The LRU policy on a plain queue of objects, newest first. */
module Lru {
  import opened NextUse

  datatype Entry = Entry(id: ObjId, size: nat)

  type Queue = seq<Entry>

  /** Occupied bytes, `md` of them metadata per object. */
  function Weight(q: Queue, md: nat): (w: nat)
  {
    if q == [] then 0 else Weight(q[..|q| - 1], md) + q[|q| - 1].size + md
  }

  predicate Has(q: Queue, x: ObjId)
  {
    exists k :: 0 <= k < |q| && q[k].id == x
  }

  predicate Distinct(q: Queue)
  {
    forall j, k :: 0 <= j < k < |q| ==> q[j].id != q[k].id
  }

  /** Position of the first object with this id. */
  function IndexOf(q: Queue, x: ObjId): (k: nat)
    requires Has(q, x)
    ensures k < |q| && q[k].id == x
    ensures forall j | 0 <= j < k :: q[j].id != x
  {
    if q[0].id == x then 0 else 1 + IndexOf(q[1..], x)
  }

  function Without(q: Queue, x: ObjId): Queue
  {
    if Has(q, x) then var k := IndexOf(q, x); q[..k] + q[k + 1..] else q
  }

  function Lookup(q: Queue, x: ObjId): Entry
    requires Has(q, x)
  {
    q[IndexOf(q, x)]
  }

  function Promote(q: Queue, x: ObjId): Queue
    requires Has(q, x)
  {
    [Lookup(q, x)] + Without(q, x)
  }

  /** Evict from the old end until the rest weighs at most `room`. */
  function Trim(q: Queue, md: nat, room: int): (r: Queue)
    ensures r <= q
    ensures Weight(r, md) <= room || r == []
  {
    if q == [] || Weight(q, md) <= room then q else Trim(q[..|q| - 1], md, room)
  }

  /** One `get` of a cache of `capacity` bytes. */
  function LruGet(q: Queue, capacity: nat, md: nat, e: Entry): Queue
  {
    if Has(q, e.id) then Promote(q, e.id)
    else if e.size + md > capacity then q
    else [e] + Trim(q, md, capacity - e.size - md)
  }

  /** A whole trace of `get`s. */
  function LruRun(capacity: nat, md: nat, trace: seq<Entry>): Queue
  {
    if trace == [] then [] else LruGet(LruRun(capacity, md, trace[..|trace| - 1]), capacity, md, trace[|trace| - 1])
  }

  lemma {:induction false} WeightConcat(a: Queue, b: Queue, md: nat)
    ensures Weight(a + b, md) == Weight(a, md) + Weight(b, md)
  {
    if b == [] {
      assert a + b == a;
    } else {
      assert (a + b)[..|a + b| - 1] == a + b[..|b| - 1];
      WeightConcat(a, b[..|b| - 1], md);
    }
  }

  lemma WeightSplit(q: Queue, k: nat, md: nat)
    requires k < |q|
    ensures Weight(q, md) == Weight(q[..k] + q[k + 1..], md) + q[k].size + md
    ensures Weight([q[k]], md) == q[k].size + md
  {
    assert q == q[..k] + ([q[k]] + q[k + 1..]);
    WeightConcat(q[..k], [q[k]] + q[k + 1..], md);
    WeightConcat([q[k]], q[k + 1..], md);
    WeightConcat(q[..k], q[k + 1..], md);
  }

  lemma ToFront<T>(q: seq<T>, k: nat, j: nat)
    requires k < |q| && j < |q|
    ensures var r := [q[k]] + (q[..k] + q[k + 1..]);
            && |r| == |q|
            && r[if j < k then j + 1 else if j == k then 0 else j] == q[j]
            && r[j] == q[if j == 0 then k else if j <= k then j - 1 else j]
  {
  }

  /** Where the objects go when the object found moves to the front. */
  lemma PromoteAt(q: Queue, x: ObjId, j: nat)
    requires Has(q, x) && j < |q|
    ensures var k := IndexOf(q, x); var r := Promote(q, x);
            && |r| == |q|
            && r[if j < k then j + 1 else if j == k then 0 else j] == q[j]
            && r[j] == q[if j == 0 then k else if j <= k then j - 1 else j]
  {
    ToFront(q, IndexOf(q, x), j);
  }

  lemma PromoteDistinct(q: Queue, x: ObjId)
    requires Has(q, x) && Distinct(q)
    ensures Distinct(Promote(q, x))
  {
    hide Promote;
    var r := Promote(q, x);
    PromoteAt(q, x, 0);
    forall i, j | 0 <= i < j < |r|
      ensures r[i].id != r[j].id
    {
      PromoteAt(q, x, i);
      PromoteAt(q, x, j);
    }
  }

  lemma PromoteHas(q: Queue, x: ObjId, y: ObjId)
    requires Has(q, x)
    ensures Has(Promote(q, x), y) <==> Has(q, y)
  {
    hide Promote;
    var r, k := Promote(q, x), IndexOf(q, x);
    if Has(q, y) {
      var j := IndexOf(q, y);
      PromoteAt(q, x, j);
      assert r[if j < k then j + 1 else if j == k then 0 else j].id == y;
    }
    if Has(r, y) {
      var j := IndexOf(r, y);
      PromoteAt(q, x, 0);
      PromoteAt(q, x, j);
      assert q[if j == 0 then k else if j <= k then j - 1 else j].id == y;
    }
  }

  lemma PromoteWeight(q: Queue, x: ObjId, md: nat)
    requires Has(q, x)
    ensures Weight(Promote(q, x), md) == Weight(q, md)
  {
    var k := IndexOf(q, x);
    WeightSplit(q, k, md);
    WeightConcat([q[k]], q[..k] + q[k + 1..], md);
  }

  lemma PromoteKeeps(q: Queue, x: ObjId, md: nat)
    requires Has(q, x) && Distinct(q)
    ensures Distinct(Promote(q, x)) && Weight(Promote(q, x), md) == Weight(q, md)
    ensures |Promote(q, x)| == |q|
  {
    PromoteAt(q, x, 0);
    PromoteDistinct(q, x);
    PromoteWeight(q, x, md);
  }

  ghost predicate Units(q: Queue)
  {
    forall k | 0 <= k < |q| :: q[k].size == 1
  }

  lemma {:induction false} UnitWeight(q: Queue)
    requires Units(q)
    ensures Weight(q, 0) == |q|
  {
    if q != [] {
      UnitWeight(q[..|q| - 1]);
    }
  }

  /** An LRU cache never overflows and never holds an object twice. */
  lemma GetKeeps(q: Queue, capacity: nat, md: nat, e: Entry)
    requires Distinct(q) && Weight(q, md) <= capacity
    ensures var r := LruGet(q, capacity, md, e); Distinct(r) && Weight(r, md) <= capacity
  {
    if Has(q, e.id) {
      PromoteKeeps(q, e.id, md);
    } else if e.size + md <= capacity {
      var kept := Trim(q, md, capacity - e.size - md);
      WeightConcat([e], kept, md);
      assert Weight([e], md) == Weight([], md) + e.size + md;
    }
  }

  /** The longest part of the queue, from the new end, that weighs at most `room`. */
  ghost predicate LongestFit(kept: Queue, q: Queue, md: nat, room: int)
  {
    && kept <= q && (kept == [] || Weight(kept, md) <= room)
    && (kept != q ==> room < Weight(q[..|kept| + 1], md))
  }

  lemma {:induction false} TrimLongest(q: Queue, md: nat, room: int)
    ensures LongestFit(Trim(q, md, room), q, md, room)
  {
    if q != [] && room < Weight(q, md) {
      var init := q[..|q| - 1];
      TrimLongest(init, md, room);
      var kept := Trim(init, md, room);
      assert q[..|kept| + 1] == if kept == init then q else init[..|kept| + 1];
    }
  }

  /** A get puts the object in front and keeps the others in their order: all of them after a hit, as many as fit
      after a miss. An object that does not fit at all changes nothing. */
  lemma GetPlaces(q: Queue, capacity: nat, md: nat, e: Entry)
    ensures var r := LruGet(q, capacity, md, e);
            && (forall k | 0 <= k < |q| && q[k].id == e.id && (forall j | 0 <= j < k :: q[j].id != e.id) ::
                  r == [q[k]] + (q[..k] + q[k + 1..]))
            && ((forall k | 0 <= k < |q| :: q[k].id != e.id) ==>
                  if capacity < e.size + md then r == q
                  else r != [] && r[0] == e && LongestFit(r[1..], q, md, capacity - e.size - md))
  {
    if Has(q, e.id) {
      assert forall k | 0 <= k < |q| && q[k].id == e.id && (forall j | 0 <= j < k :: q[j].id != e.id) ::
          k == IndexOf(q, e.id);
    } else if e.size + md <= capacity {
      TrimLongest(q, md, capacity - e.size - md);
      assert LruGet(q, capacity, md, e)[1..] == Trim(q, md, capacity - e.size - md);
    }
  }
}
