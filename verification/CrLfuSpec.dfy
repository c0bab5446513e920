/** CR-LFU as a list of objects in the order in which they got their current frequency. */
module CrLfuSpec {
  import opened NextUse
  import opened ObjQueue
  import Lru

  datatype Item = Item(id: ObjId, size: nat, freq: int)

  type Log = seq<Item>

  /** The objects as a queue, without their frequencies. */
  function Entries(q: Log): (es: Lru.Queue)
    ensures |es| == |q| && forall k | 0 <= k < |q| :: es[k] == Lru.Entry(q[k].id, q[k].size)
  {
    seq(|q|, k requires 0 <= k < |q| => Lru.Entry(q[k].id, q[k].size))
  }

  predicate Has(q: Log, x: ObjId)
    ensures Has(q, x) <==> exists k :: 0 <= k < |q| && q[k].id == x
  {
    var es := Entries(q);
    assert Lru.Has(es, x) ==> q[Lru.IndexOf(es, x)].id == x;
    assert forall k | 0 <= k < |q| :: q[k].id == es[k].id;
    Lru.Has(es, x)
  }

  function IndexOf(q: Log, x: ObjId): (k: nat)
    requires Has(q, x)
    ensures k < |q| && q[k].id == x
    ensures forall j | 0 <= j < k :: q[j].id != x
  {
    assert forall j | 0 <= j < |q| :: q[j].id == Entries(q)[j].id;
    Lru.IndexOf(Entries(q), x)
  }

  ghost predicate Distinct(q: Log)
    ensures Distinct(q) <==> forall i, j | 0 <= i < j < |q| :: q[i].id != q[j].id
  {
    assert forall j | 0 <= j < |q| :: q[j].id == Entries(q)[j].id;
    Lru.Distinct(Entries(q))
  }

  function Weight(q: Log, md: nat): (w: nat)
  {
    Lru.Weight(Entries(q), md)
  }

  /** A hit raises the frequency and makes the object the newest of its frequency. */
  function Raised(q: Log, x: ObjId): Log
    requires Has(q, x)
  {
    var k := IndexOf(q, x);
    RemoveAt(q, k) + [q[k].(freq := q[k].freq + 1)]
  }

  /** Object `k` has the least frequency, and is the newest of those. */
  ghost predicate IsVictim(q: Log, k: int)
  {
    0 <= k < |q| && forall j | 0 <= j < |q| :: q[k].freq < q[j].freq || (q[k].freq == q[j].freq && j <= k)
  }

  function Victim(q: Log): (k: nat)
    requires q != []
    ensures k < |q| && IsVictim(q, k)
  {
    if |q| == 1 then 0 else
      var init := q[..|q| - 1];
      var k := Victim(init);
      assert forall j | 0 <= j < |init| :: q[j] == init[j];
      if q[|q| - 1].freq <= q[k].freq then |q| - 1 else k
  }

  lemma VictimUnique(q: Log, j: int, k: int)
    requires IsVictim(q, j) && IsVictim(q, k)
    ensures j == k
  {
    assert q[j].freq <= q[k].freq && q[k].freq <= q[j].freq;
  }

  function MakeRoom(q: Log, md: nat, room: int): Log
  {
    if q == [] || Weight(q, md) <= room then q else MakeRoom(RemoveAt(q, Victim(q)), md, room)
  }

  /** One `get` of a cache of `capacity` bytes. */
  function LfuGet(q: Log, capacity: nat, md: nat, x: ObjId, size: nat): Log
  {
    if Has(q, x) then Raised(q, x)
    else if size + md > capacity then q
    else MakeRoom(q, md, capacity - size - md) + [Item(x, size, 1)]
  }

  // ---------- the buckets ----------

  /** The objects of frequency `f`, oldest first. */
  function Bucket(q: Log, f: int): seq<ObjId>
  {
    if q == [] then [] else
      var older := Bucket(q[..|q| - 1], f);
      if q[|q| - 1].freq == f then older + [q[|q| - 1].id] else older
  }

  lemma {:induction false} BucketConcat(a: Log, b: Log, f: int)
    ensures Bucket(a + b, f) == Bucket(a, f) + Bucket(b, f)
  {
    if b == [] {
      assert a + b == a;
    } else {
      assert (a + b)[..|a + b| - 1] == a + b[..|b| - 1];
      BucketConcat(a, b[..|b| - 1], f);
    }
  }

  lemma BucketAround(q: Log, k: nat, f: int)
    requires k < |q|
    ensures Bucket(q, f) == Bucket(q[..k], f) + (if q[k].freq == f then [q[k].id] else []) + Bucket(q[k + 1..], f)
    ensures Bucket(RemoveAt(q, k), f) == Bucket(q[..k], f) + Bucket(q[k + 1..], f)
  {
    assert q == q[..k] + ([q[k]] + q[k + 1..]);
    BucketConcat(q[..k], [q[k]] + q[k + 1..], f);
    BucketConcat([q[k]], q[k + 1..], f);
    BucketConcat(q[..k], q[k + 1..], f);
    assert Bucket([q[k]], f) == if q[k].freq == f then [q[k].id] else [];
  }

  lemma {:induction false} BucketHas(q: Log, f: int, x: ObjId)
    ensures x in Bucket(q, f) <==> exists k :: 0 <= k < |q| && q[k].id == x && q[k].freq == f
  {
    if q != [] {
      var init := q[..|q| - 1];
      BucketHas(init, f, x);
      if k :| 0 <= k < |q| && q[k].id == x && q[k].freq == f {
        assert k < |init| ==> init[k] == q[k];
      }
      if k :| 0 <= k < |init| && init[k].id == x && init[k].freq == f {
        assert q[k].id == x;
      }
      assert q[|q| - 1].freq == f && q[|q| - 1].id == x ==> x in Bucket(q, f);
    }
  }

  /** The list without its first `x`. */
  function Drop(s: seq<ObjId>, x: ObjId): seq<ObjId>
  {
    if s == [] then [] else if s[0] == x then s[1..] else [s[0]] + Drop(s[1..], x)
  }

  lemma {:induction false} DropAt(a: seq<ObjId>, x: ObjId, b: seq<ObjId>)
    requires x !in a
    ensures Drop(a + [x] + b, x) == a + b
  {
    if a == [] {
      assert a + [x] + b == [x] + b;
      assert a + b == b;
    } else {
      DropAt(a[1..], x, b);
      assert (a + [x] + b)[1..] == a[1..] + [x] + b;
      assert a + b == [a[0]] + (a[1..] + b);
    }
  }

  /** Taking object `k` out changes one bucket, by its id. */
  lemma BucketRemove(q: Log, k: nat, f: int)
    requires k < |q| && Distinct(q)
    ensures Bucket(RemoveAt(q, k), f) == if q[k].freq == f then Drop(Bucket(q, f), q[k].id) else Bucket(q, f)
    ensures q[k].freq == f ==> q[k].id in Bucket(q, f) && |Bucket(RemoveAt(q, k), f)| == |Bucket(q, f)| - 1
  {
    BucketAround(q, k, f);
    if q[k].freq == f {
      BucketHas(q[..k], f, q[k].id);
      DropAt(Bucket(q[..k], f), q[k].id, Bucket(q[k + 1..], f));
    }
  }

  lemma BucketAdd(q: Log, i: Item, f: int)
    ensures Bucket(q + [i], f) == if i.freq == f then Bucket(q, f) + [i.id] else Bucket(q, f)
  {
    assert (q + [i])[..|q|] == q;
  }

  /** The victim is the last object of the first bucket that has any. */
  lemma {:induction false} VictimInBucket(q: Log, f: int)
    requires q != [] && Bucket(q, f) != [] && forall j | 0 <= j < |q| :: f <= q[j].freq
    ensures q[Victim(q)].freq == f && q[Victim(q)].id == Bucket(q, f)[|Bucket(q, f)| - 1]
    ensures Bucket(RemoveAt(q, Victim(q)), f) == Bucket(q, f)[..|Bucket(q, f)| - 1]
  {
    var k := Victim(q);
    BucketHas(q, f, Bucket(q, f)[0]);
    BucketAround(q, k, f);
    Newer(q[k + 1..], f);
  }

  lemma {:induction false} Newer(q: Log, f: int)
    requires forall j | 0 <= j < |q| :: q[j].freq != f
    ensures Bucket(q, f) == []
  {
    if q != [] {
      Newer(q[..|q| - 1], f);
    }
  }

  // ---------- what every get keeps ----------

  lemma WeightRemove(q: Log, k: nat, md: nat)
    requires k < |q|
    ensures Weight(RemoveAt(q, k), md) == Weight(q, md) - q[k].size - md
  {
    var es := Entries(q);
    assert Entries(RemoveAt(q, k)) == es[..k] + es[k + 1..];
    Lru.WeightSplit(es, k, md);
  }

  lemma WeightAdd(q: Log, i: Item, md: nat)
    ensures Weight(q + [i], md) == Weight(q, md) + i.size + md
  {
    var es := Entries(q + [i]);
    assert es[..|q|] == Entries(q);
  }

  lemma DistinctRemove(q: Log, k: nat)
    requires k < |q| && Distinct(q)
    ensures Distinct(RemoveAt(q, k)) && !Has(RemoveAt(q, k), q[k].id)
    ensures forall x | x != q[k].id :: Has(RemoveAt(q, k), x) == Has(q, x)
  {
    var r := RemoveAt(q, k);
    forall j | 0 <= j < |r|
      ensures r[j] == q[if j < k then j else j + 1]
    {
    }
    forall x | x != q[k].id && Has(q, x)
      ensures Has(r, x)
    {
      var j := IndexOf(q, x);
      assert r[if j < k then j else j - 1].id == x;
    }
    forall x | x != q[k].id && Has(r, x)
      ensures Has(q, x)
    {
      var j := IndexOf(r, x);
      assert q[if j < k then j else j + 1].id == x;
    }
  }

  lemma {:induction false} MakeRoomKeeps(q: Log, md: nat, room: int)
    requires Distinct(q)
    ensures var r := MakeRoom(q, md, room);
            Distinct(r) && (r == [] || Weight(r, md) <= room) && (forall x | Has(r, x) :: Has(q, x))
    decreases |q|
  {
    if q != [] && Weight(q, md) > room {
      DistinctRemove(q, Victim(q));
      MakeRoomKeeps(RemoveAt(q, Victim(q)), md, room);
    }
  }

  /** A CR-LFU cache never overflows, never holds an object twice, and after a get that could store the
      object holds it. */
  lemma GetKeeps(q: Log, capacity: nat, md: nat, x: ObjId, size: nat)
    requires Distinct(q) && Weight(q, md) <= capacity
    ensures var r := LfuGet(q, capacity, md, x, size); Distinct(r) && Weight(r, md) <= capacity
    ensures Has(LfuGet(q, capacity, md, x, size), x) <==> Has(q, x) || size + md <= capacity
  {
    var r := LfuGet(q, capacity, md, x, size);
    if Has(q, x) {
      RaisedKeeps(q, x, md);
    } else if size + md <= capacity {
      MakeRoomKeeps(q, md, capacity - size - md);
      Added(MakeRoom(q, md, capacity - size - md), Item(x, size, 1), md);
    }
  }

  lemma RaisedAt(q: Log, x: ObjId)
    requires Has(q, x)
    ensures var k, r := IndexOf(q, x), Raised(q, x);
            && |r| == |q| && (forall j | 0 <= j < |q| - 1 :: r[j] == q[if j < k then j else j + 1])
            && r[|q| - 1] == q[k].(freq := q[k].freq + 1)
  {
  }

  lemma RaisedKeeps(q: Log, x: ObjId, md: nat)
    requires Has(q, x) && Distinct(q)
    ensures Distinct(Raised(q, x)) && Weight(Raised(q, x), md) == Weight(q, md) && |Raised(q, x)| == |q|
    ensures forall y :: Has(Raised(q, x), y) <==> Has(q, y)
  {
    var k := IndexOf(q, x);
    var rest, i := RemoveAt(q, k), q[k].(freq := q[k].freq + 1);
    DistinctRemove(q, k);
    WeightRemove(q, k, md);
    Added(rest, i, md);
    forall y
      ensures Has(rest + [i], y) <==> Has(rest, y) || y == x
    {
      AddedHas(rest, i, y);
    }
  }

  lemma AddedHas(q: Log, i: Item, y: ObjId)
    ensures Has(q + [i], y) <==> Has(q, y) || y == i.id
  {
    var r := q + [i];
    if Has(q, y) {
      assert r[IndexOf(q, y)].id == y;
    }
    assert r[|q|].id == i.id;
    if Has(r, y) {
      var j := IndexOf(r, y);
      assert j < |q| ==> q[j].id == y;
    }
  }

  lemma Added(q: Log, i: Item, md: nat)
    requires Distinct(q) && !Has(q, i.id)
    ensures Distinct(q + [i]) && Has(q + [i], i.id) && Weight(q + [i], md) == Weight(q, md) + i.size + md
  {
    WeightAdd(q, i, md);
    assert (q + [i])[|q|] == i;
  }

  // ---------- which objects a cache keeps ----------

  /** A hit adds one to the object's frequency and makes it the latest; the others keep their order. */
  lemma HitItems(q: Log, capacity: nat, md: nat, x: ObjId, size: nat, k: nat)
    requires Distinct(q) && k < |q| && q[k].id == x
    ensures LfuGet(q, capacity, md, x, size) == q[..k] + q[k + 1..] + [Item(x, q[k].size, q[k].freq + 1)]
  {
  }

  /** These are positions in a log of `n` objects, in their order. */
  ghost predicate Ascending(at: seq<nat>, n: nat)
  {
    && (forall i | 0 <= i < |at| :: at[i] < n)
    && (forall i, j | 0 <= i < j < |at| :: at[i] < at[j])
  }

  /** The object at `e` is evicted before the one at `k`: it is used less often, or as often but came later. */
  ghost predicate GoesFirst(q: Log, e: nat, k: nat)
    requires e < |q| && k < |q|
  {
    q[e].freq < q[k].freq || (q[e].freq == q[k].freq && k < e)
  }

  /** `kept` are the objects of `q` at the positions `at`, in their order, and every other object went before them. */
  ghost predicate KeepsBest(q: Log, kept: Log, at: seq<nat>)
  {
    && Ascending(at, |q|) && |at| == |kept| && (forall i | 0 <= i < |at| :: kept[i] == q[at[i]])
    && (forall e: nat, i: nat | e < |q| && e !in at && i < |at| :: GoesFirst(q, e, at[i]))
  }

  /** The object at `v` went last, and without it gone the rest would not fit. */
  ghost predicate LastToGo(q: Log, kept: Log, at: seq<nat>, v: nat, md: nat, room: int)
  {
    && v < |q| && v !in at && room < Weight(kept, md) + q[v].size + md
    && (forall e: nat | e < |q| && e !in at && e != v :: GoesFirst(q, e, v))
  }

  /** Making room keeps the best objects, and as many of them as fit. */
  lemma {:induction false} RoomKeepsBest(q: Log, md: nat, room: int) returns (at: seq<nat>, v: nat)
    ensures KeepsBest(q, MakeRoom(q, md, room), at)
    ensures q == [] || Weight(q, md) <= room ==> MakeRoom(q, md, room) == q
    ensures q != [] && room < Weight(q, md) ==> LastToGo(q, MakeRoom(q, md, room), at, v, md, room)
    decreases |q|
  {
    v := 0;
    if q == [] || Weight(q, md) <= room {
      at := seq(|q|, i requires 0 <= i < |q| => i);
      assert forall e: nat | e < |q| :: at[e] == e;
    } else {
      var k := Victim(q);
      var rest := RemoveAt(q, k);
      WeightRemove(q, k, md);
      var at', v' := RoomKeepsBest(rest, md, room);
      at := Shifted(at', k);
      ShiftKeeps(q, k, MakeRoom(rest, md, room), at');
      if rest == [] || Weight(rest, md) <= room {
        v := k;
        ShiftAll(q, k, at');
      } else {
        v := if v' < k then v' else v' + 1;
        ShiftLast(q, k, MakeRoom(rest, md, room), at', v', md, room);
      }
    }
  }

  /** Positions in a log with one more object, at `k`. */
  function Shifted(at: seq<nat>, k: nat): (r: seq<nat>)
    ensures |r| == |at| && forall i | 0 <= i < |at| :: r[i] == if at[i] < k then at[i] else at[i] + 1
  {
    seq(|at|, i requires 0 <= i < |at| => if at[i] < k then at[i] else at[i] + 1)
  }

  lemma ShiftedHas(at: seq<nat>, k: nat, e: nat)
    ensures k !in Shifted(at, k)
    ensures e < k ==> (e in Shifted(at, k) <==> e in at)
    ensures k < e ==> (e in Shifted(at, k) <==> e - 1 in at)
  {
    var r := Shifted(at, k);
    if e < k && e in at {
      var i :| 0 <= i < |at| && at[i] == e;
      assert r[i] == e;
    }
    if k < e && e - 1 in at {
      var i :| 0 <= i < |at| && at[i] == e - 1;
      assert r[i] == e;
    }
  }

  lemma ShiftKeeps(q: Log, k: nat, kept: Log, at: seq<nat>)
    requires IsVictim(q, k) && KeepsBest(RemoveAt(q, k), kept, at)
    ensures KeepsBest(q, kept, Shifted(at, k))
  {
    var rest, r := RemoveAt(q, k), Shifted(at, k);
    assert |rest| == |q| - 1;
    forall e: nat, i: nat | e < |q| && e !in r && i < |r|
      ensures GoesFirst(q, e, r[i])
    {
      ShiftedHas(at, k, e);
      ShiftedHas(at, k, r[i]);
      if e != k {
        var e' := if e < k then e else e - 1;
        assert e' !in at && rest[e'] == q[e] && rest[at[i]] == q[r[i]];
        assert GoesFirst(rest, e', at[i]);
      }
    }
  }

  lemma ShiftAll(q: Log, k: nat, at: seq<nat>)
    requires k < |q| && Ascending(at, |q| - 1) && |at| == |q| - 1
    ensures forall e: nat | e < |q| && e != k :: e in Shifted(at, k)
    ensures k !in Shifted(at, k)
  {
    ShiftedHas(at, k, k);
    forall e: nat | e < |q| && e != k
      ensures e in Shifted(at, k)
    {
      var e' := if e < k then e else e - 1;
      Everywhere(at, e');
      assert at[e'] in at;
      ShiftedHas(at, k, e);
    }
  }

  /** As many ascending positions as there are: each is its own index. */
  lemma {:induction false} Everywhere(at: seq<nat>, i: nat)
    requires Ascending(at, |at|) && i < |at|
    ensures at[i] == i
  {
    FromBelow(at, i);
    FromAbove(at, i);
  }

  lemma {:induction false} FromBelow(at: seq<nat>, i: nat)
    requires Ascending(at, |at|) && i < |at|
    ensures i <= at[i]
  {
    if i > 0 {
      FromBelow(at, i - 1);
    }
  }

  lemma {:induction false} FromAbove(at: seq<nat>, i: nat)
    requires Ascending(at, |at|) && i < |at|
    ensures at[i] <= i
    decreases |at| - i
  {
    if i + 1 < |at| {
      FromAbove(at, i + 1);
    }
  }

  lemma ShiftLast(q: Log, k: nat, kept: Log, at: seq<nat>, v: nat, md: nat, room: int)
    requires IsVictim(q, k) && LastToGo(RemoveAt(q, k), kept, at, v, md, room)
    ensures LastToGo(q, kept, Shifted(at, k), if v < k then v else v + 1, md, room)
  {
    hide Weight;
    var rest, w := RemoveAt(q, k), if v < k then v else v + 1;
    ShiftedHas(at, k, w);
    assert rest[v] == q[w];
    forall e: nat | e < |q| && e !in Shifted(at, k) && e != w
      ensures GoesFirst(q, e, w)
    {
      ShiftedHas(at, k, e);
      if e != k {
        var e' := if e < k then e else e - 1;
        assert rest[e'] == q[e] && GoesFirst(rest, e', v);
      }
    }
  }

  /** A miss that can be stored evicts no more than it has to and only what is used least; the new object is the
      latest, with frequency 1. */
  lemma MissItems(q: Log, capacity: nat, md: nat, x: ObjId, size: nat) returns (kept: Log, at: seq<nat>, v: nat)
    requires forall k | 0 <= k < |q| :: q[k].id != x
    ensures size + md > capacity ==> LfuGet(q, capacity, md, x, size) == q
    ensures size + md <= capacity ==>
              && LfuGet(q, capacity, md, x, size) == kept + [Item(x, size, 1)] && KeepsBest(q, kept, at)
              && (if Weight(q, md) + size + md <= capacity then kept == q
                  else q != [] ==> LastToGo(q, kept, at, v, md, capacity - size - md))
  {
    hide Weight, MakeRoom;
    kept := MakeRoom(q, md, capacity - size - md);
    at, v := RoomKeepsBest(q, md, capacity - size - md);
  }

  /** Two objects fit into a cache of two, so the third request hits. */
  lemma ThirdHits()
    ensures LfuGet(LfuGet([], 2, 0, 1, 1), 2, 0, 2, 1) == [Item(1, 1, 1), Item(2, 1, 1)]
    ensures LfuGet([Item(1, 1, 1), Item(2, 1, 1)], 2, 0, 1, 1) == [Item(2, 1, 1), Item(1, 1, 2)]
  {
    var a, b := Item(1, 1, 1), Item(2, 1, 1);
    assert Weight([], 0) == 0;
    assert LfuGet([], 2, 0, 1, 1) == [a];
    WeightAdd([], a, 0);
    assert [] + [a] == [a];
    assert LfuGet([a], 2, 0, 2, 1) == [a, b];
    assert Distinct([a, b]);
    HitItems([a, b], 2, 0, 1, 1, 0);
  }
}
