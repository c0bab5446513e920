/** The ARC policy (ARC.c) on its four lists, newest first: T1 and T2 hold data, B1 and B2 ghosts. */
module ArcSpec {
  import opened NextUse
  import opened Lru

  datatype State = State(
    t1: Queue, b1: Queue, t2: Queue, b2: Queue,
    p: real,
    inB1: bool, inB2: bool,   // the last ghost hit; may be stale
    ghostTime: int,           // when it happened
    now: int)

  datatype Config = Config(size: nat, md: nat)

  function Init(): State
  {
    State([], [], [], [], 0.0, false, false, -1, 0)
  }

  function Ids(q: Queue): (ids: set<ObjId>)
    ensures forall x :: x in ids <==> Has(q, x)
  {
    set k | 0 <= k < |q| :: q[k].id
  }

  function Data(s: State): set<ObjId>
  {
    Ids(s.t1) + Ids(s.t2)
  }

  /** How far a ghost hit moves the target. */
  function Delta(other: int, own: int): real
    requires own > 0
  {
    var r := other as real / own as real;
    if r > 1.0 then r else 1.0
  }

  function Min(a: real, b: real): real { if a < b then a else b }

  function Max(a: real, b: real): real { if a > b then a else b }

  function GhostHitB1(s: State, c: Config, x: ObjId): State
    requires Has(s.b1, x) && 0 < Weight(s.b1, c.md)
  {
    s.(inB1 := true, inB2 := false, ghostTime := s.now,
       p := Min(s.p + Delta(Weight(s.b2, c.md), Weight(s.b1, c.md)), c.size as real),
       b1 := Without(s.b1, x))
  }

  function GhostHitB2(s: State, c: Config, x: ObjId): State
    requires Has(s.b2, x) && 0 < Weight(s.b2, c.md)
  {
    s.(inB1 := false, inB2 := true, ghostTime := s.now,
       p := Max(s.p - Delta(Weight(s.b1, c.md), Weight(s.b2, c.md)), 0.0),
       b2 := Without(s.b2, x))
  }

  /** ARC_find with `update_cache` set. */
  function Find(s: State, c: Config, x: ObjId): State
    requires Sized(s)
  {
    if Has(s.b1, x) then HasWeight(s.b1, c.md, x); GhostHitB1(s, c, x)
    else if Has(s.b2, x) then HasWeight(s.b2, c.md, x); GhostHitB2(s, c, x)
    else if Has(s.t1, x) then
      s.(inB1 := false, inB2 := false, t1 := Without(s.t1, x), t2 := [Lookup(s.t1, x)] + s.t2)
    else if Has(s.t2, x) then s.(inB1 := false, inB2 := false, t2 := Promote(s.t2, x))
    else s
  }

  /** Whether REPLACE takes its victim from T1. */
  predicate FromT1(s: State, c: Config)
  {
    var l1 := Weight(s.t1, c.md);
    || (l1 > 0 && (l1 as real > s.p || (l1 as real == s.p && s.inB2)))
    || Weight(s.t2, c.md) == 0
  }

  function Last(q: Queue): Entry
    requires q != []
  {
    q[|q| - 1]
  }

  function Front(q: Queue): Queue
    requires q != []
  {
    q[..|q| - 1]
  }

  function DemoteT1(s: State): State
    requires s.t1 != []
  {
    s.(t1 := Front(s.t1), b1 := [Last(s.t1)] + s.b1)
  }

  function DemoteT2(s: State): State
    requires s.t2 != []
  {
    s.(t2 := Front(s.t2), b2 := [Last(s.t2)] + s.b2)
  }

  /** Something to evict, wherever the conditions point. */
  ghost predicate Evictable(s: State, c: Config)
  {
    Sized(s) && 0 < Weight(s.t1, c.md) + Weight(s.t2, c.md)
  }

  /** _ARC_replace */
  function Replace(s: State, c: Config): (r: State)
    requires Evictable(s, c)
    ensures |r.t1| + |r.t2| == |s.t1| + |s.t2| - 1
  {
    if FromT1(s, c) then DemoteT1(s) else DemoteT2(s)
  }

  /** _ARC_evict_miss_on_all_queues for an object of weight `need`. */
  function EvictMiss(s: State, c: Config, need: nat): (r: State)
    requires Evictable(s, c) && need <= c.size
    ensures |r.t1| + |r.t2| == |s.t1| + |s.t2| - 1
  {
    var l1 := Weight(s.t1, c.md) + Weight(s.b1, c.md);
    if l1 + need > c.size then
      if Weight(s.b1, c.md) > 0 then Replace(s.(b1 := Front(s.b1)), c)
      else s.(t1 := Front(s.t1))
    else if l1 + Weight(s.t2, c.md) + Weight(s.b2, c.md) >= 2 * c.size && Weight(s.b2, c.md) > 0 then
      Replace(s.(b2 := Front(s.b2)), c)
    else Replace(s, c)
  }

  predicate GhostHit(s: State)
  {
    s.ghostTime == s.now && (s.inB1 || s.inB2)
  }

  /** ARC_evict */
  function Evict(s: State, c: Config, need: nat): (r: State)
    requires Evictable(s, c) && need <= c.size
    ensures |r.t1| + |r.t2| == |s.t1| + |s.t2| - 1
  {
    if GhostHit(s) then Replace(s, c) else EvictMiss(s, c, need)
  }

  /** The eviction loop of cache_get_base. */
  function MakeRoom(s: State, c: Config, need: nat): State
    requires Sized(s) && need <= c.size
    decreases |s.t1| + |s.t2|
  {
    if Weight(s.t1, c.md) + Weight(s.t2, c.md) + need <= c.size then s
    else EvictSized(s, c, need); MakeRoom(Evict(s, c, need), c, need)
  }

  /** ARC_insert */
  function Insert(s: State, e: Entry): State
  {
    if GhostHit(s) then s.(t2 := [e] + s.t2, inB1 := false, inB2 := false, ghostTime := -1)
    else s.(t1 := [e] + s.t1)
  }

  predicate Hit(s: State, x: ObjId)
  {
    x in Data(s)
  }

  /** cache_get_base */
  function Get(s: State, c: Config, e: Entry): State
    requires Sized(s) && 1 <= e.size
  {
    var s1 := Find(s.(now := s.now + 1), c, e.id);
    if Hit(s, e.id) || e.size + c.md > c.size then s1
    else FindSized(s.(now := s.now + 1), c, e.id); Insert(MakeRoom(s1, c, e.size + c.md), e)
  }

  // ---------- sizes ----------

  ghost predicate SizedQueue(q: Queue)
  {
    forall k | 0 <= k < |q| :: 1 <= q[k].size
  }

  ghost predicate Sized(s: State)
  {
    SizedQueue(s.t1) && SizedQueue(s.b1) && SizedQueue(s.t2) && SizedQueue(s.b2)
  }

  lemma {:induction false} WeightAtLeast(q: Queue, md: nat)
    requires SizedQueue(q)
    ensures Weight(q, md) >= |q|
  {
    if q != [] {
      WeightAtLeast(q[..|q| - 1], md);
    }
  }

  lemma HasWeight(q: Queue, md: nat, x: ObjId)
    requires SizedQueue(q) && Has(q, x)
    ensures 0 < Weight(q, md)
  {
    WeightAtLeast(q, md);
  }

  // ---------- single lists ----------

  /** What one list contributes: its objects, how much they weigh, and that it is in order. */
  ghost predicate Is(q: Queue, ids: set<ObjId>, w: int, md: nat)
  {
    Distinct(q) && SizedQueue(q) && Ids(q) == ids && Weight(q, md) == w
  }

  lemma FrontIs(q: Queue, md: nat)
    requires q != [] && Distinct(q) && SizedQueue(q)
    ensures Is(Front(q), Ids(q) - {Last(q).id}, Weight(q, md) - Last(q).size - md, md)
    ensures Last(q).id in Ids(q) && 1 <= Last(q).size
  {
    assert Has(q, Last(q).id);
    forall x
      ensures x in Ids(Front(q)) <==> x in Ids(q) - {Last(q).id}
    {
      if x in Ids(q) - {Last(q).id} {
        assert Front(q)[IndexOf(q, x)].id == x;
      }
    }
  }

  lemma ConsIs(e: Entry, q: Queue, md: nat)
    requires Distinct(q) && SizedQueue(q) && e.id !in Ids(q) && 1 <= e.size
    ensures Is([e] + q, Ids(q) + {e.id}, Weight(q, md) + e.size + md, md)
  {
    var r := [e] + q;
    WeightConcat([e], q, md);
    assert Weight([e], md) == Weight([], md) + e.size + md;
    assert r[0].id == e.id;
    forall x
      ensures x in Ids(r) <==> x in Ids(q) + {e.id}
    {
      if x in Ids(q) {
        assert r[1 + IndexOf(q, x)].id == x;
      }
      if x in Ids(r) && x != e.id {
        assert q[IndexOf(r, x) - 1].id == x;
      }
    }
  }

  lemma WithoutHas(q: Queue, x: ObjId, y: ObjId)
    requires Distinct(q) && Has(q, x)
    ensures y in Ids(Without(q, x)) <==> y in Ids(q) - {x}
  {
    hide Has, Without, Distinct;
    if Has(q, y) && y != x {
      WithoutKept(q, x, y);
    }
    if Has(Without(q, x), y) {
      WithoutFrom(q, x, y);
    }
  }

  lemma WithoutKept(q: Queue, x: ObjId, y: ObjId)
    requires Distinct(q) && Has(q, x) && Has(q, y) && y != x
    ensures Has(Without(q, x), y)
  {
    hide Without, Has, IndexOf;
    var k, j := IndexOf(q, x), IndexOf(q, y);
    var i := if j < k then j else j - 1;
    WithoutAt(q, x, i);
    HasAt(Without(q, x), i);
  }

  lemma WithoutFrom(q: Queue, x: ObjId, y: ObjId)
    requires Distinct(q) && Has(q, x) && Has(Without(q, x), y)
    ensures Has(q, y) && y != x
  {
    hide Without, Has, IndexOf;
    var k, i := IndexOf(q, x), IndexOf(Without(q, x), y);
    WithoutAt(q, x, k);
    WithoutAt(q, x, i);
    HasAt(q, if i < k then i else i + 1);
  }

  lemma HasAt(q: Queue, k: nat)
    requires k < |q|
    ensures Has(q, q[k].id)
  {
  }

  lemma WithoutAt(q: Queue, x: ObjId, j: nat)
    requires Has(q, x) && j < |q|
    ensures |Without(q, x)| == |q| - 1
    ensures j < |q| - 1 ==> Without(q, x)[j] == q[if j < IndexOf(q, x) then j else j + 1]
  {
  }

  lemma WithoutDistinct(q: Queue, x: ObjId)
    requires Distinct(q) && SizedQueue(q) && Has(q, x)
    ensures Distinct(Without(q, x)) && SizedQueue(Without(q, x))
  {
    var r := Without(q, x);
    hide Without, Has;
    WithoutAt(q, x, IndexOf(q, x));
    forall i, j | 0 <= i < j < |r|
      ensures r[i].id != r[j].id
    {
      WithoutAt(q, x, i);
      WithoutAt(q, x, j);
    }
    forall i | 0 <= i < |r|
      ensures 1 <= r[i].size
    {
      WithoutAt(q, x, i);
    }
  }

  lemma WithoutIs(q: Queue, x: ObjId, md: nat)
    requires Distinct(q) && SizedQueue(q) && Has(q, x)
    ensures Is(Without(q, x), Ids(q) - {x}, Weight(q, md) - Lookup(q, x).size - md, md)
    ensures Lookup(q, x).id == x && 1 <= Lookup(q, x).size
  {
    hide Ids, Distinct;
    WeightSplit(q, IndexOf(q, x), md);
    WithoutDistinct(q, x);
    forall y
      ensures y in Ids(Without(q, x)) <==> y in Ids(q) - {x}
    {
      WithoutHas(q, x, y);
    }
  }

  lemma PromoteIs(q: Queue, x: ObjId, md: nat)
    requires Distinct(q) && SizedQueue(q) && Has(q, x)
    ensures Is(Promote(q, x), Ids(q), Weight(q, md), md)
  {
    hide Without, Lookup, Distinct, SizedQueue;
    WithoutIs(q, x, md);
    ConsIs(Lookup(q, x), Without(q, x), md);
    assert Ids(q) - {x} + {x} == Ids(q);
  }

  // ---------- every operation keeps the sizes ----------

  lemma EvictSized(s: State, c: Config, need: nat)
    requires Evictable(s, c) && need <= c.size
    ensures Sized(Evict(s, c, need))
  {
    hide Sized, Evict, Victim;
    EvictForms(s, c, need);
    ForgetSized(s);
    DemoteSized(s);
    if s.b1 != [] {
      DemoteSized(s.(b1 := Front(s.b1)));
    }
    if s.b2 != [] {
      DemoteSized(s.(b2 := Front(s.b2)));
    }
  }

  lemma ForgetSized(s: State)
    requires Sized(s)
    ensures s.t1 != [] ==> Sized(s.(t1 := Front(s.t1)))
    ensures s.b1 != [] ==> Sized(s.(b1 := Front(s.b1)))
    ensures s.b2 != [] ==> Sized(s.(b2 := Front(s.b2)))
  {
  }

  lemma DemoteSized(s: State)
    requires Sized(s)
    ensures s.t1 != [] ==> Sized(DemoteT1(s))
    ensures s.t2 != [] ==> Sized(DemoteT2(s))
  {
  }

  lemma FindSized(s: State, c: Config, x: ObjId)
    requires Sized(s)
    ensures Sized(Find(s, c, x))
  {
  }

  lemma MakeRoomSized(s: State, c: Config, need: nat)
    requires Sized(s) && need <= c.size
    ensures Sized(MakeRoom(s, c, need))
    decreases |s.t1| + |s.t2|
  {
    if Weight(s.t1, c.md) + Weight(s.t2, c.md) + need > c.size {
      EvictSized(s, c, need);
      MakeRoomSized(Evict(s, c, need), c, need);
    }
  }

  // ---------- structure, for objects of any size ----------

  function Ghosts(s: State): set<ObjId>
  {
    Ids(s.b1) + Ids(s.b2)
  }

  function DataWeight(s: State, c: Config): nat
  {
    Weight(s.t1, c.md) + Weight(s.t2, c.md)
  }

  /** No object twice, whether in one list or in two. */
  ghost predicate Lists(s: State)
  {
    && Sized(s)
    && Distinct(s.t1) && Distinct(s.b1) && Distinct(s.t2) && Distinct(s.b2)
    && Ids(s.t1) !! Ids(s.b1) !! Ids(s.t2) !! Ids(s.b2)
  }

  ghost predicate Wf(s: State, c: Config)
  {
    Lists(s) && 0.0 <= s.p <= c.size as real && DataWeight(s, c) <= c.size && s.ghostTime <= s.now
  }

  /** The object the next eviction takes from the data lists: ARC_to_evict. */
  function Victim(s: State, c: Config, need: nat): Entry
    requires Evictable(s, c) && need <= c.size
  {
    if !GhostHit(s) && Weight(s.t1, c.md) + Weight(s.b1, c.md) + need > c.size && Weight(s.b1, c.md) == 0
    then Last(s.t1)
    else if FromT1(s, c) then Last(s.t1)
    else Last(s.t2)
  }

  lemma DataHas(s: State, x: ObjId)
    ensures x in Data(s) <==> Has(s.t1, x) || Has(s.t2, x)
    ensures x in Ghosts(s) <==> Has(s.b1, x) || Has(s.b2, x)
  {
  }

  /** What a lookup changes: the data stays, a ghost found is gone and has moved the target. */
  lemma FindKeeps(s: State, c: Config, x: ObjId)
    requires Lists(s) && 0.0 <= s.p <= c.size as real && s.ghostTime < s.now
    ensures var r := Find(s, c, x);
            && Lists(r) && 0.0 <= r.p <= c.size as real && r.now == s.now && r.ghostTime <= s.now
            && Data(r) == Data(s) && DataWeight(r, c) == DataWeight(s, c)
            && Ghosts(r) == Ghosts(s) - {x}
            && (GhostHit(r) <==> x in Ghosts(s))
            && (Has(s.b1, x) ==> if s.p < c.size as real then s.p < r.p else r.p == s.p)
            && (Has(s.b2, x) ==> if 0.0 < s.p then r.p < s.p else r.p == s.p)
            && (x !in Ghosts(s) ==> r.p == s.p)
  {
    hide Is, Distinct, SizedQueue, Ids, Has, Without, Promote, Delta;
    DataHas(s, x);
    if Has(s.b1, x) {
      GhostB1Keeps(s, c, x);
    } else if Has(s.b2, x) {
      GhostB2Keeps(s, c, x);
    } else if Has(s.t1, x) {
      HitT1Keeps(s, c, x);
    } else if Has(s.t2, x) {
      HitT2Keeps(s, c, x);
    }
  }

  lemma DeltaPositive(a: int, b: int)
    requires 0 < b
    ensures Delta(a, b) >= 1.0
  {
  }

  lemma GhostB1Keeps(s: State, c: Config, x: ObjId)
    requires Lists(s) && 0.0 <= s.p <= c.size as real && Has(s.b1, x)
    ensures 0 < Weight(s.b1, c.md)
    ensures var r := GhostHitB1(s, c, x);
            && Lists(r) && 0.0 <= r.p <= c.size as real
            && (if s.p < c.size as real then s.p < r.p else r.p == s.p)
            && Data(r) == Data(s) && DataWeight(r, c) == DataWeight(s, c) && Ghosts(r) == Ghosts(s) - {x}
  {
    hide Without, Delta;
    WithoutIs(s.b1, x, c.md);
    HasWeight(s.b1, c.md, x);
    DeltaPositive(Weight(s.b2, c.md), Weight(s.b1, c.md));
  }

  lemma GhostB2Keeps(s: State, c: Config, x: ObjId)
    requires Lists(s) && 0.0 <= s.p <= c.size as real && Has(s.b2, x)
    ensures 0 < Weight(s.b2, c.md)
    ensures var r := GhostHitB2(s, c, x);
            && Lists(r) && 0.0 <= r.p <= c.size as real
            && (if 0.0 < s.p then r.p < s.p else r.p == s.p)
            && Data(r) == Data(s) && DataWeight(r, c) == DataWeight(s, c) && Ghosts(r) == Ghosts(s) - {x}
  {
    hide Without, Delta;
    WithoutIs(s.b2, x, c.md);
    HasWeight(s.b2, c.md, x);
    DeltaPositive(Weight(s.b1, c.md), Weight(s.b2, c.md));
  }

  lemma HitT1Keeps(s: State, c: Config, x: ObjId)
    requires Lists(s) && Has(s.t1, x)
    ensures var r := s.(t1 := Without(s.t1, x), t2 := [Lookup(s.t1, x)] + s.t2);
            Lists(r) && Data(r) == Data(s) && DataWeight(r, c) == DataWeight(s, c)
    ensures x !in Ghosts(s)
  {
    hide Without, Lookup;
    WithoutIs(s.t1, x, c.md);
    assert x in Ids(s.t1);
    ConsIs(Lookup(s.t1, x), s.t2, c.md);
  }

  lemma HitT2Keeps(s: State, c: Config, x: ObjId)
    requires Lists(s) && Has(s.t2, x)
    ensures var r := s.(t2 := Promote(s.t2, x));
            Lists(r) && Data(r) == Data(s) && DataWeight(r, c) == DataWeight(s, c)
    ensures x !in Ghosts(s)
  {
    hide Promote;
    assert x in Ids(s.t2);
    PromoteIs(s.t2, x, c.md);
  }

  lemma DemoteT1Keeps(s: State, c: Config)
    requires Lists(s) && s.t1 != []
    ensures var r := DemoteT1(s);
            && Lists(r) && Data(r) == Data(s) - {Last(s.t1).id} && Last(s.t1).id in Data(s)
            && DataWeight(r, c) == DataWeight(s, c) - Last(s.t1).size - c.md
            && Ghosts(r) == Ghosts(s) + {Last(s.t1).id}
  {
    FrontIs(s.t1, c.md);
    ConsIs(Last(s.t1), s.b1, c.md);
  }

  lemma DemoteT2Keeps(s: State, c: Config)
    requires Lists(s) && s.t2 != []
    ensures var r := DemoteT2(s);
            && Lists(r) && Data(r) == Data(s) - {Last(s.t2).id} && Last(s.t2).id in Data(s)
            && DataWeight(r, c) == DataWeight(s, c) - Last(s.t2).size - c.md
            && Ghosts(r) == Ghosts(s) + {Last(s.t2).id}
  {
    FrontIs(s.t2, c.md);
    ConsIs(Last(s.t2), s.b2, c.md);
  }

  /** Forgetting a ghost touches nothing else. */
  lemma ForgetKeeps(s: State, c: Config)
    requires Lists(s)
    ensures s.b1 != [] ==> Lists(s.(b1 := Front(s.b1))) && Ghosts(s.(b1 := Front(s.b1))) <= Ghosts(s)
    ensures s.b2 != [] ==> Lists(s.(b2 := Front(s.b2))) && Ghosts(s.(b2 := Front(s.b2))) <= Ghosts(s)
  {
    if s.b1 != [] {
      FrontIs(s.b1, c.md);
    }
    if s.b2 != [] {
      FrontIs(s.b2, c.md);
    }
  }

  lemma DropT1Keeps(s: State, c: Config)
    requires Lists(s) && s.t1 != []
    ensures var r := s.(t1 := Front(s.t1));
            && Lists(r) && Data(r) == Data(s) - {Last(s.t1).id} && Last(s.t1).id in Data(s)
            && DataWeight(r, c) == DataWeight(s, c) - Last(s.t1).size - c.md && Ghosts(r) == Ghosts(s)
  {
    FrontIs(s.t1, c.md);
  }

  /** An eviction takes exactly the announced victim out of the data. */
  lemma EvictKeeps(s: State, c: Config, need: nat)
    requires Lists(s) && Evictable(s, c) && need <= c.size
    ensures var r, v := Evict(s, c, need), Victim(s, c, need);
            && Lists(r) && v.id in Data(s) && Data(r) == Data(s) - {v.id}
            && DataWeight(r, c) == DataWeight(s, c) - v.size - c.md
            && Data(r) + Ghosts(r) <= Data(s) + Ghosts(s)
            && r.p == s.p && r.now == s.now && r.ghostTime == s.ghostTime && (GhostHit(r) <==> GhostHit(s))
  {
    hide Lists, Ids, Sized, Data, Ghosts, Distinct, Weight;
    EvictForms(s, c, need);
    ForgetKeeps(s, c);
    var g1 := if s.b1 == [] then s else s.(b1 := Front(s.b1));
    var g2 := if s.b2 == [] then s else s.(b2 := Front(s.b2));
    SameData(s, g1, c);
    SameData(s, g2, c);
    if s.t1 != [] {
      DemoteT1Keeps(s, c);
      DemoteT1Keeps(g1, c);
      DemoteT1Keeps(g2, c);
      DropT1Keeps(s, c);
    }
    if s.t2 != [] {
      DemoteT2Keeps(s, c);
      DemoteT2Keeps(g1, c);
      DemoteT2Keeps(g2, c);
    }
  }

  lemma SameData(s: State, g: State, c: Config)
    requires s.t1 == g.t1 && s.t2 == g.t2
    ensures Data(s) == Data(g) && DataWeight(s, c) == DataWeight(g, c)
  {
  }

  /** The shapes an eviction can take. */
  lemma EvictForms(s: State, c: Config, need: nat)
    requires Evictable(s, c) && need <= c.size
    ensures var r, v := Evict(s, c, need), Victim(s, c, need);
            || (s.t1 != [] && v == Last(s.t1) && r == DemoteT1(s))
            || (s.t2 != [] && v == Last(s.t2) && r == DemoteT2(s))
            || (s.t1 != [] && v == Last(s.t1) && r == s.(t1 := Front(s.t1)))
            || (s.t1 != [] && s.b1 != [] && v == Last(s.t1) && r == DemoteT1(s.(b1 := Front(s.b1))))
            || (s.t2 != [] && s.b1 != [] && v == Last(s.t2) && r == DemoteT2(s.(b1 := Front(s.b1))))
            || (s.t1 != [] && s.b2 != [] && v == Last(s.t1) && r == DemoteT1(s.(b2 := Front(s.b2))))
            || (s.t2 != [] && s.b2 != [] && v == Last(s.t2) && r == DemoteT2(s.(b2 := Front(s.b2))))
  {
    hide Sized;
  }

  lemma {:induction false} MakeRoomKeeps(s: State, c: Config, need: nat)
    requires Lists(s) && need <= c.size
    ensures var r := MakeRoom(s, c, need);
            && Lists(r) && Data(r) <= Data(s) && DataWeight(r, c) + need <= c.size
            && Data(r) + Ghosts(r) <= Data(s) + Ghosts(s)
            && r.p == s.p && r.now == s.now && r.ghostTime == s.ghostTime && (GhostHit(r) <==> GhostHit(s))
    decreases |s.t1| + |s.t2|
  {
    hide Lists, Evict, GhostHit, Victim;
    ListsSized(s);
    if DataWeight(s, c) + need > c.size {
      EvictKeeps(s, c, need);
      EvictSized(s, c, need);
      MakeRoomKeeps(Evict(s, c, need), c, need);
    }
  }

  lemma ListsSized(s: State)
    requires Lists(s)
    ensures Sized(s)
  {
  }

  lemma InsertKeeps(s: State, c: Config, e: Entry)
    requires Lists(s) && e.id !in Data(s) && e.id !in Ghosts(s) && 1 <= e.size
    ensures var r := Insert(s, e);
            && Lists(r) && Data(r) == Data(s) + {e.id} && r.now == s.now && r.p == s.p
            && DataWeight(r, c) == DataWeight(s, c) + e.size + c.md
            && Ghosts(r) == Ghosts(s) && (r.ghostTime == s.ghostTime || r.ghostTime == -1)
  {
    ConsIs(e, s.t1, c.md);
    ConsIs(e, s.t2, c.md);
  }

  /** Every `get` keeps the structure, caches what fits and evicts only old data. */
  lemma GetKeeps(s: State, c: Config, e: Entry)
    requires Wf(s, c) && 1 <= e.size && 0 <= s.now
    ensures var r := Get(s, c, e);
            && Wf(r, c) && r.now == s.now + 1
            && (Hit(s, e.id) ==> Data(r) == Data(s))
            && (!Hit(s, e.id) && e.size + c.md > c.size ==> Data(r) == Data(s) && e.id !in Ghosts(r))
            && (!Hit(s, e.id) && e.size + c.md <= c.size ==> e.id in Data(r) && Data(r) <= Data(s) + {e.id})
  {
    hide Lists, Data, Ghosts, Find, MakeRoom, Insert, Ids, GhostHit;
    var s0 := s.(now := s.now + 1);
    ListsSized(s);
    SameLists(s, s0);
    SameData(s, s0, c);
    FindKeeps(s0, c, e.id);
    if !Hit(s, e.id) && e.size + c.md <= c.size {
      FindSized(s0, c, e.id);
      var s1 := Find(s0, c, e.id);
      MakeRoomKeeps(s1, c, e.size + c.md);
      InsertKeeps(MakeRoom(s1, c, e.size + c.md), c, e);
    }
  }

  lemma SameLists(s: State, g: State)
    requires s.t1 == g.t1 && s.t2 == g.t2 && s.b1 == g.b1 && s.b2 == g.b2
    ensures Lists(s) <==> Lists(g)
    ensures Ghosts(s) == Ghosts(g)
  {
  }

  // ---------- bounds, for unit sizes without metadata ----------

  ghost predicate UnitState(s: State)
  {
    Units(s.t1) && Units(s.b1) && Units(s.t2) && Units(s.b2)
  }

  /** The bounds of the paper; ghosts are kept only while the cache is full. */
  ghost predicate Bounded(s: State, c: nat)
  {
    && |s.t1| + |s.b1| <= c
    && |s.t1| + |s.t2| + |s.b1| + |s.b2| <= 2 * c
    && |s.t1| + |s.t2| <= c
    && (s.b1 != [] || s.b2 != [] ==> |s.t1| + |s.t2| == c)
  }

  lemma UnitWeights(s: State)
    requires UnitState(s)
    ensures Weight(s.t1, 0) == |s.t1| && Weight(s.b1, 0) == |s.b1|
    ensures Weight(s.t2, 0) == |s.t2| && Weight(s.b2, 0) == |s.b2|
    ensures Sized(s)
  {
    UnitWeight(s.t1);
    UnitWeight(s.b1);
    UnitWeight(s.t2);
    UnitWeight(s.b2);
  }

  lemma UnitFind(s: State, c: Config, x: ObjId)
    requires UnitState(s) && Lists(s)
    ensures var r := Find(s, c, x);
            && UnitState(r)
            && (if Has(s.b1, x) then r.t1 == s.t1 && |r.b1| == |s.b1| - 1 && r.t2 == s.t2 && r.b2 == s.b2
                else if Has(s.b2, x) then r.t1 == s.t1 && r.b1 == s.b1 && r.t2 == s.t2 && |r.b2| == |s.b2| - 1
                else if Has(s.t1, x) then
                  |r.t1| == |s.t1| - 1 && r.b1 == s.b1 && |r.t2| == |s.t2| + 1 && r.b2 == s.b2
                else r.t1 == s.t1 && r.b1 == s.b1 && |r.t2| == |s.t2| && r.b2 == s.b2)
  {
    UnitWithout(s.t1, x);
    UnitWithout(s.b1, x);
    UnitWithout(s.t2, x);
    UnitWithout(s.b2, x);
    hide Without, Lookup, Delta, Has;
  }

  lemma UnitWithout(q: Queue, x: ObjId)
    requires Units(q)
    ensures Has(q, x) ==> Units(Without(q, x)) && |Without(q, x)| == |q| - 1 && Lookup(q, x).size == 1
  {
    if Has(q, x) {
      WithoutAt(q, x, IndexOf(q, x));
    }
  }

  /** One eviction among unit objects, in a full cache. */
  lemma UnitEvict(s: State, c: nat)
    requires 1 <= c && UnitState(s) && |s.t1| + |s.t2| == c && |s.t1| + |s.b1| <= c
    requires |s.t1| + |s.t2| + |s.b1| + |s.b2| <= 2 * c
    requires GhostHit(s) ==> |s.b1| + |s.b2| < c
    ensures Sized(s)
    ensures var r := Evict(s, Config(c, 0), 1);
            && UnitState(r) && |r.t1| + |r.t2| == c - 1 && |r.t1| + |r.b1| <= c
            && |r.b1| + |r.b2| <= c
            && (!GhostHit(s) ==> |r.t1| + |r.b1| <= c - 1)
  {
    hide FromT1, UnitState, GhostHit, Replace, Sized;
    UnitWeights(s);
    UnitReplace(s);
    UnitForget(s);
    if s.b1 != [] {
      UnitReplace(s.(b1 := Front(s.b1)));
    }
    if s.b2 != [] {
      UnitReplace(s.(b2 := Front(s.b2)));
    }
  }

  lemma UnitForget(s: State)
    requires UnitState(s)
    ensures s.t1 != [] ==> UnitState(s.(t1 := Front(s.t1)))
    ensures s.b1 != [] ==> UnitState(s.(b1 := Front(s.b1)))
    ensures s.b2 != [] ==> UnitState(s.(b2 := Front(s.b2)))
  {
  }

  lemma UnitReplace(s: State)
    requires UnitState(s) && 0 < |s.t1| + |s.t2|
    ensures Sized(s) && 0 < Weight(s.t1, 0) + Weight(s.t2, 0)
    ensures forall c: nat :: var r := Replace(s, Config(c, 0));
            && UnitState(r) && |r.t1| + |r.b1| <= |s.t1| + |s.b1| && |r.t1| + |r.t2| == |s.t1| + |s.t2| - 1
            && |r.b1| + |r.b2| == |s.b1| + |s.b2| + 1
  {
    UnitWeights(s);
  }

  /** What holds of a unit cache after a miss, before room is made. */
  ghost predicate Ready(s: State, c: nat)
  {
    && |s.t1| + |s.t2| <= c && |s.t1| + |s.b1| <= c && |s.t1| + |s.t2| + |s.b1| + |s.b2| <= 2 * c
    && (s.b1 != [] || s.b2 != [] || GhostHit(s) ==> |s.t1| + |s.t2| == c)
    && (GhostHit(s) ==> |s.b1| + |s.b2| < c)
  }

  /** What the eviction loop does in a unit cache: nothing, or one eviction. */
  lemma UnitMakeRoom(s: State, c: nat)
    requires 1 <= c && UnitState(s) && Ready(s, c)
    ensures Sized(s)
    ensures |s.t1| + |s.t2| < c ==> MakeRoom(s, Config(c, 0), 1) == s
    ensures |s.t1| + |s.t2| == c ==> MakeRoom(s, Config(c, 0), 1) == Evict(s, Config(c, 0), 1)
    ensures var r := MakeRoom(s, Config(c, 0), 1);
            && UnitState(r) && |r.t1| + |r.t2| < c && |r.b1| + |r.b2| <= c
            && |r.t1| + |r.b1| <= (if GhostHit(s) then c else c - 1)
            && (r.b1 != [] || r.b2 != [] ==> |r.t1| + |r.t2| == c - 1)
  {
    hide Evict, GhostHit;
    UnitWeights(s);
    if |s.t1| + |s.t2| == c {
      UnitEvict(s, c);
      UnitWeights(Evict(s, Config(c, 0), 1));
    }
  }

  /** A lookup in a unit cache. */
  lemma FindReady(s: State, c: nat, x: ObjId)
    requires Lists(s) && UnitState(s) && Bounded(s, c) && 0.0 <= s.p <= c as real && s.ghostTime < s.now
    ensures var r := Find(s, Config(c, 0), x);
            && UnitState(r) && Lists(r)
            && (Hit(s, x) ==> Bounded(r, c))
            && (!Hit(s, x) ==> Ready(r, c) && x !in Data(r) && x !in Ghosts(r))
  {
    hide Lists, Has, Distinct, Find, GhostHit;
    ListsSized(s);
    FindKeeps(s, Config(c, 0), x);
    UnitFind(s, Config(c, 0), x);
    DataHas(s, x);
    NonEmpty(s, x);
  }

  /** Every `get` keeps the bounds. */
  lemma GetBounded(s: State, c: nat, x: ObjId)
    requires Wf(s, Config(c, 0)) && UnitState(s) && Bounded(s, c) && 0 <= s.now
    ensures var r := Get(s, Config(c, 0), Entry(x, 1)); Bounded(r, c) && UnitState(r)
  {
    hide Lists, MakeRoom, Has, Distinct, Find;
    var conf, s0 := Config(c, 0), s.(now := s.now + 1);
    ListsSized(s);
    SameLists(s, s0);
    FindReady(s0, c, x);
    var s1 := Find(s0, conf, x);
    if !Hit(s, x) && 1 <= c {
      UnitMakeRoom(s1, c);
    } else if c == 0 {
      NothingFound(s0, c, x);
    }
  }

  lemma NothingFound(s: State, c: nat, x: ObjId)
    requires Lists(s) && Bounded(s, c) && c == 0
    ensures Sized(s) && Find(s, Config(c, 0), x) == s
  {
  }

  lemma NonEmpty(s: State, x: ObjId)
    ensures Has(s.b1, x) ==> s.b1 != []
    ensures Has(s.b2, x) ==> s.b2 != []
  {
  }

  // ---------- whole runs ----------

  ghost predicate Requests(es: seq<Entry>)
  {
    forall i | 0 <= i < |es| :: 1 <= es[i].size
  }

  /** The state after a run of `get`s. */
  ghost function Run(c: Config, es: seq<Entry>): (s: State)
    requires Requests(es)
    ensures Wf(s, c) && s.now == |es|
  {
    if es == [] then Init()
    else
      var s := Run(c, Front(es));
      GetKeeps(s, c, Last(es));
      Get(s, c, Last(es))
  }

  ghost function Hits(c: Config, es: seq<Entry>): (hits: seq<bool>)
    requires Requests(es)
    ensures |hits| == |es|
  {
    if es == [] then [] else Hits(c, Front(es)) + [Hit(Run(c, Front(es)), Last(es).id)]
  }

  /** On every run over unit-size objects the lists stay within ARC's bounds. */
  lemma {:induction false} RunBounded(c: nat, es: seq<Entry>)
    requires Requests(es) && Units(es)
    ensures Bounded(Run(Config(c, 0), es), c) && UnitState(Run(Config(c, 0), es))
  {
    hide Wf, Get, Bounded, UnitState;
    if es == [] {
      InitBounded(c);
    } else {
      RunBounded(c, es[..|es| - 1]);
      GetBounded(Run(Config(c, 0), es[..|es| - 1]), c, es[|es| - 1].id);
      assert es[|es| - 1] == Entry(es[|es| - 1].id, 1);
    }
  }

  lemma InitBounded(c: nat)
    ensures Bounded(Init(), c) && UnitState(Init())
  {
  }
}
