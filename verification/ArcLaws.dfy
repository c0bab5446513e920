/** What ARC decides, stated on its four lists: where an object goes, which list gives way, which ghosts are
    forgotten, and how far the target moves. */
module ArcLaws {
  import opened NextUse
  import opened Lru
  import opened ArcSpec
  import ArcFlag

  // ---------- lookups ----------

  /** A hit in T1 or T2 makes the object the newest of T2; nothing else moves. */
  lemma HitMoves(s: State, c: Config, x: ObjId, k: nat)
    requires Lists(s)
    ensures k < |s.t1| && s.t1[k].id == x ==>
              Find(s, c, x) == s.(inB1 := false, inB2 := false,
                                  t1 := s.t1[..k] + s.t1[k + 1..], t2 := [s.t1[k]] + s.t2)
    ensures k < |s.t2| && s.t2[k].id == x ==>
              Find(s, c, x) == s.(inB1 := false, inB2 := false, t2 := [s.t2[k]] + (s.t2[..k] + s.t2[k + 1..]))
  {
    ArcFlag.Elsewhere(s, x);
    hide Weight;
    if k < |s.t1| && s.t1[k].id == x {
      OnlyOnce(s.t1, x, k);
      Apart(s, x);
    }
    if k < |s.t2| && s.t2[k].id == x {
      OnlyOnce(s.t2, x, k);
      Apart(s, x);
    }
  }

  lemma OnlyOnce(q: Queue, x: ObjId, k: nat)
    requires Distinct(q) && k < |q| && q[k].id == x
    ensures Has(q, x) && IndexOf(q, x) == k
  {
  }

  lemma Apart(s: State, x: ObjId)
    requires Lists(s)
    ensures Has(s.t1, x) || Has(s.t2, x) ==> !Has(s.b1, x) && !Has(s.b2, x)
    ensures Has(s.t1, x) ==> !Has(s.t2, x)
  {
    assert x in Ids(s.t1) <==> Has(s.t1, x);
    assert x in Ids(s.t2) <==> Has(s.t2, x);
    assert x in Ids(s.b1) <==> Has(s.b1, x);
    assert x in Ids(s.b2) <==> Has(s.b2, x);
  }

  /** A ghost hit moves the target by 1 if the other ghost list is no heavier, else by as many times as it is heavier;
      only the ends of the range cut the move short. */
  lemma TargetMove(s: State, c: Config, x: ObjId)
    requires Lists(s) && 0.0 <= s.p <= c.size as real
    ensures var r, w1, w2 := Find(s, c, x), Weight(s.b1, c.md), Weight(s.b2, c.md);
            && (Has(s.b1, x) ==> Moved(r.p - s.p, c.size as real - s.p, w1, w2))
            && (Has(s.b2, x) ==> Moved(s.p - r.p, s.p, w2, w1))
            && (!Has(s.b1, x) && !Has(s.b2, x) ==> r.p == s.p)
  {
    hide Without, Weight, Promote, Delta, Moved;
    Apart2(s, x);
    if Has(s.b1, x) {
      HasWeight(s.b1, c.md, x);
      DeltaMoves(Weight(s.b1, c.md), Weight(s.b2, c.md), c.size as real - s.p);
    } else if Has(s.b2, x) {
      HasWeight(s.b2, c.md, x);
      DeltaMoves(Weight(s.b2, c.md), Weight(s.b1, c.md), s.p);
    }
  }

  /** A move of the target within `room`, for ghost lists of these weights. */
  ghost predicate Moved(move: real, room: real, own: nat, other: nat)
  {
    && 0 < own && 0.0 <= move <= room
    && (other <= own ==> move == if room < 1.0 then room else 1.0)
    && (own < other ==>
          if room * own as real < other as real then move == room else move * own as real == other as real)
  }

  lemma Apart2(s: State, x: ObjId)
    requires Lists(s)
    ensures Has(s.b2, x) ==> !Has(s.b1, x)
  {
    assert x in Ids(s.b1) <==> Has(s.b1, x);
    assert x in Ids(s.b2) <==> Has(s.b2, x);
  }

  lemma DeltaMoves(own: nat, other: nat, room: real)
    requires 0 < own && 0.0 <= room
    ensures Moved(if Delta(other, own) < room then Delta(other, own) else room, room, own, other)
  {
    var r := other as real / own as real;
    Ratio(other as real, own as real, r);
    Scaled(1.0, r, own as real);
    Scaled(room, r, own as real);
    MovedBy(own, other, room, r);
  }

  lemma Ratio(a: real, b: real, r: real)
    requires b != 0.0 && r == a / b
    ensures r * b == a
  {
  }

  lemma MovedBy(own: nat, other: nat, room: real, r: real)
    requires 0 < own && 0.0 <= room && r == other as real / own as real && r * own as real == other as real
    requires 1.0 < r <==> own < other
    requires room < r <==> room * own as real < other as real
    ensures Moved(if Delta(other, own) < room then Delta(other, own) else room, room, own, other)
  {
    var d := if own < other then r else 1.0;
    DeltaIs(own, other, r);
    if own < other && r <= room {
      assert (if d < room then d else room) == r;
    }
  }

  lemma DeltaIs(own: nat, other: nat, r: real)
    requires 0 < own && r == other as real / own as real && (1.0 < r <==> own < other)
    ensures Delta(other, own) == if own < other then r else 1.0
  {
  }

  /** Comparing is the same after multiplying with a positive number. */
  lemma Scaled(x: real, y: real, b: real)
    requires 0.0 < b
    ensures x < y <==> x * b < y * b
  {
    assert (y - x) * b == y * b - x * b;
    Sign(y - x, b);
  }

  lemma Sign(d: real, b: real)
    requires 0.0 < b
    ensures 0.0 < d <==> 0.0 < d * b
  {
  }

  // ---------- evictions ----------

  /** REPLACE with objects in both data lists: T1 gives way if it weighs more than the target, T2 if it weighs less;
      at equality T1 does exactly if the flag for a hit in B2 is up. The object becomes the newest ghost of its list. */
  lemma ReplaceChooses(s: State, c: Config)
    requires Sized(s) && s.t1 != [] && s.t2 != []
    ensures Evictable(s, c)
    ensures var w, r := Weight(s.t1, c.md) as real, Replace(s, c);
            && (w > s.p || (w == s.p && s.inB2) ==> FirstGivesWay(s, r) && r.b2 == s.b2)
            && (w < s.p || (w == s.p && !s.inB2) ==> SecondGivesWay(s, r) && r.b1 == s.b1)
            && FirstGivesWay(s, r) == !SecondGivesWay(s, r)
  {
    WeightAtLeast(s.t1, c.md);
    WeightAtLeast(s.t2, c.md);
    hide Weight;
  }

  /** The tail of T1 becomes a ghost, and T2 is left alone. */
  ghost predicate FirstGivesWay(s: State, r: State)
  {
    s.t1 != [] && r.t1 == s.t1[..|s.t1| - 1] && r.t2 == s.t2 && r.b1 == [s.t1[|s.t1| - 1]] + s.b1
  }

  ghost predicate SecondGivesWay(s: State, r: State)
  {
    s.t2 != [] && r.t2 == s.t2[..|s.t2| - 1] && r.t1 == s.t1 && r.b2 == [s.t2[|s.t2| - 1]] + s.b2
  }

  /** With only one data list to choose from, that one gives way. */
  lemma ReplaceOnly(s: State, c: Config)
    requires Sized(s) && (s.t1 == [] <==> s.t2 != [])
    ensures Evictable(s, c)
    ensures if s.t2 == [] then FirstGivesWay(s, Replace(s, c)) else SecondGivesWay(s, Replace(s, c))
  {
    WeightAtLeast(s.t1, c.md);
    WeightAtLeast(s.t2, c.md);
  }

  /** How one eviction divides the lists, given whether T1 gives way. Ghosts are forgotten only if the request hit none:
      the oldest of B1 if T1, B1 and the newcomer exceed the cache, else the oldest of B2 if all four lists weigh
      twice the cache. If B1 has nothing to forget, the tail of T1 is forgotten itself. */
  lemma EvictDivides(s: State, c: Config, need: nat)
    requires Sized(s) && (s.t1 != [] || s.t2 != []) && need <= c.size
    ensures Evictable(s, c)
    ensures var w1, g1 := Weight(s.t1, c.md), Weight(s.b1, c.md);
            var w2, g2 := Weight(s.t2, c.md), Weight(s.b2, c.md);
            var fromT1 := s.t2 == [] || (s.t1 != [] && (w1 as real > s.p || (w1 as real == s.p && s.inB2)));
            var miss := s.ghostTime != s.now || (!s.inB1 && !s.inB2);
            var full1, full := w1 + g1 + need > c.size, w1 + g1 + w2 + g2 >= 2 * c.size;
            var r := Evict(s, c, need);
            if miss && full1 && s.b1 == [] then r == s.(t1 := s.t1[..|s.t1| - 1])
            else
              var b1 := if miss && full1 then s.b1[..|s.b1| - 1] else s.b1;
              var b2 := if miss && !full1 && full && s.b2 != [] then s.b2[..|s.b2| - 1] else s.b2;
              r == if fromT1
                   then s.(t1 := s.t1[..|s.t1| - 1], b1 := [s.t1[|s.t1| - 1]] + b1, b2 := b2)
                   else s.(t2 := s.t2[..|s.t2| - 1], b2 := [s.t2[|s.t2| - 1]] + b2, b1 := b1)
  {
    WeightAtLeast(s.t1, c.md);
    WeightAtLeast(s.t2, c.md);
    WeightAtLeast(s.b1, c.md);
    WeightAtLeast(s.b2, c.md);
    hide Weight;
  }

  /** A request that misses finds the flag up if it hit B2 itself; it may also be left from an earlier request. */
  lemma TieOnRequest(s: State, c: Config, x: ObjId)
    requires Wf(s, c) && 0 <= s.now && s.t1 != [] && s.t2 != []
    requires forall k | 0 <= k < |s.t1| :: s.t1[k].id != x
    requires forall k | 0 <= k < |s.t2| :: s.t2[k].id != x
    ensures Sized(s)
    ensures var r := Find(s.(now := s.now + 1), c, x);
            && r.t1 == s.t1 && r.t2 == s.t2 && Evictable(r, c)
            && (Weight(s.t1, c.md) as real == r.p ==>
                  && (Has(s.b2, x) ==> FirstGivesWay(r, Replace(r, c)))
                  && (!s.inB2 && !Has(s.b2, x) ==> SecondGivesWay(r, Replace(r, c)))
                  && (FirstGivesWay(r, Replace(r, c)) <==> Has(s.b2, x) || (s.inB2 && !ArcFlag.Found(s, x))))
  {
    hide Weight, Replace, Without, Promote, Delta, FirstGivesWay, SecondGivesWay;
    ListsSized(s);
    var s0 := s.(now := s.now + 1);
    var r := Find(s0, c, x);
    ArcFlag.ReadsStale(s, c, x);
    Apart2(s, x);
    FindSized(s0, c, x);
    ReplaceChooses(r, c);
  }

  // ---------- making room ----------

  /** From these data lists at least `room` must be left free: nothing goes without need, as the last victim did not fit
      next to what is left. */
  ghost predicate OnlyAsNeeded(t1: Queue, t2: Queue, kept1: Queue, kept2: Queue, md: nat, room: int)
  {
    && kept1 <= t1 && kept2 <= t2
    && (Weight(t1, md) + Weight(t2, md) <= room ==> kept1 == t1 && kept2 == t2)
    && (kept1 != t1 || kept2 != t2 ==>
          || (kept1 != t1 && room < Weight(t1[..|kept1| + 1], md) + Weight(kept2, md))
          || (kept2 != t2 && room < Weight(kept1, md) + Weight(t2[..|kept2| + 1], md)))
  }

  lemma {:induction false} RoomOnlyAsNeeded(s: State, c: Config, need: nat)
    requires Sized(s) && need <= c.size
    ensures var r := MakeRoom(s, c, need);
            && OnlyAsNeeded(s.t1, s.t2, r.t1, r.t2, c.md, c.size - need)
            && Weight(r.t1, c.md) + Weight(r.t2, c.md) + need <= c.size
    decreases |s.t1| + |s.t2|
  {
    hide Evict, Victim, Sized, Weight;
    if Weight(s.t1, c.md) + Weight(s.t2, c.md) + need > c.size {
      EvictForms(s, c, need);
      EvictSized(s, c, need);
      var g := Evict(s, c, need);
      RoomOnlyAsNeeded(g, c, need);
      OneMore(s, g, MakeRoom(g, c, need), c, c.size - need);
    }
  }

  lemma OneMore(s: State, g: State, r: State, c: Config, room: int)
    requires room < Weight(s.t1, c.md) + Weight(s.t2, c.md)
    requires (s.t1 != [] && g.t1 == Front(s.t1) && g.t2 == s.t2) || (s.t2 != [] && g.t2 == Front(s.t2) && g.t1 == s.t1)
    requires OnlyAsNeeded(g.t1, g.t2, r.t1, r.t2, c.md, room)
    ensures OnlyAsNeeded(s.t1, s.t2, r.t1, r.t2, c.md, room)
  {
    hide Weight;
    if g.t1 != s.t1 {
      Longer(s.t1, r.t1);
    } else {
      Longer(s.t2, r.t2);
    }
  }

  lemma Longer(q: Queue, kept: Queue)
    requires q != [] && kept <= Front(q)
    ensures kept <= q && q[..|kept| + 1] == if kept == Front(q) then q else Front(q)[..|kept| + 1]
  {
  }

  /** A miss that can be stored puts the object at the head of T2 if it was a ghost, else of T1. The data lists keep
      their order and lose objects only at their tails, and only as many as necessary. */
  lemma MissPlaces(s: State, c: Config, e: Entry)
    requires Wf(s, c) && 1 <= e.size && e.size + c.md <= c.size && 0 <= s.now
    requires forall k | 0 <= k < |s.t1| :: s.t1[k].id != e.id
    requires forall k | 0 <= k < |s.t2| :: s.t2[k].id != e.id
    ensures var r, room := Get(s, c, e), c.size - e.size - c.md;
            if Has(s.b1, e.id) || Has(s.b2, e.id)
            then r.t2 != [] && r.t2[0] == e && OnlyAsNeeded(s.t1, s.t2, r.t1, r.t2[1..], c.md, room)
            else r.t1 != [] && r.t1[0] == e && OnlyAsNeeded(s.t1, s.t2, r.t1[1..], r.t2, c.md, room)
  {
    hide *;
    var r := MissFound(s, c, e);
    RoomOnlyAsNeeded(r, c, e.size + c.md);
    MissInserted(r, c, e, MakeRoom(r, c, e.size + c.md));
  }

  lemma MissFound(s: State, c: Config, e: Entry) returns (r: State)
    requires Wf(s, c) && 1 <= e.size && e.size + c.md <= c.size && 0 <= s.now
    requires forall k | 0 <= k < |s.t1| :: s.t1[k].id != e.id
    requires forall k | 0 <= k < |s.t2| :: s.t2[k].id != e.id
    ensures r.t1 == s.t1 && r.t2 == s.t2 && Sized(r) && Lists(r) && Sized(s)
    ensures GhostHit(r) <==> Has(s.b1, e.id) || Has(s.b2, e.id)
    ensures Get(s, c, e) == Insert(MakeRoom(r, c, e.size + c.md), e)
  {
    hide Weight, Lists, MakeRoom, Without, Promote, Delta, GhostHit, Insert;
    var s0 := s.(now := s.now + 1);
    ListsSized(s);
    SameLists(s, s0);
    ListsSized(s0);
    r := Find(s0, c, e.id);
    FindKeeps(s0, c, e.id);
    DataHas(s, e.id);
    FindSized(s0, c, e.id);
  }

  lemma MissInserted(s: State, c: Config, e: Entry, kept: State)
    requires Lists(s) && Sized(s) && e.size + c.md <= c.size && kept == MakeRoom(s, c, e.size + c.md)
    ensures var r := Insert(kept, e);
            if GhostHit(s) then r.t2 != [] && r.t2[0] == e && r.t2[1..] == kept.t2 && r.t1 == kept.t1
            else r.t1 != [] && r.t1[0] == e && r.t1[1..] == kept.t1 && r.t2 == kept.t2
  {
    hide Lists, MakeRoom, GhostHit;
    MakeRoomKeeps(s, c, e.size + c.md);
    assert ([e] + kept.t1)[1..] == kept.t1 && ([e] + kept.t2)[1..] == kept.t2;
  }

  // ---------- four requests ----------

  const TWO: Config := Config(2, 0)

  /** Object 1 is hit, so it is in T2 when 3 arrives at a full cache. T1 weighs more than the target 0 and gives way. */
  lemma FourRequests()
    ensures var es := [Entry(1, 1), Entry(1, 1), Entry(2, 1), Entry(3, 1), Entry(1, 1)];
            && Requests(es[..3]) && Requests(es[..4])
            && Run(TWO, es[..3]) == State([es[2]], [], [es[0]], [], 0.0, false, false, -1, 3)
            && Run(TWO, es[..4]) == State([es[3]], [es[2]], [es[0]], [], 0.0, false, false, -1, 4)
            && Hit(Run(TWO, es[..4]), es[4].id)
  {
    hide Run, Get, Requests, Sized, Hit;
    var a, b, d := Entry(1, 1), Entry(2, 1), Entry(3, 1);
    var es := [a, a, b, d, a];
    AfterThree(a, b, es[..3]);
    GetThird(a, b, d);
    OneMoreRequest(es[..3], d, es[..4], At([b], [], [a], 3), At([d], [b], [a], 4));
    StillThere(At([d], [b], [a], 4), a);
  }

  lemma AfterThree(a: Entry, b: Entry, es: seq<Entry>)
    requires a.size == b.size == 1 && a.id != b.id && es == [a, a, b]
    ensures Requests(es) && Run(TWO, es) == At([b], [], [a], 3)
  {
    hide Run, Get, Requests, Sized, At;
    AfterTwo(a, es[..2]);
    GetSecond(a, b);
    OneMoreRequest(es[..2], b, es, At([], [], [a], 2), At([b], [], [a], 3));
  }

  lemma AfterTwo(a: Entry, es: seq<Entry>)
    requires a.size == 1 && es == [a, a]
    ensures Requests(es) && Run(TWO, es) == At([], [], [a], 2)
  {
    hide Run, Get, Requests, Sized, At;
    AfterOne(a, es[..1]);
    GetAgain(a);
    OneMoreRequest(es[..1], a, es, At([a], [], [], 1), At([], [], [a], 2));
  }

  lemma AfterOne(a: Entry, es: seq<Entry>)
    requires a.size == 1 && es == [a]
    ensures Requests(es) && Run(TWO, es) == At([a], [], [], 1)
  {
    hide Run, Get, Requests, Sized;
    ArcFlag.Empty(TWO);
    NoRequests();
    GetFirst(a);
    OneMoreRequest([], a, es, At([], [], [], 0), At([a], [], [], 1));
  }

  lemma NoRequests()
    ensures Requests([])
  {
  }

  lemma OneMoreRequest(es: seq<Entry>, e: Entry, es': seq<Entry>, s: State, r: State)
    requires Requests(es) && Run(TWO, es) == s && Sized(s) && e.size == 1 && Get(s, TWO, e) == r && es' == es + [e]
    ensures Requests(es') && Run(TWO, es') == r
  {
    hide Get, Run, Wf;
    ArcFlag.RunNext(TWO, es, e);
  }

  lemma StillThere(s: State, a: Entry)
    requires s.t2 == [a]
    ensures Hit(s, a.id)
  {
    assert s.t2[0].id == a.id;
  }

  function At(t1: Queue, b1: Queue, t2: Queue, now: int): State
  {
    State(t1, b1, t2, [], 0.0, false, false, -1, now)
  }

  lemma GetFirst(a: Entry)
    requires a.size == 1
    ensures Sized(At([], [], [], 0)) && Get(At([], [], [], 0), TWO, a) == At([a], [], [], 1)
  {
    assert Weight([], 0) == 0;
  }

  lemma GetAgain(a: Entry)
    requires a.size == 1
    ensures Sized(At([a], [], [], 1)) && Get(At([a], [], [], 1), TWO, a) == At([], [], [a], 2)
  {
    assert [a][0].id == a.id;
    assert Has([a], a.id) && a.id in Data(At([a], [], [], 1));
    assert Without([a], a.id) == [];
  }

  lemma GetSecond(a: Entry, b: Entry)
    requires a.size == b.size == 1 && a.id != b.id
    ensures Sized(At([], [], [a], 2)) && Get(At([], [], [a], 2), TWO, b) == At([b], [], [a], 3)
  {
    ArcFlag.One(a);
    assert !Has([a], b.id);
  }

  lemma GetThird(a: Entry, b: Entry, d: Entry)
    requires a.size == b.size == d.size == 1 && a.id != b.id && d.id != a.id && d.id != b.id
    ensures Sized(At([b], [], [a], 3)) && Get(At([b], [], [a], 3), TWO, d) == At([d], [b], [a], 4)
  {
    ArcFlag.One(a);
    ArcFlag.One(b);
    var s := At([b], [], [a], 4);
    assert !Has([a], d.id) && !Has([b], d.id) && !Has([], d.id);
    assert Find(s, TWO, d.id) == s;
    EvictDivides(s, TWO, 1);
    var r := At([], [b], [a], 4);
    hide Evict, Weight, Find;
    assert Evict(s, TWO, 1) == r;
    assert MakeRoom(s, TWO, 1) == MakeRoom(r, TWO, 1) == r by {
      assert Weight([], 0) == 0 by {
        NoWeight();
      }
    }
  }

  lemma NoWeight()
    ensures Weight([], 0) == 0
  {
  }
}
