/** The online policies are demand policies on unit-size objects, so Belady's rule bounds them all. */
module Rivals {
  import opened NextUse
  import opened Lru
  import opened BeladyOptimal
  import Sets
  import LruStack
  import ArcSpec
  import ArcRefinement
  import CrLfuSpec
  import ObjQueue

  lemma IdsSize(q: Queue)
    ensures |ArcSpec.Ids(q)| <= |q|
    decreases |q|
  {
    if q != [] {
      var init, last := q[..|q| - 1], q[|q| - 1];
      IdsSize(init);
      forall x
        ensures x in ArcSpec.Ids(q) <==> x in ArcSpec.Ids(init) || x == last.id
      {
        assert x in ArcSpec.Ids(init) ==> init[IndexOf(init, x)] == q[IndexOf(init, x)];
        assert Has(q, x) && x != last.id ==> init[IndexOf(q, x)].id == x;
      }
      assert ArcSpec.Ids(q) == ArcSpec.Ids(init) + {last.id};
      Sets.AddOne(ArcSpec.Ids(init), last.id);
    }
  }

  // ---------- LRU ----------

  function LruContents(tr: seq<ObjId>, c: nat, i: nat): set<ObjId>
    requires i <= |tr|
  {
    ArcSpec.Ids(LruStack.LruQueue(tr, c, i))
  }

  function LruHistory(tr: seq<ObjId>, c: nat): (run: seq<set<ObjId>>)
    ensures |run| == |tr| + 1 && forall i | 0 <= i <= |tr| :: run[i] == LruContents(tr, c, i)
  {
    seq(|tr| + 1, i requires 0 <= i <= |tr| => LruContents(tr, c, i))
  }

  lemma LruStep(q: Queue, c: nat, x: ObjId)
    requires 1 <= c && Units(q) && |q| <= c
    ensures var r := LruGet(q, c, 0, Entry(x, 1));
            Units(r) && |r| <= c && Has(r, x) && forall y | Has(r, y) :: Has(q, y) || y == x
  {
    var r := LruGet(q, c, 0, Entry(x, 1));
    if Has(q, x) {
      hide Promote;
      PromoteAt(q, x, 0);
      forall j | 0 <= j < |r|
        ensures r[j].size == 1
      {
        PromoteAt(q, x, j);
      }
      forall y
        ensures Has(r, y) <==> Has(q, y)
      {
        PromoteHas(q, x, y);
      }
    } else {
      var kept := Trim(q, 0, c - 1);
      UnitWeight(kept);
      assert r[0].id == x;
      forall y | Has(r, y)
        ensures Has(q, y) || y == x
      {
        var j := IndexOf(r, y);
        assert j > 0 ==> q[j - 1].id == y;
      }
    }
  }

  lemma LruFits(q: Queue, c: nat, x: ObjId)
    requires 1 <= c && Units(q) && |q| <= c
    ensures Units(LruGet(q, c, 0, Entry(x, 1))) && |LruGet(q, c, 0, Entry(x, 1))| <= c
  {
    LruStep(q, c, x);
  }

  lemma {:induction false} LruBounded(tr: seq<ObjId>, c: nat, i: nat)
    requires i <= |tr| && 1 <= c
    ensures Units(LruStack.LruQueue(tr, c, i)) && |LruStack.LruQueue(tr, c, i)| <= c
  {
    hide LruGet;
    if i > 0 {
      LruBounded(tr, c, i - 1);
      LruFits(LruStack.LruQueue(tr, c, i - 1), c, tr[i - 1]);
    }
  }

  lemma LruIsDemand(tr: seq<ObjId>, c: nat)
    requires 1 <= c
    ensures DemandRun(tr, c, LruHistory(tr, c))
  {
    var run := LruHistory(tr, c);
    assert run[0] == {};
    forall i | 0 <= i < |tr|
      ensures DemandStep(c, run[i], tr[i], run[i + 1])
    {
      LruBounded(tr, c, i);
      LruStep(LruStack.LruQueue(tr, c, i), c, tr[i]);
      IdsSize(LruStack.LruQueue(tr, c, i + 1));
    }
  }

  lemma {:induction false} LruMisses(tr: seq<ObjId>, c: nat, n: nat)
    requires n <= |tr|
    ensures Misses(tr, LruHistory(tr, c), n) == n - LruStack.LruHitCount(tr, c, n)
  {
    hide LruStack.LruQueue, LruGet;
    if n > 0 {
      LruMisses(tr, c, n - 1);
    }
  }

  // ---------- ARC ----------

  ghost function ArcState(tr: seq<ObjId>, c: nat, i: nat): ArcSpec.State
    requires i <= |tr|
  {
    ArcSpec.Run(ArcSpec.Config(c, 0), ArcRefinement.UnitRequests(tr)[..i])
  }

  ghost function ArcHistory(tr: seq<ObjId>, c: nat): (run: seq<set<ObjId>>)
    ensures |run| == |tr| + 1 && forall i | 0 <= i <= |tr| :: run[i] == ArcSpec.Data(ArcState(tr, c, i))
  {
    seq(|tr| + 1, i requires 0 <= i <= |tr| => ArcSpec.Data(ArcState(tr, c, i)))
  }

  lemma ArcIsDemand(tr: seq<ObjId>, c: nat)
    requires 1 <= c
    ensures DemandRun(tr, c, ArcHistory(tr, c))
  {
    var run := ArcHistory(tr, c);
    assert run[0] == {};
    forall i | 0 <= i < |tr|
      ensures DemandStep(c, run[i], tr[i], run[i + 1])
    {
      ArcStep(tr, c, i);
    }
  }

  lemma ArcStep(tr: seq<ObjId>, c: nat, i: nat)
    requires 1 <= c && i < |tr|
    ensures DemandStep(c, ArcSpec.Data(ArcState(tr, c, i)), tr[i], ArcSpec.Data(ArcState(tr, c, i + 1)))
  {
    hide ArcSpec.Get, ArcSpec.Wf, ArcSpec.Lists, ArcSpec.Sized, ArcSpec.Run;
    var conf, es := ArcSpec.Config(c, 0), ArcRefinement.UnitRequests(tr);
    var s, r := ArcState(tr, c, i), ArcState(tr, c, i + 1);
    ArcRefinement.RunMore(conf, es, i);
    ArcSpec.GetKeeps(s, conf, es[i]);
    ArcSpec.RunBounded(c, es[..i + 1]);
    IdsSize(r.t1);
    IdsSize(r.t2);
  }

  /** ARC's misses among the first `n` requests. */
  ghost function ArcMisses(tr: seq<ObjId>, c: nat, n: nat): nat
    requires n <= |tr|
  {
    if n == 0 then 0
    else ArcMisses(tr, c, n - 1) + if ArcSpec.Hit(ArcState(tr, c, n - 1), tr[n - 1]) then 0 else 1
  }

  lemma {:induction false} ArcMissesAre(tr: seq<ObjId>, c: nat, n: nat)
    requires n <= |tr|
    ensures Misses(tr, ArcHistory(tr, c), n) == ArcMisses(tr, c, n)
  {
    if n > 0 {
      ArcMissesAre(tr, c, n - 1);
    }
  }

  // ---------- CR-LFU ----------

  function LfuLog(tr: seq<ObjId>, c: nat, i: nat): CrLfuSpec.Log
    requires i <= |tr|
  {
    if i == 0 then [] else CrLfuSpec.LfuGet(LfuLog(tr, c, i - 1), c, 0, tr[i - 1], 1)
  }

  function LogIds(q: CrLfuSpec.Log): (ids: set<ObjId>)
    ensures forall x :: x in ids <==> CrLfuSpec.Has(q, x)
  {
    ArcSpec.Ids(CrLfuSpec.Entries(q))
  }

  function LfuHistory(tr: seq<ObjId>, c: nat): (run: seq<set<ObjId>>)
    ensures |run| == |tr| + 1 && forall i | 0 <= i <= |tr| :: run[i] == LogIds(LfuLog(tr, c, i))
  {
    seq(|tr| + 1, i requires 0 <= i <= |tr| => LogIds(LfuLog(tr, c, i)))
  }

  function LfuMisses(tr: seq<ObjId>, c: nat, n: nat): nat
    requires n <= |tr|
  {
    if n == 0 then 0
    else LfuMisses(tr, c, n - 1) + if CrLfuSpec.Has(LfuLog(tr, c, n - 1), tr[n - 1]) then 0 else 1
  }

  lemma {:induction false} LfuMissesAre(tr: seq<ObjId>, c: nat, n: nat)
    requires n <= |tr|
    ensures Misses(tr, LfuHistory(tr, c), n) == LfuMisses(tr, c, n)
  {
    hide LfuLog;
    if n > 0 {
      LfuMissesAre(tr, c, n - 1);
    }
  }

  ghost predicate UnitLog(q: CrLfuSpec.Log)
  {
    forall k | 0 <= k < |q| :: q[k].size == 1
  }

  lemma UnitLogWeight(q: CrLfuSpec.Log)
    requires UnitLog(q)
    ensures CrLfuSpec.Weight(q, 0) == |q| && |LogIds(q)| <= |q|
  {
    UnitWeight(CrLfuSpec.Entries(q));
    IdsSize(CrLfuSpec.Entries(q));
  }

  lemma {:induction false} RoomMade(q: CrLfuSpec.Log, room: int)
    requires UnitLog(q)
    ensures UnitLog(CrLfuSpec.MakeRoom(q, 0, room))
    decreases |q|
  {
    if q != [] && CrLfuSpec.Weight(q, 0) > room {
      RoomMade(ObjQueue.RemoveAt(q, CrLfuSpec.Victim(q)), room);
    }
  }

  lemma LfuStep(q: CrLfuSpec.Log, c: nat, x: ObjId)
    requires 1 <= c && UnitLog(q) && CrLfuSpec.Distinct(q) && |q| <= c
    ensures var r := CrLfuSpec.LfuGet(q, c, 0, x, 1);
            && UnitLog(r) && CrLfuSpec.Distinct(r) && |r| <= c && CrLfuSpec.Has(r, x)
            && forall y | CrLfuSpec.Has(r, y) :: CrLfuSpec.Has(q, y) || y == x
  {
    hide CrLfuSpec.Raised, CrLfuSpec.MakeRoom, CrLfuSpec.Has, CrLfuSpec.Distinct, CrLfuSpec.Weight;
    var r := CrLfuSpec.LfuGet(q, c, 0, x, 1);
    UnitLogWeight(q);
    CrLfuSpec.GetKeeps(q, c, 0, x, 1);
    if CrLfuSpec.Has(q, x) {
      RaisedStep(q, x);
    } else {
      InsertedStep(q, c, x);
    }
    UnitLogWeight(r);
  }

  lemma RaisedStep(q: CrLfuSpec.Log, x: ObjId)
    requires UnitLog(q) && CrLfuSpec.Distinct(q) && CrLfuSpec.Has(q, x)
    ensures var r := CrLfuSpec.Raised(q, x); UnitLog(r) && forall y | CrLfuSpec.Has(r, y) :: CrLfuSpec.Has(q, y)
  {
    hide CrLfuSpec.Raised, CrLfuSpec.Has;
    CrLfuSpec.RaisedKeeps(q, x, 0);
    CrLfuSpec.RaisedAt(q, x);
  }

  lemma InsertedStep(q: CrLfuSpec.Log, c: nat, x: ObjId)
    requires UnitLog(q) && CrLfuSpec.Distinct(q)
    ensures var r := CrLfuSpec.MakeRoom(q, 0, c - 1) + [CrLfuSpec.Item(x, 1, 1)];
            UnitLog(r) && forall y | CrLfuSpec.Has(r, y) :: CrLfuSpec.Has(q, y) || y == x
  {
    hide CrLfuSpec.MakeRoom, CrLfuSpec.Has;
    RoomMade(q, c - 1);
    CrLfuSpec.MakeRoomKeeps(q, 0, c - 1);
    var kept, i := CrLfuSpec.MakeRoom(q, 0, c - 1), CrLfuSpec.Item(x, 1, 1);
    forall y | CrLfuSpec.Has(kept + [i], y)
      ensures CrLfuSpec.Has(q, y) || y == x
    {
      CrLfuSpec.AddedHas(kept, i, y);
    }
  }

  lemma {:induction false} LfuBounded(tr: seq<ObjId>, c: nat, i: nat)
    requires i <= |tr| && 1 <= c
    ensures var q := LfuLog(tr, c, i); UnitLog(q) && CrLfuSpec.Distinct(q) && |q| <= c
  {
    if i > 0 {
      LfuBounded(tr, c, i - 1);
      LfuStep(LfuLog(tr, c, i - 1), c, tr[i - 1]);
    }
  }

  lemma LfuIsDemand(tr: seq<ObjId>, c: nat)
    requires 1 <= c
    ensures DemandRun(tr, c, LfuHistory(tr, c))
  {
    hide CrLfuSpec.LfuGet;
    var run := LfuHistory(tr, c);
    assert run[0] == {};
    forall i | 0 <= i < |tr|
      ensures DemandStep(c, run[i], tr[i], run[i + 1])
    {
      LfuBounded(tr, c, i);
      LfuStep(LfuLog(tr, c, i), c, tr[i]);
      UnitLogWeight(LfuLog(tr, c, i + 1));
    }
  }

  /** On every trace and at every size Belady misses no more often than LRU (so also no more often than
      AdaptiveClimb), ARC or CR-LFU. */
  lemma BeladyBoundsAll(tr: seq<ObjId>, c: nat, belady: seq<set<ObjId>>)
    requires 1 <= c && BeladyRun(tr, c, belady)
    ensures Misses(tr, belady, |tr|) <= |tr| - LruStack.LruHitCount(tr, c, |tr|)
    ensures Misses(tr, belady, |tr|) <= ArcMisses(tr, c, |tr|)
    ensures Misses(tr, belady, |tr|) <= LfuMisses(tr, c, |tr|)
  {
    hide DemandRun, BeladyRun;
    LruIsDemand(tr, c);
    LruMisses(tr, c, |tr|);
    BeladyIsOptimal(tr, c, LruHistory(tr, c), belady, |tr|);
    ArcIsDemand(tr, c);
    ArcMissesAre(tr, c, |tr|);
    BeladyIsOptimal(tr, c, ArcHistory(tr, c), belady, |tr|);
    LfuIsDemand(tr, c);
    LfuMissesAre(tr, c, |tr|);
    BeladyIsOptimal(tr, c, LfuHistory(tr, c), belady, |tr|);
  }
}
