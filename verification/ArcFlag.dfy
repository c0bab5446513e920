/** The flag that ARC.c keeps of the last hit in B2, which its tie rule reads. */
module ArcFlag {
  import opened NextUse
  import opened Lru
  import opened ArcSpec

  predicate Found(s: State, x: ObjId)
  {
    Has(s.t1, x) || Has(s.b1, x) || Has(s.t2, x) || Has(s.b2, x)
  }

  /** The flag is up, but the current request did not hit a ghost. */
  predicate Stale(s: State)
  {
    s.inB2 && !GhostHit(s)
  }

  // ---------- one request ----------

  lemma {:induction false} MakeRoomFlags(s: State, c: Config, need: nat)
    requires Sized(s) && need <= c.size
    ensures var r := MakeRoom(s, c, need);
            r.inB1 == s.inB1 && r.inB2 == s.inB2 && r.ghostTime == s.ghostTime && r.now == s.now
    decreases |s.t1| + |s.t2|
  {
    hide Evict, Victim, Sized;
    if Weight(s.t1, c.md) + Weight(s.t2, c.md) + need > c.size {
      EvictForms(s, c, need);
      EvictSized(s, c, need);
      MakeRoomFlags(Evict(s, c, need), c, need);
    }
  }

  /** What one request leaves of the flags: a ghost hit leaves its flag up if and only if the object is too large
      to insert, any other object found takes both down, and a miss in all lists leaves them alone. */
  lemma FlagsAfter(s: State, c: Config, e: Entry)
    requires Wf(s, c) && 1 <= e.size && 0 <= s.now
    ensures Sized(s)
    ensures var r := Get(s, c, e);
            && r.inB2 == (if Has(s.b2, e.id) then e.size + c.md > c.size else !Found(s, e.id) && s.inB2)
            && r.inB1 == (if Has(s.b1, e.id) then e.size + c.md > c.size else !Found(s, e.id) && s.inB1)
  {
    hide MakeRoom, Weight, Without, Promote, Delta, Has, Distinct;
    ListsSized(s);
    DataHas(s, e.id);
    Elsewhere(s, e.id);
    var s0 := s.(now := s.now + 1);
    FindSized(s0, c, e.id);
    if e.size + c.md <= c.size {
      MakeRoomFlags(Find(s0, c, e.id), c, e.size + c.md);
    }
  }

  /** An object is in one list only. */
  lemma Elsewhere(s: State, x: ObjId)
    requires Lists(s)
    ensures Has(s.b1, x) ==> !Has(s.t1, x) && !Has(s.t2, x) && !Has(s.b2, x)
    ensures Has(s.b2, x) ==> !Has(s.t1, x) && !Has(s.t2, x)
  {
    hide Has, Distinct;
    assert x in Ids(s.b1) <==> Has(s.b1, x);
    assert x in Ids(s.b2) <==> Has(s.b2, x);
    assert x in Ids(s.t1) <==> Has(s.t1, x);
    assert x in Ids(s.t2) <==> Has(s.t2, x);
  }

  /** The evictions of a request read a stale flag exactly if it is still up from an earlier request and this one
      finds nothing. Otherwise the flag says that this request hit B2. */
  lemma ReadsStale(s: State, c: Config, x: ObjId)
    requires Wf(s, c) && 0 <= s.now
    ensures Sized(s)
    ensures var r := Find(s.(now := s.now + 1), c, x);
            && (Stale(r) <==> s.inB2 && !Found(s, x))
            && (r.inB2 && !Stale(r) <==> Has(s.b2, x))
  {
    hide Weight, Without, Promote, Delta, Has, Distinct;
    ListsSized(s);
    Elsewhere(s, x);
  }

  /** What a stale flag changes: the next victim, exactly at a tie of T1 with its target when both data lists have
      objects, unless T1 is forgotten without a ghost. */
  lemma StaleMatters(s: State, c: Config, need: nat)
    requires Evictable(s, c) && Lists(s) && need <= c.size && Stale(s)
    ensures Evictable(s.(inB2 := false), c)
    ensures Victim(s, c, need) != Victim(s.(inB2 := false), c, need) <==>
              && 0 < Weight(s.t1, c.md) && Weight(s.t1, c.md) as real == s.p && 0 < Weight(s.t2, c.md)
              && !(Weight(s.t1, c.md) + Weight(s.b1, c.md) + need > c.size && Weight(s.b1, c.md) == 0)
  {
    WeightAtLeast(s.t1, c.md);
    WeightAtLeast(s.t2, c.md);
    hide Weight, Distinct;
    if s.t1 != [] && s.t2 != [] {
      assert Last(s.t1).id in Ids(s.t1) && Last(s.t2).id in Ids(s.t2);
    }
  }

  // ---------- whole runs ----------

  /** Request `i` hit B2 with an object too large to insert, and no request since then found anything. */
  ghost predicate StaleSince(c: Config, es: seq<Entry>, i: int)
    requires Requests(es)
  {
    && 0 <= i < |es|
    && Has(Run(c, es[..i]).b2, es[i].id) && es[i].size + c.md > c.size
    && forall j | i < j < |es| :: !Found(Run(c, es[..j]), es[j].id)
  }

  lemma StaleStep(c: Config, es: seq<Entry>, i: int)
    requires Requests(es) && es != []
    ensures var n := |es| - 1;
            StaleSince(c, es, i) <==>
              (if i == n then Has(Run(c, es[..n]).b2, es[n].id) && es[n].size + c.md > c.size
               else StaleSince(c, es[..n], i) && !Found(Run(c, es[..n]), es[n].id))
  {
    hide Run, Found, Has;
    var n := |es| - 1;
    assert forall j | 0 <= j <= n :: es[..n][..j] == es[..j];
    if i < n && StaleSince(c, es, i) {
      assert !Found(Run(c, es[..n]), es[n].id);
    }
  }

  /** After any run the flag is up if and only if it is stale. */
  lemma {:induction false} FlagIff(c: Config, es: seq<Entry>)
    requires Requests(es)
    ensures Run(c, es).inB2 <==> exists i :: StaleSince(c, es, i)
  {
    hide Get, Wf, Found, Has, StaleSince;
    if es == [] {
      NeverStale(c);
    } else {
      var n := |es| - 1;
      var before := Run(c, es[..n]);
      FlagIff(c, es[..n]);
      FlagsAfter(before, c, es[n]);
      assert Run(c, es) == Get(before, c, es[n]);
      FoundIn(before, es[n].id);
      forall i
        ensures StaleSince(c, es, i) <==>
                  (if i == n then Has(before.b2, es[n].id) && es[n].size + c.md > c.size
                   else StaleSince(c, es[..n], i) && !Found(before, es[n].id))
      {
        StaleStep(c, es, i);
      }
      StaleRange(c, es[..n]);
      if i :| StaleSince(c, es[..n], i) && !Found(before, es[n].id) {
        assert StaleSince(c, es, i);
      }
      assert StaleSince(c, es, n) || !Has(before.b2, es[n].id) || es[n].size + c.md <= c.size;
    }
  }

  lemma NeverStale(c: Config)
    ensures forall i :: !StaleSince(c, [], i)
  {
  }

  lemma StaleRange(c: Config, es: seq<Entry>)
    requires Requests(es)
    ensures forall i | StaleSince(c, es, i) :: 0 <= i < |es|
  {
  }

  lemma FoundIn(s: State, x: ObjId)
    ensures Has(s.b2, x) ==> Found(s, x)
  {
  }

  /** If every object requested fits into the cache, both flags are down after every request. */
  lemma {:induction false} FittingIsClean(c: Config, es: seq<Entry>)
    requires Requests(es) && forall i | 0 <= i < |es| :: es[i].size + c.md <= c.size
    ensures !Run(c, es).inB1 && !Run(c, es).inB2
  {
    hide Get, Wf, Found, Has;
    if es != [] {
      FittingIsClean(c, Front(es));
      FlagsAfter(Run(c, Front(es)), c, Last(es));
    }
  }

  // ---------- objects of constant size ----------

  /** Everything in the list was requested with this size, and fits. */
  ghost predicate Known(q: Queue, es: seq<Entry>, c: Config)
  {
    forall k | 0 <= k < |q| :: q[k] in es && q[k].size + c.md <= c.size
  }

  ghost predicate AllKnown(s: State, es: seq<Entry>, c: Config)
  {
    Known(s.t1, es, c) && Known(s.b1, es, c) && Known(s.t2, es, c) && Known(s.b2, es, c)
  }

  lemma KnownWithout(q: Queue, x: ObjId, es: seq<Entry>, c: Config)
    requires Known(q, es, c) && Has(q, x)
    ensures Known(Without(q, x), es, c) && Known([Lookup(q, x)] + q, es, c) && Known(Promote(q, x), es, c)
  {
    hide Without;
    WithoutAt(q, x, 0);
    forall j | 0 <= j < |Without(q, x)|
      ensures Without(q, x)[j] in q
    {
      WithoutAt(q, x, j);
    }
    assert forall e | e in q :: e in es && e.size + c.md <= c.size;
  }

  lemma FindKnown(s: State, c: Config, x: ObjId, es: seq<Entry>)
    requires AllKnown(s, es, c) && Sized(s)
    ensures AllKnown(Find(s, c, x), es, c)
  {
    hide Without, Promote, Delta, Has, Weight;
    if Has(s.b1, x) {
      KnownWithout(s.b1, x, es, c);
    } else if Has(s.b2, x) {
      KnownWithout(s.b2, x, es, c);
    } else if Has(s.t1, x) {
      KnownWithout(s.t1, x, es, c);
      assert Lookup(s.t1, x) in s.t1;
    } else if Has(s.t2, x) {
      KnownWithout(s.t2, x, es, c);
    }
  }

  lemma EvictKnown(s: State, c: Config, need: nat, es: seq<Entry>)
    requires AllKnown(s, es, c) && Evictable(s, c) && need <= c.size
    ensures AllKnown(Evict(s, c, need), es, c)
  {
    EvictForms(s, c, need);
    hide Evict, Victim, Evictable, Known, Front, Last;
    KnownMove(s.t1, s.b1, es, c);
    KnownMove(s.t2, s.b2, es, c);
  }

  lemma KnownMove(q: Queue, ghosts: Queue, es: seq<Entry>, c: Config)
    requires Known(q, es, c) && Known(ghosts, es, c)
    ensures q != [] ==> Known(Front(q), es, c) && Known([Last(q)] + ghosts, es, c)
    ensures ghosts != [] ==> Known(Front(ghosts), es, c)
    ensures q != [] && ghosts != [] ==> Known([Last(q)] + Front(ghosts), es, c)
  {
  }

  lemma {:induction false} MakeRoomKnown(s: State, c: Config, need: nat, es: seq<Entry>)
    requires AllKnown(s, es, c) && Sized(s) && need <= c.size
    ensures AllKnown(MakeRoom(s, c, need), es, c)
    decreases |s.t1| + |s.t2|
  {
    hide Evict, Sized, AllKnown;
    if Weight(s.t1, c.md) + Weight(s.t2, c.md) + need > c.size {
      EvictKnown(s, c, need, es);
      EvictSized(s, c, need);
      MakeRoomKnown(Evict(s, c, need), c, need, es);
    }
  }

  lemma GetKnown(s: State, c: Config, e: Entry, es: seq<Entry>)
    requires AllKnown(s, es, c) && Sized(s) && e in es && 1 <= e.size
    ensures AllKnown(Get(s, c, e), es, c)
  {
    hide MakeRoom, Find, Weight;
    var s0 := s.(now := s.now + 1);
    FindKnown(s0, c, e.id, es);
    FindSized(s0, c, e.id);
    if e.size + c.md <= c.size {
      MakeRoomKnown(Find(s0, c, e.id), c, e.size + c.md, es);
    }
  }

  /** Whatever is in a list was requested, with the size it has there, and fits. */
  lemma {:induction false} RunKnown(c: Config, es: seq<Entry>, all: seq<Entry>)
    requires Requests(es) && forall e | e in es :: e in all
    ensures AllKnown(Run(c, es), all, c)
  {
    hide Get, Wf, Known;
    if es == [] {
      NothingKnown(all, c);
    } else {
      RunKnown(c, Front(es), all);
      RunSized(c, Front(es));
      GetKnown(Run(c, Front(es)), c, Last(es), all);
    }
  }

  lemma NothingKnown(all: seq<Entry>, c: Config)
    ensures AllKnown(Init(), all, c)
  {
  }

  lemma RunSized(c: Config, es: seq<Entry>)
    requires Requests(es)
    ensures Sized(Run(c, es))
  {
    ListsSized(Run(c, es));
  }

  ghost predicate ConstantSizes(es: seq<Entry>)
  {
    forall i, j | 0 <= i < |es| && 0 <= j < |es| && es[i].id == es[j].id :: es[i].size == es[j].size
  }

  /** If no object changes its size, both flags are down after every request. */
  lemma {:induction false} ConstantIsClean(c: Config, es: seq<Entry>)
    requires Requests(es) && ConstantSizes(es)
    ensures !Run(c, es).inB1 && !Run(c, es).inB2
  {
    hide Get, Wf, AllKnown;
    if es != [] {
      var s, e := Run(c, Front(es)), Last(es);
      ConstantIsClean(c, Front(es));
      RunKnown(c, Front(es), es);
      KnownFits(s, c, es, e);
      FlagsAfter(s, c, e);
    }
  }

  lemma KnownFits(s: State, c: Config, es: seq<Entry>, e: Entry)
    requires AllKnown(s, es, c) && ConstantSizes(es) && e in es
    ensures Has(s.b1, e.id) || Has(s.b2, e.id) ==> e.size + c.md <= c.size
  {
    if Has(s.b1, e.id) {
      var known := s.b1[IndexOf(s.b1, e.id)];
      assert known in es && known.size == e.size;
    } else if Has(s.b2, e.id) {
      var known := s.b2[IndexOf(s.b2, e.id)];
      assert known in es && known.size == e.size;
    }
  }

  // ---------- a run in which the tie goes wrong ----------

  /** Lists of one object, computed. */
  lemma One(e: Entry)
    ensures Weight([], 0) == 0 && Weight([e], 0) == e.size
    ensures forall x :: (Has([e], x) <==> x == e.id) && !Has([], x)
    ensures Without([e], e.id) == [] && Lookup([e], e.id) == e && Promote([e], e.id) == [e]
    ensures Front([e]) == [] && Last([e]) == e && [e] + [] == [e]
  {
    assert Weight([e], 0) == Weight([e][..0], 0) + e.size;
    assert [e][0].id == e.id;
    assert IndexOf([e], e.id) == 0;
  }

  const SMALL: Config := Config(2, 0)

  /** A cache of size 2 without metadata between requests. */
  function At(t1: Queue, b1: Queue, t2: Queue, b2: Queue, p: real, now: int): State
  {
    State(t1, b1, t2, b2, p, false, false, -1, now)
  }

  const A: Entry := Entry(1, 2)
  const B: Entry := Entry(2, 1)
  const C: Entry := Entry(3, 1)

  lemma Step1()
    ensures Sized(At([], [], [], [], 0.0, 0))
    ensures Get(At([], [], [], [], 0.0, 0), SMALL, A) == At([A], [], [], [], 0.0, 1)
  {
    One(A);
    One(B);
    One(C);
    hide Weight, Has, Without, Lookup, Promote, Front, Last, IndexOf;
  }

  lemma Step2()
    ensures Sized(At([A], [], [], [], 0.0, 1))
    ensures Get(At([A], [], [], [], 0.0, 1), SMALL, Entry(1, 1)) == At([], [], [A], [], 0.0, 2)
  {
    One(A);
    One(B);
    One(C);
    hide Weight, Has, Without, Lookup, Promote, Front, Last, IndexOf;
  }

  lemma Step3()
    ensures Sized(At([], [], [A], [], 0.0, 2))
    ensures Get(At([], [], [A], [], 0.0, 2), SMALL, B) == At([B], [], [], [A], 0.0, 3)
  {
    One(A);
    One(B);
    One(C);
    hide Weight, Has, Without, Lookup, Promote, Front, Last, IndexOf;
    var s := At([], [], [A], [], 0.0, 3);
    assert Find(s, SMALL, 2) == s;
    assert Evict(s, SMALL, 1) == At([], [], [], [A], 0.0, 3);
    assert MakeRoom(s, SMALL, 1) == At([], [], [], [A], 0.0, 3);
  }

  lemma Step4()
    ensures Sized(At([B], [], [], [A], 0.0, 3))
    ensures Get(At([B], [], [], [A], 0.0, 3), SMALL, A) == At([], [B], [A], [], 0.0, 4)
  {
    One(A);
    One(B);
    One(C);
    hide Weight, Has, Without, Lookup, Promote, Front, Last, IndexOf;
    var s := At([B], [], [], [], 0.0, 4).(inB2 := true, ghostTime := 4);
    assert Find(At([B], [], [], [A], 0.0, 4), SMALL, 1) == s;
    assert Evict(s, SMALL, 2) == s.(t1 := [], b1 := [B]);
    assert MakeRoom(s, SMALL, 2) == s.(t1 := [], b1 := [B]);
  }

  lemma Step5()
    ensures Sized(At([], [B], [A], [], 0.0, 4))
    ensures Get(At([], [B], [A], [], 0.0, 4), SMALL, C) == At([C], [B], [], [A], 0.0, 5)
  {
    One(A);
    One(B);
    One(C);
    hide Weight, Has, Without, Lookup, Promote, Front, Last, IndexOf;
    var s := At([], [B], [A], [], 0.0, 5);
    assert Find(s, SMALL, 3) == s;
    assert Evict(s, SMALL, 1) == At([], [B], [], [A], 0.0, 5);
    assert MakeRoom(s, SMALL, 1) == At([], [B], [], [A], 0.0, 5);
  }

  lemma Step6()
    ensures Sized(At([C], [B], [], [A], 0.0, 5))
    ensures Get(At([C], [B], [], [A], 0.0, 5), SMALL, B) == At([C], [], [B], [A], 2.0, 6)
  {
    One(A);
    One(B);
    One(C);
    hide Weight, Has, Without, Lookup, Promote, Front, Last, IndexOf;
  }

  const STALE: State := State([C], [], [B], [], 1.0, false, true, 7, 7)

  /** Object 1 sits in B2, but is now too large to insert: the flag stays up. */
  lemma Step7()
    ensures Sized(At([C], [], [B], [A], 2.0, 6)) && Get(At([C], [], [B], [A], 2.0, 6), SMALL, Entry(1, 3)) == STALE
  {
    One(A);
    One(B);
    One(C);
    hide Weight, Has, Without, Lookup, Promote, Front, Last, IndexOf;
  }

  lemma Step8()
    ensures Sized(STALE) && Data(Get(STALE, SMALL, Entry(1, 1))) == {1, 2}
  {
    One(B);
    One(C);
    One(Entry(1, 1));
    hide Weight, Has, Without, Lookup, Promote, Front, Last, IndexOf;
    var s := STALE.(now := 8);
    assert Find(s, SMALL, 1) == s;
    assert Evict(s, SMALL, 1) == s.(t1 := [], b1 := [C]);
    assert MakeRoom(s, SMALL, 1) == s.(t1 := [], b1 := [C]);
    var r := s.(t1 := [Entry(1, 1)], b1 := [C]);
    assert Get(STALE, SMALL, Entry(1, 1)) == r;
    hide Get, MakeRoom, Evict, Find;
    assert Ids(r.t1) == {1} && Ids(r.t2) == {2};
  }

  lemma WrongVictim()
    ensures var s := STALE.(now := 8);
            && Evictable(s, SMALL) && Stale(s) && !Found(s, 1) && Find(s, SMALL, 1) == s
            && Victim(s, SMALL, 1) == C && Victim(s.(inB2 := false), SMALL, 1) == B
  {
    One(B);
    One(C);
    hide Weight, Has, Without, Lookup, Promote, Front, Last, IndexOf;
  }

  lemma RunNext(c: Config, es: seq<Entry>, e: Entry)
    requires Requests(es) && 1 <= e.size
    ensures Sized(Run(c, es)) && Run(c, es + [e]) == Get(Run(c, es), c, e)
  {
    hide Get, Wf;
    RunSized(c, es);
    assert Front(es + [e]) == es && Last(es + [e]) == e;
  }

  const TRACE: seq<Entry> := [A, Entry(1, 1), B, A, C, B, Entry(1, 3), Entry(1, 1)]

  lemma RunTo(i: nat)
    requires i < 8
    ensures Requests(TRACE[..i]) && Requests(TRACE[..i + 1]) && 1 <= TRACE[i].size
    ensures Sized(Run(SMALL, TRACE[..i]))
    ensures Run(SMALL, TRACE[..i + 1]) == Get(Run(SMALL, TRACE[..i]), SMALL, TRACE[i])
  {
    hide Get, Wf, Run;
    RunNext(SMALL, TRACE[..i], TRACE[i]);
    assert TRACE[..i + 1] == TRACE[..i] + [TRACE[i]];
  }

  lemma SevenRequests()
    ensures Requests(TRACE[..7]) && Run(SMALL, TRACE[..7]) == STALE
  {
    hide Get, Run, Sized, Requests, At, Init;
    Empty(SMALL);
    assert TRACE[..0] == [];
    RunTo(0);
    Step1();
    RunTo(1);
    Step2();
    RunTo(2);
    Step3();
    RunTo(3);
    Step4();
    RunTo(4);
    Step5();
    RunTo(5);
    Step6();
    RunTo(6);
    Step7();
  }

  /** Eight requests to a cache of size 2. The last one finds nothing, and at the tie it evicts object 3 from T1,
      because the flag is still up from the request before; with the flag down it would evict object 2 from T2. */
  lemma StaleTie()
    ensures Requests(TRACE[..7]) && Requests(TRACE[..8]) && Run(SMALL, TRACE[..7]) == STALE
    ensures var s := Find(STALE.(now := 8), SMALL, TRACE[7].id);
            && Evictable(s, SMALL) && Stale(s) && Victim(s, SMALL, 1) == C && Victim(s.(inB2 := false), SMALL, 1) == B
    ensures Data(Run(SMALL, TRACE[..8])) == {1, 2}
  {
    hide Get, Run, Sized, Evictable, Stale, Victim, Data, Find, Requests;
    SevenRequests();
    RunTo(7);
    Step8();
    WrongVictim();
  }

  lemma Empty(c: Config)
    ensures Run(c, []) == Init() == At([], [], [], [], 0.0, 0)
  {
  }
}
