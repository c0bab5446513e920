/** From a raw trace to Belady's misses: oracle conversion, reader, simulation loop. The number that
    comes out is the least any demand policy can have. */
module BeladySimulation {
  import opened NextUse
  import opened Sets
  import opened BeladyOptimal
  import Oracle
  import opened Belady

  /** oracleGeneralBin_read_one_req turns "never again" into the largest time. */
  function ReadRecord(rec: Oracle.OracleRecord): Request
  {
    Request(rec.objId, rec.size, if rec.nextAccess == -1 then Oracle.INT64_MAX else rec.nextAccess)
  }

  /** Virtual time of position `n`; the end of the trace stands for "never again". */
  function Vtime(tr: seq<ObjId>, n: nat): int
  {
    if n < |tr| then n + 1 else Oracle.INT64_MAX
  }

  /** Unit-size requests that carry correct next-access times. */
  ghost predicate OracleTrace(tr: seq<ObjId>, reqs: seq<Request>)
  {
    && |reqs| == |tr| < Oracle.INT64_MAX
    && forall i | 0 <= i < |tr| :: reqs[i] == Request(tr[i], 1, Vtime(tr, Next(tr, i + 1, tr[i])))
  }

  /** Every cached object has unit size and its true next access. */
  ghost predicate Synced(tr: seq<ObjId>, i: nat, m: Contents)
    requires i <= |tr|
  {
    forall x | x in m :: m[x] == Item(1, Vtime(tr, Next(tr, i, x)))
  }

  lemma {:induction false} UnitBytes(m: Contents)
    requires forall x | x in m :: m[x].size == 1
    ensures Bytes(m, 0) == |m|
    decreases |m|
  {
    if m != map[] {
      var x :| x in m && Bytes(m, 0) == m[x].size + Bytes(m - {x}, 0);
      assert (m - {x}).Keys == m.Keys - {x};
      UnitBytes(m - {x});
    }
  }

  lemma SyncedAfter(tr: seq<ObjId>, i: nat, before: Contents, kept: Contents, after: Contents)
    requires i < |tr| && Synced(tr, i, before) && FarthestGone(before, kept)
    requires after == kept[tr[i] := Item(1, Vtime(tr, Next(tr, i + 1, tr[i])))]
    ensures Synced(tr, i + 1, after)
  {
    forall x | x in after
      ensures after[x] == Item(1, Vtime(tr, Next(tr, i + 1, x)))
    {
      assert x != tr[i] ==> Next(tr, i, x) == Next(tr, i + 1, x);
    }
  }

  lemma VictimIsFarthest(tr: seq<ObjId>, i: nat, before: Contents, kept: Contents, v: ObjId)
    requires i <= |tr| < Oracle.INT64_MAX && Synced(tr, i, before) && FarthestGone(before, kept)
    requires v in before && kept.Keys == before.Keys - {v}
    ensures Farthest(tr, i, before.Keys, v)
  {
    forall x | x in before
      ensures Next(tr, i, x) <= Next(tr, i, v)
    {
      assert x != v ==> x in kept;
    }
  }

  /** With unit sizes a miss evicts nothing or exactly one farthest object. */
  lemma UnitMiss(tr: seq<ObjId>, i: nat, c: nat, before: Contents, kept: Contents)
    requires i < |tr| < Oracle.INT64_MAX && 1 <= c
    requires Synced(tr, i, before) && |before| <= c && tr[i] !in before
    requires FarthestGone(before, kept) && OnlyAsNeeded(before, kept, 0, c - 1) && |kept| < c
    ensures BeladyStep(tr, i, c, before.Keys, kept.Keys + {tr[i]})
  {
    if kept.Keys != before.Keys {
      var v := Victim(tr, i, c, before, kept);
      VictimIsFarthest(tr, i, before, kept, v);
    }
  }

  lemma Victim(tr: seq<ObjId>, i: nat, c: nat, before: Contents, kept: Contents) returns (v: ObjId)
    requires i <= |tr| && Synced(tr, i, before) && |before| <= c && kept.Keys != before.Keys
    requires FarthestGone(before, kept) && OnlyAsNeeded(before, kept, 0, c - 1)
    ensures v in before && kept.Keys == before.Keys - {v} && |before| == c
  {
    v :| v in before && v !in kept && c - 1 < Bytes(kept, 0) + before[v].size;
    assert Synced(tr, i, kept);
    UnitSizes(tr, i, kept);
    OneGone(kept.Keys, before.Keys, v);
    assert |before.Keys - {v}| == |before.Keys| - 1;
  }

  lemma MissKeeps(c: nat, before: Contents, req: Request, after: Contents) returns (kept: Contents)
    requires GetSpec(c, 0, before, req, false, after) && req.size <= c && req.nextAccess != -1
    ensures FarthestGone(before, kept) && OnlyAsNeeded(before, kept, 0, c - req.size)
    ensures after == kept[req.objId := Item(req.size, req.nextAccess)] && req.objId !in before
  {
    kept :|
      && FarthestGone(before, kept)
      && OnlyAsNeeded(before, kept, 0, c - req.size - 0)
      && after == kept[req.objId := Item(req.size, req.nextAccess)];
  }

  lemma MissIsBeladyStep(tr: seq<ObjId>, i: nat, c: nat, before: Contents, kept: Contents, after: Contents)
    requires i < |tr| < Oracle.INT64_MAX && 1 <= c && tr[i] !in before
    requires Synced(tr, i, before) && Bytes(before, 0) <= c && Bytes(after, 0) <= c
    requires FarthestGone(before, kept) && OnlyAsNeeded(before, kept, 0, c - 1)
    requires after == kept[tr[i] := Item(1, Vtime(tr, Next(tr, i + 1, tr[i])))]
    ensures Synced(tr, i + 1, after)
    ensures BeladyStep(tr, i, c, before.Keys, after.Keys)
  {
    hide OnlyAsNeeded, BeladyStep, Bytes, Synced, FarthestGone;
    Kept(before, kept, tr[i], after[tr[i]]);
    UnitSizes(tr, i, before);
    SyncedAfter(tr, i, before, kept, after);
    UnitSizes(tr, i + 1, after);
    UnitMiss(tr, i, c, before, kept);
  }

  lemma Kept(before: Contents, kept: Contents, x: ObjId, item: Item)
    requires FarthestGone(before, kept) && x !in before
    ensures |kept[x := item]| == |kept| + 1 && kept[x := item].Keys == kept.Keys + {x}
  {
  }

  /** One `get` on a unit-size oracle trace is one step of Belady's rule. */
  lemma GetIsBeladyStep(tr: seq<ObjId>, i: nat, c: nat, before: Contents, req: Request, hit: bool, after: Contents)
    requires i < |tr| < Oracle.INT64_MAX && 1 <= c
    requires req == Request(tr[i], 1, Vtime(tr, Next(tr, i + 1, tr[i])))
    requires Synced(tr, i, before) && Bytes(before, 0) <= c && Bytes(after, 0) <= c
    requires GetSpec(c, 0, before, req, hit, after)
    ensures Synced(tr, i + 1, after) && hit == (tr[i] in before)
    ensures BeladyStep(tr, i, c, before.Keys, after.Keys)
  {
    if hit {
      HitKeeps(tr, i, c, before, req, after);
    } else {
      hide Synced, BeladyStep, Bytes;
      var kept := MissKeeps(c, before, req, after);
      MissIsBeladyStep(tr, i, c, before, kept, after);
    }
  }

  lemma HitKeeps(tr: seq<ObjId>, i: nat, c: nat, before: Contents, req: Request, after: Contents)
    requires i < |tr| && Synced(tr, i, before) && GetSpec(c, 0, before, req, true, after)
    requires req == Request(tr[i], 1, Vtime(tr, Next(tr, i + 1, tr[i])))
    ensures Synced(tr, i + 1, after) && BeladyStep(tr, i, c, before.Keys, after.Keys)
  {
    assert FarthestGone(before, before);
    SyncedAfter(tr, i, before, before, after);
    assert after.Keys == before.Keys;
  }

  lemma UnitSizes(tr: seq<ObjId>, i: nat, m: Contents)
    requires i <= |tr| && Synced(tr, i, m)
    ensures Bytes(m, 0) == |m|
  {
    UnitBytes(m);
  }

  /** The first `n` steps of a run, with its misses so far. */
  ghost predicate RunsTo(tr: seq<ObjId>, c: nat, run: seq<set<ObjId>>, n: nat, nMiss: nat)
  {
    && |run| == n + 1 <= |tr| + 1
    && run[0] == {}
    && (forall i | 0 <= i < n :: BeladyStep(tr, i, c, run[i], run[i + 1]))
    && nMiss == Misses(tr, run, n)
  }

  lemma RunStep(tr: seq<ObjId>, c: nat, run: seq<set<ObjId>>, n: nat, nMiss: nat, after: set<ObjId>)
    requires RunsTo(tr, c, run, n, nMiss) && n < |tr| && BeladyStep(tr, n, c, run[n], after)
    ensures RunsTo(tr, c, run + [after], n + 1, nMiss + if tr[n] in run[n] then 0 else 1)
  {
    MissesPrefix(tr, run, run + [after], n);
  }

  lemma RunStart(tr: seq<ObjId>, c: nat)
    ensures RunsTo(tr, c, [{}], 0, 0) && Synced(tr, 0, map[]) && Bytes(map[], 0) == 0
  {
  }

  lemma OracleLength(tr: seq<ObjId>, reqs: seq<Request>)
    requires OracleTrace(tr, reqs)
    ensures |reqs| == |tr| < Oracle.INT64_MAX
  {
  }

  lemma OracleAt(tr: seq<ObjId>, reqs: seq<Request>, i: nat)
    requires OracleTrace(tr, reqs) && i < |tr|
    ensures |reqs| == |tr| && reqs[i] == Request(tr[i], 1, Vtime(tr, Next(tr, i + 1, tr[i])))
    ensures reqs[i].nextAccess != -1
  {
  }

  /** The counting loop of the simulator (profiler/simulator.c). */
  method Simulate(ghost tr: seq<ObjId>, reqs: seq<Request>, cacheSize: nat)
    returns (nMiss: nat, ghost run: seq<set<ObjId>>)
    requires 1 <= cacheSize && OracleTrace(tr, reqs)
    ensures RunsTo(tr, cacheSize, run, |tr|, nMiss)
  {
    hide BeladyCache.Valid, GetSpec, BeladyStep, Synced, RunsTo, Bytes, OracleTrace, Vtime, Next;
    OracleLength(tr, reqs);
    var cache := new BeladyCache(cacheSize, 0);
    nMiss := 0;
    run := [{}];
    RunStart(tr, cacheSize);
    for i := 0 to |reqs|
      invariant cache.Valid() && fresh(cache.pq) && fresh(cache.pq.d) && fresh(cache.pq.nodes)
      invariant |run| == i + 1 && run[i] == cache.table.Keys && RunsTo(tr, cacheSize, run, i, nMiss)
      invariant Synced(tr, i, cache.table) && Bytes(cache.table, 0) <= cacheSize
    {
      ghost var before := cache.table;
      OracleAt(tr, reqs, i);
      var hit, aborted := cache.Get(reqs[i]);
      assert !aborted;
      GetIsBeladyStep(tr, i, cacheSize, before, reqs[i], hit, cache.table);
      RunStep(tr, cacheSize, run, i, nMiss, cache.table.Keys);
      run := run + [cache.table.Keys];
      if !hit {
        nMiss := nMiss + 1;
      }
    }
  }

  lemma {:induction false} MissesPrefix(tr: seq<ObjId>, run: seq<set<ObjId>>, run': seq<set<ObjId>>, n: nat)
    requires n <= |tr| && n <= |run| && run <= run'
    ensures Misses(tr, run, n) == Misses(tr, run', n)
  {
    if n > 0 {
      MissesPrefix(tr, run, run', n - 1);
    }
  }

  lemma ReadBack(tr: seq<Oracle.Record>, i: nat)
    requires i < |tr| && tr[i].size == 1
    ensures var ids := Oracle.Ids(tr);
            ReadRecord(Oracle.Annotated(tr, i, false)) == Request(ids[i], 1, Vtime(ids, Next(ids, i + 1, ids[i])))
  {
  }

  method ReadAll(ghost tr: seq<Oracle.Record>, recs: seq<Oracle.OracleRecord>) returns (reqs: seq<Request>)
    requires |recs| == |tr| < Oracle.INT64_MAX
    requires forall i | 0 <= i < |tr| :: tr[i].size == 1 && recs[i] == Oracle.Annotated(tr, i, false)
    ensures OracleTrace(Oracle.Ids(tr), reqs)
  {
    hide Vtime, Oracle.Annotated, ReadRecord;
    reqs := [];
    ghost var ids := Oracle.Ids(tr);
    for i := 0 to |recs|
      invariant |reqs| == i
      invariant forall k | 0 <= k < i :: reqs[k] == Request(ids[k], 1, Vtime(ids, Next(ids, k + 1, ids[k])))
    {
      ReadBack(tr, i);
      reqs := reqs + [ReadRecord(recs[i])];
    }
  }

  /** Convert, read back, simulate: the miss count is attained by a demand policy and no demand
      policy of the same capacity has fewer misses. */
  method LeastMisses(tr: seq<Oracle.Record>, cacheSize: nat) returns (nMiss: nat)
    requires 0 < |tr| < Oracle.INT64_MAX && 1 <= cacheSize
    requires forall i | 0 <= i < |tr| :: tr[i].size == 1
    ensures forall rival | DemandRun(Oracle.Ids(tr), cacheSize, rival) ::
              nMiss <= Misses(Oracle.Ids(tr), rival, |tr|)
    ensures exists run | DemandRun(Oracle.Ids(tr), cacheSize, run) ::
              nMiss == Misses(Oracle.Ids(tr), run, |tr|)
  {
    var recs := Oracle.Convert(tr, false);
    var reqs := ReadAll(tr, recs);
    ghost var ids := Oracle.Ids(tr);
    ghost var run;
    nMiss, run := Simulate(ids, reqs, cacheSize);
    BeladyIsDemand(ids, cacheSize, run);
    forall rival | DemandRun(ids, cacheSize, rival)
      ensures nMiss <= Misses(ids, rival, |tr|)
    {
      BeladyIsOptimal(ids, cacheSize, rival, run, |tr|);
    }
  }
}
