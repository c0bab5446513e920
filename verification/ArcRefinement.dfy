/** ARC.c and ARCv0.c side by side. */
module ArcRefinement {
  import opened NextUse
  import opened Lru
  import opened ArcSpec
  import opened Arc
  import opened ArcV0

  function UnitRequests(tr: seq<ObjId>): (es: seq<Entry>)
    ensures |es| == |tr| && Units(es) && Requests(es)
    ensures forall i | 0 <= i < |tr| :: es[i] == Entry(tr[i], 1)
  {
    seq(|tr|, i requires 0 <= i < |tr| => Entry(tr[i], 1))
  }

  /** ARC.c is its specification on every run, for objects of any size. */
  method RunArc(es: seq<Entry>, conf: Config) returns (hits: seq<bool>, arc: ArcCache)
    requires Requests(es)
    ensures hits == Hits(conf, es) && arc.Abs() == Run(conf, es)
  {
    hide ArcCache.Valid, Hits, Run, ArcSpec.Get, Sized, Wf;
    arc := new ArcCache(conf.size, conf.md);
    hits := [];
    RunStart(conf);
    for i := 0 to |es|
      invariant arc.Valid() && fresh(arc) && fresh(arc.t1) && fresh(arc.b1) && fresh(arc.t2) && fresh(arc.b2)
      invariant arc.conf == conf && forall o | o in arc.Objs() :: fresh(o)
      invariant arc.Abs() == Run(conf, es[..i]) && hits == Hits(conf, es[..i])
    {
      RunMore(conf, es, i);
      var hit := arc.Get(es[i]);
      hits := hits + [hit];
    }
    assert es[..|es|] == es;
  }

  /** ARCv0.c is the same specification on every run over unit-size objects. */
  method RunArcV0(tr: seq<ObjId>, size: nat) returns (hits: seq<bool>, arc: ArcV0Cache)
    ensures hits == Hits(Config(size, 0), UnitRequests(tr)) && arc.Abs() == Run(Config(size, 0), UnitRequests(tr))
  {
    hide ArcV0Cache.Valid, Hits, Run, ArcSpec.Get, Sized, Wf;
    arc := new ArcV0Cache(size);
    hits := [];
    ghost var conf, es := Config(size, 0), UnitRequests(tr);
    RunStart(conf);
    for i := 0 to |tr|
      invariant arc.Valid() && fresh(arc) && forall o | o in arc.Footprint() :: fresh(o)
      invariant arc.size == size && arc.Abs() == Run(conf, es[..i]) && hits == Hits(conf, es[..i])
    {
      RunMore(conf, es, i);
      var hit := arc.Get(tr[i]);
      hits := hits + [hit];
    }
    assert es[..|tr|] == es;
  }

  /** On every trace of unit-size requests the two caches hit and miss alike and end with the same four
      lists, the same target and the same flags. */
  method RunBoth(tr: seq<ObjId>, size: nat)
    returns (hits: seq<bool>, hits0: seq<bool>, arc: ArcCache, arc0: ArcV0Cache)
    ensures hits == hits0 && arc.Abs() == arc0.Abs()
  {
    hide Run, Hits;
    hits, arc := RunArc(UnitRequests(tr), Config(size, 0));
    hits0, arc0 := RunArcV0(tr, size);
  }

  lemma RunStart(conf: Config)
    ensures Run(conf, []) == Init() && Hits(conf, []) == []
  {
  }

  lemma RunMore(conf: Config, es: seq<Entry>, i: nat)
    requires i < |es| && Requests(es)
    ensures var s := Run(conf, es[..i]);
            && 0 <= s.now && Sized(s)
            && Run(conf, es[..i + 1]) == Get(s, conf, es[i])
            && Hits(conf, es[..i + 1]) == Hits(conf, es[..i]) + [Hit(s, es[i].id)]
  {
    hide Lists, Get;
    assert Front(es[..i + 1]) == es[..i] && Last(es[..i + 1]) == es[i];
    ListsSized(Run(conf, es[..i]));
  }
}
