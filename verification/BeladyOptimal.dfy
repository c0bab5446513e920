/**
 Optimality of the farthest-next-use rule among all demand policies.

 The proof is one invariant over the two runs in lock step. Write `Soon(S, t)` for how many
 objects of `S` are used again by time `t`. At every point, for every horizon `t`,
     Soon(rival, t) - Soon(belady, t) <= misses(rival) - misses(belady).
 */
module BeladyOptimal {
  import opened NextUse
  import opened Sets

  /** A run of some demand policy: `run[i]` is the cache before request `i`. The requested object
      must be inserted, nothing else may be, and anything may be thrown out at any time. */
  ghost predicate DemandRun(tr: seq<ObjId>, c: nat, run: seq<set<ObjId>>)
  {
    && |run| == |tr| + 1
    && run[0] == {}
    && forall i | 0 <= i < |tr| :: DemandStep(c, run[i], tr[i], run[i + 1])
  }

  ghost predicate DemandStep(c: nat, before: set<ObjId>, x: ObjId, after: set<ObjId>)
  {
    x in after && after <= before + {x} && |after| <= c
  }

  /** `e` has a farthest next use among `s`, looking from position `i`. */
  ghost predicate Farthest(tr: seq<ObjId>, i: nat, s: set<ObjId>, e: ObjId)
    requires i <= |tr|
  {
    e in s && forall x | x in s :: Next(tr, i, x) <= Next(tr, i, e)
  }

  ghost predicate BeladyStep(tr: seq<ObjId>, i: nat, c: nat, before: set<ObjId>, after: set<ObjId>)
    requires i < |tr|
  {
    if tr[i] in before then after == before
    else if |before| < c then after == before + {tr[i]}
    else exists e :: Farthest(tr, i, before, e) && after == before - {e} + {tr[i]}
  }

  ghost predicate BeladyRun(tr: seq<ObjId>, c: nat, run: seq<set<ObjId>>)
  {
    && |run| == |tr| + 1
    && run[0] == {}
    && forall i | 0 <= i < |tr| :: BeladyStep(tr, i, c, run[i], run[i + 1])
  }

  /** Misses among the first `n` requests. */
  function Misses(tr: seq<ObjId>, run: seq<set<ObjId>>, n: nat): nat
    requires n <= |tr| && n <= |run|
  {
    if n == 0 then 0
    else Misses(tr, run, n - 1) + if tr[n - 1] in run[n - 1] then 0 else 1
  }

  ghost function Soon(tr: seq<ObjId>, i: nat, s: set<ObjId>, t: nat): set<ObjId>
    requires i <= |tr|
  {
    set x | x in s && Next(tr, i, x) <= t
  }

  ghost predicate AheadAt(tr: seq<ObjId>, i: nat, rival: set<ObjId>, belady: set<ObjId>, lead: int, t: nat)
    requires i <= |tr|
  {
    |Soon(tr, i, rival, t)| - |Soon(tr, i, belady, t)| <= lead
  }

  /** The potential: at every horizon the rival is ahead by at most `lead` objects. */
  ghost predicate Ahead(tr: seq<ObjId>, i: nat, rival: set<ObjId>, belady: set<ObjId>, lead: int)
    requires i <= |tr|
  {
    && 0 <= lead
    && forall t: nat :: AheadAt(tr, i, rival, belady, lead, t)
  }

  /** Serving the request at `i` only moves the next use of the object requested. */
  lemma SoonAdvance(tr: seq<ObjId>, i: nat, s: set<ObjId>, t: nat)
    requires i < |tr|
    ensures Soon(tr, i + 1, s - {tr[i]}, t) == Soon(tr, i, s - {tr[i]}, t)
  {
  }

  /** Counts of a cache that holds `x`: the rest, plus one if `x` is used by `t`. */
  lemma SoonSplit(tr: seq<ObjId>, i: nat, s: set<ObjId>, x: ObjId, t: nat)
    requires i <= |tr| && x in s
    ensures |Soon(tr, i, s, t)| ==
            |Soon(tr, i, s - {x}, t)| + (if Next(tr, i, x) <= t then 1 else 0)
  {
    if Next(tr, i, x) <= t {
      assert Soon(tr, i, s, t) == Soon(tr, i, s - {x}, t) + {x};
    } else {
      assert Soon(tr, i, s, t) == Soon(tr, i, s - {x}, t);
    }
  }

  /** After the request both caches hold `x`, so only the rest of each cache matters. */
  lemma AheadByRest(tr: seq<ObjId>, i: nat, a: set<ObjId>, b: set<ObjId>, lead: int)
    requires i < |tr| && tr[i] in a && tr[i] in b && 0 <= lead
    requires forall t: nat :: AheadAt(tr, i, a - {tr[i]}, b - {tr[i]}, lead, t)
    ensures Ahead(tr, i + 1, a, b, lead)
  {
    var x, next := tr[i], i + 1;
    forall t: nat
      ensures AheadAt(tr, next, a, b, lead, t)
    {
      SoonSplit(tr, i + 1, a, x, t);
      SoonSplit(tr, i + 1, b, x, t);
      SoonAdvance(tr, i, a, t);
      SoonAdvance(tr, i, b, t);
      assert AheadAt(tr, i, a - {x}, b - {x}, lead, t);
    }
  }

  /** What the rival keeps besides `x` was in its cache before. */
  lemma RivalRest(tr: seq<ObjId>, i: nat, c: nat, a: set<ObjId>, a': set<ObjId>, t: nat)
    requires i < |tr| && DemandStep(c, a, tr[i], a')
    ensures |Soon(tr, i, a' - {tr[i]}, t)| <= |Soon(tr, i, a - {tr[i]}, t)|
    ensures |Soon(tr, i, a' - {tr[i]}, t)| <= c - 1
  {
    Subset(Soon(tr, i, a' - {tr[i]}, t), Soon(tr, i, a - {tr[i]}, t));
    Subset(Soon(tr, i, a' - {tr[i]}, t), a' - {tr[i]});
  }

  /** On a miss the rest of Belady's cache loses to nobody: at a horizon before the victim's next
      use it is unchanged, at a later one every object left counts. */
  lemma BeladyRest(tr: seq<ObjId>, i: nat, c: nat, b: set<ObjId>, b': set<ObjId>, t: nat)
    requires i < |tr| && tr[i] !in b && BeladyStep(tr, i, c, b, b') && |b| <= c
    ensures var rest := |Soon(tr, i, b' - {tr[i]}, t)|;
            rest == |Soon(tr, i, b, t)| || rest == c - 1
  {
    var x := tr[i];
    if |b| < c {
      assert b' - {x} == b;
    } else {
      var e :| Farthest(tr, i, b, e) && b' == b - {e} + {x};
      assert b' - {x} == b - {e};
      if t < Next(tr, i, e) {
        SoonSplit(tr, i, b, e, t);
      } else {
        assert Soon(tr, i, b - {e}, t) == b - {e};
      }
    }
  }

  lemma AheadStep(tr: seq<ObjId>, i: nat, c: nat, a: set<ObjId>, a': set<ObjId>,
                  b: set<ObjId>, b': set<ObjId>, lead: int)
    requires i < |tr| && |b| <= c
    requires DemandStep(c, a, tr[i], a') && BeladyStep(tr, i, c, b, b')
    requires Ahead(tr, i, a, b, lead)
    ensures Ahead(tr, i + 1, a', b',
                  lead + (if tr[i] in a then 0 else 1) - (if tr[i] in b then 0 else 1))
  {
    var x := tr[i];
    var lead' := lead + (if x in a then 0 else 1) - (if x in b then 0 else 1);
    if x in a && x !in b {
      // the horizon at which only the request itself counts
      SoonSplit(tr, i, a, x, i);
      assert Soon(tr, i, b, i) == {};
      assert AheadAt(tr, i, a, b, lead, i);
    }
    forall t: nat
      ensures AheadAt(tr, i, a' - {x}, b' - {x}, lead', t)
    {
      assert AheadAt(tr, i, a, b, lead, t);
      RivalRest(tr, i, c, a, a', t);
      if t < i {
        assert Soon(tr, i, a' - {x}, t) == {};
      } else {
        if x in a {
          SoonSplit(tr, i, a, x, t);
        } else {
          assert a - {x} == a;
        }
        if x in b {
          SoonSplit(tr, i, b, x, t);
        } else {
          BeladyRest(tr, i, c, b, b', t);
        }
      }
    }
    AheadByRest(tr, i, a', b', lead');
  }

  lemma BeladyStepSize(tr: seq<ObjId>, i: nat, c: nat, b: set<ObjId>, b': set<ObjId>)
    requires 1 <= c && i < |tr| && |b| <= c && BeladyStep(tr, i, c, b, b')
    ensures DemandStep(c, b, tr[i], b')
  {
    if tr[i] !in b && |b| == c {
      var e :| Farthest(tr, i, b, e) && b' == b - {e} + {tr[i]};
      assert |b - {e}| == |b| - 1;
    }
  }

  lemma {:induction false} LockStep(tr: seq<ObjId>, c: nat, a: seq<set<ObjId>>, b: seq<set<ObjId>>, n: nat)
    requires 1 <= c && n <= |tr|
    requires DemandRun(tr, c, a) && BeladyRun(tr, c, b)
    ensures |b[n]| <= c
    ensures Ahead(tr, n, a[n], b[n], Misses(tr, a, n) - Misses(tr, b, n))
  {
    hide Ahead, BeladyStep, DemandStep;
    if n > 0 {
      LockStep(tr, c, a, b, n - 1);
      BeladyStepSize(tr, n - 1, c, b[n - 1], b[n]);
      assert DemandStep(c, a[n - 1], tr[n - 1], a[n]);
      AheadStep(tr, n - 1, c, a[n - 1], a[n], b[n - 1], b[n],
                Misses(tr, a, n - 1) - Misses(tr, b, n - 1));
    } else {
      AheadAtStart(tr);
    }
  }

  lemma AheadAtStart(tr: seq<ObjId>)
    ensures Ahead(tr, 0, {}, {}, 0)
  {
  }

  /** Belady's rule misses no more often than any demand policy, on any trace and any prefix of it. */
  lemma BeladyIsOptimal(tr: seq<ObjId>, c: nat, rival: seq<set<ObjId>>, belady: seq<set<ObjId>>, n: nat)
    requires 1 <= c && n <= |tr|
    requires DemandRun(tr, c, rival) && BeladyRun(tr, c, belady)
    ensures Misses(tr, belady, n) <= Misses(tr, rival, n)
  {
    LockStep(tr, c, rival, belady, n);
  }

  /** Belady's rule is itself a demand policy, so the bound is attained. */
  lemma BeladyIsDemand(tr: seq<ObjId>, c: nat, belady: seq<set<ObjId>>)
    requires 1 <= c && BeladyRun(tr, c, belady)
    ensures DemandRun(tr, c, belady)
  {
    forall i | 0 <= i < |tr|
      ensures DemandStep(c, belady[i], tr[i], belady[i + 1])
    {
      BeladyBounded(tr, c, belady, i);
      BeladyStepSize(tr, i, c, belady[i], belady[i + 1]);
    }
  }

  lemma {:induction false} BeladyBounded(tr: seq<ObjId>, c: nat, belady: seq<set<ObjId>>, n: nat)
    requires 1 <= c && n <= |tr| && BeladyRun(tr, c, belady)
    ensures |belady[n]| <= c
  {
    if n > 0 {
      BeladyBounded(tr, c, belady, n - 1);
      BeladyStepSize(tr, n - 1, c, belady[n - 1], belady[n]);
    }
  }
}
