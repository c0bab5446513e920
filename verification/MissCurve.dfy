/** The LRU miss-count curve from one pass over the trace (profilerLRU.c). */
module MissCurve {
  import opened NextUse
  import opened LruStack
  import opened SplayShape
  import opened StackDistance

  /** Requests among the first `n` whose reported distance is below `c`. */
  function Near(tr: seq<ObjId>, c: nat, n: nat): nat
    requires n <= |tr|
  {
    if n == 0 then 0 else Near(tr, c, n - 1) + if 0 <= Reported(tr, n - 1) < c then 1 else 0
  }

  /** Requests among the first `n` counted in slot `d` of the histogram. */
  function Slot(tr: seq<ObjId>, d: nat, n: nat): nat
    requires n <= |tr|
  {
    if n == 0 then 0 else Slot(tr, d, n - 1) + if d > 0 && Reported(tr, n - 1) + 1 == d then 1 else 0
  }

  lemma {:induction false} NearGrows(tr: seq<ObjId>, c: nat, n: nat)
    requires n <= |tr|
    ensures Near(tr, 0, n) == 0 == Slot(tr, 0, n)
    ensures Near(tr, c + 1, n) == Near(tr, c, n) + Slot(tr, c + 1, n)
  {
    hide Reported;
    if n > 0 {
      NearGrows(tr, c, n - 1);
    }
  }

  /** The one request whose distance is lost: the second for the object that came first. */
  function LostHits(tr: seq<ObjId>, c: nat, n: nat): nat
    requires n <= |tr|
  {
    if tr == [] then 0
    else
      var second := Next(tr, 1, tr[0]);
      if second < n && LruHits(tr, c, second) then 1 else 0
  }

  lemma LostStep(tr: seq<ObjId>, c: nat, n: nat)
    requires n < |tr|
    ensures LostHits(tr, c, n + 1) ==
            LostHits(tr, c, n) + if Last(tr, n, tr[n]) == 0 && LruHits(tr, c, n) then 1 else 0
  {
    hide Last, Next, LruHits;
    if n > 0 {
      LastOfNext(tr, 0, n);
    }
  }

  /** What the histogram adds up to: the hits of an LRU cache, less the lost one. */
  lemma {:induction false} CurveIsLru(tr: seq<ObjId>, c: nat, n: nat)
    requires n <= |tr|
    ensures Near(tr, c, n) == LruHitCount(tr, c, n) - LostHits(tr, c, n)
  {
    hide Last, LruHits, LostHits, StackDist;
    if n > 0 {
      CurveIsLru(tr, c, n - 1);
      HitIffNear(tr, c, n - 1);
      LostStep(tr, c, n - 1);
    } else {
      LostNone(tr, c);
    }
  }

  lemma LostNone(tr: seq<ObjId>, c: nat)
    ensures LostHits(tr, c, 0) == 0
  {
  }

  /** Exactly when the curve is right at size `c`: the object that came first is never requested again, or only
      after at least `c` other objects. */
  lemma ExactIff(tr: seq<ObjId>, c: nat)
    requires tr != []
    ensures var second := Next(tr, 1, tr[0]);
            LostHits(tr, c, |tr|) == 0 <==> second == |tr| || |Requested(tr, 1, second)| >= c
  {
    hide LruHits, Last, Next, Requested;
    var second := Next(tr, 1, tr[0]);
    if second < |tr| {
      LastOfNext(tr, 0, second);
      HitIffNear(tr, c, second);
    }
  }

  /** The shortest trace on which the curve is wrong: the only hit of an LRU cache of size 1 is lost. */
  lemma OneHitLost(x: ObjId)
    ensures var tr := [x, x];
            LruHitCount(tr, 1, 2) == 1 && LostHits(tr, 1, 2) == 1 && Near(tr, 1, 2) == 0
  {
    var tr := [x, x];
    assert Last(tr, 1, x) == 0 && Next(tr, 1, x) == 1;
    assert Last(tr, 0, x) == -1;
    assert Requested(tr, 1, 1) == {};
    HitIffNear(tr, 1, 0);
    HitIffNear(tr, 1, 1);
    assert LruHitCount(tr, 1, 1) == LruHitCount(tr, 1, 0) == 0;
    CurveIsLru(tr, 1, 2);
  }

  /** _get_lru_hit_cnt: for every cache size up to `size`, the hits of an LRU cache of that size. */
  method GetLruHitCnt(tr: seq<ObjId>, size: int) returns (hitCnt: array<int>)
    requires -1 <= size
    ensures fresh(hitCnt) && hitCnt.Length == size + 1
    ensures forall c | 0 <= c <= size :: hitCnt[c] == LruHitCount(tr, c, |tr|) - LostHits(tr, c, |tr|)
  {
    hitCnt := Histogram(tr, size);
    hide Slot, Near, LruHitCount, LostHits;
    ghost var hist := hitCnt[..];
    var i := 1;
    if size >= 0 {
      NearGrows(tr, 0, |tr|);
    }
    while i < size + 1
      invariant 1 <= i && (i <= size + 1 || size == -1)
      invariant forall c | 0 <= c < i && c <= size :: hitCnt[c] == Near(tr, c, |tr|)
      invariant forall c | i <= c <= size :: hitCnt[c] == hist[c]
    {
      NearGrows(tr, i - 1, |tr|);
      hitCnt[i] := hitCnt[i] + hitCnt[i - 1];
      i := i + 1;
    }
    forall c | 0 <= c <= size
      ensures hitCnt[c] == LruHitCount(tr, c, |tr|) - LostHits(tr, c, |tr|)
    {
      CurveIsLru(tr, c, |tr|);
    }
  }

  /** The first loop: how often each distance occurs. */
  method Histogram(tr: seq<ObjId>, size: int) returns (hist: array<int>)
    requires -1 <= size
    ensures fresh(hist) && hist.Length == size + 1
    ensures forall d | 0 <= d <= size :: hist[d] == Slot(tr, d, |tr|)
  {
    hide Reported, DistancePass.Tracks;
    hist := new int[size + 1](_ => 0);
    var pass := new DistancePass(tr);
    for ts := 0 to |tr|
      invariant pass.Tracks(tr, ts) && fresh(pass) && fresh(Nodes(pass.shape))
      invariant forall d | 0 <= d <= size :: hist[d] == Slot(tr, d, ts)
    {
      NotNodes(pass.shape, hist);
      var dist, _ := pass.AddReq(tr[ts], ts, tr);
      NotNodes(pass.shape, hist);
      ReportedRange(tr, ts);
      if dist != -1 && dist + 1 <= size {
        hist[dist + 1] := hist[dist + 1] + 1;
      }
    }
  }

  lemma ReportedRange(tr: seq<ObjId>, i: nat)
    requires i < |tr|
    ensures -1 <= Reported(tr, i)
  {
  }

  /** _get_lru_miss_cnt; a cache of size 0 misses every request, which get_lru_obj_miss_ratio asserts. */
  method GetLruMissCnt(tr: seq<ObjId>, size: int) returns (missCnt: array<int>)
    requires -1 <= size
    ensures fresh(missCnt) && missCnt.Length == size + 1
    ensures forall c | 0 <= c <= size ::
              missCnt[c] == |tr| - LruHitCount(tr, c, |tr|) + LostHits(tr, c, |tr|)
    ensures 0 <= size ==> missCnt[0] == |tr|
  {
    hide LruHitCount, LostHits;
    missCnt := GetLruHitCnt(tr, size);
    for i := 0 to size + 1
      invariant forall c | 0 <= c < i ::
                  missCnt[c] == |tr| - LruHitCount(tr, c, |tr|) + LostHits(tr, c, |tr|)
      invariant forall c | i <= c <= size :: missCnt[c] == LruHitCount(tr, c, |tr|) - LostHits(tr, c, |tr|)
    {
      missCnt[i] := |tr| - missCnt[i];
    }
    CurveIsLru(tr, 0, |tr|);
    NearGrows(tr, 0, |tr|);
  }

  /** A larger LRU cache hits whenever a smaller one does. */
  lemma LargerIsBetter(tr: seq<ObjId>, c: nat, c': nat, i: nat)
    requires c <= c' && i < |tr| && LruHits(tr, c, i)
    ensures LruHits(tr, c', i)
  {
    HitIffNear(tr, c, i);
    HitIffNear(tr, c', i);
  }
}
