/** Stack distances of a trace, and why they say which LRU caches hit (Mattson's inclusion). */
module LruStack {
  import opened NextUse
  import opened Lru

  /** Position of the last request for `x` before `i`, or -1. */
  function Last(tr: seq<ObjId>, i: nat, x: ObjId): (l: int)
    requires i <= |tr|
    ensures -1 <= l < i
    ensures l >= 0 ==> tr[l] == x
    ensures forall j | l < j < i :: tr[j] != x
  {
    if i == 0 then -1 else if tr[i - 1] == x then i - 1 else Last(tr, i - 1, x)
  }

  /** The objects requested in positions `a` to `b`. */
  function Requested(tr: seq<ObjId>, a: int, b: int): set<ObjId>
    requires 0 <= a && b <= |tr|
  {
    set j | a <= j < b :: tr[j]
  }

  /** How many distinct other objects were requested since the last request for this object. */
  function StackDist(tr: seq<ObjId>, i: nat): int
    requires i < |tr|
  {
    var l := Last(tr, i, tr[i]);
    if l == -1 then -1 else |Requested(tr, l + 1, i)|
  }

  /** An LRU cache of `c` unit-size objects before request `i`. */
  function LruQueue(tr: seq<ObjId>, c: nat, i: nat): Queue
    requires i <= |tr|
  {
    if i == 0 then [] else LruGet(LruQueue(tr, c, i - 1), c, 0, Entry(tr[i - 1], 1))
  }

  predicate LruHits(tr: seq<ObjId>, c: nat, i: nat)
    requires i < |tr|
  {
    Has(LruQueue(tr, c, i), tr[i])
  }

  /** Hits of an LRU cache of `c` unit-size objects among the first `n` requests. */
  function LruHitCount(tr: seq<ObjId>, c: nat, n: nat): nat
    requires n <= |tr|
  {
    if n == 0 then 0 else LruHitCount(tr, c, n - 1) + if LruHits(tr, c, n - 1) then 1 else 0
  }

  function Push(q: Queue, x: ObjId): Queue
  {
    if Has(q, x) then Promote(q, x) else [Entry(x, 1)] + q
  }

  /** Everything requested so far, most recent first. */
  function Stack(tr: seq<ObjId>, i: nat): Queue
    requires i <= |tr|
  {
    if i == 0 then [] else Push(Stack(tr, i - 1), tr[i - 1])
  }

  function Top(q: Queue, c: nat): Queue
  {
    if |q| <= c then q else q[..c]
  }

  lemma {:induction false} UnitTrim(q: Queue, room: nat)
    requires Units(q)
    ensures Trim(q, 0, room) == Top(q, room)
  {
    UnitWeight(q);
    if |q| > room {
      UnitTrim(q[..|q| - 1], room);
    }
  }

  /** The recency order: positions of last requests strictly decrease along the stack. */
  ghost predicate Recency(tr: seq<ObjId>, i: nat, q: Queue)
    requires i <= |tr|
  {
    && Units(q)
    && (forall k | 0 <= k < |q| :: Last(tr, i, q[k].id) >= 0)
    && (forall j, k | 0 <= j < k < |q| :: Last(tr, i, q[j].id) > Last(tr, i, q[k].id))
    && (forall x {:trigger Has(q, x)} :: Last(tr, i, x) >= 0 ==> Has(q, x))
  }

  lemma LastStep(tr: seq<ObjId>, i: nat, y: ObjId)
    requires i < |tr|
    ensures Last(tr, i + 1, y) == if y == tr[i] then i else Last(tr, i, y)
  {
  }

  /** Where the object in slot `j` of the pushed stack was before. */
  function Below(q: Queue, x: ObjId, j: nat): nat
    requires 1 <= j
  {
    if Has(q, x) && IndexOf(q, x) < j then j else j - 1
  }

  lemma PushAt(q: Queue, x: ObjId, j: nat)
    requires j < |Push(q, x)| && Units(q) && Distinct(q)
    ensures |q| <= |Push(q, x)| <= |q| + 1
    ensures Push(q, x)[0] == Entry(x, 1)
    ensures j > 0 ==> Below(q, x, j) < |q| && Push(q, x)[j] == q[Below(q, x, j)] && Push(q, x)[j].id != x
  {
    hide Promote;
    if Has(q, x) {
      PromoteAt(q, x, 0);
      PromoteAt(q, x, j);
    }
  }

  lemma PushHas(q: Queue, x: ObjId, y: ObjId)
    ensures Has(Push(q, x), y) <==> Has(q, y) || y == x
  {
    hide Promote;
    var r := Push(q, x);
    if Has(q, x) {
      PromoteHas(q, x, y);
    } else {
      assert r[0].id == x;
      if Has(q, y) {
        assert r[1 + IndexOf(q, y)].id == y;
      }
      if Has(r, y) && y != x {
        assert q[IndexOf(r, y) - 1].id == y;
      }
    }
  }

  /** The recency order of two slots of the pushed stack. */
  lemma PushOrdered(tr: seq<ObjId>, i: nat, q: Queue, j: nat, k: nat)
    requires i < |tr| && Recency(tr, i, q) && j < k < |Push(q, tr[i])|
    ensures Last(tr, i + 1, Push(q, tr[i])[j].id) > Last(tr, i + 1, Push(q, tr[i])[k].id)
  {
    hide Promote, Push;
    PushAt(q, tr[i], j);
    PushAt(q, tr[i], k);
  }

  lemma RecencyStep(tr: seq<ObjId>, i: nat, q: Queue)
    requires i < |tr| && Recency(tr, i, q)
    ensures Recency(tr, i + 1, Push(q, tr[i]))
  {
    hide Push, Has;
    var r := Push(q, tr[i]);
    forall j | 0 <= j < |r|
      ensures r[j].size == 1 && Last(tr, i + 1, r[j].id) >= 0
    {
      PushAt(q, tr[i], j);
    }
    forall j, k | 0 <= j < k < |r|
      ensures Last(tr, i + 1, r[j].id) > Last(tr, i + 1, r[k].id)
    {
      PushOrdered(tr, i, q, j, k);
    }
    forall y
      ensures Last(tr, i + 1, y) >= 0 ==> Has(r, y)
    {
      PushHas(q, tr[i], y);
    }
  }

  lemma {:induction false} StackRecency(tr: seq<ObjId>, i: nat)
    requires i <= |tr|
    ensures Recency(tr, i, Stack(tr, i))
  {
    hide Recency, Push;
    if i > 0 {
      StackRecency(tr, i - 1);
      RecencyStep(tr, i - 1, Stack(tr, i - 1));
    } else {
      RecencyStart(tr);
    }
  }

  lemma RecencyStart(tr: seq<ObjId>)
    ensures Recency(tr, 0, [])
  {
  }

  lemma StackHas(tr: seq<ObjId>, i: nat, q: Queue, x: ObjId)
    requires i <= |tr| && Recency(tr, i, q)
    ensures Has(q, x) <==> Last(tr, i, x) >= 0
    ensures Distinct(q) && Units(q)
  {
  }

  /** Moving to the front and cutting, on plain sequences. */
  lemma CutFront<T>(q: seq<T>, k: nat, c: nat)
    requires k < |q|
    ensures k < c <= |q| ==>
              [q[k]] + (q[..c][..k] + q[..c][k + 1..]) == ([q[k]] + (q[..k] + q[k + 1..]))[..c]
    ensures 1 <= c <= k ==> [q[k]] + q[..c - 1] == ([q[k]] + (q[..k] + q[k + 1..]))[..c]
  {
  }

  lemma CutIndex(q: Queue, c: nat, x: ObjId)
    requires Has(q, x) && c <= |q|
    ensures Has(q[..c], x) <==> IndexOf(q, x) < c
    ensures IndexOf(q, x) < c ==> IndexOf(q[..c], x) == IndexOf(q, x)
  {
    if IndexOf(q, x) < c {
      assert q[..c][IndexOf(q, x)].id == x;
    }
  }

  /** Serving a request and cutting the stack commute. */
  lemma CutStep(q: Queue, c: nat, x: ObjId)
    requires Units(q) && Distinct(q)
    ensures LruGet(Top(q, c), c, 0, Entry(x, 1)) == Top(Push(q, x), c)
  {
    hide IndexOf, Distinct;
    if Has(q, x) && c < |q| {
      var k := IndexOf(q, x);
      CutIndex(q, c, x);
      CutFront(q, k, c);
      if c <= k {
        CutMiss(q, c, x);
      }
    } else if !Has(q, x) {
      assert !Has(Top(q, c), x);
      CutMiss(q, c, x);
    }
  }

  lemma CutMiss(q: Queue, c: nat, x: ObjId)
    requires Units(q) && !Has(Top(q, c), x)
    ensures LruGet(Top(q, c), c, 0, Entry(x, 1)) == if c == 0 then [] else [Entry(x, 1)] + Top(q, c - 1)
  {
    if c > 0 {
      UnitTrim(Top(q, c), c - 1);
    }
  }

  /** Inclusion: the cache of `c` objects holds the top `c` of the recency stack. */
  lemma {:induction false} Inclusion(tr: seq<ObjId>, c: nat, i: nat)
    requires i <= |tr|
    ensures LruQueue(tr, c, i) == Top(Stack(tr, i), c)
  {
    hide Recency, LruGet, Push, Top;
    if i > 0 {
      Inclusion(tr, c, i - 1);
      StackRecency(tr, i - 1);
      StackHas(tr, i - 1, Stack(tr, i - 1), tr[i - 1]);
      CutStep(Stack(tr, i - 1), c, tr[i - 1]);
    } else {
      CutEmpty(c);
    }
  }

  lemma CutEmpty(c: nat)
    ensures Top([], c) == []
  {
  }

  lemma RequestedSince(tr: seq<ObjId>, i: nat, l: int, y: ObjId)
    requires i <= |tr| && -1 <= l
    ensures y in Requested(tr, l + 1, i) <==> Last(tr, i, y) > l
  {
    if Last(tr, i, y) > l {
      assert tr[Last(tr, i, y)] == y;
    }
  }

  /** In recency order, what lies above `x` is exactly what was requested since. */
  lemma AboveIsSince(tr: seq<ObjId>, i: nat, q: Queue, x: ObjId, y: ObjId)
    requires i <= |tr| && Recency(tr, i, q) && Has(q, x)
    ensures Has(q, y) && IndexOf(q, y) < IndexOf(q, x) <==> Last(tr, i, y) > Last(tr, i, x)
  {
    hide Last, Recency, Has, IndexOf;
    StackHas(tr, i, q, x);
    StackHas(tr, i, q, y);
    if Has(q, y) {
      InRecency(tr, i, q, IndexOf(q, y), IndexOf(q, x));
      InRecency(tr, i, q, IndexOf(q, x), IndexOf(q, y));
    }
  }

  lemma InRecency(tr: seq<ObjId>, i: nat, q: Queue, j: nat, k: nat)
    requires i <= |tr| && Recency(tr, i, q) && j < |q| && k < |q|
    ensures j < k ==> Last(tr, i, q[j].id) > Last(tr, i, q[k].id)
  {
    hide Last;
  }

  /** The depth of an object in the stack is the number of objects requested since. */
  lemma DepthIsDistance(tr: seq<ObjId>, i: nat, q: Queue, x: ObjId)
    requires i <= |tr| && Recency(tr, i, q) && Has(q, x) && Distinct(q)
    ensures IndexOf(q, x) == |Requested(tr, Last(tr, i, x) + 1, i)|
  {
    hide Recency, Requested;
    var k := IndexOf(q, x);
    var above := set j | 0 <= j < k :: q[j].id;
    var since := Requested(tr, Last(tr, i, x) + 1, i);
    IdCount(q, k);
    forall y
      ensures y in since <==> y in above
    {
      AboveIsSince(tr, i, q, x, y);
      FirstK(q, k, y);
      RequestedSince(tr, i, Last(tr, i, x), y);
    }
    assert above == since;
  }

  lemma FirstK(q: Queue, k: nat, y: ObjId)
    requires k < |q|
    ensures y in (set j | 0 <= j < k :: q[j].id) <==> Has(q, y) && IndexOf(q, y) < k
  {
    if Has(q, y) && IndexOf(q, y) < k {
      assert q[IndexOf(q, y)].id == y;
    }
  }

  lemma {:induction false} IdCount(q: Queue, k: nat)
    requires Distinct(q) && k <= |q|
    ensures |set j | 0 <= j < k :: q[j].id| == k
  {
    if k > 0 {
      IdCount(q, k - 1);
      assert (set j | 0 <= j < k :: q[j].id) == (set j | 0 <= j < k - 1 :: q[j].id) + {q[k - 1].id};
    }
  }

  /** Mattson's theorem: a request hits in an LRU cache of `c` unit objects exactly when its stack
      distance is below `c`. */
  lemma HitIffNear(tr: seq<ObjId>, c: nat, i: nat)
    requires i < |tr|
    ensures LruHits(tr, c, i) <==> 0 <= StackDist(tr, i) < c
  {
    hide Recency, Stack, LruQueue, Requested;
    var x, q := tr[i], Stack(tr, i);
    Inclusion(tr, c, i);
    StackRecency(tr, i);
    StackHas(tr, i, q, x);
    if Has(q, x) {
      DepthIsDistance(tr, i, q, x);
      var k := IndexOf(q, x);
      if k < c {
        assert Top(q, c)[k].id == x;
      }
    }
  }
}
