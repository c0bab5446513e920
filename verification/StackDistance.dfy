/** Stack distances in one pass over the trace, with a splay tree of last-access times (dist.c). */
module StackDistance {
  import opened NextUse
  import opened Sets
  import opened LruStack
  import opened SplayShape
  import opened Splay

  /** The pass stores times as pointers, and time 0 reads back as "never seen". */
  function Reported(tr: seq<ObjId>, i: nat): int
    requires i < |tr|
  {
    if Last(tr, i, tr[i]) == 0 then -1 else StackDist(tr, i)
  }

  /** Exactly one request is reported wrong: the second for the object that came first. */
  lemma ReportedIff(tr: seq<ObjId>, i: nat)
    requires i < |tr|
    ensures Reported(tr, i) == StackDist(tr, i) <==> Last(tr, i, tr[i]) != 0
    ensures Last(tr, i, tr[i]) == 0 <==> i > 0 && Next(tr, 1, tr[0]) == i
  {
    hide Last, Next;
    if i > 0 {
      LastOfNext(tr, 0, i);
    }
  }

  /** Position `j` holds the last request for its object before `i`. */
  ghost predicate IsLast(tr: seq<ObjId>, i: nat, j: int)
    requires i <= |tr|
  {
    0 <= j < i && Last(tr, i, tr[j]) == j
  }

  /** What the tree holds after `i` requests: the last-access times, and time 0 for good. */
  ghost function Live(tr: seq<ObjId>, i: nat): set<int>
    requires i <= |tr|
  {
    set j | 0 <= j < i && (j == 0 || IsLast(tr, i, j))
  }

  ghost function LiveAbove(tr: seq<ObjId>, i: nat, l: int): set<int>
    requires i <= |tr|
  {
    set j | l < j < i && IsLast(tr, i, j)
  }

  lemma LiveFrom(tr: seq<ObjId>, i: nat, a: nat)
    requires a < i <= |tr|
    ensures var rest := LiveAbove(tr, i, a);
            LiveAbove(tr, i, a - 1) == if IsLast(tr, i, a) then rest + {a} else rest
    ensures a !in LiveAbove(tr, i, a)
  {
  }

  /** One time per distinct object: the last one. */
  lemma {:induction false} LiveCount(tr: seq<ObjId>, i: nat, l: int)
    requires -1 <= l < i <= |tr|
    ensures |LiveAbove(tr, i, l)| == |Requested(tr, l + 1, i)|
    decreases i - l
  {
    hide Last, LiveAbove, Requested;
    var a := l + 1;
    if a == i {
      NothingAfter(tr, i);
    } else {
      LiveCount(tr, i, a);
      LiveFrom(tr, i, a);
      RequestedSince(tr, i, a, tr[a]);
      RequestedFrom(tr, a, i);
      AddOne(LiveAbove(tr, i, a), a);
      AddOne(Requested(tr, a + 1, i), tr[a]);
      assert Last(tr, i, tr[a]) >= a;
      assert IsLast(tr, i, a) <==> tr[a] !in Requested(tr, a + 1, i);
    }
  }

  lemma NothingAfter(tr: seq<ObjId>, i: nat)
    requires i <= |tr|
    ensures LiveAbove(tr, i, i - 1) == {} && Requested(tr, i, i) == {}
  {
  }

  lemma RequestedFrom(tr: seq<ObjId>, a: nat, b: nat)
    requires a < b <= |tr|
    ensures Requested(tr, a, b) == Requested(tr, a + 1, b) + {tr[a]}
  {
  }

  lemma LiveStep(tr: seq<ObjId>, i: nat)
    requires i < |tr|
    ensures var l := Last(tr, i, tr[i]);
            Live(tr, i + 1) == (if l <= 0 then Live(tr, i) else Live(tr, i) - {l}) + {i}
  {
    forall j | 0 <= j < i
      ensures IsLast(tr, i + 1, j) <==> IsLast(tr, i, j) && tr[j] != tr[i]
    {
      LastStep(tr, i, tr[j]);
    }
    LastStep(tr, i, tr[i]);
  }

  /** The times above the last access are those of the objects requested since. */
  lemma AboveCount(tr: seq<ObjId>, i: nat, l: int)
    requires 0 <= l < i <= |tr|
    ensures |set k | k in Live(tr, i) && l < k| == |Requested(tr, l + 1, i)|
  {
    LiveCount(tr, i, l);
    assert (set k | k in Live(tr, i) && l < k) == LiveAbove(tr, i, l);
  }

  /** The hash table of last-access times. */
  ghost predicate LastTimes(tr: seq<ObjId>, i: nat, table: map<ObjId, int>)
    requires i <= |tr|
  {
    forall x :: (x in table <==> Last(tr, i, x) >= 0) && (x in table ==> table[x] == Last(tr, i, x))
  }

  lemma LastTimesStep(tr: seq<ObjId>, i: nat, table: map<ObjId, int>)
    requires i < |tr| && LastTimes(tr, i, table)
    ensures LastTimes(tr, i + 1, table[tr[i] := i])
  {
    forall x
      ensures Last(tr, i + 1, x) == if x == tr[i] then i else Last(tr, i, x)
    {
      LastStep(tr, i, x);
    }
  }

  /** After splaying for a key of the tree its right subtree holds the larger keys. */
  lemma RightCount(before: Shape, s: Shape, keys: set<int>, lo: int, hi: int, key: int)
    requires Bst(before, lo, hi) && Keys(before) == keys && key in keys
    requires Splayed(before, s, lo, hi, key)
    ensures s.Bin? && Bst(s, lo, hi) && Keys(s) == keys && Nodes(s) == Nodes(before) && s.n.key == key
    ensures Size(s.r) == |set k | k in keys && key < k|
  {
    SameInOrder(before, s);
    NotFound(before, s, lo, hi, key);
    LargerKeys(s, lo, hi);
  }

  lemma InBounds(s: Shape, keys: set<int>, lo: int, hi: int, key: int)
    requires Bst(s, lo, hi) && Keys(s) == keys && key in keys
    ensures s.Bin? && lo < key < hi
  {
    KeysInRange(s, lo, hi);
  }

  lemma LargerKeys(s: Shape, lo: int, hi: int)
    requires s.Bin? && Bst(s, lo, hi)
    ensures Size(s.r) == |set k | k in Keys(s) && s.n.key < k|
  {
    KeysInRange(s.l, lo, s.n.key);
    KeysInRange(s.r, s.n.key, hi);
    assert Keys(s.r) == set k | k in Keys(s) && s.n.key < k;
  }

  /** Writing to another kind of object does not touch the tree. */
  lemma NotNodes(s: Shape, a: object)
    requires !(a is Node)
    ensures a !in (set n: object | n in Nodes(s))
    ensures forall n | n in Nodes(s) :: n as object != a
  {
  }

  class DistancePass {
    var tree: Node?
    var table: map<ObjId, int>
    ghost var shape: Shape

    ghost predicate Tracks(tr: seq<ObjId>, i: nat)
      requires i <= |tr|
      reads this, Nodes(shape)
    {
      Holds(tree, shape, Live(tr, i), -1, |tr|) && LastTimes(tr, i, table)
    }

    constructor (ghost tr: seq<ObjId>)
      ensures Tracks(tr, 0) && Nodes(shape) == {}
    {
      tree, table, shape := null, map[], Leaf;
    }

    /** The hash table lookup; an absent entry and a stored time 0 are both the null pointer. */
    function Recall(x: ObjId): int
      reads `table
    {
      if x in table then table[x] else 0
    }

    lemma RecallIsLast(x: ObjId, ts: nat, tr: seq<ObjId>)
      requires ts < |tr| && LastTimes(tr, ts, table)
      ensures Recall(x) == if Last(tr, ts, x) <= 0 then 0 else Last(tr, ts, x)
    {
    }

    /** node_value of the right subtree after splaying for `key` */
    method CountAbove(key: int, ghost keys: set<int>, ghost hi: int) returns (n: int)
      requires Holds(tree, shape, keys, -1, hi) && key in keys
      modifies this, Nodes(shape)
      ensures Holds(tree, shape, keys, -1, hi) && n == |set k | k in keys && key < k|
      ensures Nodes(shape) == old(Nodes(shape)) && table == old(table)
    {
      hide Bst, Keys, Splayed;
      InBounds(shape, keys, -1, hi, key);
      ghost var s := shape;
      var t;
      t, shape := Splay.Splay(key, tree, shape, -1, hi);
      RightCount(s, shape, keys, -1, hi, key);
      RootValue(shape.r);
      tree := t;
      n := NodeValue(t.right);
    }

    /** get_stack_dist_add_req: the stack distance and the previous access time (-1 if none is known). */
    method AddReq(x: ObjId, ts: nat, ghost tr: seq<ObjId>) returns (ret: int, lastAccess: int)
      requires ts < |tr| && x == tr[ts] && Tracks(tr, ts)
      modifies this, Nodes(shape)
      ensures Tracks(tr, ts + 1)
      ensures forall n | n in Nodes(shape) && n !in old(Nodes(shape)) :: fresh(n)
      ensures ret == Reported(tr, ts)
      ensures lastAccess == if Last(tr, ts, x) == 0 then -1 else Last(tr, ts, x)
    {
      hide Holds, LastTimes, Last, Live, Nodes;
      LiveStep(tr, ts);
      LastTimesStep(tr, ts, table);
      RecallIsLast(x, ts, tr);
      var oldTs := Recall(x);
      var t;
      if oldTs == 0 {
        lastAccess, ret := -1, -1;
        t, shape := Splay.Insert(ts, tree, shape, Live(tr, ts), -1, |tr|);
      } else {
        lastAccess := oldTs;
        AboveCount(tr, ts, oldTs);
        IsLive(tr, ts, x);
        ret := CountAbove(oldTs, Live(tr, ts), |tr|);
        t, shape := Splay.SplayDelete(oldTs, tree, shape, Live(tr, ts), -1, |tr|);
        assert Nodes(shape) <= old(Nodes(shape));
        t, shape := Splay.Insert(ts, t, shape, Live(tr, ts) - {oldTs}, -1, |tr|);
      }
      NotNodes(shape, this);
      table := table[x := ts];
      tree := t;
    }
  }

  lemma IsLive(tr: seq<ObjId>, i: nat, x: ObjId)
    requires i <= |tr| && Last(tr, i, x) >= 0
    ensures Last(tr, i, x) in Live(tr, i)
  {
    assert IsLast(tr, i, Last(tr, i, x));
  }

  // ---------- the distance array ----------

  datatype DistType = STACK_DIST | FUTURE_STACK_DIST

  const UINT32_MAX := 0xFFFF_FFFF

  /** Conversion to int32_t. */
  function ToInt32(x: int): (y: int)
    ensures -0x8000_0000 <= y < 0x8000_0000
    ensures -0x8000_0000 <= x < 0x8000_0000 ==> y == x
  {
    (x + 0x8000_0000) % 0x1_0000_0000 - 0x8000_0000
  }

  /** The distance seen at the next request for the object requested at `i`. */
  function FutureDist(tr: seq<ObjId>, i: nat): int
    requires i < |tr|
  {
    var n := Next(tr, i + 1, tr[i]);
    if n < |tr| then Reported(tr, n) else -1
  }

  function Expected(tr: seq<ObjId>, distType: DistType, i: nat): int
    requires i < |tr|
  {
    if distType == STACK_DIST then Reported(tr, i) else FutureDist(tr, i)
  }

  /** Last and next request are each other's inverse. */
  lemma LastOfNext(tr: seq<ObjId>, i: nat, n: nat)
    requires i < n < |tr|
    ensures Last(tr, n, tr[n]) == i <==> Next(tr, i + 1, tr[i]) == n
  {
    hide Last, Next;
    if Last(tr, n, tr[n]) == i {
      NextIs(tr, i + 1, tr[i], n);
    }
  }

  /** Slot `j` of the array of future distances after `i` requests. */
  ghost function SoFar(tr: seq<ObjId>, i: nat, j: nat): int
    requires j < |tr|
  {
    if Next(tr, j + 1, tr[j]) < i then FutureDist(tr, j) else -1
  }

  lemma SoFarStep(tr: seq<ObjId>, i: nat, j: nat)
    requires i < |tr| && j < |tr|
    ensures SoFar(tr, i + 1, j) == if j == Last(tr, i, tr[i]) then Reported(tr, i) else SoFar(tr, i, j)
    ensures j == 0 ==> SoFar(tr, i + 1, j) == -1
    ensures SoFar(tr, |tr|, j) == FutureDist(tr, j)
  {
    hide Last, Next;
    if j < i {
      LastOfNext(tr, j, i);
    }
    var n := Next(tr, j + 1, tr[j]);
    if n < |tr| {
      LastOfNext(tr, j, n);
    }
  }

  /** get_stack_dist: `aborted` when some distance exceeds UINT32_MAX. */
  method GetStackDist(tr: seq<ObjId>, distType: DistType) returns (aborted: bool, dist: array<int>)
    ensures fresh(dist) && dist.Length == |tr|
    ensures aborted <==> exists i :: 0 <= i < |tr| && Reported(tr, i) > UINT32_MAX
    ensures !aborted ==> forall i | 0 <= i < |tr| :: dist[i] == ToInt32(Expected(tr, distType, i))
  {
    hide Reported, ToInt32, SoFar, DistancePass.Tracks;
    dist := new int[|tr|];
    if distType == FUTURE_STACK_DIST {
      for i := 0 to |tr|
        invariant forall j | 0 <= j < i :: dist[j] == -1
      {
        dist[i] := -1;
      }
      NothingYet(tr);
    }
    var pass := new DistancePass(tr);
    for ts := 0 to |tr|
      invariant pass.Tracks(tr, ts) && fresh(pass) && fresh(Nodes(pass.shape))
      invariant forall i | 0 <= i < ts :: Reported(tr, i) <= UINT32_MAX
      invariant distType == STACK_DIST ==> forall j | 0 <= j < ts :: dist[j] == ToInt32(Reported(tr, j))
      invariant distType == FUTURE_STACK_DIST ==>
                  forall j | 0 <= j < |tr| :: dist[j] == ToInt32(SoFar(tr, ts, j))
    {
      NotNodes(pass.shape, dist);
      var d, lastAccess := pass.AddReq(tr[ts], ts, tr);
      NotNodes(pass.shape, dist);
      assert pass.Tracks(tr, ts + 1);
      if d > UINT32_MAX {
        aborted := true;
        return;
      }
      if distType == STACK_DIST {
        dist[ts] := ToInt32(d);
      } else if lastAccess != -1 {
        dist[lastAccess] := ToInt32(d);
      }
      if distType == FUTURE_STACK_DIST {
        forall j | 0 <= j < |tr|
          ensures dist[j] == ToInt32(SoFar(tr, ts + 1, j))
        {
          Filled(tr, ts, j);
        }
      }
    }
    aborted := false;
    forall j | 0 <= j < |tr|
      ensures dist[j] == ToInt32(Expected(tr, distType, j))
    {
      SoFarStep(tr, |tr| - 1, j);
    }
  }

  lemma NothingYet(tr: seq<ObjId>)
    ensures forall j | 0 <= j < |tr| :: SoFar(tr, 0, j) == -1
    ensures ToInt32(-1) == -1
  {
  }

  /** Which slot request `i` fills. */
  lemma Filled(tr: seq<ObjId>, i: nat, j: nat)
    requires i < |tr| && j < |tr|
    ensures SoFar(tr, i + 1, j) ==
            if j == Last(tr, i, tr[i]) && j != 0 then Reported(tr, i) else SoFar(tr, i, j)
  {
    hide Last, Next, Reported;
    SoFarStep(tr, i, j);
    if 0 < i {
      SoFarStep(tr, i - 1, j);
      assert i - 1 + 1 == i;
    }
  }
}
