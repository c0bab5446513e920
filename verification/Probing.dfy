/** Robin Hood probing (robin_hood.h) on plain sequences of info bytes and key-value pairs. */
module Probing {
  import Sets

  /** Where keys want to go: the hash, its multiplier, the number of home slots, and how many of the
      five hash bits kept in the info bytes have been given up. */
  datatype Layout<!K> = Layout(hash: (K, nat) -> nat, mult: nat, size: nat, shift: nat)

  ghost predicate Sane<K>(g: Layout<K>)
  {
    1 <= g.size && g.shift <= 4
  }

  function Shifted(x: nat, shift: nat): (r: nat)
    requires shift <= 4
    ensures r <= x
  {
    if shift == 0 then x else if shift == 1 then x / 2 else if shift == 2 then x / 4
    else if shift == 3 then x / 8 else x / 16
  }

  /** mInfoInc */
  function Inc<K>(g: Layout<K>): (inc: nat)
    requires Sane(g)
    ensures 2 <= inc <= 32
    ensures g.shift < 4 ==> inc % 2 == 0 && 4 <= inc
  {
    Shifted(32, g.shift)
  }

  function Home<K>(g: Layout<K>, k: K): (h: nat)
    requires Sane(g)
    ensures h < g.size
  {
    g.hash(k, g.mult) / 32 % g.size
  }

  /** The hash bits that break ties between keys with the same home. */
  function Frag<K>(g: Layout<K>, k: K): (f: nat)
    requires Sane(g)
    ensures f < Inc(g)
  {
    Shifted(g.hash(k, g.mult) % 32, g.shift)
  }

  /** The info value of `k` in slot `j`; also what a probe for `k` carries when it gets there. */
  function At<K>(g: Layout<K>, k: K, j: int): int
    requires Sane(g)
  {
    Inc(g) * (1 + j - Home(g, k)) + Frag(g, k)
  }

  // ---------- arithmetic of probe values ----------

  lemma Mul(a: int, x: int, y: int)
    ensures a * (x + y) == a * x + a * y
  {
  }

  lemma AtNext<K>(g: Layout<K>, k: K, j: int)
    requires Sane(g)
    ensures At(g, k, j + 1) == At(g, k, j) + Inc(g)
  {
    Mul(Inc(g), 1 + j - Home(g, k), 1);
  }

  lemma AtHome<K>(g: Layout<K>, k: K)
    requires Sane(g)
    ensures Inc(g) <= At(g, k, Home(g, k)) < 2 * Inc(g)
  {
  }

  lemma AtPast<K>(g: Layout<K>, k: K, j: int)
    requires Sane(g)
    ensures Home(g, k) <= j <==> Inc(g) <= At(g, k, j)
    ensures Home(g, k) < j <==> 2 * Inc(g) <= At(g, k, j)
  {
    var d := j - Home(g, k);
    Mul(Inc(g), 1, d);
    Times(Inc(g), d);
  }

  lemma Times(a: int, d: int)
    requires 0 < a
    ensures d >= 0 ==> a * d >= 0
    ensures d >= 1 ==> a * d >= a
    ensures d < 0 ==> a * d <= -a
  {
    if d >= 1 {
      Mul(a, d - 1, 1);
      assert a * (d - 1) >= 0;
    } else if d < 0 {
      Mul(a, d + 1, -1);
      assert a * (d + 1) <= 0;
    }
  }

  /** A byte bounds how far a key can be from home. */
  lemma AtFar<K>(g: Layout<K>, k: K, j: int)
    requires Sane(g) && At(g, k, j) <= 255
    ensures j - Home(g, k) < 127
  {
    var d := j - Home(g, k);
    if d >= 0 {
      AtLeast(Inc(g), 1 + d);
    }
  }

  lemma AtLeast(a: int, d: int)
    requires 2 <= a && 0 <= d
    ensures 2 * d <= a * d
  {
    if d > 0 {
      AtLeast(a, d - 1);
      Mul(a, d - 1, 1);
    }
  }

  // ---------- the table ----------

  type Pairs<K, V> = seq<(K, V)>

  /** A slot is empty, or its byte is the probe value of the key it holds. */
  ghost predicate SlotOk<K, V>(g: Layout<K>, info: seq<int>, kvs: Pairs<K, V>, j: int)
    requires Sane(g) && 0 <= j < |info| && j < |kvs|
  {
    0 <= info[j] <= 255 && (info[j] != 0 ==> Home(g, kvs[j].0) <= j && info[j] == At(g, kvs[j].0, j))
  }

  /** A displaced slot follows an occupied one that is at least as displaced, up to one step. */
  ghost predicate OrderOk<K>(g: Layout<K>, info: seq<int>, j: int)
    requires Sane(g) && 0 < j < |info|
  {
    2 * Inc(g) <= info[j] ==> info[j - 1] != 0 && info[j] <= info[j - 1] + Inc(g)
  }

  ghost predicate Occupied(info: seq<int>, j: int)
  {
    0 <= j < |info| && info[j] != 0
  }

  /** The first `n` slots form a Robin Hood table. */
  ghost predicate Hooded<K, V>(g: Layout<K>, info: seq<int>, kvs: Pairs<K, V>)
    requires Sane(g) && |kvs| <= |info|
  {
    && (forall j | 0 <= j < |kvs| :: SlotOk(g, info, kvs, j))
    && (forall j | 0 < j < |kvs| :: OrderOk(g, info, j))
  }

  ghost predicate Unique<K, V>(info: seq<int>, kvs: Pairs<K, V>)
    requires |kvs| <= |info|
  {
    forall i, j | 0 <= i < j < |kvs| && Occupied(info, i) && Occupied(info, j) :: kvs[i].0 != kvs[j].0
  }

  ghost predicate KeyAt<K, V>(info: seq<int>, kvs: Pairs<K, V>, k: K, j: int)
  {
    0 <= j < |kvs| && Occupied(info, j) && kvs[j].0 == k
  }

  /** The occupied slots hold exactly the map `m`. */
  ghost predicate Holds<K(!new), V>(info: seq<int>, kvs: Pairs<K, V>, m: map<K, V>)
    requires |kvs| <= |info|
  {
    && (forall j | 0 <= j < |kvs| && Occupied(info, j) :: kvs[j].0 in m && m[kvs[j].0] == kvs[j].1)
    && (forall k | k in m :: exists j :: KeyAt(info, kvs, k, j))
  }

  /** Between its home and its slot, a key is preceded by keys that are at least as displaced: the
      probe for it gets there. */
  lemma {:induction false} Reach<K, V>(g: Layout<K>, info: seq<int>, kvs: Pairs<K, V>, k: K, s: int, i: int)
    requires Sane(g) && |kvs| <= |info| && Hooded(g, info, kvs) && KeyAt(info, kvs, k, s)
    requires Home(g, k) <= i <= s
    ensures Occupied(info, i) && At(g, k, i) <= info[i]
    decreases s - i
  {
    hide At, Home;
    assert SlotOk(g, info, kvs, s);
    if i < s {
      Reach(g, info, kvs, k, s, i + 1);
      AtNext(g, k, i);
      AtPast(g, k, i + 1);
      assert OrderOk(g, info, i + 1);
    }
  }

  /** What a probe that stops at `idx` has shown about `k`. */
  lemma Absent<K, V>(g: Layout<K>, info: seq<int>, kvs: Pairs<K, V>, k: K, idx: int)
    requires Sane(g) && |kvs| <= |info| && Hooded(g, info, kvs)
    requires Home(g, k) <= idx < |info| && info[idx] < At(g, k, idx)
    requires forall i | Home(g, k) <= i < idx :: !KeyAt(info, kvs, k, i)
    ensures forall s :: !KeyAt(info, kvs, k, s)
  {
    hide At, Home;
    forall s
      ensures !KeyAt(info, kvs, k, s)
    {
      if KeyAt(info, kvs, k, s) {
        assert SlotOk(g, info, kvs, s);
        if idx <= s {
          Reach(g, info, kvs, k, s, idx);
        }
      }
    }
  }

  // ---------- insertion: everything from `ins` to the empty slot `e` moves up ----------

  ghost predicate InsertedAt<K, V>(g: Layout<K>, info: seq<int>, kvs: Pairs<K, V>, info': seq<int>, kvs': Pairs<K, V>,
                                   ins: int, e: int, k: K, v: V, j: int)
    requires Sane(g) && |info'| == |info| && |kvs'| == |kvs| <= |info| && 0 <= j < |kvs| && 0 <= ins
  {
    && (j < ins || e < j ==> info'[j] == info[j] && kvs'[j] == kvs[j])
    && (j == ins ==> info'[j] == At(g, k, ins) && kvs'[j] == (k, v))
    && (ins < j <= e ==> info'[j] == info[j - 1] + Inc(g) && kvs'[j] == kvs[j - 1])
  }

  ghost predicate Inserted<K, V>(g: Layout<K>, info: seq<int>, kvs: Pairs<K, V>, info': seq<int>, kvs': Pairs<K, V>,
                                 ins: int, e: int, k: K, v: V)
  {
    && Sane(g) && |info'| == |info| && |kvs'| == |kvs| <= |info| && 0 <= ins <= e < |kvs|
    && (forall j | |kvs| <= j < |info| :: info'[j] == info[j])
    && (forall j | 0 <= j < |kvs| :: InsertedAt(g, info, kvs, info', kvs', ins, e, k, v, j))
  }

  lemma MovedUp<K, V>(g: Layout<K>, info: seq<int>, kvs: Pairs<K, V>, info': seq<int>, kvs': Pairs<K, V>,
                      ins: int, e: int, k: K, v: V)
    requires Sane(g) && |info'| == |info| && |kvs'| == |kvs| <= |info| && 0 <= ins <= e < |kvs|
    requires forall j | 0 <= j < |info| && (j < ins || e < j) :: info'[j] == info[j]
    requires forall j | 0 <= j < |kvs| && (j < ins || e < j) :: kvs'[j] == kvs[j]
    requires info'[ins] == At(g, k, ins) && kvs'[ins] == (k, v)
    requires forall j | ins < j <= e :: info'[j] == info[j - 1] + Inc(g) && kvs'[j] == kvs[j - 1]
    ensures Inserted(g, info, kvs, info', kvs', ins, e, k, v)
  {
    hide At, Inc;
  }

  /** A probe for `k` stopped at `ins`, and the next empty slot is `e`. */
  ghost predicate InsertionPoint<K, V>(g: Layout<K>, info: seq<int>, kvs: Pairs<K, V>, ins: int, e: int, k: K)
  {
    && Sane(g) && |kvs| <= |info| && Hooded(g, info, kvs)
    && Home(g, k) <= ins <= e < |kvs|
    && info[ins] < At(g, k, ins) && (Home(g, k) < ins ==> At(g, k, ins - 1) <= info[ins - 1])
    && info[e] == 0 && (forall j | ins <= j < e :: Occupied(info, j))
  }

  ghost predicate RoomToGrow<K>(g: Layout<K>, info: seq<int>, n: int)
    requires Sane(g) && n <= |info|
  {
    forall j | 0 <= j < n :: info[j] + Inc(g) <= 255
  }

  lemma OccupiedAtLeast<K, V>(g: Layout<K>, info: seq<int>, kvs: Pairs<K, V>, j: int)
    requires Sane(g) && |kvs| <= |info| && Hooded(g, info, kvs) && 0 <= j < |kvs|
    ensures info[j] == 0 || Inc(g) <= info[j]
    ensures info[j] != 0 ==> info[j] + Inc(g) == At(g, kvs[j].0, j + 1)
  {
    assert SlotOk(g, info, kvs, j);
    if info[j] != 0 {
      AtPast(g, kvs[j].0, j);
      AtNext(g, kvs[j].0, j);
    }
  }

  lemma InsertSlot<K, V>(g: Layout<K>, info: seq<int>, kvs: Pairs<K, V>, info': seq<int>, kvs': Pairs<K, V>,
                         ins: int, e: int, k: K, v: V, j: int)
    requires InsertionPoint(g, info, kvs, ins, e, k) && Inserted(g, info, kvs, info', kvs', ins, e, k, v)
    requires RoomToGrow(g, info, |kvs|) && 0 <= j < |kvs|
    ensures SlotOk(g, info', kvs', j)
  {
    hide At, Home, Hooded;
    assert InsertedAt(g, info, kvs, info', kvs', ins, e, k, v, j);
    SlotFacts(g, info, kvs, j);
    if j == ins {
      AtHome(g, k);
      if Home(g, k) < ins {
        AtNext(g, k, ins - 1);
      }
      AtPast(g, k, ins);
    } else if ins < j <= e {
      SlotFacts(g, info, kvs, j - 1);
      OccupiedAtLeast(g, info, kvs, j - 1);
      assert Occupied(info, j - 1);
    }
  }

  lemma SlotFacts<K, V>(g: Layout<K>, info: seq<int>, kvs: Pairs<K, V>, j: int)
    requires Sane(g) && |kvs| <= |info| && Hooded(g, info, kvs) && 0 <= j < |kvs|
    ensures SlotOk(g, info, kvs, j)
    ensures j > 0 ==> OrderOk(g, info, j)
  {
  }

  lemma InsertOrder<K, V>(g: Layout<K>, info: seq<int>, kvs: Pairs<K, V>, info': seq<int>, kvs': Pairs<K, V>,
                          ins: int, e: int, k: K, v: V, j: int)
    requires InsertionPoint(g, info, kvs, ins, e, k) && Inserted(g, info, kvs, info', kvs', ins, e, k, v)
    requires 0 < j < |kvs|
    ensures OrderOk(g, info', j)
  {
    hide At, Home, Hooded;
    assert InsertedAt(g, info, kvs, info', kvs', ins, e, k, v, j);
    assert InsertedAt(g, info, kvs, info', kvs', ins, e, k, v, j - 1);
    SlotFacts(g, info, kvs, j);
    OccupiedAtLeast(g, info, kvs, j - 1);
    AtPast(g, k, ins);
    if j == ins {
      if Home(g, k) < ins {
        AtNext(g, k, ins - 1);
        AtPast(g, k, ins - 1);
      }
    } else if ins < j <= e {
      assert Occupied(info, j - 1);
      if ins < j - 1 {
        SlotFacts(g, info, kvs, j - 1);
        OccupiedAtLeast(g, info, kvs, j - 2);
        assert Occupied(info, j - 2);
      }
    }
  }

  lemma InsertHooded<K, V>(g: Layout<K>, info: seq<int>, kvs: Pairs<K, V>, info': seq<int>, kvs': Pairs<K, V>,
                           ins: int, e: int, k: K, v: V)
    requires InsertionPoint(g, info, kvs, ins, e, k) && Inserted(g, info, kvs, info', kvs', ins, e, k, v)
    requires RoomToGrow(g, info, |kvs|)
    ensures Hooded(g, info', kvs')
  {
    forall j | 0 <= j < |kvs|
      ensures SlotOk(g, info', kvs', j)
    {
      InsertSlot(g, info, kvs, info', kvs', ins, e, k, v, j);
    }
    forall j | 0 < j < |kvs|
      ensures OrderOk(g, info', j)
    {
      InsertOrder(g, info, kvs, info', kvs', ins, e, k, v, j);
    }
  }

  /** Where the pair of slot `j` comes from; the new pair has no origin. */
  function Origin(ins: int, e: int, j: int): int
  {
    if ins < j <= e then j - 1 else j
  }

  lemma InsertUnique<K, V>(g: Layout<K>, info: seq<int>, kvs: Pairs<K, V>, info': seq<int>, kvs': Pairs<K, V>,
                           ins: int, e: int, k: K, v: V)
    requires InsertionPoint(g, info, kvs, ins, e, k) && Inserted(g, info, kvs, info', kvs', ins, e, k, v)
    requires Unique(info, kvs) && forall s :: !KeyAt(info, kvs, k, s)
    ensures Unique(info', kvs')
  {
    hide At, Home, Hooded;
    forall i, j | 0 <= i < j < |kvs| && Occupied(info', i) && Occupied(info', j)
      ensures kvs'[i].0 != kvs'[j].0
    {
      assert InsertedAt(g, info, kvs, info', kvs', ins, e, k, v, i);
      assert InsertedAt(g, info, kvs, info', kvs', ins, e, k, v, j);
      var a, b := Origin(ins, e, i), Origin(ins, e, j);
      assert i != ins ==> Occupied(info, a) && kvs[a] == kvs'[i];
      assert j != ins ==> Occupied(info, b) && kvs[b] == kvs'[j];
      assert !KeyAt(info, kvs, k, a) && !KeyAt(info, kvs, k, b);
    }
  }

  lemma InsertHolds<K(!new), V>(g: Layout<K>, info: seq<int>, kvs: Pairs<K, V>, info': seq<int>, kvs': Pairs<K, V>,
                                ins: int, e: int, k: K, v: V, m: map<K, V>)
    requires InsertionPoint(g, info, kvs, ins, e, k) && Inserted(g, info, kvs, info', kvs', ins, e, k, v)
    requires Holds(info, kvs, m) && k !in m
    ensures Holds(info', kvs', m[k := v])
  {
    hide At, Home, Hooded;
    forall j | 0 <= j < |kvs| && Occupied(info', j)
      ensures kvs'[j].0 in m[k := v] && m[k := v][kvs'[j].0] == kvs'[j].1
    {
      assert InsertedAt(g, info, kvs, info', kvs', ins, e, k, v, j);
      assert j != ins ==> Occupied(info, Origin(ins, e, j));
    }
    var m' := m[k := v];
    forall x | x in m'
      ensures exists j :: KeyAt(info', kvs', x, j)
    {
      AtAbove(g, info, kvs, info', kvs', ins, e, k, v);
      if x == k {
        assert KeyAt(info', kvs', x, ins);
      } else {
        var j :| KeyAt(info, kvs, x, j);
        var j' := if ins <= j < e then j + 1 else j;
        assert InsertedAt(g, info, kvs, info', kvs', ins, e, k, v, j');
        assert KeyAt(info', kvs', x, j');
      }
    }
  }

  lemma AtAbove<K, V>(g: Layout<K>, info: seq<int>, kvs: Pairs<K, V>, info': seq<int>, kvs': Pairs<K, V>,
                      ins: int, e: int, k: K, v: V)
    requires InsertionPoint(g, info, kvs, ins, e, k) && Inserted(g, info, kvs, info', kvs', ins, e, k, v)
    ensures info'[ins] != 0 && kvs'[ins] == (k, v)
    ensures forall j | ins < j <= e :: info'[j] != 0
  {
    hide At, Home;
    assert InsertedAt(g, info, kvs, info', kvs', ins, e, k, v, ins);
    AtPast(g, k, ins);
    forall j | ins < j <= e
      ensures info'[j] != 0
    {
      assert InsertedAt(g, info, kvs, info', kvs', ins, e, k, v, j);
      SlotFacts(g, info, kvs, j - 1);
    }
  }

  // ---------- erasure: everything displaced after `f`, up to `t`, moves down ----------

  ghost predicate ErasedAt<K, V>(g: Layout<K>, info: seq<int>, kvs: Pairs<K, V>, info': seq<int>, kvs': Pairs<K, V>,
                                 f: int, t: int, j: int)
    requires Sane(g) && |info'| == |info| && |kvs'| == |kvs| < |info| && 0 <= j < |kvs|
  {
    && (j < f || t < j ==> info'[j] == info[j] && kvs'[j] == kvs[j])
    && (f <= j < t && j + 1 < |kvs| ==> info'[j] == info[j + 1] - Inc(g) && kvs'[j] == kvs[j + 1])
    && (j == t ==> info'[j] == 0)
  }

  ghost predicate Erased<K, V>(g: Layout<K>, info: seq<int>, kvs: Pairs<K, V>, info': seq<int>, kvs': Pairs<K, V>,
                               f: int, t: int)
  {
    && Sane(g) && |info'| == |info| && |kvs'| == |kvs| < |info| && 0 <= f <= t < |kvs|
    && (forall j | f < j <= t :: 2 * Inc(g) <= info[j])
    && (t + 1 < |kvs| ==> info[t + 1] < 2 * Inc(g))
    && (forall j | |kvs| <= j < |info| :: info'[j] == info[j])
    && (forall j | 0 <= j < |kvs| :: ErasedAt(g, info, kvs, info', kvs', f, t, j))
  }

  lemma MovedDown<K, V>(g: Layout<K>, info: seq<int>, kvs: Pairs<K, V>, info': seq<int>, kvs': Pairs<K, V>,
                        f: int, t: int)
    requires Sane(g) && |info'| == |info| && |kvs'| == |kvs| < |info| && 0 <= f <= t < |kvs|
    requires forall j | f < j <= t :: 2 * Inc(g) <= info[j]
    requires info[t + 1] < 2 * Inc(g)
    requires forall j | 0 <= j < |info| && (j < f || t < j) :: info'[j] == info[j]
    requires forall j | 0 <= j < |kvs| && (j < f || t < j) :: kvs'[j] == kvs[j]
    requires forall j | f <= j < t :: info'[j] == info[j + 1] - Inc(g) && kvs'[j] == kvs[j + 1]
    requires info'[t] == 0
    ensures Erased(g, info, kvs, info', kvs', f, t)
  {
    hide Inc;
  }

  lemma EraseHooded<K, V>(g: Layout<K>, info: seq<int>, kvs: Pairs<K, V>, info': seq<int>, kvs': Pairs<K, V>,
                          f: int, t: int)
    requires Erased(g, info, kvs, info', kvs', f, t) && Hooded(g, info, kvs) && info[f] != 0
    ensures Hooded(g, info', kvs')
  {
    hide Hooded;
    forall j | 0 <= j < |kvs|
      ensures SlotOk(g, info', kvs', j)
    {
      EraseSlot(g, info, kvs, info', kvs', f, t, j);
    }
    forall j | 0 < j < |kvs|
      ensures OrderOk(g, info', j)
    {
      EraseOrder(g, info, kvs, info', kvs', f, t, j);
    }
    HoodedIs(g, info', kvs');
  }

  lemma HoodedIs<K, V>(g: Layout<K>, info: seq<int>, kvs: Pairs<K, V>)
    requires Sane(g) && |kvs| <= |info|
    requires forall j | 0 <= j < |kvs| :: SlotOk(g, info, kvs, j)
    requires forall j | 0 < j < |kvs| :: OrderOk(g, info, j)
    ensures Hooded(g, info, kvs)
  {
  }

  lemma EraseSlot<K, V>(g: Layout<K>, info: seq<int>, kvs: Pairs<K, V>, info': seq<int>, kvs': Pairs<K, V>,
                        f: int, t: int, j: int)
    requires Erased(g, info, kvs, info', kvs', f, t) && Hooded(g, info, kvs) && 0 <= j < |kvs|
    ensures SlotOk(g, info', kvs', j)
  {
    hide At, Home, Hooded;
    assert ErasedAt(g, info, kvs, info', kvs', f, t, j);
    SlotFacts(g, info, kvs, j);
    if f <= j < t {
      SlotFacts(g, info, kvs, j + 1);
      AtNext(g, kvs[j + 1].0, j);
      AtPast(g, kvs[j + 1].0, j + 1);
    }
  }

  lemma EraseOrder<K, V>(g: Layout<K>, info: seq<int>, kvs: Pairs<K, V>, info': seq<int>, kvs': Pairs<K, V>,
                         f: int, t: int, j: int)
    requires Erased(g, info, kvs, info', kvs', f, t) && Hooded(g, info, kvs) && 0 < j < |kvs|
    ensures OrderOk(g, info', j)
  {
    hide At, Home, Hooded;
    assert ErasedAt(g, info, kvs, info', kvs', f, t, j);
    assert ErasedAt(g, info, kvs, info', kvs', f, t, j - 1);
    SlotFacts(g, info, kvs, j);
    SlotFacts(g, info, kvs, j - 1);
    OccupiedAtLeast(g, info, kvs, j - 1);
    if f <= j < t {
      SlotFacts(g, info, kvs, j + 1);
    }
  }

  /** Where the pair of slot `j` comes from after an erasure. */
  lemma EraseOrigin<K, V>(g: Layout<K>, info: seq<int>, kvs: Pairs<K, V>, info': seq<int>, kvs': Pairs<K, V>,
                          f: int, t: int, j: int)
    requires Erased(g, info, kvs, info', kvs', f, t) && Hooded(g, info, kvs) && info[f] != 0 && 0 <= j < |kvs|
    ensures Occupied(info', j) ==>
              var i := if f <= j < t then j + 1 else j; i != f && Occupied(info, i) && kvs'[j] == kvs[i]
    ensures Occupied(info, j) && j != f ==>
              var i := if f < j <= t then j - 1 else j; Occupied(info', i) && kvs'[i] == kvs[j]
  {
    assert ErasedAt(g, info, kvs, info', kvs', f, t, j);
    if f < j <= t {
      assert ErasedAt(g, info, kvs, info', kvs', f, t, j - 1);
    }
  }

  lemma EraseUnique<K, V>(g: Layout<K>, info: seq<int>, kvs: Pairs<K, V>, info': seq<int>, kvs': Pairs<K, V>,
                          f: int, t: int)
    requires Erased(g, info, kvs, info', kvs', f, t) && Hooded(g, info, kvs) && info[f] != 0 && Unique(info, kvs)
    ensures Unique(info', kvs')
  {
    forall i, j | 0 <= i < j < |kvs| && Occupied(info', i) && Occupied(info', j)
      ensures kvs'[i].0 != kvs'[j].0
    {
      EraseOrigin(g, info, kvs, info', kvs', f, t, i);
      EraseOrigin(g, info, kvs, info', kvs', f, t, j);
      assert info'[t] == 0 by {
        assert ErasedAt(g, info, kvs, info', kvs', f, t, t);
      }
      var a, b := if f <= i < t then i + 1 else i, if f <= j < t then j + 1 else j;
      assert a < b && Occupied(info, a) && Occupied(info, b);
    }
  }

  lemma EraseHolds<K(!new), V>(g: Layout<K>, info: seq<int>, kvs: Pairs<K, V>, info': seq<int>, kvs': Pairs<K, V>,
                               f: int, t: int, m: map<K, V>)
    requires Erased(g, info, kvs, info', kvs', f, t) && Hooded(g, info, kvs) && info[f] != 0
    requires Unique(info, kvs) && Holds(info, kvs, m)
    ensures Holds(info', kvs', m - {kvs[f].0}) && kvs[f].0 in m
  {
    hide Hooded;
    var m' := m - {kvs[f].0};
    assert Occupied(info, f);
    forall j | 0 <= j < |kvs| && Occupied(info', j)
      ensures kvs'[j].0 in m' && m'[kvs'[j].0] == kvs'[j].1
    {
      EraseOrigin(g, info, kvs, info', kvs', f, t, j);
      var i := if f <= j < t then j + 1 else j;
      assert Occupied(info, i) && kvs[i].0 != kvs[f].0;
    }
    forall x | x in m'
      ensures exists j :: KeyAt(info', kvs', x, j)
    {
      var j :| KeyAt(info, kvs, x, j);
      EraseOrigin(g, info, kvs, info', kvs', f, t, j);
      assert KeyAt(info', kvs', x, if f < j <= t then j - 1 else j);
    }
  }

  // ---------- halving the info bytes ----------

  function Halved<K>(g: Layout<K>): Layout<K>
  {
    g.(shift := g.shift + 1)
  }

  lemma AtHalved<K>(g: Layout<K>, k: K, j: int)
    requires Sane(g) && g.shift < 4
    ensures Home(Halved(g), k) == Home(g, k) && 2 * Inc(Halved(g)) == Inc(g)
    ensures Home(g, k) <= j ==> At(Halved(g), k, j) == At(g, k, j) / 2
  {
    var f, d := g.hash(k, g.mult) % 32, 1 + j - Home(g, k);
    assert Shifted(f, g.shift + 1) == Shifted(f, g.shift) / 2;
    Mul(d, Inc(Halved(g)), Inc(Halved(g)));
    assert At(g, k, j) == 2 * (Inc(Halved(g)) * d) + Frag(g, k);
  }

  /** Halving every byte, with one hash bit less, is again a Robin Hood table of the same pairs. */
  lemma HalveHooded<K, V>(g: Layout<K>, info: seq<int>, kvs: Pairs<K, V>, info': seq<int>)
    requires Sane(g) && g.shift < 4 && |kvs| <= |info| == |info'| && Hooded(g, info, kvs)
    requires forall j | 0 <= j < |kvs| :: info'[j] == info[j] / 2
    ensures Hooded(Halved(g), info', kvs) && RoomToGrow(Halved(g), info', |kvs|)
    ensures forall j | 0 <= j < |kvs| :: Occupied(info', j) <==> Occupied(info, j)
  {
    hide At, Home, Hooded;
    forall j | 0 <= j < |kvs|
      ensures SlotOk(Halved(g), info', kvs, j) && info'[j] + Inc(Halved(g)) <= 255
      ensures Occupied(info', j) <==> Occupied(info, j)
      ensures j > 0 ==> OrderOk(Halved(g), info', j)
    {
      SlotFacts(g, info, kvs, j);
      OccupiedAtLeast(g, info, kvs, j);
      AtHalved(g, kvs[j].0, j);
      if j > 0 {
        OccupiedAtLeast(g, info, kvs, j - 1);
      }
    }
    HoodedIs(Halved(g), info', kvs);
  }

  // ---------- counting: there is always an empty slot before the buffer ends ----------

  lemma {:induction false} KeysOfRun<K(!new), V>(info: seq<int>, kvs: Pairs<K, V>, m: map<K, V>, a: int, b: int)
    returns (keys: set<K>)
    requires |kvs| <= |info| && Unique(info, kvs) && Holds(info, kvs, m) && 0 <= a <= b <= |kvs|
    requires forall j | a <= j < b :: Occupied(info, j)
    ensures |keys| == b - a && keys <= m.Keys
    ensures forall k | k in keys :: exists j | a <= j < b :: kvs[j].0 == k
    decreases b - a
  {
    if a == b {
      keys := {};
    } else {
      var rest := KeysOfRun(info, kvs, m, a, b - 1);
      assert Occupied(info, b - 1);
      keys := rest + {kvs[b - 1].0};
      forall k | k in rest
        ensures k != kvs[b - 1].0
      {
        var j :| a <= j < b - 1 && kvs[j].0 == k;
        assert Occupied(info, j);
      }
    }
  }

  lemma RunWithin<K(!new), V>(info: seq<int>, kvs: Pairs<K, V>, m: map<K, V>, a: int, b: int)
    requires |kvs| <= |info| && Unique(info, kvs) && Holds(info, kvs, m) && 0 <= a <= b <= |kvs|
    requires forall j | a <= j < b :: Occupied(info, j)
    ensures b - a <= |m|
  {
    var keys := KeysOfRun(info, kvs, m, a, b);
    Sets.Subset(keys, m.Keys);
  }

  /** A run of occupied slots from the last home slot cannot reach the end of the buffer: either the
      table would hold more keys than allowed or the last byte would overflow. */
  lemma BufferNeverFull<K(!new), V>(g: Layout<K>, info: seq<int>, kvs: Pairs<K, V>, m: map<K, V>, allowed: nat)
    requires Sane(g) && |kvs| <= |info| && Hooded(g, info, kvs) && Unique(info, kvs) && Holds(info, kvs, m)
    requires |kvs| == g.size + (if allowed < 255 then allowed else 255) && 1 <= allowed && |m| <= allowed
    ensures exists j :: g.size - 1 <= j < |kvs| && info[j] == 0
  {
    if forall j | g.size - 1 <= j < |kvs| :: info[j] != 0 {
      hide At, Home, Hooded;
      forall j | g.size - 1 <= j < |kvs|
        ensures Occupied(info, j)
      {
      }
      RunWithin(info, kvs, m, g.size - 1, |kvs|);
      var last := |kvs| - 1;
      assert Occupied(info, last);
      SlotFacts(g, info, kvs, last);
      AtFar(g, kvs[last].0, last);
      assert false;
    }
  }

  /** At most `b - a` keys fit into the slots `a` to `b`. */
  lemma {:induction false} FewKeys<K, V>(kvs: Pairs<K, V>, keys: set<K>, a: int, b: int)
    requires 0 <= a <= b <= |kvs| && forall k | k in keys :: exists j :: a <= j < b && kvs[j].0 == k
    ensures |keys| <= b - a
    decreases b - a
  {
    if a < b {
      var rest := keys - {kvs[b - 1].0};
      FewKeys(kvs, rest, a, b - 1);
      Sets.Subset(keys, rest + {kvs[b - 1].0});
    } else {
      assert keys == {};
    }
  }

  // ---------- whole tables ----------

  /** A table with its sentinel and padding that holds the map `m`. */
  ghost predicate TableOk<K(!new), V>(g: Layout<K>, info: seq<int>, kvs: Pairs<K, V>, m: map<K, V>)
  {
    && Sane(g) && |info| == |kvs| + 8
    && (forall j | |kvs| <= j < |info| :: 0 <= info[j] <= 1)
    && Hooded(g, info, kvs) && Unique(info, kvs) && Holds(info, kvs, m)
  }

  /** Some byte has no room for one more step. */
  ghost predicate Crowded(info: seq<int>, n: int, inc: int)
  {
    exists j :: 0 <= j < n && j < |info| && info[j] + inc > 255
  }

  /** With no hash bit left to give up, a crowded byte means a run of at least 127 pairs. */
  lemma CrowdedMany<K(!new), V>(g: Layout<K>, info: seq<int>, kvs: Pairs<K, V>, m: map<K, V>)
    requires TableOk(g, info, kvs, m) && Inc(g) == 2 && Crowded(info, |kvs|, 2)
    ensures 127 <= |m|
  {
    hide At, Home, Hooded, Holds, Unique;
    var j :| 0 <= j < |kvs| && info[j] + 2 > 255;
    SlotFacts(g, info, kvs, j);
    var k := kvs[j].0;
    FarFromHome(g, k, j);
    forall i | Home(g, k) <= i <= j
      ensures Occupied(info, i)
    {
      Reach(g, info, kvs, k, j, i);
    }
    RunWithin(info, kvs, m, Home(g, k), j + 1);
  }

  lemma FarFromHome<K>(g: Layout<K>, k: K, j: int)
    requires Sane(g) && Inc(g) == 2 && 254 <= At(g, k, j)
    ensures 126 <= j - Home(g, k)
  {
  }

  /** All keys of `m` have the same home. */
  ghost predicate SameHome<K(!new), V>(g: Layout<K>, m: map<K, V>)
    requires Sane(g)
  {
    forall k, k' | k in m && k' in m :: Home(g, k) == Home(g, k')
  }

  /** Not more than 127 pairs with the same home fit into a table. */
  lemma SameHomeFew<K(!new), V>(g: Layout<K>, info: seq<int>, kvs: Pairs<K, V>, m: map<K, V>)
    requires TableOk(g, info, kvs, m) && SameHome(g, m)
    ensures |m| <= 127
  {
    if k :| k in m {
      hide At, Home, Hooded, Unique;
      var h := Home(g, k);
      var last := if h + 127 <= |kvs| then h + 127 else |kvs|;
      forall x | x in m
        ensures exists j :: h <= j < last && kvs[j].0 == x
      {
        var j :| KeyAt(info, kvs, x, j);
        SlotFacts(g, info, kvs, j);
        AtFar(g, x, j);
      }
      if |kvs| < h {
        assert false;
      }
      FewKeys(kvs, m.Keys, h, last);
    }
  }

  // ---------- jams ----------

  /** The keys of `m` with homes from `a` to `b`. */
  ghost function HomesIn<K, V>(g: Layout<K>, m: map<K, V>, a: int, b: int): set<K>
    requires Sane(g)
  {
    set k | k in m && a <= Home(g, k) <= b
  }

  /** Some stretch of homes has 126 more keys than homes: probes along it get too long for a byte, even when no hash
      bit is kept. */
  ghost predicate Jam<K, V>(g: Layout<K>, m: map<K, V>)
    requires Sane(g)
  {
    exists a, b :: a <= b && |HomesIn(g, m, a, b)| >= b - a + 127
  }

  /** Homes do not depend on how many hash bits have been given up. */
  lemma JamAnyShift<K, V>(g: Layout<K>, g': Layout<K>, m: map<K, V>)
    requires Sane(g) && Sane(g') && g'.hash == g.hash && g'.mult == g.mult && g'.size == g.size
    ensures Jam(g, m) <==> Jam(g', m)
  {
    assert forall a, b :: HomesIn(g, m, a, b) == HomesIn(g', m, a, b);
  }

  /** A jam does not go away when there are more pairs. */
  lemma JamGrows<K(!new), V>(g: Layout<K>, part: map<K, V>, m: map<K, V>)
    requires Sane(g) && Jam(g, part) && forall k | k in part :: k in m
    ensures Jam(g, m)
  {
    var a, b :| a <= b && |HomesIn(g, part, a, b)| >= b - a + 127;
    Sets.Subset(HomesIn(g, part, a, b), HomesIn(g, m, a, b));
  }

  /** It takes 127 pairs. */
  lemma JamMany<K(!new), V>(g: Layout<K>, m: map<K, V>)
    requires Sane(g) && Jam(g, m)
    ensures 127 <= |m|
  {
    var a, b :| a <= b && |HomesIn(g, m, a, b)| >= b - a + 127;
    Sets.Subset(HomesIn(g, m, a, b), m.Keys);
  }

  /** Where every byte has room for one more step there is no jam. */
  lemma RoomNoJam<K(!new), V>(g: Layout<K>, info: seq<int>, kvs: Pairs<K, V>, m: map<K, V>)
    requires TableOk(g, info, kvs, m) && RoomToGrow(g, info, |kvs|)
    ensures !Jam(g, m)
  {
    hide HomesIn;
    forall a, b | a <= b
      ensures |HomesIn(g, m, a, b)| < b - a + 127
    {
      RoomForHomes(g, info, kvs, m, a, b);
    }
  }

  lemma RoomForHomes<K(!new), V>(g: Layout<K>, info: seq<int>, kvs: Pairs<K, V>, m: map<K, V>, a: int, b: int)
    requires TableOk(g, info, kvs, m) && RoomToGrow(g, info, |kvs|) && a <= b
    ensures |HomesIn(g, m, a, b)| <= b - a + 126
  {
    var keys := HomesIn(g, m, a, b);
    if k :| k in keys {
      hide At, Home, Hooded, Unique;
      var first := if a < 0 then 0 else a;
      var last := if b + 126 < |kvs| then b + 126 else |kvs|;
      forall x | x in keys
        ensures exists j :: first <= j < last && kvs[j].0 == x
      {
        var j :| KeyAt(info, kvs, x, j);
        SlotFacts(g, info, kvs, j);
        AtNext(g, x, j);
        AtFar(g, x, j + 1);
      }
      var j :| first <= j < last && kvs[j].0 == k;
      FewKeys(kvs, keys, first, last);
    }
  }

  /** Where another hash bit can be given up there is no jam either. */
  lemma BitsNoJam<K(!new), V>(g: Layout<K>, info: seq<int>, kvs: Pairs<K, V>, m: map<K, V>)
    requires TableOk(g, info, kvs, m) && g.shift < 4
    ensures !Jam(g, m)
  {
    var info' := seq(|info|, j requires 0 <= j < |info| => if j < |kvs| then info[j] / 2 else info[j]);
    HalvedTable(g, info, kvs, info', m);
    RoomNoJam(Halved(g), info', kvs, m);
    JamAnyShift(g, Halved(g), m);
  }

  /** The slots from `s` to `j` are a run: the first is at home, the others are displaced. */
  ghost predicate RunFrom<K, V>(g: Layout<K>, info: seq<int>, kvs: Pairs<K, V>, s: int, j: int)
    requires Sane(g)
  {
    && 0 <= s <= j < |kvs| <= |info| && Occupied(info, s) && Home(g, kvs[s].0) == s
    && forall i | s < i <= j :: 2 * Inc(g) <= info[i]
  }

  /** Every occupied slot ends a run. */
  lemma {:induction false} RunBack<K, V>(g: Layout<K>, info: seq<int>, kvs: Pairs<K, V>, j: int) returns (s: int)
    requires Sane(g) && |kvs| <= |info| && Hooded(g, info, kvs) && 0 <= j < |kvs| && Occupied(info, j)
    ensures RunFrom(g, info, kvs, s, j)
    decreases j
  {
    hide At, Home, Hooded;
    SlotFacts(g, info, kvs, j);
    AtPast(g, kvs[j].0, j);
    if info[j] < 2 * Inc(g) {
      s := j;
    } else {
      s := RunBack(g, info, kvs, j - 1);
    }
  }

  /** Along a run homes ascend. */
  lemma {:induction false} HomesAscend<K, V>(g: Layout<K>, info: seq<int>, kvs: Pairs<K, V>, s: int, i: int, j: int)
    requires Sane(g) && |kvs| <= |info| && Hooded(g, info, kvs) && RunFrom(g, info, kvs, s, j) && s <= i <= j
    ensures Occupied(info, i) && s <= Home(g, kvs[i].0) <= Home(g, kvs[j].0)
    decreases j - s
  {
    hide At, Home, Hooded;
    if i < j {
      HomesAscend(g, info, kvs, s, i, j - 1);
      NoEarlier(g, info, kvs, j);
    } else if s < j {
      HomesAscend(g, info, kvs, s, j - 1, j - 1);
      NoEarlier(g, info, kvs, j);
    }
  }

  lemma NoEarlier<K, V>(g: Layout<K>, info: seq<int>, kvs: Pairs<K, V>, j: int)
    requires Sane(g) && |kvs| <= |info| && Hooded(g, info, kvs) && 0 < j < |kvs| && 2 * Inc(g) <= info[j]
    ensures Occupied(info, j) && Occupied(info, j - 1) && Home(g, kvs[j - 1].0) <= Home(g, kvs[j].0)
  {
    hide Hooded;
    SlotFacts(g, info, kvs, j);
    SlotFacts(g, info, kvs, j - 1);
    hide At, Home;
    AtNext(g, kvs[j - 1].0, j - 1);
    Compared(g, kvs[j - 1].0, kvs[j].0, j);
  }

  lemma Compared<K>(g: Layout<K>, k: K, k': K, j: int)
    requires Sane(g) && At(g, k', j) <= At(g, k, j)
    ensures Home(g, k) <= Home(g, k')
  {
    var d := Home(g, k) - Home(g, k');
    Mul(Inc(g), 1 + j - Home(g, k), d);
    Times(Inc(g), d);
  }

  /** With no hash bit left to give up, a crowded byte means a jam. */
  lemma CrowdedJam<K(!new), V>(g: Layout<K>, info: seq<int>, kvs: Pairs<K, V>, m: map<K, V>)
    requires TableOk(g, info, kvs, m) && Inc(g) == 2 && Crowded(info, |kvs|, 2)
    ensures Jam(g, m)
  {
    hide At, Home, Hooded, Unique, Holds;
    var j :| 0 <= j < |kvs| && info[j] + 2 > 255;
    SlotFacts(g, info, kvs, j);
    var b := Home(g, kvs[j].0);
    FarFromHome(g, kvs[j].0, j);
    var s := RunBack(g, info, kvs, j);
    forall i | s <= i < j + 1
      ensures Occupied(info, i) && s <= Home(g, kvs[i].0) <= b
    {
      HomesAscend(g, info, kvs, s, i, j);
    }
    var keys := KeysOfRun(info, kvs, m, s, j + 1);
    assert keys <= HomesIn(g, m, s, b);
    Sets.Subset(keys, HomesIn(g, m, s, b));
  }

  /** Keys with homes of their own are at home. */
  lemma {:induction false} AllAtHome<K(!new), V>(g: Layout<K>, info: seq<int>, kvs: Pairs<K, V>, m: map<K, V>, j: int)
    requires TableOk(g, info, kvs, m) && forall k, k' | k in m && k' in m && Home(g, k) == Home(g, k') :: k == k'
    requires 0 <= j < |kvs|
    ensures info[j] < 2 * Inc(g)
  {
    hide At, Home, Hooded;
    SlotFacts(g, info, kvs, j);
    if info[j] != 0 {
      AtPast(g, kvs[j].0, j);
      if j > 0 && Home(g, kvs[j].0) < j {
        assert Occupied(info, j) && Occupied(info, j - 1);
        AllAtHome(g, info, kvs, m, j - 1);
        SlotFacts(g, info, kvs, j - 1);
        AtPast(g, kvs[j - 1].0, j - 1);
        NextDoor(g, kvs[j].0, j);
      }
    }
  }

  lemma NextDoor<K>(g: Layout<K>, k: K, j: int)
    requires Sane(g) && At(g, k, j) < 3 * Inc(g)
    ensures j - 1 <= Home(g, k)
  {
    AtPast(g, k, j - 1);
    AtNext(g, k, j - 1);
  }

  /** The bytes just shifted up leave room for one more step. */
  ghost predicate ShiftFits<K>(g: Layout<K>, info: seq<int>, ins: int, e: int, k: K)
    requires Sane(g) && 0 <= ins <= e < |info|
  {
    At(g, k, ins) + Inc(g) <= 255 && (forall j | ins < j <= e :: info[j] + Inc(g) <= 255)
  }

  lemma InsertedTable<K(!new), V>(g: Layout<K>, info: seq<int>, kvs: Pairs<K, V>, info': seq<int>, kvs': Pairs<K, V>,
                                  ins: int, e: int, m: map<K, V>, k: K, v: V)
    requires TableOk(g, info, kvs, m) && RoomToGrow(g, info, |kvs|) && k !in m
    requires InsertionPoint(g, info, kvs, ins, e, k) && Inserted(g, info, kvs, info', kvs', ins, e, k, v)
    ensures TableOk(g, info', kvs', m[k := v]) && |m[k := v]| == |m| + 1
    ensures ShiftFits(g, info', ins, e, k) ==> RoomToGrow(g, info', |kvs'|)
  {
    hide At, Inc, Hooded;
    forall s
      ensures !KeyAt(info, kvs, k, s)
    {
    }
    InsertHooded(g, info, kvs, info', kvs', ins, e, k, v);
    InsertUnique(g, info, kvs, info', kvs', ins, e, k, v);
    InsertHolds(g, info, kvs, info', kvs', ins, e, k, v, m);
    if ShiftFits(g, info', ins, e, k) {
      forall j | 0 <= j < |kvs|
        ensures info'[j] + Inc(g) <= 255
      {
        assert InsertedAt(g, info, kvs, info', kvs', ins, e, k, v, j);
      }
    }
  }

  lemma ErasedTable<K(!new), V>(g: Layout<K>, info: seq<int>, kvs: Pairs<K, V>, info': seq<int>, kvs': Pairs<K, V>,
                                f: int, t: int, m: map<K, V>, k: K)
    requires TableOk(g, info, kvs, m) && Erased(g, info, kvs, info', kvs', f, t) && KeyAt(info, kvs, k, f)
    ensures TableOk(g, info', kvs', m - {k}) && |m - {k}| == |m| - 1 && k in m
    ensures RoomToGrow(g, info, |kvs|) ==> RoomToGrow(g, info', |kvs'|)
  {
    hide At, Inc, Hooded;
    EraseHooded(g, info, kvs, info', kvs', f, t);
    EraseUnique(g, info, kvs, info', kvs', f, t);
    EraseHolds(g, info, kvs, info', kvs', f, t, m);
    assert (m - {k}).Keys == m.Keys - {k};
    if RoomToGrow(g, info, |kvs|) {
      forall j | 0 <= j < |kvs|
        ensures info'[j] + Inc(g) <= 255
      {
        assert ErasedAt(g, info, kvs, info', kvs', f, t, j);
      }
    }
  }

  lemma HalvedTable<K(!new), V>(g: Layout<K>, info: seq<int>, kvs: Pairs<K, V>, info': seq<int>, m: map<K, V>)
    requires TableOk(g, info, kvs, m) && g.shift < 4 && |info'| == |info|
    requires forall j | 0 <= j < |kvs| :: info'[j] == info[j] / 2
    requires forall j | |kvs| <= j < |info| :: 0 <= info'[j] <= 1
    ensures TableOk(Halved(g), info', kvs, m) && RoomToGrow(Halved(g), info', |kvs|)
  {
    hide Hooded;
    HalveHooded(g, info, kvs, info');
    forall k | k in m
      ensures exists j :: KeyAt(info', kvs, k, j)
    {
      var j :| KeyAt(info, kvs, k, j);
      assert KeyAt(info', kvs, k, j);
    }
  }

  lemma Reassigned<K(!new), V>(g: Layout<K>, info: seq<int>, kvs: Pairs<K, V>, m: map<K, V>, k: K, i: int, v: V)
    requires TableOk(g, info, kvs, m) && KeyAt(info, kvs, k, i)
    ensures k in m && TableOk(g, info, kvs[i := (k, v)], m[k := v])
  {
    var kvs' := kvs[i := (k, v)];
    hide At, Home;
    forall j | 0 <= j < |kvs|
      ensures SlotOk(g, info, kvs', j)
    {
      SlotFacts(g, info, kvs, j);
    }
    forall x | x in m
      ensures exists j :: KeyAt(info, kvs', x, j)
    {
      var j :| KeyAt(info, kvs, x, j);
      assert KeyAt(info, kvs', x, j);
    }
  }

  // ---------- moving the pairs of one table into another ----------

  ghost predicate Part<K(!new), V>(part: map<K, V>, m: map<K, V>)
  {
    forall k | k in part :: k in m && part[k] == m[k]
  }

  ghost predicate FoundBefore<K(!new), V>(info: seq<int>, kvs: Pairs<K, V>, k: K, i: int)
  {
    exists j :: j < i && KeyAt(info, kvs, k, j)
  }

  /** `part` holds the pairs of the first `i` slots. */
  ghost predicate MovedSoFar<K(!new), V>(info: seq<int>, kvs: Pairs<K, V>, m: map<K, V>, part: map<K, V>, i: int)
    requires |kvs| <= |info|
  {
    && Part(part, m) && (forall k | k in part :: FoundBefore(info, kvs, k, i))
    && (forall j | 0 <= j < i && j < |kvs| && Occupied(info, j) :: kvs[j].0 in part)
  }

  lemma MoveOn<K(!new), V>(info: seq<int>, kvs: Pairs<K, V>, m: map<K, V>, part: map<K, V>, i: int)
    requires |kvs| <= |info| && Unique(info, kvs) && Holds(info, kvs, m) && MovedSoFar(info, kvs, m, part, i)
    requires 0 <= i < |kvs|
    ensures info[i] == 0 ==> MovedSoFar(info, kvs, m, part, i + 1)
    ensures info[i] != 0 ==>
              && kvs[i].0 !in part && kvs[i].0 in m && |part| < |m|
              && MovedSoFar(info, kvs, m, part[kvs[i].0 := kvs[i].1], i + 1)
  {
    hide Unique, Holds, FoundBefore, KeyAt, MovedSoFar;
    if info[i] != 0 {
      MoveFull(info, kvs, m, part, i, kvs[i].0, kvs[i].1);
    } else {
      MoveEmpty(info, kvs, m, part, i);
    }
  }

  lemma MoveEmpty<K(!new), V>(info: seq<int>, kvs: Pairs<K, V>, m: map<K, V>, part: map<K, V>, i: int)
    requires |kvs| <= |info| && MovedSoFar(info, kvs, m, part, i) && 0 <= i < |kvs| && info[i] == 0
    ensures MovedSoFar(info, kvs, m, part, i + 1)
  {
    hide FoundBefore;
    forall x | FoundBefore(info, kvs, x, i)
      ensures FoundBefore(info, kvs, x, i + 1)
    {
      OneLater(info, kvs, x, i);
    }
  }

  lemma MoveFull<K(!new), V>(info: seq<int>, kvs: Pairs<K, V>, m: map<K, V>, part: map<K, V>, i: int, k: K, v: V)
    requires |kvs| <= |info| && Unique(info, kvs) && Holds(info, kvs, m) && MovedSoFar(info, kvs, m, part, i)
    requires 0 <= i < |kvs| && info[i] != 0 && kvs[i] == (k, v)
    ensures k !in part && k in m && |part| < |m| && MovedSoFar(info, kvs, m, part[k := v], i + 1)
  {
    assert Occupied(info, i) && m[k] == v;
    NotYet(info, kvs, m, part, i);
    Fewer(part, m, k);
    OneLater(info, kvs, k, i);
    AllLater(info, kvs, part, i);
    PartAdd(part, m, k);
    hide Unique, Holds, FoundBefore, KeyAt, Part;
    var part' := part[k := v];
    assert forall j | 0 <= j < i + 1 && Occupied(info, j) :: j == i || kvs[j].0 in part;
  }

  lemma PartAdd<K(!new), V>(part: map<K, V>, m: map<K, V>, k: K)
    requires Part(part, m) && k in m
    ensures Part(part[k := m[k]], m)
  {
  }

  lemma AllLater<K(!new), V>(info: seq<int>, kvs: Pairs<K, V>, part: map<K, V>, i: int)
    requires forall k | k in part :: FoundBefore(info, kvs, k, i)
    ensures forall k | k in part :: FoundBefore(info, kvs, k, i + 1)
  {
    hide FoundBefore;
    forall k | k in part
      ensures FoundBefore(info, kvs, k, i + 1)
    {
      OneLater(info, kvs, k, i);
    }
  }

  lemma OneLater<K(!new), V>(info: seq<int>, kvs: Pairs<K, V>, x: K, i: int)
    requires FoundBefore(info, kvs, x, i) || KeyAt(info, kvs, x, i)
    ensures FoundBefore(info, kvs, x, i + 1)
  {
    var j :| j < i + 1 && KeyAt(info, kvs, x, j);
  }

  lemma NotYet<K(!new), V>(info: seq<int>, kvs: Pairs<K, V>, m: map<K, V>, part: map<K, V>, i: int)
    requires |kvs| <= |info| && Unique(info, kvs) && MovedSoFar(info, kvs, m, part, i)
    requires 0 <= i < |kvs| && Occupied(info, i)
    ensures kvs[i].0 !in part
  {
    forall j
      ensures !(j < i && KeyAt(info, kvs, kvs[i].0, j))
    {
    }
    assert !FoundBefore(info, kvs, kvs[i].0, i);
  }

  lemma Fewer<K, V>(part: map<K, V>, m: map<K, V>, k: K)
    requires part.Keys <= m.Keys && k in m && k !in part
    ensures |part| < |m|
  {
    Sets.Subset(part.Keys, m.Keys - {k});
  }

  lemma AllMoved<K(!new), V>(info: seq<int>, kvs: Pairs<K, V>, m: map<K, V>, part: map<K, V>)
    requires |kvs| <= |info| && Holds(info, kvs, m) && MovedSoFar(info, kvs, m, part, |kvs|)
    ensures part == m
  {
    forall k | k in m
      ensures k in part
    {
      var j :| KeyAt(info, kvs, k, j);
    }
  }

  lemma SomeMoved<K(!new), V>(info: seq<int>, kvs: Pairs<K, V>, m: map<K, V>, part: map<K, V>, i: int)
    requires |kvs| <= |info| && MovedSoFar(info, kvs, m, part, i)
    ensures Part(part, m)
  {
  }

  lemma NoneMoved<K(!new), V>(info: seq<int>, kvs: Pairs<K, V>, m: map<K, V>, part: map<K, V>)
    requires |kvs| <= |info| && part == map[]
    ensures MovedSoFar(info, kvs, m, part, 0)
  {
  }

  // ---------- a jam on the way ----------

  /** The pairs of the first `i` slots. */
  function FirstPairs<K, V>(info: seq<int>, kvs: Pairs<K, V>, i: nat): map<K, V>
    requires i <= |kvs| <= |info|
  {
    if i == 0 then map[]
    else
      var part := FirstPairs(info, kvs, i - 1);
      if info[i - 1] == 0 then part else part[kvs[i - 1].0 := kvs[i - 1].1]
  }

  /** The pair in slot `i`, if there is one, is preceded by pairs that jam. */
  ghost predicate JamsAt<K, V>(g: Layout<K>, info: seq<int>, kvs: Pairs<K, V>, i: nat)
  {
    Sane(g) && i < |kvs| <= |info| && info[i] != 0 && Jam(g, FirstPairs(info, kvs, i))
  }

  /** Filing the pairs of these slots under `g`, slot by slot, meets a jam while there are pairs left. */
  ghost predicate Jams<K, V>(g: Layout<K>, info: seq<int>, kvs: Pairs<K, V>)
  {
    exists i: nat :: JamsAt(g, info, kvs, i)
  }

  ghost predicate NoJam<K, V>(g: Layout<K>, info: seq<int>, kvs: Pairs<K, V>, n: nat)
  {
    forall i: nat | i < n :: !JamsAt(g, info, kvs, i)
  }

  lemma NoJamNext<K, V>(g: Layout<K>, info: seq<int>, kvs: Pairs<K, V>, n: nat)
    requires NoJam(g, info, kvs, n)
    ensures if JamsAt(g, info, kvs, n) then Jams(g, info, kvs) else NoJam(g, info, kvs, n + 1)
    ensures n >= |kvs| ==> !Jams(g, info, kvs)
  {
    hide Jam, FirstPairs;
  }

  lemma {:induction false} FirstMoved<K(!new), V>(info: seq<int>, kvs: Pairs<K, V>, m: map<K, V>, i: nat)
    requires |kvs| <= |info| && Unique(info, kvs) && Holds(info, kvs, m) && i <= |kvs|
    ensures MovedSoFar(info, kvs, m, FirstPairs(info, kvs, i), i)
  {
    hide Unique, Holds, MovedSoFar;
    if i == 0 {
      NoneMoved(info, kvs, m, FirstPairs(info, kvs, i));
    } else {
      FirstMoved(info, kvs, m, i - 1);
      MoveOn(info, kvs, m, FirstPairs(info, kvs, i - 1), i - 1);
    }
  }

  /** All pairs together jam then, and there are at least 128 of them. */
  lemma JamsJam<K(!new), V>(g: Layout<K>, info: seq<int>, kvs: Pairs<K, V>, m: map<K, V>)
    requires Sane(g) && |kvs| <= |info| && Unique(info, kvs) && Holds(info, kvs, m) && Jams(g, info, kvs)
    ensures Jam(g, m) && 128 <= |m|
  {
    hide Unique, Holds, Jam, MovedSoFar;
    var i: nat :| JamsAt(g, info, kvs, i);
    var part := FirstPairs(info, kvs, i);
    FirstMoved(info, kvs, m, i);
    MoveOn(info, kvs, m, part, i);
    SomeMoved(info, kvs, m, part, i);
    JamGrows(g, part, m);
    JamMany(g, part);
  }
}
