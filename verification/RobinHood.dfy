/** The Robin Hood hash table of robin_hood.h: an open-addressing table whose info bytes hold the
    displacement of every key, refining a map. */
module RobinHood {
  import Sets
  import opened Probing

  const INITIAL_INFO_INC: nat := 32
  const INITIAL_NUM_ELEMENTS: nat := 8
  const HASH_MULTIPLIER: nat := 0xc4ceb9fe1a85ec53
  const MULTIPLIER_STEP: nat := 0xc4ceb9fe1a85ec54
  const SIZE_MAX: nat := 0xFFFF_FFFF_FFFF_FFFF

  /** calcMaxNumElementsAllowed, for a load factor of 80 */
  function MaxAllowed(size: nat): (m: nat)
    ensures m <= size
    ensures 8 <= size ==> 1 <= m
  {
    if size <= SIZE_MAX / 100 then size * 80 / 100 else size / 100 * 80
  }

  /** calcNumElementsWithBuffer */
  function WithBuffer(size: nat): nat
  {
    size + if MaxAllowed(size) < 255 then MaxAllowed(size) else 255
  }

  /** A table may be filled to 80 percent of its size, rounded down; for sizes whose product with 80 could overflow, to
      less than 80 elements below that. */
  lemma LoadFactor(size: nat)
    ensures 100 * MaxAllowed(size) <= 80 * size < 100 * MaxAllowed(size) + 8000
    ensures size <= SIZE_MAX / 100 ==> 80 * size < 100 * (MaxAllowed(size) + 1)
  {
  }

  lemma MaxAllowedDouble(size: nat)
    ensures MaxAllowed(size) <= MaxAllowed(2 * size)
  {
  }

  ghost predicate PowerOfTwo(n: nat)
  {
    n == 1 || (2 <= n && n % 2 == 0 && PowerOfTwo(n / 2))
  }

  lemma {:induction false} HalfSize(n: nat)
    requires PowerOfTwo(n) && n <= SIZE_MAX / 2 + 1
    ensures PowerOfTwo(2 * n)
    ensures n != SIZE_MAX / 2 + 1 ==> 2 * n <= SIZE_MAX / 2 + 1
  {
    Twice(n);
    if n != SIZE_MAX / 2 + 1 {
      TopSize();
      NextPower(n, SIZE_MAX / 2 + 1);
    }
  }

  /** Powers of two are at least a factor of two apart. */
  lemma {:induction false} NextPower(n: nat, m: nat)
    requires PowerOfTwo(n) && PowerOfTwo(m) && n < m
    ensures 2 * n <= m
  {
    if n > 1 {
      NextPower(n / 2, m / 2);
    }
  }

  lemma Twice(n: nat)
    requires PowerOfTwo(n)
    ensures PowerOfTwo(2 * n)
  {
    assert 2 * n / 2 == n;
  }

  lemma Times256(n: nat)
    requires PowerOfTwo(n)
    ensures PowerOfTwo(256 * n)
  {
    hide PowerOfTwo;
    Twice(n);
    Twice(2 * n);
    Twice(4 * n);
    Twice(8 * n);
    Twice(16 * n);
    Twice(32 * n);
    Twice(64 * n);
    Twice(128 * n);
  }

  lemma PowerEight()
    ensures PowerOfTwo(8)
  {
    assert PowerOfTwo(4);
  }

  lemma TopSize()
    ensures PowerOfTwo(SIZE_MAX / 2 + 1)
  {
    var n := 128;
    Times256(n);
    Times256(0x8000);
    Times256(0x80_0000);
    Times256(0x8000_0000);
    Times256(0x80_0000_0000);
    Times256(0x8000_0000_0000);
    Times256(0x80_0000_0000_0000);
  }

  /** The smallest size, from `size` on, for `n` elements; 0 if the size wraps around first. */
  function FitFrom(size: nat, n: nat): nat
    requires 0 < size
    decreases SIZE_MAX - size
  {
    if n <= MaxAllowed(size) then size else if size > SIZE_MAX / 2 then 0 else FitFrom(2 * size, n)
  }

  /** The size of a table made for `n` elements. */
  function Fit(n: nat): nat
  {
    FitFrom(INITIAL_NUM_ELEMENTS, n)
  }

  lemma {:induction false} FitFits(size: nat, n: nat)
    requires PowerOfTwo(size) && 8 <= size <= SIZE_MAX / 2 + 1
    ensures var fit := FitFrom(size, n);
            if fit == 0 then MAX_RESERVE < n else PowerOfTwo(fit) && 8 <= fit && n <= MaxAllowed(fit)
    decreases SIZE_MAX - size
  {
    hide PowerOfTwo, MaxAllowed;
    if MaxAllowed(size) < n && size <= SIZE_MAX / 2 {
      HalfSize(size);
      FitFits(2 * size, n);
    }
  }

  /** Where a table with `n` elements and no room is rehashed to: one that is less than half full keeps its size and
      changes the hash multiplier, any other doubles its size. */
  function NextLayout<K>(g: Layout<K>, n: nat): (next: Layout<K>)
    ensures Sane(g) ==> Sane(next)
  {
    if n * 2 < MaxAllowed(g.size)
    then Layout(g.hash, (g.mult + MULTIPLIER_STEP) % (SIZE_MAX + 1), g.size, 0)
    else Layout(g.hash, g.mult, 2 * g.size, 0)
  }

  /** The layout after `t` such rehashes. */
  function Tries<K>(g: Layout<K>, n: nat, t: nat): (next: Layout<K>)
    ensures Sane(g) ==> Sane(next)
  {
    if t == 0 then g else NextLayout(Tries(g, n, t - 1), n)
  }

  /** Slots as they were at some time. */
  type Past<K, V> = (seq<int>, Pairs<K, V>)

  /** The pairs of the slots `was` went into the slots `now` under `g` without an exception, but they jam there. */
  ghost predicate Stuck<K(!new), V>(g: Layout<K>, was: Past<K, V>, now: Past<K, V>, m: map<K, V>)
  {
    && Sane(g) && Jam(g, m) && !Jams(g, was.0, was.1)
    && |now.0| == |now.1| + 8 && TableOk(g.(shift := 4), now.0, now.1, m)
  }

  /** One after the other, these rehashes for want of room were made and were of no use. */
  ghost predicate AllStuck<K(!new), V>(g: Layout<K>, past: seq<Past<K, V>>, m: map<K, V>)
  {
    forall t | 1 <= t < |past| :: Stuck(Tries(g, |m|, t), past[t - 1], past[t], m)
  }

  /** The last of these rehashes throws. */
  ghost predicate Breaks<K(!new), V>(g: Layout<K>, past: seq<Past<K, V>>, m: map<K, V>)
  {
    past != [] && Jams(Tries(g, |m|, |past|), past[|past| - 1].0, past[|past| - 1].1)
  }

  /** What comes of an insertion that needs a rehash: `past` are the slots before each rehash. All but the last were
      of no use; the last one throws, or leaves room for the pair, or the attempts have run out. */
  ghost predicate Outcome<K(!new), V>(g: Layout<K>, past: seq<Past<K, V>>, m: map<K, V>, r: InsertionState,
                                      thrown: bool)
    requires Sane(g)
  {
    && past != [] && AllStuck(g, past, m) && (thrown <==> Breaks(g, past, m))
    && (r != OverflowError ==> !Jam(Tries(g, |m|, |past|), m))
    && (r == OverflowError && !thrown ==> 255 <= |past|)
  }

  /** The first rehash decides, unless it is the last pair moved that completes a jam: it throws exactly when the
      pairs jam while there are pairs left, and it makes room exactly when they do not jam. */
  lemma FirstRehash<K(!new), V>(g: Layout<K>, past: seq<Past<K, V>>, m: map<K, V>, r: InsertionState, thrown: bool)
    requires Sane(g) && Outcome(g, past, m, r, thrown)
    requires var (info, kvs) := past[0]; |kvs| <= |info| && Unique(info, kvs) && Holds(info, kvs, m)
    ensures Jams(NextLayout(g, |m|), past[0].0, past[0].1) <==> thrown && |past| == 1
    ensures !Jam(NextLayout(g, |m|), m) <==> r != OverflowError && |past| == 1
  {
    hide Jam, Jams, NextLayout, Unique, Holds;
    var next := Tries(g, |m|, 1);
    assert Tries(g, |m|, 0) == g && next == NextLayout(g, |m|);
    if Jams(next, past[0].0, past[0].1) {
      JamsJam(next, past[0].0, past[0].1, m);
    }
    if |past| > 1 {
      assert Stuck(next, past[0], past[1], m);
    }
  }

  datatype InsertionState = OverflowError | KeyFound | NewNode | OverwriteNode

  datatype Op<K, V> = Put(key: K, val: V) | Del(key: K) | Grow(c: nat, force: bool)

  /** What an operation does to a map. */
  function Apply<K, V>(m: map<K, V>, op: Op<K, V>): map<K, V>
  {
    match op
    case Put(key, val) => m[key := val]
    case Del(key) => m - {key}
    case Grow(_, _) => m
  }

  /** What a run of operations does to a map. */
  function Model<K, V>(m: map<K, V>, ops: seq<Op<K, V>>): map<K, V>
  {
    if ops == [] then m else Apply(Model(m, ops[..|ops| - 1]), ops[|ops| - 1])
  }

  lemma ModelStep<K, V>(m: map<K, V>, ops: seq<Op<K, V>>, i: nat)
    requires i < |ops|
    ensures Model(m, ops[..i + 1]) == Apply(Model(m, ops[..i]), ops[i])
  {
    assert ops[..i + 1][..i] == ops[..i];
  }

  /** The largest number of elements a table can be reserved for. */
  const MAX_RESERVE: nat := MaxAllowed(SIZE_MAX / 2 + 1)

  /** An operation that works whatever the hash function is. */
  predicate OpSafe<K, V>(m: map<K, V>, op: Op<K, V>)
  {
    match op
    case Put(key, _) => key in m || |m| < 127
    case Del(_) => true
    case Grow(c, _) => |m| <= 127 && c <= MAX_RESERVE
  }

  ghost predicate Safe<K, V>(m: map<K, V>, ops: seq<Op<K, V>>)
  {
    forall i | 0 <= i < |ops| :: OpSafe(Model(m, ops[..i]), ops[i])
  }

  /** No table that is large enough for these pairs jams, whatever its multiplier. */
  ghost predicate Clear<K(!new), V>(hash: (K, nat) -> nat, m: map<K, V>)
  {
    forall mult: nat, size: nat | PowerOfTwo(size) && 8 <= size && |m| <= MaxAllowed(size) ::
      !Jam(Layout(hash, mult, size, 0), m)
  }

  /** An operation that works with this hash function. */
  ghost predicate OpClear<K(!new), V>(hash: (K, nat) -> nat, m: map<K, V>, op: Op<K, V>)
  {
    match op
    case Put(key, _) => key in m || Clear(hash, m)
    case Del(_) => true
    case Grow(c, _) => Clear(hash, m) && |m| <= MAX_RESERVE && c <= MAX_RESERVE
  }

  ghost predicate Smooth<K(!new), V>(hash: (K, nat) -> nat, m: map<K, V>, ops: seq<Op<K, V>>)
  {
    forall i | 0 <= i < |ops| :: OpSafe(Model(m, ops[..i]), ops[i]) || OpClear(hash, Model(m, ops[..i]), ops[i])
  }

  function CountPuts<K, V>(ops: seq<Op<K, V>>): nat
  {
    if ops == [] then 0 else CountPuts(ops[..|ops| - 1]) + if ops[|ops| - 1].Put? then 1 else 0
  }

  lemma {:induction false} ModelSize<K, V>(m: map<K, V>, ops: seq<Op<K, V>>)
    ensures |Model(m, ops)| <= |m| + CountPuts(ops)
  {
    if ops != [] {
      var before := Model(m, ops[..|ops| - 1]);
      ModelSize(m, ops[..|ops| - 1]);
      match ops[|ops| - 1]
      case Put(key, val) =>
        assert before[key := val].Keys == before.Keys + {key};
        Sets.AddOne(before.Keys, key);
      case Del(key) =>
        assert (before - {key}).Keys <= before.Keys;
        Sets.Subset((before - {key}).Keys, before.Keys);
      case Grow(_, _) =>
    }
  }

  lemma {:induction false} PutsSoFar<K, V>(ops: seq<Op<K, V>>, i: nat)
    requires i < |ops|
    ensures CountPuts(ops[..i]) + (if ops[i].Put? then 1 else 0) <= CountPuts(ops)
    decreases |ops|
  {
    var n := |ops| - 1;
    if i < n {
      PutsSoFar(ops[..n], i);
      assert ops[..n][..i] == ops[..i];
    }
  }

  /** Few insertions are safe. */
  lemma FewPutsSafe<K, V>(m: map<K, V>, ops: seq<Op<K, V>>)
    requires |m| + CountPuts(ops) <= 127 && forall op | op in ops && op.Grow? :: op.c <= MAX_RESERVE
    ensures Safe(m, ops)
  {
    forall i | 0 <= i < |ops|
      ensures OpSafe(Model(m, ops[..i]), ops[i])
    {
      ModelSize(m, ops[..i]);
      PutsSoFar(ops, i);
    }
  }

  class Table<K(==, !new, 0), V(0)> {
    const hash: (K, nat) -> nat
    var keyVals: array<(K, V)>
    var info: array<int>
    var numElements: nat
    var mask: nat
    var maxNumElementsAllowed: nat
    var infoInc: nat
    var infoHashShift: nat
    var hashMultiplier: nat
    ghost var contents: map<K, V>

    function Geo(): Layout<K>
      reads `mask, `hashMultiplier, `infoHashShift
    {
      Layout(hash, hashMultiplier, mask + 1, infoHashShift)
    }

    ghost predicate Slots()
      reads `mask, `hashMultiplier, `infoHashShift, `infoInc, `contents, `info, `keyVals, info, keyVals
    {
      && Sane(Geo()) && infoInc == Inc(Geo()) && info.Length == keyVals.Length + 8
      && TableOk(Geo(), info[..], keyVals[..], contents)
    }

    /** No byte can overflow before the next insertion looks at `maxNumElementsAllowed`. */
    ghost predicate Limits()
      reads this, info, keyVals
    {
      && numElements == |contents| <= MaxAllowed(mask + 1)
      && (maxNumElementsAllowed != 0 ==>
            && maxNumElementsAllowed == MaxAllowed(mask + 1)
            && Sane(Geo()) && keyVals.Length <= info.Length
            && RoomToGrow(Geo(), info[..], keyVals.Length))
    }

    ghost predicate Valid()
      reads this, info, keyVals
    {
      && Slots() && Limits()
      && (mask == 0 ==> keyVals.Length == 0 && maxNumElementsAllowed == 0 && numElements == 0)
      && (mask != 0 ==> 8 <= mask + 1 && keyVals.Length == WithBuffer(mask + 1))
      && PowerOfTwo(mask + 1)
    }

    /** Insertions are switched off only while some byte has no room. An erasure may end that, so `Valid` does not
        promise it. */
    ghost predicate Tight()
      reads `mask, `maxNumElementsAllowed, `infoInc, `info, `keyVals, info
    {
      mask != 0 && maxNumElementsAllowed == 0 ==> Crowded(info[..], keyVals.Length, infoInc)
    }

    /** With no hash bit left to give up, that takes 127 pairs. */
    lemma TightMany()
      requires Valid() && Tight() && mask != 0 && maxNumElementsAllowed == 0 && infoInc <= 2
      ensures 127 <= |contents|
    {
      CrowdedMany(Geo(), info[..], keyVals[..], contents);
    }

    /** The table as it would be laid out after a rehash to `n` slots. */
    function Resized(n: nat): Layout<K>
      reads `hashMultiplier
    {
      Layout(hash, hashMultiplier, n, 0)
    }

    /** A tight table has neither room for the next insertion nor a hash bit to give up exactly when its pairs jam. */
    lemma GivenUpIff()
      requires Valid() && Tight() && mask != 0
      ensures GivenUp() <==> Jam(Resized(mask + 1), contents)
    {
      var g, info, kvs := Geo(), info[..], keyVals[..];
      JamAnyShift(g, Resized(mask + 1), contents);
      if GivenUp() {
        CrowdedJam(g, info, kvs, contents);
      } else if maxNumElementsAllowed != 0 {
        RoomNoJam(g, info, kvs, contents);
      } else {
        BitsNoJam(g, info, kvs, contents);
      }
    }

    constructor (hash: (K, nat) -> nat)
      ensures Valid() && contents == map[] && this.hash == hash && mask == 0
      ensures fresh(info) && fresh(keyVals)
    {
      this.hash := hash;
      keyVals := new (K, V)[0];
      info := new int[8](_ => 0);
      numElements, mask, maxNumElementsAllowed := 0, 0, 0;
      infoInc, infoHashShift, hashMultiplier := INITIAL_INFO_INC, 0, HASH_MULTIPLIER;
      contents := map[];
    }

    method KeyToIdx(key: K) returns (idx: nat, inf: nat)
      requires Sane(Geo()) && infoInc == Inc(Geo())
      ensures idx == Home(Geo(), key) && inf == At(Geo(), key, idx)
    {
      var h := hash(key, hashMultiplier);
      inf := infoInc + Shifted(h % 32, infoHashShift);
      idx := h / 32 % (mask + 1);
    }

    /** The probe for `key` went from its home to `idx` without meeting it. */
    ghost predicate Probing(key: K, idx: int, inf: int)
      reads this, info, keyVals
    {
      && Sane(Geo()) && Home(Geo(), key) <= idx && inf == At(Geo(), key, idx)
      && (forall i | Home(Geo(), key) <= i < idx :: !KeyAt(info[..], keyVals[..], key, i))
    }

    /** One look at a slot: either the key is here, or the probe goes on; a byte below the probe value
        ends it. */
    lemma Look(key: K, idx: int, inf: int)
      requires Slots() && Probing(key, idx, inf) && idx < info.Length
      ensures 0 <= idx && 2 <= infoInc <= inf
      ensures inf <= info[idx] ==> idx < keyVals.Length
      ensures inf == info[idx] && keyVals[idx].0 == key ==>
                KeyAt(info[..], keyVals[..], key, idx) && key in contents && keyVals[idx] == (key, contents[key])
      ensures !(inf == info[idx] && keyVals[idx].0 == key) ==> Probing(key, idx + 1, inf + infoInc)
      ensures info[idx] < inf ==> key !in contents
    {
      AtPast(Geo(), key, idx);
      AtNext(Geo(), key, idx);
      if KeyAt(info[..], keyVals[..], key, idx) {
        SlotFacts(Geo(), info[..], keyVals[..], idx);
      }
      if info[idx] < inf {
        Absent(Geo(), info[..], keyVals[..], key, idx);
      }
    }

    lemma StartProbe(key: K, idx: int, inf: int)
      requires Valid() && idx == Home(Geo(), key) && inf == At(Geo(), key, idx)
      ensures Probing(key, idx, inf) && idx <= keyVals.Length
    {
    }

    /** findIdx: the slot of `key`, or the end of the slots. The loop body is unrolled once. */
    method FindIdx(key: K) returns (idx: nat)
      requires Valid()
      ensures key in contents ==> KeyAt(info[..], keyVals[..], key, idx) && keyVals[idx] == (key, contents[key])
      ensures key !in contents ==> idx == keyVals.Length
    {
      hide Home, At, TableOk, Probing, KeyAt;
      var inf;
      idx, inf := KeyToIdx(key);
      StartProbe(key, idx, inf);
      while true
        invariant Probing(key, idx, inf) && idx <= keyVals.Length
        decreases keyVals.Length - idx
      {
        Look(key, idx, inf);
        if inf == info[idx] && key == keyVals[idx].0 {
          return;
        }
        idx, inf := idx + 1, inf + infoInc;
        Look(key, idx, inf);
        if inf == info[idx] && key == keyVals[idx].0 {
          return;
        }
        idx, inf := idx + 1, inf + infoInc;
        Look(key, idx, inf);
        if !(inf <= info[idx]) {
          break;
        }
      }
      idx := if mask == 0 then 0 else keyVals.Length;
    }

    // ---------- erase ----------

    /** Bytes are bytes; what follows the slots is the sentinel and padding. */
    ghost predicate ByteRange()
      reads `info, `keyVals, info
    {
      && info.Length == keyVals.Length + 8
      && (forall j | 0 <= j < info.Length :: 0 <= info[j] <= if j < keyVals.Length then 255 else 1)
    }

    lemma Bytes()
      requires Slots()
      ensures ByteRange() && 2 <= infoInc <= 32
    {
      forall j | 0 <= j < keyVals.Length
        ensures 0 <= info[j] <= 255
      {
        SlotFacts(Geo(), info[..], keyVals[..], j);
      }
    }

    static lemma IncRange(g: Layout<K>)
      requires Sane(g)
      ensures 2 <= Inc(g) <= 32
    {
    }

    /** shiftDown: closes the gap at `idx` with everything displaced after it. */
    method ShiftDown(idx0: nat) returns (ghost t: int)
      requires Sane(Geo()) && infoInc == Inc(Geo()) && ByteRange() && idx0 < keyVals.Length
      modifies info, keyVals
      ensures Erased(Geo(), old(info[..]), old(keyVals[..]), info[..], keyVals[..], idx0, t)
    {
      IncRange(Geo());
      hide Inc, Erased;
      ghost var g, was, wasPairs := Geo(), info[..], keyVals[..];
      var idx := idx0;
      while info[idx + 1] >= 2 * infoInc
        invariant idx0 <= idx < keyVals.Length
        invariant forall j | idx0 < j <= idx :: 2 * infoInc <= old(info[j])
        invariant forall j | idx0 <= j < idx ::
                    info[j] == old(info[j + 1]) - infoInc && keyVals[j] == old(keyVals[j + 1])
        invariant forall j | 0 <= j < info.Length && (j < idx0 || idx <= j) :: info[j] == old(info[j])
        invariant forall j | 0 <= j < keyVals.Length && (j < idx0 || idx < j) :: keyVals[j] == old(keyVals[j])
        decreases keyVals.Length - idx
      {
        info[idx] := (info[idx + 1] - infoInc) % 256;
        keyVals[idx] := keyVals[idx + 1];
        idx := idx + 1;
      }
      info[idx] := 0;
      t := idx;
      MovedDown(g, was, wasPairs, info[..], keyVals[..], idx0, t);
    }

    /** erase */
    method Erase(key: K) returns (n: nat)
      requires Valid()
      modifies this, info, keyVals
      ensures Valid() && contents == old(contents) - {key} && n == if key in old(contents) then 1 else 0
      ensures info == old(info) && keyVals == old(keyVals)
    {
      hide Home, At, TableOk, Probing, KeyAt, Inc;
      var idx, inf := KeyToIdx(key);
      StartProbe(key, idx, inf);
      n := 0;
      while true
        invariant Probing(key, idx, inf) && idx <= keyVals.Length
        modifies {}
        decreases keyVals.Length - idx
      {
        Look(key, idx, inf);
        if inf == info[idx] && key == keyVals[idx].0 {
          n := 1;
          break;
        }
        idx, inf := idx + 1, inf + infoInc;
        Look(key, idx, inf);
        if !(inf <= info[idx]) {
          break;
        }
      }
      if n == 1 {
        EraseAt(key, idx);
      }
    }

    /** The slot found is emptied. */
    method EraseAt(key: K, idx: nat)
      requires Valid() && KeyAt(info[..], keyVals[..], key, idx) && key in contents
      modifies `numElements, `contents, info, keyVals
      ensures Valid() && contents == old(contents) - {key}
    {
      hide TableOk, Erased, Inc, KeyAt, RoomToGrow, ByteRange, PowerOfTwo, WithBuffer, MaxAllowed;
      ghost var g, m, was, wasPairs := Geo(), contents, info[..], keyVals[..];
      Bytes();
      FoundWithin(key, idx);
      numElements := numElements - 1;
      contents := contents - {key};
      ghost var t := ShiftDown(idx);
      ErasedTable(g, was, wasPairs, info[..], keyVals[..], idx, t, m, key);
    }

    // ---------- insertion ----------

    /** The pairs of shiftUp. */
    method ShiftPairs(startIdx: nat, insertionIdx: nat)
      requires insertionIdx < startIdx < keyVals.Length
      modifies keyVals
      ensures forall j | 0 <= j < keyVals.Length && (j <= insertionIdx || startIdx < j) ::
                keyVals[j] == old(keyVals[j])
      ensures forall j | insertionIdx < j <= startIdx :: keyVals[j] == old(keyVals[j - 1])
    {
      var idx := startIdx;
      keyVals[idx] := keyVals[idx - 1];
      idx := idx - 1;
      while idx != insertionIdx
        invariant insertionIdx <= idx < startIdx
        invariant forall j | 0 <= j < keyVals.Length && (j <= idx || startIdx < j) :: keyVals[j] == old(keyVals[j])
        invariant forall j | idx < j <= startIdx :: keyVals[j] == old(keyVals[j - 1])
        decreases idx
      {
        keyVals[idx] := keyVals[idx - 1];
        idx := idx - 1;
      }
    }

    /** The bytes of shiftUp. */
    method ShiftBytes(startIdx: nat, insertionIdx: nat) returns (ghost full: int)
      requires insertionIdx < startIdx < info.Length
      requires forall j | insertionIdx <= j < startIdx :: 0 <= info[j] && info[j] + infoInc <= 255
      modifies info, `maxNumElementsAllowed
      ensures forall j | 0 <= j < info.Length && (j <= insertionIdx || startIdx < j) :: info[j] == old(info[j])
      ensures forall j | insertionIdx < j <= startIdx :: info[j] == old(info[j - 1]) + infoInc
      ensures maxNumElementsAllowed == 0 || maxNumElementsAllowed == old(maxNumElementsAllowed)
      ensures maxNumElementsAllowed != 0 ==> forall j | insertionIdx < j <= startIdx :: info[j] + infoInc <= 255
      ensures maxNumElementsAllowed == old(maxNumElementsAllowed) ||
              (insertionIdx < full <= startIdx && info[full] + infoInc > 255)
    {
      full := startIdx;
      var idx := startIdx;
      while idx != insertionIdx
        invariant insertionIdx <= idx <= startIdx
        invariant forall j | 0 <= j < info.Length && (j <= idx || startIdx < j) :: info[j] == old(info[j])
        invariant forall j | idx < j <= startIdx :: info[j] == old(info[j - 1]) + infoInc
        invariant maxNumElementsAllowed == 0 || maxNumElementsAllowed == old(maxNumElementsAllowed)
        invariant maxNumElementsAllowed != 0 ==> forall j | idx < j <= startIdx :: info[j] + infoInc <= 255
        invariant maxNumElementsAllowed == old(maxNumElementsAllowed) ||
                  (idx < full <= startIdx && info[full] + infoInc > 255)
        decreases idx
      {
        info[idx] := (info[idx - 1] + infoInc) % 256;
        if info[idx] + infoInc > 0xFF {
          maxNumElementsAllowed := 0;
          full := idx;
        }
        idx := idx - 1;
      }
    }

    /** shiftUp, unless there is nothing to shift; `full` is a byte without room if insertions were switched off. */
    method ShiftUp(idx: nat, insertionIdx: nat) returns (ghost full: int)
      requires insertionIdx <= idx < keyVals.Length <= info.Length && Roomy(insertionIdx, idx)
      modifies keyVals, info, `maxNumElementsAllowed
      ensures forall j | 0 <= j < keyVals.Length ::
                keyVals[j] == old(keyVals[if insertionIdx < j <= idx then j - 1 else j])
      ensures forall j | 0 <= j < info.Length && (j <= insertionIdx || idx < j) :: info[j] == old(info[j])
      ensures forall j | insertionIdx < j <= idx :: info[j] == old(info[j - 1]) + infoInc
      ensures maxNumElementsAllowed == 0 || maxNumElementsAllowed == old(maxNumElementsAllowed)
      ensures maxNumElementsAllowed != 0 ==> forall j | insertionIdx < j <= idx :: info[j] + infoInc <= 255
      ensures maxNumElementsAllowed == old(maxNumElementsAllowed) ||
              (insertionIdx < full <= idx && info[full] + infoInc > 255)
    {
      full := idx;
      if idx != insertionIdx {
        ShiftPairs(idx, insertionIdx);
        full := ShiftBytes(idx, insertionIdx);
      }
    }

    /** Shifting these bytes up does not overflow them. */
    ghost predicate Roomy(a: int, b: int)
      reads `info, `infoInc, info
    {
      0 <= a <= b <= info.Length && forall j | a <= j < b :: 0 <= info[j] && info[j] + infoInc <= 255
    }

    /** As `Probing`, and every slot passed is at least as displaced as the probe was there. */
    ghost predicate Climbing(key: K, idx: int, inf: int)
      reads this, info, keyVals
    {
      && Probing(key, idx, inf) && idx <= info.Length
      && (forall i | Home(Geo(), key) <= i < idx :: At(Geo(), key, i) <= info[i])
    }

    lemma StartClimb(key: K, idx: int, inf: int)
      requires Valid() && idx == Home(Geo(), key) && inf == At(Geo(), key, idx)
      ensures Climbing(key, idx, inf) && idx <= keyVals.Length
    {
    }

    /** One look at a slot while searching for the insertion point. */
    lemma LookUp(key: K, idx: int, inf: int)
      requires Slots() && Climbing(key, idx, inf) && idx < info.Length
      ensures 0 <= idx && 2 <= infoInc <= inf
      ensures inf <= info[idx] ==> idx < keyVals.Length
      ensures inf == info[idx] && keyVals[idx].0 == key ==>
                KeyAt(info[..], keyVals[..], key, idx) && key in contents && keyVals[idx] == (key, contents[key])
      ensures inf <= info[idx] && !(inf == info[idx] && keyVals[idx].0 == key) ==>
                Climbing(key, idx + 1, inf + infoInc)
      ensures inf == info[idx] ==> info[idx + 1] <= inf + infoInc
      ensures info[idx] < inf ==> key !in contents
    {
      Look(key, idx, inf);
      if inf == info[idx] && idx + 1 < keyVals.Length {
        SlotFacts(Geo(), info[..], keyVals[..], idx + 1);
      }
    }

    /** Where the next empty slot is: at or after any point a probe can climb to, and before the end. */
    lemma EmptySlot(key: K, idx: int, inf: int) returns (e: int)
      requires Slots() && Climbing(key, idx, inf) && mask != 0 && 8 <= mask + 1
      requires keyVals.Length == WithBuffer(mask + 1) && |contents| <= MaxAllowed(mask + 1)
      ensures idx <= e < keyVals.Length && info[e] == 0
    {
      hide At, Hooded, Unique, Holds;
      BufferNeverFull(Geo(), info[..], keyVals[..], contents, MaxAllowed(mask + 1));
      e :| mask <= e < keyVals.Length && info[e] == 0;
      if e < idx {
        Passed(key, e);
      }
    }

    lemma Passed(key: K, e: int)
      requires Sane(Geo()) && Home(Geo(), key) <= e
      ensures 0 < At(Geo(), key, e)
    {
      AtPast(Geo(), key, e);
    }

    /** What an insertion may change and must keep, given where the probe stopped. */
    ghost predicate StopsAt(key: K, ins: int, inf: int)
      reads this, info, keyVals
    {
      && Climbing(key, ins, inf) && ins < info.Length && info[ins] < inf && key !in contents
    }

    /** From the empty slot `e` down to `ins` everything moves up, and the new pair goes in. */
    method MoveUp(ins: nat, e: nat, inf: nat, key: K, val: V)
      requires Sane(Geo()) && infoInc == Inc(Geo()) && keyVals.Length <= info.Length
      requires ins <= e < keyVals.Length && inf == At(Geo(), key, ins) && inf <= 255
      requires Roomy(ins, e)
      modifies info, keyVals, `maxNumElementsAllowed
      ensures Inserted(Geo(), old(info[..]), old(keyVals[..]), info[..], keyVals[..], ins, e, key, val)
      ensures maxNumElementsAllowed == 0 || (maxNumElementsAllowed == old(maxNumElementsAllowed)
                                             && ShiftFits(Geo(), info[..], ins, e, key))
      ensures maxNumElementsAllowed == old(maxNumElementsAllowed) || Crowded(info[..], keyVals.Length, infoInc)
    {
      hide At, Inc, Home, Frag, Inserted;
      ghost var g, was, wasPairs := Geo(), info[..], keyVals[..];
      if inf + infoInc > 0xFF {
        maxNumElementsAllowed := 0;
      }
      ghost var full := ShiftUp(e, ins);
      info[ins] := inf % 256;
      keyVals[ins] := (key, val);
      if maxNumElementsAllowed != old(maxNumElementsAllowed) {
        full := if inf + infoInc > 255 then ins else full;
        assert info[..][full] + infoInc > 255;
      }
      MovedUp(g, was, wasPairs, info[..], keyVals[..], ins, e, key, val);
    }

    lemma Insertable(key: K, ins: int, e: int, inf: int)
      requires Slots() && StopsAt(key, ins, inf) && ins <= e < keyVals.Length && info[e] == 0
      requires forall j | ins <= j < e :: info[j] != 0
      requires RoomToGrow(Geo(), info[..], keyVals.Length)
      ensures InsertionPoint(Geo(), info[..], keyVals[..], ins, e, key) && 0 <= inf <= 255
      ensures inf == At(Geo(), key, ins) && key !in contents && Roomy(ins, e)
    {
      hide At, Home, Hooded, Unique;
      Bytes();
      RoomSlots(ins, e);
      Look(key, ins, inf);
      AtHome(Geo(), key);
      if Home(Geo(), key) < ins {
        AtNext(Geo(), key, ins - 1);
      }
    }

    /** Find the empty slot, shift up, put the pair: the common part of insertKeyPrepareEmptySpot and
        insert_move. */
    method PutNew(ins: nat, inf0: nat, key: K, val: V) returns (r: InsertionState)
      requires Valid() && StopsAt(key, ins, inf0) && mask != 0
      requires maxNumElementsAllowed != 0 && numElements < MaxAllowed(mask + 1)
      modifies `numElements, `maxNumElementsAllowed, `contents, info, keyVals
      ensures Valid() && Tight() && contents == old(contents)[key := val]
      ensures r == NewNode || r == OverwriteNode
    {
      hide At, Home, Probing, KeyAt, Inc, WithBuffer, MaxAllowed, RoomToGrow;
      ghost var last := EmptySlot(key, ins, inf0);
      Bytes();
      var idx, inf := ins, inf0;
      while info[idx] != 0
        invariant ins <= idx <= last
        invariant forall j | ins <= j < idx :: info[j] != 0
        modifies {}
        decreases last - idx
      {
        idx, inf := idx + 1, inf + infoInc;
      }
      Insertable(key, ins, idx, inf0);
      PutAt(ins, idx, inf0, key, val);
      r := if idx == ins then NewNode else OverwriteNode;
    }

    method PutAt(ins: nat, e: nat, inf: nat, key: K, val: V)
      requires Valid() && mask != 0 && maxNumElementsAllowed != 0 && numElements < MaxAllowed(mask + 1)
      requires InsertionPoint(Geo(), info[..], keyVals[..], ins, e, key) && key !in contents
      requires inf == At(Geo(), key, ins) && inf <= 255 && Roomy(ins, e) && ins <= e < keyVals.Length
      modifies `numElements, `maxNumElementsAllowed, `contents, info, keyVals
      ensures Valid() && Tight() && contents == old(contents)[key := val]
    {
      hide Crowded, TableOk, At, Home, Inc, WithBuffer, MaxAllowed, Inserted, RoomToGrow, InsertionPoint,
        ShiftFits, Roomy;
      ghost var g, m, was, wasPairs := Geo(), contents, info[..], keyVals[..];
      numElements := numElements + 1;
      contents := contents[key := val];
      MoveUp(ins, e, inf, key, val);
      InsertedTable(g, was, wasPairs, info[..], keyVals[..], ins, e, m, key, val);
    }

    lemma RoomSlots(a: int, b: int)
      requires Slots() && RoomToGrow(Geo(), info[..], keyVals.Length) && 0 <= a <= b <= keyVals.Length
      ensures Roomy(a, b)
    {
      Bytes();
      forall j | a <= j < b
        ensures info[j] + infoInc <= 255
      {
        assert info[..][j] + Inc(Geo()) <= 255;
      }
    }

    // ---------- growing ----------

    /** try_increase_info: gives up one hash bit, so that every byte can be halved. The bytes are halved
        eight at a time, past the last slot; then the sentinel is set again. */
    method TryIncreaseInfo() returns (ok: bool)
      requires Valid() && mask != 0
      modifies `infoInc, `infoHashShift, `maxNumElementsAllowed, info
      ensures Valid() && ok == (old(infoInc) > 2)
      ensures ok ==> 0 != maxNumElementsAllowed == MaxAllowed(mask + 1) && infoInc == old(infoInc) / 2
      ensures ok ==> forall j | 0 <= j < keyVals.Length :: info[j] == old(info[j]) / 2
      ensures !ok ==> infoInc == old(infoInc) && maxNumElementsAllowed == old(maxNumElementsAllowed)
      ensures !ok ==> infoHashShift == old(infoHashShift) && info[..] == old(info[..])
    {
      hide *;
      ok := infoInc > 2;
      if ok {
        GiveUpBit();
      }
    }

    /** What try_increase_info does when it can. */
    method GiveUpBit()
      requires Valid() && mask != 0 && infoInc > 2
      modifies `infoInc, `infoHashShift, `maxNumElementsAllowed, info
      ensures Valid() && 0 != maxNumElementsAllowed == MaxAllowed(mask + 1) && infoInc == old(infoInc) / 2
      ensures forall j | 0 <= j < keyVals.Length :: info[j] == old(info[j]) / 2
    {
      hide TableOk, RoomToGrow, Inc, WithBuffer, Slots, PowerOfTwo;
      Halve();
      maxNumElementsAllowed := MaxAllowed(mask + 1);
    }

    method Halve()
      requires Slots() && infoInc > 2
      modifies `infoInc, `infoHashShift, info
      ensures Slots() && Sane(Geo()) && keyVals.Length <= info.Length && RoomToGrow(Geo(), info[..], keyVals.Length)
      ensures infoInc == old(infoInc) / 2 && forall j | 0 <= j < keyVals.Length :: info[j] == old(info[j]) / 2
    {
      hide TableOk, Home, At, RoomToGrow, Inc, ByteRange;
      ghost var g, was := Geo(), info[..];
      Bytes();
      MoreShift(g);
      infoInc := infoInc / 2;
      infoHashShift := infoHashShift + 1;
      HalveBytes();
      HalvedTable(g, was, keyVals[..], info[..], contents);
    }

    static lemma MoreShift(g: Layout<K>)
      requires Sane(g) && Inc(g) > 2
      ensures g.shift < 4 && Inc(Halved(g)) == Inc(g) / 2
    {
    }

    /** The loop over the info bytes, eight at a time. */
    method HalveBytes()
      requires ByteRange()
      modifies info
      ensures forall j | 0 <= j < keyVals.Length :: info[j] == old(info[j]) / 2
      ensures forall j | keyVals.Length <= j < info.Length :: 0 <= info[j] <= 1
    {
      var n := keyVals.Length;
      var i := 0;
      while i < n
        invariant 0 <= i <= n + 7
        invariant forall j | 0 <= j < i :: info[j] == old(info[j]) / 2
        invariant forall j | i <= j < info.Length :: info[j] == old(info[j])
      {
        forall b | 0 <= b < 8 {
          info[i + b] := info[i + b] / 2;
        }
        i := i + 8;
      }
      info[n] := 1;
    }

    /** initData */
    method InitData(size: nat)
      requires 8 <= size && PowerOfTwo(size)
      modifies this
      ensures Valid() && contents == map[] && mask == size - 1 && fresh(info) && fresh(keyVals)
      ensures numElements == 0 < maxNumElementsAllowed
      ensures hashMultiplier == old(hashMultiplier)
    {
      hide PowerOfTwo, WithBuffer, MaxAllowed, TableOk, RoomToGrow;
      numElements := 0;
      mask := size - 1;
      maxNumElementsAllowed := MaxAllowed(size);
      keyVals := new (K, V)[WithBuffer(size)];
      info := new int[WithBuffer(size) + 8](_ => 0);
      info[WithBuffer(size)] := 1;
      infoInc, infoHashShift := INITIAL_INFO_INC, 0;
      contents := map[];
      EmptyTable(Geo(), info[..], keyVals[..]);
    }

    static lemma EmptyTable(g: Layout<K>, info: seq<int>, kvs: Pairs<K, V>)
      requires Sane(g) && g.shift == 0 && |info| == |kvs| + 8 && info[|kvs|] == 1
      requires forall j | 0 <= j < |info| && j != |kvs| :: info[j] == 0
      ensures TableOk(g, info, kvs, map[]) && RoomToGrow(g, info, |kvs|) && Inc(g) == 32
    {
    }

    /** Some byte has no room left and there is no hash bit to give up: the reason for throwing. */
    ghost predicate GivenUp()
      reads `maxNumElementsAllowed, `infoInc
    {
      maxNumElementsAllowed == 0 && infoInc <= 2
    }

    /** insert_move: puts a pair whose key is new, or throws. */
    method InsertMove(key: K, val: V) returns (thrown: bool)
      requires Valid() && mask != 0 && key !in contents && numElements < MaxAllowed(mask + 1)
      modifies `infoInc, `infoHashShift, `maxNumElementsAllowed, `numElements, `contents, info, keyVals
      ensures Valid() && contents == if thrown then old(contents) else old(contents)[key := val]
      ensures thrown <==> old(maxNumElementsAllowed == 0 && infoInc <= 2)
      ensures if thrown then GivenUp() else Tight()
    {
      hide Home, At, TableOk, Probing, KeyAt, Inc, WithBuffer, MaxAllowed, RoomToGrow, Climbing, Tight;
      thrown := false;
      if maxNumElementsAllowed == 0 {
        var ok := TryIncreaseInfo();
        if !ok {
          return true;
        }
      }
      var idx, inf := KeyToIdx(key);
      StartClimb(key, idx, inf);
      LookUp(key, idx, inf);
      while inf <= info[idx]
        invariant Climbing(key, idx, inf) && idx <= keyVals.Length
        modifies {}
        decreases keyVals.Length - idx
      {
        LookUp(key, idx, inf);
        idx, inf := idx + 1, inf + infoInc;
      }
      LookUp(key, idx, inf);
      var _ := PutNew(idx, inf, key, val);
    }

    /** What a rehash needs of the old arrays; it does not look at the hashes they were filed by. */
    ghost predicate Stored()
      reads `info, `keyVals, `mask, `contents, `numElements, info, keyVals
    {
      && info.Length == keyVals.Length + 8
      && Unique(info[..], keyVals[..]) && Holds(info[..], keyVals[..], contents) && numElements == |contents|
      && keyVals.Length == (if mask == 0 then 0 else WithBuffer(mask + 1))
      && (mask == 0 || 8 <= mask + 1) && PowerOfTwo(mask + 1)
    }

    lemma Counted()
      requires Valid()
      ensures numElements == |contents|
    {
    }

    /** rehashPowerOfTwo: moves every pair into new arrays; on an exception some pairs are lost. It throws exactly
        when some pair is preceded by pairs that jam at the new size. That takes at least 128 pairs, and when all keys
        have the same home 128 are enough. */
    method Rehash(numBuckets: nat) returns (thrown: bool)
      requires Stored() && 8 <= numBuckets && PowerOfTwo(numBuckets) && |contents| <= MaxAllowed(numBuckets)
      modifies this
      ensures Valid() && fresh(info) && fresh(keyVals)
      ensures mask == numBuckets - 1 && hashMultiplier == old(hashMultiplier)
      ensures if thrown then Part(contents, old(contents)) && GivenUp() else contents == old(contents) && Tight()
      ensures thrown <==> old(Jams(Resized(numBuckets), info[..], keyVals[..]))
      ensures |old(contents)| < 128 ==> !thrown
      ensures |old(contents)| >= 128 && SameHome(Geo(), old(contents)) ==> thrown
    {
      hide Stored, Valid, GivenUp, WithBuffer, MaxAllowed, Part, SameHome, Jams, NoJam, Unique, Holds;
      var oldKeyVals, oldInfo := keyVals, info;
      ghost var m, g, was, wasPairs := contents, Resized(numBuckets), info[..], keyVals[..];
      var oldMaxElementsWithBuffer := WithBuffer(mask + 1);
      thrown := false;
      ToMove(g);
      InitData(numBuckets);
      if oldMaxElementsWithBuffer > 1 {
        StartMoving(oldKeyVals, oldInfo, m);
        thrown := MoveAll(oldKeyVals, oldInfo, m, oldMaxElementsWithBuffer);
      }
      SameHomeBound();
    }

    /** An empty slot array is not looked at; any other is moved slot by slot. */
    lemma ToMove(g: Layout<K>)
      requires Stored()
      ensures info.Length == keyVals.Length + 8
      ensures Unique(info[..], keyVals[..]) && Holds(info[..], keyVals[..], contents)
      ensures if WithBuffer(mask + 1) > 1 then keyVals.Length == WithBuffer(mask + 1)
              else contents == map[] && !Jams(g, info[..], keyVals[..])
    {
      hide Unique, Holds;
      StartJam(g, info[..], keyVals[..]);
      NoneMoved(info[..], keyVals[..], contents, map[]);
      if keyVals.Length == 0 {
        AllMoved(info[..], keyVals[..], contents, map[]);
      }
    }

    lemma SameHomeBound()
      requires Valid()
      ensures Sane(Geo()) && (SameHome(Geo(), contents) ==> |contents| <= 127)
    {
      if SameHome(Geo(), contents) {
        SameHomeFew(Geo(), info[..], keyVals[..], contents);
      }
    }

    /** The table holds the pairs of the first `i` slots of the old arrays, which hold `m`. */
    ghost predicate Moving(oldKeyVals: array<(K, V)>, oldInfo: array<int>, m: map<K, V>, i: int)
      reads this, info, keyVals, oldInfo, oldKeyVals
    {
      && Valid() && mask != 0 && |m| <= MaxAllowed(mask + 1)
      && oldInfo != info && oldKeyVals != keyVals && oldInfo.Length == oldKeyVals.Length + 8
      && Unique(oldInfo[..], oldKeyVals[..]) && Holds(oldInfo[..], oldKeyVals[..], m)
      && MovedSoFar(oldInfo[..], oldKeyVals[..], m, contents, i)
      && 0 <= i <= oldKeyVals.Length && contents == FirstPairs(oldInfo[..], oldKeyVals[..], i)
    }

    lemma StartMoving(oldKeyVals: array<(K, V)>, oldInfo: array<int>, m: map<K, V>)
      requires Valid() && mask != 0 && |m| <= MaxAllowed(mask + 1) && contents == map[]
      requires oldInfo != info && oldKeyVals != keyVals && oldInfo.Length == oldKeyVals.Length + 8
      requires Unique(oldInfo[..], oldKeyVals[..]) && Holds(oldInfo[..], oldKeyVals[..], m)
      ensures Moving(oldKeyVals, oldInfo, m, 0)
    {
      hide Valid, Unique, Holds, MovedSoFar;
      NoneMoved(oldInfo[..], oldKeyVals[..], m, contents);
    }

    lemma DoneMoving(oldKeyVals: array<(K, V)>, oldInfo: array<int>, m: map<K, V>, i: int)
      requires Moving(oldKeyVals, oldInfo, m, i)
      ensures Valid() && Part(contents, m) && (i == oldKeyVals.Length ==> contents == m)
    {
      SomeMoved(oldInfo[..], oldKeyVals[..], m, contents, i);
      if i == oldKeyVals.Length {
        AllMoved(oldInfo[..], oldKeyVals[..], m, contents);
      }
    }

    /** The loop of rehashPowerOfTwo over the slots of the old arrays. */
    method MoveAll(oldKeyVals: array<(K, V)>, oldInfo: array<int>, ghost m: map<K, V>, n: nat) returns (thrown: bool)
      requires Moving(oldKeyVals, oldInfo, m, 0) && Tight() && n == oldKeyVals.Length
      requires oldInfo != info && oldKeyVals != keyVals
      modifies `infoInc, `infoHashShift, `maxNumElementsAllowed, `numElements, `contents, info, keyVals
      ensures Valid() && if thrown then Part(contents, m) && GivenUp() && |m| >= 128 else contents == m && Tight()
      ensures mask == old(mask) && hashMultiplier == old(hashMultiplier)
      ensures thrown <==> Jams(Resized(mask + 1), oldInfo[..], oldKeyVals[..])
    {
      hide *;
      thrown := false;
      StartJam(Resized(mask + 1), oldInfo[..], oldKeyVals[..]);
      for i := 0 to n
        invariant Moving(oldKeyVals, oldInfo, m, i) && Tight()
        invariant mask == old(mask) && hashMultiplier == old(hashMultiplier)
        invariant NoJam(Resized(mask + 1), oldInfo[..], oldKeyVals[..], i)
      {
        NoJamNext(Resized(mask + 1), oldInfo[..], oldKeyVals[..], i);
        thrown := MoveOne(oldKeyVals, oldInfo, m, i);
        if thrown {
          DoneMoving(oldKeyVals, oldInfo, m, i);
          return;
        }
      }
      DoneMoving(oldKeyVals, oldInfo, m, n);
      NoJamNext(Resized(mask + 1), oldInfo[..], oldKeyVals[..], n);
    }

    static lemma StartJam(g: Layout<K>, info: seq<int>, kvs: Pairs<K, V>)
      ensures NoJam(g, info, kvs, 0)
      ensures |kvs| == 0 ==> !Jams(g, info, kvs)
    {
    }

    method MoveOne(oldKeyVals: array<(K, V)>, oldInfo: array<int>, ghost m: map<K, V>, i: nat) returns (thrown: bool)
      requires Moving(oldKeyVals, oldInfo, m, i) && Tight() && i < oldKeyVals.Length
      modifies `infoInc, `infoHashShift, `maxNumElementsAllowed, `numElements, `contents, info, keyVals
      ensures Moving(oldKeyVals, oldInfo, m, if thrown then i else i + 1)
      ensures if thrown then GivenUp() && |m| >= 128 else Tight()
      ensures thrown <==> JamsAt(Resized(mask + 1), oldInfo[..], oldKeyVals[..], i)
    {
      hide WithBuffer, MaxAllowed, Unique, Holds, KeyAt, Slots, Limits, MovedSoFar, Tight, Jam;
      MoveOn(oldInfo[..], oldKeyVals[..], m, contents, i);
      Counted();
      GivenUpIff();
      if GivenUp() {
        TightMany();
      }
      thrown := false;
      if oldInfo[i] != 0 {
        thrown := InsertMove(oldKeyVals[i].0, oldKeyVals[i].1);
      }
    }

    lemma Storable()
      requires Valid()
      ensures Stored() && |contents| <= MaxAllowed(mask + 1)
    {
    }

    /** nextHashMultiplier */
    method NextHashMultiplier()
      modifies `hashMultiplier
      ensures hashMultiplier == (old(hashMultiplier) + MULTIPLIER_STEP) % (SIZE_MAX + 1)
      ensures hashMultiplier % 2 == old(hashMultiplier) % 2
    {
      hashMultiplier := (hashMultiplier + MULTIPLIER_STEP) % 0x1_0000_0000_0000_0000;
    }

    /** Room can be made without a rehash. */
    ghost predicate CanGrow()
      reads this
    {
      mask == 0 || (numElements < MaxAllowed(mask + 1) && infoInc > 2)
    }

    /** increase_size: makes room somehow; its result is always true, but a rehash may throw. */
    method IncreaseSize() returns (thrown: bool)
      requires Valid()
      modifies this, info
      ensures Valid() && if thrown then Part(contents, old(contents)) && GivenUp() else contents == old(contents)
      ensures thrown <==> old(!CanGrow() && Jams(NextLayout(Geo(), |contents|), info[..], keyVals[..]))
      ensures !old(CanGrow()) ==> Geo().(shift := 0) == old(NextLayout(Geo(), |contents|)) && (!thrown ==> Tight())
      ensures !thrown ==> mask != 0 && numElements < MaxAllowed(mask + 1)
      ensures old(CanGrow()) ==> !thrown && numElements < maxNumElementsAllowed
      ensures old(CanGrow() && mask != 0) ==> Geo().(shift := 0) == old(Geo()).(shift := 0)
      ensures |old(contents)| < 128 ==> !thrown
      ensures |old(contents)| < 127 ==> numElements < maxNumElementsAllowed || CanGrow()
      ensures old(CanGrow()) ==> mask + 1 == if old(mask) == 0 then INITIAL_NUM_ELEMENTS else old(mask + 1)
      ensures (info == old(info) || fresh(info)) && (keyVals == old(keyVals) || fresh(keyVals))
    {
      hide Slots, Limits, WithBuffer, MaxAllowed, Part, Unique, Holds, Jams, NextLayout;
      Counted();
      thrown := false;
      if mask == 0 {
        Nothing();
        InitData(INITIAL_NUM_ELEMENTS);
        return;
      }
      var maxAllowed := MaxAllowed(mask + 1);
      if numElements < maxAllowed {
        var ok := TryIncreaseInfo();
        if ok {
          return;
        }
      }
      thrown := RehashOrDouble();
      RoomAfter();
    }

    /** A table that is not full and holds fewer than 127 pairs has room, or can make some without a rehash. */
    lemma RoomAfter()
      requires Valid() && mask != 0
      ensures Tight() && numElements < MaxAllowed(mask + 1) && |contents| < 127 ==>
                numElements < maxNumElementsAllowed || CanGrow()
    {
      if Tight() && |contents| < 127 && maxNumElementsAllowed == 0 && infoInc <= 2 {
        TightMany();
      }
    }

    /** What increase_size does when it cannot do without a rehash. */
    method RehashOrDouble() returns (thrown: bool)
      requires Valid() && mask != 0
      modifies this
      ensures Valid() && fresh(info) && fresh(keyVals)
      ensures if thrown then Part(contents, old(contents)) && GivenUp() else contents == old(contents) && Tight()
      ensures !thrown ==> mask != 0 && numElements < MaxAllowed(mask + 1)
      ensures thrown <==> old(Jams(NextLayout(Geo(), |contents|), info[..], keyVals[..]))
      ensures Geo().(shift := 0) == old(NextLayout(Geo(), |contents|))
      ensures |old(contents)| < 128 ==> !thrown
      ensures |old(contents)| >= 128 && SameHome(Geo(), old(contents)) ==> thrown
      ensures if old(numElements * 2 < MaxAllowed(mask + 1))
              then mask == old(mask) && hashMultiplier == (old(hashMultiplier) + MULTIPLIER_STEP) % (SIZE_MAX + 1)
              else mask + 1 == 2 * old(mask + 1) && hashMultiplier == old(hashMultiplier)
    {
      hide Slots, Limits, WithBuffer, MaxAllowed, Part, Unique, Holds, PowerOfTwo, GivenUp, Jams;
      Storable();
      ghost var to, was, wasPairs := NextLayout(Geo(), |contents|), info[..], keyVals[..];
      if numElements * 2 < MaxAllowed(mask + 1) {
        NextHashMultiplier();
        assert info[..] == was && keyVals[..] == wasPairs && Resized(mask + 1) == to;
        thrown := Rehash(mask + 1);
      } else {
        MaxAllowedDouble(mask + 1);
        MaxAllowedGrows(mask + 1);
        Twice(mask + 1);
        assert Resized((mask + 1) * 2) == to;
        thrown := Rehash((mask + 1) * 2);
      }
      Counted();
    }

    static lemma MaxAllowedGrows(size: nat)
      requires 8 <= size
      ensures MaxAllowed(size) < MaxAllowed(2 * size)
    {
    }

    lemma Nothing()
      requires Valid() && mask == 0
      ensures contents == map[]
    {
    }

    // ---------- the public insertion ----------

    /** The first part of insertKeyPrepareEmptySpot: the slot of the key, or where it has to go. */
    method SeekInsert(key: K) returns (found: bool, idx: nat, inf: nat)
      requires Valid()
      ensures found ==> KeyAt(info[..], keyVals[..], key, idx) && key in contents
      ensures !found ==> StopsAt(key, idx, inf)
    {
      hide Home, At, TableOk, Probing, KeyAt, Climbing;
      idx, inf := KeyToIdx(key);
      StartClimb(key, idx, inf);
      while inf < info[idx]
        invariant Climbing(key, idx, inf) && idx <= keyVals.Length
        decreases keyVals.Length - idx
      {
        LookUp(key, idx, inf);
        idx, inf := idx + 1, inf + infoInc;
      }
      while inf == info[idx]
        invariant Climbing(key, idx, inf) && idx <= keyVals.Length && info[idx] <= inf
        decreases keyVals.Length - idx
      {
        LookUp(key, idx, inf);
        if key == keyVals[idx].0 {
          return true, idx, inf;
        }
        idx, inf := idx + 1, inf + infoInc;
      }
      LookUp(key, idx, inf);
      found := false;
    }

    /** The value of a key that is present is overwritten. */
    method Assign(key: K, val: V, idx: nat)
      requires Valid() && KeyAt(info[..], keyVals[..], key, idx) && key in contents
      modifies `contents, keyVals
      ensures Valid() && contents == old(contents)[key := val]
    {
      hide TableOk, RoomToGrow;
      Reassigned(Geo(), info[..], keyVals[..], contents, key, idx, val);
      contents := contents[key := val];
      keyVals[idx] := (keyVals[idx].0, val);
      assert keyVals[..] == old(keyVals[..])[idx := (key, val)];
    }

    /** insertKeyPrepareEmptySpot together with the assignment its caller makes. `past` are the slots before each
        rehash for which it had no other choice. */
    method InsertOrAssign(key: K, val: V) returns (r: InsertionState, thrown: bool, ghost past: seq<Past<K, V>>)
      requires Valid()
      modifies this, info, keyVals
      ensures Valid()
      ensures r == KeyFound ==> key in old(contents)
      ensures r == NewNode || r == OverwriteNode ==> key !in old(contents)
      ensures r != OverflowError ==> !thrown && contents == old(contents)[key := val]
      ensures r == OverflowError ==> if thrown then Part(contents, old(contents)) else contents == old(contents)
      ensures r == OverflowError ==> key !in old(contents) && old(Cramped())
      ensures key !in old(contents) && old(Cramped()) ==>
                && Outcome(old(Geo()), past, old(contents), r, thrown)
                && past != [] && past[0] == old((info[..], keyVals[..]))
      ensures thrown ==> r == OverflowError && GivenUp()
      ensures |old(contents)| < 127 ==> r != OverflowError
      ensures |old(contents)| < 128 ==> !thrown
      ensures OneHash() && |old(contents)| >= 127 && key !in old(contents) ==> r == OverflowError
      ensures old(numElements < maxNumElementsAllowed) ==>
                mask == old(mask) && hashMultiplier == old(hashMultiplier) && (key !in old(contents) ==> Tight())
      ensures (info == old(info) || fresh(info)) && (keyVals == old(keyVals) || fresh(keyVals))
    {
      hide Valid, KeyAt, Part, StopsAt, Outcome, Retrying, OneHash, Tight, GivenUp, MaxAllowed;
      ghost var g, m, cramped := Geo(), contents, Cramped();
      thrown, past := false, [];
      for i := 0 to 256
        invariant Valid() && contents == m && (i > 0 ==> key !in contents)
        invariant i == 0 ==> numElements == old(numElements) && maxNumElementsAllowed == old(maxNumElementsAllowed)
        invariant i == 0 ==> mask == old(mask) && infoInc == old(infoInc) && hashMultiplier == old(hashMultiplier)
        invariant i == 0 ==> Geo() == g && (info[..], keyVals[..]) == old((info[..], keyVals[..])) && past == []
        invariant i > 0 && cramped ==> past != [] && Retrying(g, past, i) && past[0] == old((info[..], keyVals[..]))
        invariant i > 0 ==> old(numElements >= maxNumElementsAllowed)
        invariant i > 0 && old(CanGrow()) ==> i == 1 && numElements < maxNumElementsAllowed
        invariant |contents| < 127 ==> i <= 2
        invariant |contents| < 127 && i == 1 ==> numElements < maxNumElementsAllowed || CanGrow()
        invariant |contents| < 127 && i == 2 ==> numElements < maxNumElementsAllowed
        invariant (info == old(info) || fresh(info)) && (keyVals == old(keyVals) || fresh(keyVals))
      {
        var found, idx, inf := SeekInsert(key);
        if found {
          Assign(key, val, idx);
          return KeyFound, false, past;
        }
        NotFound(key, idx, inf);
        if numElements >= maxNumElementsAllowed {
          thrown, past := MakeRoom(g, past, i, cramped);
          if thrown {
            return OverflowError, true, past;
          }
          continue;
        }
        if cramped {
          RoomAtLast(g, past, i);
        }
        r := PutNew(idx, inf, key, val);
        OneHashBound();
        return;
      }
      r := OverflowError;
      if cramped {
        OutOfAttempts(g, past);
      }
    }

    /** There is no room, and none can be made without a rehash. */
    ghost predicate Cramped()
      reads this
    {
      numElements >= maxNumElementsAllowed && !CanGrow()
    }

    /** After `i` attempts, all rehashes `past` were of no use, except that the last may have made room, with the
        help of a hash bit given up. */
    ghost predicate Retrying(g: Layout<K>, past: seq<Past<K, V>>, i: nat)
      reads this, info, keyVals
    {
      && Sane(g) && Valid() && mask != 0 && numElements < MaxAllowed(mask + 1)
      && past != [] && AllStuck(g, past, contents) && !Breaks(g, past, contents)
      && Geo().(shift := 0) == Tries(g, |contents|, |past|)
      && ((|past| == i && Tight())
          || (|past| == i - 1 && numElements < maxNumElementsAllowed && !Jam(Tries(g, |contents|, |past|), contents)))
    }

    /** increase_size, and what it means for the account kept of the rehashes. */
    method MakeRoom(ghost g: Layout<K>, ghost past: seq<Past<K, V>>, ghost i: nat, ghost cramped: bool)
      returns (thrown: bool, ghost past': seq<Past<K, V>>)
      requires Valid() && numElements >= maxNumElementsAllowed
      requires cramped ==> if i == 0 then g == Geo() && past == [] && !CanGrow() else Retrying(g, past, i)
      modifies this, info
      ensures Valid() && if thrown then Part(contents, old(contents)) && GivenUp() else contents == old(contents)
      ensures cramped ==> Sane(g) && past' != []
                          && past'[0] == if i == 0 then old((info[..], keyVals[..])) else past[0]
      ensures cramped ==> if thrown then Outcome(g, past', old(contents), OverflowError, true)
                          else Retrying(g, past', i + 1)
      ensures !cramped ==> past' == past
      ensures old(CanGrow()) ==> !thrown && numElements < maxNumElementsAllowed
      ensures |old(contents)| < 128 ==> !thrown
      ensures |old(contents)| < 127 ==> numElements < maxNumElementsAllowed || CanGrow()
      ensures (info == old(info) || fresh(info)) && (keyVals == old(keyVals) || fresh(keyVals))
    {
      hide Valid, Part, Retrying, Jam, Jams, AllStuck, Breaks, NextLayout, Tries, Tight, MaxAllowed, GivenUp;
      past' := past;
      if cramped {
        past' := StillCramped(g, past, i);
      }
      thrown := IncreaseSize();
      if cramped && !thrown {
        AfterIncrease(g, past', i + 1);
      }
    }

    /** Without room once more: either a hash bit can be given up, and then nothing jams, or the pairs do jam and there
        is another rehash. */
    lemma StillCramped(g: Layout<K>, past: seq<Past<K, V>>, i: nat) returns (past': seq<Past<K, V>>)
      requires Valid() && numElements >= maxNumElementsAllowed
      requires if i == 0 then g == Geo() && past == [] && !CanGrow() else Retrying(g, past, i)
      ensures Sane(g) && past' != [] && AllStuck(g, past', contents)
      ensures past'[0] == if i == 0 then (info[..], keyVals[..]) else past[0]
      ensures CanGrow() ==> mask != 0 && |past'| == i && !Breaks(g, past', contents) && i > 0
                            && numElements < MaxAllowed(mask + 1) && Geo().(shift := 0) == Tries(g, |contents|, i)
                            && !Jam(Tries(g, |contents|, i), contents)
      ensures !CanGrow() ==> |past'| == i + 1 && NextLayout(Geo(), |contents|) == Tries(g, |contents|, i + 1)
                             && (Breaks(g, past', contents) <==>
                                 Jams(NextLayout(Geo(), |contents|), info[..], keyVals[..]))
    {
      hide Jam, Jams, Slots, NextLayout;
      past' := past;
      SameNext(Geo());
      if i > 0 {
        GivenUpIff();
      }
      if !CanGrow() {
        past' := past + [(info[..], keyVals[..])];
        if i > 0 {
          StuckHere(Tries(g, |contents|, i), past[i - 1]);
        }
      }
    }

    lemma SameNext(g: Layout<K>)
      requires Valid()
      ensures Sane(Geo()) && NextLayout(g, |contents|) == NextLayout(g.(shift := 0), |contents|)
    {
    }

    lemma StuckHere(g: Layout<K>, was: Past<K, V>)
      requires Valid() && mask != 0 && infoInc <= 2 && Geo().(shift := 0) == g
      requires Jam(g, contents) && !Jams(g, was.0, was.1)
      ensures Stuck(g, was, (info[..], keyVals[..]), contents)
    {
      hide Jam, Jams;
      assert g.(shift := 4) == Geo();
    }

    lemma AfterIncrease(g: Layout<K>, past: seq<Past<K, V>>, i: nat)
      requires Valid() && mask != 0 && numElements < MaxAllowed(mask + 1)
      requires Sane(g) && past != [] && AllStuck(g, past, contents) && !Breaks(g, past, contents)
      requires Geo().(shift := 0) == Tries(g, |contents|, |past|)
      requires (|past| == i && Tight())
               || (|past| == i - 1 && numElements < maxNumElementsAllowed
                   && !Jam(Tries(g, |contents|, |past|), contents))
      ensures Retrying(g, past, i) && Sane(g)
    {
      hide Jam, Jams, Slots, Limits, NextLayout, AllStuck, Breaks, Tries, MaxAllowed, Tight;
    }

    lemma RoomAtLast(g: Layout<K>, past: seq<Past<K, V>>, i: nat)
      requires Retrying(g, past, i) && numElements < maxNumElementsAllowed
      ensures Sane(g) && forall r | r != OverflowError :: Outcome(g, past, contents, r, false)
    {
      hide Jam, Jams, Slots, Limits, NextLayout;
      if Tight() {
        GivenUpIff();
      }
    }

    lemma OutOfAttempts(g: Layout<K>, past: seq<Past<K, V>>)
      requires Retrying(g, past, 256)
      ensures Sane(g) && Outcome(g, past, contents, OverflowError, false)
    {
      hide Jam, Jams, Slots, Limits, NextLayout, AllStuck, Breaks, Tries, MaxAllowed, Tight;
    }

    /** All keys have the same hash, whatever the multiplier. */
    ghost predicate OneHash()
    {
      forall k, k', mult :: hash(k, mult) == hash(k', mult)
    }

    lemma OneHashBound()
      requires Valid()
      ensures OneHash() ==> |contents| <= 127
    {
      SameHomeBound();
      if OneHash() {
        assert forall k, k' :: hash(k, hashMultiplier) == hash(k', hashMultiplier);
        assert SameHome(Geo(), contents);
      }
    }

    lemma NotFound(key: K, idx: int, inf: int)
      requires Valid() && StopsAt(key, idx, inf)
      ensures key !in contents
      ensures numElements < maxNumElementsAllowed ==> mask != 0 && numElements < MaxAllowed(mask + 1)
    {
    }

    /** The loop of reserve: the size doubles until it is large enough or wraps to 0. */
    static method SizeFor(minElementsAllowed: nat) returns (size: nat)
      ensures size == 0 || (8 <= size && minElementsAllowed <= MaxAllowed(size) && PowerOfTwo(size))
      ensures size == 0 <==> MAX_RESERVE < minElementsAllowed
      ensures size > 8 ==> MaxAllowed(size / 2) < minElementsAllowed
      ensures size == Fit(minElementsAllowed)
    {
      hide PowerOfTwo, MaxAllowed;
      size := INITIAL_NUM_ELEMENTS;
      PowerEight();
      TopSize();
      while MaxAllowed(size) < minElementsAllowed && size != 0
        invariant size == 0 || 8 <= size <= SIZE_MAX / 2 + 1
        invariant size == 0 ==> MAX_RESERVE < minElementsAllowed
        invariant size > 8 ==> MaxAllowed(size / 2) < minElementsAllowed
        invariant Fit(minElementsAllowed) == if size == 0 then 0 else FitFrom(size, minElementsAllowed)
        invariant size != 0 ==> PowerOfTwo(size)
        decreases if size == 0 then 0 else SIZE_MAX - size
      {
        if size == SIZE_MAX / 2 + 1 {
          size := 0;
        } else {
          HalfSize(size);
          size := size * 2;
        }
      }
      if size != 0 {
        MoreAllowed(size, SIZE_MAX / 2 + 1);
      }
    }

    /** reserve */
    method Reserve(c: nat, forceRehash: bool) returns (thrown: bool)
      requires Valid()
      modifies this
      ensures Valid()
      ensures if thrown then Part(contents, old(contents)) else contents == old(contents)
      ensures (info == old(info) || fresh(info)) && (keyVals == old(keyVals) || fresh(keyVals))
      ensures !thrown ==> c <= MaxAllowed(mask + 1)
      ensures var n := Fit(if c < |old(contents)| then |old(contents)| else c);
              thrown <==> n == 0 || ((forceRehash || n > old(mask + 1))
                                     && old(Jams(Resized(n), info[..], keyVals[..])))
      ensures thrown ==> GivenUp() || MAX_RESERVE < c || MAX_RESERVE < |old(contents)|
      ensures MAX_RESERVE < c || MAX_RESERVE < |old(contents)| ==> thrown && contents == old(contents)
      ensures |old(contents)| < 128 ==> (thrown <==> MAX_RESERVE < c)
      ensures hashMultiplier == old(hashMultiplier)
      ensures !thrown && (forceRehash || old(mask) == 0) ==> mask != 0 && Tight()
      ensures forceRehash && c <= MAX_RESERVE && |old(contents)| <= MAX_RESERVE ==>
                mask + 1 == 8 || MaxAllowed((mask + 1) / 2) < c || MaxAllowed((mask + 1) / 2) < |old(contents)|
    {
      hide WithBuffer, MaxAllowed, Unique, Holds, Slots, PowerOfTwo, Jams, Fit;
      Storable();
      ManyFit();
      var newSize := SizeFor(if c < numElements then numElements else c);
      if newSize == 0 {
        return true;
      }
      thrown := false;
      if forceRehash || newSize > mask + 1 {
        thrown := Rehash(newSize);
      } else {
        MoreAllowed(newSize, mask + 1);
      }
    }

    /** compact: shrinks the table to the smallest size that is large enough. */
    method Compact() returns (thrown: bool)
      requires Valid()
      modifies this
      ensures Valid() && hashMultiplier == old(hashMultiplier)
      ensures if thrown then Part(contents, old(contents)) else contents == old(contents)
      ensures (info == old(info) || fresh(info)) && (keyVals == old(keyVals) || fresh(keyVals))
      ensures mask <= old(mask)
      ensures var n := Fit(|old(contents)|);
              thrown <==> n == 0 || (n < old(mask + 1) && old(Jams(Resized(n), info[..], keyVals[..])))
      ensures |old(contents)| < 128 ==> !thrown
      ensures mask < 8 || |old(contents)| > MAX_RESERVE || MaxAllowed((mask + 1) / 2) < |old(contents)|
    {
      hide WithBuffer, MaxAllowed, Unique, Holds, Slots, PowerOfTwo, Jams, Fit;
      Storable();
      ManyFit();
      var newSize := SizeFor(numElements);
      if newSize == 0 {
        return true;
      }
      thrown := false;
      if newSize < mask + 1 {
        thrown := Rehash(newSize);
      } else {
        NoSmaller(mask + 1, newSize);
      }
    }

    static lemma NoSmaller(a: nat, b: nat)
      requires PowerOfTwo(a) && PowerOfTwo(b) && a <= b
      ensures a == b || 2 * a <= b
      ensures MaxAllowed(a / 2) <= MaxAllowed(b / 2)
    {
      if a < b {
        NextPower(a, b);
      }
    }

    static lemma ManyFit()
      ensures 127 <= MAX_RESERVE
    {
    }

    /** A larger power of two allows at least as many elements. */
    static lemma MoreAllowed(a: nat, b: nat)
      requires PowerOfTwo(a) && PowerOfTwo(b) && 8 <= a <= b
      ensures MaxAllowed(a) <= MaxAllowed(b)
    {
      if a < b {
        NextPower(a, b);
      }
    }

    /** Any run of operations that does not throw does what it would do to a map, and afterwards `findIdx` finds
        exactly the keys of that map. A safe run does not throw, whatever the hash function is; and when all keys
        have the same hash, only a safe run does not. With a given hash function neither does a longer run whose maps
        do not jam. */
    method Run(ops: seq<Op<K, V>>, probe: K) returns (thrown: bool, found: bool)
      requires Valid()
      modifies this, info, keyVals
      ensures Valid()
      ensures !thrown ==> contents == Model(old(contents), ops) && (found <==> probe in Model(old(contents), ops))
      ensures Safe(old(contents), ops) || Smooth(hash, old(contents), ops) ==> !thrown
      ensures OneHash() ==> (thrown <==> !Safe(old(contents), ops))
    {
      hide Valid, Part, KeyAt, OneHash, Model, Apply, OpSafe, OpClear;
      thrown, found := false, false;
      ghost var m := contents;
      assert ops[..0] == [] && Model(m, []) == m by {
        ModelStart(m);
      }
      for i := 0 to |ops|
        invariant Valid() && contents == Model(m, ops[..i])
        invariant OneHash() ==> forall j | 0 <= j < i :: OpSafe(Model(m, ops[..j]), ops[j])
        invariant (info == old(info) || fresh(info)) && (keyVals == old(keyVals) || fresh(keyVals))
      {
        ModelStep(m, ops, i);
        thrown := Step(ops[i]);
        if thrown {
          return;
        }
      }
      assert ops[..|ops|] == ops;
      var idx := FindIdx(probe);
      FoundWithin(probe, idx);
      found := idx < keyVals.Length;
    }

    static lemma ModelStart(m: map<K, V>)
      ensures Model(m, []) == m
    {
    }

    /** One operation. */
    method Step(op: Op<K, V>) returns (thrown: bool)
      requires Valid()
      modifies this, info, keyVals
      ensures Valid()
      ensures !thrown ==> contents == Apply(old(contents), op)
      ensures OpSafe(old(contents), op) || OpClear(hash, old(contents), op) ==> !thrown
      ensures OneHash() && !OpSafe(old(contents), op) ==> thrown
      ensures (info == old(info) || fresh(info)) && (keyVals == old(keyVals) || fresh(keyVals))
    {
      hide Valid, Part, KeyAt, OneHash, Clear, Jam, Jams, NextLayout, MaxAllowed;
      OneHashBound();
      ClearNext();
      ClearFit(if op.Grow? then op.c else 0);
      thrown := false;
      match op {
        case Put(key, val) =>
          var r;
          ghost var past;
          StoredPairs();
          ghost var g, m := Geo(), contents;
          r, thrown, past := InsertOrAssign(key, val);
          if r == OverflowError {
            FirstRehash(g, past, m, r, thrown);
          }
          thrown := r == OverflowError;
        case Del(key) =>
          var _ := Erase(key);
        case Grow(c, force) =>
          thrown := Reserve(c, force);
      }
    }

    lemma StoredPairs()
      requires Valid()
      ensures Sane(Geo()) && keyVals.Length <= info.Length
      ensures Unique(info[..], keyVals[..]) && Holds(info[..], keyVals[..], contents)
    {
    }

    /** Pairs that jam nowhere can be moved to any size that is large enough. */
    lemma ClearMoves(to: Layout<K>)
      requires Valid() && Clear(hash, contents) && to == Layout(hash, to.mult, to.size, 0)
      requires PowerOfTwo(to.size) && 8 <= to.size && |contents| <= MaxAllowed(to.size)
      ensures !Jam(to, contents) && !Jams(to, info[..], keyVals[..])
    {
      hide PowerOfTwo, MaxAllowed, Jam;
      if Jams(to, info[..], keyVals[..]) {
        JamsJam(to, info[..], keyVals[..], contents);
      }
    }

    lemma ClearNext()
      requires Valid()
      ensures Clear(hash, contents) && mask != 0 ==>
                Sane(Geo()) && !Jam(NextLayout(Geo(), |contents|), contents)
    {
      hide PowerOfTwo, MaxAllowed, Clear, Jam;
      if Clear(hash, contents) && mask != 0 {
        MaxAllowedDouble(mask + 1);
        Twice(mask + 1);
        ClearMoves(NextLayout(Geo(), |contents|));
      }
    }

    lemma ClearFit(c: nat)
      requires Valid()
      ensures var n := Fit(if c < |contents| then |contents| else c);
              Clear(hash, contents) && |contents| <= MAX_RESERVE && c <= MAX_RESERVE ==>
                n != 0 && !Jams(Resized(n), info[..], keyVals[..])
    {
      hide PowerOfTwo, MaxAllowed, Clear, Jams;
      if Clear(hash, contents) && |contents| <= MAX_RESERVE && c <= MAX_RESERVE {
        PowerEight();
        FitFits(8, if c < |contents| then |contents| else c);
        ClearMoves(Resized(Fit(if c < |contents| then |contents| else c)));
      }
    }

    lemma FoundWithin(key: K, idx: int)
      requires Valid()
      ensures KeyAt(info[..], keyVals[..], key, idx) ==> idx < keyVals.Length <= info.Length
    {
    }
  }

  // ---------- a rehash that throws ----------

  /** Keys hash to homes 1024 slots apart. */
  function Spread(key: nat, mult: nat): nat
  {
    32 * (1024 * key)
  }

  /** Well spread pairs leave room. */
  lemma SpreadRoom(t: Table<nat, nat>)
    requires t.Valid() && t.Tight() && t.hash == Spread && t.mask + 1 >= 131072
    requires forall k | k in t.contents :: k < 128
    ensures t.maxNumElementsAllowed == MaxAllowed(t.mask + 1) >= 1000
  {
    var g, info, kvs := t.Geo(), t.info[..], t.keyVals[..];
    forall k, k' | k in t.contents && k' in t.contents && Home(g, k) == Home(g, k')
      ensures k == k'
    {
      SpreadHome(g, k);
      SpreadHome(g, k');
    }
    forall j | 0 <= j < |kvs|
      ensures info[j] + t.infoInc <= 255
    {
      AllAtHome(g, info, kvs, t.contents, j);
    }
  }

  lemma SpreadHome(g: Layout<nat>, k: nat)
    requires Sane(g) && g.hash == Spread && g.size >= 131072 && k < 128
    ensures Home(g, k) == 1024 * k
  {
  }

  lemma SmallPowers(n: nat)
    requires PowerOfTwo(n) && 8 <= n <= 321
    ensures n == 8 || n == 16 || n == 32 || n == 64 || n == 128 || n == 256
  {
    PowersUpTo256();
    hide PowerOfTwo;
    if n > 256 {
      NextPower(256, n);
    } else if n > 128 {
      NextPower(128, n);
    } else if n > 64 {
      NextPower(64, n);
    } else if n > 32 {
      NextPower(32, n);
    } else if n > 16 {
      NextPower(16, n);
    } else if n > 8 {
      NextPower(8, n);
    }
  }

  lemma PowersUpTo256()
    ensures PowerOfTwo(8) && PowerOfTwo(16) && PowerOfTwo(32) && PowerOfTwo(64) && PowerOfTwo(128)
    ensures PowerOfTwo(256)
  {
    hide PowerOfTwo;
    PowerEight();
    Twice(8);
    Twice(16);
    Twice(32);
    Twice(64);
    Twice(128);
  }

  /** In a table that is just large enough for 128 pairs they all have home 0. */
  lemma SmallTable(t: Table<nat, nat>)
    requires t.Valid() && t.hash == Spread && (t.mask + 1 == 8 || MaxAllowed((t.mask + 1) / 2) < 128)
    ensures |t.contents| <= 127
  {
    hide PowerOfTwo, Home, Table.Slots, Table.Limits, SameHome;
    var g := t.Geo();
    t.SameHomeBound();
    SmallSize(t);
    forall k | k in t.contents
      ensures Sane(g) && Home(g, k) == 0
    {
      SpreadHomeSmall(g, k);
    }
    AllZero(g, t.contents);
  }

  lemma SmallSize(t: Table<nat, nat>)
    requires t.Valid() && (t.mask + 1 == 8 || MaxAllowed((t.mask + 1) / 2) < 128)
    ensures var n := t.mask + 1; n == 1 || n == 8 || n == 16 || n == 32 || n == 64 || n == 128 || n == 256
  {
    hide PowerOfTwo, Table.Slots, Table.Limits;
    if t.mask != 0 {
      assert t.mask + 1 <= 321;
      SmallPowers(t.mask + 1);
    }
  }

  lemma SpreadHomeSmall(g: Layout<nat>, k: nat)
    requires g.shift <= 4 && g.hash == Spread
    requires var n := g.size; n == 1 || n == 8 || n == 16 || n == 32 || n == 64 || n == 128 || n == 256
    ensures Sane(g) && Home(g, k) == 0
  {
    NoRemainder(4 * k, g.size);
    assert g.hash(k, g.mult) / 32 == 256 * (4 * k);
  }

  lemma NoRemainder(y: nat, n: nat)
    requires n == 1 || n == 8 || n == 16 || n == 32 || n == 64 || n == 128 || n == 256
    ensures 256 * y % n == 0
  {
    if n == 8 {
      assert 256 * y % 8 == 0;
    } else if n == 16 {
      assert 256 * y % 16 == 0;
    } else if n == 32 {
      assert 256 * y % 32 == 0;
    } else if n == 64 {
      assert 256 * y % 64 == 0;
    } else if n == 128 {
      assert 256 * y % 128 == 0;
    }
  }

  lemma AllZero(g: Layout<nat>, m: map<nat, nat>)
    requires Sane(g) && forall k | k in m :: Home(g, k) == 0
    ensures SameHome(g, m)
  {
  }

  /** The keys below `n`. */
  ghost predicate KeysBelow(m: map<nat, nat>, n: nat)
  {
    |m| == n && forall x: nat :: x in m <==> x < n
  }

  lemma OneMoreKey(m: map<nat, nat>, n: nat)
    requires KeysBelow(m, n)
    ensures KeysBelow(m[n := 0], n + 1)
  {
    var m' := m[n := 0];
    assert m'.Keys == m.Keys + {n} && |m'| == |m'.Keys| && |m| == |m.Keys|;
    Sets.AddOne(m.Keys, n);
    assert forall x: nat :: x in m' <==> x in m || x == n;
  }

  /** A table that reserved much gets 128 well spread pairs. */
  method Filled() returns (t: Table<nat, nat>)
    ensures fresh(t) && fresh(t.info) && fresh(t.keyVals)
    ensures t.Valid() && t.hash == Spread && KeysBelow(t.contents, 128)
  {
    hide Table.Valid, Table.Tight, MaxAllowed, Part, Table.OneHash, Table.GivenUp, KeysBelow, Outcome;
    t := new Table(Spread);
    BigEnough();
    var thrown := t.Reserve(131072, false);
    for k := 0 to 128
      invariant t.Valid() && t.Tight() && t.hash == Spread && t.mask + 1 >= 131072 && fresh(t)
      invariant fresh(t.info) && fresh(t.keyVals) && KeysBelow(t.contents, k)
    {
      FewSpread(t, k);
      OneMoreKey(t.contents, k);
      var _, _, _ := t.InsertOrAssign(k, 0);
    }
  }

  lemma FewSpread(t: Table<nat, nat>, k: nat)
    requires t.Valid() && t.Tight() && t.hash == Spread && t.mask + 1 >= 131072 && KeysBelow(t.contents, k) && k < 128
    ensures k !in t.contents && t.numElements < t.maxNumElementsAllowed
  {
    hide Table.Valid, Table.Tight, MaxAllowed;
    SpreadRoom(t);
    t.Counted();
  }

  /** When that table is compacted, the rehash puts them all on one home, throws, and pairs are lost. */
  method CompactThrows() returns (t: Table<nat, nat>, thrown: bool, ghost before: map<nat, nat>, ghost lost: nat)
    ensures |before| == 128 && forall k: nat :: k in before <==> k < 128
    ensures thrown && t.Valid() && t.hash == Spread && Part(t.contents, before)
    ensures lost in before && lost !in t.contents
  {
    hide Table.Valid, MaxAllowed, Part, Jams, Fit;
    t := Filled();
    BigEnough();
    before := t.contents;
    thrown := t.Compact();
    SmallTable(t);
    lost := Lost(t.contents, before);
  }

  lemma Lost(part: map<nat, nat>, whole: map<nat, nat>) returns (lost: nat)
    requires |part| < |whole|
    ensures lost in whole && lost !in part
  {
    if forall k | k in whole :: k in part {
      Sets.Subset(whole.Keys, part.Keys);
    }
    lost :| lost in whole && lost !in part;
  }

  lemma BigEnough()
    ensures 131072 <= MAX_RESERVE && MaxAllowed(0) == 0 && KeysBelow(map[], 0)
  {
  }
}
