/** What Clock decides, on snapshots of its queue (newest first). */
module ClockSpec {
  import opened NextUse

  datatype Slot = Slot(id: ObjId, size: nat, freq: nat)
  {
    function Less(n: int): Slot
    {
      this.(freq := if 0 <= freq - n then freq - n else 0)
    }
  }

  type Ring = seq<Slot>

  function SumFreq(q: Ring): nat
  {
    if q == [] then 0 else SumFreq(q[..|q| - 1]) + q[|q| - 1].freq
  }

  function Bytes(q: Ring): nat
  {
    if q == [] then 0 else Bytes(q[..|q| - 1]) + q[|q| - 1].size
  }

  function Less(q: Ring, n: int): (r: Ring)
    ensures |r| == |q| && forall i | 0 <= i < |q| :: r[i] == q[i].Less(n)
  {
    seq(|q|, i requires 0 <= i < |q| => q[i].Less(n))
  }

  /** The oldest object comes round again with one credit less. */
  function Turn(q: Ring): Ring
    requires q != []
  {
    [q[|q| - 1].Less(1)] + q[..|q| - 1]
  }

  /** The object at `k` has the smallest counter and nothing older has one as small. */
  ghost predicate IsVictim(q: Ring, k: int)
  {
    && 0 <= k < |q|
    && (forall j | 0 <= j < k :: q[k].freq <= q[j].freq)
    && (forall j | k < j < |q| :: q[k].freq < q[j].freq)
  }

  /** The queue after the hand passed everything older than `k`, in round `n`. */
  function Swept(q: Ring, k: int, n: nat): Ring
    requires -1 <= k < |q|
  {
    Less(q[k + 1..], n + 1) + Less(q[..k + 1], n)
  }

  /** What is left when the object at `k` is evicted. */
  function AfterEvict(q: Ring, k: nat): (r: Ring)
    requires k < |q|
    ensures |r| == |q| - 1
  {
    Less(q[k + 1..], q[k].freq + 1) + Less(q[..k], q[k].freq)
  }

  /** Everything in front of the hand has credit for `n` rounds, everything behind it for one more. */
  ghost predicate Credit(q: Ring, k: int, n: int)
  {
    && -1 <= k < |q|
    && (forall j | 0 <= j <= k :: n <= q[j].freq)
    && (forall j | k < j < |q| :: n < q[j].freq)
  }

  lemma CreditStop(q: Ring, k: nat, n: nat)
    requires Credit(q, k, n) && k < |q| && q[k].freq - n < 1
    ensures IsVictim(q, k) && q[k].freq == n
  {
  }

  lemma {:induction false} SumConcat(a: Ring, b: Ring)
    ensures SumFreq(a + b) == SumFreq(a) + SumFreq(b)
  {
    if b == [] {
      assert a + b == a;
    } else {
      assert (a + b)[..|a + b| - 1] == a + b[..|b| - 1];
      SumConcat(a, b[..|b| - 1]);
    }
  }

  lemma {:induction false} BytesConcat(a: Ring, b: Ring)
    ensures Bytes(a + b) == Bytes(a) + Bytes(b)
  {
    if b == [] {
      assert a + b == a;
    } else {
      assert (a + b)[..|a + b| - 1] == a + b[..|b| - 1];
      BytesConcat(a, b[..|b| - 1]);
    }
  }

  lemma {:induction false} LessBytes(q: Ring, n: int)
    ensures Bytes(Less(q, n)) == Bytes(q)
  {
    if q != [] {
      assert Less(q, n)[..|q| - 1] == Less(q[..|q| - 1], n);
      LessBytes(q[..|q| - 1], n);
    }
  }

  lemma BytesAround(q: Ring, k: nat)
    requires k < |q|
    ensures Bytes(q) == Bytes(q[..k]) + q[k].size + Bytes(q[k + 1..])
  {
    assert q == (q[..k] + [q[k]]) + q[k + 1..];
    BytesConcat(q[..k] + [q[k]], q[k + 1..]);
    assert (q[..k] + [q[k]])[..k] == q[..k];
  }

  lemma BytesAfterEvict(q: Ring, k: nat)
    requires k < |q|
    ensures Bytes(AfterEvict(q, k)) == Bytes(q) - q[k].size
  {
    hide Bytes, Less;
    BytesAround(q, k);
    LessBytes(q[..k], q[k].freq);
    LessBytes(q[k + 1..], q[k].freq + 1);
    BytesConcat(Less(q[k + 1..], q[k].freq + 1), Less(q[..k], q[k].freq));
  }

  lemma TurnSum(q: Ring)
    requires q != [] && q[|q| - 1].freq >= 1
    ensures SumFreq(Turn(q)) == SumFreq(q) - 1
  {
    SumConcat([q[|q| - 1].Less(1)], q[..|q| - 1]);
    assert SumFreq([q[|q| - 1].Less(1)]) == q[|q| - 1].freq - 1;
  }

  /** One turn of the hand inside a round, and into the next round. */
  lemma SweptTurn(q: Ring, k: int, n: nat)
    requires Credit(q, k, n) && 0 <= k && q[k].freq - n >= 1
    ensures Credit(q, k - 1, n) && Turn(Swept(q, k, n)) == Swept(q, k - 1, n)
    ensures Swept(q, k, n)[|q| - 1] == q[k].Less(n)
    ensures k == 0 ==> Credit(q, |q| - 1, n + 1) && Swept(q, -1, n) == Swept(q, |q| - 1, n + 1)
  {
    assert q[k].Less(n).Less(1) == q[k].Less(n + 1);
  }

  lemma SweptLast(q: Ring, k: int, n: nat)
    requires 0 <= k < |q|
    ensures |Swept(q, k, n)| == |q| && Swept(q, k, n)[|q| - 1] == q[k].Less(n)
    ensures Swept(q, k, n)[..|q| - 1] == Less(q[k + 1..], n + 1) + Less(q[..k], n)
  {
  }

  /** The victim leaves without credit. */
  lemma SweptEnd(q: Ring, k: nat, n: nat)
    requires Credit(q, k, n) && k < |q| && q[k].freq == n
    ensures Swept(q, k, n) == AfterEvict(q, k) + [q[k].Less(n)]
    ensures SumFreq(Swept(q, k, n)) == SumFreq(AfterEvict(q, k))
  {
    hide Less;
    SweptLast(q, k, n);
    LastFree(Swept(q, k, n), AfterEvict(q, k), q[k].Less(n));
  }

  lemma LastFree(q: Ring, rest: Ring, v: Slot)
    requires q != [] && q[..|q| - 1] == rest && q[|q| - 1] == v && v.freq == 0
    ensures q == rest + [v] && SumFreq(q) == SumFreq(rest)
  {
  }

  lemma SweptStart(q: Ring)
    ensures Swept(q, |q| - 1, 0) == q && Credit(q, |q| - 1, 0)
  {
    assert q[..|q| - 1 + 1] == q && Less(q, 0) == q;
  }

  lemma VictimUnique(q: Ring, k: int, k': int)
    requires IsVictim(q, k) && IsVictim(q, k')
    ensures k == k'
  {
    assert q[k].freq == q[k'].freq;
  }

  /** The victim of a nonempty queue. */
  function VictimOf(q: Ring): (k: nat)
    requires q != []
    ensures IsVictim(q, k)
  {
    if |q| == 1 then 0
    else
      var k := VictimOf(q[..|q| - 1]);
      if q[|q| - 1].freq <= q[k].freq then |q| - 1 else k
  }

  predicate Has(q: Ring, x: ObjId)
  {
    exists k :: 0 <= k < |q| && q[k].id == x
  }

  /** A hit earns one credit, up to `maxFreq`. */
  function Credited(q: Ring, x: ObjId, maxFreq: nat): (r: Ring)
    ensures |r| == |q|
  {
    seq(|q|, i requires 0 <= i < |q| =>
      if q[i].id == x && q[i].freq < maxFreq then q[i].(freq := q[i].freq + 1) else q[i])
  }

  /** Evict until at most `room` bytes are left. */
  function MakeRoom(q: Ring, room: int): (r: Ring)
    ensures r == [] || Bytes(r) <= room
    decreases |q|
  {
    if q == [] || Bytes(q) <= room then q else MakeRoom(AfterEvict(q, VictimOf(q)), room)
  }

  /** One `get` of a Clock cache. */
  function ClockGet(q: Ring, capacity: nat, maxFreq: nat, x: ObjId, size: nat): Ring
  {
    if Has(q, x) then Credited(q, x, maxFreq)
    else if size > capacity then q
    else [Slot(x, size, 0)] + MakeRoom(q, capacity - size)
  }

  lemma {:induction false} CreditedBytes(q: Ring, x: ObjId, maxFreq: nat)
    ensures Bytes(Credited(q, x, maxFreq)) == Bytes(q)
  {
    if q != [] {
      assert Credited(q, x, maxFreq)[..|q| - 1] == Credited(q[..|q| - 1], x, maxFreq);
      CreditedBytes(q[..|q| - 1], x, maxFreq);
    }
  }

  lemma BytesFront(s: Slot, q: Ring)
    ensures Bytes([s] + q) == s.size + Bytes(q)
  {
    BytesConcat([s], q);
    assert Bytes([s]) == Bytes([]) + s.size;
  }

  /** A Clock cache never overflows. */
  lemma GetFits(q: Ring, capacity: nat, maxFreq: nat, x: ObjId, size: nat)
    requires Bytes(q) <= capacity
    ensures Bytes(ClockGet(q, capacity, maxFreq, x, size)) <= capacity
  {
    if Has(q, x) {
      CreditedBytes(q, x, maxFreq);
    } else if size <= capacity {
      BytesFront(Slot(x, size, 0), MakeRoom(q, capacity - size));
    }
  }

  /** The hand takes no more credit than there is. */
  lemma CreditTaken(q: Ring)
    requires q != []
    ensures 0 <= SumFreq(q) - SumFreq(AfterEvict(q, VictimOf(q))) <= SumFreq(q)
  {
    hide SumFreq, Less;
    var k := VictimOf(q);
    SumAround(q, k);
    SumConcat(Less(q[k + 1..], q[k].freq + 1), Less(q[..k], q[k].freq));
    LessSum(q[k + 1..], q[k].freq + 1);
    LessSum(q[..k], q[k].freq);
  }

  lemma SumAround(q: Ring, k: nat)
    requires k < |q|
    ensures SumFreq(q) == SumFreq(q[..k]) + q[k].freq + SumFreq(q[k + 1..])
  {
    assert q == (q[..k] + [q[k]]) + q[k + 1..];
    SumConcat(q[..k] + [q[k]], q[k + 1..]);
    assert (q[..k] + [q[k]])[..k] == q[..k];
  }

  lemma {:induction false} LessSum(q: Ring, n: nat)
    ensures SumFreq(Less(q, n)) <= SumFreq(q)
  {
    if q != [] {
      assert Less(q, n)[..|q| - 1] == Less(q[..|q| - 1], n);
      LessSum(q[..|q| - 1], n);
    }
  }

  // ---------- which objects a cache keeps, and with what credit ----------

  ghost predicate Distinct(q: Ring)
  {
    forall i, j | 0 <= i < j < |q| :: q[i].id != q[j].id
  }

  /** A hit changes one counter and moves nothing. */
  lemma HitSlots(q: Ring, capacity: nat, maxFreq: nat, x: ObjId, size: nat)
    requires exists k :: 0 <= k < |q| && q[k].id == x
    ensures var r := ClockGet(q, capacity, maxFreq, x, size);
            && |r| == |q|
            && (forall i | 0 <= i < |q| :: r[i].id == q[i].id && r[i].size == q[i].size)
            && (forall i | 0 <= i < |q| && q[i].id != x :: r[i].freq == q[i].freq)
            && (forall i | 0 <= i < |q| && q[i].id == x ::
                  if q[i].freq < maxFreq then r[i].freq == q[i].freq + 1 else r[i].freq == q[i].freq)
  {
  }

  /** Where the object in slot `j` of the queue after an eviction was before: the hand stops behind the victim. */
  function Before(q: Ring, k: nat, j: nat): nat
  {
    if k + 1 + j < |q| then k + 1 + j else k + 1 + j - |q|
  }

  /** Every survivor pays for each round that the hand passed it: the victim's counter, and one more if it is older. */
  lemma EvictSlots(q: Ring, k: nat, j: nat)
    requires IsVictim(q, k) && j < |q| - 1
    ensures var r, i := AfterEvict(q, k), Before(q, k, j);
            && i < |q| && i != k && r[j].id == q[i].id && r[j].size == q[i].size
            && q[i].freq == r[j].freq + q[k].freq + if i < k then 0 else 1
  {
  }

  /** An object hit just now, with credit to be had, is not the next victim while another has none: the next victim is
      the oldest object without credit, and the object hit survives a miss that takes one eviction. */
  lemma HitIsSpared(q: Ring, capacity: nat, maxFreq: nat, x: ObjId, size: nat, k: nat, y: ObjId, size': nat)
    requires Has(q, x) && 1 <= maxFreq && exists j :: 0 <= j < |q| && q[j].id != x && q[j].freq == 0
    requires IsVictim(ClockGet(q, capacity, maxFreq, x, size), k)
    ensures var r := ClockGet(q, capacity, maxFreq, x, size);
            && r[k].id != x && r[k].freq == 0 && (forall i | k < i < |r| :: 0 < r[i].freq)
            && (y != x && Bytes(r) - r[k].size <= capacity - size' ==>
                  Has(ClockGet(r, capacity, maxFreq, y, size'), x))
  {
    HitSlots(q, capacity, maxFreq, x, size);
    hide Bytes, ClockGet, MakeRoom, Credited, IsVictim;
    var r := ClockGet(q, capacity, maxFreq, x, size);
    var j :| 0 <= j < |q| && q[j].id != x && q[j].freq == 0;
    var h :| 0 <= h < |q| && q[h].id == x;
    assert r[j].freq == 0 && r[h].id == x;
    hide Has;
    NoCredit(r, k, j, h);
    Spared(r, capacity, maxFreq, k, h, x, y, size');
  }

  lemma Spared(q: Ring, capacity: nat, maxFreq: nat, k: nat, h: nat, x: ObjId, y: ObjId, size: nat)
    requires IsVictim(q, k) && h < |q| && h != k && q[h].id == x
    ensures y != x && Bytes(q) - q[k].size <= capacity - size ==> Has(ClockGet(q, capacity, maxFreq, y, size), x)
  {
    hide Bytes, ClockGet, MakeRoom, Has;
    if Bytes(q) - q[k].size <= capacity - size {
      OneEviction(q, k, h, x, capacity - size);
      StaysHas(q, capacity, maxFreq, y, size, x);
    }
  }

  lemma NoCredit(q: Ring, k: nat, j: nat, h: nat)
    requires IsVictim(q, k) && j < |q| && q[j].freq == 0 && h < |q| && 0 < q[h].freq
    ensures q[k].freq == 0 && h != k && forall i | k < i < |q| :: 0 < q[i].freq
  {
  }

  /** One eviction is all that is needed, and everything but the victim is still there. */
  lemma OneEviction(q: Ring, k: nat, h: nat, x: ObjId, room: int)
    requires IsVictim(q, k) && h < |q| && h != k && q[h].id == x && Bytes(q) - q[k].size <= room
    ensures Has(q, x) && Has(MakeRoom(q, room), x)
  {
    VictimUnique(q, k, VictimOf(q));
    BytesAfterEvict(q, k);
    hide Bytes, AfterEvict;
    var j := if k < h then h - k - 1 else h + |q| - k - 1;
    EvictSlots(q, k, j);
    assert Before(q, k, j) == h;
    assert AfterEvict(q, k)[j].id == q[h].id;
    if Bytes(q) <= room {
      assert MakeRoom(q, room)[h].id == q[h].id;
    } else {
      assert MakeRoom(q, room) == MakeRoom(AfterEvict(q, k), room) == AfterEvict(q, k);
    }
  }

  lemma StaysHas(q: Ring, capacity: nat, maxFreq: nat, y: ObjId, size: nat, x: ObjId)
    requires Has(q, x) && (size <= capacity ==> Has(MakeRoom(q, capacity - size), x))
    ensures Has(ClockGet(q, capacity, maxFreq, y, size), x)
  {
    hide Bytes, MakeRoom;
    var r := ClockGet(q, capacity, maxFreq, y, size);
    if Has(q, y) {
      var k :| 0 <= k < |q| && q[k].id == x;
      assert r[k].id == x;
    } else if size <= capacity {
      var kept := MakeRoom(q, capacity - size);
      var k :| 0 <= k < |kept| && kept[k].id == x;
      assert r[k + 1].id == x;
    }
  }

  /** The object is in `q`, with at least as much credit. */
  ghost predicate Among(s: Slot, q: Ring)
  {
    exists j :: 0 <= j < |q| && s.id == q[j].id && s.size == q[j].size && s.freq <= q[j].freq
  }

  ghost predicate From(part: Ring, q: Ring)
  {
    forall i | 0 <= i < |part| :: Among(part[i], q)
  }

  /** Nothing was evicted without need: the last victim did not fit into `room` next to what is left. */
  ghost predicate OnlyAsNeeded(q: Ring, kept: Ring, room: int)
  {
    kept != q ==> exists v | 0 <= v < |q| :: !Has(kept, q[v].id) && room < Bytes(kept) + q[v].size
  }

  lemma EvictFrom(q: Ring, k: nat)
    requires IsVictim(q, k) && Distinct(q)
    ensures From(AfterEvict(q, k), q) && Distinct(AfterEvict(q, k)) && !Has(AfterEvict(q, k), q[k].id)
  {
    hide AfterEvict;
    var r := AfterEvict(q, k);
    forall i | 0 <= i < |r|
      ensures Among(r[i], q)
      ensures r[i].id != q[k].id
    {
      EvictSlots(q, k, i);
      assert r[i].id == q[Before(q, k, i)].id;
    }
    forall i, j | 0 <= i < j < |r|
      ensures r[i].id != r[j].id
    {
      EvictSlots(q, k, i);
      EvictSlots(q, k, j);
    }
  }

  lemma FromHas(part: Ring, q: Ring, x: ObjId)
    requires From(part, q) && Has(part, x)
    ensures Has(q, x)
  {
    var i :| 0 <= i < |part| && part[i].id == x;
    assert Among(part[i], q);
  }

  lemma FromFrom(a: Ring, b: Ring, c: Ring)
    requires From(a, b) && From(b, c)
    ensures From(a, c)
  {
    forall i | 0 <= i < |a|
      ensures Among(a[i], c)
    {
      var j := WasIn(a, b, i);
      var l := WasIn(b, c, j);
      assert a[i].id == c[l].id;
    }
  }

  /** Making room evicts nothing that it need not. */
  lemma {:induction false} RoomOnlyAsNeeded(q: Ring, room: int)
    requires Distinct(q)
    ensures var kept := MakeRoom(q, room); From(kept, q) && Distinct(kept) && OnlyAsNeeded(q, kept, room)
    decreases |q|
  {
    hide Bytes, AfterEvict, Less, Distinct, From;
    if q == [] || Bytes(q) <= room {
      FromSelf(q);
    } else {
      var k := VictimOf(q);
      var rest := AfterEvict(q, k);
      EvictFrom(q, k);
      BytesAfterEvict(q, k);
      RoomOnlyAsNeeded(rest, room);
      var kept := MakeRoom(rest, room);
      FromFrom(kept, rest, q);
      if kept != rest {
        var v :| 0 <= v < |rest| && !Has(kept, rest[v].id) && room < Bytes(kept) + rest[v].size;
        var u := WasIn(rest, q, v);
        assert !Has(kept, q[u].id) && room < Bytes(kept) + q[u].size;
      } else {
        assert !Has(kept, q[k].id) && room < Bytes(kept) + q[k].size;
      }
    }
  }

  lemma FromSelf(q: Ring)
    ensures From(q, q)
  {
  }

  lemma WasIn(part: Ring, q: Ring, v: nat) returns (u: nat)
    requires From(part, q) && v < |part|
    ensures u < |q| && q[u].id == part[v].id && q[u].size == part[v].size && part[v].freq <= q[u].freq
  {
    assert Among(part[v], q);
    u :| u < |q| && part[v].id == q[u].id && part[v].size == q[u].size && part[v].freq <= q[u].freq;
  }

  /** A miss puts the object in front, without credit, and evicts nothing without need; an object that does not fit
      changes nothing. */
  lemma MissSlots(q: Ring, capacity: nat, maxFreq: nat, x: ObjId, size: nat)
    requires Distinct(q) && forall k | 0 <= k < |q| :: q[k].id != x
    ensures var r := ClockGet(q, capacity, maxFreq, x, size);
            && Distinct(r)
            && (capacity < size ==> r == q)
            && (size <= capacity ==>
                  && r != [] && r[0] == Slot(x, size, 0) && From(r[1..], q)
                  && OnlyAsNeeded(q, r[1..], capacity - size)
                  && (Bytes(q) + size <= capacity ==> r[1..] == q))
  {
    hide Bytes, MakeRoom, OnlyAsNeeded, From;
    if size <= capacity {
      RoomOnlyAsNeeded(q, capacity - size);
      var kept := MakeRoom(q, capacity - size);
      NotFrom(kept, q, x);
      FitsWhole(q, capacity - size);
      InFront(Slot(x, size, 0), kept);
    }
  }

  lemma InFront(s: Slot, q: Ring)
    requires Distinct(q) && forall k | 0 <= k < |q| :: q[k].id != s.id
    ensures ([s] + q)[1..] == q && Distinct([s] + q)
  {
  }

  lemma NotFrom(part: Ring, q: Ring, x: ObjId)
    requires From(part, q) && !Has(q, x)
    ensures forall k | 0 <= k < |part| :: part[k].id != x
  {
    if k :| 0 <= k < |part| && part[k].id == x {
      FromHas(part, q, x);
    }
  }

  lemma FitsWhole(q: Ring, room: int)
    ensures Bytes(q) <= room ==> MakeRoom(q, room) == q
  {
  }

  /** Objects 1 and 2 fill a cache; 1 is hit, so that 3 takes the place of 2. */
  lemma HitSavesOldest()
    ensures var q1 := ClockGet([], 2, 1, 1, 1);
            var q2 := ClockGet(q1, 2, 1, 2, 1);
            var q3 := ClockGet(q2, 2, 1, 1, 1);
            ClockGet(q3, 2, 1, 3, 1) == [Slot(3, 1, 0), Slot(1, 1, 0)]
  {
    var a, b, c := Slot(1, 1, 0), Slot(2, 1, 0), Slot(1, 1, 1);
    assert ClockGet([], 2, 1, 1, 1) == [a];
    SmallBytes(a);
    assert !Has([a], 2) && ClockGet([a], 2, 1, 2, 1) == [b, a];
    assert [b, a][1].id == 1 && ClockGet([b, a], 2, 1, 1, 1) == [b, c];
    BytesFront(b, [c]);
    SmallBytes(c);
    VictimUnique([b, c], 0, VictimOf([b, c]));
    assert AfterEvict([b, c], 0) == [a];
    assert !Has([b, c], 3);
  }

  lemma SmallBytes(s: Slot)
    ensures Bytes([s]) == s.size
  {
    assert [s] == [s] + [] && Bytes([]) == 0;
    BytesFront(s, []);
  }
}
