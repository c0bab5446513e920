/** Heap order on the priorities of the slots of pqueue.c; slot 0 is never used. */
module HeapOrder {

  predicate InOrder(ps: seq<int>, j: nat)
  {
    2 <= j < |ps| ==> ps[j] <= ps[j / 2]
  }

  predicate BelowGrandparent(ps: seq<int>, j: nat)
  {
    j < |ps| && 2 <= j / 2 ==> ps[j] <= ps[j / 2 / 2]
  }

  ghost predicate IsHeap(ps: seq<int>)
  {
    forall j: nat :: InOrder(ps, j)
  }

  /** A heap except that slot `i` may exceed its parent. */
  ghost predicate HeapButUp(ps: seq<int>, i: nat)
  {
    && (forall j: nat | j != i :: InOrder(ps, j))
    && (forall j: nat | j / 2 == i :: BelowGrandparent(ps, j))
  }

  /** A heap except that slot `i` may be below its children. */
  ghost predicate HeapButDown(ps: seq<int>, i: nat)
  {
    && (forall j: nat | j / 2 != i :: InOrder(ps, j))
    && (forall j: nat | j / 2 == i :: BelowGrandparent(ps, j))
  }

  function Swap(ps: seq<int>, i: nat, j: nat): seq<int>
    requires i < |ps| && j < |ps|
  {
    ps[i := ps[j]][j := ps[i]]
  }

  lemma SwapUp(ps: seq<int>, i: nat)
    requires HeapButUp(ps, i) && 2 <= i < |ps| && ps[i / 2] < ps[i]
    ensures HeapButUp(Swap(ps, i, i / 2), i / 2)
  {
    var qs := Swap(ps, i, i / 2);
    forall j: nat | j != i / 2
      ensures InOrder(qs, j)
    {
      assert j != i ==> InOrder(ps, j);
      assert j / 2 == i ==> BelowGrandparent(ps, j);
    }
    forall j: nat | j / 2 == i / 2
      ensures BelowGrandparent(qs, j)
    {
      assert InOrder(ps, i / 2);
      assert j != i ==> InOrder(ps, j);
    }
  }

  lemma SwapDown(ps: seq<int>, i: nat, c: nat)
    requires HeapButDown(ps, i) && 1 <= i && c < |ps| && c / 2 == i && ps[i] < ps[c]
    requires forall j: nat | j / 2 == i && j < |ps| :: ps[j] <= ps[c]
    ensures HeapButDown(Swap(ps, i, c), c)
  {
    var qs := Swap(ps, i, c);
    forall j: nat | j / 2 != c
      ensures InOrder(qs, j)
    {
      assert j / 2 != i ==> InOrder(ps, j);
      assert BelowGrandparent(ps, c);
    }
    forall j: nat | j / 2 == c
      ensures BelowGrandparent(qs, j)
    {
      assert InOrder(ps, j);
    }
  }

  lemma SettledUp(ps: seq<int>, i: nat)
    requires HeapButUp(ps, i) && i < |ps| && (i > 1 ==> ps[i] <= ps[i / 2])
    ensures IsHeap(ps)
  {
    assert InOrder(ps, i);
  }

  lemma SettledDown(ps: seq<int>, i: nat)
    requires HeapButDown(ps, i) && i < |ps|
    requires forall j: nat | j / 2 == i && j < |ps| :: ps[j] <= ps[i]
    ensures IsHeap(ps)
  {
    forall j: nat
      ensures InOrder(ps, j)
    {
    }
  }

  /** Changing one slot of a heap breaks order only towards its parent or only towards its children. */
  lemma Perturb(ps: seq<int>, i: nat, v: int)
    requires IsHeap(ps) && 1 <= i < |ps|
    ensures ps[i] <= v ==> HeapButUp(ps[i := v], i)
    ensures v <= ps[i] ==> HeapButDown(ps[i := v], i)
  {
    var qs := ps[i := v];
    forall j: nat
      ensures j / 2 == i ==> BelowGrandparent(qs, j)
      ensures ps[i] <= v && j != i ==> InOrder(qs, j)
      ensures v <= ps[i] && j / 2 != i ==> InOrder(qs, j)
    {
      assert InOrder(ps, j) && InOrder(ps, i);
    }
  }

  lemma Shrink(ps: seq<int>)
    requires IsHeap(ps) && 0 < |ps|
    ensures IsHeap(ps[..|ps| - 1])
  {
    var qs := ps[..|ps| - 1];
    forall j: nat
      ensures InOrder(qs, j)
    {
      assert InOrder(ps, j);
    }
  }

  lemma Grow(ps: seq<int>, v: int)
    requires IsHeap(ps) && 1 <= |ps|
    ensures HeapButUp(ps + [v], |ps|)
  {
    forall j: nat | j != |ps|
      ensures InOrder(ps + [v], j)
    {
      assert InOrder(ps, j);
    }
  }

  lemma {:induction false} RootIsMax(ps: seq<int>, i: nat)
    requires IsHeap(ps) && 1 <= i < |ps|
    ensures ps[i] <= ps[1]
  {
    if i >= 2 {
      assert InOrder(ps, i);
      RootIsMax(ps, i / 2);
    }
  }
}

/** The indexed binary max-heap of pqueue.c: every node knows the slot it sits in. */
module PriorityQueue {
  import opened NextUse
  import opened HeapOrder

  class PqNode {
    var pri: int
    const objId: ObjId
    var pos: nat

    constructor (objId: ObjId, pri: int)
      ensures this.objId == objId && this.pri == pri
    {
      this.objId := objId;
      this.pri := pri;
      this.pos := 0;
    }
  }

  class Pqueue {
    var d: array<PqNode?>
    var size: nat             // first free slot
    var avail: nat
    const step: nat
    ghost var nodes: set<PqNode>
    ghost var ps: seq<int>    // the priorities, slot by slot

    ghost predicate Shape()
      reads this
    {
      1 <= size <= avail == d.Length && 1 <= step && |nodes| == size - 1 && |ps| == size
    }

    /** Slots and positions agree, except that slot `i` is a hole waiting for the node `m`. */
    ghost predicate PlacedExcept(i: nat, m: PqNode)
      reads this, d, nodes
    {
      && Shape()
      && 1 <= i < size && m in nodes && ps[i] == m.pri
      && (forall j | 1 <= j < size && j != i ::
            d[j] != null && d[j] in nodes && d[j] != m && d[j].pos == j && d[j].pri == ps[j])
      && (forall n | n in nodes && n != m ::
            1 <= n.pos < size && n.pos != i && d[n.pos] == n)
    }

    ghost predicate Placed()
      reads this, d, nodes
    {
      && Shape()
      && (forall j | 1 <= j < size ::
            d[j] != null && d[j] in nodes && d[j].pos == j && d[j].pri == ps[j])
      && (forall n | n in nodes :: 1 <= n.pos < size && d[n.pos] == n)
    }

    ghost predicate Valid()
      reads this, d, nodes
    {
      Placed() && IsHeap(ps)
    }

    constructor (n: nat)
      ensures Valid() && fresh(d) && nodes == {} && size == 1
    {
      d := new PqNode?[n + 1];
      size := 1;
      avail := n + 1;
      step := n + 1;
      nodes := {};
      ps := [0];
    }

    /** Fill the hole with the node of another slot, which becomes the hole. */
    method Shift(hole: nat, from: nat, ghost m: PqNode)
      requires PlacedExcept(hole, m) && 1 <= from < size && from != hole
      modifies d, `ps, {d[from]}`pos
      ensures PlacedExcept(from, m) && ps == Swap(old(ps), hole, from)
    {
      d[hole] := d[from];
      d[hole].pos := hole;
      ps := Swap(ps, hole, from);
    }

    method Settle(hole: nat, m: PqNode)
      requires PlacedExcept(hole, m)
      modifies d, m`pos
      ensures Placed()
    {
      d[hole] := m;
      m.pos := hole;
    }

    method BubbleUp(start: nat)
      requires 1 <= start < size && start < d.Length && d[start] != null
      requires PlacedExcept(start, d[start]) && HeapButUp(ps, start)
      modifies d, `ps, nodes`pos
      ensures Valid()
    {
      var i: nat := start;
      var moving: PqNode := d[i];
      var parent := i / 2;
      while i > 1 && d[parent].pri < moving.pri
        invariant parent == i / 2
        invariant PlacedExcept(i, moving) && HeapButUp(ps, i)
      {
        SwapUp(ps, i);
        Shift(i, parent, moving);
        i := parent;
        parent := i / 2;
      }
      SettledUp(ps, i);
      Settle(i, moving);
    }

    method MaxChild(i: nat) returns (c: nat)
      requires 1 <= i <= size <= d.Length
      requires forall j | 1 <= j < size && j != i :: d[j] != null
      ensures c == 0 <==> size <= 2 * i
      ensures c != 0 ==> c / 2 == i && c < size
      ensures c != 0 ==> forall j: nat | j / 2 == i && j < size :: d[j].pri <= d[c].pri
    {
      c := 2 * i;
      if c >= size {
        return 0;
      }
      if c + 1 < size && d[c].pri < d[c + 1].pri {
        c := c + 1;
      }
    }

    /** Also called on the slot just freed (`start == size`), where it has nothing to move. */
    method PercolateDown(start: nat)
      requires 1 <= start <= size && start < d.Length && d[start] != null
      requires start == size ==> Valid() && d[start] !in nodes
      requires start < size ==> PlacedExcept(start, d[start]) && HeapButDown(ps, start)
      modifies d, `ps, nodes`pos, {d[start]}`pos
      ensures Valid()
    {
      var i: nat := start;
      var moving: PqNode := d[i];
      var child := MaxChild(i);
      if start == size {
        d[i] := moving;
        moving.pos := i;
        return;
      }
      while child != 0 && moving.pri < d[child].pri
        invariant PlacedExcept(i, moving) && HeapButDown(ps, i)
        invariant child == 0 <==> size <= 2 * i
        invariant child != 0 ==> child / 2 == i && child < size
        invariant child != 0 ==> forall j: nat | j / 2 == i && j < size :: d[j].pri <= d[child].pri
        decreases size - i
      {
        SwapDown(ps, i, child);
        Shift(i, child, moving);
        i := child;
        child := MaxChild(i);
      }
      SettledDown(ps, i);
      Settle(i, moving);
    }

    method Reserve()
      requires Placed()
      modifies `d, `avail
      ensures Placed() && size < avail && (d == old(d) || fresh(d))
    {
      if size >= avail {
        var newSize := size + step;
        var tmp := new PqNode?[newSize];
        forall j | 0 <= j < size {
          tmp[j] := d[j];
        }
        d := tmp;
        avail := newSize;
      }
    }

    /** Put a new node into the first free slot. */
    method Append(n: PqNode)
      requires Placed() && size < avail && n !in nodes
      modifies this, d
      ensures size == old(size) + 1 && nodes == old(nodes) + {n} && ps == old(ps) + [n.pri]
      ensures d == old(d) && PlacedExcept(size - 1, n) && d[size - 1] == n
    {
      d[size] := n;
      size := size + 1;
      nodes := nodes + {n};
      ps := ps + [n.pri];
    }

    method Insert(n: PqNode)
      requires Valid() && n !in nodes
      modifies this, d, nodes`pos, n`pos
      ensures Valid() && nodes == old(nodes) + {n} && size == old(size) + 1
      ensures d == old(d) || fresh(d)
    {
      Reserve();
      Grow(ps, n.pri);
      Append(n);
      BubbleUp(size - 1);
    }

    method ChangePriority(newPri: int, n: PqNode)
      requires Valid() && n in nodes
      modifies d, `ps, nodes`pos, n`pri
      ensures Valid() && n.pri == newPri
    {
      var oldPri := n.pri;
      Perturb(ps, n.pos, newPri);
      n.pri := newPri;
      var pos := n.pos;
      ps := ps[pos := newPri];
      if oldPri < newPri {
        BubbleUp(pos);
      } else {
        PercolateDown(pos);
      }
    }

    /** Drop the last slot, moving its node over `n`. */
    method FillFromLast(n: PqNode)
      requires Placed() && n in nodes
      modifies this, d
      ensures size == old(size) - 1 && nodes == old(nodes) - {n} && d == old(d)
      ensures n.pos <= size < d.Length && d[n.pos] != null
      ensures n.pos == size ==> Placed() && ps == old(ps)[..size] && d[size] == n
      ensures n.pos < size ==> PlacedExcept(n.pos, d[n.pos]) && d[n.pos].pri == old(ps)[size]
      ensures n.pos < size ==> ps == old(ps)[..size][n.pos := old(ps)[size]]
    {
      var pos := n.pos;
      size := size - 1;
      d[pos] := d[size];
      nodes := nodes - {n};
      ps := ps[pos := ps[size]][..size];
    }

    method Remove(n: PqNode)
      requires Valid() && n in nodes
      modifies this, d, nodes`pos
      ensures Valid() && nodes == old(nodes) - {n} && d == old(d) && size == old(size) - 1
    {
      hide IsHeap, HeapButDown, HeapButUp, PlacedExcept;
      var pos := n.pos;
      Shrink(ps);
      FillFromLast(n);
      if pos < size {
        Perturb(old(ps)[..size], pos, old(ps)[size]);
      }
      if n.pri < d[pos].pri {
        BubbleUp(pos);
      } else {
        PercolateDown(pos);
      }
    }

    method Pop() returns (head: PqNode?)
      requires Valid()
      modifies this, d, nodes`pos
      ensures Valid() && d == old(d)
      ensures head == null <==> old(nodes) == {}
      ensures head == null ==> nodes == {}
      ensures head != null ==> head in old(nodes) && nodes == old(nodes) - {head} && size == old(size) - 1
      ensures head != null ==> forall n | n in old(nodes) :: n.pri <= head.pri
    {
      hide Placed, PlacedExcept, IsHeap, HeapButDown, HeapButUp;
      head := Peek();
      if head == null {
        return;
      }
      Shrink(ps);
      RootIsMax(ps, size - 1);
      FillFromLast(head);
      if 1 < size {
        Perturb(old(ps)[..size], 1, old(ps)[size]);
      }
      PercolateDown(1);
    }

    method Peek() returns (head: PqNode?)
      requires Valid()
      ensures head == null <==> nodes == {}
      ensures head != null ==> head in nodes && head.pos == 1 && 2 <= size == |ps|
      ensures head != null ==> forall n | n in nodes :: n.pri <= head.pri
    {
      if size == 1 {
        return null;
      }
      head := d[1];
      forall n | n in nodes
        ensures n.pri <= head.pri
      {
        RootIsMax(ps, n.pos);
      }
    }
  }
}
