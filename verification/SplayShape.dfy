/** Nodes of splay.c and the ghost shapes the pointer structure is proved against. */
module SplayShape {
  import opened Sets

  class Node {
    var left: Node?
    var right: Node?
    const key: int
    var value: int    // number of nodes in the subtree

    constructor (key: int)
      ensures this.key == key && value == 1 && left == null && right == null
    {
      this.key := key;
      value, left, right := 1, null, null;
    }
  }

  /** node_value */
  function NodeValue(t: Node?): int
    reads t
  {
    if t == null then 0 else t.value
  }

  datatype Shape = Leaf | Bin(l: Shape, n: Node, r: Shape)

  ghost function Root(s: Shape): Node?
  {
    if s.Leaf? then null else s.n
  }

  ghost function Nodes(s: Shape): set<Node>
  {
    match s
    case Leaf => {}
    case Bin(l, n, r) => Nodes(l) + {n} + Nodes(r)
  }

  ghost function InOrder(s: Shape): seq<Node>
  {
    match s
    case Leaf => []
    case Bin(l, n, r) => InOrder(l) + [n] + InOrder(r)
  }

  ghost function Size(s: Shape): nat
  {
    match s
    case Leaf => 0
    case Bin(l, n, r) => Size(l) + 1 + Size(r)
  }

  lemma {:induction false} InOrderNodes(s: Shape)
    ensures |InOrder(s)| == Size(s)
    ensures forall x | x in InOrder(s) :: x in Nodes(s)
    ensures forall x | x in Nodes(s) :: x in InOrder(s)
  {
    if s.Bin? {
      InOrderNodes(s.l);
      InOrderNodes(s.r);
    }
  }

  /** A search tree whose keys lie strictly between `lo` and `hi`. */
  ghost predicate Bst(s: Shape, lo: int, hi: int)
  {
    match s
    case Leaf => true
    case Bin(l, n, r) => lo < n.key < hi && Bst(l, lo, n.key) && Bst(r, n.key, hi)
  }

  lemma {:induction false} InRange(s: Shape, lo: int, hi: int)
    requires Bst(s, lo, hi)
    ensures forall x | x in Nodes(s) :: lo < x.key < hi
  {
    if s.Bin? {
      InRange(s.l, lo, s.n.key);
      InRange(s.r, s.n.key, hi);
    }
  }

  lemma {:induction false} Alive(s: Shape)
    ensures forall x | x in Nodes(s) :: allocated(x)
  {
    if s.Bin? {
      Alive(s.l);
      Alive(s.r);
    }
  }

  lemma {:induction false} BstWiden(s: Shape, lo: int, hi: int, lo': int, hi': int)
    requires Bst(s, lo, hi) && lo' <= lo && hi <= hi'
    ensures Bst(s, lo', hi')
  {
    if s.Bin? {
      BstWiden(s.l, lo, s.n.key, lo', s.n.key);
      BstWiden(s.r, s.n.key, hi, s.n.key, hi');
    }
  }

  /** The pointers follow the shape and every `value` counts its subtree: what check_sTree asserts. */
  ghost predicate Tree(s: Shape)
    reads Nodes(s)
  {
    match s
    case Leaf => true
    case Bin(l, n, r) =>
      n.left == Root(l) && n.right == Root(r) && n.value == Size(s) && Tree(l) && Tree(r)
  }

  lemma RootValue(s: Shape)
    requires Tree(s)
    ensures NodeValue(Root(s)) == Size(s)
  {
  }

  /** As `Tree`, but for the `value` of the root. */
  ghost predicate Topped(s: Shape)
    reads Nodes(s)
  {
    s.Bin? && s.n.left == Root(s.l) && s.n.right == Root(s.r) && Tree(s.l) && Tree(s.r)
  }

  // ---------- spines: the two trees the top-down pass takes apart ----------

  /** Grown at its inner end. On the left side (`onLeft`) each node keeps its left subtree `sub` and
      the next node hangs off its right pointer; the right side is the mirror image. */
  datatype Spine = Nil | Snoc(outer: Spine, sub: Shape, n: Node)

  ghost function Tip(s: Spine, anchor: Node): Node
  {
    if s.Nil? then anchor else s.n
  }

  ghost function TipKey(s: Spine, edge: int): int
  {
    if s.Nil? then edge else s.n.key
  }

  ghost function SpineNodes(s: Spine): set<Node>
  {
    match s
    case Nil => {}
    case Snoc(outer, sub, n) => SpineNodes(outer) + Nodes(sub) + {n}
  }

  ghost function SpineInOrder(onLeft: bool, s: Spine): seq<Node>
  {
    match s
    case Nil => []
    case Snoc(outer, sub, n) =>
      if onLeft then SpineInOrder(onLeft, outer) + InOrder(sub) + [n]
      else [n] + InOrder(sub) + SpineInOrder(onLeft, outer)
  }

  ghost function SpineSize(s: Spine): nat
  {
    match s
    case Nil => 0
    case Snoc(outer, sub, n) => SpineSize(outer) + Size(sub) + 1
  }

  ghost predicate SpineBst(onLeft: bool, s: Spine, edge: int)
  {
    match s
    case Nil => true
    case Snoc(outer, sub, n) =>
      var e := TipKey(outer, edge);
      && SpineBst(onLeft, outer, edge)
      && if onLeft then e < n.key && Bst(sub, e, n.key) else n.key < e && Bst(sub, n.key, e)
  }

  lemma {:induction false} SpineInRange(onLeft: bool, s: Spine, edge: int)
    requires SpineBst(onLeft, s, edge)
    ensures onLeft ==> edge <= TipKey(s, edge)
    ensures onLeft ==> forall x | x in SpineNodes(s) :: edge < x.key <= TipKey(s, edge)
    ensures !onLeft ==> TipKey(s, edge) <= edge
    ensures !onLeft ==> forall x | x in SpineNodes(s) :: TipKey(s, edge) <= x.key < edge
  {
    if s.Snoc? {
      var e := TipKey(s.outer, edge);
      SpineInRange(onLeft, s.outer, edge);
      InRange(s.sub, if onLeft then e else s.n.key, if onLeft then s.n.key else e);
    }
  }

  lemma {:induction false} SpineAlive(s: Spine)
    ensures forall x | x in SpineNodes(s) :: allocated(x)
  {
    if s.Snoc? {
      Alive(s.sub);
      SpineAlive(s.outer);
    }
  }

  ghost function Inner(onLeft: bool, n: Node): Node?
    reads n
  {
    if onLeft then n.right else n.left
  }

  ghost function Outer(onLeft: bool, n: Node): Node?
    reads n
  {
    if onLeft then n.left else n.right
  }

  /** The pointers follow the spine, starting at the anchor; the innermost pointer is still open. */
  ghost predicate Strung(onLeft: bool, s: Spine, anchor: Node)
    reads (if onLeft then {} else {anchor})`left, (if onLeft then {anchor} else {})`right
    reads SpineNodes(s)
  {
    match s
    case Nil => true
    case Snoc(outer, sub, n) =>
      && Strung(onLeft, outer, anchor)
      && (if onLeft then Tip(outer, anchor).right else Tip(outer, anchor).left) == n
      && Outer(onLeft, n) == Root(sub) && Tree(sub)
  }

  ghost function Join(onLeft: bool, sub: Shape, n: Node, rest: Shape): Shape
  {
    if onLeft then Bin(sub, n, rest) else Bin(rest, n, sub)
  }

  /** The spine closed off with `rest` at its inner end. */
  ghost function Build(onLeft: bool, s: Spine, rest: Shape): Shape
  {
    match s
    case Nil => rest
    case Snoc(outer, sub, n) => Build(onLeft, outer, Join(onLeft, sub, n, rest))
  }

  lemma {:induction false} BuildInOrder(onLeft: bool, s: Spine, rest: Shape)
    ensures InOrder(Build(onLeft, s, rest)) ==
            if onLeft then SpineInOrder(onLeft, s) + InOrder(rest) else InOrder(rest) + SpineInOrder(onLeft, s)
  {
    if s.Snoc? {
      BuildInOrder(onLeft, s.outer, Join(onLeft, s.sub, s.n, rest));
      if onLeft {
        Regroup(SpineInOrder(onLeft, s.outer), InOrder(s.sub), [s.n], InOrder(rest));
      } else {
        Regroup(InOrder(rest), [s.n], InOrder(s.sub), SpineInOrder(onLeft, s.outer));
      }
    }
  }

  lemma Regroup<T>(a: seq<T>, b: seq<T>, c: seq<T>, d: seq<T>)
    ensures a + (b + c + d) == a + b + c + d
  {
  }

  lemma {:induction false} BuildNodes(onLeft: bool, s: Spine, rest: Shape)
    ensures Size(Build(onLeft, s, rest)) == SpineSize(s) + Size(rest)
    ensures Nodes(Build(onLeft, s, rest)) == SpineNodes(s) + Nodes(rest)
  {
    if s.Snoc? {
      BuildNodes(onLeft, s.outer, Join(onLeft, s.sub, s.n, rest));
    }
  }

  lemma {:induction false} BuildBst(onLeft: bool, s: Spine, rest: Shape, lo: int, hi: int)
    requires SpineBst(onLeft, s, if onLeft then lo else hi)
    requires onLeft ==> TipKey(s, lo) < hi && Bst(rest, TipKey(s, lo), hi)
    requires !onLeft ==> lo < TipKey(s, hi) && Bst(rest, lo, TipKey(s, hi))
    ensures Bst(Build(onLeft, s, rest), lo, hi)
  {
    if s.Snoc? {
      SpineInRange(onLeft, s, if onLeft then lo else hi);
      BuildBst(onLeft, s.outer, Join(onLeft, s.sub, s.n, rest), lo, hi);
    }
  }

  /** Every node of the spine counts what hangs below it, `rest` nodes being below the tip. */
  ghost predicate Counted(s: Spine, rest: int)
    reads SpineNodes(s)`value
  {
    match s
    case Nil => true
    case Snoc(outer, sub, n) => n.value == Size(sub) + 1 + rest && Counted(outer, Size(sub) + 1 + rest)
  }

  /** A counted spine whose inner end is tied to a tree is a tree. */
  lemma {:induction false} Assembled(onLeft: bool, s: Spine, anchor: Node, rest: Shape)
    requires Strung(onLeft, s, anchor) && Counted(s, Size(rest)) && Tree(rest)
    requires Inner(onLeft, Tip(s, anchor)) == Root(rest)
    ensures Tree(Build(onLeft, s, rest)) && Inner(onLeft, anchor) == Root(Build(onLeft, s, rest))
  {
    if s.Snoc? {
      Assembled(onLeft, s.outer, anchor, Join(onLeft, s.sub, s.n, rest));
    }
  }

  // ---------- walking a spine from its outer end ----------

  /** As a path of nodes with subtrees, outermost first, whatever their `value`s. */
  ghost predicate Path(onLeft: bool, s: Shape)
    reads Nodes(s)
  {
    match s
    case Leaf => true
    case Bin(l, n, r) =>
      && n.left == Root(l) && n.right == Root(r)
      && if onLeft then Tree(l) && Path(onLeft, r) else Tree(r) && Path(onLeft, l)
  }

  lemma {:induction false} StrungIsPath(onLeft: bool, s: Spine, anchor: Node, rest: Shape)
    requires Strung(onLeft, s, anchor) && Path(onLeft, rest)
    requires Inner(onLeft, Tip(s, anchor)) == Root(rest)
    ensures Path(onLeft, Build(onLeft, s, rest)) && Inner(onLeft, anchor) == Root(Build(onLeft, s, rest))
  {
    if s.Snoc? {
      StrungIsPath(onLeft, s.outer, anchor, Join(onLeft, s.sub, s.n, rest));
    }
  }

  /** The spine that has `done` outside and the path `todo` inside. */
  ghost function Rejoin(onLeft: bool, done: Spine, todo: Shape): Spine
    decreases todo
  {
    match todo
    case Leaf => done
    case Bin(l, n, r) =>
      if onLeft then Rejoin(onLeft, Snoc(done, l, n), r) else Rejoin(onLeft, Snoc(done, r, n), l)
  }

  lemma {:induction false} RejoinBuild(onLeft: bool, s: Spine, rest: Shape)
    ensures Rejoin(onLeft, Nil, Build(onLeft, s, rest)) == Rejoin(onLeft, s, rest)
  {
    if s.Snoc? {
      RejoinBuild(onLeft, s.outer, Join(onLeft, s.sub, s.n, rest));
    }
  }

  // ---------- the set of keys ----------

  ghost function Keys(s: Shape): set<int>
  {
    match s
    case Leaf => {}
    case Bin(l, n, r) => Keys(l) + {n.key} + Keys(r)
  }

  ghost function KeySet(q: seq<Node>): set<int>
  {
    set x | x in q :: x.key
  }

  lemma KeySetConcat(a: seq<Node>, b: seq<Node>)
    ensures KeySet(a + b) == KeySet(a) + KeySet(b)
  {
    forall k | k in KeySet(a) + KeySet(b)
      ensures k in KeySet(a + b)
    {
      var x :| (x in a || x in b) && x.key == k;
      assert x in a + b;
    }
  }

  lemma {:induction false} KeysInOrder(s: Shape)
    ensures Keys(s) == KeySet(InOrder(s))
  {
    if s.Bin? {
      KeysInOrder(s.l);
      KeysInOrder(s.r);
      KeySetConcat(InOrder(s.l) + [s.n], InOrder(s.r));
      KeySetConcat(InOrder(s.l), [s.n]);
      assert KeySet([s.n]) == {s.n.key};
    }
  }

  lemma SameInOrder(s: Shape, s': Shape)
    requires InOrder(s) == InOrder(s')
    ensures Keys(s) == Keys(s') && Size(s) == Size(s') && Nodes(s) == Nodes(s')
  {
    KeysInOrder(s);
    KeysInOrder(s');
    InOrderNodes(s);
    InOrderNodes(s');
    assert Nodes(s) <= Nodes(s') <= Nodes(s);
  }

  lemma {:induction false} KeysInRange(s: Shape, lo: int, hi: int)
    requires Bst(s, lo, hi)
    ensures forall k | k in Keys(s) :: lo < k < hi
    ensures |Keys(s)| == Size(s)
  {
    if s.Bin? {
      KeysInRange(s.l, lo, s.n.key);
      KeysInRange(s.r, s.n.key, hi);
      SizeOfUnion(Keys(s.l), {s.n.key}, s.n.key);
      SizeOfUnion(Keys(s.l) + {s.n.key}, Keys(s.r), s.n.key + 1);
    }
  }
}
