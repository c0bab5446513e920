/** Top-down splaying on linked nodes (splay.c). */
module Splay {
  import opened SplayShape

  // ---------- the state of the top-down pass ----------

  ghost predicate Parts(lefts: Spine, cur: Shape, rights: Spine, anchor: Node)
    reads {anchor}`left, {anchor}`right, SpineNodes(lefts), Nodes(cur), SpineNodes(rights)
  {
    && anchor !in SpineNodes(lefts) && anchor !in Nodes(cur) && anchor !in SpineNodes(rights)
    && Strung(true, lefts, anchor) && Strung(false, rights, anchor) && Topped(cur)
  }

  /** The key sought lies strictly between the two spines. */
  ghost predicate Narrowed(lefts: Spine, cur: Shape, rights: Spine, lo: int, hi: int, key: int)
  {
    && SpineBst(true, lefts, lo) && SpineBst(false, rights, hi)
    && Bst(cur, TipKey(lefts, lo), TipKey(rights, hi))
    && TipKey(lefts, lo) < key < TipKey(rights, hi)
  }

  ghost function Whole(lefts: Spine, cur: Shape, rights: Spine): seq<Node>
  {
    SpineInOrder(true, lefts) + InOrder(cur) + SpineInOrder(false, rights)
  }

  /** Every node of one part is strictly on its side of the others. */
  lemma Apart(lefts: Spine, cur: Shape, rights: Spine, lo: int, hi: int, key: int)
    requires Narrowed(lefts, cur, rights, lo, hi, key)
    ensures forall x | x in SpineNodes(lefts) :: lo < x.key <= TipKey(lefts, lo)
    ensures forall x | x in Nodes(cur) :: TipKey(lefts, lo) < x.key < TipKey(rights, hi)
    ensures forall x | x in SpineNodes(rights) :: TipKey(rights, hi) <= x.key < hi
    ensures forall x | x in SpineNodes(lefts) :: allocated(x)
    ensures forall x | x in Nodes(cur) :: allocated(x)
    ensures forall x | x in SpineNodes(rights) :: allocated(x)
  {
    Alive(cur);
    SpineAlive(lefts);
    SpineAlive(rights);
    SpineInRange(true, lefts, lo);
    SpineInRange(false, rights, hi);
    InRange(cur, TipKey(lefts, lo), TipKey(rights, hi));
  }

  method RotateRight(t: Node, ghost s: Shape, ghost lo: int, ghost hi: int) returns (y: Node, ghost s': Shape)
    requires Topped(s) && s.n == t && s.l.Bin? && Bst(s, lo, hi)
    modifies t, s.l.n
    ensures s' == Bin(s.l.l, s.l.n, Bin(s.l.r, t, s.r)) && y == s'.n && Topped(s')
  {
    InRange(s.l.l, lo, s.l.n.key);
    InRange(s.l.r, s.l.n.key, t.key);
    InRange(s.r, t.key, hi);
    y := t.left;
    t.left := y.right;
    y.right := t;
    assert Tree(s.l.l) && Tree(s.l.r) && Tree(s.r);
    RootValue(s.l.r);
    RootValue(s.r);
    t.value := NodeValue(t.left) + NodeValue(t.right) + 1;
    s' := Bin(s.l.l, s.l.n, Bin(s.l.r, t, s.r));
  }

  method RotateLeft(t: Node, ghost s: Shape, ghost lo: int, ghost hi: int) returns (y: Node, ghost s': Shape)
    requires Topped(s) && s.n == t && s.r.Bin? && Bst(s, lo, hi)
    modifies t, s.r.n
    ensures s' == Bin(Bin(s.l, t, s.r.l), s.r.n, s.r.r) && y == s'.n && Topped(s')
  {
    InRange(s.r.r, s.r.n.key, hi);
    InRange(s.r.l, t.key, s.r.n.key);
    InRange(s.l, lo, t.key);
    y := t.right;
    t.right := y.left;
    y.left := t;
    assert Tree(s.l) && Tree(s.r.l) && Tree(s.r.r);
    RootValue(s.l);
    RootValue(s.r.l);
    t.value := NodeValue(t.left) + NodeValue(t.right) + 1;
    s' := Bin(Bin(s.l, t, s.r.l), s.r.n, s.r.r);
  }

  /** Write the open pointer at the inner end of the right spine. */
  method TieRight(r: Node, v: Node?, ghost rights: Spine, ghost anchor: Node, ghost hi: int)
    requires Strung(false, rights, anchor) && SpineBst(false, rights, hi)
    requires anchor !in SpineNodes(rights) && r == Tip(rights, anchor)
    modifies r`left
    ensures Strung(false, rights, anchor) && r.left == v
  {
    if rights.Snoc? {
      SpineInRange(false, rights.outer, hi);
      InRange(rights.sub, rights.n.key, TipKey(rights.outer, hi));
    }
    r.left := v;
  }

  method TieLeft(l: Node, v: Node?, ghost lefts: Spine, ghost anchor: Node, ghost lo: int)
    requires Strung(true, lefts, anchor) && SpineBst(true, lefts, lo)
    requires anchor !in SpineNodes(lefts) && l == Tip(lefts, anchor)
    modifies l`right
    ensures Strung(true, lefts, anchor) && l.right == v
  {
    if lefts.Snoc? {
      SpineInRange(true, lefts.outer, lo);
      InRange(lefts.sub, TipKey(lefts.outer, lo), lefts.n.key);
    }
    l.right := v;
  }

  /** Hang the current root on the right spine and go left. */
  method LinkRight(r: Node, t: Node, ghost anchor: Node, ghost lefts: Spine, ghost cur: Shape, ghost rights: Spine,
                   ghost lo: int, ghost hi: int, ghost key: int)
    requires Parts(lefts, cur, rights, anchor) && Narrowed(lefts, cur, rights, lo, hi, key)
    requires r == Tip(rights, anchor) && t == cur.n && cur.l.Bin? && key < t.key
    modifies r`left
    ensures Parts(lefts, cur.l, Snoc(rights, cur.r, t), anchor)
    ensures Narrowed(lefts, cur.l, Snoc(rights, cur.r, t), lo, hi, key)
    ensures t.left == cur.l.n && NodeValue(t.right) == Size(cur.r)
  {
    Apart(lefts, cur, rights, lo, hi, key);
    assert r !in Nodes(cur) && r !in SpineNodes(lefts);
    TieRight(r, t, rights, anchor, hi);
    assert Topped(cur);
    assert Strung(true, lefts, anchor);
    RootValue(cur.r);
  }

  /** Hang the current root on the left spine and go right. */
  method LinkLeft(l: Node, t: Node, ghost anchor: Node, ghost lefts: Spine, ghost cur: Shape, ghost rights: Spine,
                  ghost lo: int, ghost hi: int, ghost key: int)
    requires Parts(lefts, cur, rights, anchor) && Narrowed(lefts, cur, rights, lo, hi, key)
    requires l == Tip(lefts, anchor) && t == cur.n && cur.r.Bin? && t.key < key
    modifies l`right
    ensures Parts(Snoc(lefts, cur.l, t), cur.r, rights, anchor)
    ensures Narrowed(Snoc(lefts, cur.l, t), cur.r, rights, lo, hi, key)
    ensures t.right == cur.r.n && NodeValue(t.left) == Size(cur.l)
  {
    Apart(lefts, cur, rights, lo, hi, key);
    assert l !in Nodes(cur) && l !in SpineNodes(rights);
    TieLeft(l, t, lefts, anchor, lo);
    assert Topped(cur);
    assert Strung(false, rights, anchor);
    RootValue(cur.l);
  }

  ghost function InnerPart(onLeft: bool, s: Shape): Shape
    requires s.Bin?
  {
    if onLeft then s.r else s.l
  }

  ghost function OuterPart(onLeft: bool, s: Shape): Shape
    requires s.Bin?
  {
    if onLeft then s.l else s.r
  }

  /** Part way along a spine: `done` is counted, the path `todo` is not yet. */
  ghost predicate Walking(onLeft: bool, done: Spine, todo: Shape, anchor: Node, size: int,
                          edge: int, inner: int)
    reads anchor, SpineNodes(done), Nodes(todo)
  {
    && anchor !in SpineNodes(done) && anchor !in Nodes(todo)
    && Path(onLeft, todo) && Root(todo) == Inner(onLeft, Tip(done, anchor))
    && Strung(onLeft, done, anchor) && Counted(done, size)
    && SpineBst(onLeft, done, edge)
    && if onLeft then Bst(todo, TipKey(done, edge), inner + 1) else Bst(todo, inner - 1, TipKey(done, edge))
  }

  method RepairNode(onLeft: bool, y: Node, size: int, ghost done: Spine, ghost todo: Shape, ghost anchor: Node,
                    ghost edge: int, ghost inner: int) returns (size': int)
    requires Walking(onLeft, done, todo, anchor, size, edge, inner) && y == Root(todo)
    modifies y`value
    ensures size' == size - 1 - Size(OuterPart(onLeft, todo))
    ensures Walking(onLeft, Snoc(done, OuterPart(onLeft, todo), y), InnerPart(onLeft, todo), anchor, size', edge,
              inner)
    ensures Inner(onLeft, y) == Root(InnerPart(onLeft, todo))
  {
    YetToWalk(onLeft, y, size, done, todo, anchor, edge, inner);
    hide Strung, Counted, Path, Tree, Bst, SpineBst, Walking;
    y.value := size;
    assert Strung(onLeft, done, anchor) && Counted(done, size);
    assert Path(onLeft, InnerPart(onLeft, todo)) && Tree(OuterPart(onLeft, todo));
    RootValue(OuterPart(onLeft, todo));
    size' := size - (1 + NodeValue(if onLeft then y.left else y.right));
    WalkOn(onLeft, y, size, done, todo, anchor, edge, inner);
  }

  /** The next node lies off everything else. */
  lemma YetToWalk(onLeft: bool, y: Node, size: int, done: Spine, todo: Shape, anchor: Node, edge: int, inner: int)
    requires Walking(onLeft, done, todo, anchor, size, edge, inner) && y == Root(todo)
    ensures Strung(onLeft, done, anchor) && Counted(done, size)
    ensures Path(onLeft, InnerPart(onLeft, todo)) && Tree(OuterPart(onLeft, todo))
    ensures y !in SpineNodes(done) && y !in Nodes(todo.l) && y !in Nodes(todo.r) && y != anchor
    ensures anchor !in SpineNodes(done) && anchor !in Nodes(todo)
    ensures Inner(onLeft, Tip(done, anchor)) == y && Inner(onLeft, y) == Root(InnerPart(onLeft, todo))
    ensures (if onLeft then y.left else y.right) == Root(OuterPart(onLeft, todo))
    ensures SpineBst(onLeft, Snoc(done, OuterPart(onLeft, todo), y), edge)
    ensures if onLeft then Bst(todo.r, y.key, inner + 1) else Bst(todo.l, inner - 1, y.key)
  {
    SpineInRange(onLeft, done, edge);
    InRange(todo.l, if onLeft then TipKey(done, edge) else inner - 1, y.key);
    InRange(todo.r, y.key, if onLeft then inner + 1 else TipKey(done, edge));
  }

  lemma WalkOn(onLeft: bool, y: Node, size: int, done: Spine, todo: Shape, anchor: Node, edge: int, inner: int)
    requires todo.Bin? && y == todo.n && y.value == size
    requires Strung(onLeft, done, anchor) && Counted(done, size)
    requires Path(onLeft, InnerPart(onLeft, todo)) && Tree(OuterPart(onLeft, todo))
    requires anchor !in SpineNodes(done) && anchor !in Nodes(todo)
    requires Inner(onLeft, Tip(done, anchor)) == y && Inner(onLeft, y) == Root(InnerPart(onLeft, todo))
    requires (if onLeft then y.left else y.right) == Root(OuterPart(onLeft, todo))
    requires SpineBst(onLeft, Snoc(done, OuterPart(onLeft, todo), y), edge)
    requires if onLeft then Bst(todo.r, y.key, inner + 1) else Bst(todo.l, inner - 1, y.key)
    ensures Walking(onLeft, Snoc(done, OuterPart(onLeft, todo), y), InnerPart(onLeft, todo), anchor,
                    size - 1 - Size(OuterPart(onLeft, todo)), edge, inner)
  {
    hide Path, Tree, Bst, SpineBst;
  }

  /** The loop that corrects the `value`s along one spine, from its outer end inwards. */
  method Repair(onLeft: bool, anchor: Node, total: int, ghost s: Spine, ghost rest: int, ghost edge: int)
    requires Strung(onLeft, s, anchor) && Inner(onLeft, Tip(s, anchor)) == null
    requires SpineBst(onLeft, s, edge) && anchor !in SpineNodes(s) && total == SpineSize(s) + rest
    modifies SpineNodes(s)`value
    ensures Strung(onLeft, s, anchor) && Counted(s, rest)
  {
    StrungIsPath(onLeft, s, anchor, Leaf);
    RejoinBuild(onLeft, s, Leaf);
    BuildNodes(onLeft, s, Leaf);
    SpineInRange(onLeft, s, edge);
    ghost var inner := TipKey(s, edge);
    ghost var done, todo := Nil, Build(onLeft, s, Leaf);
    BuildBst(onLeft, s, Leaf, if onLeft then edge else inner - 1, if onLeft then inner + 1 else edge);
    var y := if onLeft then anchor.right else anchor.left;
    var size := total;
    hide Strung, Counted, Bst, SpineBst, Path, Walking;
    while y != null
      invariant Rejoin(onLeft, done, todo) == s && Nodes(todo) <= SpineNodes(s)
      invariant Walking(onLeft, done, todo, anchor, size, edge, inner) && y == Root(todo)
      invariant size == Size(todo) + rest
      decreases Size(todo)
    {
      size := RepairNode(onLeft, y, size, done, todo, anchor, edge, inner);
      done, todo := Snoc(done, OuterPart(onLeft, todo), y), InnerPart(onLeft, todo);
      y := if onLeft then y.right else y.left;
    }
  }

  // ---------- one turn of the top-down loop ----------

  ghost predicate Within(lefts: Spine, cur: Shape, rights: Spine, repr: set<Node>)
  {
    SpineNodes(lefts) <= repr && Nodes(cur) <= repr && SpineNodes(rights) <= repr
  }

  lemma RotatedRight(s: Shape, lefts: Spine, rights: Spine, lo: int, hi: int, key: int)
    requires s.Bin? && s.l.Bin? && Narrowed(lefts, s, rights, lo, hi, key)
    ensures var s' := Bin(s.l.l, s.l.n, Bin(s.l.r, s.n, s.r));
            && Narrowed(lefts, s', rights, lo, hi, key) && Nodes(s') == Nodes(s)
            && InOrder(s') == InOrder(s) && Size(s') == Size(s)
  {
    assert Bst(s.l, TipKey(lefts, lo), s.n.key);
    var a, b, c := InOrder(s.l.l), InOrder(s.l.r), InOrder(s.r);
    assert a + [s.l.n] + b + [s.n] + c == a + [s.l.n] + (b + [s.n] + c);
  }

  lemma RotatedLeft(s: Shape, lefts: Spine, rights: Spine, lo: int, hi: int, key: int)
    requires s.Bin? && s.r.Bin? && Narrowed(lefts, s, rights, lo, hi, key)
    ensures var s' := Bin(Bin(s.l, s.n, s.r.l), s.r.n, s.r.r);
            && Narrowed(lefts, s', rights, lo, hi, key) && Nodes(s') == Nodes(s)
            && InOrder(s') == InOrder(s) && Size(s') == Size(s)
  {
    assert Bst(s.r, s.n.key, TipKey(rights, hi));
    var a, b, c := InOrder(s.l), InOrder(s.r.l), InOrder(s.r.r);
    assert a + [s.n] + (b + [s.r.n] + c) == a + [s.n] + b + [s.r.n] + c;
  }

  lemma LinkedRight(lefts: Spine, cur: Shape, rights: Spine, repr: set<Node>)
    requires cur.Bin? && Within(lefts, cur, rights, repr)
    ensures Whole(lefts, cur.l, Snoc(rights, cur.r, cur.n)) == Whole(lefts, cur, rights)
    ensures Within(lefts, cur.l, Snoc(rights, cur.r, cur.n), repr)
  {
    var a, b, c, d := SpineInOrder(true, lefts), InOrder(cur.l), InOrder(cur.r), SpineInOrder(false, rights);
    assert a + b + ([cur.n] + c + d) == a + (b + [cur.n] + c) + d;
  }

  lemma LinkedLeft(lefts: Spine, cur: Shape, rights: Spine, repr: set<Node>)
    requires cur.Bin? && Within(lefts, cur, rights, repr)
    ensures Whole(Snoc(lefts, cur.l, cur.n), cur.r, rights) == Whole(lefts, cur, rights)
    ensures Within(Snoc(lefts, cur.l, cur.n), cur.r, rights, repr)
  {
    var a, b, c, d := SpineInOrder(true, lefts), InOrder(cur.l), InOrder(cur.r), SpineInOrder(false, rights);
    assert (a + b + [cur.n]) + c + d == a + (b + [cur.n] + c) + d;
  }

  method TurnRight(t0: Node, ghost anchor: Node, ghost lefts: Spine, ghost cur0: Shape, ghost rights: Spine,
                   ghost lo: int, ghost hi: int, ghost key: int) returns (t: Node, ghost cur: Shape)
    requires Parts(lefts, cur0, rights, anchor) && Narrowed(lefts, cur0, rights, lo, hi, key)
    requires t0 == cur0.n && cur0.l.Bin?
    modifies cur0.n, cur0.l.n
    ensures cur == Bin(cur0.l.l, cur0.l.n, Bin(cur0.l.r, t0, cur0.r)) && t == cur.n
    ensures Parts(lefts, cur, rights, anchor)
  {
    Apart(lefts, cur0, rights, lo, hi, key);
    RotatedRight(cur0, lefts, rights, lo, hi, key);
    assert cur0.l.n in Nodes(cur0.l) && cur0.l.n in Nodes(cur0) && t0 in Nodes(cur0);
    t, cur := RotateRight(t0, cur0, TipKey(lefts, lo), TipKey(rights, hi));
    assert Strung(true, lefts, anchor) && Strung(false, rights, anchor);
  }

  method TurnLeft(t0: Node, ghost anchor: Node, ghost lefts: Spine, ghost cur0: Shape, ghost rights: Spine,
                  ghost lo: int, ghost hi: int, ghost key: int) returns (t: Node, ghost cur: Shape)
    requires Parts(lefts, cur0, rights, anchor) && Narrowed(lefts, cur0, rights, lo, hi, key)
    requires t0 == cur0.n && cur0.r.Bin?
    modifies cur0.n, cur0.r.n
    ensures cur == Bin(Bin(cur0.l, t0, cur0.r.l), cur0.r.n, cur0.r.r) && t == cur.n
    ensures Parts(lefts, cur, rights, anchor)
  {
    Apart(lefts, cur0, rights, lo, hi, key);
    RotatedLeft(cur0, lefts, rights, lo, hi, key);
    assert cur0.r.n in Nodes(cur0.r) && cur0.r.n in Nodes(cur0) && t0 in Nodes(cur0);
    t, cur := RotateLeft(t0, cur0, TipKey(lefts, lo), TipKey(rights, hi));
    assert Strung(true, lefts, anchor) && Strung(false, rights, anchor);
  }

  /** The branch for a key below the current root: rotate if that pays, then link right. */
  method GoLeft(key: int, t0: Node, r0: Node, rsize0: int, ghost anchor: Node, ghost lefts: Spine, ghost cur0: Shape,
                ghost rights0: Spine, ghost lo: int, ghost hi: int, ghost repr: set<Node>)
    returns (stop: bool, t: Node, r: Node, rsize: int, ghost cur: Shape, ghost rights: Spine)
    requires Parts(lefts, cur0, rights0, anchor) && Narrowed(lefts, cur0, rights0, lo, hi, key)
    requires t0 == cur0.n && r0 == Tip(rights0, anchor) && rsize0 == SpineSize(rights0)
    requires Within(lefts, cur0, rights0, repr) && key < t0.key
    modifies repr, anchor
    ensures Parts(lefts, cur, rights, anchor) && Narrowed(lefts, cur, rights, lo, hi, key)
    ensures t == cur.n && r == Tip(rights, anchor) && rsize == SpineSize(rights)
    ensures Within(lefts, cur, rights, repr) && Whole(lefts, cur, rights) == Whole(lefts, cur0, rights0)
    ensures stop ==> key < t.key && cur.l.Leaf?
    ensures !stop ==> Size(cur) < Size(cur0)
  {
    hide Narrowed, Strung, Tree, InOrder, SpineInOrder;
    t, r, rsize, cur, rights, stop := t0, r0, rsize0, cur0, rights0, true;
    if t.left == null {
      return;
    }
    if key < t.left.key {
      RotatedRight(cur, lefts, rights, lo, hi, key);
      t, cur := TurnRight(t, anchor, lefts, cur, rights, lo, hi, key);
      if t.left == null {
        return;
      }
    }
    stop := false;
    LinkedRight(lefts, cur, rights, repr);
    LinkRight(r, t, anchor, lefts, cur, rights, lo, hi, key);
    cur, rights := cur.l, Snoc(rights, cur.r, t);
    r := t;
    t := t.left;
    rsize := rsize + 1 + NodeValue(r.right);
  }

  /** The mirror image: a key above the current root. */
  method GoRight(key: int, t0: Node, l0: Node, lsize0: int, ghost anchor: Node, ghost lefts0: Spine,
            ghost cur0: Shape,
                 ghost rights: Spine, ghost lo: int, ghost hi: int, ghost repr: set<Node>)
    returns (stop: bool, t: Node, l: Node, lsize: int, ghost lefts: Spine, ghost cur: Shape)
    requires Parts(lefts0, cur0, rights, anchor) && Narrowed(lefts0, cur0, rights, lo, hi, key)
    requires t0 == cur0.n && l0 == Tip(lefts0, anchor) && lsize0 == SpineSize(lefts0)
    requires Within(lefts0, cur0, rights, repr) && t0.key < key
    modifies repr, anchor
    ensures Parts(lefts, cur, rights, anchor) && Narrowed(lefts, cur, rights, lo, hi, key)
    ensures t == cur.n && l == Tip(lefts, anchor) && lsize == SpineSize(lefts)
    ensures Within(lefts, cur, rights, repr) && Whole(lefts, cur, rights) == Whole(lefts0, cur0, rights)
    ensures stop ==> t.key < key && cur.r.Leaf?
    ensures !stop ==> Size(cur) < Size(cur0)
  {
    hide Narrowed, Strung, Tree, InOrder, SpineInOrder;
    t, l, lsize, cur, lefts, stop := t0, l0, lsize0, cur0, lefts0, true;
    if t.right == null {
      return;
    }
    if t.right.key < key {
      RotatedLeft(cur, lefts, rights, lo, hi, key);
      t, cur := TurnLeft(t, anchor, lefts, cur, rights, lo, hi, key);
      if t.right == null {
        return;
      }
    }
    stop := false;
    LinkedLeft(lefts, cur, rights, repr);
    LinkLeft(l, t, anchor, lefts, cur, rights, lo, hi, key);
    cur, lefts := cur.r, Snoc(lefts, cur.l, t);
    l := t;
    t := t.right;
    lsize := lsize + 1 + NodeValue(l.left);
  }

  // ---------- putting the parts together again ----------

  /** Write the open pointers of both spines. */
  method TieBoth(l: Node, v: Node?, r: Node, w: Node?, ghost anchor: Node, ghost lefts: Spine, ghost cur: Shape,
                 ghost rights: Spine, ghost lo: int, ghost hi: int, ghost key: int)
    requires Parts(lefts, cur, rights, anchor) && Narrowed(lefts, cur, rights, lo, hi, key)
    requires l == Tip(lefts, anchor) && r == Tip(rights, anchor)
    modifies l`right, r`left
    ensures Parts(lefts, cur, rights, anchor) && l.right == v && r.left == w
  {
    Apart(lefts, cur, rights, lo, hi, key);
    assert l !in Nodes(cur) && l !in SpineNodes(rights);
    TieLeft(l, v, lefts, anchor, lo);
    assert Topped(cur) && Strung(false, rights, anchor);
    assert r !in Nodes(cur) && r !in SpineNodes(lefts);
    TieRight(r, w, rights, anchor, hi);
    assert Topped(cur) && Strung(true, lefts, anchor);
  }

  method RepairBoth(anchor: Node, lsize: int, rsize: int, ghost lefts: Spine, ghost cur: Shape, ghost rights: Spine,
                    ghost lo: int, ghost hi: int, ghost key: int)
    requires Parts(lefts, cur, rights, anchor) && Narrowed(lefts, cur, rights, lo, hi, key)
    requires Tip(lefts, anchor).right == null && Tip(rights, anchor).left == null
    requires lsize == SpineSize(lefts) + Size(cur.l) && rsize == SpineSize(rights) + Size(cur.r)
    modifies SpineNodes(lefts)`value, SpineNodes(rights)`value
    ensures Parts(lefts, cur, rights, anchor)
    ensures Counted(lefts, Size(cur.l)) && Counted(rights, Size(cur.r))
  {
    Apart(lefts, cur, rights, lo, hi, key);
    Repair(true, anchor, lsize, lefts, Size(cur.l), lo);
    assert Topped(cur) && Strung(false, rights, anchor);
    Repair(false, anchor, rsize, rights, Size(cur.r), hi);
    assert Topped(cur) && Strung(true, lefts, anchor);
  }

  lemma OffSpines(lefts: Spine, cur: Shape, rights: Spine, lo: int, hi: int, key: int)
    requires Narrowed(lefts, cur, rights, lo, hi, key) && cur.Bin?
    ensures cur.n !in Nodes(Build(true, lefts, cur.l)) && cur.n !in Nodes(Build(false, rights, cur.r))
  {
    Apart(lefts, cur, rights, lo, hi, key);
    BuildNodes(true, lefts, cur.l);
    BuildNodes(false, rights, cur.r);
    InRange(cur.l, TipKey(lefts, lo), cur.n.key);
    InRange(cur.r, cur.n.key, TipKey(rights, hi));
  }

  lemma BothAssembled(anchor: Node, lefts: Spine, cur: Shape, rights: Spine, lo: int, hi: int, key: int)
    requires Parts(lefts, cur, rights, anchor) && Narrowed(lefts, cur, rights, lo, hi, key) && cur.Bin?
    requires Counted(lefts, Size(cur.l)) && Counted(rights, Size(cur.r))
    requires Tip(lefts, anchor).right == Root(cur.l) && Tip(rights, anchor).left == Root(cur.r)
    ensures Tree(Build(true, lefts, cur.l)) && Tree(Build(false, rights, cur.r))
    ensures anchor.right == Root(Build(true, lefts, cur.l)) && anchor.left == Root(Build(false, rights, cur.r))
    ensures cur.n !in Nodes(Build(true, lefts, cur.l)) && cur.n !in Nodes(Build(false, rights, cur.r))
    ensures cur.n != anchor
  {
    Assembled(true, lefts, anchor, cur.l);
    Assembled(false, rights, anchor, cur.r);
    OffSpines(lefts, cur, rights, lo, hi, key);
  }

  method Assemble(t: Node, l: Node, r: Node, anchor: Node, ghost lefts: Spine, ghost cur: Shape, ghost rights: Spine,
                  ghost lo: int, ghost hi: int, ghost key: int)
    requires Parts(lefts, cur, rights, anchor) && Narrowed(lefts, cur, rights, lo, hi, key)
    requires t == cur.n && l == Tip(lefts, anchor) && r == Tip(rights, anchor)
    requires Counted(lefts, Size(cur.l)) && Counted(rights, Size(cur.r))
    modifies l`right, r`left, t`left, t`right
    ensures Tree(Build(true, lefts, cur.l)) && Tree(Build(false, rights, cur.r))
    ensures t.left == Root(Build(true, lefts, cur.l)) && t.right == Root(Build(false, rights, cur.r))
  {
    hide Strung, Counted, Bst, Tree, Narrowed;
    Apart(lefts, cur, rights, lo, hi, key);
    TieBoth(l, t.left, r, t.right, anchor, lefts, cur, rights, lo, hi, key);
    BothAssembled(anchor, lefts, cur, rights, lo, hi, key);
    hide Parts, Topped;
    t.left := anchor.right;
    t.right := anchor.left;
  }

  /** What `splay` promises: the same nodes in the same order, sized, with the key sought, or a
      neighbour of where it would be, at the root. */
  ghost predicate Splayed(before: Shape, after: Shape, lo: int, hi: int, key: int)
  {
    && after.Bin? && lo < after.n.key < hi
    && InOrder(after) == InOrder(before)
    && Bst(after.l, lo, if key < after.n.key then key else after.n.key)
    && Bst(after.r, if after.n.key < key then key else after.n.key, hi)
  }

  lemma SplayedResult(before: Shape, lefts: Spine, cur: Shape, rights: Spine, lo: int, hi: int, key: int)
    requires cur.Bin? && Narrowed(lefts, cur, rights, lo, hi, key) && Whole(lefts, cur, rights) == InOrder(before)
    requires key < cur.n.key ==> cur.l.Leaf?
    requires cur.n.key < key ==> cur.r.Leaf?
    ensures Splayed(before, Bin(Build(true, lefts, cur.l), cur.n, Build(false, rights, cur.r)), lo, hi, key)
  {
    hide InOrder, SpineInOrder, Whole;
    SpineInRange(true, lefts, lo);
    SpineInRange(false, rights, hi);
    BuildBst(true, lefts, cur.l, lo, if key < cur.n.key then key else cur.n.key);
    BuildBst(false, rights, cur.r, if cur.n.key < key then key else cur.n.key, hi);
    SplayedInOrder(lefts, cur, rights);
  }

  lemma SplayedInOrder(lefts: Spine, cur: Shape, rights: Spine)
    requires cur.Bin?
    ensures InOrder(Bin(Build(true, lefts, cur.l), cur.n, Build(false, rights, cur.r))) == Whole(lefts, cur, rights)
  {
    hide Build, SpineInOrder;
    BuildInOrder(true, lefts, cur.l);
    BuildInOrder(false, rights, cur.r);
    Regroup(SpineInOrder(true, lefts), InOrder(cur.l), [cur.n], InOrder(cur.r), SpineInOrder(false, rights));
  }

  lemma Regroup<T>(a: seq<T>, b: seq<T>, n: seq<T>, c: seq<T>, d: seq<T>)
    ensures a + (b + n + c) + d == (a + b) + n + (c + d)
  {
  }

  method CountRoot(t: Node, lsize0: int, rsize0: int, ghost anchor: Node, ghost lefts: Spine, ghost cur: Shape,
                   ghost rights: Spine, ghost lo: int, ghost hi: int, ghost key: int)
    returns (lsize: int, rsize: int)
    requires Parts(lefts, cur, rights, anchor) && Narrowed(lefts, cur, rights, lo, hi, key) && t == cur.n
    modifies t`value
    ensures Parts(lefts, cur, rights, anchor) && t.value == lsize + rsize + 1
    ensures lsize == lsize0 + Size(cur.l) && rsize == rsize0 + Size(cur.r)
  {
    Apart(lefts, cur, rights, lo, hi, key);
    RootValue(cur.l);
    RootValue(cur.r);
    InRange(cur.l, TipKey(lefts, lo), t.key);
    InRange(cur.r, t.key, TipKey(rights, hi));
    lsize := lsize0 + NodeValue(t.left);
    rsize := rsize0 + NodeValue(t.right);
    t.value := lsize + rsize + 1;
    assert Tree(cur.l) && Tree(cur.r) && Strung(true, lefts, anchor) && Strung(false, rights, anchor);
  }

  method Finish(t: Node, l: Node, r: Node, anchor: Node, lsize0: int, rsize0: int, ghost lefts: Spine,
            ghost cur: Shape,
                ghost rights: Spine, ghost lo: int, ghost hi: int, ghost key: int, ghost repr: set<Node>)
    requires cur.Bin? && Parts(lefts, cur, rights, anchor) && Narrowed(lefts, cur, rights, lo, hi, key)
    requires t == cur.n && l == Tip(lefts, anchor) && r == Tip(rights, anchor)
    requires lsize0 == SpineSize(lefts) && rsize0 == SpineSize(rights) && Within(lefts, cur, rights, repr)
    modifies repr, anchor
    ensures Tree(Bin(Build(true, lefts, cur.l), t, Build(false, rights, cur.r)))
  {
    hide Strung, Counted, Bst, Narrowed, Parts;
    Apart(lefts, cur, rights, lo, hi, key);
    OffSpines(lefts, cur, rights, lo, hi, key);
    assert t !in SpineNodes(lefts) && t !in SpineNodes(rights);
    var lsize, rsize := CountRoot(t, lsize0, rsize0, anchor, lefts, cur, rights, lo, hi, key);
    TieBoth(l, null, r, null, anchor, lefts, cur, rights, lo, hi, key);
    RepairBoth(anchor, lsize, rsize, lefts, cur, rights, lo, hi, key);
    Assemble(t, l, r, anchor, lefts, cur, rights, lo, hi, key);
    BuildNodes(true, lefts, cur.l);
    BuildNodes(false, rights, cur.r);
  }

  lemma StartPass(s: Shape, anchor: Node, lo: int, hi: int, key: int)
    requires Tree(s) && s.Bin? && Bst(s, lo, hi) && lo < key < hi && anchor !in Nodes(s)
    ensures Parts(Nil, s, Nil, anchor) && Narrowed(Nil, s, Nil, lo, hi, key)
    ensures Whole(Nil, s, Nil) == InOrder(s) && Within(Nil, s, Nil, Nodes(s))
  {
  }

  method Splay(key: int, t0: Node?, ghost s: Shape, ghost lo: int, ghost hi: int)
    returns (t: Node?, ghost s': Shape)
    requires Tree(s) && Root(s) == t0 && Bst(s, lo, hi) && lo < key < hi
    modifies Nodes(s)
    ensures Tree(s') && Root(s') == t
    ensures s.Leaf? ==> s' == Leaf
    ensures s.Bin? ==> Splayed(s, s', lo, hi, key)
  {
    if t0 == null {
      return null, Leaf;
    }
    var root: Node := t0;
    Alive(s);
    var anchor := new Node(0);
    assert Tree(s) && anchor !in Nodes(s);
    var l, r: Node := anchor, anchor;
    var lsize, rsize := 0, 0;
    ghost var lefts, cur, rights, repr := Nil, s, Nil, Nodes(s);
    StartPass(s, anchor, lo, hi, key);
    hide Narrowed, Strung, Tree, InOrder, SpineInOrder, Whole, Bst, Parts, Within, SpineBst;
    while true
      invariant Parts(lefts, cur, rights, anchor) && Narrowed(lefts, cur, rights, lo, hi, key)
      invariant root == Root(cur) && l == Tip(lefts, anchor) && r == Tip(rights, anchor)
      invariant lsize == SpineSize(lefts) && rsize == SpineSize(rights)
      invariant Within(lefts, cur, rights, repr) && Whole(lefts, cur, rights) == InOrder(s)
      decreases Size(cur)
    {
      var stop := true;
      if key < root.key {
        stop, root, r, rsize, cur, rights := GoLeft(key, root, r, rsize, anchor, lefts, cur, rights, lo, hi, repr);
      } else if key > root.key {
        stop, root, l, lsize, lefts, cur := GoRight(key, root, l, lsize, anchor, lefts, cur, rights, lo, hi, repr);
      }
      if stop {
        break;
      }
    }
    SplayedResult(s, lefts, cur, rights, lo, hi, key);
    Finish(root, l, r, anchor, lsize, rsize, lefts, cur, rights, lo, hi, key, repr);
    t, s' := root, Bin(Build(true, lefts, cur.l), root, Build(false, rights, cur.r));
  }

  // ---------- insertion and deletion ----------

  /** A sized search tree on linked nodes that holds exactly `keys`. */
  ghost predicate Holds(t: Node?, s: Shape, keys: set<int>, lo: int, hi: int)
    reads Nodes(s)
  {
    Tree(s) && Root(s) == t && Bst(s, lo, hi) && Keys(s) == keys
  }

  /** Hang a new root between the halves of a splayed tree: `t` takes the upper half. */
  method SplitBelow(x: Node, t: Node, ghost s: Shape, ghost lo: int, ghost hi: int) returns (ghost s': Shape)
    requires Tree(s) && Root(s) == t && x !in Nodes(s) && lo < x.key < t.key < hi
    requires Bst(s.l, lo, x.key) && Bst(s.r, t.key, hi)
    modifies x, t
    ensures s' == Bin(s.l, x, Bin(Leaf, t, s.r)) && Tree(s')
  {
    InRange(s.l, lo, x.key);
    InRange(s.r, t.key, hi);
    RootValue(s.l);
    RootValue(s.r);
    x.left := t.left;
    x.right := t;
    t.left := null;
    assert Tree(s.l) && Tree(s.r);
    t.value := 1 + NodeValue(t.right);
    assert Tree(s.l) && Tree(Bin(Leaf, t, s.r));
    x.value := 1 + NodeValue(x.left) + NodeValue(x.right);
    assert Tree(s.l) && Tree(s.r) && Tree(Bin(Leaf, t, s.r));
    s' := Bin(s.l, x, Bin(Leaf, t, s.r));
  }

  /** `t` takes the lower half. */
  method SplitAbove(x: Node, t: Node, ghost s: Shape, ghost lo: int, ghost hi: int) returns (ghost s': Shape)
    requires Tree(s) && Root(s) == t && x !in Nodes(s) && lo < t.key < x.key < hi
    requires Bst(s.l, lo, t.key) && Bst(s.r, x.key, hi)
    modifies x, t
    ensures s' == Bin(Bin(s.l, t, Leaf), x, s.r) && Tree(s')
  {
    InRange(s.l, lo, t.key);
    InRange(s.r, x.key, hi);
    RootValue(s.l);
    RootValue(s.r);
    x.right := t.right;
    x.left := t;
    t.right := null;
    assert Tree(s.l) && Tree(s.r);
    t.value := 1 + NodeValue(t.left);
    assert Tree(s.r) && Tree(Bin(s.l, t, Leaf));
    x.value := 1 + NodeValue(x.left) + NodeValue(x.right);
    assert Tree(s.l) && Tree(s.r) && Tree(Bin(s.l, t, Leaf));
    s' := Bin(Bin(s.l, t, Leaf), x, s.r);
  }

  lemma NewRoot(before: Shape, s: Shape, x: Node, lo: int, hi: int, key: int)
    requires Splayed(before, s, lo, hi, key) && x.key == key != s.n.key && lo < key < hi
    ensures var s' := if key < s.n.key then Bin(s.l, x, Bin(Leaf, s.n, s.r)) else Bin(Bin(s.l, s.n, Leaf), x, s.r);
            Bst(s', lo, hi) && Keys(s') == Keys(s) + {key} && Nodes(s') == Nodes(s) + {x}
  {
    if key < s.n.key {
      assert Bst(Bin(Leaf, s.n, s.r), key, hi);
      assert Nodes(Bin(Leaf, s.n, s.r)) == {s.n} + Nodes(s.r);
      assert Keys(Bin(Leaf, s.n, s.r)) == {s.n.key} + Keys(s.r);
    } else {
      assert Bst(Bin(s.l, s.n, Leaf), lo, key);
      assert Nodes(Bin(s.l, s.n, Leaf)) == {s.n} + Nodes(s.l);
      assert Keys(Bin(s.l, s.n, Leaf)) == {s.n.key} + Keys(s.l);
    }
  }

  method Insert(key: int, t0: Node?, ghost s: Shape, ghost keys: set<int>, ghost lo: int, ghost hi: int)
    returns (t: Node, ghost s': Shape)
    requires Holds(t0, s, keys, lo, hi) && lo < key < hi
    modifies Nodes(s)
    ensures Holds(t, s', keys + {key}, lo, hi)
    ensures forall n | n in Nodes(s') && n !in Nodes(s) :: fresh(n)
  {
    Alive(s);
    var x := new Node(key);
    if t0 == null {
      s' := Bin(Leaf, x, Leaf);
      assert Keys(s') == keys + {key} && Tree(s');
      return x, s';
    }
    ghost var s1;
    var t1;
    t1, s1 := Splay(key, t0, s, lo, hi);
    SameInOrder(s, s1);
    NotFound(s, s1, lo, hi, key);
    if key == t1.key {
      return t1, s1;
    }
    NewRoot(s, s1, x, lo, hi, key);
    if key < t1.key {
      s' := SplitBelow(x, t1, s1, lo, hi);
    } else {
      s' := SplitAbove(x, t1, s1, lo, hi);
    }
    t := x;
  }

  method SplayDelete(key: int, t0: Node?, ghost s: Shape, ghost keys: set<int>, ghost lo: int, ghost hi: int)
    returns (t: Node?, ghost s': Shape)
    requires Holds(t0, s, keys, lo, hi) && lo < key < hi
    modifies Nodes(s)
    ensures Holds(t, s', keys - {key}, lo, hi) && Nodes(s') <= Nodes(s)
  {
    if t0 == null {
      return null, Leaf;
    }
    var rootValue := t0.value;
    ghost var s1;
    var t1;
    t1, s1 := Splay(key, t0, s, lo, hi);
    SameInOrder(s, s1);
    NotFound(s, s1, lo, hi, key);
    if key != t1.key {
      return t1, s1;
    }
    t, s' := JoinHalves(key, t1, rootValue, s1, lo, hi);
  }

  lemma NotFound(before: Shape, s: Shape, lo: int, hi: int, key: int)
    requires Splayed(before, s, lo, hi, key)
    ensures Bst(s, lo, hi)
    ensures s.n.key != key ==> key !in Keys(s)
  {
    hide InOrder;
    BstWiden(s.l, lo, if key < s.n.key then key else s.n.key, lo, s.n.key);
    BstWiden(s.r, if s.n.key < key then key else s.n.key, hi, s.n.key, hi);
    KeysInRange(s.l, lo, if key < s.n.key then key else s.n.key);
    KeysInRange(s.r, if s.n.key < key then key else s.n.key, hi);
  }

  /** Splaying a tree for a key above all of its keys leaves nothing on the right. */
  lemma LargestOnTop(before: Shape, s: Shape, lo: int, key: int)
    requires Bst(before, lo, key) && Splayed(before, s, lo, key + 1, key)
    ensures s.r == Leaf && Bst(s.l, lo, s.n.key) && s.n.key < key
    ensures Keys(s.l) + {s.n.key} == Keys(before) && Size(s.l) + 1 == Size(before) && Nodes(s) == Nodes(before)
  {
    SameInOrder(before, s);
    KeysInRange(before, lo, key);
    assert s.n.key in Keys(s);
  }

  /** The root is dropped: its left half, splayed for the root's key, takes over its right half. */
  method JoinHalves(key: int, t0: Node, rootValue: int, ghost s: Shape, ghost lo: int, ghost hi: int)
    returns (t: Node?, ghost s': Shape)
    requires Tree(s) && Root(s) == t0 && t0.key == key && Bst(s, lo, hi) && rootValue == Size(s)
    modifies Nodes(s)
    ensures Holds(t, s', Keys(s) - {key}, lo, hi) && Nodes(s') <= Nodes(s)
  {
    DropRoot(s, lo, hi);
    if t0.left == null {
      t, s' := t0.right, s.r;
      if t != null {
        t.value := rootValue - 1;
      }
    } else {
      var x;
      ghost var s1;
      x, s1 := Splay(key, t0.left, s.l, lo, key + 1);
      LargestOnTop(s.l, s1, lo, key);
      BstWiden(s.r, key, hi, x.key, hi);
      assert Tree(s.r) && t0.right == Root(s.r);
      t, s' := x, Bin(s1.l, x, s.r);
      Graft(x, t0.right, rootValue - 1, s1, s.r, lo, hi);
    }
  }

  /** What is left of a search tree without its root. */
  lemma DropRoot(s: Shape, lo: int, hi: int)
    requires Bst(s, lo, hi) && s.Bin?
    ensures Keys(s) - {s.n.key} == Keys(s.l) + Keys(s.r)
    ensures Bst(s.l, lo, s.n.key + 1) && Bst(s.r, lo, hi) && s.n !in Nodes(s.l) + Nodes(s.r)
    ensures Nodes(s.l) !! Nodes(s.r)
    ensures forall x | x in Nodes(s.r) :: allocated(x)
  {
    KeysInRange(s.l, lo, s.n.key);
    KeysInRange(s.r, s.n.key, hi);
    InRange(s.l, lo, s.n.key);
    InRange(s.r, s.n.key, hi);
    BstWiden(s.l, lo, s.n.key, lo, s.n.key + 1);
    BstWiden(s.r, s.n.key, hi, lo, hi);
    Alive(s.r);
  }

  method Graft(x: Node, right: Node?, value: int, ghost l: Shape, ghost r: Shape, ghost lo: int, ghost hi: int)
    requires Tree(l) && Root(l) == x && Bst(l.l, lo, x.key) && l.r == Leaf
    requires Tree(r) && Root(r) == right && Bst(r, x.key, hi)
    requires value == Size(l) + Size(r)
    modifies x
    ensures Tree(Bin(l.l, x, r))
  {
    InRange(l.l, lo, x.key);
    InRange(r, x.key, hi);
    x.right := right;
    x.value := value;
    assert Tree(l.l) && Tree(r);
  }
}
