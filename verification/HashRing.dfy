/** The consistent-hash ring of consistentHash.c. */
module HashRing {
  import Sets
  import opened Md5Spec

  const N_VNODE_PER_SERVER: nat := 160

  datatype Vnode = Vnode(point: Word, server: nat)

  type Vnodes = seq<Vnode>

  /** The bytes that `sprintf("%u")` writes. */
  function Decimal(x: nat): seq<Byte>
  {
    (if x < 10 then [] else Decimal(x / 10)) + [48 + x % 10]
  }

  function Name(server: nat, k: nat): seq<Byte>
  {
    Decimal(server) + [45] + Decimal(k)
  }

  /** Four bytes of a digest as a number. */
  function WordAt(digest: seq<Byte>, at: nat): Word
    requires at + 4 <= |digest|
  {
    digest[at] as int + digest[at + 1] as int * 0x100
    + digest[at + 2] as int * 0x1_0000 + digest[at + 3] as int * 0x100_0000
  }

  /** ketama_hash */
  function KetamaHash(round: Round, key: seq<Byte>): Word
  {
    WordAt(Digest(round, key), 0)
  }

  /** Point `c` in the order they are made: 160 per server, four from each digest. */
  function Made(round: Round, c: nat): Vnode
  {
    var server, k, h := c / N_VNODE_PER_SERVER, c % N_VNODE_PER_SERVER / 4, c % 4;
    Vnode(WordAt(Digest(round, Name(server, k)), 4 * h), server)
  }

  function AllMade(round: Round, n: nat): (s: Vnodes)
    ensures |s| == n * N_VNODE_PER_SERVER
    ensures forall c | 0 <= c < |s| :: s[c] == Made(round, c)
  {
    seq(n * N_VNODE_PER_SERVER, c requires 0 <= c < n * N_VNODE_PER_SERVER => Made(round, c))
  }

  /** The number that decimal digits stand for. */
  function Reading(digits: seq<Byte>): int
  {
    if digits == [] then 0 else 10 * Reading(digits[..|digits| - 1]) + digits[|digits| - 1] - 48
  }

  lemma {:induction false} DecimalReads(x: nat)
    ensures Reading(Decimal(x)) == x && Decimal(x) != []
    ensures forall i | 0 <= i < |Decimal(x)| :: 48 <= Decimal(x)[i] <= 57
  {
    if x >= 10 {
      DecimalReads(x / 10);
      assert Decimal(x)[..|Decimal(x)| - 1] == Decimal(x / 10);
    } else {
      assert Decimal(x) == [48 + x];
      assert Reading([48 + x]) == 10 * Reading([]) + x;
    }
  }

  /** No two digests that the ring is made of are of the same name. */
  lemma NamesDiffer(server: nat, k: nat, server': nat, k': nat)
    requires Name(server, k) == Name(server', k')
    ensures server == server' && k == k'
  {
    DecimalReads(server);
    DecimalReads(server');
    DecimalReads(k);
    DecimalReads(k');
    hide Decimal, Reading;
    var a, b, a', b' := Decimal(server), Decimal(k), Decimal(server'), Decimal(k');
    var n := Name(server, k);
    DashFirst(n, a, b);
    DashFirst(n, a', b');
    assert |a| == |a'|;
    assert a == n[..|a|] == a' && b == n[|a| + 1..] == b';
  }

  /** The dash comes right behind the digits in front of it. */
  lemma DashFirst(n: seq<Byte>, a: seq<Byte>, b: seq<Byte>)
    requires n == a + [45] + b && forall i | 0 <= i < |a| :: 48 <= a[i]
    ensures |a| < |n| && n[|a|] == 45 && n[..|a|] == a && n[|a| + 1..] == b
    ensures forall i | 0 <= i < |a| :: n[i] != 45
  {
  }

  /** A point is four bytes of a digest, least significant first. */
  lemma WordBytes(digest: seq<Byte>, at: nat)
    requires at + 4 <= |digest|
    ensures LittleEndian(WordAt(digest, at), 4) == digest[at..at + 4]
  {
    var x: nat := WordAt(digest, at);
    FourBytes(x);
    Base256(digest[at], digest[at + 1], digest[at + 2], digest[at + 3]);
  }

  lemma Base256(b0: nat, b1: nat, b2: nat, b3: nat)
    requires b0 < 256 && b1 < 256 && b2 < 256 && b3 < 256
    ensures var x := b0 + b1 * 0x100 + b2 * 0x1_0000 + b3 * 0x100_0000;
            && x % 256 == b0 && x / 0x100 % 256 == b1 && x / 0x1_0000 % 256 == b2 && x / 0x100_0000 % 256 == b3
  {
    var x := b0 + b1 * 0x100 + b2 * 0x1_0000 + b3 * 0x100_0000;
    LowByte(b0, b1 + 256 * (b2 + 256 * b3));
    LowByte(b1, b2 + 256 * b3);
    LowByte(b2, b3);
    assert x / 0x1_0000 == x / 256 / 256 && x / 0x100_0000 == x / 0x1_0000 / 256;
  }

  /** `%u-%u` */
  lemma NameTwelve()
    ensures Name(12, 3) == [49, 50, 45, 51]
  {
    assert Decimal(12) == Decimal(1) + [50];
  }

  /** Point `h` of digest `k` of a server, and where a key goes, are read off their digests. */
  lemma PointBytes(round: Round, n: nat, server: nat, k: nat, h: nat, key: seq<Byte>)
    requires server < n && k < 40 && h < 4
    ensures LittleEndian(KetamaHash(round, key), 4) == Digest(round, key)[..4]
    ensures var c := 160 * server + 4 * k + h; var made := AllMade(round, n);
            && c < |made| && made[c].server == server
            && LittleEndian(made[c].point, 4) == Digest(round, Name(server, k))[4 * h..4 * h + 4]
  {
    WordBytes(Digest(round, key), 0);
    WordBytes(Digest(round, Name(server, k)), 4 * h);
    hide LittleEndian, Digest, Name, WordAt;
    Ring.Where(server, k, h);
    Ring.MadeAt(round, server, k, h);
    assert 160 * server + 4 * k + h < 160 * (server + 1) <= 160 * n;
  }

  // ---------- sorting ----------

  ghost predicate Sorted(ring: Vnodes)
  {
    forall i, j | 0 <= i < j < |ring| :: ring[i].point <= ring[j].point
  }

  ghost predicate SortingOf(ring: Vnodes, made: Vnodes)
  {
    Sorted(ring) && multiset(ring) == multiset(made)
  }

  /** The library's `qsort`: some sorting of its input. */
  ghost predicate Sorts(qsort: Vnodes -> Vnodes)
  {
    forall s :: SortingOf(qsort(s), s)
  }

  lemma SortedMembers(ring: Vnodes, made: Vnodes, v: Vnode)
    requires SortingOf(ring, made)
    ensures v in ring <==> v in made
    ensures |ring| == |made|
  {
    assert v in ring <==> v in multiset(ring);
    assert v in made <==> v in multiset(made);
    assert |multiset(ring)| == |ring| && |multiset(made)| == |made|;
  }

  // ---------- looking up a hash ----------

  /** `v` is the first point at or after `h`; past the last point the ring starts again. */
  ghost predicate Owns(made: Vnodes, h: Word, v: Vnode)
  {
    && v in made
    && if h <= v.point then forall w | w in made && h <= w.point :: v.point <= w.point
       else (forall w | w in made :: w.point < h) && (forall w | w in made :: v.point <= w.point)
  }

  ghost predicate DistinctPoints(made: Vnodes)
  {
    forall v, w | v in made && w in made && v.point == w.point :: v == w
  }

  /** What ch_ring_get_vnode_idx returns: the first vnode at or after the hash, or vnode 0. */
  ghost predicate IdxOf(ring: Vnodes, h: Word, i: int)
  {
    && 0 <= i && (i < |ring| || (i == 0 && ring == []))
    && (forall j | 0 <= j < i :: ring[j].point < h)
    && (ring != [] ==> h <= ring[i].point || (i == 0 && forall j | 0 <= j < |ring| :: ring[j].point < h))
  }

  lemma IdxOwns(ring: Vnodes, made: Vnodes, h: Word, i: int)
    requires SortingOf(ring, made) && IdxOf(ring, h, i) && ring != []
    ensures Owns(made, h, ring[i])
  {
    SortedMembers(ring, made, ring[i]);
    forall w | w in made && (h <= w.point || ring[i].point < h)
      ensures ring[i].point <= w.point && (ring[i].point < h ==> w.point < h)
    {
      SortedMembers(ring, made, w);
      var j :| 0 <= j < |ring| && ring[j] == w;
    }
  }

  /** Whatever the sort does with equal points, two owners of a hash have the same point. */
  lemma OwnersMeet(made: Vnodes, h: Word, v: Vnode, w: Vnode)
    requires Owns(made, h, v) && Owns(made, h, w)
    ensures v.point == w.point
  {
  }

  /** Two servers have a point in common. */
  ghost predicate Share(made: Vnodes, v: Vnode, w: Vnode)
  {
    v in made && w in made && v.point == w.point && v.server != w.server
  }

  /** Server `n` owns no more than its own points, so adding it moves a key either to it or, if the old owner's
      point is shared, to a vnode at the very same point. If no two old servers share a point only the former is left:
      every other key stays where it is. */
  lemma AddingMovesOnlyToNew(round: Round, n: nat, ring: Vnodes, ring': Vnodes, h: Word, i: int, i': int)
    requires n > 0 && SortingOf(ring, AllMade(round, n)) && SortingOf(ring', AllMade(round, n + 1))
    requires IdxOf(ring, h, i) && IdxOf(ring', h, i')
    ensures i < |ring| && i' < |ring'|
    ensures ring'[i'].server == n || ring'[i'].point == ring[i].point
    ensures DistinctPoints(AllMade(round, n)) ==> ring'[i'].server == n || ring'[i'] == ring[i]
    ensures (forall v, w :: !Share(AllMade(round, n), v, w)) ==>
              (ring'[i'].server != ring[i].server <==> ring'[i'].server == n)
  {
    var made, made' := AllMade(round, n), AllMade(round, n + 1);
    SortedMembers(ring, made, made[0]);
    SortedMembers(ring', made', made'[0]);
    IdxOwns(ring, made, h, i);
    IdxOwns(ring', made', h, i');
    hide IdxOf, SortingOf, AllMade, Owns;
    OldOwners(round, n, h, ring[i], ring'[i']);
    if ring'[i'].server != n && ring'[i'].server != ring[i].server {
      assert Share(made, ring[i], ring'[i']);
    }
  }

  lemma OldOwners(round: Round, n: nat, h: Word, v: Vnode, v': Vnode)
    requires Owns(AllMade(round, n), h, v) && Owns(AllMade(round, n + 1), h, v')
    ensures v in AllMade(round, n) && v.server != n
    ensures v'.server != n ==> v' in AllMade(round, n) && v'.point == v.point
  {
    MoreMade(round, n);
    hide AllMade;
    if v'.server != n {
      OwnersMeet(AllMade(round, n), h, v, v');
    }
  }

  // ---------- when servers share points ----------

  /** With these rings before and after server `n` is added, this hash moves from one old server to another. */
  ghost predicate OldMove(round: Round, n: nat, ring: Vnodes, ring': Vnodes, h: Word, i: nat, i': nat)
  {
    && SortingOf(ring, AllMade(round, n)) && SortingOf(ring', AllMade(round, n + 1))
    && IdxOf(ring, h, i) && IdxOf(ring', h, i') && i < |ring| && i' < |ring'|
    && ring[i].server != ring'[i'].server && ring'[i'].server != n
  }

  /** Adding a server can move a key between old servers, if the sort so decides, exactly when two of the old servers
      share a point. */
  lemma OldMovesIff(round: Round, n: nat)
    requires n > 0
    ensures (exists ring, ring', h, i, i' :: OldMove(round, n, ring, ring', h, i, i')) <==>
            (exists v, w :: Share(AllMade(round, n), v, w))
  {
    hide *;
    if ring, ring', h, i, i' :| OldMove(round, n, ring, ring', h, i, i') {
      MovesToShare(round, n, ring, ring', h, i, i');
    }
    if v, w :| Share(AllMade(round, n), v, w) {
      var ring, ring', i, i' := ShareMoves(round, n, v, w);
    }
  }

  lemma ShareMoves(round: Round, n: nat, v: Vnode, w: Vnode) returns (ring: Vnodes, ring': Vnodes, i: nat, i': nat)
    requires Share(AllMade(round, n), v, w)
    ensures OldMove(round, n, ring, ring', v.point, i, i')
  {
    hide AllMade, SortingOf, IdxOf;
    MoreMade(round, n);
    ring, i := SortFirst(AllMade(round, n), v);
    ring', i' := SortFirst(AllMade(round, n + 1), w);
  }

  lemma MovesToShare(round: Round, n: nat, ring: Vnodes, ring': Vnodes, h: Word, i: nat, i': nat)
    requires n > 0 && OldMove(round, n, ring, ring', h, i, i')
    ensures Share(AllMade(round, n), ring[i], ring'[i'])
  {
    AddingMovesOnlyToNew(round, n, ring, ring', h, i, i');
    SortedMembers(ring, AllMade(round, n), ring[i]);
    SortedMembers(ring', AllMade(round, n + 1), ring'[i']);
    MoreMade(round, n);
  }

  /** A sorting that puts `v` before all others with its point: `v` owns that point. */
  lemma SortFirst(made: Vnodes, v: Vnode) returns (ring: Vnodes, i: nat)
    requires v in made
    ensures SortingOf(ring, made) && i < |ring| && ring[i] == v && IdxOf(ring, v.point, i)
  {
    var c :| 0 <= c < |made| && made[c] == v;
    var rest := InsertionSort(made[..c] + made[c + 1..]);
    ring, i := InsertFront(rest, v);
    assert made == made[..c] + [v] + made[c + 1..];
  }

  lemma {:induction false} InsertionSort(made: Vnodes) returns (ring: Vnodes)
    ensures SortingOf(ring, made)
  {
    ring := [];
    if made != [] {
      var rest := InsertionSort(made[1..]);
      var i;
      ring, i := InsertFront(rest, made[0]);
      assert made == [made[0]] + made[1..];
    }
  }

  lemma InsertFront(s: Vnodes, v: Vnode) returns (ring: Vnodes, i: nat)
    requires Sorted(s)
    ensures Sorted(ring) && multiset(ring) == multiset(s) + multiset{v}
    ensures i < |ring| && ring[i] == v && forall j | 0 <= j < i :: ring[j].point < v.point
  {
    i := 0;
    while i < |s| && s[i].point < v.point
      invariant i <= |s| && forall j | 0 <= j < i :: s[j].point < v.point
    {
      i := i + 1;
    }
    ring := PutAt(s, v, i);
  }

  lemma PutAt(s: Vnodes, v: Vnode, i: nat) returns (ring: Vnodes)
    requires Sorted(s) && i <= |s| && (i < |s| ==> v.point <= s[i].point)
    requires forall j | 0 <= j < i :: s[j].point < v.point
    ensures Sorted(ring) && multiset(ring) == multiset(s) + multiset{v} && |ring| == |s| + 1 && ring[i] == v
    ensures forall j | 0 <= j < i :: ring[j] == s[j]
  {
    ring := s[..i] + [v] + s[i..];
    assert forall j | i < j < |ring| :: ring[j] == s[j - 1] && v.point <= s[j - 1].point;
    PutMembers(s, v, i);
  }

  lemma PutMembers(s: Vnodes, v: Vnode, i: nat)
    requires i <= |s|
    ensures multiset(s[..i] + [v] + s[i..]) == multiset(s) + multiset{v}
  {
    assert s == s[..i] + s[i..];
  }

  function NoRound(chain: Chain, block: seq<Byte>): Chain
  {
    Chain(0, 0, 0, 0)
  }

  lemma AllPointsZero(c: nat)
    ensures Made(NoRound, c).point == 0
  {
    var server, k := c / N_VNODE_PER_SERVER, c % N_VNODE_PER_SERVER / 4;
    ZeroDigest(Name(server, k));
  }

  lemma ZeroDigest(m: seq<Byte>)
    ensures forall i | 0 <= i < 16 :: Digest(NoRound, m)[i] == 0
  {
    var p := Padded(m);
    LastEight(m);
    assert Fold(NoRound, p) == Chain(0, 0, 0, 0);
    var zeros: seq<Word> := [0, 0, 0, 0];
    forall i | 0 <= i < 16
      ensures Bytes(zeros)[i] == 0
    {
      BytesAt(zeros, i);
      assert 0 / Power256(i % 4) == 0;
    }
  }

  /** An instance: with a digest that tells nothing apart, two rings of two and three servers, both properly sorted,
      move a key from old server 0 to old server 1. */
  lemma TieMoves() returns (ring: Vnodes, ring': Vnodes)
    ensures SortingOf(ring, AllMade(NoRound, 2)) && SortingOf(ring', AllMade(NoRound, 3))
    ensures IdxOf(ring, 0, 0) && IdxOf(ring', 0, 0)
    ensures ring[0].server == 0 && ring'[0].server == 1
  {
    hide Made, SortingOf, IdxOf;
    ring := AllMade(NoRound, 2);
    var made := AllMade(NoRound, 3);
    ring' := made[160..320] + made[..160] + made[320..];
    ZeroRing(2, ring);
    Swapped(made);
    ZeroRing(3, ring');
    assert Made(NoRound, 0).server == 0 && Made(NoRound, 160).server == 1 by {
      MadeServers();
    }
  }

  lemma MadeServers()
    ensures Made(NoRound, 0).server == 0 && Made(NoRound, 160).server == 1
  {
  }

  lemma Swapped(made: Vnodes)
    requires |made| >= 320
    ensures multiset(made[160..320] + made[..160] + made[320..]) == multiset(made)
  {
    assert made == made[..160] + made[160..320] + made[320..];
  }

  /** Any order of points that are all 0 is sorted, and its first owns hash 0. */
  lemma ZeroRing(n: nat, ring: Vnodes)
    requires n > 0 && multiset(ring) == multiset(AllMade(NoRound, n))
    ensures SortingOf(ring, AllMade(NoRound, n)) && IdxOf(ring, 0, 0)
  {
    var made := AllMade(NoRound, n);
    assert |multiset(ring)| == |multiset(made)| == |made|;
    forall j | 0 <= j < |ring|
      ensures ring[j].point == 0
    {
      assert ring[j] in multiset(made);
      var c :| 0 <= c < |made| && made[c] == ring[j];
      AllPointsZero(c);
    }
  }

  lemma MoreMade(round: Round, n: nat)
    ensures forall v :: v in AllMade(round, n) <==> v in AllMade(round, n + 1) && v.server != n
    ensures forall v | v in AllMade(round, n) :: v.server < n
  {
    var made, made' := AllMade(round, n), AllMade(round, n + 1);
    forall v
      ensures v in made <==> v in made' && v.server != n
      ensures v in made ==> v.server < n
    {
      MadeWhere(round, n, v);
      MadeWhere(round, n + 1, v);
    }
  }

  lemma MadeWhere(round: Round, n: nat, v: Vnode)
    ensures v in AllMade(round, n) <==>
              v.server < n && exists c: nat :: c / N_VNODE_PER_SERVER == v.server && Made(round, c) == v
  {
    if v in AllMade(round, n) {
      var c :| 0 <= c < n * N_VNODE_PER_SERVER && AllMade(round, n)[c] == v;
    }
    if c: nat :| v.server < n && c / N_VNODE_PER_SERVER == v.server && Made(round, c) == v {
      assert AllMade(round, n)[c] == v;
    }
  }

  // ---------- walking the ring ----------

  /** The server `j` steps clockwise from `start`. */
  function ServerAt(ring: Vnodes, start: nat, j: nat): nat
    requires ring != []
  {
    ring[(start + j) % |ring|].server
  }

  /** The servers met in the first `pos` steps clockwise from `start`, first-seen order, leaving out those
      `blocked`. */
  function Seen(ring: Vnodes, start: nat, pos: nat, blocked: set<nat>): seq<nat>
    requires ring != []
  {
    if pos == 0 then [] else
      var before := Seen(ring, start, pos - 1, blocked);
      var server := ServerAt(ring, start, pos - 1);
      if server in blocked || server in before then before else before + [server]
  }

  ghost predicate Met(ring: Vnodes, start: nat, pos: nat, server: nat)
    requires ring != []
  {
    exists j: nat | j < pos :: ServerAt(ring, start, j) == server
  }

  lemma {:induction false} SeenIs(ring: Vnodes, start: nat, pos: nat, blocked: set<nat>)
    requires ring != []
    ensures forall s :: s in Seen(ring, start, pos, blocked) <==> s !in blocked && Met(ring, start, pos, s)
    ensures forall a, b | 0 <= a < b < |Seen(ring, start, pos, blocked)| ::
              Seen(ring, start, pos, blocked)[a] != Seen(ring, start, pos, blocked)[b]
  {
    if pos > 0 {
      SeenIs(ring, start, pos - 1, blocked);
      forall s
        ensures Met(ring, start, pos, s) <==> Met(ring, start, pos - 1, s) || ServerAt(ring, start, pos - 1) == s
      {
        MetOne(ring, start, pos - 1, s);
      }
      hide Met, ServerAt;
      SeenStep(ring, start, pos, blocked);
    }
  }

  lemma MetOne(ring: Vnodes, start: nat, pos: nat, s: nat)
    requires ring != []
    ensures Met(ring, start, pos + 1, s) <==> Met(ring, start, pos, s) || ServerAt(ring, start, pos) == s
  {
    hide ServerAt;
    if Met(ring, start, pos + 1, s) {
      var j: nat :| j < pos + 1 && ServerAt(ring, start, j) == s;
      assert j < pos || j == pos;
    }
    if Met(ring, start, pos, s) {
      var j: nat :| j < pos && ServerAt(ring, start, j) == s;
      assert j < pos + 1;
    }
  }

  lemma SeenNone(ring: Vnodes, start: nat, blocked: set<nat>)
    requires ring != []
    ensures Seen(ring, start, 0, blocked) == []
  {
  }

  lemma SeenStep(ring: Vnodes, start: nat, pos: nat, blocked: set<nat>)
    requires ring != [] && pos > 0
    ensures var before, s := Seen(ring, start, pos - 1, blocked), ServerAt(ring, start, pos - 1);
            Seen(ring, start, pos, blocked) == if s in blocked || s in before then before else before + [s]
  {
  }

  /** A longer walk only adds servers at the end: they come in the order they are first met. */
  lemma {:induction false} SeenGrows(ring: Vnodes, start: nat, pos: nat, pos': nat, blocked: set<nat>)
    requires ring != [] && pos <= pos'
    ensures Seen(ring, start, pos, blocked) <= Seen(ring, start, pos', blocked)
  {
    if pos < pos' {
      SeenGrows(ring, start, pos, pos' - 1, blocked);
    }
  }

  /** The ring as it is met from `start`: clockwise to the last point, and from the first point on. */
  function Rotated(ring: Vnodes, start: nat): (r: Vnodes)
    requires start < |ring|
    ensures |r| == |ring|
  {
    ring[start..] + ring[..start]
  }

  lemma RotatedAt(ring: Vnodes, start: nat, j: nat)
    requires start < |ring| && j < |ring|
    ensures Rotated(ring, start)[j].server == ServerAt(ring, start, j)
  {
    Turned(start, if start + j < |ring| then start + j else start + j - |ring|, |ring|);
  }

  /** Server `servers[a]` is met at step `j`, when only the servers before it in the list and blocked ones have been
      met. */
  ghost predicate MetAtStep(turn: Vnodes, servers: seq<nat>, a: nat, j: nat, blocked: set<nat>)
    requires a < |servers|
  {
    && j < |turn| && turn[j].server == servers[a] && servers[a] !in blocked
    && (forall i | 0 <= i < j :: turn[i].server in servers[..a] || turn[i].server in blocked)
  }

  ghost predicate MetInTurn(turn: Vnodes, servers: seq<nat>, a: nat, blocked: set<nat>)
    requires a < |servers|
  {
    exists j :: MetAtStep(turn, servers, a, j, blocked)
  }

  /** The list names different servers, in the order in which a clockwise walk from `start` meets them. */
  ghost predicate Clockwise(ring: Vnodes, start: nat, servers: seq<nat>, blocked: set<nat>)
    requires start < |ring|
  {
    && (forall a, b | 0 <= a < b < |servers| :: servers[a] != servers[b])
    && (forall a | 0 <= a < |servers| :: MetInTurn(Rotated(ring, start), servers, a, blocked))
  }

  /** The walk lists the servers clockwise. */
  lemma SeenClockwise(ring: Vnodes, start: nat, pos: nat, blocked: set<nat>, servers: seq<nat>)
    requires start < |ring| && pos <= |ring| && servers <= Seen(ring, start, pos, blocked)
    ensures Clockwise(ring, start, servers, blocked)
  {
    hide Seen, MetInTurn, Rotated;
    var seen := Seen(ring, start, pos, blocked);
    SeenIs(ring, start, pos, blocked);
    assert forall a | 0 <= a < |servers| :: servers[a] == seen[a];
    forall a | 0 <= a < |servers|
      ensures MetInTurn(Rotated(ring, start), servers, a, blocked)
    {
      SeenInTurn(ring, start, pos, blocked, a);
      assert servers[..a] == seen[..a];
      SameTurn(Rotated(ring, start), seen, servers, a, blocked);
    }
  }

  lemma SameTurn(turn: Vnodes, seen: seq<nat>, servers: seq<nat>, a: nat, blocked: set<nat>)
    requires a < |servers| && a < |seen| && servers[a] == seen[a] && servers[..a] == seen[..a]
    requires MetInTurn(turn, seen, a, blocked)
    ensures MetInTurn(turn, servers, a, blocked)
  {
    var j :| MetAtStep(turn, seen, a, j, blocked);
    assert MetAtStep(turn, servers, a, j, blocked);
  }

  lemma {:induction false} SeenInTurn(ring: Vnodes, start: nat, pos: nat, blocked: set<nat>, a: nat)
    requires start < |ring| && pos <= |ring| && a < |Seen(ring, start, pos, blocked)|
    ensures MetInTurn(Rotated(ring, start), Seen(ring, start, pos, blocked), a, blocked)
  {
    hide Seen, MetInTurn, Rotated;
    SeenNone(ring, start, blocked);
    if pos > 0 {
      SeenStep(ring, start, pos, blocked);
      var before, seen := Seen(ring, start, pos - 1, blocked), Seen(ring, start, pos, blocked);
      if a < |before| {
        SeenInTurn(ring, start, pos - 1, blocked, a);
        assert seen[..a] == before[..a];
        SameTurn(Rotated(ring, start), before, seen, a, blocked);
      } else {
        assert seen[..a] == before;
        SeenIs(ring, start, pos - 1, blocked);
        NewInTurn(ring, start, seen, a, pos - 1, blocked);
      }
    }
  }

  lemma NewInTurn(ring: Vnodes, start: nat, servers: seq<nat>, a: nat, j: nat, blocked: set<nat>)
    requires start < |ring| && a < |servers| && j < |ring|
    requires servers[a] == ServerAt(ring, start, j) && servers[a] !in blocked
    requires forall s :: s in servers[..a] <==> s !in blocked && Met(ring, start, j, s)
    ensures MetInTurn(Rotated(ring, start), servers, a, blocked)
  {
    hide Met, Rotated, ServerAt;
    var turn := Rotated(ring, start);
    forall i | 0 <= i < j
      ensures turn[i].server in servers[..a] || turn[i].server in blocked
    {
      RotatedAt(ring, start, i);
      MetAt(ring, start, j, i);
    }
    RotatedAt(ring, start, j);
    assert MetAtStep(turn, servers, a, j, blocked);
  }

  /** The first server met is the one at which the walk starts. */
  lemma FirstMet(ring: Vnodes, start: nat, servers: seq<nat>)
    requires start < |ring| && servers != [] && Clockwise(ring, start, servers, {})
    ensures servers[0] == ring[start].server
  {
    var turn := Rotated(ring, start);
    assert MetInTurn(turn, servers, 0, {});
    var j :| MetAtStep(turn, servers, 0, j, {});
    assert turn[0] == ring[start];
  }

  /** One turn meets everything. */
  lemma OneTurn(ring: Vnodes, start: nat, s: nat)
    requires ring != [] && start < |ring|
    ensures Met(ring, start, |ring|, s) <==> exists v :: v in ring && v.server == s
    ensures Met(ring, start, |ring| + 1, s) <==> Met(ring, start, |ring|, s)
  {
    hide Met;
    if v :| v in ring && v.server == s {
      var i :| 0 <= i < |ring| && ring[i] == v;
      var j := if start <= i then i - start else i + |ring| - start;
      Turned(start, i, |ring|);
      assert ServerAt(ring, start, j) == s;
      MetAt(ring, start, |ring|, j);
    }
    if Met(ring, start, |ring|, s) {
      var j := MetWhere(ring, start, |ring|, s);
      assert ring[(start + j) % |ring|] in ring;
    }
    MetOne(ring, start, |ring|, s);
    Turned(start, start, |ring|);
    MetAt(ring, start, |ring|, 0);
    assert (start + |ring|) % |ring| == start;
  }

  lemma Turned(start: nat, i: nat, n: nat)
    requires start < n && i < n
    ensures (start + if start <= i then i - start else i + n - start) % n == i
    ensures (start + n) % n == start
  {
  }

  lemma MetAt(ring: Vnodes, start: nat, pos: nat, j: nat)
    requires ring != [] && j < pos
    ensures Met(ring, start, pos, ServerAt(ring, start, j))
  {
  }

  lemma MetWhere(ring: Vnodes, start: nat, pos: nat, s: nat) returns (j: nat)
    requires ring != [] && Met(ring, start, pos, s)
    ensures j < pos && ServerAt(ring, start, j) == s
  {
    j :| j < pos && ServerAt(ring, start, j) == s;
  }

  /** Without one server, the others are chosen in the same order. */
  lemma {:induction false} BlockingOne(ring: Vnodes, start: nat, pos: nat, blocked: set<nat>, s: nat)
    requires ring != []
    ensures Seen(ring, start, pos, blocked + {s}) == Dropped(Seen(ring, start, pos, blocked), s)
  {
    if pos > 0 {
      BlockingOne(ring, start, pos - 1, blocked, s);
      DroppedHas(Seen(ring, start, pos - 1, blocked), s);
    }
  }

  function Dropped(servers: seq<nat>, s: nat): seq<nat>
  {
    if servers == [] then [] else
      var rest := Dropped(servers[..|servers| - 1], s);
      if servers[|servers| - 1] == s then rest else rest + [servers[|servers| - 1]]
  }

  lemma {:induction false} DroppedHas(servers: seq<nat>, s: nat)
    ensures forall t :: t in Dropped(servers, s) <==> t in servers && t != s
  {
    if servers != [] {
      var init := servers[..|servers| - 1];
      DroppedHas(init, s);
      assert servers == init + [servers[|servers| - 1]];
    }
  }

  function Below(n: nat): (b: set<nat>)
    ensures |b| == n && forall s: nat :: s in b <==> s < n
  {
    if n == 0 then {} else Below(n - 1) + {n - 1}
  }

  function Members(servers: seq<nat>): (m: set<nat>)
    ensures forall s :: s in m <==> s in servers
  {
    set s | s in servers
  }

  lemma {:induction false} DistinctSize(servers: seq<nat>)
    requires forall a, b | 0 <= a < b < |servers| :: servers[a] != servers[b]
    ensures |Members(servers)| == |servers|
  {
    if servers != [] {
      var init, last := servers[..|servers| - 1], servers[|servers| - 1];
      DistinctSize(init);
      assert last !in init by {
        assert forall k | 0 <= k < |init| :: servers[k] != servers[|init|];
      }
      assert servers == init + [last];
      assert Members(servers) == Members(init) + {last};
      Sets.AddOne(Members(init), last);
    }
  }

  // ---------- the ring ----------

  class Ring {
    const round: Round
    const nServer: nat
    const nPoint: nat
    const vnodes: array<Vnode>

    ghost predicate Valid()
      reads this, vnodes
    {
      && vnodes.Length == nPoint == nServer * N_VNODE_PER_SERVER
      && SortingOf(vnodes[..], AllMade(round, nServer))
    }

    /** ch_ring_create_ring without weights */
    constructor (round: Round, nServer: nat, qsort: Vnodes -> Vnodes)
      requires Sorts(qsort)
      ensures Valid() && fresh(vnodes) && this.round == round && this.nServer == nServer
    {
      var made := MakeAll(round, nServer);
      var ring := qsort(made[..]);
      assert SortingOf(ring, made[..]);
      SortedMembers(ring, made[..], Vnode(0, 0));
      this.round, this.nServer, nPoint := round, nServer, nServer * N_VNODE_PER_SERVER;
      vnodes := new Vnode[|ring|](i requires 0 <= i < |ring| => ring[i]);
      new;
      assert vnodes[..] == ring;
    }

    static method MakeAll(round: Round, nServer: nat) returns (made: array<Vnode>)
      ensures fresh(made) && made[..] == AllMade(round, nServer)
    {
      hide Made, Digest, Name, WordAt;
      made := new Vnode[nServer * N_VNODE_PER_SERVER](_ => Vnode(0, 0));
      var cnt := 0;
      for i := 0 to nServer
        invariant cnt == i * N_VNODE_PER_SERVER <= made.Length
        invariant forall c | 0 <= c < cnt :: made[c] == Made(round, c)
      {
        for k := 0 to N_VNODE_PER_SERVER / 4
          invariant cnt == i * N_VNODE_PER_SERVER + 4 * k
          invariant forall c | 0 <= c < cnt :: made[c] == Made(round, c)
        {
          var digest := Digest(round, Name(i, k));
          for h := 0 to 4
            invariant cnt == i * N_VNODE_PER_SERVER + 4 * k + h
            invariant forall c | 0 <= c < cnt :: made[c] == Made(round, c)
          {
            Where(i, k, h);
            MadeAt(round, i, k, h);
            made[cnt] := Vnode(WordAt(digest, 4 * h), i);
            cnt := cnt + 1;
          }
        }
      }
    }

    static lemma MadeAt(round: Round, i: nat, k: nat, h: nat)
      requires k < N_VNODE_PER_SERVER / 4 && h < 4
      ensures Made(round, i * N_VNODE_PER_SERVER + 4 * k + h) == Vnode(WordAt(Digest(round, Name(i, k)), 4 * h), i)
    {
      Where(i, k, h);
    }

    static lemma Where(i: nat, k: nat, h: nat)
      requires k < N_VNODE_PER_SERVER / 4 && h < 4
      ensures var c := i * N_VNODE_PER_SERVER + 4 * k + h;
              c / N_VNODE_PER_SERVER == i && c % N_VNODE_PER_SERVER / 4 == k && c % 4 == h
    {
    }

    /** ch_ring_get_vnode_idx: a binary search that stops at the first point at or after the hash. */
    method GetVnodeIdx(key: seq<Byte>) returns (vnodeIdx: int)
      requires Valid()
      ensures IdxOf(vnodes[..], KetamaHash(round, key), vnodeIdx)
    {
      var h := KetamaHash(round, key);
      hide SortingOf, KetamaHash;
      var lowp, highp := 0, nPoint;
      vnodeIdx := -1;
      Order();
      while true
        invariant 0 <= lowp <= nPoint && lowp <= highp <= nPoint && vnodeIdx == -1
        invariant forall j | 0 <= j < lowp :: vnodes[j].point < h
        invariant highp < nPoint ==> exists j | 0 <= j <= highp :: h <= vnodes[j].point
        decreases highp - lowp
      {
        var midp := (lowp + highp) / 2;
        if midp == nPoint {
          vnodeIdx := 0;
          return;
        }
        var midval := vnodes[midp].point;
        var midval1 := if midp == 0 then 0 else vnodes[midp - 1].point;
        if h <= midval && h > midval1 {
          vnodeIdx := midp;
        } else {
          if midval < h {
            lowp := midp + 1;
          } else {
            highp := midp - 1;
          }
          if lowp > highp {
            vnodeIdx := 0;
          }
        }
        if vnodeIdx != -1 {
          break;
        }
      }
    }

    lemma Order()
      requires Valid()
      ensures forall i, j | 0 <= i < j < nPoint :: vnodes[i].point <= vnodes[j].point
    {
      assert forall i | 0 <= i < nPoint :: vnodes[i] == vnodes[..][i];
    }

    /** ch_ring_get_server: the server of the point that owns the key's hash. */
    method GetServer(key: seq<Byte>) returns (server: nat)
      requires Valid() && nServer > 0
      ensures exists v :: Owns(AllMade(round, nServer), KetamaHash(round, key), v) && v.server == server
      ensures Serves(key, server)
    {
      hide SortingOf, IdxOf, Owns, KetamaHash;
      var i := GetVnodeIdx(key);
      InRing(key, i);
      IdxOwns(vnodes[..], AllMade(round, nServer), KetamaHash(round, key), i);
      assert vnodes[..][i] == vnodes[i];
      server := vnodes[i].server;
    }

    /** The key's hash leads to a vnode of this server. */
    ghost predicate Serves(key: seq<Byte>, server: nat)
      reads this, vnodes
    {
      exists i :: IdxOf(vnodes[..], KetamaHash(round, key), i) && i < vnodes.Length && vnodes[i].server == server
    }

    /** There is one such server. */
    lemma ServesOne(key: seq<Byte>, server: nat, server': nat)
      requires Serves(key, server) && Serves(key, server')
      ensures server == server'
    {
      var h, ring := KetamaHash(round, key), vnodes[..];
      hide KetamaHash;
      var i :| IdxOf(ring, h, i) && i < vnodes.Length && vnodes[i].server == server;
      var j :| IdxOf(ring, h, j) && j < vnodes.Length && vnodes[j].server == server';
      assert ring[i].point == vnodes[i].point && ring[j].point == vnodes[j].point;
    }

    lemma InRing(key: seq<Byte>, i: int)
      requires Valid() && nServer > 0 && IdxOf(vnodes[..], KetamaHash(round, key), i)
      ensures 0 <= i < nPoint && vnodes[..] != []
    {
    }

    lemma ServerRange(i: int)
      requires Valid() && 0 <= i < nPoint
      ensures vnodes[i].server < nServer
    {
      var v := vnodes[..][i];
      SortedMembers(vnodes[..], AllMade(round, nServer), v);
      MoreMade(round, nServer);
    }

    /** How many servers one turn of the ring offers. */
    lemma HowMany(start: nat, blocked: set<nat>)
      requires Valid() && start < nPoint && forall s | s in blocked :: s < nServer
      ensures vnodes[..] != [] && |Seen(vnodes[..], start, nPoint, blocked)| == nServer - |blocked|
      ensures Seen(vnodes[..], start, nPoint + 1, blocked) == Seen(vnodes[..], start, nPoint, blocked)
    {
      var ring := vnodes[..];
      var seen := Seen(ring, start, nPoint, blocked);
      SeenIs(ring, start, nPoint, blocked);
      DistinctSize(seen);
      AllOffered(start);
      hide SortingOf, Met, Seen, ServerAt;
      var all := Below(nServer);
      assert Members(seen) == all - blocked;
      assert blocked <= all;
      SeenStep(ring, start, nPoint + 1, blocked);
    }

    lemma AllOffered(start: nat)
      requires Valid() && start < nPoint
      ensures vnodes[..] != []
      ensures forall s: nat :: Met(vnodes[..], start, nPoint, s) <==> s < nServer
      ensures Met(vnodes[..], start, nPoint, ServerAt(vnodes[..], start, nPoint))
    {
      forall s: nat
        ensures Met(vnodes[..], start, nPoint, s) <==> s < nServer
      {
        OneTurn(vnodes[..], start, s);
        OnRing(s);
      }
      var s := ServerAt(vnodes[..], start, nPoint);
      OneTurn(vnodes[..], start, s);
      MetAt(vnodes[..], start, nPoint + 1, nPoint);
    }

    /** Exactly the servers below `nServer` have points. */
    lemma OnRing(s: nat)
      requires Valid()
      ensures (exists v :: v in vnodes[..] && v.server == s) <==> s < nServer
    {
      MoreMade(round, nServer);
      if v :| v in vnodes[..] && v.server == s {
        SortedMembers(vnodes[..], AllMade(round, nServer), v);
      }
      if s < nServer {
        var v := AllMade(round, nServer)[s * N_VNODE_PER_SERVER];
        Where(s, 0, 0);
        SortedMembers(vnodes[..], AllMade(round, nServer), v);
      }
    }

    /** The loop of ch_ring_get_servers and ch_ring_get_available_servers; `chosenServer` starts with the
        servers that may not be chosen. */
    method Walk(startVnodeIdx: nat, n: nat, idxs: array<nat>, chosenServer: array<bool>, ghost blocked: set<nat>)
      returns (ok: bool)
      requires Valid() && startVnodeIdx < nPoint && vnodes[..] != []
      requires n <= idxs.Length && chosenServer.Length == nServer
      requires blocked == Blocked(chosenServer)
      modifies idxs, chosenServer
      ensures ok <==> n <= nServer - |blocked|
      ensures ok ==> idxs[..n] <= Seen(vnodes[..], startVnodeIdx, nPoint, blocked)
      ensures ok ==> Clockwise(vnodes[..], startVnodeIdx, idxs[..n], blocked)
    {
      hide SortingOf, Seen, Clockwise;
      ghost var ring := vnodes[..];
      HowMany(startVnodeIdx, blocked);
      var i, vnodePos := 0, 0;
      SeenNone(ring, startVnodeIdx, blocked);
      while i < n
        invariant 0 <= i <= n && 0 <= vnodePos <= nPoint && vnodes[..] == ring
        invariant idxs[..i] == Seen(ring, startVnodeIdx, vnodePos, blocked)
        invariant forall s | 0 <= s < nServer ::
                    chosenServer[s] <==> s in blocked || s in Seen(ring, startVnodeIdx, vnodePos, blocked)
        decreases nPoint - vnodePos
      {
        ServerRange((startVnodeIdx + vnodePos) % nPoint);
        SeenStep(ring, startVnodeIdx, vnodePos + 1, blocked);
        var serverId := vnodes[(startVnodeIdx + vnodePos) % nPoint].server;
        if !chosenServer[serverId] {
          idxs[i] := serverId;
          chosenServer[serverId] := true;
          i := i + 1;
        }
        vnodePos := vnodePos + 1;
        if vnodePos > nPoint {
          return false;
        }
      }
      SeenGrows(ring, startVnodeIdx, vnodePos, nPoint, blocked);
      SeenClockwise(ring, startVnodeIdx, nPoint, blocked, idxs[..n]);
      ok := true;
    }

    ghost function Blocked(unavailable: array<bool>): (b: set<nat>)
      reads unavailable
    {
      set s: nat | s < unavailable.Length && unavailable[s]
    }

    /** ch_ring_get_available_servers: `n` distinct servers that are not unavailable, in the order in which a
        clockwise walk from the key meets them; the walk aborts if and only if there are fewer. */
    method GetAvailableServers(key: seq<Byte>, n: nat, idxs: array<nat>, unavailable: array<bool>)
      returns (ok: bool, ghost start: nat)
      requires Valid() && nServer > 0 && n <= idxs.Length && unavailable.Length == nServer
      modifies idxs
      ensures IdxOf(vnodes[..], KetamaHash(round, key), start) && start < nPoint && vnodes[..] != []
      ensures ok <==> n <= nServer - |Blocked(unavailable)|
      ensures ok ==> idxs[..n] <= Seen(vnodes[..], start, nPoint, Blocked(unavailable))
      ensures ok ==> Clockwise(vnodes[..], start, idxs[..n], Blocked(unavailable))
    {
      hide SortingOf, IdxOf, KetamaHash, Seen, Clockwise;
      var startVnodeIdx := GetVnodeIdx(key);
      InRing(key, startVnodeIdx);
      start := startVnodeIdx;
      var chosenServer := new bool[nServer](s requires 0 <= s < nServer reads unavailable => unavailable[s]);
      assert Blocked(chosenServer) == Blocked(unavailable);
      ok := Walk(startVnodeIdx, n, idxs, chosenServer, Blocked(unavailable));
    }

    /** ch_ring_get_servers: as above with every server available, so it aborts only if there are fewer than
        `n` servers at all. */
    method GetServers(key: seq<Byte>, n: nat, idxs: array<nat>) returns (ok: bool, ghost start: nat)
      requires Valid() && nServer > 0 && n <= idxs.Length
      modifies idxs
      ensures IdxOf(vnodes[..], KetamaHash(round, key), start) && start < nPoint && vnodes[..] != []
      ensures ok <==> n <= nServer
      ensures ok ==> idxs[..n] <= Seen(vnodes[..], start, nPoint, {})
      ensures ok ==> Clockwise(vnodes[..], start, idxs[..n], {})
      ensures ok && n > 0 ==> Serves(key, idxs[0])
    {
      hide SortingOf, IdxOf, KetamaHash, Seen, Clockwise;
      var startVnodeIdx := GetVnodeIdx(key);
      InRing(key, startVnodeIdx);
      start := startVnodeIdx;
      var chosenServer := new bool[nServer](_ => false);
      assert Blocked(chosenServer) == {};
      ok := Walk(startVnodeIdx, n, idxs, chosenServer, {});
      if ok && n > 0 {
        FirstMet(vnodes[..], start, idxs[..n]);
        assert idxs[0] == idxs[..n][0];
      }
    }
  }
}
