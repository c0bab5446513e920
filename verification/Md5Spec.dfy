/** What an MD5 digest is: the padding of RFC 1321, sections 3.1 and 3.2, and the chain over 64-byte blocks. The
    round function of section 3.4 is a parameter. */
module Md5Spec {
  type Byte = x: int | 0 <= x < 256
  type Word = x: int | 0 <= x < 0x1_0000_0000

  const TWO_TO_64: nat := 0x1_0000_0000_0000_0000

  datatype Chain = Chain(a: Word, b: Word, c: Word, d: Word)

  /** Section 3.3 */
  const START: Chain := Chain(0x67452301, 0xefcdab89, 0x98badcfe, 0x10325476)

  type Round = (Chain, seq<Byte>) -> Chain

  /** The chain after the whole blocks of `s`. */
  function Fold(round: Round, s: seq<Byte>): Chain
    requires |s| % 64 == 0
  {
    if s == [] then START else round(Fold(round, s[..|s| - 64]), s[|s| - 64..])
  }

  lemma FoldOne(round: Round, s: seq<Byte>, block: seq<Byte>)
    requires |s| % 64 == 0 && |block| == 64
    ensures |s + block| % 64 == 0 && Fold(round, s + block) == round(Fold(round, s), block)
  {
    assert (s + block)[..|s|] == s && (s + block)[|s|..] == block;
  }

  /** The low `n` bytes of `x`, least significant first. */
  function LittleEndian(x: nat, n: nat): (r: seq<Byte>)
    ensures |r| == n
  {
    if n == 0 then [] else [x % 256] + LittleEndian(x / 256, n - 1)
  }

  function Value(s: seq<Byte>): nat
  {
    if s == [] then 0 else s[0] + 256 * Value(s[1..])
  }

  function Power256(n: nat): (p: nat)
    ensures p > 0
  {
    if n == 0 then 1 else 256 * Power256(n - 1)
  }

  /** Reading the bytes back gives the number, cut to their width. */
  lemma {:induction false} EndianRound(x: nat, n: nat)
    ensures Value(LittleEndian(x, n)) == x % Power256(n)
  {
    if n > 0 {
      EndianRound(x / 256, n - 1);
      assert LittleEndian(x, n)[1..] == LittleEndian(x / 256, n - 1);
      DivMod(x, Power256(n - 1));
    }
  }

  lemma DivMod(x: nat, m: nat)
    requires m > 0
    ensures x % (256 * m) == x % 256 + 256 * (x / 256 % m)
  {
    var q, r := x / 256 / m, x / 256 % m;
    assert x / 256 == m * q + r;
    var low := x % 256 + 256 * r;
    assert 256 * (m * q) == (256 * m) * q;
    assert x == (256 * m) * q + low;
    assert low < 256 * m;
    ModUnique(x, 256 * m, q, low);
  }

  lemma ModUnique(x: int, m: nat, q: int, r: nat)
    requires m > 0 && x == m * q + r && r < m
    ensures x % m == r
  {
    var d := q - x / m;
    assert m * d == x % m - r;
    Apart(m, d);
  }

  lemma {:induction false} Apart(m: nat, d: int)
    requires m > 0
    ensures d >= 1 ==> m * d >= m
    ensures d <= -1 ==> m * d + m <= 0
    decreases if d < 0 then -d else d
  {
    if d > 1 {
      Apart(m, d - 1);
      assert m * d == m * (d - 1) + m;
    } else if d < -1 {
      Apart(m, d + 1);
      assert m * d == m * (d + 1) - m;
    }
  }

  /** Words, each least significant byte first. */
  function Bytes(ws: seq<Word>): (r: seq<Byte>)
    ensures |r| == 4 * |ws|
  {
    if ws == [] then [] else LittleEndian(ws[0], 4) + Bytes(ws[1..])
  }

  lemma {:induction false} EndianAt(x: nat, n: nat, i: nat)
    requires i < n
    ensures LittleEndian(x, n)[i] == x / Power256(i) % 256
  {
    if i > 0 {
      EndianAt(x / 256, n - 1, i - 1);
      DivDiv(x, Power256(i - 1));
    }
  }

  lemma DivDiv(x: nat, m: nat)
    requires m > 0
    ensures x / 256 / m == x / (256 * m)
  {
    DivMod(x, m);
    var q, r := x / 256 / m, x % (256 * m);
    assert 256 * (m * q) == (256 * m) * q;
    assert x == (256 * m) * q + r;
    assert (256 * m) * (x / (256 * m) - q) == 0;
  }

  /** Each byte is a shifted word, cut to a byte. */
  lemma {:induction false} BytesAt(ws: seq<Word>, i: nat)
    requires i < 4 * |ws|
    ensures Bytes(ws)[i] == ws[i / 4] / Power256(i % 4) % 256
  {
    if i < 4 {
      EndianAt(ws[0], 4, i);
    } else {
      BytesAt(ws[1..], i - 4);
    }
  }

  lemma {:induction false} EndianConcat(lo: nat, hi: nat, n: nat, k: nat)
    requires lo < Power256(n)
    ensures LittleEndian(lo + Power256(n) * hi, n + k) == LittleEndian(lo, n) + LittleEndian(hi, k)
  {
    if n > 0 {
      EndianConcat(lo / 256, hi, n - 1, k);
      var high, all := Power256(n - 1) * hi, lo + Power256(n) * hi;
      Associate(256, Power256(n - 1), hi);
      LowByte(lo, high);
      assert LittleEndian(all, n + k) == [all % 256] + LittleEndian(all / 256, n + k - 1);
    } else {
      assert Power256(n) * hi == hi;
    }
  }

  lemma Associate(a: nat, b: nat, c: nat)
    ensures (a * b) * c == a * (b * c)
  {
  }

  lemma LowByte(lo: nat, high: nat)
    ensures (lo + 256 * high) % 256 == lo % 256 && (lo + 256 * high) / 256 == lo / 256 + high
  {
  }

  /** Section 3.1: a bit, then zeros until 8 bytes short of a block. */
  function Zeros(len: nat): (z: nat)
    ensures z < 64 && (len + 1 + z) % 64 == 56 && (len + 1 + z + 8) % 64 == 0
  {
    (119 - len % 64) % 64
  }

  /** The padded message; section 3.2 appends the length in bits modulo 2^64, low word first. */
  function Padded(m: seq<Byte>): (p: seq<Byte>)
    ensures |p| % 64 == 0
  {
    var tail := LittleEndian(8 * |m| % TWO_TO_64, 8);
    assert (|m| + 1 + Zeros(|m|) + |tail|) % 64 == 0;
    m + ([0x80] + seq(Zeros(|m|), _ => 0)) + tail
  }

  function Digest(round: Round, m: seq<Byte>): (d: seq<Byte>)
    ensures |d| == 16
  {
    var h := Fold(round, Padded(m));
    Bytes([h.a, h.b, h.c, h.d])
  }

  /** Section 3.1: the message, a byte with the top bit set, as few zero bytes as reach the last 8 bytes of a block.
      Section 3.2: in those, the length in bits modulo 2^64, least significant byte first. */
  lemma PaddedBytes(m: seq<Byte>, i: nat)
    requires i < |Padded(m)|
    ensures var p, n := Padded(m), |m|; var bits := 8 * n % TWO_TO_64;
            && n + 9 <= |p| <= n + 72 && |p| % 64 == 0
            && (i < n ==> p[i] == m[i]) && (i == n ==> p[i] == 0x80)
            && (n < i < |p| - 8 ==> p[i] == 0)
            && (|p| - 8 <= i ==> p[i] == bits / Power256(i + 8 - |p|) % 256)
  {
    LastEight(m);
    var p, n := Padded(m), |m|;
    if |p| - 8 <= i {
      hide Padded;
      EndianAt(8 * n % TWO_TO_64, 8, i + 8 - |p|);
      assert p[i] == p[|p| - 8..][i + 8 - |p|];
    } else {
      hide LittleEndian;
    }
  }

  /** Section 3.3: the chain starts as these bytes, least significant byte of each word first. */
  lemma StartBytes()
    ensures Bytes([START.a, START.b, START.c, START.d]) ==
            [0x01, 0x23, 0x45, 0x67, 0x89, 0xab, 0xcd, 0xef, 0xfe, 0xdc, 0xba, 0x98, 0x76, 0x54, 0x32, 0x10]
  {
    hide LittleEndian, Bytes;
    FourWords(START.a, START.b, START.c, START.d);
    FourBytes(0x67452301);
    FourBytes(0xefcdab89);
    FourBytes(0x98badcfe);
    FourBytes(0x10325476);
  }

  lemma FourWords(a: Word, b: Word, c: Word, d: Word)
    ensures Bytes([a, b, c, d]) == LittleEndian(a, 4) + LittleEndian(b, 4) + LittleEndian(c, 4) + LittleEndian(d, 4)
  {
    hide LittleEndian;
    assert [a, b, c, d][1..] == [b, c, d] && [b, c, d][1..] == [c, d] && [c, d][1..] == [d] && [d][1..] == [];
    assert Bytes([d]) == LittleEndian(d, 4) + Bytes([]) == LittleEndian(d, 4);
    assert Bytes([c, d]) == LittleEndian(c, 4) + Bytes([d]);
    assert Bytes([b, c, d]) == LittleEndian(b, 4) + Bytes([c, d]);
  }

  lemma FourBytes(x: nat)
    ensures LittleEndian(x, 4) == [x % 256, x / 0x100 % 256, x / 0x1_0000 % 256, x / 0x100_0000 % 256]
  {
    assert x / 256 / 256 == x / 0x1_0000 && x / 256 / 256 / 256 == x / 0x100_0000;
    assert LittleEndian(x / 0x100_0000, 1) == [x / 0x100_0000 % 256] + LittleEndian(x / 0x100_0000 / 256, 0);
    assert LittleEndian(x / 0x1_0000, 2) == [x / 0x1_0000 % 256] + LittleEndian(x / 0x100_0000, 1);
    assert LittleEndian(x / 0x100, 3) == [x / 0x100 % 256] + LittleEndian(x / 0x1_0000, 2);
  }

  /** Section 3.5: the digest begins with the low byte of A and ends with the high byte of D. */
  lemma DigestBytes(round: Round, m: seq<Byte>, i: nat)
    requires i < 16
    ensures var h := Fold(round, Padded(m));
            var word := if i < 4 then h.a else if i < 8 then h.b else if i < 12 then h.c else h.d;
            Digest(round, m)[i] == word / Power256(i % 4) % 256
  {
    var h := Fold(round, Padded(m));
    BytesAt([h.a, h.b, h.c, h.d], i);
  }

  lemma Power8()
    ensures Power256(8) == TWO_TO_64
  {
    assert Power256(2) == 0x1_0000;
    assert Power256(4) == 0x1_0000_0000;
    assert Power256(6) == 0x1_0000_0000_0000;
  }

  lemma LastEight(m: seq<Byte>)
    ensures var p := Padded(m); |p| >= 8 && p[|p| - 8..] == LittleEndian(8 * |m| % TWO_TO_64, 8)
    ensures |m| + 9 <= |Padded(m)| <= |m| + 72 && Padded(m)[..|m|] == m
  {
  }

  /** No two messages, of any lengths, are padded to the same blocks: equal paddings put the lengths within one
      block of each other, and the length field tells those apart. */
  lemma PaddedInjective(m: seq<Byte>, m': seq<Byte>)
    requires Padded(m) == Padded(m')
    ensures m == m'
  {
    LastEight(m);
    LastEight(m');
    hide Padded;
    Field(|m|);
    Field(|m'|);
    hide LittleEndian;
    SameLength(|m|, |m'|);
    assert m == Padded(m)[..|m|];
  }

  /** What the length field says. */
  lemma Field(len: nat)
    ensures Value(LittleEndian(8 * len % TWO_TO_64, 8)) == 8 * len % TWO_TO_64
  {
    EndianRound(8 * len % TWO_TO_64, 8);
    Power8();
    ModUnique(8 * len % TWO_TO_64, TWO_TO_64, 0, 8 * len % TWO_TO_64);
  }

  lemma SameLength(len: nat, len': nat)
    requires 8 * len % TWO_TO_64 == 8 * len' % TWO_TO_64 && -64 < len - len' < 64
    ensures len == len'
  {
    var q, q' := 8 * len / TWO_TO_64, 8 * len' / TWO_TO_64;
    assert 8 * (len - len') == TWO_TO_64 * (q - q');
  }

  /** The length field alone does not tell lengths apart that differ by 2^61 bytes. */
  lemma LengthWraps(len: nat)
    ensures LittleEndian(8 * len % TWO_TO_64, 8) == LittleEndian(8 * (len + 0x2000_0000_0000_0000) % TWO_TO_64, 8)
  {
    var x := 8 * len;
    ModUnique(x + TWO_TO_64, TWO_TO_64, x / TWO_TO_64 + 1, x % TWO_TO_64);
  }
}
