/** The streaming layer of md5.c: a 64-byte buffer and a two-word bit counter. */
module Md5 {
  import opened Md5Spec

  const PAD: seq<Byte> := [0x80] + seq(63, _ => 0)

  // ---------- counting ----------

  /** The two words of the counter as one number. */
  function Bits(lo: int, hi: int): int
  {
    lo + 0x1_0000_0000 * hi
  }

  /** Adding a length as md5_append does adds it modulo 2^64. The bits that `nbytes << 3` loses are the bits
      that `nbytes >> 29` keeps. */
  lemma CountOn(lo: Word, hi: Word, nbytes: nat, len: nat)
    requires nbytes < 0x8000_0000 && Bits(lo, hi) == 8 * len % TWO_TO_64
    ensures var nbits := nbytes * 8 % 0x1_0000_0000;
            var hi1 := (hi + nbytes / 0x2000_0000) % 0x1_0000_0000;
            var lo1 := (lo + nbits) % 0x1_0000_0000;
            var hi2 := if lo1 < nbits then (hi1 + 1) % 0x1_0000_0000 else hi1;
            Bits(lo1, hi2) == 8 * (len + nbytes) % TWO_TO_64
  {
    var word := 0x1_0000_0000;
    var q, nbits := nbytes / 0x2000_0000, nbytes * 8 % word;
    assert 8 * nbytes == nbits + word * q;
    var carry, lo1 := AddLow(lo, nbits);
    var k, hi2 := AddHigh(hi, q, carry);
    assert Bits(lo1, hi2) == Bits(lo, hi) + 8 * nbytes - TWO_TO_64 * k;
    ModUnique(8 * (len + nbytes), TWO_TO_64, 8 * len / TWO_TO_64 + k, Bits(lo1, hi2));
  }

  lemma AddLow(lo: Word, nbits: Word) returns (carry: nat, sum: Word)
    ensures sum == (lo + nbits) % 0x1_0000_0000 == lo + nbits - 0x1_0000_0000 * carry
    ensures carry == if sum < nbits then 1 else 0
  {
    carry := if lo + nbits >= 0x1_0000_0000 then 1 else 0;
    sum := lo + nbits - 0x1_0000_0000 * carry;
  }

  lemma AddHigh(hi: Word, q: nat, carry: nat) returns (k: nat, sum: Word)
    requires q < 4 && carry <= 1
    ensures sum == ((hi + q) % 0x1_0000_0000 + carry) % 0x1_0000_0000 == hi + q + carry - 0x1_0000_0000 * k
  {
    k := (hi + q + carry) / 0x1_0000_0000;
    sum := hi + q + carry - 0x1_0000_0000 * k;
  }

  lemma Offset(lo: Word, hi: Word, len: nat)
    requires Bits(lo, hi) == 8 * len % TWO_TO_64
    ensures lo / 8 % 64 == len % 64
  {
    var k := 8 * len / TWO_TO_64;
    var turns := 0x80_0000 * hi + 0x80_0000_0000_0000 * k;
    assert 8 * len == lo + 8 * (64 * turns);
    Eighth(lo, len, turns);
  }

  lemma Eighth(lo: int, len: int, turns: int)
    requires 8 * len == lo + 8 * (64 * turns)
    ensures lo / 8 % 64 == len % 64
  {
    assert lo / 8 == len - 64 * turns;
  }

  // ---------- the state ----------

  /** What is still in the buffer after `len` bytes. */
  function Whole(len: nat): (w: nat)
    ensures w <= len && w % 64 == 0 && len - w == len % 64
  {
    len - len % 64
  }

  lemma WholeAt(len: nat, w: nat)
    requires w % 64 == 0 && w <= len < w + 64
    ensures Whole(len) == w && len % 64 == len - w
  {
  }

  lemma Middle(m: seq<Byte>, d: seq<Byte>, w: nat, n: nat)
    requires w <= |m| && n <= |d|
    ensures (m + d)[w..|m| + n] == m[w..] + d[..n] && (m + d)[..w] == m[..w]
    ensures (m + d)[..|m| + n] == m + d[..n] == m[..w] + (m[w..] + d[..n])
  {
  }

  class State {
    const round: Round
    var count0: Word
    var count1: Word
    var abcd: Chain
    const buf: array<Byte>
    ghost var message: seq<Byte>

    /** All but the last `|rest|` bytes of the message are in the chain. */
    ghost predicate Chained(m: seq<Byte>)
      reads `abcd
    {
      |m| % 64 == 0 && abcd == Fold(round, m)
    }

    ghost predicate Counted()
      reads `count0, `count1, `message
    {
      Bits(count0, count1) == 8 * |message| % TWO_TO_64
    }

    ghost predicate Valid()
      reads this, buf
    {
      && buf.Length == 64 && Counted()
      && Chained(message[..Whole(|message|)])
      && buf[..|message| % 64] == message[Whole(|message|)..]
    }

    /** md5_init */
    constructor (round: Round)
      ensures Valid() && message == [] && fresh(buf) && this.round == round
    {
      this.round := round;
      count0, count1, abcd, message := 0, 0, START, [];
      buf := new Byte[64](_ => 0);
    }

    /** md5_process */
    method Process(block: seq<Byte>, ghost done: seq<Byte>)
      requires Chained(done) && |block| == 64
      modifies `abcd
      ensures Chained(done + block)
    {
      FoldOne(round, done, block);
      abcd := round(abcd, block);
    }

    /** memcpy into the buffer */
    method Copy(offset: nat, data: array<Byte>, from: nat, n: nat)
      requires buf.Length == 64 && offset + n <= 64 && from + n <= data.Length && data != buf
      modifies buf
      ensures buf[..offset + n] == old(buf[..offset]) + data[from..from + n]
    {
      forall i | 0 <= i < n {
        buf[offset + i] := data[from + i];
      }
      assert buf[offset..offset + n] == data[from..from + n];
    }

    /** The message length is updated. */
    method AddLength(nbytes: nat, ghost added: seq<Byte>)
      requires Counted() && nbytes < 0x8000_0000 && |added| == nbytes
      modifies `count0, `count1, `message
      ensures Counted() && message == old(message) + added
    {
      CountOn(count0, count1, nbytes, |message|);
      var nbits := nbytes * 8 % 0x1_0000_0000;
      count1 := (count1 + nbytes / 0x2000_0000) % 0x1_0000_0000;
      count0 := (count0 + nbits) % 0x1_0000_0000;
      if count0 < nbits {
        count1 := (count1 + 1) % 0x1_0000_0000;
      }
      message := message + added;
    }

    /** md5_append: takes any number of bytes for which `offset + nbytes` is an int; a count of zero or less is
        ignored. */
    method Append(data: array<Byte>, nbytes: int)
      requires Valid() && data != buf && nbytes <= data.Length && |message| % 64 + nbytes < 0x8000_0000
      modifies this, buf
      ensures Valid() && message == old(message) + if nbytes <= 0 then [] else data[..nbytes]
    {
      var offset := count0 / 8 % 64;
      if nbytes <= 0 {
        return;
      }
      ghost var m := message;
      Offset(count0, count1, |m|);
      AddLength(nbytes, data[..nbytes]);
      var done, p := AppendHead(data, nbytes, offset, m);
      if !done {
        AppendBlocks(data, nbytes, p, m);
      }
    }

    /** An initial partial block is filled up, and processed when it is full. */
    method AppendHead(data: array<Byte>, nbytes: nat, offset: nat, ghost m: seq<Byte>) returns (done: bool, p: nat)
      requires buf.Length == 64 && data != buf && 0 < nbytes <= data.Length && offset == |m| % 64
      requires Chained(m[..Whole(|m|)]) && buf[..offset] == m[Whole(|m|)..]
      modifies `abcd, buf
      ensures done ==>
                var all := m + data[..nbytes]; Chained(all[..Whole(|all|)]) && buf[..|all| % 64] == all[Whole(|all|)..]
      ensures !done ==> p <= nbytes && (|m| + p) % 64 == 0 && Chained(m + data[..p])
    {
      hide Chained;
      ghost var w := Whole(|m|);
      p, done := 0, false;
      if offset != 0 {
        var copy := if offset + nbytes > 64 then 64 - offset else nbytes;
        Copy(offset, data, 0, copy);
        Middle(m, data[..nbytes], w, copy);
        assert data[..nbytes][..copy] == data[0..copy];
        if offset + copy < 64 {
          WholeAt(|m| + nbytes, w);
          return true, 0;
        }
        p := copy;
        assert buf[..] == buf[..64];
        Process(buf[..], m[..w]);
      } else {
        assert m[..w] == m && m + data[..0] == m;
      }
    }

    /** Full blocks are processed and the rest is kept. */
    method AppendBlocks(data: array<Byte>, nbytes: nat, p0: nat, ghost m: seq<Byte>)
      requires buf.Length == 64 && data != buf && p0 <= nbytes <= data.Length
      requires (|m| + p0) % 64 == 0 && Chained(m + data[..p0])
      modifies `abcd, buf
      ensures var all := m + data[..nbytes]; Chained(all[..Whole(|all|)]) && buf[..|all| % 64] == all[Whole(|all|)..]
    {
      hide Chained;
      var p, left := p0, nbytes - p0;
      while left >= 64
        invariant left == nbytes - p && p <= nbytes && (|m| + p) % 64 == 0 && Chained(m + data[..p])
      {
        Process(data[p..p + 64], m + data[..p]);
        assert m + data[..p] + data[p..p + 64] == m + data[..p + 64];
        p, left := p + 64, left - 64;
      }
      if left != 0 {
        Copy(0, data, p, left);
      }
      ghost var all := m + data[..nbytes];
      WholeAt(|all|, |m| + p);
      assert all[..|m| + p] == m + data[..p];
      assert all[|m| + p..] == data[p..p + left];
    }

    /** The words as bytes, least significant first. */
    method Store(ws: seq<Word>, out: array<Byte>)
      requires out.Length == 4 * |ws|
      modifies out
      ensures out[..] == Bytes(ws)
    {
      for i := 0 to 4 * |ws|
        invariant out[..i] == Bytes(ws)[..i]
      {
        BytesAt(ws, i);
        out[i] := ws[i / 4] / Power256(i % 4) % 256;
      }
    }

    /** md5_finish: the digest of everything appended, whatever pieces it came in. */
    method Finish(digest: array<Byte>)
      requires Valid() && digest.Length == 16 && digest != buf
      modifies this, buf, digest
      ensures digest[..] == Digest(round, old(message))
    {
      hide Bytes, Fold, Padded, Valid, LittleEndian, Zeros, Bits, Whole;
      ghost var m := message;
      Counts();
      var data := new Byte[8];
      Store([count0, count1], data);
      LengthField(count0, count1);
      var pad := new Byte[64](i requires 0 <= i < 64 => PAD[i]);
      Offset(count0, count1, |m|);
      PadCount(count0, |m|);
      var n := (55 - count0 / 8) % 64 + 1;
      assert pad[..n] == [0x80] + seq(Zeros(|m|), _ => 0);
      Append(pad, n);
      Append(data, 8);
      assert data[..8] == data[..];
      PaddedIs(m, pad[..n], data[..8]);
      Done();
      Store([abcd.a, abcd.b, abcd.c, abcd.d], digest);
    }

    lemma Counts()
      requires Valid()
      ensures Bits(count0, count1) == 8 * |message| % TWO_TO_64 && buf.Length == 64
    {
    }

    /** Nothing is left in the buffer after whole blocks. */
    lemma Done()
      requires Valid() && |message| % 64 == 0
      ensures abcd == Fold(round, message)
    {
      hide Fold;
      assert message[..Whole(|message|)] == message;
    }
  }

  lemma PaddedIs(m: seq<Byte>, p: seq<Byte>, t: seq<Byte>)
    requires p == [0x80] + seq(Zeros(|m|), _ => 0) && t == LittleEndian(8 * |m| % TWO_TO_64, 8)
    ensures m + p + t == Padded(m)
  {
    hide LittleEndian, Zeros;
  }

  lemma PadCount(lo: Word, len: nat)
    requires lo / 8 % 64 == len % 64
    ensures (55 - lo / 8) % 64 == Zeros(len)
  {
  }

  lemma LengthField(lo: Word, hi: Word)
    ensures Bytes([lo, hi]) == LittleEndian(Bits(lo, hi), 8)
  {
    assert Power256(2) == 0x1_0000 && Power256(4) == 0x1_0000_0000;
    EndianConcat(lo, hi, 4, 4);
    assert [lo, hi][1..] == [hi];
    assert Bytes([hi]) == LittleEndian(hi, 4) + Bytes([]);
  }

  function Flatten(pieces: seq<array<Byte>>): seq<Byte>
    reads pieces
  {
    if pieces == [] then [] else Flatten(pieces[..|pieces| - 1]) + pieces[|pieces| - 1][..]
  }

  /** The lengths of the pieces stay within what md5_append takes. */
  ghost predicate Appendable(pieces: seq<array<Byte>>)
    reads pieces
  {
    forall i | 0 <= i < |pieces| :: |Flatten(pieces[..i])| % 64 + pieces[i].Length < 0x8000_0000
  }

  /** A message appended in pieces, of any lengths, has the digest of the whole message. */
  method DigestOf(round: Round, pieces: seq<array<Byte>>) returns (digest: array<Byte>)
    requires Appendable(pieces)
    ensures fresh(digest) && digest.Length == 16 && digest[..] == Digest(round, Flatten(pieces))
  {
    hide State.Valid, Digest;
    var state := new State(round);
    for i := 0 to |pieces|
      invariant state.Valid() && fresh(state) && fresh(state.buf) && state.round == round
      invariant state.message == Flatten(pieces[..i])
    {
      assert pieces[..i + 1][..i] == pieces[..i];
      state.Append(pieces[i], pieces[i].Length);
      assert pieces[i][..pieces[i].Length] == pieces[i][..];
    }
    assert pieces[..|pieces|] == pieces;
    digest := new Byte[16];
    state.Finish(digest);
  }
}
