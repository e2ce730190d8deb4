/**
  md5 and sha over messages that come in pieces (crypt/md5.c, crypt/sha.c). The two differ in the
  block function, the seed and the byte order; these are parameters here.
 */
module Digest {
  import opened Bytes
  import opened Seqs

  /** The words of a state. */
  type Words = seq<int>

  /** A hash by its block function, its seed and whether it writes words most significant byte first. */
  datatype Hash = Hash(block: (Words, seq<byte>) -> Words, seed: Words, big: bool)

  const LIMIT := 0x1_0000_0000

  function Word(h: Hash, x: int): (s: seq<byte>)
    ensures |s| == 4
  {
    if h.big then Be(x, 4) else Le(x, 4)
  }

  /** The block function over the whole blocks of m. */
  function Fold(h: Hash, s: Words, m: seq<byte>): Words
    decreases |m|
  {
    if |m| < 64 then s else Fold(h, h.block(s, m[..64]), m[64..])
  }

  lemma {:induction false} FoldJoin(h: Hash, s: Words, a: seq<byte>, b: seq<byte>, n: nat)
    requires |a| == 64 * n
    ensures Fold(h, s, a + b) == Fold(h, Fold(h, s, a), b)
    decreases n
  {
    if n == 0 {
      assert a + b == b;
    } else {
      assert (a + b)[..64] == a[..64] && (a + b)[64..] == a[64..] + b;
      FoldJoin(h, h.block(s, a[..64]), a[64..], b, n - 1);
    }
  }

  /** The bytes of padding that make n and the count a multiple of the block. */
  function PadLen(n: nat): (r: nat)
    ensures 0 < r <= 64 && (n + r + 8) % 64 == 0
  {
    if n % 64 < 56 then 56 - n % 64 else 120 - n % 64
  }

  /** The length of the message in bits, in two words. */
  function Count(h: Hash, n: nat): (s: seq<byte>)
    ensures |s| == 8
  {
    if h.big then Be(8 * n, 8) else Le(8 * n, 8)
  }

  /** Sections 3.1 and 3.2 of RFC 1321: a one bit, zeros, and the count. */
  function Padded(h: Hash, m: seq<byte>): (s: seq<byte>)
    ensures |s| == |m| + PadLen(|m|) + 8
  {
    m + Tail(h, |m|)
  }

  /** What goes behind a message of n bytes. */
  function Tail(h: Hash, n: nat): (s: seq<byte>)
    ensures |s| == PadLen(n) + 8
  {
    [0x80] + Zeros(PadLen(n) - 1) + Count(h, n)
  }

  function Encoded(h: Hash, w: Words): seq<byte> {
    if |w| == 0 then [] else Word(h, w[0]) + Encoded(h, w[1..])
  }

  /** The digest of a whole message. */
  function DigestOf(h: Hash, m: seq<byte>): seq<byte> {
    Encoded(h, Fold(h, h.seed, Padded(h, m)))
  }

  /**
    The padding of RFC 1321 and FIPS 180-1: the message, a byte 0x80, as few zeros as make whole blocks, and eight
    bytes that are the number of bits.
   */
  lemma PaddedShape(h: Hash, m: seq<byte>)
    requires 8 * |m| < Pow(8)
    ensures var p := Padded(h, m);
      && |p| % 64 == 0 && |m| + 9 <= |p| < |m| + 9 + 64
      && p[..|m|] == m && p[|m|] == 0x80 && (forall i :: |m| < i < |p| - 8 ==> p[i] == 0)
      && (if h.big then FromBe(p[|p| - 8..]) else FromLe(p[|p| - 8..])) == 8 * |m|
  {
    PaddedParts(h, m);
    hide FromBe, FromLe, Be, Le, Pow, Padded;
    FromBeBe(8 * |m|, 8);
    FromLeLe(8 * |m|, 8);
  }

  lemma PaddedParts(h: Hash, m: seq<byte>)
    ensures var p := Padded(h, m);
      && |p| % 64 == 0 && |m| + 9 <= |p| < |m| + 9 + 64
      && p[..|m|] == m && p[|m|] == 0x80 && (forall i :: |m| < i < |p| - 8 ==> p[i] == 0)
      && p[|p| - 8..] == Count(h, |m|)
  {
    hide Count;
    var p, n := Padded(h, m), PadLen(|m|);
    var zeros, count := Zeros(n - 1), Count(h, |m|);
    assert p == m + ([0x80] + zeros + count);
    forall i | |m| < i < |p| - 8
      ensures p[i] == 0
    {
      assert p[i] == zeros[i - |m| - 1];
    }
  }

  /** The digest is the last of the states that the block function goes through, from the seed on, block by block. */
  lemma {:induction false} FoldThrough(h: Hash, m: seq<byte>, st: seq<Words>, i: nat)
    requires |m| % 64 == 0 && |st| == |m| / 64 + 1 && i <= |m| / 64
    requires forall k {:trigger st[k]} :: 0 <= k < |m| / 64 ==> st[k + 1] == h.block(st[k], m[64 * k..64 * k + 64])
    ensures Fold(h, st[i], m[64 * i..]) == st[|m| / 64]
    decreases |m| / 64 - i
  {
    if i < |m| / 64 {
      FoldThrough(h, m, st, i + 1);
      var r := m[64 * i..];
      assert r[..64] == m[64 * i..64 * i + 64] && r[64..] == m[64 * (i + 1)..];
    }
  }

  lemma DigestIs(h: Hash, m: seq<byte>, st: seq<Words>)
    requires var p := Padded(h, m);
      && |st| == |p| / 64 + 1 && st[0] == h.seed
      && forall k {:trigger st[k]} :: 0 <= k < |p| / 64 ==> st[k + 1] == h.block(st[k], p[64 * k..64 * k + 64])
    ensures DigestOf(h, m) == Encoded(h, st[|st| - 1])
  {
    var p := Padded(h, m);
    FoldThrough(h, p, st, 0);
    assert p[64 * 0..] == p;
  }

  /** The state goes out word by word, four bytes each. */
  lemma {:induction false} EncodedAt(h: Hash, w: Words, i: nat)
    requires i < |w|
    ensures 4 * i + 4 <= |Encoded(h, w)|
    ensures var a, b, c, d := w[i] % 256, w[i] / 256 % 256, w[i] / 256 / 256 % 256, w[i] / 256 / 256 / 256 % 256;
      Encoded(h, w)[4 * i..4 * i + 4] == if h.big then [d, c, b, a] else [a, b, c, d]
  {
    if i == 0 {
      WordBytes(h, w[0]);
    } else {
      EncodedAt(h, w[1..], i - 1);
      var e := Encoded(h, w);
      hide Word;
      assert e[4..] == Encoded(h, w[1..]);
      assert e[4 * i..4 * i + 4] == e[4..][4 * (i - 1)..4 * (i - 1) + 4];
    }
  }

  /** The two words of the count, each cut to 32 bits, are the count's eight bytes. */
  lemma CountWords(h: Hash, n: nat)
    requires n < LIMIT
    ensures Count(h, n) == if h.big then Word(h, n / 0x2000_0000) + Word(h, n * 8 % LIMIT)
      else Word(h, n * 8 % LIMIT) + Word(h, n / 0x2000_0000)
  {
    var lo, hi := n * 8 % LIMIT, n / 0x2000_0000;
    assert 8 * n == lo + LIMIT * hi;
    if h.big {
      BeSplit(8 * n, 4, 4);
      BeLow(lo, hi, 4);
    } else {
      LeSplit(8 * n, 4, 4);
      LeLow(lo, hi, 4);
    }
    Pows();
    DivPow(lo, hi);
  }

  lemma DivPow(lo: int, hi: int)
    requires 0 <= lo < LIMIT
    ensures Drop(lo + LIMIT * hi, 4) == hi
  {
    var x := lo + LIMIT * hi;
    assert Drop(x, 4) == Drop(x / 256, 3) == Drop(x / 256 / 256, 2) == Drop(x / 256 / 256 / 256, 1) ==
      Drop(x / 256 / 256 / 256 / 256, 0);
  }

  /** A number without its n low bytes. */
  function Drop(x: int, n: nat): int
    decreases n
  {
    if n == 0 then x else Drop(x / 256, n - 1)
  }

  lemma {:induction false} LeSplit(x: int, n: nat, k: nat)
    ensures Le(x, n + k) == Le(x, n) + Le(Drop(x, n), k)
    decreases n
  {
    if n > 0 {
      LeSplit(x / 256, n - 1, k);
    }
  }

  lemma LowDigit(lo: int, p: nat, hi: int)
    ensures (lo + 256 * p * hi) % 256 == lo % 256 && (lo + 256 * p * hi) / 256 == lo / 256 + p * hi
  {
    var t := p * hi;
    assert lo + 256 * p * hi == lo + 256 * t;
  }

  lemma {:induction false} LeLow(lo: int, hi: int, n: nat)
    ensures Le(lo + Pow(n) * hi, n) == Le(lo, n)
    decreases n
  {
    if n > 0 {
      LowDigit(lo, Pow(n - 1), hi);
      LeLow(lo / 256, hi, n - 1);
    }
  }

  lemma {:induction false} BeSplit(x: int, n: nat, k: nat)
    ensures Be(x, n + k) == Be(Drop(x, k), n) + Be(x, k)
    decreases k
  {
    if k > 0 {
      BeSplit(x / 256, n, k - 1);
    }
  }

  lemma {:induction false} BeLow(lo: int, hi: int, n: nat)
    ensures Be(lo + Pow(n) * hi, n) == Be(lo, n)
    decreases n
  {
    if n > 0 {
      LowDigit(lo, Pow(n - 1), hi);
      BeLow(lo / 256, hi, n - 1);
    }
  }

  /** memmove */
  method Copy(src: array<byte>, i: nat, dst: array<byte>, j: nat, n: nat)
    requires i + n <= src.Length && j + n <= dst.Length && src != dst
    modifies dst
    ensures dst[j..j + n] == src[i..i + n] && dst[..j] == old(dst[..j]) && dst[j + n..] == old(dst[j + n..])
  {
    forall k | 0 <= k < n {
      dst[j + k] := src[i + k];
    }
  }

  /** encode of one word. */
  method PutWord(h: Hash, x: int, dst: array<byte>, j: nat)
    requires j + 4 <= dst.Length
    modifies dst
    ensures dst[j..j + 4] == Word(h, x) && dst[..j] == old(dst[..j]) && dst[j + 4..] == old(dst[j + 4..])
  {
    var a, b, c, d := x % 256, x / 256 % 256, x / 256 / 256 % 256, x / 256 / 256 / 256 % 256;
    WordBytes(h, x);
    if h.big {
      dst[j], dst[j + 1], dst[j + 2], dst[j + 3] := d, c, b, a;
    } else {
      dst[j], dst[j + 1], dst[j + 2], dst[j + 3] := a, b, c, d;
    }
  }

  lemma WordBytes(h: Hash, x: int)
    ensures var a, b, c, d := x % 256, x / 256 % 256, x / 256 / 256 % 256, x / 256 / 256 / 256 % 256;
      Word(h, x) == if h.big then [d, c, b, a] else [a, b, c, d]
  {
    var y := x / 256;
    var z := y / 256;
    var w := z / 256;
    assert Le(w, 1) == [w % 256] + Le(w / 256, 0) && Le(z, 2) == [z % 256] + Le(w, 1)
      && Le(y, 3) == [y % 256] + Le(z, 2);
    assert Be(w, 1) == Be(w / 256, 0) + [w % 256] && Be(z, 2) == Be(w, 1) + [z % 256]
      && Be(y, 3) == Be(z, 2) + [y % 256];
  }

  /** A one bit and zeros behind the first m bytes. */
  method PadZeros(q: array<byte>, m: nat, i: nat)
    requires 0 < i && m + i <= q.Length
    modifies q
    ensures q[..m + i] == old(q[..m]) + ([0x80] + Zeros(i - 1))
  {
    forall j | 0 <= j < i {
      q[m + j] := 0;
    }
    q[m] := 0x80;
  }

  /** The padding of a message of len bytes behind its last m; up to where that is. */
  method Pad(h: Hash, q: array<byte>, m: nat, len: int) returns (k: nat)
    requires q.Length == 128 && m < 64 && 0 <= len < LIMIT && PadLen(len) == (if m < 56 then 56 - m else 120 - m)
    modifies q
    ensures k == (if m < 56 then 64 else 128) && q[..k] == old(q[..m]) + Tail(h, len)
  {
    var i := if m < 56 then 56 - m else 120 - m;
    hide Count, Zeros, PadLen;
    ghost var was, z := q[..m], [0x80] + Zeros(i - 1);
    PadZeros(q, m, i);
    PutCount(h, q, m + i, len);
    k := m + i + 8;
    Assoc(was, z, Count(h, len));
  }

  method PutCount(h: Hash, q: array<byte>, j: nat, len: int)
    requires j + 8 <= q.Length && 0 <= len < LIMIT
    modifies q
    ensures q[..j + 8] == old(q[..j]) + Count(h, len)
  {
    CountWords(h, len);
    hide Count, Word;
    var lo, hi := len * 8 % LIMIT, len / 0x2000_0000;
    ghost var was := q[..j];
    PutNextWord(h, if h.big then hi else lo, q, j);
    PutNextWord(h, if h.big then lo else hi, q, j + 4);
    Assoc(was, Word(h, if h.big then hi else lo), Word(h, if h.big then lo else hi));
  }

  lemma PadLenIs(n: nat, m: nat)
    requires m < 64
    ensures PadLen(64 * n + m) == if m < 56 then 56 - m else 120 - m
  {
    assert (64 * n + m) % 64 == m;
  }

  /** The padded message from a block on. */
  lemma PaddedTail(h: Hash, m: seq<byte>, k: nat)
    requires k <= |m|
    ensures m[..k] + (m[k..] + Tail(h, |m|)) == Padded(h, m)
  {
    hide Tail;
    assert m == m[..k] + m[k..];
  }

  lemma SliceJoin(p: seq<byte>, off: nat, i: nat, n: nat)
    requires i <= n && off + n <= |p|
    ensures p[off..off + n] == p[off..off + i] + p[off + i..off + n]
  {
  }

  lemma EncodedStep(h: Hash, w: Words, i: nat, done: seq<byte>)
    requires i < |w|
    ensures done + Encoded(h, w[i..]) == done + Word(h, w[i]) + Encoded(h, w[i + 1..])
  {
    hide Word;
    assert w[i..][1..] == w[i + 1..];
  }

  method PutNextWord(h: Hash, x: int, dst: array<byte>, j: nat)
    requires j + 4 <= dst.Length
    modifies dst
    ensures dst[..j + 4] == old(dst[..j]) + Word(h, x)
  {
    hide Word;
    PutWord(h, x, dst, j);
    assert dst[..j + 4] == dst[..j] + dst[j..j + 4];
  }

  lemma FoldStep(h: Hash, s: Words, m: seq<byte>, i: nat)
    requires 64 * i + 64 <= |m|
    ensures Fold(h, s, m[64 * i..]) == Fold(h, h.block(s, m[64 * i..64 * i + 64]), m[64 * (i + 1)..])
  {
    assert m[64 * i..][..64] == m[64 * i..64 * i + 64] && m[64 * i..][64..] == m[64 * (i + 1)..];
  }

  lemma FoldNone(h: Hash, s: Words, m: seq<byte>)
    ensures Fold(h, s, m[|m|..]) == s
  {
  }

  class DigestState {
    const h: Hash
    const buf: array<byte>
    var len: int
    var state: Words
    var blen: nat
    var seeded: bool
    ghost var fed: seq<byte>
    ghost var blocks: nat

    constructor (h: Hash)
      ensures Valid() && this.h == h && fed == [] && fresh(buf)
    {
      this.h := h;
      buf := new byte[128];
      len, state, blen, seeded, fed, blocks := 0, [], 0, false, [], 0;
    }

    /** The whole blocks of what was fed are in the state, the rest is in the buffer. */
    ghost predicate Valid()
      reads this, buf
    {
      && buf.Length == 128 && blen < 64 && |fed| < LIMIT && len == 64 * blocks && |fed| == len + blen
      && buf[..blen] == fed[len..] && (seeded ==> state == Fold(h, h.seed, fed[..len])) && (!seeded ==> fed == [])
    }

    /** md5block, shablock: n blocks of p. */
    method Blocks(p: array<byte>, off: nat, n: nat)
      requires off + 64 * n <= p.Length
      modifies this`state, this`len, this`blocks
      ensures state == Fold(h, old(state), p[off..off + 64 * n])
      ensures len == old(len) + 64 * n && blocks == old(blocks) + n
    {
      ghost var m, s0 := p[off..off + 64 * n], state;
      hide Fold;
      var i := 0;
      assert m[0..] == m;
      while i < n
        invariant 0 <= i <= n && len == old(len) + 64 * i && blocks == old(blocks)
          && Fold(h, state, m[64 * i..]) == Fold(h, s0, m)
      {
        FoldStep(h, state, m, i);
        assert p[off + 64 * i..off + 64 * i + 64] == m[64 * i..64 * i + 64];
        state := h.block(state, p[off + 64 * i..off + 64 * i + 64]);
        len := len + 64;
        i := i + 1;
      }
      FoldNone(h, state, m);
      blocks := blocks + n;
    }

    method Seed()
      requires Valid()
      modifies this`state, this`seeded
      ensures Valid() && seeded
    {
      if !seeded {
        state := h.seed;
        seeded := true;
      }
    }

    /** Fill out the partial block of earlier calls with the first i bytes. */
    method FillPartial(p: array<byte>, off: nat, n: nat) returns (i: nat)
      requires Valid() && seeded && off + n <= p.Length && p != buf && |fed| + n < LIMIT && blen > 0
      modifies this, buf
      ensures Valid() && seeded && i <= n && fed == old(fed) + p[off..off + i] && (i < n ==> blen == 0)
    {
      i := 64 - blen;
      if n < i {
        i := n;
      }
      Copy(p, off, buf, blen, i);
      ghost var was := fed;
      fed := fed + p[off..off + i];
      blen := blen + i;
      assert buf[..blen] == fed[len..] && fed[..len] == was[..len];
      if blen == 64 {
        hide Fold;
        FoldJoin(h, h.seed, fed[..len], fed[len..], blocks);
        assert fed == fed[..len] + fed[len..] && buf[0..64] == fed[len..];
        Blocks(buf, 0, 1);
        assert fed[..len] == fed;
        blen := 0;
      }
    }

    /** The whole blocks that are left. */
    method Whole(p: array<byte>, off: nat, n: nat) returns (i: nat)
      requires Valid() && seeded && off + n <= p.Length && p != buf && |fed| + n < LIMIT && blen == 0
      modifies this`state, this`len, this`fed, this`blocks
      ensures Valid() && seeded && i <= n && n - i < 64 && fed == old(fed) + p[off..off + i] && blen == 0
    {
      hide Fold;
      var k := n / 64;
      i := 64 * k;
      ghost var was := fed;
      assert was[..len] == was;
      FoldJoin(h, h.seed, was, p[off..off + i], blocks);
      if i > 0 {
        Blocks(p, off, k);
      } else {
        assert p[off..off + i] == [];
      }
      fed := fed + p[off..off + i];
      assert fed[..len] == fed;
    }

    /** A call that is not the last. */
    method Update(p: array<byte>, off: nat, n: nat)
      requires Valid() && off + n <= p.Length && p != buf && |fed| + n < LIMIT
      modifies this, buf
      ensures Valid() && fed == old(fed) + p[off..off + n]
    {
      hide Fold;
      var i := Absorb(p, off, n);
      SliceJoin(p[..], off, i, n);
      if n - i > 0 {
        Keep(p, off + i, n - i);
      }
    }

    /** What does not fill a block waits in the buffer. */
    method Keep(p: array<byte>, off: nat, n: nat)
      requires Valid() && seeded && off + n <= p.Length && p != buf && |fed| + n < LIMIT && n < 64 && blen == 0
      modifies this`blen, this`fed, buf
      ensures Valid() && fed == old(fed) + p[off..off + n]
    {
      hide Fold;
      Copy(p, off, buf, 0, n);
      blen := blen + n;
      ghost var was := fed;
      fed := fed + p[off..off + n];
      assert fed[..len] == was[..len] && fed[len..] == p[off..off + n];
    }

    /** Everything but what does not fill a block; what is left is in the buffer or still in p, not in both. */
    method Absorb(p: array<byte>, off: nat, n: nat) returns (i: nat)
      requires Valid() && off + n <= p.Length && p != buf && |fed| + n < LIMIT
      modifies this, buf
      ensures Valid() && seeded && i <= n && n - i < 64 && fed == old(fed) + p[off..off + i] && (i < n ==> blen == 0)
    {
      hide Fold;
      Seed();
      i := 0;
      assert p[off..off] == [];
      if blen > 0 {
        i := FillPartial(p, off, n);
      }
      if blen == 0 {
        var k := Whole(p, off + i, n - i);
        SliceJoin(p[..], off, i, i + k);
        Assoc(old(fed), p[off..off + i], p[off + i..off + i + k]);
        i := i + k;
      }
    }

    /** What does not fill a block, in a buffer with room for the padding. */
    method Rest(p: array<byte>, off: nat, n: nat) returns (q: array<byte>, m: nat)
      requires Valid() && off + n <= p.Length && p != buf && n < 64 && (n > 0 ==> blen == 0)
      ensures q.Length == 128 && m < 64 && (q == buf || fresh(q))
      ensures var all := fed + p[off..off + n]; |all| == len + m && all[..len] == fed[..len] && q[..m] == all[len..]
    {
      hide Fold;
      ghost var all := fed + p[off..off + n];
      assert all[..len] == fed[..len];
      if blen == 0 {
        q, m := new byte[128], n;
        Copy(p, off, q, 0, m);
        assert all[len..] == p[off..off + n];
      } else {
        q, m := buf, blen;
        assert all == fed;
      }
    }

    /** The last call: what is left is padded, the count goes behind it, and the state comes out. */
    method Finish(p: array<byte>, off: nat, n: nat) returns (d: seq<byte>)
      requires Valid() && off + n <= p.Length && p != buf && |fed| + n < LIMIT
      modifies this, buf
      ensures d == DigestOf(h, old(fed) + p[off..off + n])
    {
      hide Fold, Padded, Encoded;
      ghost var all := fed + p[off..off + n];
      var i := Absorb(p, off, n);
      SliceJoin(p[..], off, i, n);
      assert all == fed + p[off + i..off + n];
      var q, m := Rest(p, off + i, n - i);
      Last(q, m, all);
      d := EncodeState();
    }

    /** Padding and count, and the block or two they end. */
    method Last(q: array<byte>, m: nat, ghost all: seq<byte>)
      requires seeded && len == 64 * blocks && |all| == len + m < LIMIT && state == Fold(h, h.seed, all[..len])
      requires q.Length == 128 && m < 64 && q[..m] == all[len..]
      modifies this`len, this`state, this`blocks, q
      ensures state == Fold(h, h.seed, Padded(h, all))
    {
      PadLenIs(blocks, m);
      hide Fold, PadLen, Tail;
      ghost var done := all[..len];
      PaddedTail(h, all, len);
      ghost var n := blocks;
      len := len + m;
      var k := Pad(h, q, m, len);
      FoldJoin(h, h.seed, done, q[..k], n);
      Blocks(q, 0, if k == 64 then 1 else 2);
      assert q[0..k] == q[..k];
    }

    method EncodeState() returns (d: seq<byte>)
      ensures d == Encoded(h, state)
    {
      var out := new byte[4 * |state|];
      ghost var done: seq<byte> := [];
      var i := 0;
      assert state[0..] == state;
      while i < |state|
        invariant 0 <= i <= |state| && out[..4 * i] == done && done + Encoded(h, state[i..]) == Encoded(h, state)
      {
        EncodedStep(h, state, i, done);
        PutNextWord(h, state[i], out, 4 * i);
        done := done + Word(h, state[i]);
        i := i + 1;
      }
      assert Encoded(h, state[i..]) == [];
      d := out[..];
      assert out[..4 * i] == out[..];
    }
  }
}
