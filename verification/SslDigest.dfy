/**
  The digests of ssl records (digestb and checkdigestb of emu/devssl.c): over one block when a record
  goes out, over a list of blocks however it came in.
 */
module SslDigest {
  import opened Bytes
  import opened Digest
  import opened Seqs

  /** What a record's digest covers: the secret, the message and its number. */
  function RecordDigest(h: Hash, secret: seq<byte>, body: seq<byte>, mid: int): seq<byte> {
    DigestOf(h, secret + body + Be(mid, 4))
  }

  /** The block function keeps the number of words. */
  ghost predicate Sized(h: Hash) {
    forall s, m :: |h.block(s, m)| == |h.seed|
  }

  lemma {:induction false} FoldSized(h: Hash, s: Words, m: seq<byte>)
    requires Sized(h) && |s| == |h.seed|
    ensures |Fold(h, s, m)| == |h.seed|
    decreases |m|
  {
    if |m| >= 64 {
      FoldSized(h, h.block(s, m[..64]), m[64..]);
    }
  }

  lemma {:induction false} EncodedLen(h: Hash, w: Words)
    ensures |Encoded(h, w)| == 4 * |w|
  {
    if |w| > 0 {
      EncodedLen(h, w[1..]);
    }
  }

  lemma DigestLen(h: Hash, m: seq<byte>)
    requires Sized(h)
    ensures |DigestOf(h, m)| == 4 * |h.seed|
  {
    FoldSized(h, h.seed, Padded(h, m));
    EncodedLen(h, Fold(h, h.seed, Padded(h, m)));
  }

  /** The number of the message, and the end of its digest. */
  method FinishWithId(ss: DigestState, mid: int) returns (d: seq<byte>)
    requires ss.Valid() && 0 <= mid < LIMIT && |ss.fed| + 4 < LIMIT
    modifies ss, ss.buf
    ensures d == DigestOf(ss.h, old(ss.fed) + Be(mid, 4))
  {
    var msgid := new byte[4];
    var n := mid;
    msgid[0], msgid[1], msgid[2], msgid[3] := n / 0x100_0000, n / 0x1_0000 % 256, n / 0x100 % 256, n % 256;
    IdBytes(mid);
    assert msgid[0..4] == Be(mid, 4);
    d := ss.Finish(msgid, 0, 4);
  }

  lemma IdBytes(x: int)
    requires 0 <= x < LIMIT
    ensures Be(x, 4) == [x / 0x100_0000, x / 0x1_0000 % 256, x / 0x100 % 256, x % 256]
  {
    var y := x / 256;
    var z := y / 256;
    var w := z / 256;
    BeNext(w, 0);
    BeNext(z, 1);
    BeNext(y, 2);
    BeNext(x, 3);
    hide Be;
    assert [] + [w % 256] + [z % 256] + [y % 256] + [x % 256] == [w % 256, z % 256, y % 256, x % 256];
    Quotients(x);
  }

  lemma BeNext(x: int, n: nat)
    ensures Be(x, n + 1) == Be(x / 256, n) + [x % 256] && Be(x, 0) == []
  {
  }

  lemma Quotients(x: int)
    requires 0 <= x < LIMIT
    ensures x / 256 == x / 0x100 && x / 256 / 256 == x / 0x1_0000 && x / 256 / 256 / 256 == x / 0x100_0000 < 256
  {
  }

  /** What is hashed: the secret, the body, and the number as four bytes, the highest first. */
  lemma RecordCovers(h: Hash, secret: seq<byte>, body: seq<byte>, mid: int, m: seq<byte>)
    requires 0 <= mid < LIMIT && |m| == |secret| + |body| + 4
    requires m[..|secret|] == secret && m[|secret|..|secret| + |body|] == body
    requires m[|secret| + |body|..] == [mid / 0x100_0000, mid / 0x1_0000 % 256, mid / 0x100 % 256, mid % 256]
    ensures RecordDigest(h, secret, body, mid) == DigestOf(h, m)
  {
    IdBytes(mid);
    assert m == secret + body + Be(mid, 4);
  }

  /** A record taken for another, or for the same at another place in the stream, gives a collision of the hash. */
  lemma ReplayIsCollision(h: Hash, secret: seq<byte>, body: seq<byte>, mid: int, body': seq<byte>, mid': int)
      returns (m: seq<byte>, m': seq<byte>)
    requires 0 <= mid < LIMIT && 0 <= mid' < LIMIT && (mid != mid' || body != body')
    requires RecordDigest(h, secret, body, mid) == RecordDigest(h, secret, body', mid')
    ensures m != m' && DigestOf(h, m) == DigestOf(h, m')
  {
    m, m' := secret + body + Be(mid, 4), secret + body' + Be(mid', 4);
    Pows();
    FromBeBe(mid, 4);
    FromBeBe(mid', 4);
    assert m[|m| - 4..] == Be(mid, 4) && m'[|m'| - 4..] == Be(mid', 4);
    assert m[|secret|..|m| - 4] == body && m'[|secret|..|m'| - 4] == body';
  }

  /** A state that has taken the secret. */
  method HashSecret(h: Hash, secret: array<byte>) returns (ss: DigestState)
    requires secret.Length < LIMIT
    ensures fresh(ss) && fresh(ss.buf) && ss.Valid() && ss.h == h && ss.fed == secret[..]
  {
    ss := new DigestState(h);
    ss.Update(secret, 0, secret.Length);
    assert [] + secret[0..secret.Length] == secret[..];
  }

  /** digestb: the digest of the message behind it is put into the record. */
  method DigestB(h: Hash, secret: array<byte>, b: array<byte>, diglen: nat, offset: nat, mid: int)
    requires Sized(h) && diglen == 4 * |h.seed| && diglen + offset <= b.Length && 0 <= mid < LIMIT
    requires secret.Length + b.Length + 4 < LIMIT && secret != b
    modifies b
    ensures b[offset..offset + diglen] == RecordDigest(h, secret[..], old(b[offset + diglen..]), mid)
    ensures b[..offset] == old(b[..offset]) && b[offset + diglen..] == old(b[offset + diglen..])
  {
    var k := diglen + offset;
    var d := HashRecord(h, secret, b, k, mid);
    DigestLen(h, secret[..] + b[k..] + Be(mid, 4));
    assert |d| == diglen;
    hide RecordDigest, DigestOf, Sized;
    StoreDigest(b, offset, d);
  }

  method StoreDigest(b: array<byte>, offset: nat, d: seq<byte>)
    requires offset + |d| <= b.Length
    modifies b
    ensures b[offset..offset + |d|] == d && b[..offset] == old(b[..offset])
      && b[offset + |d|..] == old(b[offset + |d|..])
  {
    forall i | 0 <= i < |d| {
      b[offset + i] := d[i];
    }
  }

  method HashRecord(h: Hash, secret: array<byte>, b: array<byte>, k: nat, mid: int) returns (d: seq<byte>)
    requires k <= b.Length && 0 <= mid < LIMIT && secret.Length + b.Length + 4 < LIMIT
    ensures d == RecordDigest(h, secret[..], b[k..], mid)
  {
    hide DigestOf, Fold;
    var ss := HashSecret(h, secret);
    ss.Update(b, k, b.Length - k);
    assert b[k..k + (b.Length - k)] == b[k..];
    d := FinishWithId(ss, mid);
  }

  ghost function Contents(blocks: seq<array<byte>>): seq<seq<byte>>
    reads blocks
  {
    seq(|blocks|, i requires 0 <= i < |blocks| reads blocks => blocks[i][..])
  }

  /** checkdigestb: whether the record starts with its digest. */
  method CheckDigestB(h: Hash, secret: array<byte>, blocks: seq<array<byte>>, diglen: nat, mid: int) returns (ok: bool)
    requires Sized(h) && diglen == 4 * |h.seed| && |blocks| > 0 && diglen <= blocks[0].Length && 0 <= mid < LIMIT
    requires secret.Length + |Flat(Contents(blocks))| + 4 < LIMIT
    ensures |Flat(Contents(blocks))| >= diglen
    ensures ok <==>
      RecordDigest(h, secret[..], Flat(Contents(blocks))[diglen..], mid) == Flat(Contents(blocks))[..diglen]
  {
    hide DigestOf, Fold, Flat;
    ghost var c := Contents(blocks);
    HeadBytes(c, diglen);
    var ss := HashSecret(h, secret);
    HashBlocks(ss, blocks, diglen);
    var d := FinishWithId(ss, mid);
    ok := d == blocks[0][..diglen];
  }

  /** The bytes of block i from skip on go into the state; the blocks stay as they are. */
  method HashOne(ss: DigestState, blocks: seq<array<byte>>, i: nat, skip: nat, ghost c: seq<seq<byte>>)
    requires ss.Valid() && i < |blocks| && skip <= blocks[i].Length && |ss.fed| + blocks[i].Length < LIMIT
    requires |c| == |blocks| && forall k :: 0 <= k < |blocks| ==> blocks[k] != ss.buf && blocks[k][..] == c[k]
    modifies ss, ss.buf
    ensures ss.Valid() && ss.fed == old(ss.fed) + c[i][skip..] && forall k :: 0 <= k < |blocks| ==>
      blocks[k][..] == c[k]
  {
    hide Fold;
    var b := blocks[i];
    assert b[skip..skip + (b.Length - skip)] == c[i][skip..];
    ss.Update(b, skip, b.Length - skip);
  }

  /** The bytes of all blocks but the first diglen go into the state. */
  method HashBlocks(ss: DigestState, blocks: seq<array<byte>>, diglen: nat)
    requires ss.Valid() && |blocks| > 0 && diglen <= blocks[0].Length && |ss.fed| + |Flat(Contents(blocks))| < LIMIT
    requires forall i :: 0 <= i < |blocks| ==> blocks[i] != ss.buf
    modifies ss, ss.buf
    ensures ss.Valid() && |old(Flat(Contents(blocks)))| >= diglen
    ensures ss.fed == old(ss.fed) + old(Flat(Contents(blocks)))[diglen..]
  {
    ghost var c := Contents(blocks);
    WholeFrom(c, diglen);
    FlatLen(c, 1);
    HeadRest(c, diglen);
    hide Flat, Fold, FlatFrom;
    HashOne(ss, blocks, 0, diglen, c);
    var i := 1;
    while i < |blocks|
      invariant 1 <= i <= |blocks| && ss.Valid() && forall k :: 0 <= k < |blocks| ==> blocks[k][..] == c[k]
      invariant ss.fed == old(ss.fed) + FlatFrom(c, i, diglen)
    {
      FlatMore(c, i, diglen);
      Assoc(old(ss.fed), FlatFrom(c, i, diglen), c[i]);
      assert c[i][0..] == c[i];
      HashOne(ss, blocks, i, 0, c);
      i := i + 1;
    }
  }

  /** The bytes of the first i blocks without the first n. */
  ghost function FlatFrom(c: seq<seq<byte>>, i: nat, n: nat): seq<byte>
    requires i <= |c|
  {
    if n <= |Flat(c[..i])| then Flat(c[..i])[n..] else []
  }

  lemma FlatMore(c: seq<seq<byte>>, i: nat, n: nat)
    requires 1 <= i < |c| && n <= |c[0]|
    ensures FlatFrom(c, i + 1, n) == FlatFrom(c, i, n) + c[i] && |FlatFrom(c, i + 1, n)| <= |Flat(c)|
  {
    FlatSnoc(c, i);
    FlatLen(c, i + 1);
    FlatLen(c[..i], 1);
    HeadRest(c[..i], n);
    assert c[..i][..1] == c[..1];
  }

  lemma WholeFrom(c: seq<seq<byte>>, n: nat)
    requires |c| > 0 && n <= |c[0]|
    ensures FlatFrom(c, 1, n) == c[0][n..] && |Flat(c)| >= n && FlatFrom(c, |c|, n) == Flat(c)[n..]
  {
    HeadRest(c, n);
    assert c[..|c|] == c;
  }

  lemma HeadRest(c: seq<seq<byte>>, n: nat)
    requires |c| > 0 && n <= |c[0]|
    ensures Flat(c[..1]) == c[0] && |Flat(c)| >= |c[0]|
  {
    assert c[..1][1..] == [];
  }

  lemma HeadBytes(c: seq<seq<byte>>, n: nat)
    requires |c| > 0 && n <= |c[0]|
    ensures |Flat(c)| >= n && Flat(c)[..n] == c[0][..n]
  {
  }

  /** Blocks as they come from the channel. */
  method Arrive(pieces: seq<seq<byte>>) returns (blocks: seq<array<byte>>)
    ensures |blocks| == |pieces| && Contents(blocks) == pieces && forall k :: 0 <= k < |blocks| ==> fresh(blocks[k])
  {
    blocks := [];
    var i := 0;
    while i < |pieces|
      invariant 0 <= i <= |pieces| && |blocks| == i
      invariant forall k :: 0 <= k < i ==> fresh(blocks[k]) && blocks[k][..] == pieces[k]
    {
      var b := new byte[|pieces[i]|](j requires 0 <= j < |pieces[i]| => pieces[i][j]);
      assert b[..] == pieces[i];
      blocks := blocks + [b];
      i := i + 1;
    }
    assert Contents(blocks) == pieces;
  }

  /** The pieces of a record, the first of which has the digest. */
  ghost predicate CutUp(pieces: seq<seq<byte>>, s: seq<byte>, diglen: nat) {
    Flat(pieces) == s && (|s| >= diglen ==> |pieces| > 0 && |pieces[0]| >= diglen)
  }

  /**
    A record gets its digest, its bytes arrive cut into blocks in any way that leaves the digest in one
    piece, and the check with the same secret and number accepts them.
   */
  method RecordAccepted(h: Hash, secret: array<byte>, b: array<byte>, diglen: nat, offset: nat, mid: int,
      cut: seq<byte> -> seq<seq<byte>>) returns (ok: bool)
    requires Sized(h) && diglen == 4 * |h.seed| && diglen + offset <= b.Length && 0 <= mid < LIMIT
    requires secret.Length + b.Length + 4 < LIMIT && secret != b
    requires forall s {:trigger cut(s)} :: CutUp(cut(s), s, diglen)
    modifies b
    ensures ok && b[..offset] == old(b[..offset]) && b[offset + diglen..] == old(b[offset + diglen..])
  {
    DigestB(h, secret, b, diglen, offset, mid);
    hide RecordDigest, Sized, Flat;
    ghost var sent := b[offset..];
    var pieces := cut(b[offset..]);
    assert CutUp(pieces, sent, diglen);
    var blocks := Arrive(pieces);
    assert blocks[0][..] == Contents(blocks)[0];
    ok := CheckDigestB(h, secret, blocks, diglen, mid);
    assert sent[..diglen] == b[offset..offset + diglen] && sent[diglen..] == b[offset + diglen..];
  }
}
