/**
  The ciphers of ssl records (encryptb and decryptb of emu/devssl.c, pullupblock of emu/qio.c): one
  block is encrypted in place when a record goes out; when it comes in it is a list of blocks, cut
  anywhere.
 */
module SslCipher {
  import opened Des
  import opened Rc4
  import opened Seqs

  type Bytes = seq<bv8>

  datatype Alg = DesEcb | DesCbc | Rc4Alg

  /** One side of a connection. */
  datatype Side = Side(alg: Alg, key: Key, iv: Text, stream: Stream)

  function Xor(a: Text, b: Text): (c: Text) {
    [Add(a[0], b[0]), Add(a[1], b[1]), Add(a[2], b[2]), Add(a[3], b[3]), Add(a[4], b[4]), Add(a[5], b[5]),
      Add(a[6], b[6]), Add(a[7], b[7])]
  }

  lemma XorBack(a: Text, b: Text)
    ensures Xor(Xor(a, b), b) == a
  {
    hide Add;
    forall i | 0 <= i < 8
      ensures Add(Add(a[i], b[i]), b[i]) == a[i]
    {
      Rc4.XorTwice(a[i], b[i]);
    }
  }

  /** Block by block. */
  function Ecb(f: RoundFunction, key: Key, s: Bytes, decrypting: bool): Bytes
    decreases |s|
  {
    if |s| < 8 then [] else Cipher(f, key, s[..8], decrypting) + Ecb(f, key, s[8..], decrypting)
  }

  /** Section 6.2 of NIST SP 800-38A: every block has the ciphertext before it added first. */
  function CbcEncrypted(f: RoundFunction, key: Key, iv: Text, s: Bytes): Bytes
    decreases |s|
  {
    if |s| < 8 then []
    else
      var c := Cipher(f, key, Xor(s[..8], iv), false);
      c + CbcEncrypted(f, key, c, s[8..])
  }

  function CbcDecrypted(f: RoundFunction, key: Key, iv: Text, s: Bytes): Bytes
    decreases |s|
  {
    if |s| < 8 then [] else Xor(Cipher(f, key, s[..8], true), iv) + CbcDecrypted(f, key, s[..8], s[8..])
  }

  /** The last block of ciphertext. */
  function Chained(iv: Text, c: Bytes): Text
    decreases |c|
  {
    if |c| < 8 then iv else Chained(c[..8], c[8..])
  }

  function Encrypted(f: RoundFunction, s: Side, m: Bytes): Bytes
    requires |s.stream.state| == 256
  {
    match s.alg
    case DesEcb => Ecb(f, s.key, m, false)
    case DesCbc => CbcEncrypted(f, s.key, s.iv, m)
    case Rc4Alg => Crypted(s.stream, m)
  }

  function Decrypted(f: RoundFunction, s: Side, c: Bytes): Bytes
    requires |s.stream.state| == 256
  {
    match s.alg
    case DesEcb => Ecb(f, s.key, c, true)
    case DesCbc => CbcDecrypted(f, s.key, s.iv, c)
    case Rc4Alg => Crypted(s.stream, c)
  }

  /** A side after the ciphertext c has gone through it, either way. */
  function Passed(s: Side, c: Bytes): (t: Side)
    requires |s.stream.state| == 256
    ensures |t.stream.state| == 256 && t.alg == s.alg && t.key == s.key
  {
    match s.alg
    case DesEcb => s
    case DesCbc => s.(iv := Chained(s.iv, c))
    case Rc4Alg => s.(stream := Advanced(s.stream, |c|))
  }

  /** What is encrypted is whole blocks. */
  predicate Fits(alg: Alg, n: int) {
    alg.Rc4Alg? || n % 8 == 0
  }

  lemma {:induction false} EcbInverse(f: RoundFunction, key: Key, s: Bytes, n: nat)
    requires |s| == 8 * n
    ensures |Ecb(f, key, s, false)| == |s| && Ecb(f, key, Ecb(f, key, s, false), true) == s
    decreases n
  {
    hide Cipher;
    if n > 0 {
      EcbInverse(f, key, s[8..], n - 1);
      CipherInverse(f, key, s[..8], false);
      var c := Ecb(f, key, s, false);
      assert c[..8] == Cipher(f, key, s[..8], false) && c[8..] == Ecb(f, key, s[8..], false);
    }
  }

  lemma {:induction false} CbcInverse(f: RoundFunction, key: Key, iv: Text, s: Bytes, n: nat)
    requires |s| == 8 * n
    ensures |CbcEncrypted(f, key, iv, s)| == |s| && CbcDecrypted(f, key, iv, CbcEncrypted(f, key, iv, s)) == s
    decreases n
  {
    hide Cipher, Xor;
    if n > 0 {
      var b := Cipher(f, key, Xor(s[..8], iv), false);
      CbcInverse(f, key, b, s[8..], n - 1);
      CipherInverse(f, key, Xor(s[..8], iv), false);
      XorBack(s[..8], iv);
      var c := CbcEncrypted(f, key, iv, s);
      assert c[..8] == b && c[8..] == CbcEncrypted(f, key, b, s[8..]);
    }
  }

  lemma {:induction false} EcbJoin(f: RoundFunction, key: Key, a: Bytes, b: Bytes, d: bool, n: nat)
    requires |a| == 8 * n
    ensures Ecb(f, key, a + b, d) == Ecb(f, key, a, d) + Ecb(f, key, b, d)
    decreases n
  {
    hide Cipher;
    if n == 0 {
      assert a + b == b;
    } else {
      assert (a + b)[..8] == a[..8] && (a + b)[8..] == a[8..] + b;
      EcbJoin(f, key, a[8..], b, d, n - 1);
      Assoc(Cipher(f, key, a[..8], d), Ecb(f, key, a[8..], d), Ecb(f, key, b, d));
    }
  }

  lemma {:induction false} CbcJoin(f: RoundFunction, key: Key, iv: Text, a: Bytes, b: Bytes, n: nat)
    requires |a| == 8 * n
    ensures CbcDecrypted(f, key, iv, a + b) == CbcDecrypted(f, key, iv, a) + CbcDecrypted(f, key, Chained(iv, a), b)
    ensures Chained(iv, a + b) == Chained(Chained(iv, a), b)
    decreases n
  {
    hide Cipher, Xor;
    if n == 0 {
      assert a + b == b;
    } else {
      assert (a + b)[..8] == a[..8] && (a + b)[8..] == a[8..] + b;
      CbcJoin(f, key, a[..8], a[8..], b, n - 1);
      Assoc(Xor(Cipher(f, key, a[..8], true), iv), CbcDecrypted(f, key, a[..8], a[8..]),
        CbcDecrypted(f, key, Chained(a[..8], a[8..]), b));
    }
  }

  lemma {:induction false} CbcJoinOut(f: RoundFunction, key: Key, iv: Text, a: Bytes, b: Bytes, n: nat)
    requires |a| == 8 * n
    ensures CbcEncrypted(f, key, iv, a + b) ==
      CbcEncrypted(f, key, iv, a) + CbcEncrypted(f, key, Chained(iv, CbcEncrypted(f, key, iv, a)), b)
    decreases n
  {
    hide Cipher, Xor;
    if n == 0 {
      assert a + b == b;
    } else {
      var t := Cipher(f, key, Xor(a[..8], iv), false);
      var c: Bytes := t;
      var e: Bytes := CbcEncrypted(f, key, t, a[8..]);
      assert (a + b)[..8] == a[..8] && (a + b)[8..] == a[8..] + b;
      CbcJoinOut(f, key, t, a[8..], b, n - 1);
      assert (c + e)[..8] == c && (c + e)[8..] == e;
      Assoc(c, e, CbcEncrypted(f, key, Chained(t, e), b));
    }
  }

  /** Block i of some bytes. */
  function At(s: Bytes, i: nat): (t: Text)
    requires 8 * i + 8 <= |s|
  {
    s[8 * i..8 * i + 8]
  }

  /** Xor is that of the bytes. */
  lemma XorAdds(a: Text, b: Text, k: nat)
    requires k < 8
    ensures Xor(a, b)[k] == a[k] ^ b[k]
  {
    hide Add;
    assert Xor(a, b)[k] == Add(a[k], b[k]);
    AddIs(a[k], b[k]);
  }

  lemma AddIs(a: bv8, b: bv8)
    ensures Add(a, b) == a ^ b
  {
  }

  /**
    Cipher block chaining, section 6.2 of NIST SP 800-38A: block i of the ciphertext is block i of the message
    enciphered after block i - 1 of the ciphertext is added, or the initialisation vector for the first.
   */
  lemma {:induction false} CbcBlock(f: RoundFunction, key: Key, iv: Text, s: Bytes, i: nat)
    requires 8 * i + 8 <= |s| == |CbcEncrypted(f, key, iv, s)|
    ensures var e := CbcEncrypted(f, key, iv, s);
      At(e, i) == Cipher(f, key, Xor(At(s, i), if i == 0 then iv else At(e, i - 1)), false)
    decreases i
  {
    hide Cipher, Xor;
    var b: Text := s[..8];
    assert At(s, 0) == b;
    var c := Cipher(f, key, Xor(b, iv), false);
    var e := CbcEncrypted(f, key, iv, s);
    assert e == c + CbcEncrypted(f, key, c, s[8..]);
    assert At(e, 0) == c;
    if i > 0 {
      AtTail(s, i);
      AtTail(e, i);
      assert e[8..] == CbcEncrypted(f, key, c, s[8..]);
      if i > 1 {
        AtTail(e, i - 1);
      }
      CbcBlock(f, key, c, s[8..], i - 1);
    }
  }

  lemma AtTail(s: Bytes, i: nat)
    requires i > 0 && 8 * i + 8 <= |s|
    ensures At(s, i) == At(s[8..], i - 1)
  {
  }

  /** In electronic codebook mode every block is enciphered by itself. */
  lemma {:induction false} EcbBlock(f: RoundFunction, key: Key, s: Bytes, i: nat, decrypting: bool)
    requires 8 * i + 8 <= |s| == |Ecb(f, key, s, decrypting)|
    ensures At(Ecb(f, key, s, decrypting), i) == Cipher(f, key, At(s, i), decrypting)
    decreases i
  {
    hide Cipher;
    var c := Cipher(f, key, s[..8], decrypting);
    var e := Ecb(f, key, s, decrypting);
    assert e == c + Ecb(f, key, s[8..], decrypting);
    if i > 0 {
      AtTail(s, i);
      AtTail(e, i);
      assert e[8..] == Ecb(f, key, s[8..], decrypting);
      EcbBlock(f, key, s[8..], i - 1, decrypting);
    }
  }

  /** The vector for the next record is the last block of this one's ciphertext. */
  lemma {:induction false} ChainedLast(iv: Text, c: Bytes, n: nat)
    requires |c| == 8 * n
    ensures Chained(iv, c) == if n == 0 then iv else At(c, n - 1)
    decreases n
  {
    if n > 0 {
      ChainedLast(c[..8], c[8..], n - 1);
      if n > 1 {
        AtTail(c, n - 1);
      }
    }
  }

  /** A record in electronic codebook mode: every block is enciphered by itself. */
  lemma EcbRecord(f: RoundFunction, s: Side, m: Bytes, i: nat)
    requires |s.stream.state| == 256 && s.alg.DesEcb? && |m| % 8 == 0 && i < |m| / 8
    ensures var c := Encrypted(f, s, m);
      |c| == |m| && Passed(s, c) == s && At(c, i) == Cipher(f, s.key, At(m, i), false)
  {
    InStep(f, s, m);
    hide Cipher, Ecb;
    EcbBlock(f, s.key, m, i, false);
  }

  /** A record in cipher block chaining mode; the vector for the next one is its last block. */
  lemma CbcRecord(f: RoundFunction, s: Side, m: Bytes, i: nat)
    requires |s.stream.state| == 256 && s.alg.DesCbc? && |m| % 8 == 0 && i < |m| / 8
    ensures var c := Encrypted(f, s, m);
      && |c| == |m| && Passed(s, c) == s.(iv := At(c, |m| / 8 - 1))
      && At(c, i) == Cipher(f, s.key, Xor(At(m, i), if i == 0 then s.iv else At(c, i - 1)), false)
  {
    InStep(f, s, m);
    hide Cipher, Xor, CbcEncrypted, Chained;
    ChainedLast(s.iv, Encrypted(f, s, m), |m| / 8);
    CbcBlock(f, s.key, s.iv, m, i);
  }

  /** A record under RC4: the bytes of the stream are added, and the next record goes on from there. */
  lemma Rc4Record(f: RoundFunction, s: Side, m: Bytes)
    requires |s.stream.state| == 256 && s.alg.Rc4Alg?
    ensures var c := Encrypted(f, s, m);
      && |c| == |m| && Passed(s, c) == s.(stream := Advanced(s.stream, |m|))
      && forall i :: 0 <= i < |m| ==> c[i] == m[i] ^ KeyByte(Advanced(s.stream, i + 1))
  {
    hide Add, Crypted, KeyByte;
    var c := Encrypted(f, s, m);
    forall i | 0 <= i < |m|
      ensures c[i] == m[i] ^ KeyByte(Advanced(s.stream, i + 1))
    {
      CryptedByte(s.stream, m, i);
      AddIs(m[i], KeyByte(Advanced(s.stream, i + 1)));
    }
  }

  /** In pieces or as a whole, when the first piece is whole blocks. */
  lemma DecryptedJoin(f: RoundFunction, s: Side, a: Bytes, b: Bytes)
    requires |s.stream.state| == 256 && Fits(s.alg, |a|)
    ensures Decrypted(f, s, a + b) == Decrypted(f, s, a) + Decrypted(f, Passed(s, a), b)
    ensures Passed(s, a + b) == Passed(Passed(s, a), b)
  {
    match s.alg
    case DesEcb => EcbJoin(f, s.key, a, b, true, |a| / 8);
    case DesCbc => CbcJoin(f, s.key, s.iv, a, b, |a| / 8);
    case Rc4Alg => CryptedJoin(s.stream, a, b);
  }

  /** What one side encrypts the other decrypts, and both are in step afterwards. */
  lemma InStep(f: RoundFunction, s: Side, m: Bytes)
    requires |s.stream.state| == 256 && Fits(s.alg, |m|)
    ensures |Encrypted(f, s, m)| == |m| && Decrypted(f, s, Encrypted(f, s, m)) == m
  {
    match s.alg
    case DesEcb => EcbInverse(f, s.key, m, |m| / 8);
    case DesCbc => CbcInverse(f, s.key, s.iv, m, |m| / 8);
    case Rc4Alg => CryptedTwice(s.stream, m);
  }

  /** pullupblock: the first block gets n bytes from those behind it; the byte string stays the same. */
  method PullupBlock(bl: seq<Bytes>, n: nat) returns (ok: bool, out: seq<Bytes>)
    requires |bl| > 0
    ensures ok <==> |bl[0]| >= n || |Flat(bl)| >= n
    ensures ok ==> 0 < |out| <= |bl| && Flat(out) == Flat(bl) && |out[0]| == if |bl[0]| >= n then |bl[0]| else n
  {
    if |bl[0]| >= n {
      return true, bl;
    }
    var first, rest, k := bl[0], bl[1..], n - |bl[0]|;
    assert Flat([first] + rest) == Flat(bl) by { assert [first] + rest == bl; }
    while |rest| > 0
      invariant k == n - |first| && k > 0 && |rest| < |bl| && first + Flat(rest) == Flat(bl)
      decreases |rest|
    {
      var i := |rest[0]|;
      Assoc(first, rest[0], Flat(rest[1..]));
      if i > k {
        out := [first + rest[0][..k]] + [rest[0][k..]] + rest[1..];
        PulledUp(first, rest, k);
        return true, out;
      }
      first := first + rest[0];
      rest := rest[1..];
      k := k - i;
      if k == 0 {
        out := [first] + rest;
        assert out[1..] == rest;
        return true, out;
      }
    }
    return false, [];
  }

  lemma PulledUp(first: Bytes, rest: seq<Bytes>, k: nat)
    requires |rest| > 0 && k < |rest[0]|
    ensures Flat([first + rest[0][..k]] + [rest[0][k..]] + rest[1..]) == first + Flat(rest)
  {
    var a, b := rest[0][..k], rest[0][k..];
    assert rest[0] == a + b;
    FlatTwo(first + a, b, rest[1..]);
    FourParts(first, a, b, Flat(rest[1..]));
  }

  lemma FlatTwo(x: Bytes, y: Bytes, rest: seq<Bytes>)
    ensures Flat([x] + [y] + rest) == x + (y + Flat(rest))
  {
    var out := [x] + [y] + rest;
    assert out[1..] == [y] + rest && ([y] + rest)[1..] == rest;
  }

  lemma FourParts(x: Bytes, a: Bytes, b: Bytes, z: Bytes)
    ensures (x + a) + (b + z) == x + (a + b + z)
  {
    Assoc(x, a, b + z);
    Assoc(a, b, z);
  }

  lemma EcbStep(f: RoundFunction, key: Key, d: Bytes, i: nat, dec: bool, done: Bytes)
    requires 8 * i + 8 <= |d|
    ensures done + Ecb(f, key, d[8 * i..], dec) ==
      done + Cipher(f, key, d[8 * i..8 * i + 8], dec) + Ecb(f, key, d[8 * (i + 1)..], dec)
  {
    hide Cipher;
    assert d[8 * i..][..8] == d[8 * i..8 * i + 8] && d[8 * i..][8..] == d[8 * (i + 1)..];
    Assoc(done, Cipher(f, key, d[8 * i..8 * i + 8], dec), Ecb(f, key, d[8 * (i + 1)..], dec));
  }

  lemma CbcOutStep(f: RoundFunction, key: Key, iv: Text, d: Bytes, i: nat, done: Bytes)
    requires 8 * i + 8 <= |d|
    ensures var c := Cipher(f, key, Xor(d[8 * i..8 * i + 8], iv), false);
      done + CbcEncrypted(f, key, iv, d[8 * i..]) == done + c + CbcEncrypted(f, key, c, d[8 * (i + 1)..])
  {
    hide Cipher, Xor;
    var c := Cipher(f, key, Xor(d[8 * i..8 * i + 8], iv), false);
    assert d[8 * i..][..8] == d[8 * i..8 * i + 8] && d[8 * i..][8..] == d[8 * (i + 1)..];
    Assoc(done, c, CbcEncrypted(f, key, c, d[8 * (i + 1)..]));
  }

  lemma CbcInStep(f: RoundFunction, key: Key, iv: Text, d: Bytes, i: nat, done: Bytes)
    requires 8 * i + 8 <= |d|
    ensures var t: Text := d[8 * i..8 * i + 8];
      && done + CbcDecrypted(f, key, iv, d[8 * i..]) ==
        done + Xor(Cipher(f, key, t, true), iv) + CbcDecrypted(f, key, t, d[8 * (i + 1)..])
      && Chained(iv, d[8 * i..]) == Chained(t, d[8 * (i + 1)..])
  {
    hide Cipher, Xor;
    var t: Text := d[8 * i..8 * i + 8];
    assert d[8 * i..][..8] == t && d[8 * i..][8..] == d[8 * (i + 1)..];
    Assoc(done, Xor(Cipher(f, key, t, true), iv), CbcDecrypted(f, key, t, d[8 * (i + 1)..]));
  }

  lemma NoneLeft(f: RoundFunction, key: Key, iv: Text, d: Bytes, dec: bool)
    ensures Ecb(f, key, d[|d|..], dec) == [] && CbcEncrypted(f, key, iv, d[|d|..]) == []
      && CbcDecrypted(f, key, iv, d[|d|..]) == []
    ensures Chained(iv, d[|d|..]) == iv && d[0..] == d
  {
  }

  /**
    Places p up to q of a block are as they were from place p of d on, off places on; nothing outside p to q has
    changed.
   */
  ghost predicate Ahead(b: Bytes, was: Bytes, off: nat, p: nat, q: nat) {
    && |b| == |was| && off <= p <= q <= |b| && (forall j :: p <= j < q ==> b[j] == was[j])
    && forall j :: 0 <= j < |b| && !(off <= j < p) ==> b[j] == was[j]
  }

  /** One step of a loop over the blocks of off to q: places p to p + 8 are rewritten. */
  lemma AheadStep(b: Bytes, c: Bytes, was: Bytes, off: nat, p: nat, q: nat, done: Bytes, t: Bytes)
    requires Ahead(b, was, off, p, q) && p + 8 <= q && |c| == |b| && b[off..p] == done && c[p..p + 8] == t
    requires forall j :: 0 <= j < |b| && !(p <= j < p + 8) ==> c[j] == b[j]
    ensures Ahead(c, was, off, p + 8, q) && c[off..p + 8] == done + t && b[p..p + 8] == was[p..p + 8]
  {
    assert c[off..p] == b[off..p] && c[off..p + 8] == c[off..p] + c[p..p + 8];
  }

  /** One block of the DESECB cases. */
  method EcbOne(f: RoundFunction, key: Key, b: array<bv8>, off: nat, i: nat, ghost q: nat, dec: bool, ghost was: Bytes,
      ghost done: Bytes)
    requires Ahead(b[..], was, off, off + 8 * i, q) && off + 8 * i + 8 <= q && b[off..off + 8 * i] == done
    modifies b
    ensures Ahead(b[..], was, off, off + 8 * (i + 1), q)
    ensures b[off..off + 8 * (i + 1)] == done + Cipher(f, key, Part(was[off..q], 8 * i), dec)
  {
    hide Cipher;
    ghost var prev := b[..];
    Inner(was, off, q, 8 * i);
    assert prev[off + 8 * i..off + 8 * i + 8] == was[off + 8 * i..off + 8 * i + 8];
    BlockCipher(f, key, b, off + 8 * i, dec);
    AheadStep(prev, b[..], was, off, off + 8 * i, q, done, b[off + 8 * i..off + 8 * i + 8]);
  }

  /** The DESECB cases. */
  method EcbRun(f: RoundFunction, key: Key, b: array<bv8>, off: nat, n: nat, dec: bool)
    requires off + 8 * n <= b.Length
    modifies b
    ensures b[off..off + 8 * n] == Ecb(f, key, old(b[off..off + 8 * n]), dec)
    ensures forall j :: 0 <= j < b.Length && !(off <= j < off + 8 * n) ==> b[j] == old(b[j])
  {
    hide Ecb, Cipher;
    ghost var was, done, q := b[..], [], off + 8 * n;
    ghost var d := was[off..q];
    NoneLeft(f, key, Nothing(), d, dec);
    assert b[off..off] == [];
    var i := 0;
    while i < n
      invariant 0 <= i <= n && Ahead(b[..], was, off, off + 8 * i, q) && b[off..off + 8 * i] == done
      invariant done + Ecb(f, key, d[8 * i..], dec) == Ecb(f, key, d, dec)
    {
      EcbStep(f, key, d, i, dec, done);
      EcbOne(f, key, b, off, i, q, dec, was, done);
      done := done + Cipher(f, key, Part(d, 8 * i), dec);
      i := i + 1;
    }
  }

  function Nothing(): Text {
    [0, 0, 0, 0, 0, 0, 0, 0]
  }

  /** Eight bytes of b with those of iv added. */
  method AddIn(b: array<bv8>, p: nat, iv: array<bv8>)
    requires p + 8 <= b.Length && iv.Length == 8 && b != iv
    modifies b
    ensures b[p..p + 8] == Xor(old(b[p..p + 8]), iv[..])
    ensures forall j :: 0 <= j < b.Length && !(p <= j < p + 8) ==> b[j] == old(b[j])
  {
    hide Add, Xor;
    ghost var t: Text, v: Text := b[p..p + 8], iv[..];
    var i := 0;
    while i < 8
      invariant 0 <= i <= 8
      invariant forall j :: 0 <= j < b.Length && !(p <= j < p + i) ==> b[j] == old(b[j])
      invariant forall j :: 0 <= j < i ==> b[p + j] == Add(t[j], iv[j])
    {
      b[p + i] := Add(b[p + i], iv[i]);
      i := i + 1;
    }
    XorIs(t, v, b[p..p + 8]);
  }

  lemma XorIs(a: Text, b: Text, r: Text)
    requires forall j :: 0 <= j < 8 ==> r[j] == Add(a[j], b[j])
    ensures r == Xor(a, b)
  {
    hide Add;
  }

  function Part(d: Bytes, k: nat): (t: Text)
    requires k + 8 <= |d|
  {
    d[k..k + 8]
  }

  /** A part of a part. */
  lemma Inner(was: Bytes, off: nat, q: nat, k: nat)
    requires off + k + 8 <= q <= |was|
    ensures Part(was[off..q], k) == was[off + k..off + k + 8]
  {
    var d := was[off..q];
    forall j {:trigger d[k..k + 8][j]} | 0 <= j < 8
      ensures d[k..k + 8][j] == was[off + k..off + k + 8][j]
    {
      assert d[k..k + 8][j] == d[k + j] == was[off + k + j];
    }
  }

  method CopyOut(b: array<bv8>, p: nat, iv: array<bv8>)
    requires p + 8 <= b.Length && iv.Length == 8 && b != iv
    modifies iv
    ensures iv[..] == b[p..p + 8]
  {
    forall i | 0 <= i < 8 {
      iv[i] := b[p + i];
    }
  }

  /** One block of the DESCBC case of encryptb. */
  method CbcOutOne(f: RoundFunction, key: Key, b: array<bv8>, p: nat, iv: array<bv8>)
    requires p + 8 <= b.Length && iv.Length == 8 && b != iv
    modifies b, iv
    ensures b[p..p + 8] == iv[..] == Cipher(f, key, Xor(old(b[p..p + 8]), old(iv[..])), false)
    ensures forall j :: 0 <= j < b.Length && !(p <= j < p + 8) ==> b[j] == old(b[j])
  {
    hide Cipher, Xor;
    AddIn(b, p, iv);
    BlockCipher(f, key, b, p, false);
    CopyOut(b, p, iv);
  }

  /** One block of the DESCBC case of decryptb. */
  method CbcInOne(f: RoundFunction, key: Key, b: array<bv8>, p: nat, iv: array<bv8>)
    requires p + 8 <= b.Length && iv.Length == 8 && b != iv
    modifies b, iv
    ensures b[p..p + 8] == Xor(Cipher(f, key, old(b[p..p + 8]), true), old(iv[..])) && iv[..] == old(b[p..p + 8])
    ensures forall j :: 0 <= j < b.Length && !(p <= j < p + 8) ==> b[j] == old(b[j])
  {
    hide Cipher, Xor;
    var tmp := new bv8[8];
    CopyOut(b, p, tmp);
    BlockCipher(f, key, b, p, true);
    AddIn(b, p, iv);
    CopyOut(tmp, 0, iv);
    assert tmp[0..8] == tmp[..];
  }

  method CbcOutNext(f: RoundFunction, key: Key, b: array<bv8>, off: nat, i: nat, ghost q: nat, iv: array<bv8>,
      ghost was: Bytes, ghost done: Bytes)
    requires Ahead(b[..], was, off, off + 8 * i, q) && off + 8 * i + 8 <= q && b[off..off + 8 * i] == done
      && iv.Length == 8 && b != iv
    modifies b, iv
    ensures Ahead(b[..], was, off, off + 8 * (i + 1), q)
    ensures iv[..] == Cipher(f, key, Xor(Part(was[off..q], 8 * i), old(iv[..])), false)
    ensures b[off..off + 8 * (i + 1)] == done + iv[..]
  {
    hide Cipher, Xor;
    ghost var prev := b[..];
    Inner(was, off, q, 8 * i);
    assert prev[off + 8 * i..off + 8 * i + 8] == was[off + 8 * i..off + 8 * i + 8];
    CbcOutOne(f, key, b, off + 8 * i, iv);
    AheadStep(prev, b[..], was, off, off + 8 * i, q, done, iv[..]);
  }

  /** The DESCBC case of encryptb. */
  method CbcOut(f: RoundFunction, key: Key, b: array<bv8>, off: nat, n: nat, iv: array<bv8>)
    requires off + 8 * n <= b.Length && iv.Length == 8 && b != iv
    modifies b, iv
    ensures b[off..off + 8 * n] == CbcEncrypted(f, key, old(iv[..]), old(b[off..off + 8 * n]))
    ensures iv[..] == Chained(old(iv[..]), b[off..off + 8 * n])
    ensures forall j :: 0 <= j < b.Length && !(off <= j < off + 8 * n) ==> b[j] == old(b[j])
  {
    hide CbcEncrypted, Cipher, Xor, Chained;
    ghost var was, done, q := b[..], [], off + 8 * n;
    ghost var d, v0: Text, v: Text := was[off..q], iv[..], iv[..];
    NoneLeft(f, key, v0, d, false);
    NoneLeft(f, key, v0, done, false);
    assert b[off..off] == [] && done[0..] == [];
    var i := 0;
    while i < n
      invariant 0 <= i <= n && Ahead(b[..], was, off, off + 8 * i, q) && b[off..off + 8 * i] == done && v == iv[..]
      invariant done + CbcEncrypted(f, key, v, d[8 * i..]) == CbcEncrypted(f, key, v0, d) && v == Chained(v0, done)
    {
      CbcOutStep(f, key, v, d, i, done);
      CbcOutNext(f, key, b, off, i, q, iv, was, done);
      v := iv[..];
      ChainedSnoc(v0, done, v, i);
      done := done + v;
      i := i + 1;
    }
    NoneLeft(f, key, v, d, false);
  }

  lemma {:induction false} ChainedSnoc(iv: Text, a: Bytes, t: Text, n: nat)
    requires |a| == 8 * n
    ensures Chained(iv, a + t) == t
    decreases n
  {
    if n == 0 {
      assert a + t == t && t[..8] == t && t[8..] == [];
    } else {
      assert (a + t)[..8] == a[..8] && (a + t)[8..] == a[8..] + t;
      ChainedSnoc(a[..8], a[8..], t, n - 1);
    }
  }

  /** The DESCBC case of decryptb. */
  method CbcIn(f: RoundFunction, key: Key, b: array<bv8>, n: nat, iv: array<bv8>)
    requires 8 * n == b.Length && iv.Length == 8 && b != iv
    modifies b, iv
    ensures b[..] == CbcDecrypted(f, key, old(iv[..]), old(b[..])) && iv[..] == Chained(old(iv[..]), old(b[..]))
  {
    hide CbcDecrypted, Cipher, Xor, Chained;
    ghost var d, done, q := b[..], [], 8 * n;
    ghost var v0: Text, v: Text := iv[..], iv[..];
    NoneLeft(f, key, v0, d, true);
    assert b[0..0] == [];
    var i := 0;
    while i < n
      invariant 0 <= i <= n && Ahead(b[..], d, 0, 8 * i, q) && b[0..8 * i] == done && v == iv[..]
      invariant done + CbcDecrypted(f, key, v, d[8 * i..]) == CbcDecrypted(f, key, v0, d)
      invariant Chained(v, d[8 * i..]) == Chained(v0, d)
    {
      CbcInStep(f, key, v, d, i, done);
      ghost var prev := b[..];
      assert d[8 * i..8 * i + 8] == b[8 * i..8 * i + 8];
      CbcInOne(f, key, b, 8 * i, iv);
      AheadStep(prev, b[..], d, 0, 8 * i, q, done, b[8 * i..8 * i + 8]);
      done := done + b[8 * i..8 * i + 8];
      v := iv[..];
      i := i + 1;
    }
    NoneLeft(f, key, v, d, true);
    assert b[0..8 * n] == b[..];
  }

  /** The state of one direction: a DESstate or an RC4state. */
  class OneWay {
    const alg: Alg
    const key: Key
    const ivec: array<bv8>
    const rc4: RC4state

    constructor (alg: Alg, key: Key, iv: Text, rc4: RC4state)
      requires rc4.Valid()
      ensures Valid() && this.rc4 == rc4 && fresh(ivec) && Value() == Side(alg, key, iv, rc4.Value())
    {
      this.alg, this.key, this.rc4 := alg, key, rc4;
      ivec := new bv8[8](i requires 0 <= i < 8 => iv[i]);
      new;
      assert ivec[..] == iv;
    }

    ghost predicate Valid()
      reads this, ivec, rc4, rc4.state
    {
      ivec.Length == 8 && rc4.Valid()
    }

    ghost function Value(): Side
      requires Valid()
      reads this, ivec, rc4, rc4.state
    {
      Side(alg, key, ivec[..], rc4.Value())
    }

    /** The block is no part of the state. */
    ghost predicate Clear(b: array<bv8>) {
      var m: object, v: object := rc4.state, ivec;
      b != ivec && rc4.Apart(b) && m != v
    }

    /** Nor do two sides share any state. */
    ghost predicate Apart(other: OneWay)
      reads this, rc4, other, other.rc4
    {
      (var m: object, v: object := rc4.state, other.ivec; m != v)
      && (var m: object, v: object := other.rc4.state, ivec; m != v)
      && ivec != other.ivec && rc4 != other.rc4 && rc4.state != other.rc4.state
    }

    /** encryptb: everything from offset on is encrypted in place. */
    method EncryptB(f: RoundFunction, b: array<bv8>, offset: nat)
      requires Valid() && Clear(b) && offset <= b.Length && Fits(alg, b.Length - offset)
      modifies ivec, rc4, rc4.state, b
      ensures Valid() && b[offset..] == Encrypted(f, old(Value()), old(b[offset..])) && b[..offset] == old(b[..offset])
      ensures Value() == Passed(old(Value()), b[offset..])
    {
      hide Ecb, CbcEncrypted, Crypted, Chained, Advanced;
      var n := b.Length - offset;
      assert b[offset..offset + n] == b[offset..];
      match alg
      case DesEcb => EcbRun(f, key, b, offset, n / 8, false);
      case DesCbc => CbcOut(f, key, b, offset, n / 8, ivec);
      case Rc4Alg => rc4.Crypt(b, offset, n);
      assert b[offset..offset + n] == b[offset..];
    }

    /** The loop body of decryptb, on a block of whole cipher blocks. */
    method DecryptBlock(f: RoundFunction, b: array<bv8>)
      requires Valid() && Clear(b) && Fits(alg, b.Length)
      modifies ivec, rc4, rc4.state, b
      ensures Valid() && b[..] == Decrypted(f, old(Value()), old(b[..])) && Value() == Passed(old(Value()), old(b[..]))
    {
      hide Ecb, CbcDecrypted, Crypted, Chained, Advanced;
      var n := b.Length;
      assert b[0..n] == b[..];
      match alg
      case DesEcb => EcbRun(f, key, b, 0, n / 8, true);
      case DesCbc => CbcIn(f, key, b, n / 8, ivec);
      case Rc4Alg => rc4.Crypt(b, 0, n);
      assert b[0..n] == b[..];
    }

    method DecryptValue(f: RoundFunction, m: Bytes) returns (c: Bytes)
      requires Valid() && Fits(alg, |m|) && (var r: object, v: object := rc4.state, ivec; r != v)
      modifies ivec, rc4, rc4.state
      ensures Valid() && c == Decrypted(f, old(Value()), m) && Value() == Passed(old(Value()), m)
    {
      var b := new bv8[|m|](i requires 0 <= i < |m| => m[i]);
      assert b[..] == m;
      DecryptBlock(f, b);
      c := b[..];
    }

    /**
      decryptb on a list of blocks. It fails exactly when the record is no whole number of cipher
      blocks; the plaintext and the state afterwards depend on the bytes alone, not on the blocks.
     */
    method DecryptB(f: RoundFunction, inb: seq<Bytes>) returns (ok: bool, out: seq<Bytes>)
      requires Valid() && (var r: object, v: object := rc4.state, ivec; r != v)
      modifies ivec, rc4, rc4.state
      ensures Valid() && (ok <==> Fits(alg, |Flat(inb)|))
      ensures ok ==> Flat(out) == Decrypted(f, old(Value()), Flat(inb)) && Value() == Passed(old(Value()), Flat(inb))
    {
      hide Decrypted, Passed;
      var rest := inb;
      out := [];
      ghost var taken: Bytes, s0 := [], Value();
      NothingTaken(f, s0);
      while |rest| > 0
        invariant Valid() && taken + Flat(rest) == Flat(inb) && Fits(alg, |taken|)
        invariant Flat(out) == Decrypted(f, s0, taken) && Value() == Passed(s0, taken)
        decreases |rest|
      {
        var i := |rest[0]|;
        if !alg.Rc4Alg? && i % 8 != 0 {
          var got, pulled := PullupBlock(rest, i + 8 - i % 8);
          if !got {
            return false, out;
          }
          rest := pulled;
        }
        var c := DecryptValue(f, rest[0]);
        DecryptedJoin(f, s0, taken, rest[0]);
        Assoc(taken, rest[0], Flat(rest[1..]));
        FlatAppend(out, c);
        taken := taken + rest[0];
        out := out + [c];
        rest := rest[1..];
      }
      assert taken + [] == taken;
      return true, out;
    }
  }

  lemma NothingTaken(f: RoundFunction, s: Side)
    requires |s.stream.state| == 256
    ensures Decrypted(f, s, []) == [] && Passed(s, []) == s
  {
  }

  /**
    Two ends with the same keys and state: one encrypts a record in place, its bytes arrive cut into
    blocks in any way at all, and the other decrypts these. The message comes out, and both ends are in
    the same state again.
   */
  method RecordArrives(f: RoundFunction, sender: OneWay, receiver: OneWay, b: array<bv8>, offset: nat,
      cut: Bytes -> seq<Bytes>) returns (ok: bool, out: seq<Bytes>)
    requires sender.Valid() && receiver.Valid() && sender.Value() == receiver.Value()
    requires sender.Clear(b) && receiver.Clear(b) && receiver.Apart(sender)
    requires offset <= b.Length && Fits(sender.alg, b.Length - offset)
    requires forall s: Bytes :: Flat(cut(s)) == s
    modifies b, sender.ivec, sender.rc4, sender.rc4.state, receiver.ivec, receiver.rc4, receiver.rc4.state
    ensures ok && Flat(out) == old(b[offset..]) && b[..offset] == old(b[..offset])
    ensures sender.Valid() && receiver.Valid() && sender.Value() == receiver.Value()
  {
    hide Encrypted, Decrypted, Passed;
    ghost var s, m := sender.Value(), b[offset..];
    InStep(f, s, m);
    sender.EncryptB(f, b, offset);
    assert receiver.Value() == s;
    ok, out := receiver.DecryptB(f, cut(b[offset..]));
  }
}
