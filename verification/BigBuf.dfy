/**
  bigToBuf and bufToBig (crypt/bignum.c): signed numbers as big-endian bytes in two's complement,
  in as few bytes as will do.
 */
module BigBuf {
  import opened Words
  import opened Bignums
  import opened Bytes

  /** The number a row of bytes denotes in two's complement. */
  ghost function Signed(s: seq<byte>): int
    requires |s| >= 1
  {
    FromBe(s) - if s[0] >= 128 then Pow(|s|) else 0
  }

  /** The first byte says more than the sign of the second. */
  ghost predicate Minimal(s: seq<byte>)
    requires |s| >= 1
  {
    |s| == 1 || (!(s[0] == 0 && s[1] < 128) && !(s[0] == 255 && s[1] >= 128))
  }

  lemma FromBeSnoc(s: seq<byte>, b: byte)
    ensures FromBe(s + [b]) == 256 * FromBe(s) + b
  {
    assert (s + [b])[..|s|] == s;
  }

  lemma Regroup(x: int, y: int)
    ensures x * (256 * y) == 256 * (x * y)
  {
  }

  lemma {:induction false} FromBeConcat(s: seq<byte>, t: seq<byte>)
    ensures FromBe(s + t) == FromBe(s) * Pow(|t|) + FromBe(t)
    decreases |t|
  {
    if |t| == 0 {
      assert s + t == s;
    } else {
      var u, b := t[..|t| - 1], t[|t| - 1];
      FromBeConcat(s, u);
      assert s + t == (s + u) + [b];
      FromBeSnoc(s + u, b);
      Regroup(FromBe(s), Pow(|u|));
    }
  }

  lemma FromBeCons(s: seq<byte>)
    requires |s| >= 1
    ensures FromBe(s) == s[0] * Pow(|s| - 1) + FromBe(s[1..])
  {
    assert s == [s[0]] + s[1..];
    FromBeConcat([s[0]], s[1..]);
    assert [s[0]][..0] == [];
  }

  lemma {:induction false} FromBeBound(s: seq<byte>)
    ensures FromBe(s) < Pow(|s|)
  {
    if |s| > 0 {
      FromBeBound(s[..|s| - 1]);
    }
  }

  lemma {:induction false} FromBeZeros(s: seq<byte>)
    requires forall i :: 0 <= i < |s| ==> s[i] == 0
    ensures FromBe(s) == 0
  {
    if |s| > 0 {
      FromBeZeros(s[..|s| - 1]);
    }
  }

  lemma {:induction false} FromBeInjective(s: seq<byte>, t: seq<byte>)
    requires |s| == |t| && FromBe(s) == FromBe(t)
    ensures s == t
  {
    if |s| > 0 {
      FromBeInjective(s[..|s| - 1], t[..|t| - 1]);
      assert s == s[..|s| - 1] + [s[|s| - 1]] && t == t[..|t| - 1] + [t[|t| - 1]];
    }
  }

  lemma TimesOrder(x: int, y: int, p: int)
    requires x <= y && p >= 0
    ensures x * p <= y * p
  {
  }

  /** The top bit of the first byte, in the number without a sign. */
  lemma TopBit(s: seq<byte>)
    requires |s| >= 1
    ensures s[0] >= 128 <==> FromBe(s) >= 128 * Pow(|s| - 1)
  {
    FromBeCons(s);
    FromBeBound(s[1..]);
    if s[0] >= 128 {
      TimesOrder(128, s[0], Pow(|s| - 1));
    } else {
      TimesOrder(s[0], 127, Pow(|s| - 1));
    }
  }

  lemma SignedRange(s: seq<byte>)
    requires |s| >= 1
    ensures -128 * Pow(|s| - 1) <= Signed(s) < 128 * Pow(|s| - 1)
    ensures s[0] >= 128 <==> Signed(s) < 0
  {
    TopBit(s);
    FromBeBound(s);
  }

  /** A first byte that only repeats the sign can go. */
  lemma StripOne(s: seq<byte>)
    requires |s| >= 2 && if s[0] == 0 then s[1] < 128 else s[0] == 255 && s[1] >= 128
    ensures Signed(s[1..]) == Signed(s)
  {
    FromBeCons(s);
  }

  lemma {:induction false} StripMany(s: seq<byte>, c: byte, k: nat, j: nat)
    requires j <= k < |s| && forall i :: 0 <= i < k ==> s[i] == c
    requires if c == 0 then s[k] < 128 else c == 255 && s[k] >= 128
    ensures Signed(s[j..]) == Signed(s)
    decreases j
  {
    if j > 0 {
      StripMany(s, c, k, j - 1);
      StripOne(s[j - 1..]);
      assert s[j - 1..][1..] == s[j..];
    } else {
      assert s[0..] == s;
    }
  }

  lemma {:induction false} PowOrder(m: nat, n: nat)
    requires m <= n
    ensures 1 <= Pow(m) <= Pow(n)
    decreases n
  {
    if m < n {
      PowOrder(m, n - 1);
    } else if n > 0 {
      PowOrder(m - 1, n - 1);
    }
  }

  /** More than one byte only if one less could not hold the number. */
  lemma MinimalRange(s: seq<byte>)
    requires |s| >= 2 && Minimal(s)
    ensures Signed(s) >= 128 * Pow(|s| - 2) || Signed(s) < -128 * Pow(|s| - 2)
  {
    var r, p := s[1..], Pow(|s| - 2);
    FromBeCons(s);
    FromBeBound(r);
    TopBit(r);
    PowOrder(0, |s| - 2);
    if s[0] >= 128 {
      if s[0] < 255 {
        TimesOrder(s[0], 254, Pow(|s| - 1));
      }
    } else if s[0] > 0 {
      TimesOrder(1, s[0], Pow(|s| - 1));
    }
  }

  /** `Minimal` is what it should be: no shorter row of bytes denotes the number, and no other as long. */
  lemma ShortestEncoding(s: seq<byte>, t: seq<byte>)
    requires |s| >= 1 && |t| >= 1 && Minimal(s) && Signed(t) == Signed(s)
    ensures |t| > |s| || t == s
  {
    SignedRange(s);
    SignedRange(t);
    if |t| < |s| {
      MinimalRange(s);
      PowOrder(|t| - 1, |s| - 2);
    } else if |t| == |s| {
      FromBeInjective(s, t);
    }
  }

  lemma NotShortest(s: seq<byte>)
    requires |s| >= 1 && !Minimal(s)
    ensures |s| >= 2 && Signed(s[1..]) == Signed(s)
  {
    StripOne(s);
  }

  /** A byte of the two's complement: negated from the last byte that is not zero on, inverted before it. */
  function Flipped(b: byte, negate: bool): byte {
    if negate then (256 - b as int) % 256 else 255 - b
  }

  ghost function Complement(s: seq<byte>, fnz: nat): (t: seq<byte>)
    ensures |t| == |s| && forall i :: 0 <= i < |s| ==> t[i] == Flipped(s[i], i >= fnz)
  {
    seq(|s|, i requires 0 <= i < |s| => Flipped(s[i], i >= fnz))
  }

  /** fnz is the last byte that is not zero, or the first byte of all. */
  ghost predicate LastNonZero(s: seq<byte>, fnz: nat) {
    fnz < |s| && (forall i :: fnz < i < |s| ==> s[i] == 0) && (fnz > 0 ==> s[fnz] != 0)
  }

  lemma {:induction false} Inverted(s: seq<byte>, fnz: nat, n: nat)
    requires n <= fnz <= |s|
    ensures FromBe(Complement(s, fnz)[..n]) == Pow(n) - 1 - FromBe(s[..n])
  {
    if n > 0 {
      Inverted(s, fnz, n - 1);
      FromBeNext(Complement(s, fnz), n - 1);
      FromBeNext(s, n - 1);
    }
  }

  /** Inverting and adding one, byte by byte, takes the number from the next power of 256. */
  lemma {:induction false} ComplementMeans(s: seq<byte>, fnz: nat, n: nat)
    requires LastNonZero(s, fnz) && fnz < n <= |s|
    ensures FromBe(s[..n]) == 0 <==> s[fnz] == 0
    ensures FromBe(Complement(s, fnz)[..n]) == if s[fnz] == 0 then 0 else Pow(n) - FromBe(s[..n])
  {
    var t := Complement(s, fnz);
    FirstByte(s);
    FirstByte(t);
    hide FromBe;
    FromBeNext(t, n - 1);
    FromBeNext(s, n - 1);
    if n > fnz + 1 {
      ComplementMeans(s, fnz, n - 1);
    } else {
      Inverted(s, fnz, fnz);
    }
  }

  lemma FromBeNext(s: seq<byte>, n: nat)
    requires n < |s|
    ensures FromBe(s[..n + 1]) == 256 * FromBe(s[..n]) + s[n]
  {
    assert s[..n + 1] == s[..n] + [s[n]];
    FromBeSnoc(s[..n], s[n]);
  }

  lemma FirstByte(s: seq<byte>)
    ensures FromBe(s[..0]) == 0
  {
  }

  /** A magnitude without its top bit, complemented, denotes its negative. */
  lemma ComplementNegates(s: seq<byte>, fnz: nat)
    requires LastNonZero(s, fnz) && s[0] < 128
    ensures Signed(Complement(s, fnz)) == -Signed(s)
  {
    var t := Complement(s, fnz);
    ComplementMeans(s, fnz, |s|);
    assert s[..|s|] == s && t[..|s|] == t;
    TopBit(s);
    TopBit(t);
    PowOrder(0, |s| - 1);
  }

  /** The complement of a negative number is its magnitude. */
  lemma ComplementMagnitude(s: seq<byte>, fnz: nat)
    requires LastNonZero(s, fnz) && s[0] >= 128
    ensures FromBe(Complement(s, fnz)) == -Signed(s) > 0
  {
    ComplementMeans(s, fnz, |s|);
    assert s[..|s|] == s && Complement(s, fnz)[..|s|] == Complement(s, fnz);
    FromBeBound(s);
  }

  lemma WordByte(w: nat, s: nat, prefix: nat, x: nat)
    requires s < 4 && w < Pow(4) && Pow(s + 1) > 0 && Pow(s) > 0 && prefix == Pow(3 - s) * x + w / Pow(s + 1)
    ensures 256 * prefix + (w / Pow(s)) % 256 == Pow(4 - s) * x + w / Pow(s)
  {
    Pows();
    assert Pow(3) == 0x100_0000 && Pow(0) == 1;
    Regroup(x, Pow(3 - s));
    assert (w / Pow(s)) / 256 == w / Pow(s + 1);
  }

  /** The inner loop of bigToBuf: a word, high byte first. */
  method StoreWord(buf: array<byte>, cp0: nat, ss: word) returns (cp: nat)
    requires cp0 + 4 <= buf.Length
    modifies buf
    ensures cp == cp0 + 4 && FromBe(buf[..cp]) == B * FromBe(old(buf[..cp0])) + ss
    ensures buf[..cp0] == old(buf[..cp0])
  {
    Pows();
    PowOrder(0, 3);
    ghost var x := FromBe(buf[..cp0]);
    cp := cp0;
    var s := 4;
    while s > 0
      invariant 0 <= s <= 4 && cp + s == cp0 + 4 && buf[..cp0] == old(buf[..cp0])
      invariant Pow(s) > 0 && FromBe(buf[..cp]) == Pow(4 - s) * x + ss / Pow(s)
    {
      s := s - 1;
      PowOrder(0, s);
      var b: byte := (ss / Pow(s)) % 256;
      ghost var row := buf[..cp];
      WordByte(ss, s, FromBe(row), x);
      buf[cp] := b;
      assert buf[..cp + 1] == row + [b];
      FromBeSnoc(row, b);
      cp := cp + 1;
    }
  }

  /** The outer loop of bigToBuf: the words from the top down. */
  method StoreWords(num: array<word>, length: nat, buf: array<byte>, start: nat) returns (cp: nat)
    requires length <= num.Length && start + 4 * length <= buf.Length
    requires (var a: object, b: object := num, buf; a != b)
    requires forall i :: 0 <= i < start ==> buf[i] == 0
    modifies buf
    ensures cp == start + 4 * length && FromBe(buf[..cp]) == Val(num[..length])
  {
    ghost var z := num[..length];
    FromBeZeros(buf[..start]);
    cp := start;
    var bp := length;
    assert z[length..] == [];
    while bp > 0
      invariant 0 <= bp <= length && cp == start + 4 * (length - bp) && num[..length] == z
      invariant FromBe(buf[..cp]) == Val(z[bp..])
    {
      bp := bp - 1;
      assert z[bp..][1..] == z[bp + 1..] && num[bp] == z[bp];
      cp := StoreWord(buf, cp, num[bp]);
    }
    assert z[0..] == z;
  }

  method FindNonZero(s: array<byte>, n: nat) returns (fnz: nat)
    requires 1 <= n <= s.Length
    ensures LastNonZero(s[..n], fnz)
  {
    fnz := n - 1;
    while fnz > 0 && s[fnz] == 0
      invariant 0 <= fnz < n && forall i :: fnz < i < n ==> s[i] == 0
    {
      fnz := fnz - 1;
    }
  }

  /** bigToBuf's change to two's complement, in place. */
  method Negate(buf: array<byte>, n: nat)
    requires 1 <= n <= buf.Length && buf[0] < 128
    modifies buf
    ensures Signed(buf[..n]) == -Signed(old(buf[..n]))
  {
    ghost var s := buf[..n];
    var fnz := FindNonZero(buf, n);
    var p := n;
    while p > 0
      invariant 0 <= p <= n
      invariant forall i :: 0 <= i < p ==> buf[i] == s[i]
      invariant forall i :: p <= i < n ==> buf[i] == Flipped(s[i], i >= fnz)
    {
      p := p - 1;
      buf[p] := Flipped(buf[p], p >= fnz);
    }
    assert buf[..n] == Complement(s, fnz);
    ComplementNegates(s, fnz);
  }

  /** The bytes at the front that repeat the sign. */
  ghost predicate Leading(s: seq<byte>, k: nat) {
    k < |s| && Minimal(s[k..]) && forall j :: 0 <= j <= k ==> Signed(s[j..]) == Signed(s)
  }

  /** The search of bigToBuf's last part; the byte after the end is not looked at, as it does not matter. */
  method CountLeading(buf: array<byte>, n: nat) returns (k: nat)
    requires 1 <= n <= buf.Length
    ensures Leading(buf[..n], k)
  {
    ghost var s := buf[..n];
    var c := buf[0];
    if c != 0 && c != 255 {
      assert s[0..] == s;
      return 0;
    }
    var p := 1;
    while p < n && buf[p] == c
      invariant 1 <= p <= n && forall i :: 0 <= i < p ==> s[i] == c
    {
      p := p + 1;
    }
    if p == n || (c == 255 && buf[p] < 128) || (c == 0 && buf[p] >= 128) {
      p := p - 1;
    }
    k := p;
    forall j | 0 <= j <= k
      ensures Signed(s[j..]) == Signed(s)
    {
      StripMany(s, c, k, j);
    }
  }

  lemma LeadingAt(s: seq<byte>, k: nat, j: nat)
    requires Leading(s, k) && j <= k
    ensures k < |s| && |s[j..]| >= 1 && Signed(s[j..]) == Signed(s)
  {
  }

  /** The last loop of bigToBuf. */
  method MoveDown(buf: array<byte>, lead: nat, n: nat) returns (p: nat)
    requires lead <= n <= buf.Length
    modifies buf
    ensures p == n - lead && buf[..p] == old(buf[..n])[lead..]
  {
    ghost var s := buf[..n];
    p := 0;
    while p < n - lead
      invariant 0 <= p <= n - lead && buf[..p] == s[lead..lead + p]
      invariant forall i {:trigger buf[i]} :: p <= i < n ==> buf[i] == s[i]
    {
      ghost var row := buf[..p];
      buf[p] := buf[p + lead];
      assert buf[..p + 1] == row + [s[p + lead]] == s[lead..lead + p + 1];
      p := p + 1;
    }
  }

  /** The last part of bigToBuf: the bytes move up by k, a count kept in a byte. */
  method PullUp(buf: array<byte>, n: nat) returns (m: nat, ghost k: nat)
    requires 1 <= n <= buf.Length
    modifies buf
    ensures Leading(old(buf[..n]), k) && m == n - k % 256
    ensures buf[..m] == old(buf[..n])[k % 256..] && Signed(buf[..m]) == Signed(old(buf[..n]))
  {
    hide Signed, Minimal, Leading;
    var lead := CountLeading(buf, n);
    k := lead;
    LeadingAt(buf[..n], k, k % 256);
    lead := lead % 256;
    m := MoveDown(buf, lead, n);
  }

  /** A number of l words that fills its top word leaves few bytes to pull up. */
  lemma FewLeading(s: seq<byte>, k: nat, l: nat)
    requires Leading(s, k) && l >= 1 && |s| <= 4 * l + 1
    requires l > 1 ==> Signed(s) >= Pow(4 * l - 4) || Signed(s) + Pow(4 * l - 4) <= 0
    ensures k <= 4
  {
    SignedRange(s[k..]);
    if k > 4 && l > 1 {
      PowOrder(0, |s| - k - 1);
      assert Pow(|s| - k) == 256 * Pow(|s| - k - 1);
      PowOrder(|s| - k, 4 * l - 4);
    }
  }

  lemma {:induction false} ShiftIsPow(n: nat, x: int)
    ensures Shift(n, x) == x * Pow(4 * n)
  {
    if n > 0 {
      ShiftIsPow(n - 1, x);
      var p := Pow(4 * n - 4);
      assert Pow(4 * n) == 0x1_0000_0000 * p by {
        assert Pow(4 * n - 2) == 0x1_0000 * p;
      }
      BaseOut(x, p);
    }
  }

  lemma BaseOut(x: int, p: int)
    ensures x * (0x1_0000_0000 * p) == 0x1_0000_0000 * (x * p)
  {
  }

  /** The bytes the number takes before they are pulled up. */
  function Room(big: Bignum): (n: nat)
    requires big.Valid()
    reads big, big.num
    ensures n >= 4
  {
    4 * big.length + if big.num[big.length - 1] >= 0x8000_0000 then 1 else 0
  }

  /** The top bit of the words is the top bit of the bytes, or there is a byte of zeros before it. */
  lemma TopClear(z: seq<word>, s: seq<byte>)
    requires |z| >= 1 && FromBe(s) == Val(z)
    requires |s| == 4 * |z| + if z[|z| - 1] >= 0x8000_0000 then 1 else 0
    ensures s[0] < 128 && Signed(s) == Val(z)
  {
    hide Val, Shift;
    var n, w: int := |z| - 1, z[|z| - 1];
    ShiftIsPow(|z|, 1);
    ValBound(z);
    TopBit(s);
    if w < 0x8000_0000 {
      ValExtend(z, n);
      assert z[..n + 1] == z;
      ValBound(z[..n]);
      ShiftAdd(n, 1, w);
      ShiftAtMost(n, 1 + w, 0x8000_0000);
      ShiftIsPow(n, 0x8000_0000);
      assert Pow(4 * n + 3) == 0x100_0000 * Pow(4 * n) by {
        assert Pow(4 * n + 1) == 256 * Pow(4 * n);
      }
    }
  }

  lemma ShiftAtMost(n: nat, x: int, y: int)
    requires x <= y
    ensures Shift(n, x) <= Shift(n, y)
  {
    ShiftOrder(n, y, x);
  }

  /** The length of a trimmed number and its magnitude. */
  lemma FillsTop(z: seq<word>)
    requires |z| > 1 && z[|z| - 1] != 0
    ensures Val(z) >= Pow(4 * |z| - 4)
  {
    TopWord(z);
    ShiftIsPow(|z| - 1, 1);
  }

  /** bigToBuf before the bytes are pulled up. */
  method WriteBytes(big: Bignum, buf: array<byte>) returns (cp: nat)
    requires big.Valid() && Room(big) <= buf.Length
    requires (var a: object, b: object := big.num, buf; a != b)
    modifies buf
    ensures cp == Room(big) && Signed(buf[..cp]) == big.Value()
  {
    hide Val, Signed;
    ghost var z := big.Digits();
    forall i | 0 <= i < buf.Length {
      buf[i] := 0;
    }
    cp := 0;
    if big.num[big.length - 1] >= 0x8000_0000 {
      buf[cp] := 0;
      cp := cp + 1;
    }
    assert big.num[..big.length] == z;
    cp := StoreWords(big.num, big.length, buf, cp);
    TopClear(z, buf[..cp]);
    if big.sign == NEG {
      Negate(buf, cp);
    }
    assert big.num[..big.length] == z;
  }

  lemma PulledUp(z: seq<word>, s: seq<byte>, k: nat, sign: int)
    requires Leading(s, k) && |z| >= 1 && |s| <= 4 * |z| + 1 && (sign == POS || sign == NEG)
      && Signed(s) == sign * Val(z)
    requires |z| > 1 ==> z[|z| - 1] != 0
    ensures k % 256 == k && Minimal(s[k..])
  {
    hide Val, Signed;
    if |z| > 1 {
      FillsTop(z);
    }
    FewLeading(s, k, |z|);
  }

  /**
    bigToBuf. The bytes denote the number, and if the number has no leading zero word they are the
    shortest that do; bufsize is the length of buf.
   */
  method BigToBuf(big: Bignum, buf: array<byte>) returns (n: nat)
    requires big.Valid() && Room(big) <= buf.Length
    requires (var a: object, b: object := big.num, buf; a != b)
    modifies buf
    ensures 1 <= n <= Room(big) && Signed(buf[..n]) == big.Value()
    ensures big.NoLeadingZero() ==> Minimal(buf[..n])
  {
    hide Val, Signed, Minimal, Leading, Room;
    ghost var z := big.Digits();
    assert Room(big) <= 4 * |z| + 1 by {
      RoomIs(big);
    }
    var cp := WriteBytes(big, buf);
    ghost var s := buf[..cp];
    ghost var k;
    n, k := PullUp(buf, cp);
    assert big.Digits() == z;
    if big.NoLeadingZero() {
      PulledUp(z, s, k, big.sign);
    }
    LeadingShort(s, k);
  }

  lemma RoomIs(big: Bignum)
    requires big.Valid()
    ensures Room(big) <= 4 * big.length + 1
  {
  }

  lemma LeadingShort(s: seq<byte>, k: nat)
    requires Leading(s, k)
    ensures k % 256 <= k < |s|
  {
  }

  /** What bufToBig takes byte cp for. */
  function Taken(buf: seq<byte>, negative: bool, fnz: nat, cp: nat): byte
    requires cp < |buf|
  {
    if negative then Flipped(buf[cp], cp >= fnz) else buf[cp]
  }

  lemma WordStep(t: seq<byte>, cp: nat, b: byte, m: nat, s: nat, hi: nat)
    requires 0 < cp <= hi <= |t| && s == hi - cp && m == FromBe(t[cp..hi]) && b == t[cp - 1]
    ensures m + b * Pow(s) == FromBe(t[cp - 1..hi]) < Pow(s + 1)
  {
    var r := t[cp - 1..hi];
    assert r[1..] == t[cp..hi];
    FromBeCons(r);
    FromBeBound(r);
  }

  lemma RowStep(t: seq<byte>, cp: nat, hi: nat, z: seq<word>, m: word)
    requires cp <= hi <= |t| && |t| - hi == 4 * |z| && Val(z) == FromBe(t[hi..]) && m == FromBe(t[cp..hi])
    ensures Val(z + [m]) == FromBe(t[cp..])
  {
    ValSnoc(z, m);
    ShiftIsPow(|z|, m);
    assert t[cp..] == t[cp..hi] + t[hi..];
    FromBeConcat(t[cp..hi], t[hi..]);
  }

  /** One word of bufToBig: four bytes from the end, or as many as there are. */
  method TakeWord(buf: seq<byte>, hi: nat, negative: bool, fnz: nat, ghost t: seq<byte>) returns (m: word, cp: nat)
    requires 0 < hi <= |buf| == |t| && forall i :: 0 <= i < |buf| ==> t[i] == Taken(buf, negative, fnz, i)
    ensures cp == (if hi < 4 then 0 else hi - 4) && m == FromBe(t[cp..hi])
  {
    Pows();
    cp, m := hi, 0;
    var s := 0;
    while s < 4 && cp > 0
      invariant 0 <= s <= 4 && cp == hi - s >= 0 && m == FromBe(t[cp..hi])
    {
      cp := cp - 1;
      WordStep(t, cp + 1, t[cp], m, s, hi);
      PowOrder(s + 1, 4);
      m := m + Taken(buf, negative, fnz, cp) * Pow(s);
      s := s + 1;
    }
  }

  /** The two word loops of bufToBig, which differ in how they take a byte. */
  method TakeWords(buf: seq<byte>, num: array<word>, negative: bool, fnz: nat, ghost t: seq<byte>)
    requires |buf| == |t| && (|buf| + 3) / 4 <= num.Length && forall i :: 0 <= i < |buf| ==>
      t[i] == Taken(buf, negative, fnz, i)
    modifies num
    ensures Val(num[..(|buf| + 3) / 4]) == FromBe(t)
  {
    hide Val, FromBe, Taken;
    var cp, i := |buf|, 0;
    assert t[cp..] == [];
    NoBytes();
    while cp > 0
      invariant 0 <= i <= num.Length && 0 <= cp <= |buf|
      invariant if cp > 0 then cp == |buf| - 4 * i else i == (|buf| + 3) / 4
      invariant Val(num[..i]) == FromBe(t[cp..])
    {
      var hi := cp;
      var m;
      m, cp := TakeWord(buf, hi, negative, fnz, t);
      ghost var z := num[..i];
      RowStep(t, cp, hi, z, m);
      num[i] := m;
      assert num[..i + 1] == z + [m];
      i := i + 1;
    }
    assert t[0..] == t;
  }

  lemma NoBytes()
    ensures Val([]) == 0 && FromBe([]) == 0
  {
  }

  method LastNonZeroOf(buf: seq<byte>) returns (fnz: nat)
    requires |buf| >= 1
    ensures LastNonZero(buf, fnz)
  {
    fnz := |buf| - 1;
    while fnz > 0 && buf[fnz] == 0
      invariant 0 <= fnz < |buf| && forall i :: fnz < i < |buf| ==> buf[i] == 0
    {
      fnz := fnz - 1;
    }
  }

  /**
    bufToBig. The sign is only ever set, so a record that was negative stays negative when the bytes
    denote a positive number: the number is the one the bytes denote if and only if that does not happen.
   */
  method BufToBig(buf: seq<byte>, big: Bignum)
    requires |buf| >= 1 && big.Valid()
    modifies big, big.num
    ensures big.Valid() && big.Trimmed() && (big.num == old(big.num) || fresh(big.num))
    ensures big.Mag() == if Signed(buf) < 0 then -Signed(buf) else Signed(buf)
    ensures big.Value() == Signed(buf) <==> Signed(buf) <= 0 || old(big.sign) == POS
  {
    hide Val;
    var newlen := (|buf| + 3) / 4;
    big.Guarantee(newlen);
    big.length := newlen;
    forall j | 0 <= j < newlen {
      big.num[j] := 0;
    }
    SignedRange(buf);
    if buf[0] >= 128 {
      var fnz := LastNonZeroOf(buf);
      ghost var t := Complement(buf, fnz);
      TakeWords(buf, big.num, true, fnz, t);
      ComplementMagnitude(buf, fnz);
      big.sign := NEG;
    } else {
      TakeWords(buf, big.num, false, 0, buf);
    }
    big.Trim();
  }

  /**
    The input that fails: the byte 1, read into a record that was negative, comes out as -1 by the
    last clause of `BufToBig`; and 1 is what bigToBuf makes of it, having no choice.
   */
  lemma StaleSign(s: seq<byte>)
    requires |s| >= 1 && Minimal(s)
    ensures Signed([1]) == 1
    ensures Signed(s) == 1 <==> s == [1]
  {
    assert [1][..0] == [];
    if Signed(s) == 1 {
      ShortestEncoding(s, [1]);
    }
  }
}
