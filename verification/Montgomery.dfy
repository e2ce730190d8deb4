/**
  Montgomery arithmetic of crypt/bigPow.c: the inverse of a word, the reduction REDC and the
  residue form.
 */
module Montgomery {
  import opened Words
  import opened LongMult
  import opened WordLoops
  import opened Bignums
  import opened CoreMult
  import opened FastMult
  import opened BigMath
  import opened BigShift
  import opened LongDivide
  import opened Digits
  import opened Divide
  import opened LongDivision
  import opened Division

  /** x and y leave the same remainder by n. */
  ghost predicate Cong(x: int, y: int, n: int)
    requires n > 0
  {
    (x - y) % n == 0
  }

  lemma CongBy(x: int, y: int, n: int, k: int)
    requires n > 0 && x == y + k * n
    ensures Cong(x, y, n)
  {
    MultipleOf(n, k);
  }

  lemma MultipleOf(n: int, k: int)
    requires n > 0
    ensures (k * n) % n == 0
  {
    var q, r := (k * n) / n, (k * n) % n;
    assert k * n == n * q + r;
    if q < k {
      MulOrder(n, q + 1, k);
    } else if q > k {
      MulOrder(n, k + 1, q);
    }
  }

  lemma CongIs(x: int, y: int, n: int) returns (k: int)
    requires n > 0 && Cong(x, y, n)
    ensures x == y + k * n
  {
    k := (x - y) / n;
  }

  lemma CongRefl(x: int, n: int)
    requires n > 0
    ensures Cong(x, x, n)
  {
  }

  lemma CongTrans(x: int, y: int, z: int, n: int)
    requires n > 0 && Cong(x, y, n) && Cong(y, z, n)
    ensures Cong(x, z, n)
  {
    hide *;
    var j := CongIs(x, y, n);
    var k := CongIs(y, z, n);
    SumScaled(j, k, n);
    CongBy(x, z, n, j + k);
  }

  lemma CongSym(x: int, y: int, n: int)
    requires n > 0 && Cong(x, y, n)
    ensures Cong(y, x, n)
  {
    hide *;
    var k := CongIs(x, y, n);
    SumScaled(k, -k, n);
    CongBy(y, x, n, -k);
  }

  lemma CongTimes(x: int, y: int, z: int, n: int)
    requires n > 0 && Cong(x, y, n)
    ensures Cong(x * z, y * z, n) && Cong(z * x, z * y, n)
  {
    hide *;
    var k := CongIs(x, y, n);
    SumScaled(y, k * n, z);
    Swapped(k * n, z);
    MulAssociates(z, k, n);
    CongBy(x * z, y * z, n, z * k);
    Swapped(x, z);
    Swapped(y, z);
  }

  lemma CongProduct(x: int, y: int, u: int, v: int, n: int)
    requires n > 0 && Cong(x, y, n) && Cong(u, v, n)
    ensures Cong(x * u, y * v, n)
  {
    hide *;
    CongTimes(x, y, u, n);
    CongTimes(u, v, y, n);
    CongTrans(x * u, y * u, y * v, n);
  }

  /** Congruence is equality of the remainders. */
  lemma CongMeans(x: int, y: int, n: int)
    requires n > 0
    ensures Cong(x, y, n) <==> x % n == y % n
  {
    var p, q := x / n, y / n;
    if Cong(x, y, n) {
      var k := CongIs(x, y, n);
      SumScaled(q, k, n);
      Swapped(n, q);
      SameRemainder(x, n, q + k, y % n);
    }
    if x % n == y % n {
      SumScaled(p - q, q, n);
      Swapped(n, q);
      Swapped(n, p);
      CongBy(x, y, n, p - q);
    }
  }

  lemma SameRemainder(x: int, n: int, q: int, r: int)
    requires n > 0 && x == q * n + r && 0 <= r < n
    ensures x % n == r
  {
    var p := x / n;
    assert x == n * p + x % n;
    if p < q {
      MulOrder(n, p + 1, q);
    } else if p > q {
      MulOrder(n, q + 1, p);
    }
  }

  /** One step of modInverse: y inverts x up to 2^i, and one more bit fixes it up to 2^(i + 1). */
  lemma InverseStep(x: int, y: int, od: int)
    requires x % 2 == 1 && 2 <= od && Cong(x * y, 1, od)
    ensures (x * y) % (2 * od) == 1 || (x * y) % (2 * od) == 1 + od
    ensures (x * y) % (2 * od) == 1 ==> Cong(x * y, 1, 2 * od)
    ensures (x * y) % (2 * od) == 1 + od ==> Cong(x * (y + od), 1, 2 * od)
  {
    hide *;
    var k := CongIs(x * y, 1, od);
    var h, b := k / 2, k % 2;
    MulAssociates(h, 2, od);
    SumScaled(2 * h, b, od);
    SameRemainder(x * y, 2 * od, h, 1 + b * od);
    if b == 0 {
      CongBy(x * y, 1, 2 * od, h);
    } else {
      var g := x / 2;
      Distribute(x, y, od);
      SumScaled(2 * g, 1, od);
      MulAssociates(g, 2, od);
      SumScaled(h + g, 1, 2 * od);
      SumScaled(h, g, 2 * od);
      CongBy(x * (y + od), 1, 2 * od, h + g + 1);
    }
  }

  /** A word divides out of a product that wrapped, as long as the divisor is a power of two. */
  lemma WrappedRemainder(v: int, d: int, e: int)
    requires d > 0 && e > 0 && d * e == B
    ensures Wrap(v) % d == v % d
  {
    hide *;
    BaseIs();
    var q := v / B;
    WrapIs(v);
    MulAssociates(q, e, d);
    Swapped(d, e);
    CongBy(v, Wrap(v), d, q * e);
    CongMeans(v, Wrap(v), d);
  }

  lemma WrapIs(v: int)
    ensures v == (v / B) * B + Wrap(v)
  {
  }

  /** modInverse of an odd word: x times it is -1 in 32 bits. */
  method ModInverse(x: word) returns (r: word)
    requires x % 2 == 1
    ensures (x * r + 1) % B == 0
  {
    hide Pow2;
    var y := new word[33](_ => 0);
    y[1] := 1;
    var od: word := 2;
    Pow2Values();
    var i := 2;
    CongBy(x * 1, 1, 2, x / 2);
    while i < 33
      invariant 2 <= i <= 33 && y.Length == 33
      invariant i <= 32 ==> od == Pow2(i - 1)
      invariant y[i - 1] < Pow2(i - 1) && Pow2(i - 1) > 0 && Cong(x * y[i - 1], 1, Pow2(i - 1))
    {
      var d: word := Wrap(od * 2);
      var xx := Wrap(x * y[i - 1]);
      Doubled(i);
      InverseStep(x, y[i - 1], od);
      WrappedRemainder(x * y[i - 1], Pow2(i), Pow2(32 - i));
      InverseRemainder(d, xx, i);
      if d != 0 {
        xx := xx % d;
      }
      if xx < od {
        y[i] := y[i - 1];
      } else {
        y[i] := y[i - 1] + od;
      }
      od := d;
      i := i + 1;
    }
    r := Wrap((y[32] as int) * 0xFFFF_FFFF);
    Pow2Is32();
    NegatedInverse(x, y[32], r);
  }

  lemma Pow2Values()
    ensures Pow2(1) == 2 && Pow2(0) == 1
  {
  }

  lemma Doubled(i: nat)
    requires 2 <= i <= 32
    ensures Pow2(i) == 2 * Pow2(i - 1) && Pow2(i) * Pow2(32 - i) == B && 2 <= Pow2(i - 1)
    ensures if i == 32 then Pow2(i) == B else Pow2(i) < B
  {
    BitsSplit(i);
    Pow2Is32();
    Pow2Grows(1, i - 1);
    Pow2Values();
    if i < 32 {
      Pow2Grows(i + 1, 32);
    }
  }

  lemma InverseRemainder(d: word, xx: word, i: nat)
    requires 2 <= i <= 32 && (if i == 32 then Pow2(i) == B && d == 0 else Pow2(i) == d)
    ensures (if d != 0 then xx % d else xx) == xx % Pow2(i)
  {
  }

  lemma NegatedInverse(x: int, y: int, r: word)
    requires Cong(x * y, 1, B) && r == Wrap(y * 0xFFFF_FFFF)
    ensures (x * r + 1) % B == 0
  {
    hide *;
    BaseIs();
    WrapIs(y * 0xFFFF_FFFF);
    var q := (y * 0xFFFF_FFFF) / B;
    var k := CongIs(x * y, 1, B);
    assert r == B * (y - q) - y;
    Distribute(x, B * (y - q), -y);
    Opposite(x, y);
    MulAssociates(x, y - q, B);
    Swapped(B, y - q);
    assert x * r + 1 == (x * (y - q)) * B - k * B;
    SumScaled(x * (y - q), -k, B);
    Opposite(B, k);
    Swapped(B, k);
    Swapped(B, -k);
    MultipleOf(B, x * (y - q) - k);
  }

  lemma Opposite(x: int, y: int)
    ensures x * (-y) == -(x * y)
  {
  }

  /** The modulus of a Mont_set, with the inverse of its low word. */
  datatype Mont = Mont(N: Bignum, n0p: word)

  /** ms is set up for the odd modulus denoted by the words z. */
  ghost predicate Modulus(ms: Mont, z: seq<word>)
    reads ms.N, ms.N.num
  {
    && ms.N.Valid() && ms.N.sign == POS && ms.N.length == |z| && ms.N.num[..ms.N.length] == z
    && OddRow(z) && (z[0] * ms.n0p + 1) % B == 0
  }

  /** An odd number of two words or more. */
  ghost predicate OddRow(z: seq<word>) {
    |z| >= 2 && z[|z| - 1] != 0 && z[0] % 2 == 1
  }

  /** mont_set */
  method MontSet(N: Bignum) returns (ms: Mont)
    requires N.Valid() && N.sign == POS && OddRow(N.Digits())
    ensures ms.N == N && Modulus(ms, N.Digits())
  {
    var n0p := ModInverse(N.num[0]);
    ms := Mont(N, n0p);
  }

  /** Word i of a number. */
  ghost function WordAt(v: int, i: nat): int
    decreases i
  {
    if i == 0 then v % 0x1_0000_0000 else WordAt(v / 0x1_0000_0000, i - 1)
  }

  lemma {:induction false} WordAtIs(z: seq<word>, i: nat)
    ensures i < |z| ==> WordAt(Val(z), i) == z[i]
    ensures i >= |z| ==> WordAt(Val(z), i) == 0
    decreases i
  {
    if |z| == 0 {
      ZeroWord(i);
    } else {
      assert Val(z) == z[0] + 0x1_0000_0000 * Val(z[1..]);
      if i > 0 {
        WordAtIs(z[1..], i - 1);
      }
    }
  }

  lemma {:induction false} ZeroWord(i: nat)
    ensures WordAt(0, i) == 0
  {
    if i > 0 {
      ZeroWord(i - 1);
    }
  }

  lemma {:induction false} WordAtShift(i: nat, u: int)
    ensures WordAt(Shift(i, u), i) == u % B
  {
    if i > 0 {
      WordAtShift(i - 1, u);
      assert Shift(i, u) / 0x1_0000_0000 == Shift(i - 1, u);
    }
  }

  /** A number with zero words under place i gets a zero word there when m times the modulus is added. */
  lemma WordCleared(u: int, n: int, n0: int, n0p: int, m: word)
    requires m == Wrap(Wrap(u) * n0p) && n % B == n0 && (n0 * n0p + 1) % B == 0
    ensures (u + m * n) % B == 0
  {
    hide *;
    BaseIs();
    WrapIs(u);
    WrapIs(Wrap(u) * n0p);
    CongBy(Wrap(u), u, B, -(u / B));
    CongBy(m, Wrap(u) * n0p, B, -((Wrap(u) * n0p) / B));
    CongTimes(Wrap(u), u, n0p, B);
    CongTrans(m, Wrap(u) * n0p, u * n0p, B);
    CongMeans(n, n0, B);
    RemainderTwice(n, B);
    CongProduct(m, u * n0p, n, n0, B);
    MulAssociates(u, n0p, n0);
    Swapped(n0p, n0);
    Distribute(u, n0 * n0p, 1);
    CongIsZero(n0 * n0p + 1, B);
    CongTimes(n0 * n0p + 1, 0, u, B);
    CongAdd(u, m * n, (u * n0p) * n0, B);
    CongTrans(u + m * n, u + (u * n0p) * n0, 0, B);
    CongIsZero(u + m * n, B);
  }

  lemma RemainderTwice(x: int, n: int)
    requires n > 0
    ensures (x % n) % n == x % n
  {
  }

  lemma CongIsZero(x: int, n: int)
    requires n > 0
    ensures Cong(x, 0, n) <==> x % n == 0
  {
  }

  lemma CongAdd(u: int, x: int, y: int, n: int)
    requires n > 0 && Cong(x, y, n)
    ensures Cong(u + x, u + y, n)
  {
    assert (u + x) - (u + y) == x - y;
  }

  /** After i turns of REDC: k times the modulus has been added to v, which cleared the i low words. */
  ghost predicate Cleared(v: int, n: int, i: nat, x: int, k: int, u: int) {
    x == v + k * n && x == Shift(i, u) && 0 <= k < Shift(i, 1)
  }

  lemma ClearedStarts(v: int, n: int)
    ensures Cleared(v, n, 0, v, 0, v)
  {
  }

  lemma ClearedNext(v: int, n: int, i: nat, x: int, k: int, u: int, n0: int, n0p: int, m: word)
    requires Cleared(v, n, i, x, k, u)
    requires m == Wrap(WordAt(x, i) * n0p) && n % B == n0 && (n0 * n0p + 1) % B == 0
    ensures Cleared(v, n, i + 1, x + Shift(i, m * n), k + Shift(i, m), (u + m * n) / B)
  {
    hide WordAt, Shift;
    WordAtShift(i, u);
    WordCleared(u, n, n0, n0p, m);
    ShiftAdd(i, u, m * n);
    ShiftMul(i, m, n);
    SumScaled(k, Shift(i, m), n);
    ShiftNext(i, (u + m * n) / B);
    ShiftNext(i, 1);
    ShiftAtMost(i, 0, m);
    ShiftAtMost(i, m, B - 1);
    ShiftAdd(i, 1, B - 1);
    ShiftZero(i);
  }

  /** Taking the i low words off leaves less than twice the modulus. */
  lemma ClearedEnds(v: int, n: int, l: nat, x: int, k: int, u: int)
    requires n > 0 && 0 <= v < Shift(l, n) && Cleared(v, n, l, x, k, u)
    ensures 0 <= u < 2 * n && Shift(l, u) == v + k * n
  {
    hide *;
    ClearedIs(v, n, l, x, k, u);
    ShiftMul(l, 1, n);
    SameOrder(n, k, Shift(l, 1));
    Swapped(n, k);
    Swapped(n, Shift(l, 1));
    ShiftAdd(l, n, n);
    ShiftOrder(l, u, 2 * n);
    ProductNonNegative(k, n);
    ShiftZero(l);
    ShiftOrder(l, u, 0);
  }

  lemma SameOrder(n: int, x: int, y: int)
    requires n > 0 && x < y
    ensures n * x < n * y
  {
  }

  lemma ClearedIs(v: int, n: int, i: nat, x: int, k: int, u: int)
    requires Cleared(v, n, i, x, k, u)
    ensures x == v + k * n && x == Shift(i, u) && 0 <= k < Shift(i, 1)
  {
  }

  /** The numbers numtype_bigmult meets in REDC fit the storage it guarantees itself. */
  lemma ReductionFits(v: int, n: int, l: nat, i: nat, x: int, k: int, u: int, m: word, len: nat, storage: nat)
    requires Cleared(v, n, i, x, k, u) && 0 <= v < Shift(len, 1) && 0 < n < Shift(l, 1)
    requires len < storage
    ensures Fits(x + Shift(i, m * n), storage, l + i + 3)
  {
    hide Shift;
    ShiftMul(i, m, n);
    SumScaled(k, Shift(i, m), n);
    ShiftAtMost(i, m, B - 1);
    ShiftAtMost(i, 0, m);
    ShiftAdd(i, 1, B - 1);
    ShiftZero(i);
    ShiftNext(i, 1);
    var h := k + Shift(i, m);
    ProductLess(h, Shift(i + 1, 1), n, Shift(l, 1));
    ShiftMul(i + 1, 1, Shift(l, 1));
    ShiftShift(i + 1, l, 1);
    FitsEither(v, h * n, len, i + 1 + l, storage);
  }

  lemma FitsEither(v: int, w: int, len: nat, top: nat, storage: nat)
    requires v < Shift(len, 1) && w < Shift(top, 1) && len < storage
    ensures Fits(v + w, storage, top + 2)
  {
    hide Shift;
    var high := if len < top then top else len;
    ShiftGrows(len, high);
    ShiftGrows(top, high);
    ShiftOne(high, 1);
    ShiftGrows(high + 1, if len < top then top + 2 else storage);
  }

  /** The words of t up to place i can be read, and are zero above its length. */
  ghost predicate Readable(t: Bignum, i: nat)
    reads t, t.num
  {
    i < t.num.Length && CleanAbove(t, i + 1)
  }

  lemma WordRead(t: Bignum, i: nat)
    requires t.Valid() && Readable(t, i)
    ensures WordAt(t.Mag(), i) == t.num[i]
  {
    WordAtIs(t.num[..t.length], i);
  }

  lemma LowWord(N: Bignum)
    requires N.Valid()
    ensures N.Mag() % B == N.num[0]
  {
    assert N.num[..N.length] == [N.num[0]] + N.num[1..N.length];
    ConsVal(N.num[0], N.num[1..N.length]);
  }

  /** One turn of REDC's loop clears word i. */
  method ClearWord(t: Bignum, ms: Mont, ghost z: seq<word>, i: nat, ghost v: int, ghost k: int, ghost u: int,
      ghost len: nat) returns (ghost k': int, ghost u': int)
    requires t.Valid() && t.sign == POS && Modulus(ms, z) && Separate(t, ms.N)
    requires i < ms.N.length && Readable(t, i) && len < t.num.Length && 0 <= v < Shift(len, 1)
    requires Cleared(v, Val(z), i, t.Mag(), k, u)
    modifies t, t.num
    ensures t.Valid() && t.sign == POS && t.Trimmed() && (t.num == old(t.num) || fresh(t.num))
      && t.space >= old(t.space)
    ensures Cleared(v, Val(z), i + 1, t.Mag(), k', u')
    ensures t.num.Length > ms.N.length + i && Readable(t, i + 1)
  {
    hide Val, Shift, Cleared, WordAt;
    ghost var n := Val(z);
    WordRead(t, i);
    LowWord(ms.N);
    ValBound(ms.N.num[..ms.N.length]);
    TopWord(ms.N.num[..ms.N.length]);
    var m := Wrap(t.num[i] * ms.n0p);
    ClearedNext(v, n, i, t.Mag(), k, u, ms.N.num[0], ms.n0p, m);
    ReductionFits(v, n, ms.N.length, i, t.Mag(), k, u, m, len, t.num.Length);
    NumtypeBigmult(ms.N, m, t, i);
    k', u' := k + Shift(i, m), (u + m * n) / B;
  }

  /** bigRightShift by whole words takes the cleared words off. */
  lemma WordsOffShift(n: nat, u: int)
    requires u >= 0
    ensures Shift(n, u) / Pow2(n * 32) == u
  {
    hide *;
    ShiftPow2(n, u);
    Swapped(u, Pow2(32 * n));
    assert n * 32 == 32 * n;
    QuotientIs(Shift(n, u), Pow2(n * 32), u, 0);
  }

  /** REDC's loop: the n low words of t are cleared. */
  method ClearWords(t: Bignum, ms: Mont, ghost z: seq<word>, n: nat) returns (ghost k: int, ghost u: int)
    requires t.Valid() && t.sign == POS && Modulus(ms, z) && Separate(t, ms.N)
    requires t.length < t.num.Length && n == |z|
    modifies t, t.num
    ensures t.Valid() && t.sign == POS && t.Trimmed() && (t.num == old(t.num) || fresh(t.num))
    ensures t.num.Length >= 2 * n
    ensures Cleared(old(t.Mag()), Val(z), n, t.Mag(), k, u)
  {
    hide Val, Shift, Cleared, WordAt;
    ghost var v, len := t.Mag(), t.length;
    k, u := 0, v;
    ValBound(t.num[..t.length]);
    ClearedStarts(v, Val(z));
    k, u := ClearWord(t, ms, z, 0, v, k, u, len);
    var i := 1;
    while i < n
      invariant 1 <= i <= n && t.Valid() && t.sign == POS && t.Trimmed() && (t.num == old(t.num) || fresh(t.num))
      invariant len < t.num.Length && t.num.Length >= n + i
      invariant Readable(t, i)
      invariant Cleared(v, Val(z), i, t.Mag(), k, u)
    {
      k, u := ClearWord(t, ms, z, i, v, k, u, len);
      i := i + 1;
    }
  }

  /** REDC: t times R is what t was, up to the modulus; the last test is strict, so t may equal the modulus. */
  method REDC(t: Bignum, ms: Mont, ghost z: seq<word>)
    requires t.Valid() && t.sign == POS && Modulus(ms, z) && Separate(t, ms.N)
    requires t.length <= t.space && t.Mag() < Shift(|z|, Val(z))
    modifies t, t.num, ms.N
    ensures t.Valid() && t.Trimmed() && t.sign == POS && t.length <= t.space && (t.num == old(t.num) || fresh(t.num))
    ensures Modulus(ms, z) && Untouched(ms.N)
    ensures Val(z) > 0 && t.Mag() <= Val(z) && Cong(Shift(|z|, t.Mag()), old(t.Mag()), Val(z))
  {
    hide Val, Shift, Pow2, Cleared, Cong;
    var n := ms.N.length;
    ghost var v, nn := t.Mag(), Val(z);
    TopWord(ms.N.num[..n]);
    ghost var k, u := ClearWords(t, ms, z, n);
    ClearedEnds(v, nn, n, t.Mag(), k, u);
    ClearedIs(v, nn, n, t.Mag(), k, u);
    WordsOffShift(n, u);
    BigRightShift(t, n * 32);
    LastSubtraction(t, ms.N);
    Residue(v, nn, n, u, k, t.Mag());
  }

  /** The last comparison of REDC, and the subtraction it guards. */
  method LastSubtraction(t: Bignum, N: Bignum)
    requires t.Valid() && t.Trimmed() && t.sign == POS && Separate(t, N)
    requires N.Valid() && N.sign == POS && N.length >= 1 && N.num[N.length - 1] != 0 && t.Mag() < 2 * N.Mag()
    requires N.length < t.num.Length
    modifies t, t.num, N
    ensures t.Valid() && t.Trimmed() && t.sign == POS && t.length <= t.space && (t.num == old(t.num) || fresh(t.num))
    ensures N.Valid() && Untouched(N)
    ensures t.Mag() == if old(t.Mag()) > N.Mag() then old(t.Mag()) - N.Mag() else old(t.Mag())
    ensures t.Mag() <= N.Mag()
  {
    hide Val, Shift;
    DoubleLength(N, t);
    var order := Compare(t, N);
    if order > 0 {
      SafeWhenClose(t, N);
      Subtract(t, N);
    }
    t.Trim();
    ValBound(N.num[..N.length]);
    ShortEnough(t, N.length);
  }

  method Subtract(t: Bignum, N: Bignum)
    requires t.Valid() && t.Trimmed() && t.sign == POS && Separate(t, N) && N.Valid() && N.Trimmed() && N.sign == POS
    requires N.Mag() < t.Mag() && SafeOver(t, N, t)
    requires N.length < t.num.Length
    modifies t, t.num, N
    ensures t.Valid() && t.NoLeadingZero() && t.sign == POS && (t.num == old(t.num) || fresh(t.num))
    ensures t.space >= old(t.space)
    ensures N.Valid() && Untouched(N)
    ensures t.Mag() == old(t.Mag()) - N.Mag()
  {
    hide Val, Shift;
    BigSubtract(t, N, t);
  }

  lemma DoubleLength(N: Bignum, t: Bignum)
    requires N.Valid() && t.Valid() && t.NoLeadingZero() && t.Mag() < 2 * N.Mag()
    ensures t.length <= N.length + 1
  {
    ValBound(N.num[..N.length]);
    ShortEnough(t, N.length + 1);
  }

  lemma Residue(v: int, n: int, l: nat, u: int, k: int, t: int)
    requires n > 0 && Shift(l, u) == v + k * n && (t == u || t == u - n)
    ensures Cong(Shift(l, t), v, n)
  {
    hide *;
    ShiftSub(l, u, n);
    ShiftMul(l, 1, n);
    SumScaled(k, -Shift(l, 1), n);
    Opposite(n, Shift(l, 1));
    Swapped(n, Shift(l, 1));
    Swapped(n, -Shift(l, 1));
    CongBy(Shift(l, t), v, n, if t == u then k else k - Shift(l, 1));
  }

  /** The base can be cancelled: its inverse modulo n comes from the inverse of n modulo the base. */
  lemma CancelBase(x: int, y: int, n: int, p: int)
    requires n > 0 && (n * p + 1) % B == 0 && Cong(B * x, B * y, n)
    ensures Cong(x, y, n)
  {
    hide *;
    BaseIs();
    var k := CongIs(B * x, B * y, n);
    CongIsZero(n * p + 1, B);
    var c := CongIs(n * p + 1, 0, B);
    var d := x - y;
    Distribute(B, x, -y);
    Opposite(B, y);
    assert B * d == k * n;
    SumScaled(n * p, 1, d);
    Swapped(c, B);
    MulAssociates(c, B, d);
    MulAssociates(c, k, n);
    Swapped(B, c);
    assert (n * p) * d + d == (c * k) * n;
    MulAssociates(n, p, d);
    Swapped(n, p * d);
    SumScaled(c * k, -(p * d), n);
    Opposite(n, p * d);
    Swapped(n, -(p * d));
    CongBy(x, y, n, c * k - p * d);
  }

  lemma {:induction false} CancelShift(l: nat, x: int, y: int, n: int, p: int)
    requires n > 0 && (n * p + 1) % B == 0 && Cong(Shift(l, x), Shift(l, y), n)
    ensures Cong(x, y, n)
  {
    hide Cong;
    if l > 0 {
      ShiftOne(l - 1, x);
      ShiftOne(l - 1, y);
      CancelBase(Shift(l - 1, x), Shift(l - 1, y), n, p);
      CancelShift(l - 1, x, y, n, p);
    }
  }

  /** v is the residue form of x: x times R, up to the modulus. */
  ghost predicate Rep(v: int, x: int, z: seq<word>) {
    Val(z) > 0 && Cong(v, Shift(|z|, x), Val(z))
  }

  /** Multiplying the modulus by n0p gives -1 in the low word. */
  lemma LowInverse(z: seq<word>, n0p: int)
    requires OddRow(z) && (z[0] * n0p + 1) % B == 0
    ensures Val(z) > 1 && (Val(z) * n0p + 1) % B == 0
  {
    hide Val;
    var n, n0: int := Val(z), z[0];
    assert z == [z[0]] + z[1..];
    ConsVal(z[0], z[1..]);
    TopWord(z);
    ShiftGrows(1, |z| - 1);
    OneWord();
    Swapped(B, Val(z[1..]));
    CongBy(n, n0, B, Val(z[1..]));
    CongTimes(n, n0, n0p, B);
    CongAdd(1, n * n0p, n0 * n0p, B);
    CongIsZero(n0 * n0p + 1, B);
    CongTrans(n * n0p + 1, n0 * n0p + 1, 0, B);
    CongIsZero(n * n0p + 1, B);
  }

  /** A Montgomery product of residue forms is the residue form of the product. */
  lemma RepProduct(a: int, x: int, b: int, y: int, r: int, z: seq<word>, n0p: int)
    requires OddRow(z) && (z[0] * n0p + 1) % B == 0 && Val(z) > 0 && Rep(a, x, z) && Rep(b, y, z)
    requires Cong(Shift(|z|, r), a * b, Val(z))
    ensures Rep(r, x * y, z)
  {
    hide Val, Shift, Cong;
    var l, n := |z|, Val(z);
    LowInverse(z, n0p);
    CongProduct(a, Shift(l, x), b, Shift(l, y), n);
    ShiftMul(l, x, Shift(l, y));
    ShiftMul(l, x, y);
    CongTrans(Shift(l, r), a * b, Shift(l, Shift(l, x * y)), n);
    CancelShift(l, r, Shift(l, x * y), n, n0p);
  }

  /** Reducing a residue form gives the number itself, up to the modulus. */
  lemma RepOut(r: int, v: int, x: int, z: seq<word>, n0p: int)
    requires OddRow(z) && (z[0] * n0p + 1) % B == 0 && Val(z) > 0 && Rep(v, x, z)
    requires Cong(Shift(|z|, r), v, Val(z))
    ensures Cong(r, x, Val(z))
  {
    hide Val, Shift, Cong;
    LowInverse(z, n0p);
    CongTrans(Shift(|z|, r), v, Shift(|z|, x), Val(z));
    CancelShift(|z|, r, x, Val(z), n0p);
  }

  /** b holds the residue form of x, in the range of REDC's results. */
  ghost predicate Holds(b: Bignum, x: int, z: seq<word>)
    reads b, b.num
  {
    b.Valid() && b.NoLeadingZero() && b.sign == POS && b.Mag() <= Val(z) && Rep(b.Mag(), x, z)
  }

  /** a moved up by the words of the modulus. */
  method TimesR(a: Bignum, l: nat) returns (tmp: Bignum)
    requires a.Valid() && a.NoLeadingZero() && a.sign == POS && l >= 1
    ensures fresh(tmp) && fresh(tmp.num) && tmp.Valid() && tmp.NoLeadingZero() && tmp.sign == POS
    ensures tmp.Mag() == Shift(l, a.Mag())
  {
    hide Val, Shift, Pow2;
    ShiftPow2(l, a.Mag());
    assert l * 32 == 32 * l;
    tmp := new Bignum(0);
    BigLeftShift(a, l * 32, tmp);
  }

  /** res_form: a times R, reduced by bigMod. */
  method ResForm(a: Bignum, ms: Mont, ghost z: seq<word>) returns (r: Bignum)
    requires a.Valid() && a.NoLeadingZero() && a.sign == POS && Modulus(ms, z) && Separate(a, ms.N)
    modifies ms.N, ms.N.num
    ensures fresh(r) && fresh(r.num) && Separate(r, ms.N) && Modulus(ms, z)
      && (ms.N.num == old(ms.N.num) || fresh(ms.N.num))
    ensures Holds(r, old(a.Mag()), z)
  {
    LowInverse(z, ms.n0p);
    hide Val, Shift, Cong, Reduced, Moved;
    ghost var v := Shift(|z|, a.Mag());
    var tmp := TimesR(a, ms.N.length);
    r := new Bignum(0);
    BigMod(tmp, ms.N, r);
    CongMeans(r.Mag(), v, Val(z));
    assert |ms.N.num[..ms.N.length]| == |z|;
  }

  /** bigMultiply followed by REDC, as both exponentiations use them. */
  method MontMultiply(a: Bignum, b: Bignum, r: Bignum, ms: Mont, ghost x: int, ghost y: int, ghost z: seq<word>,
      cutoff: nat, sqcutoff: nat)
    requires PowerOfTwo(cutoff) && cutoff >= 2 && PowerOfTwo(sqcutoff) && sqcutoff >= 2
    requires Modulus(ms, z) && Holds(a, x, z) && Holds(b, y, z) && r.Valid()
    requires Separate(r, ms.N) && Separate(a, r) && Separate(b, r) && (a != b ==> a.num != b.num) && a != ms.N
      && b != ms.N
    modifies r, r.num, a`length, ms.N
    ensures Modulus(ms, z) && Untouched(ms.N) && Holds(r, x * y, z) && (r.num == old(r.num) || fresh(r.num))
    ensures a.length == old(a.length) && Holds(a, x, z) && r.length <= r.space
  {
    LowInverse(z, ms.n0p);
    hide Val, Shift, Cong, Rep;
    SquareInRange(a.Mag(), b.Mag(), z);
    ghost var u, v := a.Mag(), b.Mag();
    BigMultiply(a, b, r, cutoff, sqcutoff);
    REDC(r, ms, z);
    RepProduct(u, x, v, y, r.Mag(), z, ms.n0p);
  }

  /** The product of two numbers up to the modulus is below the modulus times R. */
  lemma SquareInRange(a: int, b: int, z: seq<word>)
    requires 0 <= a <= Val(z) && 0 <= b <= Val(z) && Val(z) > 0
    ensures 0 <= a * b < Shift(|z|, Val(z))
    ensures b < Shift(|z|, Val(z))
  {
    hide *;
    var n := Val(z);
    ValBound(z);
    ShiftMul(|z|, 1, n);
    ProductNonNegative(a, b);
    SquareNumbers(a, b, n, Shift(|z|, 1));
  }

  lemma SquareNumbers(a: int, b: int, n: int, r: int)
    requires 0 <= a <= n && 0 <= b <= n && 0 < n < r
    ensures a * b < r * n && b < r * n
  {
    MulOrder(b, a, n);
    MulOrder(n, b, n);
    SameOrder(n, n, r);
    MulOrder(n, 1, r);
    Swapped(n, b);
    Swapped(n, r);
  }
}
