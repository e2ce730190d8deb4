/**
  Modular exponentiation by a 4-bit window: bigpow and the odd-modulus path of bigPow in
  crypt/bigPow.c.
 */
module Power {
  import opened Words
  import opened LongMult
  import opened WordLoops
  import opened Karatsuba
  import opened Bignums
  import opened CoreMult
  import opened FastMult
  import opened BigMath
  import opened BigShift
  import opened LongDivide
  import opened Digits
  import opened Divide
  import opened LongDivision
  import opened Division
  import opened Montgomery

  /** b to the power e. */
  ghost function Pow(b: int, e: nat): int {
    if e == 0 then 1 else b * Pow(b, e - 1)
  }

  lemma {:induction false} PowAdd(b: int, d: nat, e: nat)
    ensures Pow(b, d + e) == Pow(b, d) * Pow(b, e)
  {
    if d > 0 {
      PowAdd(b, d - 1, e);
      MulAssociates(b, Pow(b, d - 1), Pow(b, e));
    }
  }

  lemma {:induction false} PowCong(x: int, y: int, e: nat, n: int)
    requires n > 0 && Cong(x, y, n)
    ensures Cong(Pow(x, e), Pow(y, e), n)
  {
    hide Cong;
    if e == 0 {
      CongRefl(1, n);
    } else {
      PowCong(x, y, e - 1, n);
      CongProduct(x, y, Pow(x, e - 1), Pow(y, e - 1), n);
    }
  }

  lemma {:induction false} PowZero(e: nat)
    ensures Pow(0, e) == if e == 0 then 1 else 0
  {
    if e > 0 {
      PowZero(e - 1);
    }
  }

  /** NIBBLE: four bits of a row of words. */
  function Nibble(w: word, i: nat): (r: nat)
    ensures r < 16
  {
    (w / Pow2(4 * (i % 8))) % 16
  }

  /** A number without its i low nibbles. */
  ghost function Above(z: seq<word>, i: nat): nat {
    AboveNonNegative(z, i);
    Val(z) / Pow2(4 * i)
  }

  lemma AboveNonNegative(z: seq<word>, i: nat)
    ensures Val(z) / Pow2(4 * i) >= 0
  {
    hide Val, Pow2;
    DivideWord(Val(z), Pow2(4 * i));
  }

  lemma Pow2Is16(n: nat)
    ensures Pow2(n + 4) == 16 * Pow2(n)
  {
    assert Pow2(n + 4) == 2 * Pow2(n + 3) && Pow2(n + 3) == 2 * Pow2(n + 2) && Pow2(n + 2) == 2 * Pow2(n + 1);
  }

  /** The words above nibble i start with the nibble. */
  lemma NibbleStep(z: seq<word>, i: nat)
    requires i < 8 * |z|
    ensures Above(z, i) == 16 * Above(z, i + 1) + Nibble(z[i / 8], i)
  {
    hide *;
    NibbleIs(z, i);
    AboveTwice(z, i);
    RemainderOf(Above(z, i), 16);
  }

  lemma AboveTwice(z: seq<word>, i: nat)
    ensures Above(z, i + 1) == Above(z, i) / 16
  {
    hide Val, Pow2;
    Pow2Is16(4 * i);
    assert 4 * (i + 1) == 4 * i + 4;
    QuotientTwice(Val(z), Pow2(4 * i), 16);
    Swapped(16, Pow2(4 * i));
  }

  lemma NibbleIs(z: seq<word>, i: nat)
    requires i < 8 * |z|
    ensures Above(z, i) % 16 == Nibble(z[i / 8], i)
  {
    hide Val, Pow2;
    var k, j := i / 8, i % 8;
    WordsOff(k, z);
    assert z[k..] == [z[k]] + z[k + 1..];
    ConsVal(z[k], z[k + 1..]);
    Pow2Add(32 * k, 4 * j);
    assert 4 * i == 32 * k + 4 * j;
    QuotientTwice(Val(z), Pow2(32 * k), Pow2(4 * j));
    LowNibble(z[k], Val(z[k + 1..]), j);
  }

  /** A nibble of the low word of a number is a nibble of the number. */
  lemma LowNibble(w: word, h: nat, j: nat)
    requires j < 8
    ensures ((w + B * h) / Pow2(4 * j)) % 16 == (w / Pow2(4 * j)) % 16
  {
    hide *;
    var p, q := Pow2(4 * j), Pow2(32 - 4 * j - 4);
    Pow2Is32();
    Pow2Add(4 * j, 32 - 4 * j);
    Pow2Is16(32 - 4 * j - 4);
    assert 32 - 4 * j - 4 + 4 == 32 - 4 * j;
    RemainderOf(w, p);
    MulAssociates(p, 16 * q, h);
    assert w + B * h == p * ((16 * q) * h) + (p * (w / p) + w % p);
    Distribute(p, (16 * q) * h, w / p);
    Swapped(p, w / p);
    QuotientIs(w + B * h, p, (16 * q) * h + w / p, w % p);
    MulAssociates(16, q, h);
    Swapped(16, q * h);
    CongBy((16 * q) * h + w / p, w / p, 16, q * h);
    CongMeans((16 * q) * h + w / p, w / p, 16);
  }

  lemma AboveEnds(z: seq<word>)
    ensures Above(z, 8 * |z|) == 0 && Above(z, 0) == Val(z)
  {
    hide Val, Shift;
    WordsOff(|z|, z);
    assert 4 * (8 * |z|) == 32 * |z|;
  }

  /** The first loop of bigpow: the highest nibble that is not zero. */
  method TopNibble(e: Bignum) returns (i: nat)
    requires e.Valid() && e.Mag() > 0
    ensures i < 8 * e.length && Above(e.Digits(), i + 1) == 0
  {
    hide Val, Nibble, Above;
    ghost var z := e.num[..e.length];
    AboveEnds(z);
    i := 8 * e.length - 1;
    while Nibble(e.num[i / 8], i) == 0
      invariant i < 8 * e.length && Above(z, i + 1) == 0
      decreases i
    {
      NibbleStep(z, i);
      assert z[i / 8] == e.num[i / 8];
      i := i - 1;
    }
  }

  /** Table entries 1..: powers of the base in residue form, apart from the modulus. */
  ghost predicate Chain(t: seq<Bignum>, base: int, N: Bignum, z: seq<word>)
    reads t, (set b | b in t :: b.num), N
  {
    forall i :: 1 <= i < |t| ==> Holds(t[i], Pow(base, i), z) && Separate(t[i], N)
  }

  /** Entries share nothing with b. */
  ghost predicate Clear(t: seq<Bignum>, b: Bignum)
    reads t, b
  {
    forall i :: 0 <= i < |t| ==> Separate(t[i], b)
  }

  /** The two cutoffs of multiplication, RECURSIONCUTOFF and SQRECCUTOFF. */
  datatype Cutoffs = Cutoffs(mult: nat, square: nat)

  ghost predicate Sane(c: Cutoffs) {
    PowerOfTwo(c.mult) && c.mult >= 2 && PowerOfTwo(c.square) && c.square >= 2
  }

  /** One more entry of the table: x times the entry before. */
  method NextEntry(x: Bignum, last: Bignum, ms: Mont, ghost base: int, ghost i: nat, ghost z: seq<word>, c: Cutoffs)
      returns (e: Bignum)
    requires Sane(c) && Modulus(ms, z) && i >= 2
    requires Holds(x, Pow(base, 1), z) && Holds(last, Pow(base, i - 1), z)
    requires Separate(x, last) && x != ms.N && last != ms.N
    modifies x`length, ms.N
    ensures fresh(e) && fresh(e.num) && Holds(e, Pow(base, i), z)
    ensures Modulus(ms, z) && Untouched(ms.N) && Holds(x, Pow(base, 1), z) && x.length == old(x.length)
  {
    hide Holds, Modulus;
    e := new Bignum(0);
    PowAdd(base, 1, i - 1);
    MontMultiply(x, last, e, ms, Pow(base, 1), Pow(base, i - 1), z, c.mult, c.square);
  }

  /** The entries hold the powers of the base from 1 on, and share nothing with x or the modulus. */
  ghost predicate Entries(t: seq<Bignum>, base: int, x: Bignum, N: Bignum, z: seq<word>)
    reads t, (set b | b in t :: b.num), x, N
  {
    Clear(t, x) && Clear(t, N) && forall i :: 1 <= i < |t| ==> Holds(t[i], Pow(base, i), z)
  }

  /** One turn of the table loop. */
  method AddEntry(t: seq<Bignum>, x: Bignum, ms: Mont, ghost base: int, ghost z: seq<word>, c: Cutoffs)
      returns (e: Bignum)
    requires Sane(c) && Modulus(ms, z) && |t| >= 2
    requires Holds(x, Pow(base, 1), z) && x != ms.N && Entries(t, base, x, ms.N, z)
    modifies x`length, ms.N
    ensures fresh(e) && fresh(e.num) && Entries(t + [e], base, x, ms.N, z)
    ensures Modulus(ms, z) && Untouched(ms.N) && Holds(x, Pow(base, 1), z)
  {
    hide Holds, Modulus, Pow;
    e := NextEntry(x, t[|t| - 1], ms, base, |t|, z, c);
    forall i | 1 <= i < |t|
      ensures Holds(t[i], Pow(base, i), z)
    {
    }
  }

  /** bigCopy of a number in residue form. */
  method CopyHeld(a: Bignum, b: Bignum, ghost x: int, ghost z: seq<word>)
    requires b.Valid() && Separate(a, b) && Holds(a, x, z)
    modifies b, b.num
    ensures b.Valid() && Holds(b, x, z) && (b.num == old(b.num) || fresh(b.num)) && b.length <= b.space
  {
    Copy(a, b);
  }

  /** Entries 0 and 1, and the residue form of the base. */
  method FirstEntries(a: Bignum, ms: Mont, ghost z: seq<word>) returns (x: Bignum, t: seq<Bignum>)
    requires Modulus(ms, z) && a.Valid() && a.NoLeadingZero() && a.sign == POS && Separate(a, ms.N)
    modifies ms.N, ms.N.num
    ensures |t| == 2 && Modulus(ms, z) && (ms.N.num == old(ms.N.num) || fresh(ms.N.num))
    ensures fresh(x) && fresh(x.num) && x != ms.N && Holds(x, Pow(old(a.Mag()), 1), z)
    ensures Entries(t, old(a.Mag()), x, ms.N, z)
    ensures forall i :: 0 <= i < |t| ==> fresh(t[i]) && fresh(t[i].num)
  {
    PowOne(a.Mag());
    hide Holds, Pow, Modulus, Val;
    ghost var base := a.Mag();
    x := ResForm(a, ms, z);
    var t0 := new Bignum(1);
    var t1 := new Bignum(0);
    CopyHeld(x, t1, Pow(base, 1), z);
    t := [t0, t1];
  }

  /** buildAddChainTable: the residue forms of the powers 1 to 15 of a; entry 0 is not used. */
  method BuildAddChainTable(a: Bignum, ms: Mont, ghost z: seq<word>, c: Cutoffs) returns (t: seq<Bignum>)
    requires Sane(c) && Modulus(ms, z) && a.Valid() && a.NoLeadingZero() && a.sign == POS && Separate(a, ms.N)
    modifies ms.N, ms.N.num
    ensures |t| == 16 && Modulus(ms, z) && (ms.N.num == old(ms.N.num) || fresh(ms.N.num))
    ensures Chain(t, old(a.Mag()), ms.N, z) && Clear(t, ms.N)
    ensures forall i :: 0 <= i < |t| ==> fresh(t[i]) && fresh(t[i].num)
  {
    ghost var base := a.Mag();
    var x;
    x, t := FirstEntries(a, ms, z);
    hide Holds, Modulus, Pow, Val;
    while |t| < 16
      invariant 2 <= |t| <= 16 && Modulus(ms, z) && (ms.N.num == old(ms.N.num) || fresh(ms.N.num))
      invariant fresh(x) && x != ms.N && Holds(x, Pow(base, 1), z)
      invariant forall i :: 0 <= i < |t| ==> fresh(t[i]) && fresh(t[i].num)
      invariant Entries(t, base, x, ms.N, z)
    {
      var e := AddEntry(t, x, ms, base, z, c);
      t := t + [e];
    }
  }

  lemma PowOne(base: int)
    ensures Pow(base, 1) == base && Pow(base, 0) == 1
  {
  }

  /** The working records of bigpow: apart from each other, the table and the modulus. */
  ghost predicate Workspace(t: seq<Bignum>, d: Bignum, result: Bignum, N: Bignum)
    reads t, d, result, N
  {
    Clear(t, d) && Clear(t, result) && Clear(t, N) && Separate(d, result) && Separate(d, N) && Separate(result, N)
  }

  /** Before a nibble: d holds the power to 16 times the digits read so far. */
  ghost predicate BeforeNibble(t: seq<Bignum>, d: Bignum, result: Bignum, base: int, u: nat, ms: Mont, z: seq<word>)
    reads t, (set b | b in t :: b.num), d, d.num, result, ms.N, ms.N.num
  {
    && |t| == 16 && Modulus(ms, z) && Chain(t, base, ms.N, z) && Workspace(t, d, result, ms.N)
    && Holds(d, Pow(base, 16 * u), z) && result.Valid()
  }

  /** After a nibble: result holds the power to the digits read so far. */
  ghost predicate AfterNibble(t: seq<Bignum>, d: Bignum, result: Bignum, base: int, u: nat, ms: Mont, z: seq<word>)
    reads t, (set b | b in t :: b.num), d, result, result.num, ms.N, ms.N.num
  {
    && |t| == 16 && Modulus(ms, z) && Chain(t, base, ms.N, z) && Workspace(t, d, result, ms.N)
    && Holds(result, Pow(base, u), z) && d.Valid() && result.length <= result.space
  }

  /** One nibble of the exponent: the running power times the entry for the nibble. */
  method WindowStep(t: seq<Bignum>, nib: nat, entry: Bignum, d: Bignum, result: Bignum, ms: Mont, ghost base: int,
      ghost u: nat, ghost z: seq<word>, c: Cutoffs)
    requires Sane(c) && |t| == 16 && nib < 16 && entry == t[nib] && BeforeNibble(t, d, result, base, u, ms, z)
    modifies result, result.num, entry`length, ms.N
    ensures AfterNibble(t, d, result, base, 16 * u + nib, ms, z)
    ensures ms.N.num == old(ms.N.num) && d.num == old(d.num) && (result.num == old(result.num) || fresh(result.num))
  {
    PowAdd(base, nib, 16 * u);
    if nib != 0 {
      hide Holds, Modulus, Pow;
      MontMultiply(entry, d, result, ms, Pow(base, nib), Pow(base, 16 * u), z, c.mult, c.square);
    } else {
      hide Modulus, Pow, Rep;
      Copy(d, result);
    }
  }

  /** Squares one record into another. */
  method SquareInto(a: Bignum, r: Bignum, ms: Mont, ghost base: int, ghost u: nat, ghost z: seq<word>, c: Cutoffs)
    requires Sane(c) && Modulus(ms, z) && Holds(a, Pow(base, u), z) && r.Valid()
    requires Separate(a, r) && Separate(a, ms.N) && Separate(r, ms.N)
    modifies r, r.num, a`length, ms.N
    ensures Modulus(ms, z) && Untouched(ms.N) && a.Valid() && r.Valid() && Separate(a, r) && Separate(r, ms.N)
    ensures Holds(r, Pow(base, 2 * u), z) && (r.num == old(r.num) || fresh(r.num))
  {
    PowAdd(base, u, u);
    hide Modulus, Pow, Rep;
    MontMultiply(a, a, r, ms, Pow(base, u), Pow(base, u), z, c.mult, c.square);
  }

  /** The four squarings between nibbles. */
  method FourSquares(d: Bignum, result: Bignum, ms: Mont, ghost base: int, ghost u: nat, ghost z: seq<word>, c: Cutoffs)
    requires Sane(c) && Modulus(ms, z) && Holds(result, Pow(base, u), z) && d.Valid()
    requires Separate(d, result) && Separate(d, ms.N) && Separate(result, ms.N)
    modifies d, d.num, result, result.num, ms.N
    ensures Modulus(ms, z) && Untouched(ms.N) && result.Valid() && d.Valid() && Holds(d, Pow(base, 16 * u), z)
    ensures Separate(d, result) && Separate(d, ms.N) && Separate(result, ms.N)
    ensures d.num == old(d.num) || fresh(d.num)
    ensures result.num == old(result.num) || fresh(result.num)
  {
    hide Holds, Modulus, Pow;
    SquareInto(result, d, ms, base, u, z, c);
    SquareInto(d, result, ms, base, 2 * u, z, c);
    SquareInto(result, d, ms, base, 4 * u, z, c);
    SquareInto(d, result, ms, base, 8 * u, z, c);
    CopyHeld(result, d, Pow(base, 16 * u), z);
  }

  /** The squarings leave the table alone. */
  method FourSquarings(t: seq<Bignum>, d: Bignum, result: Bignum, ms: Mont, ghost base: int, ghost u: nat,
      ghost z: seq<word>, c: Cutoffs)
    requires Sane(c) && AfterNibble(t, d, result, base, u, ms, z)
    modifies d, d.num, result, result.num, ms.N
    ensures BeforeNibble(t, d, result, base, u, ms, z) && ms.N.num == old(ms.N.num)
    ensures d.num == old(d.num) || fresh(d.num)
    ensures result.num == old(result.num) || fresh(result.num)
  {
    hide Holds, Modulus, Pow;
    FourSquares(d, result, ms, base, u, z, c);
  }

  /** Base and exponent may be the modulus. */
  ghost predicate Alongside(exp: Bignum, N: Bignum)
    reads exp, N
  {
    exp == N || Separate(exp, N)
  }

  /** One turn of the window loop: the nibble of the exponent at i. */
  method Window(t: seq<Bignum>, exp: Bignum, i: nat, d: Bignum, result: Bignum, ms: Mont, ghost base: int,
      ghost z: seq<word>, c: Cutoffs)
    requires Sane(c) && |t| == 16 && exp.Valid() && i < 8 * exp.length
    requires BeforeNibble(t, d, result, base, Above(exp.Digits(), i + 1), ms, z)
    requires Separate(exp, result) && Alongside(exp, ms.N) && exp !in t
    modifies result, result.num, t, ms.N
    ensures exp.Valid() && exp.Digits() == old(exp.Digits())
    ensures AfterNibble(t, d, result, base, Above(exp.Digits(), i), ms, z)
    ensures ms.N.num == old(ms.N.num) && d.num == old(d.num) && (result.num == old(result.num) || fresh(result.num))
  {
    hide Nibble, Above, Val, Sane, BeforeNibble, AfterNibble;
    ghost var e := exp.Digits();
    NibbleStep(e, i);
    assert e[i / 8] == exp.num[i / 8];
    var nib := Nibble(exp.num[i / 8], i);
    BeforeModulus(t, d, result, base, Above(e, i + 1), ms, z);
    WindowStep(t, nib, t[nib], d, result, ms, base, Above(e, i + 1), z, c);
    AfterModulus(t, d, result, base, Above(e, i), ms, z);
  }

  /** The modulus denotes the same number before and after, so that it may serve as exponent. */
  lemma BeforeModulus(t: seq<Bignum>, d: Bignum, result: Bignum, base: int, u: nat, ms: Mont, z: seq<word>)
    requires BeforeNibble(t, d, result, base, u, ms, z)
    ensures ms.N.Valid() && ms.N.Digits() == z
  {
  }

  lemma AfterModulus(t: seq<Bignum>, d: Bignum, result: Bignum, base: int, u: nat, ms: Mont, z: seq<word>)
    requires AfterNibble(t, d, result, base, u, ms, z)
    ensures ms.N.Valid() && ms.N.Digits() == z
  {
  }

  /** A turn with the squarings that come before the next one. */
  method Turn(t: seq<Bignum>, exp: Bignum, i: nat, d: Bignum, result: Bignum, ms: Mont, ghost base: int,
      ghost z: seq<word>, c: Cutoffs)
    requires Sane(c) && |t| == 16 && exp.Valid() && 0 < i < 8 * exp.length
    requires BeforeNibble(t, d, result, base, Above(exp.Digits(), i + 1), ms, z)
    requires Separate(exp, d) && Separate(exp, result) && Alongside(exp, ms.N) && exp !in t
    modifies d, d.num, result, result.num, t, ms.N
    ensures exp.Valid() && exp.Digits() == old(exp.Digits())
    ensures BeforeNibble(t, d, result, base, Above(exp.Digits(), i), ms, z) && ms.N.num == old(ms.N.num)
    ensures (d.num == old(d.num) || fresh(d.num)) && (result.num == old(result.num) || fresh(result.num))
  {
    hide Nibble, Above, Val, Sane, BeforeNibble, AfterNibble;
    ghost var e := exp.Digits();
    Window(t, exp, i, d, result, ms, base, z, c);
    AfterModulus(t, d, result, base, Above(e, i), ms, z);
    FourSquarings(t, d, result, ms, base, Above(e, i), z, c);
    BeforeModulus(t, d, result, base, Above(e, i), ms, z);
  }

  /** The window loop of bigpow, which is left in the middle of its last turn. */
  method Windows(t: seq<Bignum>, exp: Bignum, top: nat, d: Bignum, result: Bignum, ms: Mont, ghost base: int,
      ghost z: seq<word>, c: Cutoffs)
    requires Sane(c) && |t| == 16 && BeforeNibble(t, d, result, base, 0, ms, z)
    requires exp.Valid() && Separate(exp, d) && Separate(exp, result) && Alongside(exp, ms.N) && exp !in t
    requires top < 8 * exp.length && Above(exp.Digits(), top + 1) == 0
    modifies d, d.num, result, result.num, t, ms.N
    ensures exp.Valid() && AfterNibble(t, d, result, base, exp.Mag(), ms, z)
    ensures ms.N.num == old(ms.N.num) && (result.num == old(result.num) || fresh(result.num))
  {
    ghost var e := exp.Digits();
    AboveEnds(e);
    assert |e| == exp.length;
    hide *;
    var i: nat := top;
    while i > 0
      invariant ms.N.num == old(ms.N.num)
      invariant d.num == old(d.num) || fresh(d.num)
      invariant result.num == old(result.num) || fresh(result.num)
      invariant exp.Valid() && exp.Digits() == e && i < 8 * |e|
      invariant BeforeNibble(t, d, result, base, Above(e, i + 1), ms, z)
    {
      Turn(t, exp, i, d, result, ms, base, z, c);
      i := i - 1;
    }
    Window(t, exp, 0, d, result, ms, base, z, c);
  }

  /** The last reduction of an exponentiation takes the result out of residue form. */
  method TakeOut(result: Bignum, ms: Mont, ghost x: int, ghost z: seq<word>)
    requires Modulus(ms, z) && Holds(result, x, z) && result.length <= result.space && Separate(result, ms.N)
    modifies result, result.num, ms.N
    ensures Modulus(ms, z) && Untouched(ms.N)
    ensures result.Valid() && result.Trimmed() && result.sign == POS && Val(z) > 0 && result.Mag() <= Val(z)
    ensures Cong(result.Mag(), x, Val(z))
  {
    LowInverse(z, ms.n0p);
    hide Val, Shift, Cong, Rep;
    SquareInRange(result.Mag(), result.Mag(), z);
    ghost var v := result.Mag();
    REDC(result, ms, z);
    RepOut(result.Mag(), v, x, z, ms.n0p);
  }

  /** The table of powers, and one in residue form. */
  method StartPower(a: Bignum, ms: Mont, result: Bignum, ghost z: seq<word>, c: Cutoffs)
      returns (t: seq<Bignum>, d: Bignum)
    requires Sane(c) && Modulus(ms, z) && a.Valid() && a.NoLeadingZero() && a.sign == POS && Separate(a, ms.N)
    requires result.Valid() && Separate(result, ms.N)
    modifies ms.N, ms.N.num
    ensures |t| == 16 && BeforeNibble(t, d, result, old(a.Mag()), 0, ms, z)
    ensures ms.N.Valid() && ms.N.Digits() == z && ms.N.sign == POS && (ms.N.num == old(ms.N.num) || fresh(ms.N.num))
    ensures fresh(d) && fresh(d.num) && forall i :: 0 <= i < |t| ==> fresh(t[i]) && fresh(t[i].num)
  {
    hide Val, Shift, Cong, Rep, Pow;
    ghost var base := a.Mag();
    t := BuildAddChainTable(a, ms, z, c);
    d := ResidueOne(ms, base, z);
  }

  /** The part of bigpow after its two early returns. */
  method PowerLoop(a: Bignum, exp: Bignum, modulus: Bignum, result: Bignum, ghost z: seq<word>, c: Cutoffs)
    requires Sane(c) && a.Valid() && a.NoLeadingZero() && a.sign == POS && Separate(a, modulus)
    requires exp.Valid() && exp.Mag() > 0 && Alongside(exp, modulus) && Separate(exp, result)
    requires modulus.Valid() && modulus.sign == POS && modulus.Digits() == z && OddRow(z)
    requires result.Valid() && Separate(result, modulus)
    modifies result, result.num, modulus, modulus.num
    ensures modulus.Valid() && modulus.sign == POS && modulus.Digits() == z
    ensures result.Valid() && result.Trimmed() && result.sign == POS && Val(z) > 0 && result.Mag() <= Val(z)
    ensures Cong(result.Mag(), Pow(old(a.Mag()), exp.Mag()), Val(z))
  {
    hide Val, Shift, Cong, Rep, Pow, Above;
    ghost var base := a.Mag();
    var ms := MontSet(modulus);
    var at, d := StartPower(a, ms, result, z, c);
    assert exp.Valid() && exp.Mag() > 0;
    var top := TopNibble(exp);
    Windows(at, exp, top, d, result, ms, base, z, c);
    TakeOut(result, ms, Pow(base, exp.Mag()), z);
  }

  method ResidueOne(ms: Mont, ghost base: int, ghost z: seq<word>) returns (d: Bignum)
    requires Modulus(ms, z)
    modifies ms.N, ms.N.num
    ensures fresh(d) && fresh(d.num) && Separate(d, ms.N) && Modulus(ms, z)
      && (ms.N.num == old(ms.N.num) || fresh(ms.N.num))
    ensures Holds(d, Pow(base, 0), z)
  {
    hide Val, Rep;
    PowOne(base);
    var one := new Bignum(1);
    d := ResForm(one, ms, z);
  }

  /**
    bigpow: the result is the power up to the modulus, except that it takes zero to the power
    zero to be zero.
   */
  method Bigpow(a: Bignum, exp: Bignum, modulus: Bignum, result: Bignum, c: Cutoffs)
    requires Sane(c) && a.Valid() && a.NoLeadingZero() && a.sign == POS && Separate(a, modulus)
    requires exp.Valid() && exp.NoLeadingZero() && Alongside(exp, modulus) && Separate(exp, result)
    requires modulus.Valid() && modulus.sign == POS && OddRow(modulus.Digits())
    requires result.Valid() && Separate(result, modulus)
    modifies result, result.num, modulus, modulus.num
    ensures modulus.Valid() && modulus.sign == POS && modulus.Digits() == old(modulus.Digits())
    ensures result.Valid() && result.Trimmed() && result.sign == POS && modulus.Mag() > 0
      && result.Mag() <= modulus.Mag()
    ensures Cong(result.Mag(), Pow(old(a.Mag()), exp.Mag()), modulus.Mag()) <==> !(old(a.Mag()) == 0 && exp.Mag() == 0)
  {
    ghost var z, base, e := modulus.Digits(), a.Mag(), exp.Mag();
    ZeroMag(a);
    ZeroMag(exp);
    LongRow(z);
    hide Val, Shift, Pow, Cong;
    ZeroRow(a);
    ZeroRow(exp);
    PowZero(e);
    PowOne(base);
    SmallCong(Val(z));
    if a.length == 1 && a.num[0] == 0 {
      result.Reset(0);
      return;
    } else if exp.length == 1 && exp.num[0] == 0 {
      result.Reset(1);
      return;
    }
    PowerLoop(a, exp, modulus, result, z, c);
  }

  lemma LongRow(z: seq<word>)
    requires OddRow(z)
    ensures Val(z) > 1
  {
    TopWord(z);
    ShiftGrows(1, |z| - 1);
    OneWord();
  }

  lemma ZeroRow(a: Bignum)
    requires a.Valid() && a.NoLeadingZero()
    ensures a.length == 1 && a.num[0] == 0 <==> a.Mag() == 0
  {
    ZeroMag(a);
    if a.length > 1 {
      TopWord(a.num[..a.length]);
    }
  }

  lemma SmallCong(n: int)
    requires n > 1
    ensures !Cong(0, 1, n) && Cong(0, 0, n) && Cong(1, 1, n)
  {
    if Cong(0, 1, n) {
      var k := CongIs(0, 1, n);
      MulOrder(n, if k >= 0 then 0 else k, if k >= 0 then k else -1);
    }
  }

  /** The base bigPow works with: reduced only when it is above the modulus. */
  ghost function StartBase(m: nat, n: nat): nat
    requires n > 0
  {
    if m > n then Reduced(m, n) else m
  }

  /**
    bigPow with an odd modulus, which base and exponent may be, or one another: the result is the
    power up to the modulus, unless the exponent is zero and the base it starts from is.
   */
  method BigPow(m: Bignum, exp: Bignum, modulus: Bignum, result: Bignum, c: Cutoffs)
    requires Sane(c) && m.Valid() && m.NoLeadingZero() && m.sign == POS && Alongside(m, modulus)
    requires exp.Valid() && exp.NoLeadingZero() && Alongside(exp, modulus) && Separate(exp, result)
    requires modulus.Valid() && modulus.sign == POS && OddRow(modulus.Digits())
    requires result.Valid() && Separate(result, modulus)
    modifies m, result, result.num, modulus, modulus.num
    ensures modulus.Valid() && modulus.sign == POS && modulus.Digits() == old(modulus.Digits())
    ensures result.Valid() && result.Trimmed() && result.sign == POS && modulus.Mag() > 0
      && result.Mag() <= modulus.Mag()
    ensures Cong(result.Mag(), Pow(old(m.Mag()), old(exp.Mag())), modulus.Mag())
       <==> !(StartBase(old(m.Mag()), modulus.Mag()) == 0 && old(exp.Mag()) == 0)
  {
    ghost var z, v, e := modulus.Digits(), m.Mag(), exp.Mag();
    LongRow(z);
    hide Val, Shift, Pow, Cong, Reduced, Moved;
    var newm := ReduceBase(m, modulus, z);
    ghost var n, base := Val(z), newm.Mag();
    StartCong(v, base, e, n);
    Bigpow(newm, exp, modulus, result, c);
    TransferCong(result.Mag(), Pow(base, e), Pow(v, e), n);
  }

  /** Congruence to one of two congruent numbers is congruence to the other. */
  lemma TransferCong(r: int, x: int, y: int, n: int)
    requires n > 0 && Cong(x, y, n)
    ensures Cong(r, x, n) <==> Cong(r, y, n)
  {
    hide Cong;
    CongSym(x, y, n);
    if Cong(r, x, n) {
      CongTrans(r, x, y, n);
    }
    if Cong(r, y, n) {
      CongTrans(r, y, x, n);
    }
  }

  lemma StartCong(v: nat, base: nat, e: nat, n: int)
    requires n > 0 && base == StartBase(v, n)
    ensures Cong(Pow(base, e), Pow(v, e), n)
  {
    hide Pow, Reduced, Moved;
    ReducedCongruent(v, n);
    CongMeans(base, v, n);
    PowCong(base, v, e, n);
  }

  /** The first step of bigPow: a copy of the base, reduced if it is above the modulus. */
  method ReduceBase(m: Bignum, modulus: Bignum, ghost z: seq<word>) returns (newm: Bignum)
    requires m.Valid() && m.NoLeadingZero() && m.sign == POS && Alongside(m, modulus)
    requires modulus.Valid() && modulus.sign == POS && modulus.Digits() == z && OddRow(z) && Val(z) > 0
    modifies m, modulus, modulus.num
    ensures fresh(newm) && fresh(newm.num) && newm.Valid() && newm.NoLeadingZero() && newm.sign == POS
    ensures Separate(newm, modulus) && modulus.Valid() && modulus.sign == POS && modulus.Digits() == z
    ensures modulus.num == old(modulus.num) || fresh(modulus.num)
    ensures m.Valid() && m.NoLeadingZero() && m.Mag() == old(m.Mag())
    ensures m != modulus ==> m.num == old(m.num)
    ensures newm.Mag() == StartBase(old(m.Mag()), Val(z))
  {
    LongRow(z);
    hide Val, Shift, Reduced, Moved;
    newm := new Bignum(0);
    var order := Compare(m, modulus);
    if order > 0 {
      BigMod(m, modulus, newm);
    } else {
      Copy(m, newm);
    }
  }
}
