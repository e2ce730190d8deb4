/**
  Fixed-base exponentiation by a comb of 4-bit digits: g16_bigpow, buildCoeffTable and
  brickell_bigpow of crypt/brickell_bigpow.c.
 */
module Brickell {
  import opened Words
  import opened LongMult
  import opened WordLoops
  import opened Karatsuba
  import opened Bignums
  import opened CoreMult
  import opened FastMult
  import opened BigMath
  import opened BigShift
  import opened LongDivide
  import opened Digits
  import opened Divide
  import opened LongDivision
  import opened Division
  import opened Montgomery
  import opened Power

  /** 16 to the power i. */
  ghost function Sixteen(i: nat): (p: nat)
    ensures p >= 1
  {
    if i == 0 then 1 else 16 * Sixteen(i - 1)
  }

  ghost function NibbleAt(e: seq<word>, i: nat): (r: nat)
    requires i < 8 * |e|
    ensures r < 16
  {
    Nibble(e[i / 8], i)
  }

  /** The places from i up to n whose nibble is j, as one exponent. */
  ghost function Slot(e: seq<word>, n: nat, j: nat, i: nat): nat
    requires i <= n <= 8 * |e|
    decreases n - i
  {
    if i == n then 0 else (if NibbleAt(e, i) == j then Sixteen(i) else 0) + Slot(e, n, j, i + 1)
  }

  /** The slots of the nibbles from k to 15 together. */
  ghost function Run(e: seq<word>, n: nat, i: nat, k: nat): nat
    requires i <= n <= 8 * |e| && k <= 16
    decreases 16 - k
  {
    if k == 16 then 0 else Slot(e, n, k, i) + Run(e, n, i, k + 1)
  }

  /** The runs from k to 15 together: each slot counts as often as its nibble is above k - 1. */
  ghost function Weighted(e: seq<word>, n: nat, i: nat, k: nat): nat
    requires i <= n <= 8 * |e| && k <= 16
    decreases 16 - k
  {
    if k == 16 then 0 else Run(e, n, i, k) + Weighted(e, n, i, k + 1)
  }

  lemma {:induction false} RunStep(e: seq<word>, n: nat, i: nat, k: nat)
    requires i < n <= 8 * |e| && k <= 16
    ensures Run(e, n, i, k) == Run(e, n, i + 1, k) + (if k <= NibbleAt(e, i) then Sixteen(i) else 0)
    decreases 16 - k
  {
    hide NibbleAt, Sixteen;
    if k < 16 {
      RunStep(e, n, i, k + 1);
    }
  }

  lemma {:induction false} WeightedStep(e: seq<word>, n: nat, i: nat, k: nat)
    requires i < n <= 8 * |e| && k <= 16
    ensures Weighted(e, n, i, k)
         == Weighted(e, n, i + 1, k) + (if k <= NibbleAt(e, i) then (NibbleAt(e, i) - k + 1) * Sixteen(i) else 0)
    decreases 16 - k
  {
    hide NibbleAt, Sixteen, Run;
    if k < 16 {
      WeightedStep(e, n, i, k + 1);
      RunStep(e, n, i, k);
      if k <= NibbleAt(e, i) {
        SumScaled(NibbleAt(e, i) - k, 1, Sixteen(i));
      }
    }
  }

  lemma {:induction false} NothingLeft(e: seq<word>, n: nat, k: nat)
    requires n <= 8 * |e| && k <= 16
    ensures Run(e, n, n, k) == 0 && Weighted(e, n, n, k) == 0
    decreases 16 - k
  {
    if k < 16 {
      NothingLeft(e, n, k + 1);
    }
  }

  /** The weighted slots are the digits of the exponent from place i up to n, each at its place. */
  lemma {:induction false} WeightedIs(e: seq<word>, n: nat, i: nat)
    requires i <= n <= 8 * |e|
    ensures Weighted(e, n, i, 1) + Sixteen(n) * Above(e, n) == Sixteen(i) * Above(e, i)
    decreases n - i
  {
    hide Weighted, Above, NibbleAt;
    if i == n {
      NothingLeft(e, n, 1);
    } else {
      WeightedIs(e, n, i + 1);
      WeightedStep(e, n, i, 1);
      AboveStep(e, i);
      var a, d, p := Above(e, i + 1), NibbleAt(e, i), Sixteen(i);
      assert Sixteen(i + 1) == 16 * p;
      MulAssociates(p, 16, a);
      Distribute(p, 16 * a, d);
      Swapped(p, d);
      Swapped(p, 16);
    }
  }

  lemma AboveStep(e: seq<word>, i: nat)
    requires i < 8 * |e|
    ensures Above(e, i) == 16 * Above(e, i + 1) + NibbleAt(e, i)
  {
    hide Above, Nibble;
    NibbleStep(e, i);
  }

  /** What the comb raises the base to: the n low digits of the exponent's words. */
  lemma WholeExponent(e: seq<word>, n: nat)
    requires n <= 8 * |e|
    ensures Weighted(e, n, 0, 1) == Val(e) % Sixteen(n)
  {
    hide Weighted, Above, Val, Sixteen;
    WeightedIs(e, n, 0);
    AboveEnds(e);
    SixteenZero();
    SixteenPow2(n);
    AboveQuotient(e, n);
    RemainderOf(Val(e), Sixteen(n));
  }

  lemma SixteenZero()
    ensures Sixteen(0) == 1
  {
  }

  lemma {:induction false} SixteenPow2(i: nat)
    ensures Sixteen(i) == Pow2(4 * i)
  {
    hide Pow2;
    if i > 0 {
      SixteenPow2(i - 1);
      Pow2Is16(4 * (i - 1));
      assert 4 * (i - 1) + 4 == 4 * i;
    } else {
      Pow2Values();
    }
  }

  lemma AboveQuotient(e: seq<word>, n: nat)
    ensures Above(e, n) == Val(e) / Pow2(4 * n)
  {
  }

  /** A table of the powers of the base to the powers of 16, in residue form. */
  ghost predicate G16(t: seq<Bignum>, base: int, N: Bignum, z: seq<word>)
    reads t, (set b | b in t :: b.num), N
  {
    forall i :: 0 <= i < |t| ==> Holds(t[i], Pow(base, Sixteen(i)), z) && Separate(t[i], N)
  }

  /** Four squarings of c by way of d, and a copy of what they leave in c. */
  method NextSixteenth(c: Bignum, d: Bignum, ms: Mont, ghost base: int, ghost u: nat, ghost z: seq<word>, cut: Cutoffs)
      returns (e: Bignum)
    requires Sane(cut) && Modulus(ms, z) && Holds(c, Pow(base, u), z) && d.Valid()
    requires Separate(c, d) && Separate(c, ms.N) && Separate(d, ms.N)
    modifies c, c.num, d, d.num, ms.N
    ensures Modulus(ms, z) && Untouched(ms.N) && d.Valid() && Separate(c, d) && Separate(c, ms.N) && Separate(d, ms.N)
    ensures c.num == old(c.num) || fresh(c.num)
    ensures d.num == old(d.num) || fresh(d.num)
    ensures Holds(c, Pow(base, 16 * u), z)
    ensures fresh(e) && fresh(e.num) && Holds(e, Pow(base, 16 * u), z) && Separate(e, c) && Separate(e, d)
      && Separate(e, ms.N)
  {
    hide Holds, Modulus, Pow;
    SquareInto(c, d, ms, base, u, z, cut);
    SquareInto(d, c, ms, base, 2 * u, z, cut);
    SquareInto(c, d, ms, base, 4 * u, z, cut);
    SquareInto(d, c, ms, base, 8 * u, z, cut);
    e := new Bignum(0);
    CopyHeld(c, e, Pow(base, 16 * u), z);
  }

  /** The state of g16_bigpow's loop. */
  ghost predicate Growing(t: seq<Bignum>, c: Bignum, d: Bignum, base: int, ms: Mont, z: seq<word>)
    reads t, (set b | b in t :: b.num), c, c.num, d, ms.N, ms.N.num
  {
    && |t| >= 1 && Modulus(ms, z) && G16(t, base, ms.N, z) && Clear(t, c) && Clear(t, d)
    && Holds(c, Pow(base, Sixteen(|t| - 1)), z) && d.Valid()
    && Separate(c, d) && Separate(c, ms.N) && Separate(d, ms.N)
  }

  method GrowTable(t: seq<Bignum>, c: Bignum, d: Bignum, ghost base: int, ms: Mont, ghost z: seq<word>, cut: Cutoffs)
      returns (e: Bignum)
    requires Sane(cut) && Growing(t, c, d, base, ms, z)
    modifies c, c.num, d, d.num, ms.N
    ensures fresh(e) && fresh(e.num) && Growing(t + [e], c, d, base, ms, z) && Untouched(ms.N)
    ensures c.num == old(c.num) || fresh(c.num)
    ensures d.num == old(d.num) || fresh(d.num)
  {
    hide Holds, Modulus, Pow;
    assert Sixteen(|t|) == 16 * Sixteen(|t| - 1);
    e := NextSixteenth(c, d, ms, base, Sixteen(|t| - 1), z, cut);
  }

  /** The first entry of the table and the two working records. */
  method StartTable(a: Bignum, ms: Mont, ghost z: seq<word>) returns (t: seq<Bignum>, c: Bignum, d: Bignum)
    requires a.Valid() && a.NoLeadingZero() && a.sign == POS && Separate(a, ms.N) && Modulus(ms, z)
    modifies ms.N, ms.N.num
    ensures |t| == 1 && Growing(t, c, d, old(a.Mag()), ms, z)
    ensures fresh(c) && fresh(c.num) && fresh(d) && fresh(d.num) && fresh(t[0]) && fresh(t[0].num)
  {
    ghost var base := a.Mag();
    hide Holds, Pow, Val;
    c := ResForm(a, ms, z);
    var t0 := new Bignum(0);
    CopyHeld(c, t0, base, z);
    t := [t0];
    d := new Bignum(0);
    FirstOfTable(t, c, d, base, ms, z);
  }

  /** g16_bigpow's loop. */
  method GrowAll(t0: seq<Bignum>, c: Bignum, d: Bignum, explength: nat, ms: Mont, ghost base: int, ghost z: seq<word>,
      cut: Cutoffs) returns (t: seq<Bignum>)
    requires Sane(cut) && 1 <= |t0| <= explength && Growing(t0, c, d, base, ms, z)
    modifies c, c.num, d, d.num, ms.N
    ensures |t| == explength && t0 <= t && Growing(t, c, d, base, ms, z)
    ensures forall i :: |t0| <= i < |t| ==> fresh(t[i]) && fresh(t[i].num)
  {
    hide Growing;
    t := t0;
    while |t| < explength
      invariant |t0| <= |t| <= explength && t0 <= t && Growing(t, c, d, base, ms, z)
      invariant c.num == old(c.num) || fresh(c.num)
      invariant d.num == old(d.num) || fresh(d.num)
      invariant forall i :: |t0| <= i < |t| ==> fresh(t[i]) && fresh(t[i].num)
    {
      var e := GrowTable(t, c, d, base, ms, z, cut);
      t := t + [e];
    }
  }

  /** g16_bigpow: a table of a to the powers of 16. */
  method G16Bigpow(a: Bignum, modulus: Bignum, explength: nat, cut: Cutoffs) returns (t: seq<Bignum>)
    requires Sane(cut) && a.Valid() && a.NoLeadingZero() && a.sign == POS && Separate(a, modulus)
    requires modulus.Valid() && modulus.sign == POS && OddRow(modulus.Digits()) && explength >= 1
    modifies modulus, modulus.num
    ensures modulus.Valid() && modulus.sign == POS && modulus.Digits() == old(modulus.Digits())
    ensures |t| == explength && G16(t, old(a.Mag()), modulus, modulus.Digits())
    ensures forall i :: 0 <= i < |t| ==> fresh(t[i])
  {
    ghost var z, base := modulus.Digits(), a.Mag();
    hide Val, Growing;
    var ms := MontSet(modulus);
    var c, d;
    t, c, d := StartTable(a, ms, z);
    t := GrowAll(t, c, d, explength, ms, base, z, cut);
    Grown(t, c, d, base, ms, z);
  }

  lemma FirstOfTable(t: seq<Bignum>, c: Bignum, d: Bignum, base: int, ms: Mont, z: seq<word>)
    requires |t| == 1 && Modulus(ms, z) && Holds(t[0], base, z) && Separate(t[0], ms.N)
    requires Clear(t, c) && Clear(t, d) && Holds(c, base, z) && d.Valid()
    requires Separate(c, d) && Separate(c, ms.N) && Separate(d, ms.N)
    ensures Growing(t, c, d, base, ms, z)
  {
    hide Holds;
    PowOne(base);
  }

  lemma Grown(t: seq<Bignum>, c: Bignum, d: Bignum, base: int, ms: Mont, z: seq<word>)
    requires Growing(t, c, d, base, ms, z)
    ensures Modulus(ms, z) && G16(t, base, ms.N, z)
  {
  }

  /** Multiplies a table entry into a running product by way of tmp. */
  method Fold(entry: Bignum, acc: Bignum, tmp: Bignum, ms: Mont, ghost base: int, ghost u: nat, ghost v: nat,
      ghost z: seq<word>, cut: Cutoffs)
    requires Sane(cut) && Modulus(ms, z) && Holds(entry, Pow(base, u), z) && Holds(acc, Pow(base, v), z) && tmp.Valid()
    requires Separate(entry, acc) && Separate(entry, tmp) && Separate(acc, tmp)
    requires entry != ms.N && Separate(acc, ms.N) && Separate(tmp, ms.N)
    modifies acc, acc.num, tmp, tmp.num, entry`length, ms.N
    ensures Modulus(ms, z) && Untouched(ms.N) && Holds(entry, Pow(base, u), z) && Holds(acc, Pow(base, u + v), z)
      && tmp.Valid()
    ensures acc.Valid() && Separate(entry, acc) && Separate(entry, tmp) && Separate(acc, tmp) && Separate(acc, ms.N)
      && Separate(tmp, ms.N)
    ensures acc.num == old(acc.num) || fresh(acc.num)
    ensures tmp.num == old(tmp.num) || fresh(tmp.num)
    ensures acc.length <= acc.space && entry.length == old(entry.length)
  {
    PowAdd(base, u, v);
    hide Modulus, Pow, Rep;
    MontMultiply(entry, acc, tmp, ms, Pow(base, u), Pow(base, v), z, cut.mult, cut.square);
    CopyHeld(tmp, acc, Pow(base, u + v), z);
  }

  /** The inner loop of buildCoeffTable in progress: acc is the product of the entries chosen so far. */
  ghost predicate Choosing(t: seq<Bignum>, acc: Bignum, tmp: Bignum, base: int, u: nat, ms: Mont, z: seq<word>)
    reads t, (set b | b in t :: b.num), acc, acc.num, tmp, ms.N, ms.N.num
  {
    && Modulus(ms, z) && G16(t, base, ms.N, z) && Clear(t, acc) && Clear(t, tmp) && Holds(acc, Pow(base, u), z)
      && acc.Valid() && tmp.Valid()
    && Separate(acc, tmp) && Separate(acc, ms.N) && Separate(tmp, ms.N)
  }

  method ChooseEntry(t: seq<Bignum>, i: nat, entry: Bignum, acc: Bignum, tmp: Bignum, ms: Mont, ghost base: int,
      ghost u: nat, ghost z: seq<word>, cut: Cutoffs)
    requires Sane(cut) && i < |t| && entry == t[i] && Choosing(t, acc, tmp, base, u, ms, z)
    modifies acc, acc.num, tmp, tmp.num, entry`length, ms.N
    ensures Choosing(t, acc, tmp, base, Sixteen(i) + u, ms, z) && Untouched(ms.N)
    ensures acc.num == old(acc.num) || fresh(acc.num)
    ensures tmp.num == old(tmp.num) || fresh(tmp.num)
  {
    hide Rep, Modulus, Pow, Val;
    Fold(entry, acc, tmp, ms, base, Sixteen(i), u, z, cut);
  }

  /** One entry of buildCoeffTable: the product of the table entries at the places whose nibble is j. */
  method Coefficient(t: seq<Bignum>, j: nat, exp: Bignum, acc: Bignum, tmp: Bignum, ms: Mont, ghost base: int,
      ghost e: seq<word>, ghost z: seq<word>, cut: Cutoffs)
    requires Sane(cut) && Choosing(t, acc, tmp, base, 0, ms, z)
    requires exp.Valid() && |t| <= 8 * exp.space && e == exp.num[..exp.space]
    requires Separate(exp, acc) && Separate(exp, tmp) && exp != ms.N && exp !in t
    modifies acc, acc.num, tmp, tmp.num, t, ms.N
    ensures Choosing(t, acc, tmp, base, Slot(e, |t|, j, 0), ms, z) && ms.N.num == old(ms.N.num)
    ensures acc.num == old(acc.num) || fresh(acc.num)
    ensures tmp.num == old(tmp.num) || fresh(tmp.num)
  {
    hide Choosing, Nibble, Sixteen;
    var i := |t|;
    ghost var u: nat := 0;
    while i > 0
      invariant 0 <= i <= |t| && u == Slot(e, |t|, j, i)
      invariant Choosing(t, acc, tmp, base, u, ms, z) && ms.N.num == old(ms.N.num)
      invariant acc.num == old(acc.num) || fresh(acc.num)
      invariant tmp.num == old(tmp.num) || fresh(tmp.num)
      invariant exp.Valid() && e == exp.num[..exp.space]
    {
      i := i - 1;
      assert e[i / 8] == exp.num[i / 8];
      if Nibble(exp.num[i / 8], i) == j {
        ChooseEntry(t, i, t[i], acc, tmp, ms, base, u, z, cut);
        u := Sixteen(i) + u;
      }
    }
  }

  /** The table buildCoeffTable fills: entry j holds the power of the base to slot j; entry 0 is not used. */
  ghost predicate Coefficients(C: seq<Bignum>, e: seq<word>, n: nat, base: int, N: Bignum, z: seq<word>)
    requires n <= 8 * |e|
    reads C, (set b | b in C :: b.num), N
  {
    forall j :: 1 <= j < |C| ==> Holds(C[j], Pow(base, Slot(e, n, j, 0)), z) && Separate(C[j], N)
  }

  /** The state between two turns of buildCoeffTable. */
  ghost predicate Building(C: seq<Bignum>, t: seq<Bignum>, one: Bignum, acc: Bignum, tmp: Bignum, e: seq<word>,
      base: int, ms: Mont, z: seq<word>)
    requires |t| <= 8 * |e|
    reads C, (set b | b in C :: b.num), t, (set b | b in t :: b.num), one, one.num, acc, tmp, ms.N, ms.N.num
  {
    && Modulus(ms, z) && G16(t, base, ms.N, z) && Coefficients(C, e, |t|, base, ms.N, z)
    && Clear(t, acc) && Clear(t, tmp) && Clear(C, acc) && Clear(C, tmp)
    && (forall j :: 0 <= j < |C| ==> C[j] !in t && C[j] != ms.N) && one !in t && one != ms.N
    && Holds(one, Pow(base, 0), z) && acc.Valid() && tmp.Valid()
    && Separate(one, acc) && Separate(one, tmp) && Separate(acc, tmp) && Separate(acc, ms.N) && Separate(tmp, ms.N)
  }

  /** Entry j on its own: a fresh record with the product of the chosen table entries. */
  method OneCoefficient(t: seq<Bignum>, j: nat, one: Bignum, acc: Bignum, tmp: Bignum, exp: Bignum, ms: Mont,
      ghost base: int, ghost e: seq<word>, ghost z: seq<word>, cut: Cutoffs) returns (c: Bignum)
    requires Sane(cut) && exp.Valid() && |t| <= 8 * exp.space && e == exp.num[..exp.space]
    requires Modulus(ms, z) && G16(t, base, ms.N, z) && Clear(t, acc) && Clear(t, tmp) && Holds(one, Pow(base, 0), z)
    requires acc.Valid() && tmp.Valid() && Separate(one, acc) && Separate(acc, tmp) && Separate(acc, ms.N)
      && Separate(tmp, ms.N)
    requires Separate(exp, acc) && Separate(exp, tmp) && exp != ms.N && exp !in t
    modifies acc, acc.num, tmp, tmp.num, t, ms.N
    ensures fresh(c) && fresh(c.num) && Holds(c, Pow(base, Slot(e, |t|, j, 0)), z) && Separate(c, ms.N)
    ensures Modulus(ms, z) && G16(t, base, ms.N, z) && Clear(t, acc) && Clear(t, tmp) && ms.N.num == old(ms.N.num)
    ensures acc.Valid() && tmp.Valid() && Separate(acc, tmp) && Separate(acc, ms.N) && Separate(tmp, ms.N)
    ensures Separate(c, acc) && Separate(c, tmp)
    ensures acc.num == old(acc.num) || fresh(acc.num)
    ensures tmp.num == old(tmp.num) || fresh(tmp.num)
  {
    hide Holds, Modulus, Pow, Slot;
    CopyHeld(one, acc, Pow(base, 0), z);
    Coefficient(t, j, exp, acc, tmp, ms, base, e, z, cut);
    c := new Bignum(0);
    CopyHeld(acc, c, Pow(base, Slot(e, |t|, j, 0)), z);
  }

  /** One turn of buildCoeffTable. */
  method NextCoefficient(C: seq<Bignum>, t: seq<Bignum>, one: Bignum, acc: Bignum, tmp: Bignum, exp: Bignum, ms: Mont,
      ghost base: int, ghost e: seq<word>, ghost z: seq<word>, cut: Cutoffs) returns (c: Bignum)
    requires Sane(cut) && exp.Valid() && |t| <= 8 * exp.space && e == exp.num[..exp.space]
    requires |C| >= 1 && Building(C, t, one, acc, tmp, e, base, ms, z)
    requires Separate(exp, acc) && Separate(exp, tmp) && exp != ms.N && exp !in t
    modifies acc, acc.num, tmp, tmp.num, t, ms.N
    ensures fresh(c) && fresh(c.num) && Building(C + [c], t, one, acc, tmp, e, base, ms, z) && ms.N.num == old(ms.N.num)
    ensures acc.num == old(acc.num) || fresh(acc.num)
    ensures tmp.num == old(tmp.num) || fresh(tmp.num)
  {
    hide Holds, Modulus, Pow, Slot, G16;
    c := OneCoefficient(t, |C|, one, acc, tmp, exp, ms, base, e, z, cut);
    forall j | 1 <= j < |C|
      ensures Holds(C[j], Pow(base, Slot(e, |t|, j, 0)), z)
    {
    }
  }

  /** The records buildCoeffTable starts with. */
  method StartCoefficients(t: seq<Bignum>, ms: Mont, ghost base: int, ghost e: seq<word>, ghost z: seq<word>)
      returns (C: seq<Bignum>, one: Bignum, acc: Bignum, tmp: Bignum)
    requires Modulus(ms, z) && G16(t, base, ms.N, z) && |t| <= 8 * |e|
    modifies ms.N, ms.N.num
    ensures |C| == 1 && Building(C, t, one, acc, tmp, e, base, ms, z) && (ms.N.num == old(ms.N.num) || fresh(ms.N.num))
    ensures fresh(C[0]) && fresh(one) && fresh(acc) && fresh(acc.num) && fresh(tmp) && fresh(tmp.num)
  {
    hide Holds, Pow, Slot, Val, Sixteen, Modulus;
    one := ResidueOne(ms, base, z);
    assert Modulus(ms, z) && G16(t, base, ms.N, z);
    acc, tmp := WorkRecords();
    var c0 := new Bignum(1);
    C := [c0];
  }

  method WorkRecords() returns (acc: Bignum, tmp: Bignum)
    ensures fresh(acc) && fresh(acc.num) && fresh(tmp) && fresh(tmp.num) && Separate(acc, tmp)
    ensures acc.Valid() && tmp.Valid()
  {
    acc := new Bignum(0);
    tmp := new Bignum(0);
  }

  /** buildCoeffTable's outer loop. */
  method FillCoefficients(C0: seq<Bignum>, t: seq<Bignum>, one: Bignum, acc: Bignum, tmp: Bignum, exp: Bignum,
      ms: Mont, ghost base: int, ghost e: seq<word>, ghost z: seq<word>, cut: Cutoffs) returns (C: seq<Bignum>)
    requires Sane(cut) && exp.Valid() && |t| <= 8 * exp.space && e == exp.num[..exp.space]
    requires |C0| == 1 && Building(C0, t, one, acc, tmp, e, base, ms, z)
    requires Separate(exp, acc) && Separate(exp, tmp) && exp != ms.N && exp !in t
    modifies acc, acc.num, tmp, tmp.num, t, ms.N
    ensures |C| == 16 && C[0] == C0[0] && Building(C, t, one, acc, tmp, e, base, ms, z) && ms.N.num == old(ms.N.num)
    ensures forall j :: 1 <= j < |C| ==> fresh(C[j]) && fresh(C[j].num)
    ensures acc.num == old(acc.num) || fresh(acc.num)
    ensures tmp.num == old(tmp.num) || fresh(tmp.num)
  {
    hide Building;
    C := C0;
    while |C| < 16
      invariant 1 <= |C| <= 16 && C[0] == C0[0] && Building(C, t, one, acc, tmp, e, base, ms, z)
        && ms.N.num == old(ms.N.num)
      invariant forall j :: 1 <= j < |C| ==> fresh(C[j]) && fresh(C[j].num)
      invariant acc.num == old(acc.num) || fresh(acc.num)
      invariant tmp.num == old(tmp.num) || fresh(tmp.num)
      invariant exp.Valid() && e == exp.num[..exp.space]
    {
      var c := NextCoefficient(C, t, one, acc, tmp, exp, ms, base, e, z, cut);
      C := C + [c];
    }
  }

  /** buildCoeffTable: for each digit value, the base to the power of the places where the digit stands. */
  method BuildCoeffTable(exp: Bignum, ms: Mont, t: seq<Bignum>, ghost base: int, ghost e: seq<word>,
      ghost z: seq<word>, cut: Cutoffs) returns (C: seq<Bignum>)
    requires Sane(cut) && exp.Valid() && |t| <= 8 * exp.space && e == exp.num[..exp.space]
    requires Modulus(ms, z) && G16(t, base, ms.N, z) && Separate(exp, ms.N) && exp !in t
    modifies ms.N, ms.N.num, t
    ensures |C| == 16 && Modulus(ms, z) && (ms.N.num == old(ms.N.num) || fresh(ms.N.num))
    ensures Coefficients(C, e, |t|, base, ms.N, z)
    ensures forall j :: 0 <= j < |C| ==> fresh(C[j])
    ensures forall j :: 1 <= j < |C| ==> fresh(C[j].num)
    ensures exp.Valid() && e == exp.num[..exp.space]
  {
    hide Holds, Modulus, Pow, Slot, Sixteen;
    var one, acc, tmp;
    C, one, acc, tmp := StartCoefficients(t, ms, base, e, z);
    C := FillCoefficients(C, t, one, acc, tmp, exp, ms, base, e, z, cut);
  }

  /** The comb in progress: d and result hold two powers of the base. */
  ghost predicate Combing(C: seq<Bignum>, d: Bignum, u: nat, result: Bignum, v: nat, tmp: Bignum, e: seq<word>, n: nat,
      base: int, ms: Mont, z: seq<word>)
    requires n <= 8 * |e|
    reads C, (set b | b in C :: b.num), d, d.num, result, result.num, tmp, ms.N, ms.N.num
  {
    && Modulus(ms, z) && |C| == 16 && Coefficients(C, e, n, base, ms.N, z)
    && Beside(C, d) && Beside(C, result) && Beside(C, tmp)
    && Holds(d, Pow(base, u), z) && Holds(result, Pow(base, v), z)
    && result.length <= result.space && tmp.Valid()
    && Separate(d, result) && Separate(d, tmp) && Separate(result, tmp)
    && Separate(d, ms.N) && Separate(result, ms.N) && Separate(tmp, ms.N)
  }

  /** The entries of a coefficient table that are used share nothing with b. */
  ghost predicate Beside(C: seq<Bignum>, b: Bignum)
    reads C, b
  {
    forall j :: 1 <= j < |C| ==> Separate(C[j], b)
  }

  /** result := result * d by way of tmp. */
  method FoldResult(d: Bignum, result: Bignum, tmp: Bignum, ms: Mont, ghost base: int, ghost u: nat, ghost v: nat,
      ghost z: seq<word>, cut: Cutoffs)
    requires Sane(cut) && Modulus(ms, z) && Holds(d, Pow(base, u), z) && Holds(result, Pow(base, v), z) && tmp.Valid()
    requires Separate(d, result) && Separate(d, tmp) && Separate(result, tmp)
    requires Separate(d, ms.N) && Separate(result, ms.N) && Separate(tmp, ms.N)
    modifies result, result.num, tmp, tmp.num, ms.N
    ensures Modulus(ms, z) && Untouched(ms.N) && Holds(result, Pow(base, u + v), z) && tmp.Valid()
    ensures Separate(d, result) && Separate(d, tmp) && Separate(result, tmp) && Separate(result, ms.N)
      && Separate(tmp, ms.N)
    ensures result.num == old(result.num) || fresh(result.num)
    ensures tmp.num == old(tmp.num) || fresh(tmp.num)
    ensures result.length <= result.space
  {
    PowAdd(base, v, u);
    hide Modulus, Pow, Rep;
    MontMultiply(result, d, tmp, ms, Pow(base, v), Pow(base, u), z, cut.mult, cut.square);
    CopyHeld(tmp, result, Pow(base, v + u), z);
  }

  /** The first half of a turn of brickell_bigpow's loop: d takes the next coefficient in. */
  method CombCoefficient(C: seq<Bignum>, k: nat, entry: Bignum, d: Bignum, ghost u: nat, result: Bignum, ghost v: nat,
      tmp: Bignum, ms: Mont, ghost base: int, ghost e: seq<word>, ghost n: nat, ghost z: seq<word>, cut: Cutoffs)
    requires Sane(cut) && n <= 8 * |e| && |C| == 16 && 1 <= k < 15 && entry == C[k]
    requires Combing(C, d, u, result, v, tmp, e, n, base, ms, z)
    modifies d, d.num, tmp, tmp.num, entry`length, ms.N
    ensures Combing(C, d, Slot(e, n, k, 0) + u, result, v, tmp, e, n, base, ms, z) && ms.N.num == old(ms.N.num)
    ensures d.num == old(d.num) || fresh(d.num)
    ensures tmp.num == old(tmp.num) || fresh(tmp.num)
  {
    hide Rep, Modulus, Pow, Slot, Val;
    Fold(entry, d, tmp, ms, base, Slot(e, n, k, 0), u, z, cut);
  }

  /** The second half: the result takes d in. */
  method CombResult(C: seq<Bignum>, d: Bignum, ghost u: nat, result: Bignum, ghost v: nat, tmp: Bignum, ms: Mont,
      ghost base: int, ghost e: seq<word>, ghost n: nat, ghost z: seq<word>, cut: Cutoffs)
    requires Sane(cut) && n <= 8 * |e| && Combing(C, d, u, result, v, tmp, e, n, base, ms, z)
    modifies result, result.num, tmp, tmp.num, ms.N
    ensures Combing(C, d, u, result, u + v, tmp, e, n, base, ms, z) && ms.N.num == old(ms.N.num)
    ensures result.num == old(result.num) || fresh(result.num)
    ensures tmp.num == old(tmp.num) || fresh(tmp.num)
  {
    hide Holds, Modulus, Pow, Slot;
    FoldResult(d, result, tmp, ms, base, u, v, z, cut);
  }

  /** One turn of the loop. */
  method CombTurn(C: seq<Bignum>, k: nat, d: Bignum, ghost u: nat, result: Bignum, ghost v: nat, tmp: Bignum, ms: Mont,
      ghost base: int, ghost e: seq<word>, ghost n: nat, ghost z: seq<word>, cut: Cutoffs)
    requires Sane(cut) && n <= 8 * |e| && |C| == 16 && 1 <= k < 15
    requires Combing(C, d, u, result, v, tmp, e, n, base, ms, z)
    modifies d, d.num, result, result.num, tmp, tmp.num, C, ms.N
    ensures var u' := Slot(e, n, k, 0) + u; Combing(C, d, u', result, u' + v, tmp, e, n, base, ms, z)
    ensures ms.N.num == old(ms.N.num) && (d.num == old(d.num) || fresh(d.num))
    ensures (result.num == old(result.num) || fresh(result.num)) && (tmp.num == old(tmp.num) || fresh(tmp.num))
  {
    hide Combing, Slot;
    CombCoefficient(C, k, C[k], d, u, result, v, tmp, ms, base, e, n, z, cut);
    CombResult(C, d, Slot(e, n, k, 0) + u, result, v, tmp, ms, base, e, n, z, cut);
  }

  /** brickell_bigpow's loop over the digit values. */
  method CombLoop(C: seq<Bignum>, d: Bignum, result: Bignum, tmp: Bignum, ms: Mont, ghost base: int,
      ghost e: seq<word>, ghost n: nat, ghost z: seq<word>, cut: Cutoffs)
    requires Sane(cut) && n <= 8 * |e| && |C| == 16
    requires Combing(C, d, Slot(e, n, 15, 0), result, Slot(e, n, 15, 0), tmp, e, n, base, ms, z)
    modifies d, d.num, result, result.num, tmp, tmp.num, C, ms.N
    ensures Modulus(ms, z) && Holds(result, Pow(base, Weighted(e, n, 0, 1)), z)
    ensures result.length <= result.space && Separate(result, ms.N)
    ensures ms.N.num == old(ms.N.num) && (result.num == old(result.num) || fresh(result.num))
  {
    hide Combing, Slot;
    ghost var u, v := Run(e, n, 0, 15), Weighted(e, n, 0, 15);
    var i := 14;
    while i > 0
      invariant 0 <= i <= 14 && u == Run(e, n, 0, i + 1) && v == Weighted(e, n, 0, i + 1)
      invariant Combing(C, d, u, result, v, tmp, e, n, base, ms, z) && ms.N.num == old(ms.N.num)
      invariant d.num == old(d.num) || fresh(d.num)
      invariant result.num == old(result.num) || fresh(result.num)
      invariant tmp.num == old(tmp.num) || fresh(tmp.num)
    {
      CombTurn(C, i, d, u, result, v, tmp, ms, base, e, n, z, cut);
      u := Slot(e, n, i, 0) + u;
      v := u + v;
      i := i - 1;
    }
    CombEnds(C, d, u, result, v, tmp, e, n, base, ms, z);
  }

  lemma CombEnds(C: seq<Bignum>, d: Bignum, u: nat, result: Bignum, v: nat, tmp: Bignum, e: seq<word>, n: nat,
      base: int, ms: Mont, z: seq<word>)
    requires n <= 8 * |e| && Combing(C, d, u, result, v, tmp, e, n, base, ms, z)
    ensures Modulus(ms, z) && Holds(result, Pow(base, v), z) && result.length <= result.space && Separate(result, ms.N)
  {
  }

  /** The copies before the loop: both records start from the last coefficient. */
  method StartComb(C: seq<Bignum>, last: Bignum, result: Bignum, ms: Mont, ghost base: int, ghost e: seq<word>,
      ghost n: nat, ghost z: seq<word>) returns (d: Bignum, tmp: Bignum)
    requires n <= 8 * |e| && |C| == 16 && last == C[15] && Modulus(ms, z) && Coefficients(C, e, n, base, ms.N, z)
    requires Beside(C, result) && result.Valid() && Separate(result, ms.N)
    modifies result, result.num
    ensures fresh(d) && fresh(d.num) && fresh(tmp) && fresh(tmp.num)
    ensures result.num == old(result.num) || fresh(result.num)
    ensures Combing(C, d, Slot(e, n, 15, 0), result, Slot(e, n, 15, 0), tmp, e, n, base, ms, z)
  {
    hide Holds, Modulus, Pow, Slot, Val;
    d := CopyTwice(last, result, Pow(base, Slot(e, n, 15, 0)), z);
    forall j | 1 <= j < |C|
      ensures Holds(C[j], Pow(base, Slot(e, n, j, 0)), z)
    {
    }
    tmp := new Bignum(0);
  }

  method CopyTwice(last: Bignum, result: Bignum, ghost x: int, ghost z: seq<word>) returns (d: Bignum)
    requires Holds(last, x, z) && result.Valid() && Separate(last, result)
    modifies result, result.num
    ensures fresh(d) && fresh(d.num) && Separate(d, result) && (result.num == old(result.num) || fresh(result.num))
    ensures Holds(d, x, z) && Holds(result, x, z) && result.length <= result.space
  {
    hide Holds;
    d := new Bignum(0);
    CopyHeld(last, d, x, z);
    CopyHeld(d, result, x, z);
  }

  /** brickell_bigpow: the base to the power that the digits of the exponent inside the table denote. */
  method BrickellBigpow(t: seq<Bignum>, exp: Bignum, modulus: Bignum, result: Bignum, ghost base: int, cut: Cutoffs)
    requires Sane(cut) && modulus.Valid() && modulus.sign == POS && OddRow(modulus.Digits())
      && G16(t, base, modulus, modulus.Digits())
    requires exp.Valid() && |t| <= 8 * exp.space && Separate(exp, modulus) && Separate(exp, result) && exp !in t
    requires result.Valid() && Separate(result, modulus) && result !in t
    modifies result, result.num, modulus, modulus.num, t
    ensures modulus.Valid() && modulus.sign == POS && modulus.Digits() == old(modulus.Digits())
    ensures result.Valid() && result.Trimmed() && result.sign == POS && modulus.Mag() > 0
      && result.Mag() <= modulus.Mag()
    ensures Cong(result.Mag(), Pow(base, old(Val(exp.num[..exp.space])) % Sixteen(|t|)), modulus.Mag())
  {
    ghost var z, e, n := modulus.Digits(), exp.num[..exp.space], |t|;
    WholeExponent(e, n);
    hide Val, Holds, Pow, Cong, Rep, Weighted, Slot, Coefficients, Sixteen, G16;
    var ms := MontSet(modulus);
    var C := BuildCoeffTable(exp, ms, t, base, e, z, cut);
    Comb(C, result, ms, base, e, n, z, cut);
  }

  /** brickell_bigpow once the coefficients are there. */
  method Comb(C: seq<Bignum>, result: Bignum, ms: Mont, ghost base: int, ghost e: seq<word>, ghost n: nat,
      ghost z: seq<word>, cut: Cutoffs)
    requires Sane(cut) && n <= 8 * |e| && |C| == 16 && Modulus(ms, z) && Coefficients(C, e, n, base, ms.N, z)
    requires Beside(C, result) && result.Valid() && Separate(result, ms.N)
    modifies result, result.num, C, ms.N
    ensures Modulus(ms, z)
    ensures result.Valid() && result.Trimmed() && result.sign == POS && Val(z) > 0 && result.Mag() <= Val(z)
    ensures Cong(result.Mag(), Pow(base, Weighted(e, n, 0, 1)), Val(z))
  {
    hide Val, Holds, Pow, Cong, Rep, Weighted, Slot, Coefficients, Combing;
    var d, tmp := StartComb(C, C[15], result, ms, base, e, n, z);
    CombLoop(C, d, result, tmp, ms, base, e, n, z, cut);
    TakeOut(result, ms, Pow(base, Weighted(e, n, 0, 1)), z);
  }

  lemma {:induction false} WeightedZero(e: seq<word>, n: nat, i: nat)
    requires i <= n <= 8 * |e|
    ensures Weighted(e, n, i, 1) == 0 <==> forall j :: i <= j < n ==> NibbleAt(e, j) == 0
    decreases n - i
  {
    hide Weighted, NibbleAt, Sixteen;
    if i == n {
      NothingLeft(e, n, 1);
    } else {
      WeightedZero(e, n, i + 1);
      WeightedStep(e, n, i, 1);
      if NibbleAt(e, i) > 0 {
        MulOrder(Sixteen(i), 1, NibbleAt(e, i));
      }
    }
  }

  lemma WeightedSplit(e: seq<word>, m: nat, n: nat)
    requires m <= n <= 8 * |e|
    ensures Weighted(e, n, 0, 1) == Weighted(e, m, 0, 1) + Weighted(e, n, m, 1)
  {
    hide Weighted, Above, Sixteen;
    WeightedIs(e, n, 0);
    WeightedIs(e, m, 0);
    WeightedIs(e, n, m);
  }

  /**
    The digits inside the table denote the exponent exactly when no digit stands between the end of
    the exponent and the end of the table, whichever comes first.
   */
  lemma WithinTable(e: seq<word>, len: nat, n: nat)
    requires len <= |e| && n <= 8 * |e|
    ensures Val(e) % Sixteen(n) == Val(e[..len])
       <==> forall i :: (n <= i < 8 * len || 8 * len <= i < n) ==> NibbleAt(e, i) == 0
  {
    hide Weighted, Val, Sixteen, NibbleAt;
    var m := 8 * len;
    WholeExponent(e, n);
    WholeExponent(e, m);
    LowWords(e, len);
    if m <= n {
      WeightedSplit(e, m, n);
      WeightedZero(e, n, m);
    } else {
      WeightedSplit(e, n, m);
      WeightedZero(e, m, n);
    }
  }

  /** The exponent 16 with a table for one digit: the power computed is the one to 0. */
  lemma OutsideTable()
    ensures Val([16]) == 16 && Val([16]) % Sixteen(1) == 0 && NibbleAt([16], 1) == 1
  {
    ValSingle(16);
    assert Sixteen(1) == 16 * Sixteen(0);
  }

  lemma LowWords(e: seq<word>, len: nat)
    requires len <= |e|
    ensures Val(e) % Sixteen(8 * len) == Val(e[..len])
  {
    hide *;
    SixteenPow2(8 * len);
    assert 4 * (8 * len) == 32 * len;
    ShiftPow2(len, 1);
    ValBound(e[..len]);
    ValSplit(e, len);
    ShiftMul(len, 1, Val(e[len..]));
    Swapped(Shift(len, 1), Val(e[len..]));
    SameRemainder(Val(e), Shift(len, 1), Val(e[len..]), Val(e[..len]));
  }
}
