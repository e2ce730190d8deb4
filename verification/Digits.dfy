/**
  The quotient digit of long division: the trial digit from the leading words, its correction
  by the second divisor word, and the proof that it is the true digit or one more.
 */
module Digits {
  import opened Words
  import opened LongMult
  import opened WordLoops
  import opened Bignums
  import opened CoreMult
  import opened BigMath
  import opened BigShift
  import opened LongDivide

  /** Word j of a row, and zero below it. */
  ghost function At(z: seq<word>, j: int): word
    requires j < |z|
  {
    if j < 0 then 0 else z[j]
  }

  ghost function Top2(z: seq<word>, i: nat): int
    requires i < |z|
  {
    At(z, i - 1) + B * At(z, i)
  }

  ghost function Top3(z: seq<word>, i: nat): int
    requires i < |z|
  {
    At(z, i - 2) + B * Top2(z, i)
  }

  /** The three leading words of a row of i + 1 words, in the number scaled up by one word. */
  lemma LeadingThree(z: seq<word>, i: nat)
    requires i >= 1 && |z| == i + 1
    ensures 0 <= B * Val(z) - Shift(i - 1, Top3(z, i)) < Shift(i - 1, 1)
    ensures 0 <= B * Val(z) - Shift(i, Top2(z, i)) < Shift(i, 1)
  {
    hide Val, Shift;
    var y := [0] + z;
    ConsVal(0, z);
    ValSplit(y, i - 1);
    ValBound(y[..i - 1]);
    assert y[i - 1..] == [At(z, i - 2)] + [At(z, i - 1), At(z, i)];
    ConsVal(At(z, i - 2), [At(z, i - 1), At(z, i)]);
    PairOf([At(z, i - 1), At(z, i)]);
    ValSplit(y, i);
    ValBound(y[..i]);
    assert y[i..] == [At(z, i - 1), At(z, i)];
  }

  /** The two leading words of a divisor of k words, likewise. */
  lemma LeadingTwo(z: seq<word>, k: nat)
    requires k >= 1 && |z| == k
    ensures 0 <= B * Val(z) - Shift(k - 1, Top2(z, k - 1)) < Shift(k - 1, 1)
  {
    hide Val, Shift;
    var y := [0] + z;
    ConsVal(0, z);
    ValSplit(y, k - 1);
    ValBound(y[..k - 1]);
    assert y[k - 1..] == [At(z, k - 2), At(z, k - 1)];
    PairOf([At(z, k - 2), At(z, k - 1)]);
  }

  /** A digit whose product with the leading divisor words fits the leading words is at most one too large. */
  lemma NotTooLarge(i: nat, k: nat, x: int, m: int, q: int, top3: int, ms2: int)
    requires 1 <= k <= i && 0 <= q < B && m >= 0
    requires B * x - Shift(i - 1, top3) >= 0
    requires 0 <= B * m - Shift(k - 1, ms2) < Shift(k - 1, 1)
    requires q * ms2 <= top3 && ms2 >= B
    ensures q * Shift(i - k, m) < x + Shift(i - k, m)
  {
    hide *;
    var low := B * m - Shift(k - 1, ms2);
    var d := Shift(i - k, m);
    ScaledDivisor(i, k, m, ms2);
    RestPart(i, k, q, low);
    LeadPart(i - 1, q, ms2, top3, B * x);
    ShiftAtMost(i - 1, B, ms2);
    NonNegativeShift(i - k, low);
    QuotientSum(q, d, Shift(i - k, low), Shift(i - 1, ms2));
    CancelScale(q * d, x, d);
  }

  lemma CancelScale(u: int, x: int, d: int)
    requires B * u < B * x + B * d
    ensures u < x + d
  {
  }

  lemma RestPart(i: nat, k: nat, q: int, low: int)
    requires 1 <= k <= i && 0 <= q < B && 0 <= low < Shift(k - 1, 1)
    ensures q * Shift(i - k, low) < Shift(i - 1, B)
  {
    hide *;
    ShiftMul(i - k, q, low);
    SmallRest(q, low, Shift(k - 1, 1));
    ShiftAtMost(i - k, q * low, B * Shift(k - 1, 1) - 1);
    LowPart(i, k);
  }

  lemma LeadPart(n: nat, q: int, ms2: int, top3: int, v: int)
    requires q * ms2 <= top3 && v - Shift(n, top3) >= 0
    ensures q * Shift(n, ms2) <= v
  {
    hide *;
    ShiftMul(n, q, ms2);
    ShiftAtMost(n, q * ms2, top3);
  }

  /** B * D where D is the divisor moved up, split at the leading words. */
  lemma ScaledDivisor(i: nat, k: nat, m: int, ms2: int)
    requires 1 <= k <= i
    ensures B * Shift(i - k, m) == Shift(i - k, B * m - Shift(k - 1, ms2)) + Shift(i - 1, ms2)
  {
    hide *;
    ShiftNext(i - k, m);
    ShiftOne(i - k, m);
    ShiftSub(i - k, B * m, Shift(k - 1, ms2));
    ShiftShift(i - k, k - 1, ms2);
  }

  lemma ShiftAtMost(n: nat, x: int, y: int)
    requires x <= y
    ensures Shift(n, x) <= Shift(n, y)
  {
    ShiftOrder(n, y, x);
  }

  lemma NonNegativeShift(n: nat, x: int)
    requires x >= 0
    ensures Shift(n, x) >= 0
  {
  }

  lemma SmallRest(q: int, low: int, p: int)
    requires 0 <= q < B && 0 <= low < p
    ensures q * low <= B * p - 1
  {
    MulOrder(low, q, B);
    assert B * low <= B * p - 1;
  }

  lemma LowPart(i: nat, k: nat)
    requires 1 <= k <= i
    ensures Shift(i - k, B * Shift(k - 1, 1) - 1) < Shift(i, 1) == Shift(i - 1, B)
  {
    hide *;
    ShiftOne(k - 1, 1);
    ShiftShift(i - k, k, 1);
    ShiftOrder(i - k, B * Shift(k - 1, 1) - 1, Shift(k, 1));
    ShiftNext(i - 1, 1);
  }

  lemma QuotientSum(q: int, d: int, low: int, high: int)
    requires B * d == low + high
    ensures B * (q * d) == q * low + q * high
  {
    Distribute(q, low, high);
    MulAssociates(q, B, d);
    MulAssociates(B, q, d);
  }

  /** A digit stopped by one of the trial bounds is not too small. */
  lemma NotTooSmall(i: nat, k: nat, x: int, m: int, q: int, top2: int, top3: int, ms: int, ms2: int)
    requires 1 <= k <= i && 0 <= q < B && m >= 0 && ms >= 0 && ms2 >= B * ms
    requires x <= B * Shift(i - k, m)
    requires B * x - Shift(i - 1, top3) < Shift(i - 1, 1)
    requires B * x - Shift(i, top2) < Shift(i, 1)
    requires 0 <= B * m - Shift(k - 1, ms2)
    requires q == B - 1 || (q + 1) * ms > top2 || (q + 1) * ms2 > top3
    ensures q == B - 1 || x < (q + 1) * Shift(i - k, m)
    ensures x - q * Shift(i - k, m) <= Shift(i - k, m)
    ensures x < B * Shift(i - k, m) ==> x - q * Shift(i - k, m) < Shift(i - k, m)
    ensures x == B * Shift(i - k, m) ==> x - q * Shift(i - k, m) == Shift(i - k, m)
  {
    hide *;
    var d := Shift(i - k, m);
    NonNegativeShift(i - k, m);
    Successor(q, d);
    ScaledDivisor(i, k, m, ms2);
    NonNegativeShift(i - k, B * m - Shift(k - 1, ms2));
    assert B * d >= Shift(i - 1, ms2);
    if (q + 1) * ms2 > top3 {
      Overshoot(i - 1, q + 1, ms2, top3, x, d);
    } else if (q + 1) * ms > top2 {
      ShiftAtMost(i - 1, B * ms, ms2);
      ShiftNext(i - 1, ms);
      Overshoot(i, q + 1, ms, top2, x, d);
    }
    if q < B - 1 {
      MulOrder(d, q + 1, B - 1);
    }
  }

  lemma Successor(q: int, d: int)
    ensures (q + 1) * d == q * d + d
    ensures (B - 1) * d == B * d - d
  {
  }

  lemma Overshoot(n: nat, q: int, s: int, top: int, x: int, d: int)
    requires q >= 0 && q * s > top && B * d >= Shift(n, s) && B * x - Shift(n, top) < Shift(n, 1)
    ensures x < q * d
  {
    hide *;
    AboveTop(n, q, s, top);
    ScaleUp(q, Shift(n, s), B * d);
    Regrouped(q, d);
    Unscaled(q * d, x);
  }

  lemma AboveTop(n: nat, q: int, s: int, top: int)
    requires q * s > top
    ensures q * Shift(n, s) >= Shift(n, top) + Shift(n, 1)
  {
    hide *;
    ShiftMul(n, q, s);
    ShiftAtMost(n, top + 1, q * s);
    ShiftAdd(n, top, 1);
  }

  lemma Unscaled(x: int, y: int)
    ensures B * x > B * y ==> x > y
  {
  }

  lemma ScaleUp(q: int, x: int, y: int)
    requires q >= 0 && x <= y
    ensures q * x <= q * y
  {
  }

  lemma Regrouped(q: int, d: int)
    ensures q * (B * d) == B * (q * d)
  {
    MulAssociates(q, B, d);
    MulAssociates(B, q, d);
  }
}
