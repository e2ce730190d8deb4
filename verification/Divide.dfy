/**
  bigDivide and bigMod: Knuth's long division on normalised operands, in place in x.
 */
module Divide {
  import opened Words
  import opened LongMult
  import opened WordLoops
  import opened Karatsuba
  import opened Bignums
  import opened CoreMult
  import opened BigMath
  import opened BigShift
  import opened LongDivide
  import opened Digits

  /** Two records with separate storage. */
  ghost predicate Separate(a: Bignum, b: Bignum)
    reads a, b
  {
    a != b && a.num != b.num
  }

  lemma FitsProduct(q: word, a: Bignum, c: Bignum)
    requires a.Valid() && c.Valid() && c.Mag() == 0
    ensures Fits(c.Mag() + Shift(0, q * a.Mag()), c.num.Length, a.length + 0 + 3)
    ensures q * a.Mag() < Shift(a.length + 1, 1)
  {
    ValBound(a.num[..a.length]);
    ShiftMul(a.length, 1, B);
    MulOrder(a.Mag(), q, B - 1);
    assert Shift(a.length + 1, 1) == B * Shift(a.length, 1);
    ShiftGrows(a.length + 1, a.length + 3);
  }

  /** reset_big and numtype_bigmult: q times a into tmp. */
  method SetProduct(a: Bignum, q: word, tmp: Bignum)
    requires a.Valid() && tmp.Valid() && Separate(a, tmp)
    modifies tmp, tmp.num
    ensures tmp.Valid() && tmp.Trimmed() && tmp.sign == POS && (tmp.num == old(tmp.num) || fresh(tmp.num))
      && tmp.space >= old(tmp.space)
    ensures tmp.Mag() == q * a.Mag()
  {
    hide Val, Shift;
    tmp.Reset(0);
    FitsProduct(q, a, tmp);
    ShiftZeroPlaces(q * a.Mag());
    NumtypeBigmult(a, q, tmp, 0);
  }

  lemma ShiftZeroPlaces(x: int)
    ensures Shift(0, x) == x
  {
  }

  /** The first trial digit: all ones, or the quotient of the two leading words by the leading divisor word. */
  method FirstTrial(x: Bignum, i: nat, ms: word, tmp: Bignum) returns (q: word)
    requires x.Valid() && tmp.Valid() && Separate(x, tmp) && tmp.space >= 4
    requires 1 <= i < x.num.Length && ms >= 0x8000_0000 && x.num[i] <= ms
    modifies tmp, tmp.num
    ensures tmp.Valid() && tmp.num == old(tmp.num) && tmp.space == old(tmp.space)
    ensures q == if x.num[i] == ms then B - 1 else Top2(x.num[..i + 1], i) / ms
  {
    if x.num[i] == ms {
      q := 0xFFFF_FFFF;
    } else {
      tmp.num[1] := x.num[i];
      tmp.num[0] := x.num[i - 1];
      tmp.length := 2;
      q := LongBigDivide(tmp.num, ms);
    }
  }

  /** The while loop that lowers the digit until its product with the leading divisor words fits tmp2. */
  method LowerTrial(q0: word, ms2: Bignum, tmp: Bignum, tmp2: Bignum) returns (q: word)
    requires ms2.Valid() && tmp.Valid() && tmp2.Valid()
    requires Separate(ms2, tmp) && Separate(ms2, tmp2) && Separate(tmp, tmp2)
    modifies tmp, tmp.num, tmp2
    ensures tmp.Valid() && (tmp.num == old(tmp.num) || fresh(tmp.num)) && tmp.space >= old(tmp.space)
    ensures tmp2.Valid() && tmp2.num == old(tmp2.num) && tmp2.space == old(tmp2.space)
    ensures q * ms2.Mag() <= old(tmp2.Mag())
    ensures q == q0 || (q + 1) * ms2.Mag() > old(tmp2.Mag())
    ensures q <= q0
  {
    hide Val, Shift;
    ghost var d, v := ms2.Mag(), tmp2.Mag();
    q := q0;
    SetProduct(ms2, q, tmp);
    var cmp := Compare(tmp, tmp2);
    while cmp > 0
      invariant tmp.Valid() && (tmp.num == old(tmp.num) || fresh(tmp.num)) && tmp.space >= old(tmp.space)
      invariant tmp2.Valid() && tmp2.num == old(tmp2.num) && tmp2.space == old(tmp2.space) && tmp2.Mag() == v
      invariant cmp > 0 <==> q * d > v
      invariant q <= q0 && (q == q0 || (q + 1) * d > v)
      decreases q
    {
      PositiveDigit(q, d, v);
      q := q - 1;
      SetProduct(ms2, q, tmp);
      cmp := Compare(tmp, tmp2);
    }
  }

  /** The trial digit of one step. */
  method TrialDigit(x: Bignum, i: nat, ms: word, ms2: Bignum, tmp: Bignum, tmp2: Bignum) returns (q: word)
    requires x.Valid() && ms2.Valid() && tmp.Valid() && tmp2.Valid()
    requires Separate(x, tmp) && Separate(x, tmp2) && Separate(ms2, tmp) && Separate(ms2, tmp2) && Separate(tmp, tmp2)
    requires tmp.space >= 4 && tmp2.space >= 3
    requires 1 <= i < x.num.Length && ms >= 0x8000_0000 && x.num[i] <= ms && ms2.Mag() > 0
    modifies tmp, tmp.num, tmp2, tmp2.num
    ensures tmp.Valid() && (tmp.num == old(tmp.num) || fresh(tmp.num)) && tmp.space >= old(tmp.space)
    ensures tmp2.Valid() && tmp2.num == old(tmp2.num) && tmp2.space == old(tmp2.space)
    ensures q == Trial(x.num[..i + 1], i, ms, ms2.Mag())
  {
    hide Val, Shift, Top2, Top3;
    var q0 := FirstTrial(x, i, ms, tmp);
    SetTop(x, i, tmp2);
    q := LowerTrial(q0, ms2, tmp, tmp2);
    LoweredIs(q0, q, ms2.Mag(), Top3(x.num[..i + 1], i));
  }

  /** The digit a step settles on: the trial from two words, capped by the one from three words by two. */
  ghost function Trial(z: seq<word>, i: nat, ms: word, ms2: int): int
    requires i < |z| && ms > 0 && ms2 > 0
  {
    Least(if z[i] == ms then B - 1 else Top2(z, i) / ms, Top3(z, i) / ms2)
  }

  function Least(x: int, y: int): int {
    if x < y then x else y
  }

  lemma LoweredIs(q0: int, q: int, d: int, v: int)
    requires d > 0 && 0 <= q <= q0 && q * d <= v && (q == q0 || (q + 1) * d > v)
    ensures q == Least(q0, v / d)
  {
    RemainderOf(v, d);
    if q > v / d {
      MulOrder(d, v / d + 1, q);
      Successive(v / d, d);
    } else if q < v / d && q < q0 {
      MulOrder(d, q + 1, v / d);
    }
  }

  lemma Successive(q: int, d: int)
    ensures (q + 1) * d == d * q + d
  {
  }

  /** The bounds that make the trial digit the true one or one more. */
  lemma TrialBounds(z: seq<word>, i: nat, ms: word, ms2: int)
    requires i < |z| && ms > 0 && ms2 > 0 && z[i] <= ms
    ensures var q := Trial(z, i, ms, ms2);
      && 0 <= q < B && q * ms2 <= Top3(z, i)
      && (q == B - 1 || (q + 1) * ms > Top2(z, i) || (q + 1) * ms2 > Top3(z, i))
  {
    hide Top3;
    var t2, t3 := Top2(z, i), Top3(z, i);
    NonNegativeTop(z, i);
    QuotientAtLeast(t2, ms);
    QuotientAtLeast(t3, ms2);
    if z[i] < ms {
      QuotientBound(t2, ms, B);
    }
    MulOrder(ms2, Trial(z, i, ms, ms2), t3 / ms2);
  }

  lemma NonNegativeTop(z: seq<word>, i: nat)
    requires i < |z|
    ensures Top2(z, i) >= 0 && Top3(z, i) >= 0
  {
  }

  lemma QuotientAtLeast(v: int, d: int)
    requires d > 0 && v >= 0
    ensures v / d >= 0 && (v / d) * d <= v && (v / d + 1) * d > v
  {
    RemainderOf(v, d);
    Successive(v / d, d);
  }

  lemma PositiveDigit(q: int, d: int, v: int)
    requires q >= 0 && q * d > v >= 0
    ensures q > 0
  {
  }

  /** tmp2 := the three leading words of x at place i, with zero below the bottom. */
  method SetTop(x: Bignum, i: nat, tmp2: Bignum)
    requires x.Valid() && tmp2.Valid() && Separate(x, tmp2) && tmp2.space >= 3
    requires 1 <= i < x.num.Length
    modifies tmp2, tmp2.num
    ensures tmp2.Valid() && tmp2.num == old(tmp2.num) && tmp2.space == old(tmp2.space)
    ensures tmp2.Mag() == Top3(x.num[..i + 1], i)
  {
    hide Val;
    tmp2.num[2] := x.num[i];
    tmp2.num[1] := x.num[i - 1];
    tmp2.num[0] := if i >= 2 then x.num[i - 2] else 0;
    tmp2.length := 3;
    assert tmp2.num[..3] == [tmp2.num[0]] + [tmp2.num[1], tmp2.num[2]];
    ConsVal(tmp2.num[0], [tmp2.num[1], tmp2.num[2]]);
    PairOf([tmp2.num[1], tmp2.num[2]]);
  }

  /** What the correction makes of a trial digit: it is the true digit or one more. */
  lemma DigitFacts(z: seq<word>, m: seq<word>, i: nat, k: nat, q: int, ms: int)
    requires 1 <= k <= i && |z| == i + 1 && |m| == k && 0 <= q < B
    requires ms == m[k - 1] >= 0x8000_0000
    requires Val(z) <= B * Shift(i - k, Val(m))
    requires q * Top2(m, k - 1) <= Top3(z, i)
    requires q == B - 1 || (q + 1) * ms > Top2(z, i) || (q + 1) * Top2(m, k - 1) > Top3(z, i)
    ensures var d := Shift(i - k, Val(m)); var x := Val(z);
      && d > 0 && q * d < x + d && x - q * d <= d
      && (x < B * d ==> x - q * d < d)
      && (x == B * d ==> x - q * d == d)
  {
    hide *;
    LeadingThree(z, i);
    LeadingTwo(m, k);
    LeadingTwoBounds(m, k);
    NotTooLarge(i, k, Val(z), Val(m), q, Top3(z, i), Top2(m, k - 1));
    NotTooSmall(i, k, Val(z), Val(m), q, Top2(z, i), Top3(z, i), ms, Top2(m, k - 1));
    TopWord(m);
    ShiftOrder(i - k, 0, Val(m));
    ShiftZero(i - k);
  }

  lemma LeadingTwoBounds(m: seq<word>, k: nat)
    requires 1 <= k == |m| && m[k - 1] >= 0x8000_0000
    ensures Top2(m, k - 1) >= B * m[k - 1] && Top2(m, k - 1) >= B
  {
  }

  /** A remainder at most B times the shifted divisor has i + 1 words, the top one at most the divisor's. */
  lemma TopWordBound(z: seq<word>, m: seq<word>, i: nat, k: nat)
    requires 1 <= k <= i && |z| > i && |m| == k
    requires Val(z) <= B * Shift(i - k, Val(m))
    ensures z[i] <= m[k - 1]
    ensures Val(z) < Shift(i + 1, 1)
  {
    hide *;
    BaseIs();
    RowBelow(m, k);
    BoundUp(i, k, Val(m), m[k - 1], Val(z));
    WordBelow(z, i, (m[k - 1] as int) + 1);
    ShiftAtMost(i, (m[k - 1] as int) + 1, B);
    ShiftNext(i, 1);
  }

  lemma RowBelow(m: seq<word>, k: nat)
    requires 1 <= k == |m|
    ensures Val(m) < Shift(k - 1, (m[k - 1] as int) + 1)
  {
    hide *;
    ValExtend(m, k - 1);
    ValBound(m[..k - 1]);
    assert m[..k - 1 + 1] == m;
    ShiftAdd(k - 1, m[k - 1], 1);
  }

  lemma BoundUp(i: nat, k: nat, v: int, w: int, x: int)
    requires 1 <= k <= i && v < Shift(k - 1, w + 1) && x <= B * Shift(i - k, v)
    ensures x < Shift(i, w + 1)
  {
    hide *;
    BaseIs();
    ShiftOrder(i - k, v, Shift(k - 1, w + 1));
    ShiftShift(i - k, k - 1, w + 1);
    ShiftOne(i - 1, w + 1);
  }

  lemma WordBelow(z: seq<word>, i: nat, w: int)
    requires i < |z| && Val(z) < Shift(i, w)
    ensures z[i] < w
  {
    hide Val, Shift;
    ValSplit(z, i);
    assert z[i..] == [z[i]] + z[i + 1..];
    ConsVal(z[i], z[i + 1..]);
    ShiftOrder(i, Val(z[i..]), w);
  }

  /** A trimmed number below a power of the base is that short. */
  lemma ShortEnough(a: Bignum, n: nat)
    requires a.Valid() && a.NoLeadingZero() && n >= 1 && a.Mag() < Shift(n, 1)
    ensures a.length <= n
  {
    if a.length > n {
      TopWord(a.num[..a.length]);
      ShiftGrows(n, a.length - 1);
    }
  }

  /** The words of a clean number up to n denote it. */
  lemma CleanRow(a: Bignum, n: nat)
    requires a.Valid() && a.length <= n <= a.num.Length && CleanAbove(a, n)
    ensures Val(a.num[..n]) == a.Mag()
  {
    ZeroExtended(a.num[..a.length], a.num[..n]);
  }

  /** Subtracting over the minuend is safe when it is at most one word longer. */
  lemma SafeWhenClose(a: Bignum, b: Bignum)
    requires a.Valid() && b.Valid() && a != b && a.NoLeadingZero() && b.NoLeadingZero()
    requires b.Mag() == 0 || a.length <= b.length + 1
    ensures SafeOver(a, b, a)
  {
    var x, y := a.Digits(), b.Digits();
    if b.length <= a.length {
      if b.Mag() == 0 {
        assert Val(x[..|y|]) >= Val(y);
      } else if |x| == |y| + 1 {
        assert x[|y|] != 0;
      }
    }
  }

  /** x := x - tmp, and back up by div if that went below zero; tmp is a multiple of div. */
  method SubtractBack(x: Bignum, tmp: Bignum, div: Bignum, i: nat, l: nat)
    requires x.Valid() && tmp.Valid() && div.Valid() && Separate(x, tmp) && Separate(x, div) && Separate(tmp, div)
    requires x.Trimmed() && tmp.Trimmed() && div.Trimmed() && x.sign == tmp.sign == div.sign == POS
    requires x.length <= i + 1 && tmp.length <= i + 1 && i < l <= x.space && CleanAbove(x, l)
    requires div.length == i && (tmp.Mag() == 0 || tmp.Mag() >= div.Mag()) && tmp.Mag() < x.Mag() + div.Mag()
    modifies x, x.num, tmp, div
    ensures x.Valid() && x.Trimmed() && x.sign == POS && x.num == old(x.num) && x.space == old(x.space)
      && CleanAbove(x, l)
    ensures x.Mag() == old(x.Mag()) - old(tmp.Mag()) + if old(tmp.Mag()) > old(x.Mag()) then old(div.Mag()) else 0
    ensures div.Valid() && Untouched(div) && tmp.Valid() && Untouched(tmp)
  {
    hide Val, Shift;
    ghost var v, w, d := x.Mag(), tmp.Mag(), div.Mag();
    if w > 0 {
      TrimmedLength(tmp, div);
    }
    SafeWhenClose(x, tmp);
    BigSubtract(x, tmp, x);
    SignedIs(x, v - w);
    ZeroMag(x);
    if x.sign == NEG {
      TrimmedLength(div, x);
      BigAdd(x, div, x);
      SignedIs(x, v - w + d);
      ZeroMag(x);
    }
  }

  lemma SignedIs(x: Bignum, v: int)
    requires x.Valid() && x.Value() == v
    ensures x.Mag() == if v < 0 then -v else v
    ensures v < 0 ==> x.sign == NEG
  {
  }

  /**
    One step of long division: the trial digit q, x reduced by q times the shifted divisor and
    brought back up once if that overshot. The step reports the overshoot; the digit stays q.
   */
  method DigitStep(x: Bignum, div: Bignum, tmp: Bignum, tmp2: Bignum, ms2: Bignum, ms: word, i: nat, k: nat, l: nat,
      ghost m: seq<word>) returns (q: word, ghost over: bool)
    requires x.Valid() && div.Valid() && tmp.Valid() && tmp2.Valid() && ms2.Valid()
    requires Separate(x, div) && Separate(x, tmp) && Separate(x, tmp2) && Separate(x, ms2) && Separate(div, tmp)
    requires Separate(div, tmp2) && Separate(div, ms2) && Separate(tmp, tmp2) && Separate(tmp, ms2)
      && Separate(tmp2, ms2)
    requires tmp.space >= 4 && tmp2.space >= 3
    requires 1 <= k <= i < l <= x.space && |m| == k && ms == m[k - 1] >= 0x8000_0000 && ms2.Mag() == Top2(m, k - 1)
    requires x.Trimmed() && div.Trimmed() && x.sign == div.sign == POS && CleanAbove(x, l)
    requires div.length == i && div.Mag() == Shift(i - k, Val(m)) && x.Mag() <= B * div.Mag()
    modifies x, x.num, tmp, tmp.num, tmp2, tmp2.num, div
    ensures x.Valid() && x.Trimmed() && x.sign == POS && x.num == old(x.num) && x.space == old(x.space)
      && CleanAbove(x, l)
    ensures tmp.Valid() && (tmp.num == old(tmp.num) || fresh(tmp.num)) && tmp.space >= old(tmp.space)
    ensures tmp2.Valid() && tmp2.num == old(tmp2.num) && tmp2.space == old(tmp2.space)
    ensures div.Valid() && Untouched(div)
    ensures old(x.num.Length) > i && q == Trial(old(x.num[..i + 1]), i, ms, Top2(m, k - 1))
    ensures over <==> q * old(div.Mag()) > old(x.Mag())
    ensures x.Mag() == old(x.Mag()) - q * old(div.Mag()) + if over then old(div.Mag()) else 0
    ensures x.Mag() <= div.Mag() && (old(x.Mag()) < B * div.Mag() ==> x.Mag() < div.Mag())
    ensures old(x.Mag()) == B * div.Mag() ==> x.Mag() == div.Mag() && !over
  {
    hide Val, Shift, Top2, Top3, Trial;
    ghost var d := div.Mag();
    FullRow(x, i, k, l, m);
    ghost var z := x.num[..i + 1];
    LeadingTwoBounds(m, k);
    q := TrialDigit(x, i, ms, ms2, tmp, tmp2);
    TrialBounds(z, i, ms, ms2.Mag());
    DigitFacts(z, m, i, k, q, ms);
    SetProduct(div, q, tmp);
    DigitProduct(q, d, x.Mag());
    ProductLength(tmp, q, d, i, k, m);
    over := q * d > x.Mag();
    SubtractBack(x, tmp, div, i, l);
  }

  /** The words of x the step looks at denote x, and the top one is at most the divisor's. */
  lemma FullRow(x: Bignum, i: nat, k: nat, l: nat, m: seq<word>)
    requires x.Valid() && x.NoLeadingZero() && 1 <= k <= i < l <= x.space && |m| == k && CleanAbove(x, l)
    requires x.Mag() <= B * Shift(i - k, Val(m))
    ensures x.length <= i + 1 && Val(x.num[..i + 1]) == x.Mag() && x.num[i] <= m[k - 1]
  {
    hide Val, Shift;
    if x.length < l {
      CleanRow(x, l);
    }
    if x.length <= l {
      CleanRow(x, l);
      TopWordBound(x.num[..l], m, i, k);
    } else {
      TopWordBound(x.num[..x.length], m, i, k);
    }
    ShortEnough(x, i + 1);
    CleanRow(x, i + 1);
  }

  lemma DigitProduct(q: int, d: int, x: int)
    requires q >= 0 && d > 0
    ensures q * d == 0 || q * d >= d
  {
    if q > 0 {
      MulOrder(d, 1, q);
    }
  }

  lemma ProductLength(tmp: Bignum, q: word, d: int, i: nat, k: nat, m: seq<word>)
    requires tmp.Valid() && tmp.NoLeadingZero() && tmp.Mag() == q * d && 1 <= k <= i && |m| == k
      && d == Shift(i - k, Val(m))
    ensures tmp.length <= i + 1
  {
    hide *;
    BaseIs();
    ValBound(m);
    DivisorBound(i, k, Val(m));
    MulOrder(d, q, B);
    ShiftOne(i, 1);
    ShortEnough(tmp, i + 1);
  }

  lemma DivisorBound(i: nat, k: nat, v: int)
    requires 1 <= k <= i && 0 <= v < Shift(k, 1)
    ensures 0 <= Shift(i - k, v) < Shift(i, 1)
  {
    hide *;
    ShiftOrder(i - k, v, Shift(k, 1));
    ShiftShift(i - k, k, 1);
    NonNegativeShift(i - k, v);
  }
}
