/**
  bigDivide and bigMod as whole operations: normalisation, the digit loop, and what is left
  in x, m and the quotient.
 */
module LongDivision {
  import opened Words
  import opened LongMult
  import opened WordLoops
  import opened Bignums
  import opened CoreMult
  import opened BigMath
  import opened BigShift
  import opened LongDivide
  import opened Digits
  import opened Divide

  /** The n low words of a number. */
  ghost function Row(v: int, n: nat): (z: seq<word>)
    requires v >= 0
    ensures |z| == n
  {
    if n == 0 then [] else [Wrap(v)] + Row(v / 0x1_0000_0000, n - 1)
  }

  lemma {:induction false} RowVal(v: int, n: nat)
    requires 0 <= v < Shift(n, 1)
    ensures Val(Row(v, n)) == v
  {
    if n > 0 {
      RowVal(v / 0x1_0000_0000, n - 1);
      ConsVal(Wrap(v), Row(v / 0x1_0000_0000, n - 1));
    }
  }

  lemma RowOf(z: seq<word>)
    ensures Row(Val(z), |z|) == z
  {
    ValBound(z);
    RowVal(Val(z), |z|);
    ValInjective(z, Row(Val(z), |z|));
  }

  /** Each digit leaves a remainder the next one can start from. */
  lemma StepStays(x: int, m: seq<word>, n: nat)
    requires n >= 1 && x >= 0 && |m| >= 1 && m[|m| - 1] >= 0x8000_0000 && x <= Shift(n, Val(m))
    ensures var k, i, d := |m|, |m| + n - 1, Shift(n - 1, Val(m));
      && Top2(m, k - 1) > 0
      && var q := Trial(Row(x, i + 1), i, m[k - 1], Top2(m, k - 1));
      && 0 <= q < B && d > 0
      && (q * d > x ==> 0 <= x - q * d + d < d)
      && (q * d <= x ==> x - q * d <= d && (x < B * d ==> x - q * d < d))
      && (x == B * d ==> x - q * d == d)
  {
    hide *;
    BaseIs();
    var k, i := |m|, |m| + n - 1;
    var d := Shift(n - 1, Val(m));
    ShiftOne(n - 1, Val(m));
    LeadingTwoBounds(m, k);
    RowFits(x, m, n);
    RowVal(x, i + 1);
    var z := Row(x, i + 1);
    TopWordBound(z, m, i, k);
    TrialBounds(z, i, m[k - 1], Top2(m, k - 1));
    DigitFacts(z, m, i, k, Trial(z, i, m[k - 1], Top2(m, k - 1)), m[k - 1]);
  }

  lemma RowFits(x: int, m: seq<word>, n: nat)
    requires |m| >= 1 && x <= Shift(n, Val(m))
    ensures x < Shift(|m| + n, 1)
  {
    hide *;
    ValBound(m);
    ShiftOrder(n, Val(m), Shift(|m|, 1));
    ShiftShift(n, |m|, 1);
  }

  /** The digit the loop settles on with n digits to go. */
  ghost function StepDigit(x: int, m: seq<word>, n: nat): (q: int)
    requires n >= 1 && x >= 0 && |m| >= 1 && m[|m| - 1] >= 0x8000_0000 && x <= Shift(n, Val(m))
    ensures var d := Shift(n - 1, Val(m));
      && 0 <= q < B && d > 0
      && (q * d > x ==> 0 <= x - q * d + d < d)
      && (q * d <= x ==> x - q * d <= d && (x < B * d ==> x - q * d < d))
      && (x == B * d ==> x - q * d == d)
  {
    StepStays(x, m, n);
    Trial(Row(x, |m| + n), |m| + n - 1, m[|m| - 1], Top2(m, |m| - 1))
  }

  /** Whether the digit overshoots, the guard of the add-back branch. */
  ghost predicate StepOver(x: int, m: seq<word>, n: nat)
    requires n >= 1 && x >= 0 && |m| >= 1 && m[|m| - 1] >= 0x8000_0000 && x <= Shift(n, Val(m))
  {
    StepDigit(x, m, n) * Shift(n - 1, Val(m)) > x
  }

  /** What the step leaves, brought back up if the digit overshot. */
  ghost function StepRest(x: int, m: seq<word>, n: nat): (r: int)
    requires n >= 1 && x >= 0 && |m| >= 1 && m[|m| - 1] >= 0x8000_0000 && x <= Shift(n, Val(m))
    ensures 0 <= r <= Shift(n - 1, Val(m))
  {
    var q, d := StepDigit(x, m, n), Shift(n - 1, Val(m));
    if q * d > x then x - q * d + d else x - q * d
  }

  /**
    How much the digits that overshoot add to a quotient of n digits: x is what is left to divide
    by the divisor row m moved up n words, and each overshoot counts one at its digit's place.
   */
  ghost function Excess(x: int, m: seq<word>, n: nat): int
    requires x >= 0 && |m| >= 1 && m[|m| - 1] >= 0x8000_0000 && x <= Shift(n, Val(m))
    decreases n
  {
    if n == 0 then 0
    else (if StepOver(x, m, n) then Shift(n - 1, 1) else 0) + Excess(StepRest(x, m, n), m, n - 1)
  }

  /** The add-back branch is taken at some step. */
  ghost predicate Overshoots(x: int, m: seq<word>, n: nat)
    requires x >= 0 && |m| >= 1 && m[|m| - 1] >= 0x8000_0000 && x <= Shift(n, Val(m))
    decreases n
  {
    n > 0 && (StepOver(x, m, n) || Overshoots(StepRest(x, m, n), m, n - 1))
  }

  lemma {:induction false} ExcessMeans(x: int, m: seq<word>, n: nat)
    requires x >= 0 && |m| >= 1 && m[|m| - 1] >= 0x8000_0000 && x <= Shift(n, Val(m))
    ensures Excess(x, m, n) >= 0
    ensures Excess(x, m, n) > 0 <==> Overshoots(x, m, n)
    decreases n
  {
    hide StepOver, StepRest, Val, Shift;
    if n > 0 {
      ExcessMeans(StepRest(x, m, n), m, n - 1);
      ShiftOrder(n - 1, 0, 1);
      ShiftZero(n - 1);
    }
  }

  /** Where the two leading words are the whole divisor. */
  lemma ShortDivisor(m: seq<word>)
    requires 1 <= |m| <= 2
    ensures B * Val(m) == Shift(|m| - 1, Top2(m, |m| - 1))
  {
    if |m| == 1 {
      assert m == [m[0]];
      ValSingle(m[0]);
    } else {
      PairOf(m);
    }
  }

  lemma CancelBase(q: int, d: int, x: int)
    requires q * (B * d) <= B * x
    ensures q * d <= x
  {
    assert q * (B * d) == B * (q * d);
  }

  /** The trial digit of such a divisor is the digit. */
  lemma ShortStep(x: int, m: seq<word>, n: nat)
    requires n >= 1 && x >= 0 && 1 <= |m| <= 2 && m[|m| - 1] >= 0x8000_0000 && x <= Shift(n, Val(m))
    ensures !StepOver(x, m, n)
  {
    hide Val, Shift, Top2, Top3, Row;
    var k, i := |m|, |m| + n - 1;
    var ms2, d := Top2(m, k - 1), Shift(n - 1, Val(m));
    StepStays(x, m, n);
    RowFits(x, m, n);
    RowVal(x, i + 1);
    var z := Row(x, i + 1);
    var q := Trial(z, i, m[k - 1], ms2);
    RemainderOf(Top3(z, i), ms2);
    MulOrder(ms2, q, Top3(z, i) / ms2);
    Swapped(ms2, Top3(z, i) / ms2);
    LeadingThree(z, i);
    LeadPart(i - 1, q, ms2, Top3(z, i), B * x);
    ShortDivisor(m);
    ScaledDivisor(i, k, Val(m), ms2);
    CancelBase(q, d, x);
  }

  /** A divisor of one or two words never takes the add-back branch. */
  lemma {:induction false} ShortDivisorExact(x: int, m: seq<word>, n: nat)
    requires x >= 0 && 1 <= |m| <= 2 && m[|m| - 1] >= 0x8000_0000 && x <= Shift(n, Val(m))
    ensures !Overshoots(x, m, n)
    decreases n
  {
    if n > 0 {
      ShortStep(x, m, n);
      ShortDivisorExact(StepRest(x, m, n), m, n - 1);
    }
  }

  /** Two to the 96th by 2^95 + 1: the digit is 2, it overshoots, and the quotient comes out one too large. */
  lemma OvershootExample()
    ensures Shift(3, 1) <= Shift(1, Val([1, 0, 0x8000_0000]))
    ensures Overshoots(Shift(3, 1), [1, 0, 0x8000_0000], 1)
    ensures Excess(Shift(3, 1), [1, 0, 0x8000_0000], 1) == 1
    ensures Shift(3, 1) / Val([1, 0, 0x8000_0000]) == 1
  {
    var m: seq<word> := [1, 0, 0x8000_0000];
    assert m == [1] + [0, 0x8000_0000];
    ConsVal(1, [0, 0x8000_0000]);
    PairOf([0, 0x8000_0000]);
    var v := 0x8000_0000_0000_0000_0000_0001;
    assert Val(m) == v;
    assert Shift(1, Val(m)) == 0x1_0000_0000 * v;
    assert Shift(3, 1) == 0x1_0000_0000_0000_0000_0000_0000;
    var z: seq<word> := [0, 0, 0, 1];
    assert z == [0, 0] + [0, 1];
    ValConcat([0, 0], [0, 1]);
    PairOf([0, 0]);
    PairOf([0, 1]);
    assert Shift(2, 0x1_0000_0000) == Shift(3, 1);
    RowOf(z);
    assert Row(Shift(3, 1), 4) == z;
    assert Top2(z, 3) == 0x1_0000_0000;
    assert Top3(z, 3) == 0x1_0000_0000_0000_0000;
    assert Top2(m, 2) == 0x8000_0000_0000_0000;
    assert Trial(z, 3, 0x8000_0000, Top2(m, 2)) == 2;
    assert StepDigit(Shift(3, 1), m, 1) == 2;
    assert Shift(0, Val(m)) == v;
    assert StepOver(Shift(3, 1), m, 1);
    assert Excess(StepRest(Shift(3, 1), m, 1), m, 0) == 0;
  }

  /** The five records of a long division in progress: separate, and set up for the divisor row m. */
  ghost predicate Ready(x: Bignum, div: Bignum, tmp: Bignum, tmp2: Bignum, ms2: Bignum, m: seq<word>, l: nat)
    reads x, x.num, div, div.num, tmp, tmp2, ms2, ms2.num
  {
    && x.Valid() && div.Valid() && tmp.Valid() && tmp2.Valid() && ms2.Valid()
    && Separate(x, div) && Separate(x, tmp) && Separate(x, tmp2) && Separate(x, ms2) && Separate(div, tmp)
    && Separate(div, tmp2) && Separate(div, ms2) && Separate(tmp, tmp2) && Separate(tmp, ms2) && Separate(tmp2, ms2)
    && tmp.space >= 4 && tmp2.space >= 3 && 1 <= |m| <= l <= x.space
    && m[|m| - 1] >= 0x8000_0000 && ms2.Mag() == Top2(m, |m| - 1)
    && x.Trimmed() && div.Trimmed() && x.sign == div.sign == POS && CleanAbove(x, l)
  }

  /** div holds the divisor moved up n words. */
  ghost predicate AtDigit(div: Bignum, m: seq<word>, n: nat)
    reads div, div.num
  {
    div.Valid() && div.length == |m| + n && div.Mag() == Shift(n, Val(m))
  }

  /** One turn of the digit loop: the divisor moves down a word and x loses its next digit. */
  method OneDigit(x: Bignum, div: Bignum, tmp: Bignum, tmp2: Bignum, ms2: Bignum, ms: word, n: nat, ghost m: seq<word>,
      k: nat, l: nat) returns (q: word)
    requires Ready(x, div, tmp, tmp2, ms2, m, l) && k == |m| && ms == m[k - 1]
    requires 1 <= n && k + n <= l && AtDigit(div, m, n) && x.Mag() <= Shift(n, Val(m))
    modifies x, x.num, div, div.num, tmp, tmp.num, tmp2, tmp2.num
    ensures Ready(x, div, tmp, tmp2, ms2, m, l) && AtDigit(div, m, n - 1)
    ensures x.num == old(x.num) && div.num == old(div.num) && tmp2.num == old(tmp2.num)
    ensures tmp.num == old(tmp.num) || fresh(tmp.num)
    ensures q == StepDigit(old(x.Mag()), m, n) && x.Mag() == StepRest(old(x.Mag()), m, n)
  {
    hide Val, Shift, Trial, Top2, Top3;
    ghost var v := x.Mag();
    var i := k + n - 1;
    StepStays(v, m, n);
    ShiftOne(n - 1, Val(m));
    FullRow(x, i, k, l, m);
    RowOf(x.num[..i + 1]);
    ShiftDivisor(div, n, m);
    ghost var over;
    q, over := DigitStep(x, div, tmp, tmp2, ms2, ms, i, k, l, m);
  }

  method ShiftDivisor(div: Bignum, n: nat, ghost m: seq<word>)
    requires |m| >= 1 && n >= 1 && AtDigit(div, m, n) && div.Trimmed() && div.sign == POS
    modifies div, div.num
    ensures div.Valid() && div.length == |m| + n - 1 && div.Mag() == Shift(n - 1, Val(m))
    ensures div.Trimmed() && div.sign == POS && div.num == old(div.num) && div.space == old(div.space)
  {
    hide Val, Shift;
    ghost var z := div.num[..div.length];
    MovedDown(z, n, Val(m));
    assert div.num[1..div.length] == z[1..];
    WordShiftRight(div, 1);
  }

  /** Dropping the low word of a number moved up n words moves it down one. */
  lemma MovedDown(z: seq<word>, n: nat, v: int)
    requires n >= 1 && |z| >= 1 && Val(z) == Shift(n, v)
    ensures Val(z[1..]) == Shift(n - 1, v)
  {
    assert Val(z) == z[0] + 0x1_0000_0000 * Val(z[1..]);
    assert Shift(n, v) == 0x1_0000_0000 * Shift(n - 1, v);
  }

  /** A step takes a multiple of the shifted divisor off, and keeps the boundary case on the boundary. */
  lemma RestFacts(x: int, m: seq<word>, n: nat)
    requires n >= 1 && x >= 0 && |m| >= 1 && m[|m| - 1] >= 0x8000_0000 && x <= Shift(n, Val(m))
    ensures var d, q := Shift(n - 1, Val(m)), StepDigit(x, m, n);
      && StepRest(x, m, n) == x - (q - (if StepOver(x, m, n) then 1 else 0)) * d
      && (x < Shift(n, Val(m)) ==> StepRest(x, m, n) < d)
      && (x == Shift(n, Val(m)) ==> StepRest(x, m, n) == d)
  {
    hide Val, Trial, Top2;
    var d, q := Shift(n - 1, Val(m)), StepDigit(x, m, n);
    ShiftOne(n - 1, Val(m));
    OneLess(q, d);
  }

  lemma OneLess(q: int, d: int)
    ensures (q - 1) * d == q * d - d && (q - 0) * d == q * d
  {
  }

  /** The numbers of bigMod's loop: x is congruent to a, below the shifted divisor or, from the start, equal to it. */
  ghost predicate Reducing(a: int, v: int, n0: nat, n: nat, x: int, t: int) {
    && 0 <= x <= Shift(n, v) && a == t * Shift(n, v) + x
    && (a < Shift(n0, v) ==> x < Shift(n, v)) && (a == Shift(n0, v) ==> x == Shift(n, v))
  }

  lemma ReducingStarts(a: int, v: int, n: nat)
    requires 0 <= a <= Shift(n, v)
    ensures Reducing(a, v, n, n, a, 0)
  {
    hide Shift;
    Identity(a, n, v);
  }

  lemma ReducingNext(a: int, m: seq<word>, n0: nat, n: nat, x: int, t: int)
    requires n >= 1 && |m| >= 1 && m[|m| - 1] >= 0x8000_0000 && Reducing(a, Val(m), n0, n, x, t)
    ensures 0 <= x <= Shift(n, Val(m))
    ensures var d := StepDigit(x, m, n) - if StepOver(x, m, n) then 1 else 0;
      Reducing(a, Val(m), n0, n - 1, StepRest(x, m, n), t * B + d)
  {
    hide Val, Shift, StepDigit, StepOver, StepRest;
    var d := StepDigit(x, m, n) - if StepOver(x, m, n) then 1 else 0;
    RestFacts(x, m, n);
    DigitJoined(t, n, Val(m), d, StepRest(x, m, n));
  }

  lemma ReducingEnds(a: int, v: int, n0: nat, x: int, t: int)
    requires v > 0 && Reducing(a, v, n0, 0, x, t)
    ensures a < Shift(n0, v) ==> x == a % v
    ensures a == Shift(n0, v) ==> x == v
  {
    hide Shift;
    ShiftZeroPlaces(v);
    if a < Shift(n0, v) {
      RemainderIs(a, v, t, x);
    }
  }

  lemma PositiveRow(m: seq<word>)
    requires |m| >= 1 && m[|m| - 1] >= 0x8000_0000
    ensures Val(m) > 0
  {
    TopWord(m);
  }

  /** bigMod's digit loop. */
  method ReduceDigits(x: Bignum, div: Bignum, tmp: Bignum, tmp2: Bignum, ms2: Bignum, ms: word, n0: nat,
      ghost m: seq<word>, k: nat, l: nat)
    requires Ready(x, div, tmp, tmp2, ms2, m, l) && k == |m| && ms == m[k - 1]
    requires k + n0 <= l && AtDigit(div, m, n0) && x.Mag() <= Shift(n0, Val(m))
    modifies x, x.num, div, div.num, tmp, tmp.num, tmp2, tmp2.num
    ensures x.Valid() && x.Trimmed() && x.sign == POS && x.num == old(x.num)
    ensures Val(m) > 0
    ensures old(x.Mag()) < Shift(n0, Val(m)) ==> x.Mag() == old(x.Mag()) % Val(m)
    ensures old(x.Mag()) == Shift(n0, Val(m)) ==> x.Mag() == Val(m)
  {
    hide Val, Shift, Trial, Top2, Top3, StepDigit, StepRest, StepOver, Reducing, AtDigit;
    ghost var a := x.Mag();
    var n := n0;
    ghost var t := 0;
    PositiveRow(m);
    ReducingStarts(a, Val(m), n);
    while n > 0
      invariant 0 <= n <= n0 && Ready(x, div, tmp, tmp2, ms2, m, l) && AtDigit(div, m, n)
      invariant x.num == old(x.num) && div.num == old(div.num) && tmp2.num == old(tmp2.num)
      invariant tmp.num == old(tmp.num) || fresh(tmp.num)
      invariant Reducing(a, Val(m), n0, n, x.Mag(), t)
    {
      ghost var v := x.Mag();
      ReducingNext(a, m, n0, n, v, t);
      ghost var over := if StepOver(v, m, n) then 1 else 0;
      var q := OneDigit(x, div, tmp, tmp2, ms2, ms, n, m, k, l);
      t := t * B + (q as int - over);
      n := n - 1;
    }
    ReducingEnds(a, Val(m), n0, x.Mag(), t);
  }

  lemma Identity(a: int, n: nat, v: int)
    ensures a == 0 * Shift(n, v) + a
  {
  }

  lemma DigitJoined(t: int, n: nat, v: int, d: int, r: int)
    requires n >= 1
    ensures t * Shift(n, v) + (r + d * Shift(n - 1, v)) == (t * B + d) * Shift(n - 1, v) + r
  {
    ShiftOne(n - 1, v);
    var s := Shift(n - 1, v);
    SumScaled(t * B, d, s);
    MulAssociates(t, B, s);
  }

  lemma RemainderIs(a: int, m: int, t: int, r: int)
    requires a == t * m + r && 0 <= r < m
    ensures a % m == r && a / m == t
  {
    QuotientIs(a, m, t, r);
    RemainderOf(a, m);
  }

  /** qu := qu * 2^32 + q. */
  method PushDigit(qu: Bignum, q: word)
    requires qu.Valid() && qu.NoLeadingZero() && qu.sign == POS
    modifies qu, qu.num
    ensures qu.Valid() && qu.NoLeadingZero() && qu.sign == POS && (qu.num == old(qu.num) || fresh(qu.num))
    ensures qu.Mag() == B * old(qu.Mag()) + q
  {
    hide Val, Shift, Pow2;
    ghost var v := qu.Mag();
    BigLeftShift(qu, 32, qu);
    Pow2Is32();
    ghost var z := qu.num[..qu.length];
    LowWordZero(z, v);
    qu.num[0] := q;
    assert qu.num[..qu.length] == [q] + z[1..];
    ConsVal(q, z[1..]);
  }

  lemma LowWordZero(z: seq<word>, v: int)
    requires |z| >= 1 && Val(z) == v * B
    ensures z[0] == 0 && Val(z[1..]) == v
  {
    assert Val(z) == z[0] + 0x1_0000_0000 * Val(z[1..]);
  }

  /** The quotient record of a division in progress, apart from the five working records. */
  ghost predicate QuotientApart(x: Bignum, div: Bignum, tmp: Bignum, tmp2: Bignum, ms2: Bignum, qu: Bignum)
    reads x, div, tmp, tmp2, ms2, qu, qu.num
  {
    && qu.Valid() && qu.NoLeadingZero() && qu.sign == POS
    && Separate(x, qu) && Separate(div, qu) && Separate(tmp, qu) && Separate(tmp2, qu) && Separate(ms2, qu)
  }

  /** One turn of bigDivide's loop: a digit of the quotient. */
  method QuotientDigit(x: Bignum, div: Bignum, tmp: Bignum, tmp2: Bignum, ms2: Bignum, qu: Bignum, ms: word, n: nat,
      ghost m: seq<word>, k: nat, l: nat) returns (q: word)
    requires Ready(x, div, tmp, tmp2, ms2, m, l) && k == |m| && ms == m[k - 1]
    requires 1 <= n && k + n <= l && AtDigit(div, m, n) && x.Mag() <= Shift(n, Val(m))
    requires QuotientApart(x, div, tmp, tmp2, ms2, qu)
    modifies x, x.num, div, div.num, tmp, tmp.num, tmp2, tmp2.num, qu, qu.num
    ensures Ready(x, div, tmp, tmp2, ms2, m, l) && AtDigit(div, m, n - 1) && QuotientApart(x, div, tmp, tmp2, ms2, qu)
    ensures x.num == old(x.num) && div.num == old(div.num) && tmp2.num == old(tmp2.num)
    ensures tmp.num == old(tmp.num) || fresh(tmp.num)
    ensures qu.num == old(qu.num) || fresh(qu.num)
    ensures q == StepDigit(old(x.Mag()), m, n) && x.Mag() == StepRest(old(x.Mag()), m, n)
    ensures qu.Mag() == B * old(qu.Mag()) + q
  {
    hide Val, Shift, Trial, Top2, Top3, StepDigit, StepRest, StepOver;
    q := OneDigit(x, div, tmp, tmp2, ms2, ms, n, m, k, l);
    PushDigit(qu, q);
  }

  /** The numbers of bigDivide's loop: t digits of the true quotient found, e their excess so far. */
  ghost predicate Halfway(a: int, m: seq<word>, n0: nat, q0: int, n: nat, x: int, qu: int, t: int, e: int)
    requires a >= 0 && |m| >= 1 && m[|m| - 1] >= 0x8000_0000 && a <= Shift(n0, Val(m))
  {
    && n <= n0 && 0 <= x < Shift(n, Val(m)) && a == t * Shift(n, Val(m)) + x
    && qu == Shift(n0 - n, q0) + t + e && Excess(a, m, n0) == Shift(n, e) + Excess(x, m, n)
  }

  lemma HalfwayStarts(a: int, m: seq<word>, n0: nat, q0: int)
    requires 0 <= a < Shift(n0, Val(m)) && |m| >= 1 && m[|m| - 1] >= 0x8000_0000
    ensures Halfway(a, m, n0, q0, n0, a, q0, 0, 0)
  {
    hide Val, Excess;
    Identity(a, n0, Val(m));
    QuotientStarts(n0, q0, Excess(a, m, n0));
  }

  lemma HalfwayBound(a: int, m: seq<word>, n0: nat, q0: int, n: nat, x: int, qu: int, t: int, e: int)
    requires a >= 0 && |m| >= 1 && m[|m| - 1] >= 0x8000_0000 && a <= Shift(n0, Val(m))
    requires Halfway(a, m, n0, q0, n, x, qu, t, e)
    ensures n <= n0 && 0 <= x < Shift(n, Val(m))
  {
  }

  lemma HalfwayNext(a: int, m: seq<word>, n0: nat, q0: int, n: nat, x: int, qu: int, t: int, e: int)
    requires a >= 0 && |m| >= 1 && m[|m| - 1] >= 0x8000_0000 && a <= Shift(n0, Val(m))
    requires n > 0 && Halfway(a, m, n0, q0, n, x, qu, t, e)
    ensures 0 <= x <= Shift(n, Val(m))
    ensures var q, over := StepDigit(x, m, n), if StepOver(x, m, n) then 1 else 0;
      Halfway(a, m, n0, q0, n - 1, StepRest(x, m, n), B * qu + q, t * B + (q - over), e * B + over)
  {
    hide Val, Shift, StepDigit, StepOver, StepRest, Excess;
    var q, over := StepDigit(x, m, n), if StepOver(x, m, n) then 1 else 0;
    RestFacts(x, m, n);
    ExcessStep(x, m, n, e);
    DigitJoined(t, n, Val(m), q - over, StepRest(x, m, n));
    ShiftOne(n0 - n, q0);
  }

  lemma HalfwayEnds(a: int, m: seq<word>, n0: nat, q0: int, x: int, qu: int, t: int, e: int)
    requires a >= 0 && |m| >= 1 && m[|m| - 1] >= 0x8000_0000 && a <= Shift(n0, Val(m))
    requires Halfway(a, m, n0, q0, 0, x, qu, t, e)
    ensures Val(m) > 0 && x == a % Val(m) && qu == Shift(n0, q0) + a / Val(m) + Excess(a, m, n0)
  {
    hide Val, Shift, Excess;
    ShiftZeroPlaces(Val(m));
    ShiftZeroPlaces(e);
    NoExcess(x, m);
    RemainderIs(a, Val(m), t, x);
  }

  /** bigDivide's digit loop. */
  method DivideDigits(x: Bignum, div: Bignum, tmp: Bignum, tmp2: Bignum, ms2: Bignum, qu: Bignum, ms: word, n0: nat,
      ghost m: seq<word>, k: nat, l: nat)
    requires Ready(x, div, tmp, tmp2, ms2, m, l) && k == |m| && ms == m[k - 1]
    requires k + n0 <= l && AtDigit(div, m, n0) && x.Mag() < Shift(n0, Val(m))
    requires QuotientApart(x, div, tmp, tmp2, ms2, qu)
    modifies x, x.num, div, div.num, tmp, tmp.num, tmp2, tmp2.num, qu, qu.num
    ensures x.Valid() && x.Trimmed() && x.sign == POS && x.num == old(x.num) && x.space == old(x.space)
    ensures qu.Valid() && qu.NoLeadingZero() && qu.sign == POS && (qu.num == old(qu.num) || fresh(qu.num))
    ensures Val(m) > 0 && x.Mag() == old(x.Mag()) % Val(m)
    ensures qu.Mag() == Shift(n0, old(qu.Mag())) + old(x.Mag()) / Val(m) + Excess(old(x.Mag()), m, n0)
  {
    hide Val, Shift, Trial, Top2, Top3, StepDigit, StepRest, StepOver, Excess, Halfway, AtDigit;
    ghost var a, q0 := x.Mag(), qu.Mag();
    var n := n0;
    ghost var t, e := 0, 0;
    HalfwayStarts(a, m, n0, q0);
    while n > 0
      invariant 0 <= n <= n0 && Ready(x, div, tmp, tmp2, ms2, m, l) && AtDigit(div, m, n)
      invariant x.num == old(x.num) && div.num == old(div.num) && tmp2.num == old(tmp2.num)
      invariant tmp.num == old(tmp.num) || fresh(tmp.num)
      invariant qu.num == old(qu.num) || fresh(qu.num)
      invariant QuotientApart(x, div, tmp, tmp2, ms2, qu)
      invariant x.Valid() && qu.Valid() && Halfway(a, m, n0, q0, n, x.Mag(), qu.Mag(), t, e)
    {
      ghost var v := x.Mag();
      HalfwayNext(a, m, n0, q0, n, v, qu.Mag(), t, e);
      ghost var over := if StepOver(v, m, n) then 1 else 0;
      var q := QuotientDigit(x, div, tmp, tmp2, ms2, qu, ms, n, m, k, l);
      t := t * B + (q as int - over);
      e := e * B + over;
      n := n - 1;
    }
    HalfwayEnds(a, m, n0, q0, x.Mag(), qu.Mag(), t, e);
  }

  lemma QuotientStarts(n: nat, q: int, e: int)
    ensures Shift(n - n, q) == q && Shift(n, 0) + e == e
  {
    ShiftZero(n);
  }

  lemma NoExcess(x: int, m: seq<word>)
    requires x >= 0 && |m| >= 1 && m[|m| - 1] >= 0x8000_0000 && x <= Shift(0, Val(m))
    ensures Excess(x, m, 0) == 0
  {
  }

  lemma ExcessStep(x: int, m: seq<word>, n: nat, e: int)
    requires n >= 1 && x >= 0 && |m| >= 1 && m[|m| - 1] >= 0x8000_0000 && x <= Shift(n, Val(m))
    ensures Shift(n, e) + Excess(x, m, n)
         == Shift(n - 1, e * B + (if StepOver(x, m, n) then 1 else 0)) + Excess(StepRest(x, m, n), m, n - 1)
  {
    hide Val, StepOver, StepRest, Shift;
    var over := if StepOver(x, m, n) then 1 else 0;
    ShiftAdd(n - 1, e * B, over);
    ShiftNext(n - 1, e);
    ShiftZero(n - 1);
  }
}
