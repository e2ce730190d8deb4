/**
  bigDivide (crypt/bigDivide.c) and bigMod (crypt/bigMod.c): the early returns, normalisation,
  the first subtraction, the digit loop and undoing the normalisation.
 */
module Division {
  import opened Words
  import opened LongMult
  import opened WordLoops
  import opened Bignums
  import opened CoreMult
  import opened BigMath
  import opened BigShift
  import opened LongDivide
  import opened Digits
  import opened Divide
  import opened LongDivision

  /** msb: the number of bits of a word. */
  function Msb(w: nat): (n: nat)
    ensures w < Pow2(n) && (w > 0 ==> n >= 1 && w >= Pow2(n - 1))
  {
    if w == 0 then 0 else 1 + Msb(w / 2)
  }

  lemma {:induction false} Pow2Grows(m: nat, n: nat)
    requires m <= n
    ensures Pow2(m) <= Pow2(n)
  {
    if m < n {
      Pow2Grows(m, n - 1);
    }
  }

  lemma Pow2IsTwo()
    ensures Pow2(1) == 2
  {
  }

  lemma MsbOfWord(w: word)
    requires w > 0
    ensures 1 <= Msb(w) <= 32
    ensures w >= 0x8000_0000 <==> Msb(w) == 32
  {
    hide Pow2;
    Pow2Is32();
    Pow2Add(1, 31);
    Pow2IsTwo();
    if Msb(w) > 32 {
      Pow2Grows(32, Msb(w) - 1);
    }
    if Msb(w) < 32 {
      Pow2Grows(Msb(w), 31);
    }
  }

  /** How far the divisor moves up so that its top bit is set. */
  ghost function NormalBits(m: seq<word>): (n: nat)
    requires |m| >= 1 && m[|m| - 1] != 0
    ensures n < 32
    ensures n == 0 <==> m[|m| - 1] >= 0x8000_0000
  {
    MsbOfWord(m[|m| - 1]);
    32 - Msb(m[|m| - 1])
  }

  lemma NormalRange(m: seq<word>)
    requires |m| >= 1 && m[|m| - 1] != 0
    ensures Shift(|m| - 1, 0x8000_0000) <= Val(m) * Pow2(NormalBits(m)) < Shift(|m|, 1)
  {
    hide *;
    var k, t: int := |m|, m[|m| - 1];
    var p := Pow2(NormalBits(m));
    NormalTop(m);
    RowBelow(m, k);
    RowAbove(m, k);
    NormalNumbers(k, Val(m), t, p);
  }

  lemma NormalTop(m: seq<word>)
    requires |m| >= 1 && m[|m| - 1] != 0
    ensures var t: int, p := m[|m| - 1], Pow2(NormalBits(m));
      p >= 1 && 0x8000_0000 <= t * p && (t + 1) * p <= B
  {
    hide Pow2, Msb;
    var t: int := m[|m| - 1];
    var n := NormalBits(m);
    MsbOfWord(m[|m| - 1]);
    Pow2Is32();
    Pow2Add(1, 31);
    Pow2IsTwo();
    Pow2Add(n, 32 - n);
    Pow2Add(n, 31 - n);
    Swapped(t, Pow2(n));
    Swapped(t + 1, Pow2(n));
    MulOrder(Pow2(n), Pow2(31 - n), t);
    MulOrder(Pow2(n), t + 1, Pow2(32 - n));
  }

  lemma NormalNumbers(k: nat, v: int, t: int, p: int)
    requires k >= 1 && p >= 1 && 0x8000_0000 <= t * p && (t + 1) * p <= B
    requires Shift(k - 1, t) <= v < Shift(k - 1, t + 1)
    ensures Shift(k - 1, 0x8000_0000) <= v * p < Shift(k, 1)
  {
    hide *;
    BaseIs();
    MulOrder(p, Shift(k - 1, t), v);
    MulLess(p, v, Shift(k - 1, t + 1));
    Swapped(v, p);
    Swapped(Shift(k - 1, t), p);
    Swapped(Shift(k - 1, t + 1), p);
    ShiftMul(k - 1, t, p);
    ShiftMul(k - 1, t + 1, p);
    ShiftAtMost(k - 1, 0x8000_0000, t * p);
    ShiftAtMost(k - 1, (t + 1) * p, B);
    ShiftNext(k - 1, 1);
  }

  lemma MulLess(p: int, x: int, y: int)
    requires p >= 1 && x < y
    ensures p * x < p * y
  {
  }

  lemma RowAbove(m: seq<word>, k: nat)
    requires 1 <= k == |m|
    ensures Shift(k - 1, m[k - 1]) <= Val(m)
  {
    hide *;
    ValExtend(m, k - 1);
    assert m[..k - 1 + 1] == m;
  }

  /** The divisor row after normalisation. */
  ghost function NormalRow(m: seq<word>): (z: seq<word>)
    requires |m| >= 1 && m[|m| - 1] != 0
    ensures |z| == |m| && Val(z) == Val(m) * Pow2(NormalBits(m)) && z[|m| - 1] >= 0x8000_0000
  {
    NormalRange(m);
    RowVal(Val(m) * Pow2(NormalBits(m)), |m|);
    var z := Row(Val(m) * Pow2(NormalBits(m)), |m|);
    TopAtLeast(z, 0x8000_0000);
    z
  }

  lemma TopAtLeast(z: seq<word>, t: int)
    requires |z| >= 1 && Val(z) >= Shift(|z| - 1, t)
    ensures z[|z| - 1] >= t
  {
    hide Val, Shift;
    RowBelow(z, |z|);
    ShiftOrder(|z| - 1, t, (z[|z| - 1] as int) + 1);
  }

  /** A trimmed number in the normal range of k words has k words and its top bit set. */
  lemma NormalLength(m: Bignum, k: nat)
    requires m.Valid() && m.NoLeadingZero() && k >= 1
    requires Shift(k - 1, 0x8000_0000) <= m.Mag() < Shift(k, 1)
    ensures m.length == k && m.num[k - 1] >= 0x8000_0000
  {
    hide Val, Shift;
    ShortEnough(m, k);
    if m.length < k {
      ValBound(m.num[..m.length]);
      ShiftGrows(m.length, k - 1);
      ShiftAtMost(k - 1, 1, 0x8000_0000);
    }
    TopAtLeast(m.num[..k], 0x8000_0000);
  }

  /** Moves the divisor up until its top bit is set, and the dividend with it. */
  method Normalise(m: Bignum, x: Bignum) returns (bits: nat)
    requires m.Valid() && x.Valid() && Separate(m, x) && m.sign == x.sign == POS && m.Trimmed() && x.Trimmed()
    requires m.num[m.length - 1] != 0 && x.length <= x.space
    modifies m, m.num, x, x.num
    ensures m.Valid() && x.Valid() && Separate(m, x) && m.sign == x.sign == POS && m.Trimmed() && x.Trimmed()
    ensures m.num == old(m.num) || fresh(m.num)
    ensures x.num == old(x.num) || fresh(x.num)
    ensures x.length <= x.space && m.length == old(m.length)
    ensures bits == NormalBits(old(m.Digits())) && m.Digits() == NormalRow(old(m.Digits()))
    ensures x.Mag() == old(x.Mag()) * Pow2(bits)
  {
    ghost var z := m.num[..m.length];
    NormalRange(z);
    MsbOfWord(m.num[m.length - 1]);
    hide Val, Shift, Pow2, Msb, NormalRow;
    bits := 0;
    if m.num[m.length - 1] < 0x8000_0000 {
      bits := 32 - Msb(m.num[m.length - 1]);
      BigLeftShift(m, bits, m);
      BigLeftShift(x, bits, x);
    } else {
      Unshifted(Val(z));
      Unshifted(x.Mag());
    }
    NormalLength(m, |z|);
    NormalRowIs(z, m.num[..m.length]);
  }

  lemma Unshifted(v: int)
    ensures v * Pow2(0) == v
  {
  }

  lemma NormalRowIs(m: seq<word>, z: seq<word>)
    requires |m| >= 1 && m[|m| - 1] != 0 && |z| == |m| && Val(z) == Val(m) * Pow2(NormalBits(m))
    ensures z == NormalRow(m)
  {
    hide Val, Pow2, NormalBits;
    ValInjective(z, NormalRow(m));
  }

  /** The two leading words of the divisor, zero standing in for a missing one. */
  method LeadingWords(m: Bignum) returns (ms2: Bignum)
    requires m.Valid() && m.num[m.length - 1] >= 0x8000_0000
    ensures fresh(ms2) && fresh(ms2.num) && ms2.Valid() && ms2.Mag() == Top2(m.num[..m.length], m.length - 1)
  {
    hide Val, Shift;
    ms2 := new Bignum(0);
    ms2.Guarantee(2);
    var k := m.length;
    ms2.num[1] := m.num[k - 1];
    ms2.num[0] := if k >= 2 then m.num[k - 2] else 0;
    ms2.length := 2;
    PairOf(ms2.num[..2]);
  }

  method Scratch(n: nat) returns (tmp: Bignum)
    ensures fresh(tmp) && fresh(tmp.num) && tmp.Valid() && tmp.space >= n
  {
    tmp := new Bignum(0);
    tmp.Guarantee(n);
  }

  /** The working records of a division of x by m. */
  method SetUp(x: Bignum, m: Bignum) returns (div: Bignum, tmp: Bignum, tmp2: Bignum, ms2: Bignum)
    requires x.Valid() && m.Valid() && x.Trimmed() && x.sign == POS
    requires m.num[m.length - 1] >= 0x8000_0000 && m.length <= x.length <= x.space
    ensures fresh(div) && fresh(tmp) && fresh(tmp2) && fresh(ms2)
    ensures fresh(div.num) && fresh(tmp.num) && fresh(tmp2.num) && fresh(ms2.num)
    ensures Ready(x, div, tmp, tmp2, ms2, m.num[..m.length], x.length)
    ensures AtDigit(div, m.num[..m.length], x.length - m.length)
  {
    hide Val, Shift, Top2;
    var lendiff := x.length - m.length;
    ms2 := LeadingWords(m);
    tmp := Scratch(4);
    tmp2 := Scratch(4);
    div := ScaledUp(m, lendiff);
  }

  /** The divisor moved up n words. */
  method ScaledUp(m: Bignum, n: nat) returns (div: Bignum)
    requires m.Valid() && m.num[m.length - 1] >= 0x8000_0000
    ensures fresh(div) && fresh(div.num) && div.Valid() && div.Trimmed() && div.sign == POS
      && AtDigit(div, m.num[..m.length], n)
  {
    hide Val, Shift;
    div := new Bignum(0);
    WordShiftLeft(m, div, n);
    ScaledLength(div, m.num[..m.length], n);
  }

  lemma ScaledLength(div: Bignum, m: seq<word>, n: nat)
    requires div.Valid() && div.NoLeadingZero() && |m| >= 1 && m[|m| - 1] >= 0x8000_0000
    requires div.Mag() == Shift(n, Val(m))
    ensures div.length == |m| + n
  {
    hide Val, Shift;
    ValBound(m);
    ShiftOrder(n, Val(m), Shift(|m|, 1));
    ShiftShift(n, |m|, 1);
    RowAbove(m, |m|);
    ShiftAtMost(|m| - 1, 0x8000_0000, m[|m| - 1]);
    ShiftAtMost(n, Shift(|m| - 1, 0x8000_0000), Val(m));
    ShiftShift(n, |m| - 1, 0x8000_0000);
    NormalLength(div, |m| + n);
  }

  /** How many words a number takes. */
  ghost function WordCount(v: nat): (n: nat)
    ensures n >= 1
  {
    if v < 0x1_0000_0000 then 1 else 1 + WordCount(v / 0x1_0000_0000)
  }

  lemma {:induction false} WordCountOf(z: seq<word>)
    requires |z| >= 1 && (|z| > 1 ==> z[|z| - 1] != 0)
    ensures WordCount(Val(z)) == |z|
  {
    assert Val(z) == z[0] + 0x1_0000_0000 * Val(z[1..]);
    if |z| == 1 {
    } else {
      TopWord(z[1..]);
      ShiftGrows(0, |z| - 2);
      if |z| > 2 {
        assert z[1..][|z| - 2] == z[|z| - 1];
      }
      WordCountOf(z[1..]);
      assert Val(z) / 0x1_0000_0000 == Val(z[1..]);
    }
  }

  /** Digits of the quotient loop for a dividend x and a normalised divisor of k words. */
  ghost function DigitCount(x: nat, k: nat): int {
    WordCount(x) - k
  }

  /** One subtraction brings the dividend below the divisor moved up to its length. */
  lemma FirstDigit(x: Bignum, m: seq<word>)
    requires x.Valid() && x.Trimmed() && |m| >= 1 && m[|m| - 1] >= 0x8000_0000 && x.Mag() >= Val(m)
    ensures x.length >= |m| && DigitCount(x.Mag(), |m|) == x.length - |m|
    ensures x.Mag() < 2 * Shift(x.length - |m|, Val(m))
  {
    hide Val, Shift;
    WordCountOf(x.num[..x.length]);
    if x.length < |m| {
      ShorterIsLess(x.num[..x.length], m);
    }
    var n, k := x.length - |m|, |m|;
    RowAbove(m, k);
    ShiftAtMost(k - 1, 0x8000_0000, m[k - 1]);
    ShiftAtMost(n, Shift(k - 1, 0x8000_0000), Val(m));
    ShiftShift(n, k - 1, 0x8000_0000);
    ValBound(x.num[..x.length]);
    ShiftNext(n + k - 1, 1);
    ShiftAdd(n + k - 1, 0x8000_0000, 0x8000_0000);
  }

  lemma FirstDigitOf(x: nat, m: seq<word>)
    requires |m| >= 1 && m[|m| - 1] >= 0x8000_0000 && x >= Val(m)
    ensures DigitCount(x, |m|) >= 0
    ensures x < 2 * Shift(DigitCount(x, |m|), Val(m))
  {
    hide Val, Shift, WordCount;
    WordCountBounds(x);
    var l, k := WordCount(x), |m|;
    ShiftAtMost(k - 1, 1, 0x8000_0000);
    RowAbove(m, k);
    ShiftAtMost(k - 1, 0x8000_0000, m[k - 1]);
    if l < k {
      ShiftGrows(l, k - 1);
    }
    var n := l - k;
    ShiftAtMost(n, Shift(k - 1, 0x8000_0000), Val(m));
    ShiftShift(n, k - 1, 0x8000_0000);
    ShiftNext(n + k - 1, 1);
    ShiftAdd(n + k - 1, 0x8000_0000, 0x8000_0000);
  }

  lemma {:induction false} WordCountBounds(v: nat)
    ensures v < Shift(WordCount(v), 1)
  {
    if v >= 0x1_0000_0000 {
      WordCountBounds(v / 0x1_0000_0000);
    }
  }

  /** What the first subtraction leaves of a dividend whose divisor is normalised. */
  ghost function FirstRest(x: nat, m: seq<word>): (r: nat)
    requires |m| >= 1 && m[|m| - 1] >= 0x8000_0000 && x >= Val(m)
    ensures DigitCount(x, |m|) >= 0 && r < Shift(DigitCount(x, |m|), Val(m))
  {
    FirstDigitOf(x, m);
    var d := Shift(DigitCount(x, |m|), Val(m));
    if x >= d then x - d else x
  }

  /** How much the digits that overshoot add to the quotient of x by the normalised divisor m. */
  ghost function NormalExcess(x: nat, m: seq<word>): int
    requires |m| >= 1 && m[|m| - 1] >= 0x8000_0000 && x >= Val(m)
  {
    var r := FirstRest(x, m);
    Excess(r, m, DigitCount(x, |m|))
  }

  /** bigDivide between normalising and undoing it: the first digit of the quotient, then the loop. */
  method DivideNormalised(x: Bignum, m: Bignum, qu: Bignum)
    requires x.Valid() && m.Valid() && qu.Valid() && Separate(x, m) && Separate(x, qu) && Separate(m, qu)
    requires x.Trimmed() && m.Trimmed() && x.sign == m.sign == POS && x.length <= x.space
    requires m.num[m.length - 1] >= 0x8000_0000 && x.Mag() >= m.Mag()
    requires qu.Mag() == 0 && qu.sign == POS && qu.NoLeadingZero()
    modifies x, x.num, qu, qu.num
    ensures x.Valid() && x.Trimmed() && x.sign == POS && (x.num == old(x.num) || fresh(x.num))
    ensures qu.Valid() && qu.NoLeadingZero() && qu.sign == POS && (qu.num == old(qu.num) || fresh(qu.num))
    ensures m.Mag() > 0 && x.Mag() == old(x.Mag()) % m.Mag()
    ensures Separate(x, qu)
    ensures qu.Mag() == old(x.Mag()) / m.Mag() + NormalExcess(old(x.Mag()), m.Digits())
  {
    hide Val, Shift, Excess, WordCount, Top2, AtDigit, FirstRest;
    ghost var a, z := x.Mag(), m.num[..m.length];
    var l, k := x.length, m.length;
    FirstDigit(x, z);
    PositiveRow(z);
    var div, tmp, tmp2, ms2 := SetUp(x, m);
    ghost var j := FirstQuotient(x, div, qu, z, l);
    DivideDigits(x, div, tmp, tmp2, ms2, qu, m.num[k - 1], l - k, z, k, l);
    FirstQuotientTotal(a, z, j, FirstRest(a, z), l - k);
  }

  /** The comparison before the loop: the quotient starts at 1 if the shifted divisor goes in once. */
  method FirstQuotient(x: Bignum, div: Bignum, qu: Bignum, ghost m: seq<word>, l: nat) returns (ghost j: int)
    requires x.Valid() && div.Valid() && qu.Valid() && Separate(x, div) && Separate(x, qu) && Separate(div, qu)
    requires x.Trimmed() && div.Trimmed() && x.sign == div.sign == POS && l == x.length <= x.space
    requires |m| >= 1 && m[|m| - 1] >= 0x8000_0000 && x.Mag() >= Val(m) && l >= |m|
    requires AtDigit(div, m, l - |m|) && DigitCount(x.Mag(), |m|) == l - |m|
    requires qu.Mag() == 0 && qu.sign == POS && qu.NoLeadingZero()
    modifies x, x.num, div, qu, qu.num
    ensures x.Valid() && x.Trimmed() && x.sign == POS && x.num == old(x.num) && x.space == old(x.space)
      && CleanAbove(x, l)
    ensures div.Valid() && div.Trimmed() && Untouched(div) && AtDigit(div, m, l - |m|)
    ensures qu.Valid() && qu.NoLeadingZero() && qu.sign == POS && qu.num == old(qu.num)
    ensures x.Mag() == FirstRest(old(x.Mag()), m) && qu.Mag() == j
    ensures old(x.Mag()) == j * Shift(l - |m|, Val(m)) + x.Mag()
  {
    hide Val, Shift, WordCount;
    j := 0;
    var order := Compare(x, div);
    if order >= 0 {
      ghost var y, z := x.Digits(), div.Digits();
      assert InPlaceSafe(y, z);
      Bigsub(x, div, x);
      qu.Reset(1);
      j := 1;
    }
  }

  lemma FirstQuotientTotal(a: int, m: seq<word>, j: int, r: int, n: nat)
    requires Val(m) > 0 && r >= 0 && a == j * Shift(n, Val(m)) + r
    ensures r % Val(m) == a % Val(m) && Shift(n, j) + r / Val(m) == a / Val(m)
  {
    hide *;
    var v := Val(m);
    ShiftMul(n, 1, v);
    ShiftMul(n, j, 1);
    MulAssociates(j, Shift(n, 1), v);
    SumScaled(j * Shift(n, 1), r / v, v);
    RemainderOf(r, v);
    RemainderIs(a, v, j * Shift(n, 1) + r / v, r % v);
  }

  /** bigMod between normalising and undoing it. */
  method ReduceNormalised(x: Bignum, m: Bignum)
    requires x.Valid() && m.Valid() && Separate(x, m)
    requires x.Trimmed() && m.Trimmed() && x.sign == m.sign == POS && x.length <= x.space
    requires m.length >= 2 && m.num[m.length - 1] >= 0x8000_0000 && x.Mag() >= m.Mag()
    modifies x, x.num
    ensures x.Valid() && x.Trimmed() && x.sign == POS && (x.num == old(x.num) || fresh(x.num))
    ensures m.Mag() > 0 && DigitCount(old(x.Mag()), m.length) >= 0
    ensures var d := Shift(DigitCount(old(x.Mag()), m.length), m.Mag());
      x.Mag() == if old(x.Mag()) == d then m.Mag() else old(x.Mag()) % m.Mag()
  {
    hide Val, Shift, WordCount, Top2, AtDigit;
    ghost var a, z := x.Mag(), m.num[..m.length];
    var l, k := x.length, m.length;
    FirstDigit(x, z);
    PositiveRow(z);
    var div, tmp, tmp2, ms2 := SetUp(x, m);
    ghost var j := FirstReduction(x, div, z, l);
    ReduceDigits(x, div, tmp, tmp2, ms2, m.num[k - 1], l - k, z, k, l);
    if a != Shift(l - k, Val(z)) {
      FirstQuotientTotal(a, z, j, a - j * Shift(l - k, Val(z)), l - k);
    }
  }

  method FirstReduction(x: Bignum, div: Bignum, ghost m: seq<word>, l: nat) returns (ghost j: int)
    requires x.Valid() && div.Valid() && Separate(x, div)
    requires x.Trimmed() && div.Trimmed() && x.sign == div.sign == POS && l == x.length <= x.space
    requires |m| >= 1 && l >= |m| && AtDigit(div, m, l - |m|) && x.Mag() < 2 * Shift(l - |m|, Val(m))
    modifies x, x.num, div
    ensures x.Valid() && x.Trimmed() && x.sign == POS && x.num == old(x.num) && x.space == old(x.space)
      && CleanAbove(x, l)
    ensures div.Valid() && div.Trimmed() && Untouched(div) && AtDigit(div, m, l - |m|)
    ensures old(x.Mag()) == j * Shift(l - |m|, Val(m)) + x.Mag() && x.Mag() <= Shift(l - |m|, Val(m))
    ensures x.Mag() == Shift(l - |m|, Val(m)) <==> old(x.Mag()) == Shift(l - |m|, Val(m))
  {
    hide Val, Shift;
    j := 0;
    var order := Compare(x, div);
    if order > 0 {
      ghost var y, z := x.Digits(), div.Digits();
      assert InPlaceSafe(y, z);
      Bigsub(x, div, x);
      j := 1;
    }
  }

  lemma ScaledOrder(a: nat, v: nat, p: int)
    requires p >= 1
    ensures a >= v <==> a * p >= v * p
    ensures a * p >= 0
  {
    Swapped(a, p);
    Swapped(v, p);
    MulOrder(p, 0, a);
    if a >= v {
      MulOrder(p, v, a);
    } else {
      MulLess(p, a, v);
    }
  }

  /** The excess of the quotient bigDivide computes, from its own operands. */
  ghost function QuotientExcess(a: nat, m: seq<word>): int
    requires |m| >= 1 && m[|m| - 1] != 0
  {
    if a <= Val(m) || Val(m) == 1 then 0
    else
      ScaledOrder(a, Val(m), Pow2(NormalBits(m)));
      NormalExcess(a * Pow2(NormalBits(m)), NormalRow(m))
  }

  /**
    Whether dividing a by m takes the add-back branch. The guard is the comparison the loop makes,
    of the trial digit times the divisor with what is left, replayed on the operands alone:
    `StepDigit` reads the three leading words of what is left and the two of the divisor.
    `ShortDivisorRight` gives a test on the divisor's length that rules it out.
   */
  ghost predicate AddsBack(a: nat, m: seq<word>)
    requires |m| >= 1 && m[|m| - 1] != 0
  {
    a > Val(m) && Val(m) != 1
    && (ScaledOrder(a, Val(m), Pow2(NormalBits(m)));
        var x, z := a * Pow2(NormalBits(m)), NormalRow(m);
        var r := FirstRest(x, z);
        Overshoots(r, z, DigitCount(x, |z|)))
  }

  /** The quotient is right on exactly the runs without an add-back; otherwise it is too large. */
  lemma QuotientExact(a: nat, m: seq<word>)
    requires |m| >= 1 && m[|m| - 1] != 0
    ensures QuotientExcess(a, m) >= 0
    ensures QuotientExcess(a, m) == 0 <==> !AddsBack(a, m)
  {
    hide Val, Shift, Excess, Overshoots, FirstRest, NormalBits, NormalRow, WordCount, Pow2;
    if a > Val(m) && Val(m) != 1 {
      ScaledOrder(a, Val(m), Pow2(NormalBits(m)));
      var x, z := a * Pow2(NormalBits(m)), NormalRow(m);
      ExcessMeans(FirstRest(x, z), z, DigitCount(x, |z|));
    }
  }

  /** A divisor of at most two words is divided by exactly, whatever the dividend. */
  lemma ShortDivisorRight(a: nat, m: seq<word>)
    requires 1 <= |m| <= 2 && m[|m| - 1] != 0
    ensures !AddsBack(a, m) && QuotientExcess(a, m) == 0
  {
    hide Val, Shift, Excess, Overshoots, FirstRest, NormalBits, NormalRow, WordCount, Pow2;
    QuotientExact(a, m);
    if a > Val(m) && Val(m) != 1 {
      ScaledOrder(a, Val(m), Pow2(NormalBits(m)));
      var x, z := a * Pow2(NormalBits(m)), NormalRow(m);
      ShortDivisorExact(FirstRest(x, z), z, DigitCount(x, |z|));
    }
  }

  /** The operands of `OvershootExample`, as a caller of bigDivide passes them: the quotient is 2 and not 1. */
  lemma AddsBackExample()
    ensures AddsBack(Shift(3, 1), [1, 0, 0x8000_0000])
    ensures Shift(3, 1) / Val([1, 0, 0x8000_0000]) == 1
    ensures QuotientExcess(Shift(3, 1), [1, 0, 0x8000_0000]) == 1
  {
    var m: seq<word>, a := [1, 0, 0x8000_0000], Shift(3, 1);
    hide Val, Shift, Excess, Overshoots, NormalBits, NormalRow, WordCount;
    OvershootExample();
    assert Pow2(NormalBits(m)) == 1;
    NormalRowIs(m, m);
    ExampleDigits();
    QuotientOne(a, Val(m));
    assert FirstRest(a, m) == a;
  }

  lemma ExampleDigits()
    ensures DigitCount(Shift(3, 1), 3) == 1
  {
    var z: seq<word> := [0, 0, 0] + [1];
    ValConcat([0, 0, 0], [1]);
    ValZeros([0, 0, 0]);
    ValSingle(1);
    WordCountOf(z);
  }

  lemma QuotientOne(a: nat, v: nat)
    requires v > 0 && a / v == 1
    ensures a >= v
  {
  }

  lemma UnscaleQuotient(a: nat, v: nat, p: int)
    requires v > 0 && p >= 1
    ensures v * p > 0 && (a * p) / (v * p) == a / v && (a * p) % (v * p) == (a % v) * p
    ensures ((a * p) % (v * p)) / p == a % v && (v * p) / p == v
  {
    hide *;
    ScaledOrder(v, 1, p);
    RemainderOf(a, v);
    MulAssociates(a / v, v, p);
    SumScaled((a / v) * v, a % v, p);
    Swapped(a % v, p);
    MulLess(p, a % v, v);
    Swapped(v, p);
    MulOrder(p, 0, a % v);
    RemainderIs(a * p, v * p, a / v, (a % v) * p);
    QuotientIs((a % v) * p, p, a % v, 0);
    QuotientIs(v * p, p, v, 0);
  }

  /** Undoes the normalisation of the divisor and of what is left. */
  method Unnormalise(m: Bignum, x: Bignum, bits: nat)
    requires m.Valid() && x.Valid() && Separate(m, x) && m.sign == x.sign == POS && m.Trimmed() && x.Trimmed()
    modifies m, m.num, x, x.num
    ensures m.Valid() && x.Valid() && m.sign == x.sign == POS && m.Trimmed() && x.Trimmed()
    ensures m.num == old(m.num) && x.num == old(x.num)
    ensures m.Mag() == old(m.Mag()) / Pow2(bits) && x.Mag() == old(x.Mag()) / Pow2(bits)
  {
    hide Val, Shift, Pow2;
    if bits > 0 {
      BigRightShift(m, bits);
      BigRightShift(x, bits);
    } else {
      DividedByOne(m.Mag());
      DividedByOne(x.Mag());
    }
  }

  lemma DividedByOne(v: int)
    ensures v / Pow2(0) == v
  {
  }

  /** bigDivide on a dividend larger than a divisor that is not 1. */
  method DivideLarger(m: Bignum, qu: Bignum, x: Bignum)
    requires x.Valid() && m.Valid() && qu.Valid() && Separate(x, m) && Separate(x, qu) && Separate(m, qu)
    requires x.Trimmed() && m.Trimmed() && x.sign == m.sign == POS && x.length <= x.space
    requires m.num[m.length - 1] != 0 && x.Mag() > m.Mag() != 1
    requires qu.Mag() == 0 && qu.sign == POS && qu.NoLeadingZero()
    modifies x, x.num, m, m.num, qu, qu.num
    ensures x.Valid() && x.Trimmed() && x.sign == POS && (x.num == old(x.num) || fresh(x.num))
    ensures m.Valid() && m.Trimmed() && m.sign == POS && (m.num == old(m.num) || fresh(m.num))
    ensures qu.Valid() && qu.NoLeadingZero() && qu.sign == POS && (qu.num == old(qu.num) || fresh(qu.num))
    ensures m.Mag() == old(m.Mag()) > 0 && x.Mag() == old(x.Mag()) % m.Mag()
    ensures qu.Mag() == old(x.Mag()) / m.Mag() + QuotientExcess(old(x.Mag()), old(m.Digits()))
  {
    hide Val, Shift, Pow2, NormalExcess, NormalBits, NormalRow;
    ghost var a, z := x.Mag(), m.num[..m.length];
    PositiveTop(z);
    ghost var p := Pow2(NormalBits(z));
    ScaledOrder(a, Val(z), p);
    UnscaleQuotient(a, Val(z), p);
    var bits := Normalise(m, x);
    DivideNormalised(x, m, qu);
    Unnormalise(m, x, bits);
  }

  lemma PositiveTop(z: seq<word>)
    requires |z| >= 1 && z[|z| - 1] != 0
    ensures Val(z) > 0
  {
    TopWord(z);
  }

  lemma ZeroTop(m: Bignum)
    requires m.Valid() && m.num[m.length - 1] != 0
    ensures m.Mag() > 0
    ensures m.length == 1 && m.num[0] == 1 <==> m.Mag() == 1
  {
    hide Shift;
    ZeroMag(m);
    TopWord(m.num[..m.length]);
    if m.length > 1 {
      ShiftGrows(1, m.length - 1);
      OneWord();
    }
  }

  lemma OneWord()
    ensures Shift(1, 1) == B
  {
    assert Shift(0, 1) == 1;
  }

  /** The dividend goes to x unless it is there already, and is compared with the divisor. */
  method CopyAndCompare(a: Bignum, m: Bignum, x: Bignum) returns (order: int)
    requires a.Valid() && m.Valid() && x.Valid() && Separate(a, m) && Separate(x, m)
    requires if a == x then x.length <= x.space else a.num != x.num
    requires a.NoLeadingZero() && m.num[m.length - 1] != 0
    modifies a, m, x, x.num
    ensures x.Valid() && x.NoLeadingZero() && x.length <= x.space && x.Mag() == old(a.Mag())
    ensures x.Mag() != 0 || old(a.sign) == POS ==> x.sign == old(a.sign)
    ensures x.num == old(x.num) || fresh(x.num)
    ensures m.Valid() && m.num[m.length - 1] != 0 && Untouched(m) && m.Digits() == old(m.Digits())
    ensures a.Valid() && a.NoLeadingZero() && a.Mag() == old(a.Mag()) && (a.Mag() != 0 ==> a.sign == old(a.sign))
    ensures a != x ==> a.num == old(a.num) && a.length == old(a.length) && a.space == old(a.space)
    ensures a != x ==> a.num != x.num
    ensures (order < 0 <==> a.Mag() < m.Mag()) && (order == 0 <==> a.Mag() == m.Mag())
  {
    hide Val, Shift;
    if a != x {
      Copy(a, x);
    }
    order := Compare(a, m);
  }

  /** The sign bigDivide leaves on the quotient: the one it works out first is lost when the quotient is cleared. */
  function QuotientSign(a: nat, asign: int, m: nat): int {
    if m == 1 && a > 1 then asign else POS
  }

  /** A test on the operands for whether that is the sign of the quotient, or the quotient is zero. */
  predicate SignFits(a: nat, asign: int, m: nat, msign: int) {
    a < m || QuotientSign(a, asign, m) * msign == asign
  }

  /** The law of division with the quotient's excess and sign: it holds when both are right, and only then. */
  lemma DivisionLaw(a: nat, asign: int, m: nat, msign: int, excess: nat, x: int)
    requires m > 0 && asign in {POS, NEG} && msign in {POS, NEG} && (excess > 0 ==> a > m) && x == asign * (a % m)
    ensures QuotientSign(a, asign, m) * (a / m + excess) * (msign * m) + x == asign * a
       <==> excess == 0 && SignFits(a, asign, m, msign)
  {
    var q := a / m;
    RemainderOf(a, m);
    Swapped(m, q);
    SumScaled(q, excess, m);
    if a < m {
      RemainderIs(a, m, 0, a);
    } else {
      if q < 1 {
        MulOrder(m, q, 0);
      }
      MulOrder(m, 1, q);
    }
    if excess > 0 {
      MulOrder(m, 1, excess);
    }
  }

  /** Minus seven by two: the quotient comes out as three and not as minus three. */
  lemma SignLost()
    ensures !SignFits(7, NEG, 2, POS) && QuotientSign(7, NEG, 2) == POS && Val([7]) == 7 && Val([2]) == 2
    ensures 7 / 2 + QuotientExcess(7, [2]) == 3 && POS * 3 * (POS * 2) + NEG * (7 % 2) != NEG * 7
  {
    ValSingle(7);
    ValSingle(2);
    ShortDivisorRight(7, [2]);
  }

  /**
    bigDivide: x gets the remainder with the sign of a, qu the quotient of the magnitudes plus
    whatever the digits that overshot add to it. x may be a. The quotient times the divisor and the
    remainder make up the dividend if and only if no digit overshot and the sign fits.
   */
  method BigDivide(a: Bignum, m: Bignum, qu: Bignum, x: Bignum)
    requires a.Valid() && m.Valid() && qu.Valid() && x.Valid()
    requires Separate(a, m) && Separate(a, qu) && Separate(m, qu) && Separate(x, m) && Separate(x, qu)
    requires if a == x then x.length <= x.space else a.num != x.num
    requires a.NoLeadingZero() && m.num[m.length - 1] != 0 && m.Mag() > 0
    modifies a, m, m.num, qu, qu.num, x, x.num
    ensures x.Valid() && x.NoLeadingZero() && m.Valid() && m.NoLeadingZero() && qu.Valid() && qu.NoLeadingZero()
    ensures m.Value() == old(m.Value())
      && (a != x ==> a.Valid() && a.Mag() == old(a.Mag()) && (a.Mag() != 0 ==> a.sign == old(a.sign)))
    ensures x.Mag() == old(a.Mag()) % old(m.Mag()) && (x.Mag() != 0 ==> x.sign == old(a.sign))
    ensures qu.Mag() == old(a.Mag()) / old(m.Mag()) + QuotientExcess(old(a.Mag()), old(m.Digits()))
    ensures qu.Mag() == old(a.Mag()) / old(m.Mag()) <==> !AddsBack(old(a.Mag()), old(m.Digits()))
    ensures qu.sign == QuotientSign(old(a.Mag()), old(a.sign), old(m.Mag()))
    ensures qu.Value() * m.Value() + x.Value() == old(a.Value())
       <==> !AddsBack(old(a.Mag()), old(m.Digits())) && SignFits(old(a.Mag()), old(a.sign), old(m.Mag()), old(m.sign))
  {
    ghost var v, asign, z, msign := a.Mag(), a.sign, m.Digits(), m.sign;
    DivideParts(a, m, qu, x);
    hide AddsBack, QuotientExcess, QuotientSign, SignFits, Val;
    DividedLaw(v, asign, z, msign, qu.Mag(), x.Value());
  }

  lemma DividedLaw(a: nat, asign: int, z: seq<word>, msign: int, q: int, x: int)
    requires |z| >= 1 && z[|z| - 1] != 0 && Val(z) > 0 && asign in {POS, NEG} && msign in {POS, NEG}
    requires q == a / Val(z) + QuotientExcess(a, z) && x == asign * (a % Val(z))
    ensures q == a / Val(z) <==> !AddsBack(a, z)
    ensures (QuotientSign(a, asign, Val(z)) * q) * (msign * Val(z)) + x == asign * a
       <==> !AddsBack(a, z) && SignFits(a, asign, Val(z), msign)
  {
    hide AddsBack, QuotientExcess, Val;
    ExcessNeedsLarger(a, z);
    QuotientExact(a, z);
    DivisionLaw(a, asign, Val(z), msign, QuotientExcess(a, z), x);
  }

  lemma ExcessNeedsLarger(a: nat, m: seq<word>)
    requires |m| >= 1 && m[|m| - 1] != 0
    ensures QuotientExcess(a, m) > 0 ==> a > Val(m)
  {
  }

  /** Magnitudes and signs apart. */
  method DivideParts(a: Bignum, m: Bignum, qu: Bignum, x: Bignum)
    requires a.Valid() && m.Valid() && qu.Valid() && x.Valid()
    requires Separate(a, m) && Separate(a, qu) && Separate(m, qu) && Separate(x, m) && Separate(x, qu)
    requires if a == x then x.length <= x.space else a.num != x.num
    requires a.NoLeadingZero() && m.num[m.length - 1] != 0 && m.Mag() > 0
    modifies a, m, m.num, qu, qu.num, x, x.num
    ensures x.Valid() && x.NoLeadingZero() && m.Valid() && m.NoLeadingZero() && qu.Valid() && qu.NoLeadingZero()
    ensures m.Value() == old(m.Value())
      && (a != x ==> a.Valid() && a.Mag() == old(a.Mag()) && (a.Mag() != 0 ==> a.sign == old(a.sign)))
    ensures x.Mag() == old(a.Mag()) % old(m.Mag()) && (x.Mag() != 0 ==> x.sign == old(a.sign))
    ensures qu.Mag() == old(a.Mag()) / old(m.Mag()) + QuotientExcess(old(a.Mag()), old(m.Digits()))
    ensures qu.sign == QuotientSign(old(a.Mag()), old(a.sign), old(m.Mag()))
  {
    ghost var v, z := a.Mag(), m.num[..m.length];
    ZeroTop(m);
    hide Val, Shift, QuotientExcess;
    SmallQuotient(v, z);
    var asign, msign := a.sign, m.sign;
    qu.Reset(0);
    var order := CopyAndCompare(a, m, x);
    if order < 0 {
      return;
    }
    if order == 0 || (m.length == 1 && m.num[0] == 1) {
      WholeQuotient(a, order, qu, x);
      return;
    }
    DivideSigned(m, qu, x, asign, msign);
  }

  /** The early returns for a == m and for m == 1. */
  method WholeQuotient(a: Bignum, order: int, qu: Bignum, x: Bignum)
    requires a.Valid() && qu.Valid() && x.Valid() && Separate(a, qu) && Separate(x, qu) && a.NoLeadingZero()
    modifies qu, qu.num, x, x.num
    ensures x.Valid() && x.NoLeadingZero() && x.Mag() == 0 && qu.Valid() && qu.NoLeadingZero()
    ensures qu.Mag() == (if order == 0 then 1 else old(a.Mag()))
      && qu.sign == if order == 0 then POS else old(a.sign)
  {
    hide Val, Shift;
    if order == 0 {
      qu.Reset(1);
      x.Reset(0);
    } else {
      Copy(a, qu);
      x.Reset(0);
    }
  }

  /** The division proper, on the magnitudes; the signs come back afterwards. */
  method DivideSigned(m: Bignum, qu: Bignum, x: Bignum, asign: int, msign: int)
    requires x.Valid() && m.Valid() && qu.Valid() && Separate(x, m) && Separate(x, qu) && Separate(m, qu)
    requires x.NoLeadingZero() && m.num[m.length - 1] != 0 && x.length <= x.space && x.Mag() > m.Mag() != 1
    requires qu.Mag() == 0 && qu.sign == POS && qu.NoLeadingZero()
    requires (asign == POS || asign == NEG) && (msign == POS || msign == NEG)
    modifies x, x.num, m, m.num, qu, qu.num
    ensures x.Valid() && x.NoLeadingZero() && x.sign == asign
    ensures m.Valid() && m.NoLeadingZero() && m.sign == msign
    ensures qu.Valid() && qu.NoLeadingZero() && qu.sign == POS
    ensures m.Mag() == old(m.Mag()) > 0 && x.Mag() == old(x.Mag()) % m.Mag()
    ensures qu.Mag() == old(x.Mag()) / m.Mag() + QuotientExcess(old(x.Mag()), old(m.Digits()))
  {
    hide Val, Shift, QuotientExcess;
    x.sign, m.sign := POS, POS;
    DivideLarger(m, qu, x);
    x.sign := asign;
    m.sign := msign;
  }

  lemma SmallQuotient(a: nat, m: seq<word>)
    requires |m| >= 1 && m[|m| - 1] != 0
    ensures Val(m) > 0
    ensures a <= Val(m) || Val(m) == 1 ==> QuotientExcess(a, m) == 0
    ensures a < Val(m) ==> a / Val(m) == 0 && a % Val(m) == a
    ensures a == Val(m) ==> a / Val(m) == 1 && a % Val(m) == 0
    ensures Val(m) == 1 ==> a / Val(m) == a && a % Val(m) == 0
  {
    hide Val, Pow2;
    PositiveTop(m);
    if a < Val(m) {
      RemainderIs(a, Val(m), 0, a);
    }
    if a == Val(m) {
      RemainderIs(a, Val(m), 1, 0);
    }
    if Val(m) == 1 {
      RemainderIs(a, 1, a, 0);
    }
  }

  /** a is m moved up by whole words. */
  ghost predicate Moved(a: nat, v: nat) {
    exists d: nat :: a == Shift(d, v)
  }

  /** What bigMod leaves of a: its first test is strict, so a divisor moved up by whole words stays. */
  ghost function Reduced(a: nat, v: nat): (r: nat)
    requires v > 0
    ensures r <= v && (r == v <==> Moved(a, v)) && (r == a % v || r == v)
  {
    if Moved(a, v) then v else a % v
  }

  /** What bigMod leaves is congruent to its argument. */
  lemma ReducedCongruent(a: nat, v: nat)
    requires v > 0
    ensures Reduced(a, v) % v == a % v
  {
    hide Shift;
    RemainderOf(a, v);
    if Moved(a, v) {
      var d: nat :| a == Shift(d, v);
      ShiftMul(d, 1, v);
      RemainderIs(a, v, Shift(d, 1), 0);
      RemainderIs(v, v, 1, 0);
    } else {
      RemainderIs(a % v, v, 0, a % v);
    }
  }

  /** The inputs that go wrong: a modulus moved up by any number of words is left as the modulus, not zero. */
  lemma NotReduced(v: nat, d: nat)
    requires v > 0
    ensures Shift(d, v) % v == 0 && Reduced(Shift(d, v), v) == v
  {
    ShiftMul(d, 1, v);
    RemainderIs(Shift(d, v), v, Shift(d, 1), 0);
  }

  /** Being a moved divisor is decided at the number of digits the loop has, on the normalised numbers. */
  lemma MovedDigits(a: nat, m: seq<word>)
    requires |m| >= 1 && m[|m| - 1] != 0 && a >= Val(m)
    ensures var p := Pow2(NormalBits(m));
      a * p >= Val(m) * p >= 0 && DigitCount(a * p, |m|) >= 0
      && (a * p == Shift(DigitCount(a * p, |m|), Val(m) * p) <==> Moved(a, Val(m)))
  {
    hide Val, Shift, Pow2, NormalBits, NormalRow, WordCount;
    var p, z := Pow2(NormalBits(m)), NormalRow(m);
    ScaledOrder(a, Val(m), p);
    FirstDigitOf(a * p, z);
    var n := DigitCount(a * p, |m|);
    ShiftMul(n, Val(m), p);
    if a * p == Shift(n, Val(m) * p) {
      SameFactor(a, Shift(n, Val(m)), p);
    }
    if Moved(a, Val(m)) {
      var d: nat :| a == Shift(d, Val(m));
      ShiftMul(d, Val(m), p);
      MovedCount(d, z);
    }
  }

  lemma SameFactor(x: int, y: int, p: int)
    requires p >= 1 && x * p == y * p
    ensures x == y
  {
    Swapped(x, p);
    Swapped(y, p);
    if x < y {
      MulLess(p, x, y);
    }
    if y < x {
      MulLess(p, y, x);
    }
  }

  lemma {:induction false} MovedCount(d: nat, z: seq<word>)
    requires |z| >= 1 && z[|z| - 1] != 0
    ensures Shift(d, Val(z)) >= 0 && WordCount(Shift(d, Val(z))) == d + |z|
  {
    PositiveTop(z);
    if d == 0 {
      WordCountOf(z);
    } else {
      MovedCount(d - 1, z);
      assert Shift(d, Val(z)) == 0x1_0000_0000 * Shift(d - 1, Val(z));
    }
  }

  /** bigMod on a dividend not below a modulus of two words or more. */
  method ReduceLarger(m: Bignum, x: Bignum)
    requires x.Valid() && m.Valid() && Separate(x, m)
    requires x.Trimmed() && m.Trimmed() && x.sign == m.sign == POS && x.length <= x.space
    requires m.length >= 2 && m.num[m.length - 1] != 0 && x.Mag() >= m.Mag()
    modifies x, x.num, m, m.num
    ensures x.Valid() && x.Trimmed() && x.sign == POS && (x.num == old(x.num) || fresh(x.num))
    ensures m.Valid() && m.Trimmed() && m.sign == POS && (m.num == old(m.num) || fresh(m.num))
    ensures m.Mag() == old(m.Mag()) > 0 && x.Mag() == Reduced(old(x.Mag()), m.Mag())
    ensures m.Digits() == old(m.Digits()) && Separate(x, m)
  {
    hide Val, Shift, Pow2, NormalBits, NormalRow, WordCount, Moved;
    ghost var a, z := x.Mag(), m.num[..m.length];
    PositiveTop(z);
    ghost var p := Pow2(NormalBits(z));
    ScaledOrder(a, Val(z), p);
    UnscaleQuotient(a, Val(z), p);
    MovedDigits(a, z);
    var bits := Normalise(m, x);
    ReduceNormalised(x, m);
    Unnormalise(m, x, bits);
    SameRow(m.num[..m.length], z);
  }

  /** Trimmed rows of the same number are the same row. */
  lemma SameRow(y: seq<word>, z: seq<word>)
    requires |y| >= 1 && |z| >= 1 && Val(y) == Val(z)
    requires (|y| > 1 ==> y[|y| - 1] != 0) && (|z| > 1 ==> z[|z| - 1] != 0)
    ensures y == z
  {
    hide Val, WordCount;
    WordCountOf(y);
    WordCountOf(z);
    ValInjective(y, z);
  }

  /** The reduction proper, on the magnitude; the sign comes back afterwards. */
  method ReduceSigned(m: Bignum, x: Bignum, savesign: int)
    requires x.Valid() && m.Valid() && Separate(x, m)
    requires x.NoLeadingZero() && m.sign == POS && x.length <= x.space
    requires m.length >= 2 && m.num[m.length - 1] != 0 && x.Mag() >= m.Mag() && (savesign == POS || savesign == NEG)
    modifies x, x.num, m, m.num
    ensures x.Valid() && x.NoLeadingZero() && x.sign == savesign && (x.num == old(x.num) || fresh(x.num))
    ensures m.Valid() && m.Trimmed() && m.sign == POS && (m.num == old(m.num) || fresh(m.num))
    ensures m.Mag() == old(m.Mag()) > 0 && x.Mag() == Reduced(old(x.Mag()), m.Mag())
    ensures m.Digits() == old(m.Digits()) && Separate(x, m)
  {
    hide Val, Shift, Moved;
    PositiveTop(m.num[..m.length]);
    x.sign := POS;
    ReduceLarger(m, x);
    x.sign := savesign;
  }

  /** bigMod. The modulus has at least two words, or is 1: shorter ones are read below their first word. */
  method BigMod(a: Bignum, m: Bignum, x: Bignum)
    requires a.Valid() && m.Valid() && x.Valid() && Separate(a, m) && Separate(x, m)
    requires if a == x then x.length <= x.space else a.num != x.num
    requires a.NoLeadingZero() && m.NoLeadingZero() && (m.length >= 2 || m.Mag() == 1)
    requires m.sign == POS
    modifies a, m, m.num, x, x.num
    ensures x.Valid() && x.NoLeadingZero() && m.Valid() && m.NoLeadingZero() && m.sign == POS
    ensures m.Mag() == old(m.Mag()) > 0
      && (a != x ==> a.Valid() && a.Mag() == old(a.Mag()) && (a.Mag() != 0 ==> a.sign == old(a.sign)))
    ensures x.Mag() == if old(m.Mag()) == 1 then 0 else Reduced(old(a.Mag()), old(m.Mag()))
    ensures x.Mag() != 0 || old(a.sign) == POS ==> x.sign == old(a.sign)
    ensures Separate(x, m) && (a != x ==> a.num == old(a.num) && a.length == old(a.length) && a.space == old(a.space))
    ensures m.Digits() == old(m.Digits()) && (m.num == old(m.num) || fresh(m.num))
      && (x.num == old(x.num) || fresh(x.num))
    ensures x.Mag() % old(m.Mag()) == old(a.Mag()) % old(m.Mag()) && x.Mag() <= old(m.Mag())
  {
    ghost var v, z := a.Mag(), m.num[..m.length];
    LongTop(m);
    ZeroTop(m);
    SmallQuotient(v, z);
    hide Val, Shift, Moved, QuotientExcess;
    BelowNotMoved(v, Val(z));
    ReducedCongruent(v, Val(z));
    if m.length == 1 && m.num[0] == 1 {
      x.Reset(0);
      return;
    }
    var savesign := a.sign;
    var order := CopyAndCompare(a, m, x);
    if order < 0 {
      return;
    }
    ReduceSigned(m, x, savesign);
  }

  lemma LongTop(m: Bignum)
    requires m.Valid() && m.NoLeadingZero() && (m.length >= 2 || m.Mag() == 1)
    ensures m.num[m.length - 1] != 0
  {
    ZeroMag(m);
  }

  lemma BelowNotMoved(a: nat, v: nat)
    requires v > 0
    ensures a < v ==> !Moved(a, v)
  {
    forall d: nat
      ensures Shift(d, v) >= v
    {
    }
  }
}
