/**
  The recursive in-place Karatsuba multiplication of crypt/fastmult.c.

  The four operands may lie in the same array; only their ranges have to be apart.
  In the first recursive call all four do.
 */
module Karatsuba {
  import opened Words
  import opened LongMult
  import opened WordLoops

  /** The lengths from which halving arrives at the cutoff. */
  ghost predicate Halves(n: nat, cutoff: nat) {
    n == cutoff || (n > cutoff && n % 2 == 0 && Halves(n / 2, cutoff))
  }

  method ClearWords(c: array<word>, co: nat, n: nat)
    requires co + n <= c.Length
    modifies c
    ensures Val(c[co..co + n]) == 0
    ensures forall j :: 0 <= j < c.Length && !(co <= j < co + n) ==> c[j] == old(c[j])
  {
    for i := 0 to n
      invariant forall j :: co <= j < co + i ==> c[j] == 0
      invariant forall j :: 0 <= j < c.Length && !(co <= j < co + i) ==> c[j] == old(c[j])
    {
      c[co + i] := 0;
    }
    ValZeros(c[co..co + n]);
  }

  /** Adds m times the row b to the words of c from place i on, and stores the carry above them. */
  method AddRowAt(c: array<word>, co: nat, i: nat, m: word, b: array<word>, bo: nat, n: nat)
    requires bo + n <= b.Length && co + n + i < c.Length
    requires Apart(b, bo, n, c, co, n + i + 1)
    modifies c
    ensures Val(c[co..co + n + i + 1]) == old(Val(c[co..co + n + i])) + Shift(i, m * old(Val(b[bo..bo + n])))
    ensures forall j :: 0 <= j < c.Length && !(co <= j < co + n + i + 1) ==> c[j] == old(c[j])
  {
    ghost var y, z := b[bo..bo + n], c[co..co + n + i];
    assert c[co + i..co + i + n] == z[i..];
    var carry := LMULT(c, co + i, m, b, bo, n);
    ghost var z' := c[co + i..co + i + n];
    assert c[co..co + i] == z[..i];
    c[co + n + i] := carry;
    RowAdded(i, z, z', carry, y, m);
    assert c[co..co + n + i + 1] == c[co..co + i] + c[co + i..co + i + n] + [carry];
  }

  lemma RowAdded(i: nat, z: seq<word>, z': seq<word>, carry: word, y: seq<word>, m: word)
    requires |z| == |y| + i && |z'| == |y|
    requires Val(z') + Shift(|y|, carry) == Val(z[i..]) + m * Val(y)
    ensures Val(z[..i] + z' + [carry]) == Val(z) + Shift(i, m * Val(y))
  {
    hide *;
    ValSplit(z, i);
    ValSnoc(z', carry);
    ValConcat(z[..i], z' + [carry]);
    assert z[..i] + z' + [carry] == z[..i] + (z' + [carry]);
    ShiftAdd(i, Val(z[i..]), m * Val(y));
  }

  /** The schoolbook product of two rows of one length. */
  method BigmultN(a: array<word>, ao: nat, b: array<word>, bo: nat, c: array<word>, co: nat, n: nat)
    requires n > 0
    requires ao + n <= a.Length && bo + n <= b.Length && co + 2 * n <= c.Length
    requires Apart(a, ao, n, c, co, 2 * n) && Apart(b, bo, n, c, co, 2 * n)
    modifies c
    ensures Val(c[co..co + 2 * n]) == old(Val(a[ao..ao + n])) * old(Val(b[bo..bo + n]))
    ensures forall j :: 0 <= j < c.Length && !(co <= j < co + 2 * n) ==> c[j] == old(c[j])
  {
    ghost var x, y := a[ao..ao + n], b[bo..bo + n];
    ClearWords(c, co, n);
    var i := 0;
    while i < n
      invariant 0 <= i <= n
      invariant Val(c[co..co + n + i]) == Val(x[..i]) * Val(y)
      invariant forall j :: 0 <= j < c.Length && !(co <= j < co + n + i) ==> c[j] == old(c[j])
    {
      hide Val, Shift, Wrap;
      assert a[ao + i] == x[i];
      assert b[bo..bo + n] == y;
      AddRowAt(c, co, i, a[ao + i], b, bo, n);
      ProductStep(i, x, Val(y));
      i := i + 1;
    }
    assert x[..n] == x;
  }

  lemma ProductStep(i: nat, x: seq<word>, y: int)
    requires i < |x|
    ensures Val(x[..i]) * y + Shift(i, x[i] * y) == Val(x[..i + 1]) * y
  {
    hide *;
    ValExtend(x, i);
    ShiftMul(i, x[i], y);
    MulSum(Val(x[..i]), Shift(i, x[i]), y);
  }

  lemma MulSum(x: int, y: int, z: int)
    ensures (x + y) * z == x * z + y * z
  {
  }

  /**
    |u - v| into c, and whether u is at least v.
   */
  method AbsDiff(u: array<word>, uo: nat, vo: nat, c: array<word>, co: nat, n: nat) returns (sign: bool)
    requires uo + n <= u.Length && vo + n <= u.Length && co + n <= c.Length
    requires Apart(u, uo, n, c, co, n) && Apart(u, vo, n, c, co, n)
    modifies c
    ensures sign <==> old(Val(u[uo..uo + n])) >= old(Val(u[vo..vo + n]))
    ensures Val(c[co..co + n]) == Abs(old(Val(u[uo..uo + n])) - old(Val(u[vo..vo + n])))
    ensures forall j :: 0 <= j < c.Length && !(co <= j < co + n) ==> c[j] == old(c[j])
  {
    ghost var x, y := Val(u[uo..uo + n]), Val(u[vo..vo + n]);
    var p, q := uo, vo;
    sign := true;
    var order := CompareWords(u, uo, u, vo, n);
    if order < 0 {
      p, q := vo, uo;
      sign := false;
    }
    var carry := SubWords(u, p, u, q, c, co, n);
    NoBorrow(n, c[co..co + n], carry, Abs(x - y));
  }

  function Abs(x: int): int {
    if x < 0 then -x else x
  }

  lemma NoBorrow(n: nat, r: seq<word>, carry: int, d: int)
    requires |r| == n && -1 <= carry <= 0 && d >= 0
    requires Val(r) + Shift(n, carry) == d
    ensures carry == 0 && Val(r) == d
  {
    ValBound(r);
    if carry == -1 {
      ShiftSub(n, 0, 1);
    }
  }

  /**
    The word arithmetic of one Karatsuba step: adding low + high + cross at the middle of the
    four-quarter result, carry by carry.
   */
  lemma MiddleSum(h: nat, q0: int, mid: int, q3: int, low: int, high: int, cross: int, mid': int, k: int, q3': int,
      k3: int)
    requires low + Shift(2 * h, high) == q0 + Shift(h, mid) + Shift(3 * h, q3)
    requires mid' + Shift(2 * h, k) == mid + high + low + cross
    requires q3' + Shift(h, k3) == q3 + k
    ensures q0 + Shift(h, mid') + Shift(3 * h, q3') + Shift(4 * h, k3)
         == low + Shift(2 * h, high) + Shift(h, low + high + cross)
  {
    hide *;
    ShiftAdd(h, mid', Shift(2 * h, k));
    ShiftShift(h, 2 * h, k);
    ShiftAdd(h, mid, low + high + cross);
    ShiftAdd(3 * h, q3', Shift(h, k3));
    ShiftShift(3 * h, h, k3);
    ShiftAdd(3 * h, q3, k);
  }

  /** A middle that stays non-negative cannot end on a negative carry. */
  lemma CarryNonNegative(n: nat, x: int, k: int, e: int)
    requires x < Shift(n, 1) && x + Shift(n, k) == e && e >= 0
    ensures k >= 0
  {
    if k < 0 {
      ShiftAdd(n, k, 1);
      ShiftOrder(n, k + 1, 1);
      ShiftSub(n, 0, -(k + 1));
    }
  }

  /** A carry out of the top of a number that fits is zero. */
  lemma CarryAbsorbed(n: nat, x: int, k: int, e: int)
    requires 0 <= x && x + Shift(n, k) == e && e < Shift(n, 1) && k >= 0
    ensures k == 0
  {
    if k >= 1 {
      ShiftAdd(n, k - 1, 1);
    }
  }

  /**
    Adds low + high - cross or low + high + cross to the middle half of c, where low, high and
    the middle itself are read from c and cross from t; t keeps the intermediate sum.
   */
  method AddCross(c: array<word>, co: nat, t: array<word>, to: nat, h: nat, subtract: bool) returns (carry: int)
    requires co + 4 * h <= c.Length && to + 4 * h <= t.Length
    requires Apart(c, co, 4 * h, t, to, 4 * h)
    modifies c, t
    ensures -1 <= carry <= 3
    ensures Val(c[co + h..co + 3 * h]) + Shift(2 * h, carry)
         == old(Val(c[co + h..co + 3 * h])) + old(Val(c[co + 2 * h..co + 4 * h])) + old(Val(c[co..co + 2 * h]))
          + Signed(subtract, old(Val(t[to..to + 2 * h])))
    ensures forall j :: 0 <= j < c.Length && !(co + h <= j < co + 3 * h) && !(c == t && to <= j < to + 4 * h) ==>
      c[j] == old(c[j])
    ensures forall j :: 0 <= j < t.Length && !(to <= j < to + 4 * h) && !(c == t && co + h <= j < co + 3 * h) ==>
      t[j] == old(t[j])
  {
    hide Val, Shift;
    ghost var m := t[to..to + 2 * h];
    var k1 := Add3Words(t, to + 2 * h, c, co, co + h, co + 2 * h, 2 * h);
    assert t[to..to + 2 * h] == m;
    ghost var sum := Val(t[to + 2 * h..to + 4 * h]);
    var k2;
    if subtract {
      k2 := SubWords(t, to + 2 * h, t, to, c, co + h, 2 * h);
    } else {
      k2 := AddWords(t, to + 2 * h, t, to, c, co + h, 2 * h);
    }
    ShiftAdd(2 * h, k1, k2);
    carry := k1 + k2;
  }

  /** The sum into the middle of c, with the outer quarters untouched. */
  method AddCrossBetween(c: array<word>, co: nat, t: array<word>, to: nat, h: nat, subtract: bool) returns (carry: int)
    requires co + 4 * h <= c.Length && to + 4 * h <= t.Length
    requires Apart(c, co, 4 * h, t, to, 4 * h)
    modifies c, t
    ensures -1 <= carry <= 3
    ensures Val(c[co + h..co + 3 * h]) + Shift(2 * h, carry)
         == old(Val(c[co + h..co + 3 * h])) + old(Val(c[co + 2 * h..co + 4 * h])) + old(Val(c[co..co + 2 * h]))
          + Signed(subtract, old(Val(t[to..to + 2 * h])))
    ensures c[co..co + h] == old(c[co..co + h]) && c[co + 3 * h..co + 4 * h] == old(c[co + 3 * h..co + 4 * h])
    ensures forall j :: 0 <= j < c.Length && !(co <= j < co + 4 * h) && !(c == t && to <= j < to + 4 * h) ==>
      c[j] == old(c[j])
    ensures forall j :: 0 <= j < t.Length && !(to <= j < to + 4 * h) && !(c == t && co <= j < co + 4 * h) ==>
      t[j] == old(t[j])
  {
    hide Val, Shift, Signed;
    carry := AddCross(c, co, t, to, h, subtract);
  }

  /** The carry into the top quarter, with the rest untouched. */
  method CarryTop(c: array<word>, co: nat, h: nat, k: int) returns (k3: int)
    requires co + 4 * h <= c.Length && 0 <= k < B
    modifies c
    ensures Val(c[co + 3 * h..co + 4 * h]) + Shift(h, k3) == old(Val(c[co + 3 * h..co + 4 * h])) + k && 0 <= k3
    ensures c[co..co + 3 * h] == old(c[co..co + 3 * h])
    ensures forall j :: 0 <= j < c.Length && !(co <= j < co + 4 * h) ==> c[j] == old(c[j])
  {
    hide Val, Shift;
    assert co + 3 * h + h == co + 4 * h;
    k3 := CarryUp(c, co + 3 * h, h, k);
  }

  /**
    The tail of the step: with low and high halves of the result in c and the cross product
    in t, completes the product; the carry out of the middle is fully absorbed by the top quarter.
   */
  method AddMiddle(c: array<word>, co: nat, t: array<word>, to: nat, h: nat, subtract: bool, ghost low: int,
      ghost high: int, ghost cross: int)
    requires co + 4 * h <= c.Length && to + 4 * h <= t.Length
    requires Apart(c, co, 4 * h, t, to, 4 * h)
    requires low == Val(c[co..co + 2 * h]) && high == Val(c[co + 2 * h..co + 4 * h])
    requires cross == Signed(subtract, Val(t[to..to + 2 * h]))
    requires 0 <= low + high + cross && Middle(h, low, high, cross) < Shift(4 * h, 1)
    modifies c, t
    ensures Val(c[co..co + 4 * h]) == Middle(h, low, high, cross)
    ensures forall j :: 0 <= j < c.Length && !(co <= j < co + 4 * h) && !(c == t && to <= j < to + 4 * h) ==>
      c[j] == old(c[j])
    ensures forall j :: 0 <= j < t.Length && !(to <= j < to + 4 * h) && !(c == t && co <= j < co + 4 * h) ==>
      t[j] == old(t[j])
  {
    hide Val, Shift, Middle, Signed;
    ghost var z := c[co..co + 4 * h];
    ghost var q0, m, q3 := c[co..co + h], c[co + h..co + 3 * h], c[co + 3 * h..co + 4 * h];
    assert z == q0 + m + q3;
    Joined(h, q0, m, q3);
    assert z == c[co..co + 2 * h] + c[co + 2 * h..co + 4 * h];
    ValConcat(c[co..co + 2 * h], c[co + 2 * h..co + 4 * h]);
    var k := AddCrossBetween(c, co, t, to, h, subtract);
    ghost var mid := c[co + h..co + 3 * h];
    ValBound(mid);
    CarryNonNegative(2 * h, Val(mid), k, Val(m) + high + low + cross);
    assert c[co..co + 3 * h] == q0 + mid;
    ghost var k3 := CarryTop(c, co, h, k);
    ghost var q3' := c[co + 3 * h..co + 4 * h];
    assert c[co..co + 4 * h] == c[co..co + 3 * h] + q3';
    Joined(h, q0, mid, q3');
    StepNumbers(h, Val(q0), Val(m), Val(q3), low, high, cross, Val(mid), k, Val(q3'), k3, Val(q0 + mid + q3'));
  }

  lemma StepNumbers(h: nat, q0: int, mid: int, q3: int, low: int, high: int, cross: int, mid': int, k: int, q3': int,
      k3: int, v: int)
    requires q0 + Shift(h, mid) + Shift(3 * h, q3) == low + Shift(2 * h, high)
    requires mid' + Shift(2 * h, k) == mid + high + low + cross
    requires q3' + Shift(h, k3) == q3 + k
    requires v == q0 + Shift(h, mid') + Shift(3 * h, q3') && v >= 0 && k3 >= 0
    requires Middle(h, low, high, cross) < Shift(4 * h, 1)
    ensures v == Middle(h, low, high, cross)
  {
    hide *;
    MiddleSum(h, q0, mid, q3, low, high, cross, mid', k, q3', k3);
    MiddleIs(h, low, high, cross);
    CarryAbsorbed(4 * h, v, k3, Middle(h, low, high, cross));
  }

  lemma MiddleIs(h: nat, low: int, high: int, cross: int)
    ensures Middle(h, low, high, cross) == low + Shift(2 * h, high) + Shift(h, low + high + cross)
  {
  }

  lemma Joined(h: nat, x: seq<word>, y: seq<word>, z: seq<word>)
    requires |x| == h && |y| == 2 * h
    ensures Val(x + y + z) == Val(x) + Shift(h, Val(y)) + Shift(3 * h, Val(z))
  {
    hide *;
    ValConcat(x + y, z);
    ValConcat(x, y);
  }

  function Signed(negative: bool, x: int): int {
    if negative then -x else x
  }

  /** low and high halves of a result with low + high + cross added at its middle. */
  ghost function Middle(h: nat, low: int, high: int, cross: int): int {
    low + Shift(2 * h, high) + Shift(h, low + high + cross)
  }

  lemma CrossProduct(h: nat, a0: int, a1: int, b0: int, b1: int)
    ensures Middle(h, a0 * b0, a1 * b1, (a1 - a0) * (b0 - b1)) == (a0 + Shift(h, a1)) * (b0 + Shift(h, b1))
    ensures a0 >= 0 && a1 >= 0 && b0 >= 0 && b1 >= 0 ==> a0 * b0 + a1 * b1 + (a1 - a0) * (b0 - b1) >= 0
  {
    hide *;
    MiddleIs(h, a0 * b0, a1 * b1, (a1 - a0) * (b0 - b1));
    CrossTerms(a0, a1, b0, b1);
    ShiftAdd(h, a1 * b0, a0 * b1);
    ShiftMul(h, a1, b0);
    ShiftMul(h, a0, b1);
    ShiftMul(h, a1, Shift(h, b1));
    ShiftMul(h, a1, b1);
    ShiftShift(h, h, a1 * b1);
    ProductOfSums(a0, Shift(h, a1), b0, Shift(h, b1));
  }

  lemma CrossTerms(a0: int, a1: int, b0: int, b1: int)
    ensures a0 * b0 + a1 * b1 + (a1 - a0) * (b0 - b1) == a1 * b0 + a0 * b1
    ensures a0 >= 0 && a1 >= 0 && b0 >= 0 && b1 >= 0 ==> a1 * b0 >= 0 && a0 * b1 >= 0
  {
  }

  lemma ProductOfSums(x: int, y: int, z: int, w: int)
    ensures (x + y) * (z + w) == x * z + x * w + y * z + y * w
  {
  }

  lemma SignedProduct(x: int, y: int)
    ensures Signed((x >= 0) != (y >= 0), Abs(x) * Abs(y)) == x * y
  {
  }

  /** A product of two rows fits twice their length. */
  lemma ProductFits(x: seq<word>, y: seq<word>)
    requires |x| == |y|
    ensures 0 <= Val(x) * Val(y) < Shift(2 * |x|, 1)
  {
    hide *;
    ValBound(x);
    ValBound(y);
    ShiftMul(|x|, 1, Shift(|x|, 1));
    ShiftShift(|x|, |x|, 1);
    ProductBelow(Val(x), Val(y), Shift(|x|, 1));
  }

  lemma ProductBelow(x: int, y: int, p: int)
    requires 0 <= x < p && 0 <= y < p
    ensures 0 <= x * y < p * p
  {
    MulOrder(y, x, p);
    MulOrder(y, 0, x);
    if y < p {
      assert p * y <= p * (p - 1) by { MulOrder(p, y, p - 1); }
    }
  }

  /**
    Both differences: |a1 - a0| into the top quarter of c and |b0 - b1| into the one below.
    The result says whether their product is to be subtracted.
   */
  method Differences(a: array<word>, ao: nat, b: array<word>, bo: nat, c: array<word>, co: nat, h: nat)
      returns (subtract: bool)
    requires ao + 2 * h <= a.Length && bo + 2 * h <= b.Length && co + 4 * h <= c.Length
    requires Apart(a, ao, 2 * h, c, co, 4 * h) && Apart(b, bo, 2 * h, c, co, 4 * h)
    modifies c
    ensures Signed(subtract, Val(c[co + 3 * h..co + 4 * h]) * Val(c[co + 2 * h..co + 3 * h]))
      == (old(Val(a[ao + h..ao + 2 * h])) - old(Val(a[ao..ao + h])))
         * (old(Val(b[bo..bo + h])) - old(Val(b[bo + h..bo + 2 * h])))
    ensures forall j :: 0 <= j < c.Length && !(co + 2 * h <= j < co + 4 * h) ==> c[j] == old(c[j])
  {
    hide Val, Shift;
    ghost var b0, b1 := b[bo..bo + h], b[bo + h..bo + 2 * h];
    ghost var da := Val(a[ao + h..ao + 2 * h]) - Val(a[ao..ao + h]);
    assert ao + h + h == ao + 2 * h && bo + h + h == bo + 2 * h;
    assert co + 3 * h + h == co + 4 * h && co + 2 * h + h == co + 3 * h;
    var signA := AbsDiff(a, ao + h, ao, c, co + 3 * h, h);
    ghost var c3 := c[co + 3 * h..co + 4 * h];
    assert b[bo..bo + h] == b0 && b[bo + h..bo + 2 * h] == b1;
    var signB := AbsDiff(b, bo, bo + h, c, co + 2 * h, h);
    assert c[co + 3 * h..co + 4 * h] == c3;
    SignedProduct(da, Val(b0) - Val(b1));
    subtract := signA != signB;
  }

  /** The first recursive call: the product of the differences into the lower half of t. */
  method CrossInto(a: array<word>, ao: nat, b: array<word>, bo: nat, c: array<word>, co: nat, t: array<word>, to: nat,
      h: nat, cutoff: nat) returns (subtract: bool)
    requires cutoff > 0 && Halves(h, cutoff)
    requires ao + 2 * h <= a.Length && bo + 2 * h <= b.Length && co + 4 * h <= c.Length && to + 4 * h <= t.Length
    requires Apart(a, ao, 2 * h, c, co, 4 * h) && Apart(b, bo, 2 * h, c, co, 4 * h)
    requires Apart(c, co, 4 * h, t, to, 4 * h)
    modifies c, t
    ensures Signed(subtract, Val(t[to..to + 2 * h]))
      == (old(Val(a[ao + h..ao + 2 * h])) - old(Val(a[ao..ao + h])))
         * (old(Val(b[bo..bo + h])) - old(Val(b[bo + h..bo + 2 * h])))
    ensures forall j :: 0 <= j < c.Length && !(co <= j < co + 4 * h) && !(c == t && to <= j < to + 4 * h) ==>
      c[j] == old(c[j])
    ensures forall j :: 0 <= j < t.Length && !(to <= j < to + 4 * h) && !(c == t && co <= j < co + 4 * h) ==>
      t[j] == old(t[j])
    decreases h, 1
  {
    hide Val, Shift, Signed;
    subtract := Differences(a, ao, b, bo, c, co, h);
    assert co + 3 * h + h == co + 4 * h && co + 2 * h + h == co + 3 * h;
    RecursiveMultiply(c, co + 3 * h, c, co + 2 * h, t, to, t, to + 2 * h, h, cutoff);
  }

  /** The second recursive call, with the upper halves of both operands untouched. */
  method LowProduct(a: array<word>, ao: nat, b: array<word>, bo: nat, c: array<word>, co: nat, t: array<word>, to: nat,
      h: nat, cutoff: nat)
    requires cutoff > 0 && Halves(h, cutoff)
    requires ao + 2 * h <= a.Length && bo + 2 * h <= b.Length && co + 4 * h <= c.Length && to + 2 * h <= t.Length
    requires Apart(a, ao, 2 * h, c, co, 4 * h) && Apart(b, bo, 2 * h, c, co, 4 * h)
    requires Apart(a, ao, 2 * h, t, to, 2 * h) && Apart(b, bo, 2 * h, t, to, 2 * h)
    requires Apart(c, co, 4 * h, t, to, 2 * h)
    modifies c, t
    ensures Val(c[co..co + 2 * h]) == old(Val(a[ao..ao + h])) * old(Val(b[bo..bo + h]))
    ensures a[ao + h..ao + 2 * h] == old(a[ao + h..ao + 2 * h])
    ensures b[bo + h..bo + 2 * h] == old(b[bo + h..bo + 2 * h])
    ensures forall j :: 0 <= j < c.Length && !(co <= j < co + 4 * h) && !(c == t && to <= j < to + 2 * h) ==>
      c[j] == old(c[j])
    ensures forall j :: 0 <= j < t.Length && !(to <= j < to + 2 * h) && !(c == t && co <= j < co + 4 * h) ==>
      t[j] == old(t[j])
    decreases h, 1
  {
    hide Val, Shift;
    RecursiveMultiply(a, ao, b, bo, c, co, t, to, h, cutoff);
  }

  /** The third, with the lower product untouched. */
  method HighProduct(a: array<word>, ao: nat, b: array<word>, bo: nat, c: array<word>, co: nat, t: array<word>,
      to: nat, h: nat, cutoff: nat)
    requires cutoff > 0 && Halves(h, cutoff)
    requires ao + 2 * h <= a.Length && bo + 2 * h <= b.Length && co + 4 * h <= c.Length && to + 2 * h <= t.Length
    requires Apart(a, ao, 2 * h, c, co, 4 * h) && Apart(b, bo, 2 * h, c, co, 4 * h)
    requires Apart(a, ao, 2 * h, t, to, 2 * h) && Apart(b, bo, 2 * h, t, to, 2 * h)
    requires Apart(c, co, 4 * h, t, to, 2 * h)
    modifies c, t
    ensures Val(c[co + 2 * h..co + 4 * h]) == old(Val(a[ao + h..ao + 2 * h])) * old(Val(b[bo + h..bo + 2 * h]))
    ensures c[co..co + 2 * h] == old(c[co..co + 2 * h])
    ensures forall j :: 0 <= j < c.Length && !(co <= j < co + 4 * h) && !(c == t && to <= j < to + 2 * h) ==>
      c[j] == old(c[j])
    ensures forall j :: 0 <= j < t.Length && !(to <= j < to + 2 * h) && !(c == t && co <= j < co + 4 * h) ==>
      t[j] == old(t[j])
    decreases h, 1
  {
    hide Val, Shift;
    assert ao + h + h == ao + 2 * h && bo + h + h == bo + 2 * h && co + 2 * h + 2 * h == co + 4 * h;
    RecursiveMultiply(a, ao + h, b, bo + h, c, co + 2 * h, t, to, h, cutoff);
  }

  /** The other two recursive calls: the products of the halves, side by side in c. */
  method HalfProducts(a: array<word>, ao: nat, b: array<word>, bo: nat, c: array<word>, co: nat, t: array<word>,
      to: nat, h: nat, cutoff: nat)
    requires cutoff > 0 && Halves(h, cutoff)
    requires ao + 2 * h <= a.Length && bo + 2 * h <= b.Length && co + 4 * h <= c.Length && to + 2 * h <= t.Length
    requires Apart(a, ao, 2 * h, c, co, 4 * h) && Apart(b, bo, 2 * h, c, co, 4 * h)
    requires Apart(a, ao, 2 * h, t, to, 2 * h) && Apart(b, bo, 2 * h, t, to, 2 * h)
    requires Apart(c, co, 4 * h, t, to, 2 * h)
    modifies c, t
    ensures Val(c[co..co + 2 * h]) == old(Val(a[ao..ao + h])) * old(Val(b[bo..bo + h]))
    ensures Val(c[co + 2 * h..co + 4 * h]) == old(Val(a[ao + h..ao + 2 * h])) * old(Val(b[bo + h..bo + 2 * h]))
    ensures forall j :: 0 <= j < c.Length && !(co <= j < co + 4 * h) && !(c == t && to <= j < to + 2 * h) ==>
      c[j] == old(c[j])
    ensures forall j :: 0 <= j < t.Length && !(to <= j < to + 2 * h) && !(c == t && co <= j < co + 4 * h) ==>
      t[j] == old(t[j])
    decreases h, 2
  {
    hide Val, Shift;
    LowProduct(a, ao, b, bo, c, co, t, to, h, cutoff);
    HighProduct(a, ao, b, bo, c, co, t, to, h, cutoff);
  }

  /** recursiveMultiply: the product of two rows of n words into 2n words of c, with 2n words of scratch t. */
  method RecursiveMultiply(a: array<word>, ao: nat, b: array<word>, bo: nat, c: array<word>, co: nat, t: array<word>,
      to: nat, n: nat, cutoff: nat)
    requires cutoff > 0 && Halves(n, cutoff)
    requires ao + n <= a.Length && bo + n <= b.Length && co + 2 * n <= c.Length && to + 2 * n <= t.Length
    requires Apart(a, ao, n, c, co, 2 * n) && Apart(b, bo, n, c, co, 2 * n)
    requires Apart(a, ao, n, t, to, 2 * n) && Apart(b, bo, n, t, to, 2 * n)
    requires Apart(c, co, 2 * n, t, to, 2 * n)
    modifies c, t
    ensures Val(c[co..co + 2 * n]) == old(Val(a[ao..ao + n])) * old(Val(b[bo..bo + n]))
    ensures forall j :: 0 <= j < c.Length && !(co <= j < co + 2 * n) && !(c == t && to <= j < to + 2 * n) ==>
      c[j] == old(c[j])
    ensures forall j :: 0 <= j < t.Length && !(to <= j < to + 2 * n) && !(c == t && co <= j < co + 2 * n) ==>
      t[j] == old(t[j])
    decreases n, 0
  {
    hide Val, Shift, Middle, Signed;
    if n == cutoff {
      BigmultN(a, ao, b, bo, c, co, n);
      return;
    }
    var h := n / 2;
    assert n == 2 * h && 2 * n == 4 * h;
    HalveAndMultiply(a, ao, b, bo, c, co, t, to, h, cutoff);
  }

  /** The first recursive call, with both operands untouched. */
  method CrossFirst(a: array<word>, ao: nat, b: array<word>, bo: nat, c: array<word>, co: nat, t: array<word>, to: nat,
      h: nat, cutoff: nat) returns (subtract: bool)
    requires cutoff > 0 && Halves(h, cutoff)
    requires ao + 2 * h <= a.Length && bo + 2 * h <= b.Length && co + 4 * h <= c.Length && to + 4 * h <= t.Length
    requires Apart(a, ao, 2 * h, c, co, 4 * h) && Apart(b, bo, 2 * h, c, co, 4 * h)
    requires Apart(a, ao, 2 * h, t, to, 4 * h) && Apart(b, bo, 2 * h, t, to, 4 * h)
    requires Apart(c, co, 4 * h, t, to, 4 * h)
    modifies c, t
    ensures Signed(subtract, Val(t[to..to + 2 * h]))
      == (old(Val(a[ao + h..ao + 2 * h])) - old(Val(a[ao..ao + h])))
         * (old(Val(b[bo..bo + h])) - old(Val(b[bo + h..bo + 2 * h])))
    ensures a[ao..ao + h] == old(a[ao..ao + h]) && a[ao + h..ao + 2 * h] == old(a[ao + h..ao + 2 * h])
    ensures b[bo..bo + h] == old(b[bo..bo + h]) && b[bo + h..bo + 2 * h] == old(b[bo + h..bo + 2 * h])
    ensures forall j :: 0 <= j < c.Length && !(co <= j < co + 4 * h) && !(c == t && to <= j < to + 4 * h) ==>
      c[j] == old(c[j])
    ensures forall j :: 0 <= j < t.Length && !(to <= j < to + 4 * h) && !(c == t && co <= j < co + 4 * h) ==>
      t[j] == old(t[j])
    decreases h, 2
  {
    hide Val, Shift, Signed;
    subtract := CrossInto(a, ao, b, bo, c, co, t, to, h, cutoff);
  }

  /** The other two recursive calls, with the product of the differences untouched. */
  method HalvesAfter(a: array<word>, ao: nat, b: array<word>, bo: nat, c: array<word>, co: nat, t: array<word>,
      to: nat, h: nat, cutoff: nat)
    requires cutoff > 0 && Halves(h, cutoff)
    requires ao + 2 * h <= a.Length && bo + 2 * h <= b.Length && co + 4 * h <= c.Length && to + 4 * h <= t.Length
    requires Apart(a, ao, 2 * h, c, co, 4 * h) && Apart(b, bo, 2 * h, c, co, 4 * h)
    requires Apart(a, ao, 2 * h, t, to, 4 * h) && Apart(b, bo, 2 * h, t, to, 4 * h)
    requires Apart(c, co, 4 * h, t, to, 4 * h)
    modifies c, t
    ensures Val(c[co..co + 2 * h]) == old(Val(a[ao..ao + h])) * old(Val(b[bo..bo + h]))
    ensures Val(c[co + 2 * h..co + 4 * h]) == old(Val(a[ao + h..ao + 2 * h])) * old(Val(b[bo + h..bo + 2 * h]))
    ensures t[to..to + 2 * h] == old(t[to..to + 2 * h])
    ensures forall j :: 0 <= j < c.Length && !(co <= j < co + 4 * h) && !(c == t && to <= j < to + 4 * h) ==>
      c[j] == old(c[j])
    ensures forall j :: 0 <= j < t.Length && !(to <= j < to + 4 * h) && !(c == t && co <= j < co + 4 * h) ==>
      t[j] == old(t[j])
    decreases h, 3
  {
    hide Val, Shift;
    HalfProducts(a, ao, b, bo, c, co, t, to + 2 * h, h, cutoff);
  }

  /** The body of recursiveMultiply below the cutoff test. */
  method HalveAndMultiply(a: array<word>, ao: nat, b: array<word>, bo: nat, c: array<word>, co: nat, t: array<word>,
      to: nat, h: nat, cutoff: nat)
    requires cutoff > 0 && Halves(h, cutoff)
    requires ao + 2 * h <= a.Length && bo + 2 * h <= b.Length && co + 4 * h <= c.Length && to + 4 * h <= t.Length
    requires Apart(a, ao, 2 * h, c, co, 4 * h) && Apart(b, bo, 2 * h, c, co, 4 * h)
    requires Apart(a, ao, 2 * h, t, to, 4 * h) && Apart(b, bo, 2 * h, t, to, 4 * h)
    requires Apart(c, co, 4 * h, t, to, 4 * h)
    modifies c, t
    ensures Val(c[co..co + 4 * h]) == old(Val(a[ao..ao + 2 * h])) * old(Val(b[bo..bo + 2 * h]))
    ensures forall j :: 0 <= j < c.Length && !(co <= j < co + 4 * h) && !(c == t && to <= j < to + 4 * h) ==>
      c[j] == old(c[j])
    ensures forall j :: 0 <= j < t.Length && !(to <= j < to + 4 * h) && !(c == t && co <= j < co + 4 * h) ==>
      t[j] == old(t[j])
    decreases h, 4
  {
    hide Val, Shift, Middle, Signed;
    ghost var a0, a1 := a[ao..ao + h], a[ao + h..ao + 2 * h];
    ghost var b0, b1 := b[bo..bo + h], b[bo + h..bo + 2 * h];
    assert a[ao..ao + 2 * h] == a0 + a1 && b[bo..bo + 2 * h] == b0 + b1;
    KaratsubaStep(h, a0, a1, b0, b1);
    var subtract := CrossFirst(a, ao, b, bo, c, co, t, to, h, cutoff);
    HalvesAfter(a, ao, b, bo, c, co, t, to, h, cutoff);
    AddMiddle(c, co, t, to, h, subtract, Val(a0) * Val(b0), Val(a1) * Val(b1),
      (Val(a1) - Val(a0)) * (Val(b0) - Val(b1)));
  }

  lemma KaratsubaStep(h: nat, a0: seq<word>, a1: seq<word>, b0: seq<word>, b1: seq<word>)
    requires |a0| == |a1| == |b0| == |b1| == h
    ensures Middle(h, Val(a0) * Val(b0), Val(a1) * Val(b1), (Val(a1) - Val(a0)) * (Val(b0) - Val(b1)))
         == Val(a0 + a1) * Val(b0 + b1) < Shift(4 * h, 1)
    ensures Val(a0) * Val(b0) + Val(a1) * Val(b1) + (Val(a1) - Val(a0)) * (Val(b0) - Val(b1)) >= 0
  {
    hide *;
    CrossProduct(h, Val(a0), Val(a1), Val(b0), Val(b1));
    ValConcat(a0, a1);
    ValConcat(b0, b1);
    ProductFits(a0 + a1, b0 + b1);
  }
}
