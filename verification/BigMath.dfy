/**
  Addition, subtraction and shifts of Bignums (crypt/bigmath.c, bigAdd.c, bigSubtract.c,
  bigLeftShift.c, bigRightShift.c). Results may be one of the operands.
 */
module BigMath {
  import opened Words
  import opened LongMult
  import opened WordLoops
  import opened Bignums
  import opened CoreMult

  /**
    LONG_SUBSTEP over the words b has. The result row may be either operand row;
    the loop reads both words of a place before it stores there.
   */
  method SubLow(a: array<word>, b: array<word>, c: array<word>, n: nat) returns (carry: int)
    requires n <= a.Length && n <= b.Length && n <= c.Length
    modifies c
    ensures -1 <= carry <= 0
    ensures Val(c[..n]) + Shift(n, carry) == old(Val(a[..n])) - old(Val(b[..n]))
    ensures forall j :: n <= j < c.Length ==> c[j] == old(c[j])
  {
    ghost var x, y := a[..n], b[..n];
    ghost var r: seq<word> := [];
    Empty();
    hide Val, Shift, Wrap;
    carry := 0;
    var i := 0;
    while i < n
      invariant 0 <= i <= n && -1 <= carry <= 0
      invariant |r| == i && forall j {:trigger r[j]} :: 0 <= j < i ==> r[j] == c[j]
      invariant Val(r) + Shift(i, carry) == Val(x[..i]) - Val(y[..i])
      invariant forall j :: i <= j < c.Length ==> c[j] == old(c[j])
    {
      assert a[i] == x[i];
      assert b[i] == y[i];
      ghost var k := carry;
      var w;
      w, carry := SubStep(a[i], b[i], carry);
      SumExtend(i, r, w, k, carry, x, -1, y);
      c[i] := w;
      r := r + [w];
      i := i + 1;
    }
    assert c[..n] == r;
    assert x[..n] == x && y[..n] == y;
  }

  /**
    The words the borrow loop has stored and the borrow it carries. In place the loop compares the
    stored word with itself, so after the first word it carries nothing.
   */
  ghost predicate Borrowed(r: seq<word>, carry: int, x: seq<word>, k: int, inPlace: bool) {
    && |r| <= |x|
    && if inPlace then
         if |r| == 0 then carry == k
         else carry == 0 && r == [Wrap((x[0] as int) + k)] + x[1..|r|]
       else Val(r) + Shift(|r|, carry) == Val(x[..|r|]) + k
  }

  lemma BorrowStarts(x: seq<word>, k: int, inPlace: bool)
    ensures Borrowed([], k, x, k, inPlace)
  {
    assert x[..0] == [];
  }

  lemma BorrowExtends(r: seq<word>, carry: int, x: seq<word>, k: int, inPlace: bool, w: word, carry': int)
    requires Borrowed(r, carry, x, k, inPlace) && |r| < |x|
    requires w == Wrap((x[|r|] as int) + carry)
    requires carry' == if !inPlace && w > x[|r|] then -1 else 0
    requires -1 <= carry <= 0
    ensures Borrowed(r + [w], carry', x, k, inPlace)
  {
    hide Val, Shift;
    if inPlace {
      if |r| > 0 {
        assert x[1..|r| + 1] == x[1..|r|] + [x[|r|]];
      } else {
        assert x[1..1] == [];
      }
    } else {
      var x0: int := x[|r|];
      assert w + B * carry' == x0 + carry;
      DigitExtend(r, w, carry, carry', Val(x[..|r|]) + k, x0);
      ValExtend(x, |r|);
    }
  }

  /**
    LONG_BORROWSTEP over the words above b. The step compares the stored word with the operand
    word as it is after the store.
   */
  method BorrowHigh(a: array<word>, c: array<word>, lo: nat, hi: nat, k: int) returns (carry: int)
    requires lo <= hi <= a.Length && hi <= c.Length && -1 <= k <= 0
    modifies c
    ensures -1 <= carry <= 0
    ensures Borrowed(c[lo..hi], carry, old(a[lo..hi]), k, a == c)
    ensures forall j :: 0 <= j < c.Length && !(lo <= j < hi) ==> c[j] == old(c[j])
  {
    ghost var x := a[lo..hi];
    ghost var r: seq<word> := [];
    BorrowStarts(x, k, a == c);
    hide Val, Shift, Borrowed;
    carry := k;
    var i := lo;
    while i < hi
      invariant lo <= i <= hi && -1 <= carry <= 0
      invariant |r| == i - lo && forall j {:trigger r[j]} :: 0 <= j < i - lo ==> r[j] == c[lo + j]
      invariant Borrowed(r, carry, x, k, a == c)
      invariant forall j :: 0 <= j < c.Length && !(lo <= j < i) ==> c[j] == old(c[j])
    {
      assert a[i] == x[i - lo];
      ghost var k0 := carry;
      c[i] := Wrap((a[i] as int) + carry);
      carry := if c[i] > a[i] then -1 else 0;
      BorrowExtends(r, k0, x, k, a == c, c[i], carry);
      r := r + [c[i]];
      i := i + 1;
    }
    assert c[lo..hi] == r;
  }

  /**
    The exact condition under which bigsub subtracts correctly when the result is the minuend:
    no borrow leaves the words b has, or it meets a word that is not zero, or there is none above.
   */
  ghost predicate InPlaceSafe(x: seq<word>, y: seq<word>)
    requires |y| <= |x|
  {
    Val(x[..|y|]) >= Val(y) || |x| == |y| || x[|y|] != 0
  }

  /**
    B^2 - 1 in place, the input that goes wrong: the borrow out of the low word meets a zero word,
    that word wraps to all ones, and the comparison with itself drops the borrow.
   */
  lemma BorrowLost()
    ensures var x: seq<word>, y: seq<word> := [0, 0, 1], [1];
      && Val(y) < Val(x) && !InPlaceSafe(x, y)
      && Borrowed([0xFFFF_FFFF, 1], 0, x[1..], -1, true)
      && Val([0xFFFF_FFFF] + [0xFFFF_FFFF, 1]) == Val(x) - Val(y) + Shift(2, 1)
  {
    var x: seq<word> := [0, 0, 1];
    assert x[..1] == [0] && x[1..] == [0, 1] && x[1..][1..2] == [1];
    assert x[1..][1..] == [1];
    ValSingle(0);
    ValSingle(1);
    var r: seq<word> := [0xFFFF_FFFF] + [0xFFFF_FFFF, 1];
    assert r[1..] == [0xFFFF_FFFF, 1] && [0xFFFF_FFFF, 1][1..] == [1];
    assert Shift(2, 1) == 0x1_0000_0000 * Shift(1, 1);
  }

  /** The words of c from its length up to n are zero. */
  ghost predicate CleanAbove(c: Bignum, n: nat)
    reads c, c.num
  {
    forall j :: c.length <= j < n && j < c.num.Length ==> c.num[j] == 0
  }

  /** c kept its storage, and the words from n on. */
  ghost predicate SameAbove(c: Bignum, num: array<word>, z: seq<word>, n: nat)
    reads c, c.num
  {
    c.num == num && |z| == c.num.Length && forall j :: n <= j < c.num.Length ==> c.num[j] == z[j]
  }

  /** The two loops of bigsub: n words with b, the words up to m with the borrow alone. */
  method SubRows(a: array<word>, b: array<word>, c: array<word>, n: nat, m: nat)
    requires n <= m <= a.Length && n <= b.Length && m <= c.Length && Val(b[..n]) <= Val(a[..m])
    modifies c
    ensures a != c ==> Val(c[..m]) == old(Val(a[..m])) - old(Val(b[..n]))
    ensures a == c ==> (Val(c[..m]) == old(Val(a[..m])) - old(Val(b[..n])) <==> InPlaceSafe(old(a[..m]), old(b[..n])))
    ensures forall j :: m <= j < c.Length ==> c[j] == old(c[j])
  {
    hide Val, Shift;
    ghost var x, y := a[..m], b[..n];
    assert a[..n] == x[..n];
    var carry := SubLow(a, b, c, n);
    ghost var low := c[..n];
    assert a[n..m] == x[n..];
    ghost var k := carry;
    carry := BorrowHigh(a, c, n, m, carry);
    assert c[..n] == low;
    assert c[..m] == low + c[n..m];
    if a == c {
      InPlaceDifference(x, y, low, c[n..m], k, carry);
    } else {
      Difference(x, y, low, c[n..m], k, carry);
    }
  }

  /** bigsub: the difference of the magnitudes; c may be a or b. */
  method Bigsub(a: Bignum, b: Bignum, c: Bignum)
    requires a.Valid() && b.Valid() && c.Valid()
    requires (a != c ==> a.num != c.num) && (b != c ==> b.num != c.num)
    requires b.length <= a.length && b.Mag() <= a.Mag()
    modifies c, c.num
    ensures c.Valid() && c.Trimmed() && (c.num == old(c.num) || fresh(c.num))
    ensures c.space >= old(c.space)
    ensures a != c ==> c.Mag() == old(a.Mag()) - old(b.Mag())
    ensures a == c ==> (c.Mag() == old(a.Mag()) - old(b.Mag()) <==> InPlaceSafe(old(a.Digits()), old(b.Digits())))
    ensures c.sign == old(c.sign) || c.sign == POS
    ensures c.Mag() != 0 ==> c.sign == old(c.sign)
    ensures CleanAbove(c, old(a.length))
      && (old(c.space) >= old(a.length) ==> SameAbove(c, old(c.num), old(c.num[..]), old(a.length)))
  {
    hide Val, Shift;
    ghost var x, y := a.num[..a.length], b.num[..b.length];
    var n, m := b.length, a.length;
    c.Guarantee(m);
    assert a.num[..m] == x && b.num[..n] == y;
    SubRows(a.num, b.num, c.num, n, m);
    c.length := m;
    c.Trim();
  }

  lemma Difference(x: seq<word>, y: seq<word>, low: seq<word>, high: seq<word>, k: int, carry: int)
    requires |low| == |y| <= |x| && |high| == |x| - |y| && -1 <= carry <= 0 && Val(y) <= Val(x)
    requires Val(low) + Shift(|y|, k) == Val(x[..|y|]) - Val(y)
    requires Borrowed(high, carry, x[|y|..], k, false)
    ensures Val(low + high) == Val(x) - Val(y)
  {
    hide *;
    BorrowedApart(high, carry, x[|y|..], k);
    ValSplit(x, |y|);
    DifferenceJoined(low, high, carry, Val(x[..|y|]), Val(x[|y|..]), Val(y), k);
  }

  lemma DifferenceJoined(low: seq<word>, high: seq<word>, carry: int, xl: int, xh: int, y: int, k: int)
    requires -1 <= carry <= 0 && Val(low) + Shift(|low|, k) == xl - y && Val(high) + Shift(|high|, carry) == xh + k
    requires y <= xl + Shift(|low|, xh)
    ensures Val(low + high) == xl + Shift(|low|, xh) - y
  {
    hide *;
    ValConcat(low, high);
    DifferenceNumbers(|low|, |high|, Val(low), Val(high), carry, xl, xh, y, k);
    NoBorrowOut(|low| + |high|, low + high, carry, xl + Shift(|low|, xh) - y);
  }

  lemma DifferenceNumbers(n: nat, m: nat, low: int, high: int, carry: int, xl: int, xh: int, y: int, k: int)
    requires low + Shift(n, k) == xl - y && high + Shift(m, carry) == xh + k
    ensures low + Shift(n, high) + Shift(n + m, carry) == xl + Shift(n, xh) - y
  {
    hide *;
    MovedSum(n, m, high, carry, xh, k);
  }

  lemma BorrowedApart(high: seq<word>, carry: int, u: seq<word>, k: int)
    requires Borrowed(high, carry, u, k, false) && |high| == |u|
    ensures Val(high) + Shift(|high|, carry) == Val(u) + k
  {
    assert u[..|u|] == u;
  }

  lemma NoBorrowOut(n: nat, r: seq<word>, carry: int, d: int)
    requires |r| == n && -1 <= carry <= 0 && d >= 0
    requires Val(r) + Shift(n, carry) == d
    ensures carry == 0 && Val(r) == d
  {
    ValBound(r);
    if carry == -1 {
      ShiftSub(n, 0, 1);
    }
  }

  lemma InPlaceDifference(x: seq<word>, y: seq<word>, low: seq<word>, high: seq<word>, k: int, carry: int)
    requires |low| == |y| <= |x| && |high| == |x| - |y| && -1 <= k <= 0 && Val(y) <= Val(x)
    requires Val(low) + Shift(|y|, k) == Val(x[..|y|]) - Val(y)
    requires Borrowed(high, carry, x[|y|..], k, true)
    ensures Val(low + high) == Val(x) - Val(y) <==> InPlaceSafe(x, y)
  {
    hide Val, Shift, Borrowed;
    var n := |y|;
    BorrowMeans(n, low, Val(x[..n]), Val(y), k);
    if |high| == 0 {
      assert x[..n] == x && low + high == low;
      NoBorrowOut(n, low, k, Val(x) - Val(y));
    } else {
      BorrowedInPlace(high, carry, x[n..], k);
      ValConcat(low, high);
      ValSplit(x, n);
      InPlaceNumbers(n, Val(low), Val(high), Val(x[..n]), Val(x[n..]), Val(y), k, x[n]);
    }
  }

  lemma BorrowedInPlace(high: seq<word>, carry: int, u: seq<word>, k: int)
    requires Borrowed(high, carry, u, k, true) && |high| == |u| > 0 && -1 <= k <= 0
    ensures Val(high) == Val(u) + k + (if u[0] == 0 && k == -1 then B else 0)
  {
    hide Val;
    var w := Wrap((u[0] as int) + k);
    assert u[1..|u|] == u[1..];
    assert u == [u[0]] + u[1..] && high == [w] + u[1..];
    ValCons(w, u[1..]);
    ValCons(u[0], u[1..]);
  }

  lemma InPlaceNumbers(n: nat, low: int, high: int, xl: int, xh: int, y: int, k: int, u0: int)
    requires low + Shift(n, k) == xl - y && -1 <= k <= 0
    requires high == xh + k + (if u0 == 0 && k == -1 then B else 0)
    ensures low + Shift(n, high) == xl + Shift(n, xh) - y <==> !(u0 == 0 && k == -1)
  {
    hide Shift;
    var d := if u0 == 0 && k == -1 then B else 0;
    ShiftAdd(n, xh, k);
    ShiftAdd(n, xh + k, d);
    ShiftOrder(n, 0, d);
    ShiftZero(n);
  }

  lemma BorrowMeans(n: nat, low: seq<word>, x: int, y: int, k: int)
    requires |low| == n && -1 <= k <= 0 && Val(low) + Shift(n, k) == x - y
    ensures k == 0 <==> x >= y
  {
    ValBound(low);
    if k == -1 {
      ShiftSub(n, 0, 1);
    } else {
      ShiftZero(n);
    }
  }

  /** LONG_ADDSTEP over the words b has; the result row may be either operand row. */
  method AddLow(a: array<word>, b: array<word>, c: array<word>, n: nat) returns (carry: int)
    requires n <= a.Length && n <= b.Length && n <= c.Length
    modifies c
    ensures 0 <= carry <= 1
    ensures Val(c[..n]) + Shift(n, carry) == old(Val(a[..n])) + old(Val(b[..n]))
    ensures forall j :: n <= j < c.Length ==> c[j] == old(c[j])
  {
    ghost var x, y := a[..n], b[..n];
    ghost var r: seq<word> := [];
    Empty();
    hide Val, Shift, Wrap;
    carry := 0;
    var i := 0;
    while i < n
      invariant 0 <= i <= n && 0 <= carry <= 1
      invariant |r| == i && forall j {:trigger r[j]} :: 0 <= j < i ==> r[j] == c[j]
      invariant Val(r) + Shift(i, carry) == Val(x[..i]) + Val(y[..i])
      invariant forall j :: i <= j < c.Length ==> c[j] == old(c[j])
    {
      assert a[i] == x[i];
      assert b[i] == y[i];
      ghost var k := carry;
      var w;
      w, carry := AddStep(a[i], b[i], carry);
      SumExtend(i, r, w, k, carry, x, 1, y);
      c[i] := w;
      r := r + [w];
      i := i + 1;
    }
    assert c[..n] == r;
    assert x[..n] == x && y[..n] == y;
  }

  /** One word more of a row to which a carry is added. */
  lemma CarryExtend(x: seq<word>, n: nat, r: seq<word>, w: word, k: int, carry: int, out: int)
    requires n < |x| && |r| == n && Val(r) + Shift(n, carry) == Val(x[..n]) + k
    requires w + B * out == carry + x[n]
    ensures Val(r + [w]) + Shift(n + 1, out) == Val(x[..n + 1]) + k
  {
    DigitExtend(r, w, carry, out, Val(x[..n]) + k, x[n]);
    ValExtend(x, n);
  }

  /** CARRYSTEP over the words above b. */
  method CarryHigh(a: array<word>, c: array<word>, lo: nat, hi: nat, k: int) returns (carry: int)
    requires lo <= hi <= a.Length && hi <= c.Length && 0 <= k <= 1
    modifies c
    ensures 0 <= carry <= 1
    ensures Val(c[lo..hi]) + Shift(hi - lo, carry) == old(Val(a[lo..hi])) + k
    ensures forall j :: 0 <= j < c.Length && !(lo <= j < hi) ==> c[j] == old(c[j])
  {
    ghost var x := a[lo..hi];
    ghost var r: seq<word> := [];
    Empty();
    hide Val, Shift, Wrap;
    carry := k;
    var i := lo;
    while i < hi
      invariant lo <= i <= hi && 0 <= carry <= 1
      invariant |r| == i - lo && forall j {:trigger r[j]} :: 0 <= j < i - lo ==> r[j] == c[lo + j]
      invariant Val(r) + Shift(i - lo, carry) == Val(x[..i - lo]) + k
      invariant forall j :: 0 <= j < c.Length && !(lo <= j < i) ==> c[j] == old(c[j])
    {
      assert a[i] == x[i - lo];
      var w, out := AddDetect(carry, a[i]);
      CarryExtend(x, i - lo, r, w, k, carry, out);
      c[i] := w;
      carry := out;
      r := r + [w];
      i := i + 1;
    }
    assert c[lo..hi] == r;
    assert x[..hi - lo] == x;
  }

  /** bigaddition: the sum of the magnitudes with the sign of the longer operand; c may be a or b. */
  method Bigaddition(a0: Bignum, b0: Bignum, c: Bignum)
    requires a0.Valid() && b0.Valid() && c.Valid()
    requires (a0 != c ==> a0.num != c.num) && (b0 != c ==> b0.num != c.num)
    modifies c, c.num
    ensures c.Valid() && c.NoLeadingZero() && (c.num == old(c.num) || fresh(c.num)) && c.space >= old(c.space)
    ensures c.Mag() == old(a0.Mag()) + old(b0.Mag())
    ensures c.Mag() != 0 ==> c.sign == old(if a0.length < b0.length then b0.sign else a0.sign)
  {
    var a, b := a0, b0;
    if a.length < b.length {
      a, b := b0, a0;
    }
    hide Val, Shift;
    ghost var x, y := a.num[..a.length], b.num[..b.length];
    var n, m := b.length, a.length;
    var sign := a.sign;
    c.Guarantee(m + 1);
    assert a.num[..m] == x && b.num[..n] == y;
    var carry := AddRows(a.num, b.num, c.num, n, m);
    c.length := m;
    StoreCarry(c, carry);
    c.sign := sign;
    c.Trim();
  }

  /** The two loops of bigaddition: n words with b, the words up to m with the carry alone. */
  method AddRows(a: array<word>, b: array<word>, c: array<word>, n: nat, m: nat) returns (carry: int)
    requires n <= m <= a.Length && n <= b.Length && m <= c.Length
    modifies c
    ensures 0 <= carry <= 1
    ensures Val(c[..m]) + Shift(m, carry) == old(Val(a[..m])) + old(Val(b[..n]))
    ensures forall j :: m <= j < c.Length ==> c[j] == old(c[j])
  {
    hide Val, Shift;
    ghost var x, y := a[..m], b[..n];
    assert a[..n] == x[..n];
    assert a[n..m] == x[n..];
    carry := AddLow(a, b, c, n);
    ghost var low := c[..n];
    assert a[n..m] == x[n..];
    ghost var k := carry;
    carry := CarryHigh(a, c, n, m, carry);
    ghost var high := c[n..m];
    assert c[..n] == low;
    assert c[..m] == low + high;
    SumOfParts(n, x, y, low, high, k, carry);
  }

  lemma SumOfParts(n: nat, x: seq<word>, y: seq<word>, low: seq<word>, high: seq<word>, k: int, carry: int)
    requires |low| == n <= |x|
    requires Val(low) + Shift(n, k) == Val(x[..n]) + Val(y)
    requires Val(high) + Shift(|high|, carry) == Val(x[n..]) + k
    ensures Val(low + high) + Shift(n + |high|, carry) == Val(x) + Val(y)
  {
    hide *;
    ValConcat(low, high);
    ValSplit(x, n);
    SumNumbers(n, |high|, Val(low), Val(high), carry, Val(x[..n]), Val(x[n..]), Val(y), k);
  }

  lemma SumNumbers(n: nat, m: nat, low: int, high: int, carry: int, xl: int, xh: int, y: int, k: int)
    requires low + Shift(n, k) == xl + y && high + Shift(m, carry) == xh + k
    ensures low + Shift(n, high) + Shift(n + m, carry) == xl + Shift(n, xh) + y
  {
    hide *;
    MovedSum(n, m, high, carry, xh, k);
  }

  /** Whether storing a difference over its minuend is safe, for whichever operand is the minuend. */
  ghost predicate SafeOver(a: Bignum, b: Bignum, ret: Bignum)
    requires a.Valid() && b.Valid()
    reads a, a.num, b, b.num
  {
    && (ret == a && a.Mag() >= b.Mag() && b.length <= a.length ==> InPlaceSafe(a.Digits(), b.Digits()))
    && (ret == b && b.Mag() >= a.Mag() && a.length <= b.length ==> InPlaceSafe(b.Digits(), a.Digits()))
  }

  lemma EitherOver(a: Bignum, b: Bignum, ret: Bignum)
    requires a.Valid() && b.Valid()
    ensures SafeOver(a, b, ret) <==> SafeOver(b, a, ret)
  {
  }

  /** A smaller trimmed number is not longer. */
  lemma TrimmedLength(a: Bignum, b: Bignum)
    requires a.Valid() && b.Valid() && a.Trimmed() && b.Trimmed() && b.Mag() <= a.Mag()
    ensures b.length <= a.length
  {
    if a.length < b.length {
      ShorterIsLess(a.num[..a.length], b.num[..b.length]);
    }
  }

  function Longer(m: nat, n: nat): nat {
    if m < n then n else m
  }

  /** A difference over n words: clean above its length, and nothing moved if the storage sufficed. */
  ghost predicate Settled(c: Bignum, num: array<word>, z: seq<word>, n: nat)
    reads c, c.num
  {
    CleanAbove(c, n) && (|z| > n ==> SameAbove(c, num, z, n))
  }

  /** |a| - |b| into ret, for the larger minus the smaller; the result says which way round it was. */
  method SubtractMagnitudes(a: Bignum, b: Bignum, ret: Bignum) returns (order: int)
    requires a.Valid() && b.Valid() && ret.Valid() && a.Trimmed() && b.Trimmed()
    requires (a != ret ==> a.num != ret.num) && (b != ret ==> b.num != ret.num)
    modifies a, b, ret, ret.num
    ensures ret.Valid() && ret.Trimmed() && (ret.num == old(ret.num) || fresh(ret.num)) && ret.space >= old(ret.space)
    ensures (order >= 0 <==> old(a.Mag()) >= old(b.Mag())) && (order > 0 <==> old(a.Mag()) > old(b.Mag()))
    ensures ret.Mag() == (if order >= 0 then old(a.Mag()) - old(b.Mag()) else old(b.Mag()) - old(a.Mag()))
       <==> old(SafeOver(a, b, ret))
    ensures Settled(ret, old(ret.num), old(ret.num[..]), Longer(old(a.length), old(b.length)))
    ensures a != ret ==>
      a.Valid() && a.length == old(a.length) && a.sign == old(a.sign) && a.num == old(a.num) && a.space == old(a.space)
    ensures b != ret ==>
      b.Valid() && b.length == old(b.length) && b.sign == old(b.sign) && b.num == old(b.num) && b.space == old(b.space)
  {
    hide Val, Shift;
    order := Compare(a, b);
    if order >= 0 {
      TrimmedLength(a, b);
      Bigsub(a, b, ret);
    } else {
      TrimmedLength(b, a);
      Bigsub(b, a, ret);
    }
  }

  /** Fields of an operand that a call leaves as they were. */
  twostate predicate Untouched(a: Bignum)
    reads a
  {
    a.length == old(a.length) && a.sign == old(a.sign) && a.num == old(a.num) && a.space == old(a.space)
  }

  /** |a| - |b| with its sign: `pos` when it is not negative, the other sign when it is. */
  method SignedDifference(a: Bignum, b: Bignum, ret: Bignum, pos: int, neg: int, strict: bool)
    requires a.Valid() && b.Valid() && ret.Valid() && a.Trimmed() && b.Trimmed()
    requires (a != ret ==> a.num != ret.num) && (b != ret ==> b.num != ret.num)
    requires (pos == POS && neg == NEG) || (pos == NEG && neg == POS)
    modifies a, b, ret, ret.num
    ensures ret.Valid() && ret.NoLeadingZero() && (ret.num == old(ret.num) || fresh(ret.num))
      && ret.space >= old(ret.space)
    ensures ret.Value() == pos * (old(a.Mag()) - old(b.Mag())) <==> old(SafeOver(a, b, ret))
    ensures ret.sign == if old(a.Mag()) > old(b.Mag()) || (!strict && old(a.Mag()) == old(b.Mag())) then pos else neg
    ensures Settled(ret, old(ret.num), old(ret.num[..]), Longer(old(a.length), old(b.length)))
    ensures a != ret ==> a.Valid() && Untouched(a)
    ensures b != ret ==> b.Valid() && Untouched(b)
  {
    hide Val, Shift;
    var order := SubtractMagnitudes(a, b, ret);
    ret.sign := if order > 0 || (!strict && order == 0) then pos else neg;
  }

  /** bigSubtract: the signed difference, unless magnitudes are subtracted in place where that is not safe. */
  method BigSubtract(a: Bignum, b: Bignum, ret: Bignum)
    requires a.Valid() && b.Valid() && ret.Valid() && a.Trimmed() && b.Trimmed()
    requires (a != ret ==> a.num != ret.num) && (b != ret ==> b.num != ret.num)
    modifies a, b, ret, ret.num
    ensures ret.Valid() && ret.NoLeadingZero() && (ret.num == old(ret.num) || fresh(ret.num))
      && ret.space >= old(ret.space)
    ensures ret.Value() == old(a.Value()) - old(b.Value()) <==>
      (old(a.sign) == old(b.sign) ==> old(SafeOver(a, b, ret)))
    ensures old(a.sign) == POS && old(b.sign) == POS ==> (ret.sign == NEG <==> old(a.Mag()) < old(b.Mag()))
    ensures old(a.sign) == old(b.sign) ==>
      Settled(ret, old(ret.num), old(ret.num[..]), Longer(old(a.length), old(b.length)))
    ensures a != ret ==> a.Valid() && Untouched(a)
    ensures b != ret ==> b.Valid() && Untouched(b)
  {
    hide Val, Shift, Settled, SafeOver;
    if a.sign == POS && b.sign == POS {
      SignedDifference(a, b, ret, POS, NEG, false);
    } else if a.sign == POS && b.sign == NEG {
      Bigaddition(a, b, ret);
      ret.sign := POS;
    } else if a.sign == NEG && b.sign == NEG {
      SignedDifference(a, b, ret, NEG, POS, false);
    } else {
      Bigaddition(a, b, ret);
      ret.sign := NEG;
    }
  }

  /** bigAdd: the signed sum, with the same exception for operands of different signs. */
  method BigAdd(a: Bignum, b: Bignum, c: Bignum)
    requires a.Valid() && b.Valid() && c.Valid() && a.Trimmed() && b.Trimmed()
    requires (a != c ==> a.num != c.num) && (b != c ==> b.num != c.num)
    modifies a, b, c, c.num
    ensures c.Valid() && c.NoLeadingZero() && (c.num == old(c.num) || fresh(c.num))
    ensures c.Value() == old(a.Value()) + old(b.Value()) <==> (old(a.sign) != old(b.sign) ==> old(SafeOver(a, b, c)))
    ensures old(a.sign) == NEG && old(b.sign) == POS ==> (c.sign == POS <==> old(b.Mag()) > old(a.Mag()))
    ensures old(a.sign) != old(b.sign) ==> Settled(c, old(c.num), old(c.num[..]), Longer(old(b.length), old(a.length)))
    ensures a != c ==> a.Valid() && Untouched(a)
    ensures b != c ==> b.Valid() && Untouched(b)
  {
    hide Val, Shift, Settled, SafeOver;
    if a.sign == NEG && b.sign == POS {
      EitherOver(a, b, c);
      SignedDifference(b, a, c, POS, NEG, true);
    } else if b.sign == NEG && a.sign == POS {
      SignedDifference(a, b, c, POS, NEG, true);
    } else {
      var sign := a.sign;
      Bigaddition(a, b, c);
      c.sign := sign;
    }
  }
}
