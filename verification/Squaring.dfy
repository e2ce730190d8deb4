/**
  Squaring: the diagonal-and-doubled-rows square of crypt/coremult.c and the recursive
  in-place square of crypt/fastmult.c built on it.
 */
module Squaring {
  import opened Words
  import opened LongMult
  import opened WordLoops
  import opened Karatsuba

  function Square(x: int): (y: int)
    ensures y >= 0
  {
    x * x
  }

  /** The squares of the single words of x, each taking two words. */
  ghost function Diagonal(x: seq<word>): (v: int)
    ensures v >= 0
  {
    if |x| == 0 then 0 else Square(x[0]) + 0x1_0000_0000 * (0x1_0000_0000 * Diagonal(x[1..]))
  }

  lemma {:induction false} DiagonalConcat(x: seq<word>, y: seq<word>)
    ensures Diagonal(x + y) == Diagonal(x) + Shift(2 * |x|, Diagonal(y))
  {
    if |x| == 0 {
      assert x + y == y;
    } else {
      assert (x + y)[1..] == x[1..] + y;
      DiagonalConcat(x[1..], y);
      ShiftTwice(2 * |x[1..]|, Diagonal(y));
    }
  }

  lemma ShiftTwice(n: nat, x: int)
    ensures Shift(n + 2, x) == 0x1_0000_0000 * (0x1_0000_0000 * Shift(n, x))
  {
    assert Shift(n + 2, x) == 0x1_0000_0000 * Shift(n + 1, x);
  }

  /** BUILDDIAG */
  method BuildDiag(c: array<word>, co: nat, a: array<word>, ao: nat, n: nat)
    requires co + 2 * n <= c.Length && ao + n <= a.Length
    requires Apart(a, ao, n, c, co, 2 * n)
    modifies c
    ensures Val(c[co..co + 2 * n]) == Diagonal(old(a[ao..ao + n]))
    ensures forall j :: 0 <= j < c.Length && !(co <= j < co + 2 * n) ==> c[j] == old(c[j])
  {
    ghost var x := a[ao..ao + n];
    var i := 0;
    assert Diagonal(x[..0]) == Val(c[co..co + 2 * 0]);
    while i < n
      invariant 0 <= i <= n
      invariant Val(c[co..co + 2 * i]) == Diagonal(x[..i])
      invariant forall j :: 0 <= j < c.Length && !(co <= j < co + 2 * i) ==> c[j] == old(c[j])
    {
      hide Val, Shift, Diagonal, Wrap;
      assert a[ao + i] == x[i];
      ghost var r := c[co..co + 2 * i];
      var hi, lo := Umult(a[ao + i], a[ao + i]);
      c[co + 2 * i + 1] := hi;
      c[co + 2 * i] := lo;
      DiagonalExtend(i, x, r, lo, hi);
      assert c[co..co + 2 * (i + 1)] == r + [lo, hi];
      i := i + 1;
    }
    assert x[..n] == x;
  }

  lemma DiagonalExtend(i: nat, x: seq<word>, r: seq<word>, lo: word, hi: word)
    requires i < |x| && |r| == 2 * i && Val(r) == Diagonal(x[..i]) && B * hi + lo == Square(x[i])
    ensures Val(r + [lo, hi]) == Diagonal(x[..i + 1])
  {
    hide *;
    ValConcat(r, [lo, hi]);
    PairVal(lo, hi);
    assert x[..i + 1] == x[..i] + [x[i]];
    DiagonalConcat(x[..i], [x[i]]);
    DiagonalSingle(x[i]);
  }

  lemma PairVal(lo: word, hi: word)
    ensures Val([lo, hi]) == lo + B * hi
  {
    assert [lo, hi][1..] == [hi];
    ValSingle(hi);
  }

  lemma DiagonalSingle(w: word)
    ensures Diagonal([w]) == Square(w)
  {
    assert [w][1..] == [];
  }

  /**
    One step of SQUAREINNERLOOP: twice a product added to two adjacent words, with the pending
    carry at the upper one; the new carry belongs one place higher and is at most 2.
   */
  method SquareStep(m: word, x: word, carry: word, c0: word, c1: word) returns (w0: word, w1: word, out: word)
    requires carry <= 2
    ensures out <= 2
    ensures w0 + B * w1 + B * (B * out) == c0 + B * c1 + B * carry + 2 * (m * x)
  {
    var prodhi, prodlo := Umult(m, x);
    var sumh, suml := Add32(prodlo, prodlo);
    out, w0 := Add64(sumh, suml, carry, c0);
    sumh, suml := Add32(prodhi, prodhi);
    sumh, suml := Add64(sumh, suml, 0, c1);
    out, w1 := Add64(sumh, suml, 0, out);
    ProductRange(m, x);
  }

  method Add32(al: word, bl: word) returns (sh: word, sl: word)
    ensures sh <= 1 && B * sh + sl == al + bl
  {
    sl := Wrap(al + bl);
    sh := if sl < al then 1 else 0;
  }

  method Add64(ah: word, al: word, bh: word, bl: word) returns (sh: word, sl: word)
    requires ah + bh + 1 < B
    ensures B * sh + sl == B * (ah + bh) + al + bl
    ensures sh <= ah + bh + 1
  {
    var c := Wrap(al + bl);
    sh := Wrap(ah + bh);
    if c < al {
      sh := Wrap(sh + 1);
    }
    sl := c;
  }

  /** Storing one word changes the value of a row by the change of the word. */
  lemma ValUpdate(z: seq<word>, p: nat, w: word)
    requires p < |z|
    ensures Val(z[p := w]) == Val(z) + Shift(p, (w as int) - z[p])
  {
    hide *;
    var d: int, e: int := z[p], w;
    assert z == z[..p] + [z[p]] + z[p + 1..];
    assert z[p := w] == z[..p] + [w] + z[p + 1..];
    ValConcat(z[..p] + [z[p]], z[p + 1..]);
    ValConcat(z[..p] + [w], z[p + 1..]);
    ValSnoc(z[..p], z[p]);
    ValSnoc(z[..p], w);
    ShiftSub(p, e, d);
  }

  /** Storing two adjacent words. */
  lemma ValUpdateTwo(z: seq<word>, p: nat, w0: word, w1: word, d: int)
    requires p + 1 < |z|
    requires w0 + B * w1 == z[p] + B * z[p + 1] + d
    ensures Val(z[p := w0][p + 1 := w1]) == Val(z) + Shift(p, d)
  {
    hide *;
    var e: int, f: int := z[p], z[p + 1];
    ValUpdate(z, p, w0);
    ValUpdate(z[p := w0], p + 1, w1);
    ShiftNext(p, w1 - f);
    ShiftAdd(p, w0 - e, B * (w1 - f));
  }

  /** The twice-a-product step, seen on the whole row. */
  lemma SquareExtend(z: seq<word>, p: nat, w0: word, w1: word, k: int, k': int, q: int)
    requires p + 1 < |z|
    requires w0 + B * w1 + B * (B * k') == z[p] + B * z[p + 1] + B * k + 2 * q
    ensures Val(z[p := w0][p + 1 := w1]) + Shift(p + 2, k') == Val(z) + Shift(p + 1, k) + 2 * Shift(p, q)
  {
    hide *;
    ValUpdateTwo(z, p, w0, w1, B * k + 2 * q - B * (B * k'));
    ShiftNext(p, k);
    ShiftNext(p + 1, k');
    ShiftNext(p, B * k');
    ShiftSub(p, B * k + 2 * q, B * (B * k'));
    ShiftAdd(p, B * k, 2 * q);
    ShiftAdd(p, q, q);
  }

  /** m times the next word of a row, moved to its place. */
  lemma RowTerm(s: nat, m: int, x: seq<word>, i: nat)
    requires i < |x|
    ensures Shift(s, m * Val(x[..i + 1])) == Shift(s, m * Val(x[..i])) + Shift(s + i, m * x[i])
  {
    hide *;
    ValExtend(x, i);
    ShiftMul(i, m, x[i]);
    Distribute(m, Val(x[..i]), Shift(i, x[i]));
    ShiftAdd(s, m * Val(x[..i]), m * Shift(i, x[i]));
    ShiftShift(s, i, m * x[i]);
  }

  /** SQUAREINNERLOOP for word i: adds twice x[i] * x[i+1..] to the square under construction. */
  method SquareInnerLoop(c: array<word>, co: nat, a: array<word>, ao: nat, i: nat, n: nat)
    requires i + 1 < n && co + 2 * n <= c.Length && ao + n <= a.Length
    requires Apart(a, ao, n, c, co, 2 * n)
    requires Val(c[co..co + 2 * n]) + 2 * Shift(2 * i + 1, a[ao + i] * Val(a[ao + i + 1..ao + n])) < Shift(2 * n, 1)
    modifies c
    ensures Val(c[co..co + 2 * n])
         == old(Val(c[co..co + 2 * n]) + 2 * Shift(2 * i + 1, a[ao + i] * Val(a[ao + i + 1..ao + n])))
    ensures forall j :: 0 <= j < c.Length && !(co <= j < co + 2 * n) ==> c[j] == old(c[j])
  {
    hide Val, Shift, Wrap, SquareAt;
    ghost var x := a[ao + i + 1..ao + n];
    ghost var z := c[co..co + 2 * n];
    ghost var v := Val(z);
    var m := a[ao + i];
    var carry: word := 0;
    var p := 2 * i + 1;
    var j := i + 1;
    SquareAtEnds(z, p, v, m, x);
    while j < n
      invariant i + 1 <= j <= n && carry <= 2 && p == i + j
      invariant |z| == 2 * n && forall l {:trigger z[l]} :: 0 <= l < 2 * n ==> z[l] == c[co + l]
      invariant SquareAt(z, p, carry, v, 2 * i + 1, m, x)
      invariant forall l :: 0 <= l < c.Length && !(co <= l < co + 2 * n) ==> c[l] == old(c[l])
    {
      assert x[j - i - 1] == a[ao + j];
      assert z[p] == c[co + p] && z[p + 1] == c[co + p + 1];
      var w0, w1, out := SquareStep(m, a[ao + j], carry, c[co + p], c[co + p + 1]);
      SquareRowStep(z, 2 * i + 1, p, w0, w1, carry, out, v, m, x);
      c[co + p] := w0;
      c[co + p + 1] := w1;
      z := z[p := w0][p + 1 := w1];
      carry := out;
      p := p + 1;
      j := j + 1;
    }
    assert z == c[co..co + 2 * n];
    SquareAtEnd(z, p, carry, v, 2 * i + 1, m, x);
    SquareCarry(c, co, i, n, carry, v + 2 * Shift(2 * i + 1, m * Val(x)));
  }

  /** Twice m times the first p - s words of x have been added at place s, up to a carry at p + 1. */
  ghost predicate SquareAt(z: seq<word>, p: nat, k: int, v: int, s: nat, m: int, x: seq<word>) {
    s <= p <= s + |x| && Val(z) + Shift(p + 1, k) == v + 2 * Shift(s, m * Val(x[..p - s]))
  }

  lemma SquareAtEnds(z: seq<word>, s: nat, v: int, m: int, x: seq<word>)
    requires v == Val(z)
    ensures SquareAt(z, s, 0, v, s, m, x)
  {
    assert x[..0] == [] && m * 0 == 0;
  }

  lemma SquareAtEnd(z: seq<word>, p: nat, k: int, v: int, s: nat, m: int, x: seq<word>)
    requires SquareAt(z, p, k, v, s, m, x) && p == s + |x|
    ensures Val(z) + Shift(p + 1, k) == v + 2 * Shift(s, m * Val(x))
  {
    assert x[..|x|] == x;
  }

  lemma SquareRowStep(z: seq<word>, s: nat, p: nat, w0: word, w1: word, k: int, k': int, v: int, m: int, x: seq<word>)
    requires p + 1 < |z| && SquareAt(z, p, k, v, s, m, x) && p - s < |x|
    requires w0 + B * w1 + B * (B * k') == z[p] + B * z[p + 1] + B * k + 2 * (m * x[p - s])
    ensures SquareAt(z[p := w0][p + 1 := w1], p + 1, k', v, s, m, x)
  {
    hide Val, Shift;
    SquareExtend(z, p, w0, w1, k, k', m * x[p - s]);
    RowTerm(s, m, x, p - s);
  }

  /** The carry left after a row of a square moves up until it is absorbed, without leaving the square. */
  method SquareCarry(c: array<word>, co: nat, i: nat, n: nat, k: word, ghost target: int)
    requires co + 2 * n <= c.Length && i + 1 < n
    requires Val(c[co..co + 2 * n]) + Shift(n + i + 1, k) == target < Shift(2 * n, 1)
    modifies c
    ensures Val(c[co..co + 2 * n]) == target
    ensures forall j :: 0 <= j < c.Length && !(co <= j < co + 2 * n) ==> c[j] == old(c[j])
  {
    hide Val, Shift, Wrap;
    var j := n;
    var carry := k;
    ghost var z := c[co..co + 2 * n];
    while carry != 0 && j < 2 * n
      invariant n <= j && j + i + 1 <= 2 * n
      invariant z == c[co..co + 2 * n]
      invariant Val(z) + Shift(j + i + 1, carry) == target
      invariant forall l :: 0 <= l < c.Length && !(co <= l < co + 2 * n) ==> c[l] == old(c[l])
    {
      var q := j + i + 1;
      if q == 2 * n {
        CarryAbsorbed(2 * n, Val(z), carry, target);
      }
      var out, w := Add32(c[co + q], carry);
      CarryMoves(z, q, carry, w, out);
      c[co + q] := w;
      carry := out;
      z := z[q := w];
      j := j + 1;
    }
    ShiftZero(j + i + 1);
  }

  lemma CarryMoves(z: seq<word>, q: nat, k: int, w: word, out: int)
    requires q < |z| && B * out + w == z[q] + k
    ensures Val(z[q := w]) + Shift(q + 1, out) == Val(z) + Shift(q, k)
  {
    hide *;
    var e: int := z[q];
    ValUpdate(z, q, w);
    ShiftNext(q, out);
    ShiftAdd(q, w - e, B * out);
  }

  /** The products of distinct words of x, each taken once. */
  ghost function Cross(x: seq<word>): (v: int)
    ensures v >= 0
  {
    if |x| == 0 then 0 else Shift(1, x[0] * Val(x[1..])) + Shift(2, Cross(x[1..]))
  }

  lemma {:induction false} SquareSplits(x: seq<word>)
    ensures Diagonal(x) + 2 * Cross(x) == Square(Val(x))
  {
    if |x| > 0 {
      SquareSplits(x[1..]);
      hide *;
      FirstWord(x);
      ShiftAdd(2, Diagonal(x[1..]), 2 * Cross(x[1..]));
      ShiftAdd(2, Cross(x[1..]), Cross(x[1..]));
      SquareOfSum(x[0], Val(x[1..]));
    }
  }

  lemma FirstWord(x: seq<word>)
    requires |x| > 0
    ensures Val(x) == x[0] + 0x1_0000_0000 * Val(x[1..])
    ensures Diagonal(x) == Square(x[0]) + Shift(2, Diagonal(x[1..]))
    ensures Cross(x) == Shift(1, x[0] * Val(x[1..])) + Shift(2, Cross(x[1..]))
  {
    ShiftTwice(0, Diagonal(x[1..]));
  }

  lemma SquareOfSum(w: int, v: int)
    ensures Square(w + 0x1_0000_0000 * v) == Square(w) + 2 * Shift(1, w * v) + Shift(2, Square(v))
  {
    assert Shift(1, w * v) == 0x1_0000_0000 * (w * v);
    ShiftTwice(0, Square(v));
    MulByBase(v, w);
    MulByBase(v, 0x1_0000_0000 * v);
    Distribute(w + 0x1_0000_0000 * v, w, 0x1_0000_0000 * v);
  }

  /** What remains to be added when the rows below word i are done. */
  lemma CrossRest(x: seq<word>, i: nat)
    requires i < |x|
    ensures Shift(2 * i, Cross(x[i..])) ==
      Shift(2 * i + 1, x[i] * Val(x[i + 1..])) + Shift(2 * (i + 1), Cross(x[i + 1..]))
  {
    assert x[i..][1..] == x[i + 1..];
    ShiftAdd(2 * i, Shift(1, x[i] * Val(x[i + 1..])), Shift(2, Cross(x[i + 1..])));
    ShiftShift(2 * i, 1, x[i] * Val(x[i + 1..]));
    ShiftShift(2 * i, 2, Cross(x[i + 1..]));
  }

  lemma LastRest(x: seq<word>)
    requires |x| > 0
    ensures Shift(2 * (|x| - 1), Cross(x[|x| - 1..])) == 0
  {
    assert x[|x| - 1..][1..] == [];
    ShiftZero(2 * (|x| - 1));
  }

  /** The square fits twice the length. */
  lemma SquareFits(x: seq<word>)
    ensures 0 <= Square(Val(x)) < Shift(2 * |x|, 1)
  {
    ProductFits(x, x);
  }

  /** numtype_bigsquareN */
  method BigsquareN(a: array<word>, ao: nat, c: array<word>, co: nat, n: nat)
    requires n > 0 && ao + n <= a.Length && co + 2 * n <= c.Length
    requires Apart(a, ao, n, c, co, 2 * n)
    modifies c
    ensures Val(c[co..co + 2 * n]) == Square(old(Val(a[ao..ao + n])))
    ensures forall j :: 0 <= j < c.Length && !(co <= j < co + 2 * n) ==> c[j] == old(c[j])
  {
    hide Val, Shift, Cross, Square, Diagonal;
    ghost var x := a[ao..ao + n];
    SquareSplits(x);
    SquareFits(x);
    LastRest(x);
    BuildDiag(c, co, a, ao, n);
    if n == 1 {
      assert x[0..] == x;
      Empty();
      return;
    }
    var i := 0;
    assert x[0..] == x;
    Empty();
    while i < n - 1
      invariant 0 <= i <= n - 1
      invariant Val(c[co..co + 2 * n]) + 2 * Shift(2 * i, Cross(x[i..])) == Square(Val(x))
      invariant forall j :: 0 <= j < c.Length && !(co <= j < co + 2 * n) ==> c[j] == old(c[j])
    {
      CrossRest(x, i);
      assert a[ao + i] == x[i];
      assert a[ao + i + 1..ao + n] == x[i + 1..];
      SquareInnerLoop(c, co, a, ao, i, n);
      i := i + 1;
    }
  }

  /** The first recursive call: the square of a1 - a0 into the lower half of t. */
  method SquareDifference(a: array<word>, ao: nat, c: array<word>, co: nat, t: array<word>, to: nat, h: nat,
      cutoff: nat)
    requires cutoff > 0 && Halves(h, cutoff)
    requires ao + 2 * h <= a.Length && co + 4 * h <= c.Length && to + 4 * h <= t.Length
    requires Apart(a, ao, 2 * h, c, co, 4 * h) && Apart(c, co, 4 * h, t, to, 4 * h)
    modifies c, t
    ensures Val(t[to..to + 2 * h]) == Square(old(Val(a[ao + h..ao + 2 * h])) - old(Val(a[ao..ao + h])))
    ensures forall j :: 0 <= j < c.Length && !(co <= j < co + 4 * h) && !(c == t && to <= j < to + 4 * h) ==>
      c[j] == old(c[j])
    ensures forall j :: 0 <= j < t.Length && !(to <= j < to + 4 * h) && !(c == t && co <= j < co + 4 * h) ==>
      t[j] == old(t[j])
    decreases h, 1
  {
    hide Val, Shift, Square, Abs;
    assert ao + h + h == ao + 2 * h;
    ghost var d := Val(a[ao + h..ao + 2 * h]) - Val(a[ao..ao + h]);
    var _ := AbsDiff(a, ao + h, ao, c, co + 2 * h, h);
    RecursiveSquare(c, co + 2 * h, t, to, t, to + 2 * h, h, cutoff);
    SquareOfAbs(d);
  }

  lemma SquareOfAbs(d: int)
    ensures Square(Abs(d)) == Square(d)
  {
  }

  /** The other two recursive calls: the squares of the halves, side by side in c. */
  method HalfSquares(a: array<word>, ao: nat, c: array<word>, co: nat, t: array<word>, to: nat, h: nat, cutoff: nat)
    requires cutoff > 0 && Halves(h, cutoff)
    requires ao + 2 * h <= a.Length && co + 4 * h <= c.Length && to + 2 * h <= t.Length
    requires Apart(a, ao, 2 * h, c, co, 4 * h) && Apart(a, ao, 2 * h, t, to, 2 * h)
    requires Apart(c, co, 4 * h, t, to, 2 * h)
    modifies c, t
    ensures Val(c[co..co + 2 * h]) == Square(old(Val(a[ao..ao + h])))
    ensures Val(c[co + 2 * h..co + 4 * h]) == Square(old(Val(a[ao + h..ao + 2 * h])))
    ensures forall j :: 0 <= j < c.Length && !(co <= j < co + 4 * h) && !(c == t && to <= j < to + 2 * h) ==>
      c[j] == old(c[j])
    ensures forall j :: 0 <= j < t.Length && !(to <= j < to + 2 * h) && !(c == t && co <= j < co + 4 * h) ==>
      t[j] == old(t[j])
    decreases h, 1
  {
    hide Val, Shift, Square;
    ghost var x := a[ao + h..ao + 2 * h];
    assert ao + h + h == ao + 2 * h && co + 2 * h + 2 * h == co + 4 * h;
    RecursiveSquare(a, ao, c, co, t, to, h, cutoff);
    ghost var low := c[co..co + 2 * h];
    assert a[ao + h..ao + 2 * h] == x;
    RecursiveSquare(a, ao + h, c, co + 2 * h, t, to, h, cutoff);
    assert c[co..co + 2 * h] == low;
  }

  /** recursiveSquare: the square of a row of n words into 2n words of c, with 2n words of scratch t. */
  method RecursiveSquare(a: array<word>, ao: nat, c: array<word>, co: nat, t: array<word>, to: nat, n: nat, cutoff: nat)
    requires cutoff > 0 && Halves(n, cutoff)
    requires ao + n <= a.Length && co + 2 * n <= c.Length && to + 2 * n <= t.Length
    requires Apart(a, ao, n, c, co, 2 * n) && Apart(a, ao, n, t, to, 2 * n) && Apart(c, co, 2 * n, t, to, 2 * n)
    modifies c, t
    ensures Val(c[co..co + 2 * n]) == Square(old(Val(a[ao..ao + n])))
    ensures forall j :: 0 <= j < c.Length && !(co <= j < co + 2 * n) && !(c == t && to <= j < to + 2 * n) ==>
      c[j] == old(c[j])
    ensures forall j :: 0 <= j < t.Length && !(to <= j < to + 2 * n) && !(c == t && co <= j < co + 2 * n) ==>
      t[j] == old(t[j])
    decreases n, 0
  {
    hide Val, Shift, Square;
    if n == cutoff {
      BigsquareN(a, ao, c, co, n);
      return;
    }
    var h := n / 2;
    assert n == 2 * h && 2 * n == 4 * h;
    HalveAndSquare(a, ao, c, co, t, to, h, cutoff);
  }

  /** The body of recursiveSquare below the cutoff test. */
  method HalveAndSquare(a: array<word>, ao: nat, c: array<word>, co: nat, t: array<word>, to: nat, h: nat, cutoff: nat)
    requires cutoff > 0 && Halves(h, cutoff)
    requires ao + 2 * h <= a.Length && co + 4 * h <= c.Length && to + 4 * h <= t.Length
    requires Apart(a, ao, 2 * h, c, co, 4 * h) && Apart(a, ao, 2 * h, t, to, 4 * h) && Apart(c, co, 4 * h, t, to, 4 * h)
    modifies c, t
    ensures Val(c[co..co + 4 * h]) == Square(old(Val(a[ao..ao + 2 * h])))
    ensures forall j :: 0 <= j < c.Length && !(co <= j < co + 4 * h) && !(c == t && to <= j < to + 4 * h) ==>
      c[j] == old(c[j])
    ensures forall j :: 0 <= j < t.Length && !(to <= j < to + 4 * h) && !(c == t && co <= j < co + 4 * h) ==>
      t[j] == old(t[j])
    decreases h, 2
  {
    hide Val, Shift, Middle, Square;
    ghost var a0, a1 := a[ao..ao + h], a[ao + h..ao + 2 * h];
    assert a[ao..ao + 2 * h] == a0 + a1;
    SquaringStep(h, a0, a1);
    SquareDifference(a, ao, c, co, t, to, h, cutoff);
    ghost var m := t[to..to + 2 * h];
    assert a[ao..ao + h] == a0;
    assert a[ao + h..ao + 2 * h] == a1;
    HalfSquares(a, ao, c, co, t, to + 2 * h, h, cutoff);
    assert t[to..to + 2 * h] == m;
    AddMiddle(c, co, t, to, h, true, Square(Val(a0)), Square(Val(a1)), -Square(Val(a1) - Val(a0)));
  }

  lemma SquaringStep(h: nat, a0: seq<word>, a1: seq<word>)
    requires |a0| == |a1| == h
    ensures Middle(h, Square(Val(a0)), Square(Val(a1)), -Square(Val(a1) - Val(a0))) ==
      Square(Val(a0 + a1)) < Shift(4 * h, 1)
    ensures Square(Val(a0)) + Square(Val(a1)) - Square(Val(a1) - Val(a0)) >= 0
  {
    hide *;
    KaratsubaStep(h, a0, a1, a0, a1);
    SquareIs(Val(a0));
    SquareIs(Val(a1));
    SquareIs(Val(a0 + a1));
    Opposite(Val(a1), Val(a0));
  }

  lemma SquareIs(x: int)
    ensures Square(x) == x * x
  {
  }

  lemma Opposite(x: int, y: int)
    ensures (x - y) * (y - x) == -Square(x - y)
  {
  }
}
