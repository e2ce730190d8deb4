/**
  bigMultiply: Karatsuba on the largest power of two that fits both operands, long
  multiplication below the cutoff, and clean-up rows for the words Karatsuba left out.
 */
module FastMult {
  import opened Words
  import opened LongMult
  import opened WordLoops
  import opened Karatsuba
  import opened Squaring
  import opened Bignums
  import opened CoreMult

  predicate PowerOfTwo(n: nat) {
    n == 1 || (n > 1 && n % 2 == 0 && PowerOfTwo(n / 2))
  }

  /** Halving a power of two arrives at every smaller one. */
  lemma {:induction false} PowersHalve(n: nat, cutoff: nat)
    requires PowerOfTwo(n) && PowerOfTwo(cutoff) && n >= cutoff
    ensures Halves(n, cutoff)
  {
    if n > cutoff {
      HalfReaches(n, cutoff);
      PowersHalve(n / 2, cutoff);
    }
  }

  lemma {:induction false} HalfReaches(n: nat, m: nat)
    requires PowerOfTwo(n) && PowerOfTwo(m) && n > m
    ensures n / 2 >= m
  {
    if m > 1 {
      HalfReaches(n / 2, m / 2);
    }
  }

  /** get_recurse_len: the largest power of two not above alen. */
  method GetRecurseLen(alen: nat) returns (r: nat)
    requires alen >= 2
    ensures PowerOfTwo(r) && r <= alen < 2 * r
  {
    r := 2;
    while !(alen >= r && alen < 2 * r)
      invariant PowerOfTwo(r) && 2 <= r <= alen
      decreases alen - r
    {
      assert PowerOfTwo(2 * r);
      r := 2 * r;
    }
  }

  lemma ReachesCutoff(r: nat, alen: nat, cutoff: nat)
    requires PowerOfTwo(r) && PowerOfTwo(cutoff) && r <= alen < 2 * r && alen > cutoff
    ensures r >= cutoff && Halves(r, cutoff)
  {
    if r < cutoff {
      HalfReaches(cutoff, r);
    }
    PowersHalve(r, cutoff);
  }

  lemma MagBound(a: Bignum)
    requires a.Valid()
    ensures a.Mag() < Shift(a.length, 1)
  {
    ValBound(a.num[..a.length]);
  }

  /** lbigmult: long multiplication. */
  method Lbigmult(a: Bignum, b: Bignum, c: Bignum)
    requires a.Valid() && b.Valid() && c.Valid()
    requires c != a && c != b && c.num != a.num && c.num != b.num
    modifies c, c.num
    ensures c.Valid() && c.Trimmed() && (c.num == old(c.num) || fresh(c.num))
    ensures c.Mag() == a.Mag() * b.Mag()
    ensures c.Mag() != 0 ==> c.sign == a.sign * b.sign && c.num.Length > a.length + b.length
  {
    hide Val, Shift;
    c.Reset(0);
    ghost var y := b.num[..b.length];
    MagBound(a);
    if !(a.length == 1 && a.num[0] == 0) && !(b.length == 1 && b.num[0] == 0) {
      c.Guarantee(a.length + b.length);
      Empty();
      assert y[..0] == [];
      var i := 0;
      while i < b.length
        invariant 0 <= i <= b.length
        invariant c.Valid() && (c.num == old(c.num) || fresh(c.num)) && c.num.Length > a.length + b.length
        invariant c.Mag() == a.Mag() * Val(y[..i])
      {
        assert y[i] == b.num[i];
        ProductRow(i, y, a.Mag(), a.length);
        NumtypeBigmult(a, b.num[i], c, i);
        i := i + 1;
      }
      assert y[..b.length] == y;
      c.sign := a.sign * b.sign;
    } else {
      ZeroMag(a);
      ZeroMag(b);
    }
    c.Trim();
  }

  /** The product with one more word, and that it still fits. */
  lemma ProductRow(i: nat, y: seq<word>, x: int, n: nat)
    requires i < |y| && 0 <= x < Shift(n, 1)
    ensures x * Val(y[..i]) + Shift(i, y[i] * x) == x * Val(y[..i + 1]) < Shift(n + i + 3, 1)
  {
    hide *;
    ValExtend(y, i);
    ShiftMul(i, x, y[i]);
    Distribute(x, Val(y[..i]), Shift(i, y[i]));
    Commutes(x, y[i]);
    ValBound(y[..i + 1]);
    ProductBound(x, n, Val(y[..i + 1]), i + 1);
    ShiftGrows(n + (i + 1), n + i + 3);
  }

  lemma Commutes(x: int, y: int)
    ensures x * y == y * x
  {
  }

  lemma ProductBound(x: int, m: nat, y: int, n: nat)
    requires 0 <= x < Shift(m, 1) && 0 <= y < Shift(n, 1)
    ensures 0 <= x * y < Shift(m + n, 1)
  {
    hide *;
    ShiftShift(m, n, 1);
    ShiftMul(m, 1, Shift(n, 1));
    ProductLess(x, Shift(m, 1), y, Shift(n, 1));
  }

  lemma ProductLess(x: int, p: int, y: int, q: int)
    requires 0 <= x < p && 0 <= y < q
    ensures 0 <= x * y < p * q
  {
    MulOrder(y, x, p);
    MulOrder(y, 0, x);
    MulOrder(p, y, q - 1);
  }

  /** bigsquare */
  method Bigsquare(a: Bignum, c: Bignum)
    requires a.Valid() && c.Valid() && a != c && a.num != c.num
    modifies c, c.num
    ensures c.Valid() && c.Trimmed() && (c.num == old(c.num) || fresh(c.num))
    ensures c.Mag() == Square(a.Mag()) && c.sign == POS && c.num.Length > a.length + a.length
  {
    hide Val, Shift, Square;
    c.Guarantee(2 * a.length);
    c.Reset(0);
    assert a.num[0..0 + a.length] == a.num[..a.length];
    BigsquareN(a.num, 0, c.num, 0, a.length);
    c.length := 2 * a.length;
    assert c.num[0..0 + 2 * a.length] == c.num[..c.length];
    c.Trim();
  }

  /** Rows for words lo..hi of x times the n words of a, as cleanMult and cleanSquare add them. */
  method CleanRows(a: Bignum, x: array<word>, lo: nat, hi: nat, c: Bignum, ghost room: nat)
    requires a.Valid() && c.Valid() && a != c && a.num != c.num && x != c.num && c.NoLeadingZero()
    requires lo <= hi <= x.Length
    requires c.Mag() + Shift(lo, Val(x[lo..hi]) * a.Mag()) < Shift(room, 1) && room <= c.num.Length
    modifies c, c.num
    ensures c.Valid() && (c.num == old(c.num) || fresh(c.num)) && c.num.Length >= old(c.num.Length)
    ensures c.Mag() == old(c.Mag()) + Shift(lo, Val(x[lo..hi]) * a.Mag())
    ensures c.NoLeadingZero()
  {
    hide Val, Shift;
    ghost var y := x[lo..hi];
    ghost var v, w := c.Mag(), a.Mag();
    Empty();
    assert y[..0] == [] && 0 * w == 0;
    ShiftZero(lo);
    var k := lo;
    while k < hi
      invariant lo <= k <= hi
      invariant c.Valid() && (c.num == old(c.num) || fresh(c.num)) && c.num.Length >= room
        && c.num.Length >= old(c.num.Length)
      invariant x[lo..hi] == y
      invariant c.Mag() == v + Shift(lo, Val(y[..k - lo]) * w)
      invariant c.NoLeadingZero()
    {
      assert x[k] == y[k - lo];
      RowOf(lo, y, k - lo, w);
      PartialRows(lo, y, k - lo + 1, w);
      ShiftGrows(room, c.num.Length);
      NumtypeBigmult(a, x[k], c, k);
      k := k + 1;
    }
    assert y[..hi - lo] == y;
  }

  lemma RowOf(lo: nat, y: seq<word>, i: nat, w: int)
    requires i < |y|
    ensures Shift(lo, Val(y[..i + 1]) * w) == Shift(lo, Val(y[..i]) * w) + Shift(lo + i, y[i] * w)
  {
    hide *;
    ValExtend(y, i);
    MulSum(Val(y[..i]), Shift(i, y[i]), w);
    ShiftMul(i, y[i], w);
    ShiftAdd(lo, Val(y[..i]) * w, Shift(i, y[i] * w));
    ShiftShift(lo, i, y[i] * w);
  }

  lemma PartialRows(lo: nat, y: seq<word>, i: nat, w: int)
    requires i <= |y| && w >= 0
    ensures Shift(lo, Val(y[..i]) * w) <= Shift(lo, Val(y) * w)
  {
    hide *;
    ValSplit(y, i);
    NonNegative(i, Val(y[i..]));
    MulOrder(w, Val(y[..i]), Val(y));
    ShiftOrder(lo, Val(y) * w, Val(y[..i]) * w);
  }

  lemma NonNegative(n: nat, x: int)
    requires x >= 0
    ensures Shift(n, x) >= 0
  {
  }

  /** cleanMult: the partial products of the words of a and b from word l on. */
  method CleanMult(a: Bignum, b: Bignum, c: Bignum, l: nat)
    requires a.Valid() && b.Valid() && c.Valid() && a != b && c != a && c != b
    requires a.num != b.num && c.num != a.num && c.num != b.num
    requires 1 <= l <= a.length && l <= b.length && a.length + b.length <= c.num.Length
    requires c.NoLeadingZero() && c.Mag() == Val(a.num[..l]) * Val(b.num[..l])
    modifies c, c.num, a`length
    ensures c.Valid() && (c.num == old(c.num) || fresh(c.num)) && c.num.Length >= old(c.num.Length)
    ensures a.length == old(a.length) && a.Valid() && b.Valid()
    ensures c.Mag() == a.Mag() * b.Mag()
    ensures c.NoLeadingZero()
  {
    hide Val, Shift;
    ghost var xl, xh := a.num[..l], a.num[l..a.length];
    ghost var yl, yh := b.num[..l], b.num[l..b.length];
    assert a.num[..a.length] == xl + xh && b.num[..b.length] == yl + yh;
    CleanSum(l, xl, xh, yl, yh);
    var alen := a.length;
    CleanRows(b, a.num, l, a.length, c, alen + b.length);
    a.length := l;
    CleanRows(a, b.num, l, b.length, c, alen + b.length);
    a.length := alen;
  }

  /** The clean-up rows are exactly the partial products missing from the product of the low parts. */
  lemma CleanSum(l: nat, xl: seq<word>, xh: seq<word>, yl: seq<word>, yh: seq<word>)
    requires |xl| == |yl| == l
    ensures Val(xl) * Val(yl) + Shift(l, Val(xh) * Val(yl + yh)) + Shift(l, Val(yh) * Val(xl)) ==
      Val(xl + xh) * Val(yl + yh)
    ensures Val(xl + xh) * Val(yl + yh) < Shift(|xl + xh| + |yl + yh|, 1)
    ensures Shift(l, Val(yh) * Val(xl)) >= 0
  {
    hide *;
    ValConcat(xl, xh);
    ValConcat(yl, yh);
    CleanNumbers(l, Val(xl), Val(xh), Val(yl), Val(yh), Val(yl + yh));
    ValBound(xl + xh);
    ValBound(yl + yh);
    ProductBound(Val(xl + xh), |xl + xh|, Val(yl + yh), |yl + yh|);
    ProductNonNegative(Val(yh), Val(xl));
    NonNegative(l, Val(yh) * Val(xl));
  }

  lemma CleanNumbers(l: nat, xl: int, xh: int, yl: int, yh: int, y: int)
    requires y == yl + Shift(l, yh)
    ensures xl * yl + Shift(l, xh * y) + Shift(l, yh * xl) == (xl + Shift(l, xh)) * y
  {
    hide *;
    ShiftMul(l, xh, y);
    ShiftMul(l, yh, xl);
    MulSum(xl, Shift(l, xh), y);
    Distribute(xl, yl, Shift(l, yh));
    Commutes(xl, Shift(l, yh));
  }

  lemma ProductNonNegative(x: int, y: int)
    requires x >= 0 && y >= 0
    ensures x * y >= 0
  {
  }

  /** Drops the leading zero words; unlike trim this leaves the sign alone. */
  method DropLeadingZeros(c: Bignum)
    requires c.Valid()
    modifies c`length
    ensures c.Valid() && c.NoLeadingZero() && c.Mag() == old(c.Mag())
  {
    while c.num[c.length - 1] == 0 && c.length > 1
      modifies c`length
      invariant c.Valid() && c.Mag() == old(c.Mag())
    {
      DropZero(c.num[..c.length]);
      assert c.num[..c.length][..c.length - 1] == c.num[..c.length - 1];
      c.length := c.length - 1;
    }
  }

  /** The Karatsuba product of the low r words of a and b. */
  method LowProduct(a: Bignum, b: Bignum, c: Bignum, r: nat, cutoff: nat)
    requires a.Valid() && b.Valid() && c.Valid()
    requires c != a && c != b && c.num != a.num && c.num != b.num
    requires r > 0 && cutoff > 0 && Halves(r, cutoff) && r <= a.length && r <= b.length && 2 * r <= c.space
    modifies c, c.num
    ensures c.Valid() && c.num == old(c.num) && c.space == old(c.space) && c.NoLeadingZero()
    ensures c.Mag() == Val(a.num[..r]) * Val(b.num[..r])
  {
    var tmp := new word[2 * r](_ => 0);
    assert a.num[0..0 + r] == a.num[..r] && b.num[0..0 + r] == b.num[..r];
    RecursiveMultiply(a.num, 0, b.num, 0, c.num, 0, tmp, 0, r, cutoff);
    assert c.num[0..0 + 2 * r] == c.num[..2 * r];
    c.length := 2 * r;
    DropLeadingZeros(c);
  }

  /** fast_mult; `cutoff` is RECURSIONCUTOFF, 2 or 32 depending on the build. */
  method FastMultiply(a: Bignum, b: Bignum, c: Bignum, cutoff: nat)
    requires a.Valid() && b.Valid() && c.Valid() && a != b && c != a && c != b
    requires a.num != b.num && c.num != a.num && c.num != b.num
    requires PowerOfTwo(cutoff) && cutoff >= 2
    modifies c, c.num, a`length
    ensures c.Valid() && (c.num == old(c.num) || fresh(c.num)) && c.NoLeadingZero()
    ensures a.length == old(a.length) && a.Valid() && b.Valid()
    ensures c.Mag() == a.Mag() * b.Mag()
    ensures c.Mag() != 0 ==> c.num.Length > a.length + b.length
  {
    hide Val, Shift;
    var alen, blen := a.length, b.length;
    if alen <= cutoff || blen <= cutoff || alen < 2 * blen / 3 || blen < 2 * alen / 3 {
      Lbigmult(a, b, c);
      return;
    }
    c.Guarantee(alen + blen);
    if alen > blen {
      alen := blen;
    }
    var r := GetRecurseLen(alen);
    ReachesCutoff(r, alen, cutoff);
    LowProduct(a, b, c, r, cutoff);
    if a.length != r || b.length != r {
      CleanMult(a, b, c, r);
    }
  }

  /** fast_square, with cleanSquare; `cutoff` is SQRECCUTOFF, 2 or 16. */
  method FastSquare(a: Bignum, c: Bignum, cutoff: nat)
    requires a.Valid() && c.Valid() && a != c && a.num != c.num
    requires PowerOfTwo(cutoff) && cutoff >= 2
    modifies c, c.num, a`length
    ensures c.Valid() && (c.num == old(c.num) || fresh(c.num)) && c.NoLeadingZero()
    ensures a.length == old(a.length) && a.Valid()
    ensures c.Mag() == a.Mag() * a.Mag()
    ensures c.Mag() != 0 ==> c.num.Length > a.length + a.length
  {
    hide Val, Shift, Square;
    SquareIs(a.Mag());
    var alen := a.length;
    if alen <= cutoff {
      Bigsquare(a, c);
      return;
    }
    c.Guarantee(2 * alen);
    var r := GetRecurseLen(alen);
    ReachesCutoff(r, alen, cutoff);
    LowSquare(a, c, r, cutoff);
    if alen != r {
      CleanSquare(a, c, r);
    } else {
      SquareIs(a.Mag());
    }
  }

  method LowSquare(a: Bignum, c: Bignum, r: nat, cutoff: nat)
    requires a.Valid() && c.Valid() && c != a && c.num != a.num
    requires r > 0 && cutoff > 0 && Halves(r, cutoff) && r <= a.length && 2 * r <= c.space
    modifies c, c.num
    ensures c.Valid() && c.num == old(c.num) && c.space == old(c.space) && c.NoLeadingZero()
    ensures c.Mag() == Square(Val(a.num[..r]))
  {
    var tmp := new word[2 * r](_ => 0);
    assert a.num[0..0 + r] == a.num[..r];
    RecursiveSquare(a.num, 0, c.num, 0, tmp, 0, r, cutoff);
    assert c.num[0..0 + 2 * r] == c.num[..2 * r];
    c.length := 2 * r;
    DropLeadingZeros(c);
  }

  /** cleanSquare */
  method CleanSquare(a: Bignum, c: Bignum, l: nat)
    requires a.Valid() && c.Valid() && c != a && c.num != a.num
    requires 1 <= l < a.length && 2 * a.length <= c.num.Length
    requires c.NoLeadingZero() && c.Mag() == Square(Val(a.num[..l]))
    modifies c, c.num, a`length
    ensures c.Valid() && (c.num == old(c.num) || fresh(c.num)) && c.NoLeadingZero() && c.num.Length >= old(c.num.Length)
    ensures a.length == old(a.length) && a.Valid()
    ensures c.Mag() == a.Mag() * a.Mag()
  {
    hide Val, Shift, Square;
    ghost var xl, xh := a.num[..l], a.num[l..a.length];
    assert a.num[..a.length] == xl + xh;
    SquareIs(Val(xl));
    CleanSum(l, xl, xh, xl, xh);
    var alen := a.length;
    CleanRows(a, a.num, l, a.length, c, 2 * alen);
    a.length := l;
    CleanRows(a, a.num, l, alen, c, 2 * alen);
    a.length := alen;
  }

  /** bigMultiply: the signed product; equal pointers select squaring. */
  method BigMultiply(a: Bignum, b: Bignum, result: Bignum, cutoff: nat, sqcutoff: nat)
    requires a.Valid() && b.Valid() && result.Valid() && result != a && result != b
    requires (a != b ==> a.num != b.num) && result.num != a.num && result.num != b.num
    requires PowerOfTwo(cutoff) && cutoff >= 2 && PowerOfTwo(sqcutoff) && sqcutoff >= 2
    modifies result, result.num, a`length
    ensures result.Valid() && (result.num == old(result.num) || fresh(result.num)) && result.NoLeadingZero()
    ensures result.length <= result.space
    ensures a.Valid() && a.length == old(a.length) && b.Valid()
    ensures result.Mag() == a.Mag() * b.Mag() && result.sign == a.sign * b.sign
    ensures result.Value() == a.Value() * b.Value()
  {
    hide Val, Shift;
    SignedMagnitudes(a.sign, a.Mag(), b.sign, b.Mag());
    if a == b {
      FastSquare(a, result, sqcutoff);
      result.sign := POS;
    } else {
      FastMultiply(a, b, result, cutoff);
      result.sign := a.sign * b.sign;
    }
    ProductLength(a, b, result);
  }

  /** A product has no more words than its operands together. */
  lemma ProductLength(a: Bignum, b: Bignum, c: Bignum)
    requires a.Valid() && b.Valid() && c.Valid() && c.NoLeadingZero() && c.Mag() == a.Mag() * b.Mag()
    requires c.Mag() != 0 ==> c.num.Length > a.length + b.length
    ensures c.length <= c.space
  {
    hide Val, Shift;
    MagBound(a);
    MagBound(b);
    ProductBound(a.Mag(), a.length, b.Mag(), b.length);
    if c.length > 1 {
      TopWord(c.num[..c.length]);
      if c.length > a.length + b.length {
        ShiftGrows(a.length + b.length, c.length - 1);
      }
    }
  }

  lemma SignedMagnitudes(s: int, x: int, t: int, y: int)
    requires (s == POS || s == NEG) && (t == POS || t == NEG)
    ensures (s * t) * (x * y) == (s * x) * (t * y)
    ensures (s * t == POS || s * t == NEG) && s * s == POS
  {
  }
}
