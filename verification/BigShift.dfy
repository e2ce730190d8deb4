/**
  Shifts of Bignums: whole words (bigleftshift, bigrightshift of crypt/bigmath.c) and bits
  (crypt/bigLeftShift.c, crypt/bigRightShift.c).
 */
module BigShift {
  import opened Words
  import opened LongMult
  import opened WordLoops
  import opened Bignums

  function Pow2(n: nat): (p: int)
    ensures p >= 1
  {
    if n == 0 then 1 else 2 * Pow2(n - 1)
  }

  lemma {:induction false} Pow2Add(m: nat, n: nat)
    ensures Pow2(m + n) == Pow2(m) * Pow2(n)
  {
    if m > 0 {
      Pow2Add(m - 1, n);
      MulAssociates(2, Pow2(m - 1), Pow2(n));
    }
  }

  lemma MulAssociates(a: int, b: int, c: int)
    ensures a * (b * c) == (a * b) * c
  {
  }

  lemma Pow2Is32()
    ensures Pow2(32) == B
  {
    Pow2Add(16, 16);
    assert Pow2(8) == 256;
    Pow2Add(8, 8);
  }

  lemma BitsSplit(n: nat)
    requires n <= 32
    ensures Pow2(n) * Pow2(32 - n) == B
  {
    Pow2Is32();
    Pow2Add(n, 32 - n);
  }

  lemma {:induction false} ShiftPow2(n: nat, x: int)
    ensures Shift(n, x) == x * Pow2(32 * n)
  {
    if n > 0 {
      ShiftPow2(n - 1, x);
      Pow2Add(32, 32 * (n - 1));
      Pow2Is32();
      MulAssociates(x, Pow2(32 * (n - 1)), B);
    }
  }

  /** el << n and el >> n in a 32-bit word. */
  function Shl(el: word, n: nat): word {
    Wrap(el * Pow2(n))
  }

  function Shr(el: word, n: nat): word {
    DivideWord(el, Pow2(n));
    el / Pow2(n)
  }

  lemma DivideWord(x: int, p: int)
    requires 0 <= x && p >= 1
    ensures 0 <= x / p <= x
  {
  }

  /** bigleftshift: every word moves up by nwords; b may be a. */
  method WordShiftLeft(a: Bignum, b: Bignum, nwords: nat)
    requires a.Valid() && b.Valid() && (a != b ==> a.num != b.num)
    modifies b, b.num
    ensures b.Valid() && (b.num == old(b.num) || fresh(b.num)) && b.space >= old(b.space)
    ensures b.Mag() == Shift(nwords, old(a.Mag())) && b.NoLeadingZero() && b.length <= b.space
    ensures b.sign == old(b.sign) || b.sign == POS
    ensures b.Mag() != 0 ==> b.sign == old(b.sign)
    ensures old(b.sign) == POS ==> b.Trimmed()
  {
    hide Val, Shift;
    ghost var x := a.num[..a.length];
    var n := a.length;
    b.Guarantee(n + nwords);
    assert a.num[..n] == x;
    b.length := n + nwords;
    MoveUp(a.num, b.num, n, nwords);
    assert b.num[..n + nwords] == b.num[..nwords] + b.num[nwords..nwords + n];
    ValConcat(b.num[..nwords], b.num[nwords..nwords + n]);
    b.Trim();
  }

  method MoveUp(a: array<word>, b: array<word>, n: nat, nwords: nat)
    requires n <= a.Length && n + nwords <= b.Length
    modifies b
    ensures b[nwords..nwords + n] == old(a[..n])
    ensures Val(b[..nwords]) == 0 && |b[..nwords]| == nwords
  {
    ghost var x := a[..n];
    var i := n;
    while i > 0
      invariant 0 <= i <= n
      invariant forall j :: 0 <= j < i ==> a[j] == x[j]
      invariant forall j {:trigger x[j]} :: i <= j < n ==> b[nwords + j] == x[j]
    {
      i := i - 1;
      b[nwords + i] := a[i];
    }
    i := nwords;
    while i > 0
      invariant 0 <= i <= nwords
      invariant forall j :: i <= j < nwords ==> b[j] == 0
      invariant forall j {:trigger x[j]} :: 0 <= j < n ==> b[nwords + j] == x[j]
    {
      i := i - 1;
      b[i] := 0;
    }
    ValZeros(b[..nwords]);
  }

  /** bigrightshift in place: the low nwords words fall off. */
  method WordShiftRight(a: Bignum, nwords: nat)
    requires a.Valid()
    modifies a, a.num
    ensures a.Valid() && a.num == old(a.num) && a.space == old(a.space)
    ensures nwords < old(a.length) ==> a.Digits() == old(a.num[nwords..a.length]) && a.sign == old(a.sign)
    ensures nwords >= old(a.length) ==> a.Mag() == 0 && a.Trimmed() && a.length == 1
    ensures old(a.NoLeadingZero()) ==> a.NoLeadingZero()
  {
    if a.length > nwords {
      var i := a.length - nwords;
      ghost var x := a.num[nwords..a.length];
      a.length := i;
      MoveDown(a.num, nwords, i);
      assert a.num[..i] == x;
    } else {
      a.Reset(0);
    }
  }

  method MoveDown(a: array<word>, nwords: nat, n: nat)
    requires nwords + n <= a.Length
    modifies a
    ensures a[..n] == old(a[nwords..nwords + n])
    ensures forall j :: n <= j < a.Length ==> a[j] == old(a[j])
  {
    for j := 0 to n
      invariant forall l :: 0 <= l < j ==> a[l] == old(a[nwords + l])
      invariant forall l :: j <= l < a.Length ==> a[l] == old(a[l])
    {
      a[j] := a[j + nwords];
    }
  }

  lemma LeftStep(el: word, c: int, p: int, q: int)
    requires p >= 1 && q >= 1 && p * q == B && 0 <= c < p
    ensures 0 <= el / q < p
    ensures 0 <= Wrap(el * p) + c < B
    ensures Wrap(el * p) + c + B * (el / q) == el * p + c
  {
    var h, l := el / q, el % q;
    assert el == h * q + l;
    assert h < p by { QuotientBound(el, q, p); }
    assert el * p == h * B + l * p by { Regroup(h, l, p, q); }
    assert l * p <= B - p by { LowBound(l, p, q); }
    assert Wrap(el * p) == l * p by { WrapOf(h, l * p); }
  }

  lemma QuotientBound(x: int, q: int, p: int)
    requires q >= 1 && 0 <= x < p * q
    ensures 0 <= x / q < p
  {
    if x / q >= p {
      MulOrder(q, p, x / q);
    }
  }

  lemma Regroup(h: int, l: int, p: int, q: int)
    ensures (h * q + l) * p == h * (p * q) + l * p
  {
  }

  lemma LowBound(l: int, p: int, q: int)
    requires p >= 1 && 0 <= l < q
    ensures 0 <= l * p <= p * q - p
  {
    MulOrder(p, l, q - 1);
    MulOrder(p, 0, l);
  }

  lemma WrapOf(h: int, r: int)
    requires 0 <= r < B
    ensures Wrap(h * B + r) == r
  {
  }

  /** bl_shift: 0 < n < 32 bits up, storing word by word from the bottom; b may be a. */
  method BitShiftLeft(a: Bignum, b: Bignum, n: nat)
    requires 0 < n < 32 && a.Valid() && b.Valid() && (a != b ==> a.num != b.num)
    modifies b, b.num
    ensures b.Valid() && (b.num == old(b.num) || fresh(b.num)) && b.space >= old(b.space)
    ensures b.Mag() == old(a.Mag()) * Pow2(n) && b.NoLeadingZero() && b.length <= b.space
    ensures b.sign == old(b.sign) || b.sign == POS
    ensures b.Mag() != 0 ==> b.sign == old(b.sign)
    ensures old(b.sign) == POS ==> b.Trimmed()
  {
    hide Val, Shift, Pow2;
    ghost var x := a.num[..a.length];
    var i := a.length;
    b.Guarantee(i + 1);
    assert a.num[..i] == x;
    ghost var m := i;
    var c := ShiftWordsLeft(a.num, b.num, i, n);
    ghost var z := b.num[..i];
    b.num[i] := c;
    assert b.num[..i + 1] == z + [c];
    ValSnoc(z, c);
    b.length := i + 1;
    b.Trim();
  }

  method ShiftWordsLeft(a: array<word>, b: array<word>, len: nat, n: nat) returns (c: word)
    requires 0 < n < 32 && len <= a.Length && len <= b.Length
    modifies b
    ensures Val(b[..len]) + Shift(len, c) == old(Val(a[..len])) * Pow2(n)
    ensures forall j :: len <= j < b.Length ==> b[j] == old(b[j])
  {
    ghost var x := a[..len];
    ghost var p := Pow2(n);
    ghost var r: seq<word> := [];
    Empty();
    BitsSplit(n);
    assert 0 * p == 0;
    assert x[..0] == [];
    hide Val, Shift, Pow2;
    c := 0;
    var i := 0;
    while i < len
      invariant 0 <= i <= len && c < p
      invariant |r| == i && forall j {:trigger r[j]} :: 0 <= j < i ==> r[j] == b[j]
      invariant Val(r) + Shift(i, c) == Val(x[..i]) * p
      invariant forall j :: i <= j < b.Length ==> b[j] == old(b[j])
    {
      var el := a[i];
      assert el == x[i];
      LeftStep(el, c, p, Pow2(32 - n));
      var s := Shl(el, n);
      ghost var k := c;
      b[i] := s + c;
      c := Shr(el, 32 - n);
      ScaledExtend(i, r, b[i], k, c, x, p);
      r := r + [b[i]];
      i := i + 1;
    }
    assert b[..len] == r;
    assert x[..len] == x;
  }

  lemma ScaledExtend(i: nat, r: seq<word>, w: word, k: int, k': int, x: seq<word>, p: int)
    requires |r| == i < |x|
    requires Val(r) + Shift(i, k) == Val(x[..i]) * p
    requires w + B * k' == x[i] * p + k
    ensures Val(r + [w]) + Shift(i + 1, k') == Val(x[..i + 1]) * p
  {
    hide *;
    DigitExtend(r, w, k, k', Val(x[..i]) * p, x[i] * p);
    ValExtend(x, i);
    ShiftMul(i, x[i], p);
    SumScaled(Val(x[..i]), Shift(i, x[i]), p);
  }

  lemma SumScaled(x: int, y: int, p: int)
    ensures (x + y) * p == x * p + y * p
  {
  }

  /** bigLeftShift: n bits up, n below or above 32. */
  method BigLeftShift(a: Bignum, n: nat, b: Bignum)
    requires a.Valid() && b.Valid() && (a != b ==> a.num != b.num)
    modifies b, b.num
    ensures b.Valid() && (b.num == old(b.num) || fresh(b.num)) && b.space >= old(b.space)
    ensures b.Mag() == old(a.Mag()) * Pow2(n)
    ensures n > 0 ==> b.NoLeadingZero() && (b.sign == old(b.sign) || b.sign == POS) && b.length <= b.space
    ensures n > 0 && b.Mag() != 0 ==> b.sign == old(b.sign)
    ensures n > 0 && old(b.sign) == POS ==> b.Trimmed()
    ensures n == 0 && a == b ==> b.Digits() == old(b.Digits()) && b.sign == old(b.sign)
    ensures n == 0 && a != b ==> b.Digits() == a.Digits() && b.sign == a.sign
  {
    if n == 0 {
      if a != b {
        Copy(a, b);
      }
      return;
    }
    ShiftUp(a, n, b);
  }

  /** The shift by words and then by bits. */
  method ShiftUp(a: Bignum, n: nat, b: Bignum)
    requires n > 0 && a.Valid() && b.Valid() && (a != b ==> a.num != b.num)
    modifies b, b.num
    ensures b.Valid() && (b.num == old(b.num) || fresh(b.num)) && b.space >= old(b.space)
    ensures b.Mag() == old(a.Mag()) * Pow2(n)
    ensures b.NoLeadingZero() && (b.sign == old(b.sign) || b.sign == POS) && b.length <= b.space
    ensures b.Mag() != 0 ==> b.sign == old(b.sign)
    ensures old(b.sign) == POS ==> b.Trimmed()
  {
    hide Val, Shift, Pow2;
    var i := n / 32;
    ghost var x, was := a.num[..a.length], a.Mag();
    b.Guarantee(a.length + (i + 1));
    assert a.num[..a.length] == x;
    MoveBy(a, b, i, n % 32);
    BitsOf(n, was);
    b.Trim();
  }

  /** By i words, then by k bits. */
  method MoveBy(a: Bignum, b: Bignum, i: nat, k: nat)
    requires a.Valid() && b.Valid() && (a != b ==> a.num != b.num) && k < 32 && i + k > 0
    modifies b, b.num
    ensures b.Valid() && (b.num == old(b.num) || fresh(b.num)) && b.space >= old(b.space) && b.NoLeadingZero()
      && b.length <= b.space
    ensures b.Mag() == if k == 0 then Shift(i, old(a.Mag()))
      else (if i == 0 then old(a.Mag()) else Shift(i, old(a.Mag()))) * Pow2(k)
    ensures b.sign == old(b.sign) || b.sign == POS
    ensures b.Mag() != 0 ==> b.sign == old(b.sign)
    ensures old(b.sign) == POS ==> b.Trimmed()
  {
    hide Val, Shift, Pow2;
    if i > 0 {
      ghost var was := a.Mag();
      WordShiftLeft(a, b, i);
      if k != 0 {
        ghost var y := b.Mag();
        BitShiftLeft(b, b, k);
        NonZeroFactor(y, Pow2(k));
      }
    } else {
      BitShiftLeft(a, b, k);
    }
  }

  lemma NonZeroFactor(x: int, y: int)
    ensures x * y != 0 ==> x != 0
  {
  }

  lemma BitsOf(n: nat, x: int)
    ensures Shift(n / 32, x) * Pow2(n % 32) == x * Pow2(n)
    ensures n % 32 == 0 ==> Shift(n / 32, x) == x * Pow2(n)
    ensures n / 32 == 0 ==> Shift(n / 32, x) == x
  {
    ShiftPow2(n / 32, x);
    Pow2Add(32 * (n / 32), n % 32);
    MulAssociates(x, Pow2(32 * (n / 32)), Pow2(n % 32));
    assert n == 32 * (n / 32) + n % 32;
  }

  /** One word of a right shift, from the top: c is the remainder of the words above, moved into place. */
  lemma RightStep(el: word, rem: int, p: int, q: int)
    requires p >= 1 && q >= 1 && p * q == B && 0 <= rem < p
    ensures 0 <= el / p + rem * q < B
    ensures Wrap(el * q) == (el % p) * q
    ensures el + B * rem == p * (el / p + rem * q) + el % p
  {
    var h, l := el / p, el % p;
    assert el == h * p + l;
    assert 0 <= h < q by { QuotientBound(el, p, q); }
    assert 0 <= rem * q <= p * q - q by { LowBound(rem, q, p); }
    assert el * q == h * B + l * q by { Regroup(h, l, q, p); }
    assert 0 <= l * q <= p * q - q by { LowBound(l, q, p); }
    assert Wrap(el * q) == l * q by { WrapOf(h, l * q); }
    RightNumbers(h, l, rem, p, q);
  }

  lemma RightNumbers(h: int, l: int, rem: int, p: int, q: int)
    ensures (h * p + l) + (p * q) * rem == p * (h + rem * q) + l
  {
    MulAssociates(p, q, rem);
    assert p * (h + rem * q) == p * h + p * (rem * q);
  }

  /** br_shift over one row of words in place, from the top word down. */
  method ShiftWordsRight(b: array<word>, len: nat, n: nat)
    requires 0 < n < 32 && len <= b.Length
    modifies b
    ensures Val(b[..len]) == old(Val(b[..len])) / Pow2(n)
    ensures forall j :: len <= j < b.Length ==> b[j] == old(b[j])
  {
    ghost var x := b[..len];
    ghost var p, q := Pow2(n), Pow2(32 - n);
    ghost var r: seq<word> := [];
    ghost var rem := 0;
    Empty();
    BitsSplit(n);
    assert x[len..] == [] && p * 0 == 0 && 0 * q == 0;
    hide Val, Shift, Pow2;
    var c: word := 0;
    var i := len;
    while i > 0
      invariant 0 <= i <= len && 0 <= rem < p && c == rem * q
      invariant |r| == len - i && forall j {:trigger r[j]} :: 0 <= j < len - i ==> r[j] == b[i + j]
      invariant Val(x[i..]) == p * Val(r) + rem
      invariant forall j :: 0 <= j < b.Length && !(i <= j < len) ==> b[j] == old(b[j])
    {
      i := i - 1;
      var el := b[i];
      assert el == x[i];
      RightStep(el, rem, p, q);
      var s := Shr(el, n);
      b[i] := s + c;
      c := Shl(el, 32 - n);
      RightExtend(i, x, r, b[i], rem, el % p, p);
      rem := el % p;
      r := [b[i]] + r;
    }
    assert b[..len] == r;
    assert x[0..] == x;
    QuotientIs(Val(x), p, Val(r), rem);
  }

  lemma RightExtend(i: nat, x: seq<word>, r: seq<word>, w: word, rem: int, rem': int, p: int)
    requires i < |x|
    requires Val(x[i + 1..]) == p * Val(r) + rem
    requires x[i] + B * rem == p * w + rem'
    ensures Val(x[i..]) == p * Val([w] + r) + rem'
  {
    hide *;
    assert x[i..] == [x[i]] + x[i + 1..];
    ConsVal(x[i], x[i + 1..]);
    ConsVal(w, r);
    Distribute(p, w, B * Val(r));
    MulAssociates(p, B, Val(r));
    MulAssociates(B, p, Val(r));
  }

  lemma ConsVal(w: word, y: seq<word>)
    ensures Val([w] + y) == w + B * Val(y)
  {
    assert ([w] + y)[1..] == y;
  }

  lemma QuotientIs(x: int, p: int, v: int, rem: int)
    requires x == p * v + rem && 0 <= rem < p
    ensures x / p == v
  {
    if x / p < v {
      MulOrder(p, x / p + 1, v);
    } else if x / p > v {
      MulOrder(p, v + 1, x / p);
    }
  }

  /** bigRightShift in place: n bits fall off at the bottom. */
  method BigRightShift(a: Bignum, n: nat)
    requires a.Valid()
    modifies a, a.num
    ensures a.Valid() && a.num == old(a.num) && a.space == old(a.space) && a.Trimmed()
    ensures a.Mag() == old(a.Mag()) / Pow2(n)
    ensures a.sign == old(a.sign) || a.sign == POS
    ensures a.Mag() != 0 ==> a.sign == old(a.sign)
  {
    ghost var x := a.num[..a.length];
    WordsOff(n / 32, x);
    BitsOff(n, a.Mag());
    hide Val, Shift, Pow2;
    assert n / 32 < a.length ==> a.num[n / 32..a.length] == x[n / 32..];
    WordShiftRight(a, n / 32);
    if n % 32 != 0 {
      ShiftWordsRight(a.num, a.length, n % 32);
    }
    a.Trim();
  }

  /** Dropping whole words is division by a power of the base. */
  lemma WordsOff(k: nat, x: seq<word>)
    ensures k < |x| ==> Val(x[k..]) == Val(x) / Pow2(32 * k)
    ensures k >= |x| ==> Val(x) / Pow2(32 * k) == 0
  {
    hide *;
    if k < |x| {
      ValSplit(x, k);
      ValBound(x[..k]);
      ShiftPow2(k, 1);
      ShiftPow2(k, Val(x[k..]));
      Swapped(Val(x[k..]), Pow2(32 * k));
      QuotientIs(Val(x), Pow2(32 * k), Val(x[k..]), Val(x[..k]));
    } else {
      ValBound(x);
      ShiftGrows(|x|, k);
      ShiftPow2(k, 1);
      QuotientIs(Val(x), Pow2(32 * k), 0, Val(x));
    }
  }

  lemma Swapped(x: int, y: int)
    ensures x * y == y * x
  {
  }

  lemma BitsOff(n: nat, x: int)
    requires x >= 0
    ensures (x / Pow2(32 * (n / 32))) / Pow2(n % 32) == x / Pow2(n)
    ensures n % 32 == 0 ==> 32 * (n / 32) == n
  {
    Pow2Add(32 * (n / 32), n % 32);
    assert n == 32 * (n / 32) + n % 32;
    QuotientTwice(x, Pow2(32 * (n / 32)), Pow2(n % 32));
  }

  lemma QuotientTwice(x: int, p: int, q: int)
    requires x >= 0 && p >= 1 && q >= 1
    ensures (x / p) / q == x / (p * q)
  {
    var h, l := x / p, x % p;
    var u, v := h / q, h % q;
    assert x == p * h + l && h == q * u + v;
    assert x == (p * q) * u + (p * v + l) by {
      Distribute(p, q * u, v);
      MulAssociates(p, q, u);
    }
    assert 0 <= p * v + l < p * q by {
      MulOrder(p, v, q - 1);
      MulOrder(p, 0, v);
    }
    QuotientIs(x, p * q, u, p * v + l);
  }
}
