/**
  numtype_bigmult of crypt/coremult.c: multiply-accumulate of one word at an offset, the
  primitive under long multiplication, the clean-up of Karatsuba, division and REDC.
 */
module CoreMult {
  import opened Words
  import opened LongMult
  import opened WordLoops
  import opened Bignums
  import opened Karatsuba

  /** The words above the ones in use are cleared up to and including word `top`. */
  method ClearAbove(c: Bignum, top: nat)
    requires c.Valid() && c.length <= top < c.num.Length
    modifies c.num
    ensures c.Valid()
    ensures c.num[..c.length] == old(c.num[..c.length])
    ensures forall j :: c.length <= j <= top ==> c.num[j] == 0
  {
    var i := c.length;
    while i <= top
      invariant c.length <= i <= top + 1
      invariant forall j :: c.length <= j < i ==> c.num[j] == 0
      invariant forall j :: 0 <= j < c.length ==> c.num[j] == old(c.num[j])
    {
      c.num[i] := 0;
      i := i + 1;
    }
  }

  lemma ZeroExtended(x: seq<word>, z: seq<word>)
    requires |x| <= |z| && z[..|x|] == x
    requires forall j :: |x| <= j < |z| ==> z[j] == 0
    ensures Val(z) == Val(x)
  {
    ValSplit(z, |x|);
    ValZeros(z[|x|..]);
    ShiftZero(|x|);
  }

  /** The sum of the words of c below place o, of m times b at o, and of the carry above b. */
  lemma RowInPlace(o: nat, z: seq<word>, r: seq<word>, carry: word, y: seq<word>, m: word)
    requires o + |y| == |z| && |r| == |y|
    requires Val(r) + Shift(|y|, carry) == Val(z[o..]) + m * Val(y)
    ensures Val(z[..o] + r) + Shift(|z|, carry) == Val(z) + Shift(o, m * Val(y))
  {
    hide *;
    ValSplit(z, o);
    ValConcat(z[..o], r);
    ShiftAdd(o, Val(r), Shift(|y|, carry));
    ShiftShift(o, |y|, carry);
    ShiftAdd(o, Val(z[o..]), m * Val(y));
  }

  /** Makes room for a row of n words at place o of c, clearing the words the row adds. */
  method MakeRoom(c: Bignum, top: nat)
    requires c.Valid()
    modifies c, c.num
    ensures c.Valid() && c.length == old(c.length) && c.sign == old(c.sign)
    ensures c.num == old(c.num) || fresh(c.num)
    ensures c.space >= old(c.space) && c.space >= top + 2
    ensures c.Mag() == old(c.Mag())
    ensures c.length <= top ==> Val(c.num[..top]) == old(c.Mag())
  {
    ghost var x := c.num[..c.length];
    c.Guarantee(top + 2);
    if c.length < top {
      ClearAbove(c, top);
      ZeroExtended(x, c.num[..top]);
    }
  }

  /** The do-while loop that carries into the words above a row: at least one word is visited. */
  method CarryThrough(c: array<word>, co: nat, n: nat, k: word) returns (carry: word)
    requires n > 0 && co + n <= c.Length
    modifies c
    ensures Val(c[co..co + n]) + Shift(n, carry) == old(Val(c[co..co + n])) + k
    ensures forall j :: 0 <= j < c.Length && !(co <= j < co + n) ==> c[j] == old(c[j])
  {
    hide Val, Shift;
    ghost var x := c[co..co + n];
    var w, out := AddDetect(k, c[co]);
    c[co] := w;
    assert c[co + 1..co + 1 + (n - 1)] == x[1..];
    carry := CarryUp(c, co + 1, n - 1, out);
    ghost var y := c[co + 1..co + n];
    assert c[co..co + n] == [w] + y && x == [x[0]] + x[1..];
    ValCons(w, y);
    ValCons(x[0], x[1..]);
    ShiftNext(n - 1, carry);
    ShiftOne(n - 1, carry);
  }

  lemma ValCons(w: word, y: seq<word>)
    ensures Val([w] + y) == w + B * Val(y)
  {
    assert ([w] + y)[1..] == y;
  }

  lemma ShiftOne(n: nat, x: int)
    ensures Shift(n + 1, x) == B * Shift(n, x)
  {
  }

  /** One row added inside the words c[..o + n]; the carry out is left to the caller. */
  method AddRowInside(c: array<word>, o: nat, m: word, a: array<word>, n: nat) returns (carry: word)
    requires n <= a.Length && o + n <= c.Length && a != c
    modifies c
    ensures Val(c[..o + n]) + Shift(o + n, carry) == old(Val(c[..o + n])) + Shift(o, m * old(Val(a[..n])))
    ensures forall j :: 0 <= j < c.Length && !(o <= j < o + n) ==> c[j] == old(c[j])
  {
    hide Val, Shift;
    ghost var z := c[..o + n];
    assert c[o..o + n] == z[o..] && a[0..n] == a[..n];
    carry := LMULT(c, o, m, a, 0, n);
    ghost var r := c[o..o + n];
    assert c[..o] == z[..o];
    RowInPlace(o, z, r, carry, a[..n], m);
    assert c[..o + n] == z[..o] + r;
  }

  /** What is below word top, a carry at top, and what is in use above top, as one number. */
  ghost function Pending(c: Bignum, top: nat, carry: int): int
    requires c.Valid() && top <= c.num.Length
    reads c, c.num
  {
    Val(c.num[..top]) + Shift(top, carry) + (if c.length > top then Shift(top, Val(c.num[top..c.length])) else 0)
  }

  /** The second half of numtype_bigmult: the carry out of the row moves into the words above it. */
  method SettleCarry(c: Bignum, top: nat, k: word)
    requires c.Valid() && 1 <= top <= c.space
    requires Pending(c, top, k) < Shift(c.num.Length, 1)
    modifies c, c.num
    ensures c.Valid() && c.Trimmed() && c.num == old(c.num) && c.space == old(c.space)
    ensures c.Mag() == old(Pending(c, top, k))
    ensures forall j :: c.length <= j < top ==> c.num[j] == 0
    ensures c.Mag() != 0 ==> c.sign == old(c.sign)
    ensures c.sign == old(c.sign) || c.sign == POS
  {
    hide Val, Shift;
    ghost var low := c.num[..top];
    ghost var total := Pending(c, top, k);
    var carry := k;
    var gap := c.length - top;
    if gap > 0 {
      ghost var high := c.num[top..c.length];
      carry := CarryThrough(c.num, top, gap, carry);
      assert c.num[..top] == low;
      SettledSum(low, high, c.num[top..c.length], k, carry);
      assert c.num[..c.length] == low + c.num[top..c.length];
    } else {
      c.length := top;
    }
    StoreCarry(c, carry);
    c.Trim();
  }

  lemma SettledSum(low: seq<word>, high: seq<word>, high': seq<word>, k: int, carry: int)
    requires |high| == |high'|
    requires Val(high') + Shift(|high|, carry) == Val(high) + k
    ensures Val(low + high') + Shift(|low| + |high|, carry) == Val(low) + Shift(|low|, k) + Shift(|low|, Val(high))
  {
    hide *;
    ValConcat(low, high');
    MovedSum(|low|, |high|, Val(high'), carry, Val(high), k);
  }

  lemma MovedSum(n: nat, m: nat, x: int, carry: int, y: int, k: int)
    requires x + Shift(m, carry) == y + k
    ensures Shift(n, x) + Shift(n + m, carry) == Shift(n, y) + Shift(n, k)
  {
    hide *;
    ShiftAdd(n, x, Shift(m, carry));
    ShiftShift(n, m, carry);
    ShiftAdd(n, y, k);
  }

  /** A carry that is not zero becomes the new top word. */
  method StoreCarry(c: Bignum, carry: word)
    requires c.Valid()
    requires c.length < c.num.Length || c.Mag() + Shift(c.length, carry) < Shift(c.num.Length, 1)
    modifies c`length, c.num
    ensures c.Valid()
    ensures c.Mag() == old(c.Mag() + Shift(c.length, carry))
    ensures c.length >= old(c.length)
  {
    hide Val, Shift;
    ghost var x := c.num[..c.length];
    if carry != 0 {
      if c.length == c.num.Length {
        CarryAbsorbed(c.length, Val(x), carry, Val(x) + Shift(c.length, carry));
      }
      c.num[c.length] := carry;
      assert c.num[..c.length + 1] == x + [carry];
      ValSnoc(x, carry);
      c.length := c.length + 1;
    } else {
      ShiftZero(c.length);
    }
  }

  /** The result fits the storage there is, or the storage the row itself is guaranteed. */
  ghost predicate Fits(v: int, storage: nat, guaranteed: nat) {
    v < Shift(storage, 1) || v < Shift(guaranteed, 1)
  }

  /**
    Adds sb times a to c at word `offset`, which may lie above the words in use.
    The result needs no more than one word beyond the storage c has or is given here.
   */
  method NumtypeBigmult(a: Bignum, sb: word, c: Bignum, offset: nat)
    requires a.Valid() && c.Valid() && a != c && a.num != c.num
    requires Fits(c.Mag() + Shift(offset, sb * a.Mag()), c.num.Length, a.length + offset + 3)
    modifies c, c.num
    ensures c.Valid() && c.Trimmed() && (c.num == old(c.num) || fresh(c.num))
    ensures c.space >= old(c.space)
    ensures c.Mag() == old(c.Mag()) + Shift(offset, sb * old(a.Mag()))
    ensures a.length + offset < c.num.Length && forall j :: c.length <= j < a.length + offset ==> c.num[j] == 0
    ensures c.Mag() != 0 ==> c.sign == old(c.sign)
    ensures c.sign == old(c.sign) || c.sign == POS
  {
    hide Val, Shift;
    var top := a.length + offset;
    ghost var storage := c.num.Length;
    MakeRoom(c, top);
    ShiftGrows(storage, c.num.Length);
    ShiftGrows(top + 3, c.num.Length);
    ghost var x := c.num[..c.length];
    if c.length > top {
      assert x == c.num[..top] + c.num[top..c.length];
      ValConcat(c.num[..top], c.num[top..c.length]);
    }
    ghost var high := c.num[top..if c.length > top then c.length else top];
    var carry := AddRowInside(c.num, offset, sb, a.num, a.length);
    assert c.num[top..if c.length > top then c.length else top] == high;
    SettleCarry(c, top, carry);
  }
}
