/**
  The Bignum record of crypt/libcrypt.h with the operations that only manage its storage.

  `num` is the storage and `space` the number of words of it the record claims; one word
  beyond the claim is always there, for the last carry of a row addition.
 */
module Bignums {
  import opened Words
  import opened WordLoops

  const POS := 1
  const NEG := -1

  class Bignum {
    var sign: int
    var length: nat
    var space: nat
    var num: array<word>

    ghost predicate Valid()
      reads this
    {
      1 <= length <= num.Length == space + 1 && 1 <= space && (sign == POS || sign == NEG)
    }

    /** The words in use, least significant first. */
    ghost function Digits(): seq<word>
      reads this, num
      requires Valid()
    {
      num[..length]
    }

    /** The magnitude. */
    ghost function Mag(): (v: int)
      reads this, num
      requires Valid()
      ensures v >= 0
    {
      Val(num[..length])
    }

    /** The number denoted. */
    ghost function Value(): int
      reads this, num
      requires Valid()
    {
      sign * Mag()
    }

    ghost predicate NoLeadingZero()
      reads this, num
      requires Valid()
    {
      length > 1 ==> num[length - 1] != 0
    }

    /** No leading zero word, and no negative zero. */
    ghost predicate Trimmed()
      reads this, num
      requires Valid()
    {
      (length > 1 ==> num[length - 1] != 0) && (length == 1 && num[0] == 0 ==> sign == POS)
    }

    /** itobig */
    constructor (i: word)
      ensures Valid() && fresh(num) && Mag() == i && sign == POS && length == 1 && Trimmed()
    {
      sign, length, space := POS, 1, 1;
      num := new word[2](_ => i);
      new;
      assert num[..1] == [i];
      ValSingle(i);
    }

    /** GUARANTEE: room for s words; growing keeps the words in use and clears the rest up to s. */
    method Guarantee(s: nat)
      requires Valid()
      modifies this
      ensures Valid() && space >= s && space >= old(space)
      ensures length == old(length) && sign == old(sign)
      ensures num == old(num) || fresh(num)
      ensures s <= old(space) ==> num == old(num) && space == old(space)
      ensures num[..length] == old(num[..length])
      ensures s > old(space) ==> forall j :: length <= j < s ==> num[j] == 0
    {
      if space < s {
        var grown := new word[s + 1](_ => 0);
        forall j | 0 <= j < length {
          grown[j] := num[j];
        }
        num := grown;
        space := s;
      }
    }

    /** trim */
    method Trim()
      requires Valid()
      modifies this
      ensures Valid() && Trimmed() && num == old(num) && space == old(space)
      ensures length <= old(length) && Mag() == old(Mag())
      ensures Mag() != 0 ==> sign == old(sign)
      ensures sign == old(sign) || sign == POS
      ensures Mag() == 0 ==> sign == POS && length == 1
      ensures old(Trimmed()) ==> sign == old(sign)
      ensures old(NoLeadingZero()) ==> length == old(length)
      ensures forall j :: length <= j < old(length) ==> num[j] == 0
    {
      while num[length - 1] == 0 && length > 1
        modifies this`length
        invariant 1 <= length <= old(length)
        invariant Val(num[..length]) == Val(num[..old(length)])
        invariant old(NoLeadingZero()) ==> length == old(length)
        invariant forall j :: length <= j < old(length) ==> num[j] == 0
      {
        DropZero(num[..length]);
        assert num[..length][..length - 1] == num[..length - 1];
        length := length - 1;
      }
      if length > 1 {
        TopWord(num[..length]);
      } else {
        assert num[..1] == [num[0]];
        ValSingle(num[0]);
      }
      if length == 1 && num[0] == 0 {
        sign := POS;
      }
    }

    /** reset_big */
    method Reset(u: word)
      requires Valid()
      modifies this, num
      ensures Valid() && Mag() == u && sign == POS && length == 1 && Trimmed()
      ensures num == old(num) && space == old(space)
    {
      sign := POS;
      length := 1;
      num[0] := u;
      assert num[..1] == [u];
      ValSingle(u);
    }
  }

  lemma ZeroMag(a: Bignum)
    requires a.Valid()
    ensures a.length == 1 ==> a.Mag() == a.num[0]
  {
    if a.length == 1 {
      assert a.num[..1] == [a.num[0]];
      ValSingle(a.num[0]);
    }
  }

  lemma DropZero(z: seq<word>)
    requires |z| > 0 && z[|z| - 1] == 0
    ensures Val(z) == Val(z[..|z| - 1])
  {
    ValExtend(z, |z| - 1);
    assert z[..|z| - 1 + 1] == z;
  }

  /** A row whose top word is not zero denotes at least the power of its top place. */
  lemma TopWord(z: seq<word>)
    requires |z| > 0 && z[|z| - 1] != 0
    ensures Val(z) >= Shift(|z| - 1, 1) > 0
  {
    ValExtend(z, |z| - 1);
    assert z[..|z| - 1 + 1] == z;
    var w: int := z[|z| - 1];
    ShiftAdd(|z| - 1, 1, w - 1);
  }

  /** bigCopy */
  method Copy(a: Bignum, b: Bignum)
    requires a.Valid() && b.Valid() && a != b && a.num != b.num
    modifies b, b.num
    ensures b.Valid() && b.Digits() == a.Digits() && b.sign == a.sign
    ensures b.num == old(b.num) || fresh(b.num)
    ensures b.space >= old(b.space) && b.space >= a.length
  {
    b.Guarantee(a.length);
    b.length, b.sign := a.length, a.sign;
    var i := 0;
    while i < a.length
      modifies b.num
      invariant 0 <= i <= a.length
      invariant forall j :: 0 <= j < i ==> b.num[j] == a.num[j]
    {
      b.num[i] := a.num[i];
      i := i + 1;
    }
  }

  /** bigCompare compares magnitudes and trims both operands. */
  method Compare(a: Bignum, b: Bignum) returns (r: int)
    requires a.Valid() && b.Valid()
    modifies a, b
    ensures a.Valid() && a.Trimmed() && a.num == old(a.num) && a.space == old(a.space) && a.Mag() == old(a.Mag())
    ensures b.Valid() && b.Trimmed() && b.num == old(b.num) && b.space == old(b.space) && b.Mag() == old(b.Mag())
    ensures a.length <= old(a.length) && b.length <= old(b.length)
    ensures a.Mag() != 0 ==> a.sign == old(a.sign)
    ensures b.Mag() != 0 ==> b.sign == old(b.sign)
    ensures old(a.Trimmed()) ==> a.sign == old(a.sign)
    ensures old(b.Trimmed()) ==> b.sign == old(b.sign)
    ensures (old(a.NoLeadingZero()) ==> a.length == old(a.length))
      && (old(b.NoLeadingZero()) ==> b.length == old(b.length))
    ensures (r < 0 <==> a.Mag() < b.Mag()) && (r == 0 <==> a.Mag() == b.Mag())
  {
    hide Val;
    a.Trim();
    b.Trim();
    if a.length != b.length {
      LongerIsGreater(a.num[..a.length], b.num[..b.length]);
      return a.length - b.length;
    }
    r := CompareWords(a.num, 0, b.num, 0, a.length);
  }

  lemma LongerIsGreater(x: seq<word>, y: seq<word>)
    requires |x| > 0 && |y| > 0 && |x| != |y|
    requires |x| > 1 ==> x[|x| - 1] != 0
    requires |y| > 1 ==> y[|y| - 1] != 0
    ensures Val(x) < Val(y) <==> |x| < |y|
    ensures Val(x) != Val(y)
  {
    if |x| < |y| {
      ShorterIsLess(x, y);
    } else {
      ShorterIsLess(y, x);
    }
  }

  lemma ShorterIsLess(x: seq<word>, y: seq<word>)
    requires |x| < |y| && y[|y| - 1] != 0
    ensures Val(x) < Val(y)
  {
    ValBound(x);
    TopWord(y);
    ShiftGrows(|x|, |y| - 1);
  }

  lemma {:induction false} ShiftGrows(m: nat, n: nat)
    requires m <= n
    ensures Shift(m, 1) <= Shift(n, 1)
  {
    if m < n {
      ShiftGrows(m, n - 1);
    }
  }
}
