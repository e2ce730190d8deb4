/**
  32-bit words and the number a little-endian row of words denotes.

  Every module of the multi-precision kernel is stated against `Val`, so the carry
  chains are specified by the integer they compute and not by their own steps.
 */
module Words {

  /** One more than the largest value of a NumType. */
  const B: int := 0x1_0000_0000

  type word = x: int | 0 <= x < 0x1_0000_0000

  /** What is left of an integer in a 32-bit unsigned word. */
  function Wrap(x: int): word {
    x % 0x1_0000_0000
  }

  /** x moved up by n words, x * B^n. */
  function Shift(n: nat, x: int): (y: int)
    ensures x >= 0 ==> y >= x
    ensures x == 0 ==> y == 0
  {
    if n == 0 then x else 0x1_0000_0000 * Shift(n - 1, x)
  }

  /** The number denoted by a row of words, least significant word first. */
  function Val(s: seq<word>): (v: int)
    ensures v >= 0
  {
    if |s| == 0 then 0 else s[0] + 0x1_0000_0000 * Val(s[1..])
  }

  lemma {:induction false} ShiftAdd(n: nat, x: int, y: int)
    ensures Shift(n, x + y) == Shift(n, x) + Shift(n, y)
  {
    if n > 0 {
      ShiftAdd(n - 1, x, y);
    }
  }

  lemma {:induction false} ShiftSub(n: nat, x: int, y: int)
    ensures Shift(n, x - y) == Shift(n, x) - Shift(n, y)
  {
    if n > 0 {
      ShiftSub(n - 1, x, y);
    }
  }

  lemma {:induction false} ShiftShift(m: nat, n: nat, x: int)
    ensures Shift(m, Shift(n, x)) == Shift(m + n, x)
  {
    if m > 0 {
      ShiftShift(m - 1, n, x);
    }
  }

  /** One word more: the factor comes out on either side. */
  lemma {:induction false} ShiftNext(n: nat, x: int)
    ensures Shift(n + 1, x) == Shift(n, B * x)
  {
    if n > 0 {
      ShiftNext(n - 1, x);
    }
  }

  lemma {:induction false} ShiftMul(n: nat, x: int, y: int)
    ensures Shift(n, x * y) == Shift(n, x) * y == x * Shift(n, y)
  {
    if n > 0 {
      ShiftMul(n - 1, x, y);
      MulByBase(Shift(n - 1, x), y);
      MulByBase(Shift(n - 1, y), x);
    }
  }

  lemma MulByBase(x: int, y: int)
    ensures (0x1_0000_0000 * x) * y == 0x1_0000_0000 * (x * y)
  {
  }

  lemma {:induction false} ShiftOrder(n: nat, x: int, y: int)
    ensures x < y <==> Shift(n, x) < Shift(n, y)
  {
    if n > 0 {
      ShiftOrder(n - 1, x, y);
    }
  }

  lemma {:induction false} ValConcat(s: seq<word>, t: seq<word>)
    ensures Val(s + t) == Val(s) + Shift(|s|, Val(t))
  {
    if |s| == 0 {
      assert s + t == t;
    } else {
      assert (s + t)[1..] == s[1..] + t;
      ValConcat(s[1..], t);
    }
  }

  /** For proofs that hide the constant. */
  lemma BaseIs()
    ensures B == 0x1_0000_0000
  {
  }

  lemma Empty()
    ensures Val([]) == 0 && Shift(0, 0) == 0 && forall k: int :: Shift(0, k) == k
  {
  }

  lemma ValSingle(w: word)
    ensures Val([w]) == w
  {
    assert [w][1..] == [];
  }

  lemma ValSnoc(s: seq<word>, w: word)
    ensures Val(s + [w]) == Val(s) + Shift(|s|, w)
  {
    ValConcat(s, [w]);
    ValSingle(w);
  }

  /** The prefix form of `ValSnoc` that word loops need. */
  lemma ValExtend(s: seq<word>, i: nat)
    requires i < |s|
    ensures Val(s[..i + 1]) == Val(s[..i]) + Shift(i, s[i])
  {
    assert s[..i + 1] == s[..i] + [s[i]];
    ValSnoc(s[..i], s[i]);
  }

  lemma ValSplit(s: seq<word>, i: nat)
    requires i <= |s|
    ensures Val(s) == Val(s[..i]) + Shift(i, Val(s[i..]))
  {
    assert s == s[..i] + s[i..];
    ValConcat(s[..i], s[i..]);
  }

  lemma {:induction false} ValBound(s: seq<word>)
    ensures Val(s) < Shift(|s|, 1)
  {
    if |s| > 0 {
      ValBound(s[1..]);
    }
  }

  lemma {:induction false} ValZeros(s: seq<word>)
    requires forall i :: 0 <= i < |s| ==> s[i] == 0
    ensures Val(s) == 0
  {
    if |s| > 0 {
      ValZeros(s[1..]);
    }
  }

  /** Rows of one length are equal exactly when they denote the same number. */
  lemma {:induction false} ValInjective(s: seq<word>, t: seq<word>)
    requires |s| == |t|
    ensures Val(s) == Val(t) <==> s == t
  {
    if |s| > 0 {
      ValInjective(s[1..], t[1..]);
      assert s == [s[0]] + s[1..] && t == [t[0]] + t[1..];
    }
  }
}
