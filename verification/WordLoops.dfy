/**
  The carry loops of crypt/fastmult.c, one method a loop, over rows inside larger arrays.
  Rows that are only read may share an array with the row that is written.
 */
module WordLoops {
  import opened Words
  import opened LongMult

  /** x + y in a word, with the carry the macros detect by comparing the sum with x. */
  method AddDetect(x: word, y: word) returns (s: word, carry: int)
    ensures 0 <= carry <= 1
    ensures s + B * carry == x + y
  {
    s := Wrap(x + y);
    carry := if s < x then 1 else 0;
  }

  /** SUBSTEP: a - b + carry, where carry is 0 or -1. */
  method SubStep(a: word, b: word, carry: int) returns (c: word, carry': int)
    requires -1 <= carry <= 0
    ensures -1 <= carry' <= 0
    ensures c + B * carry' == a - b + carry
  {
    var suml := Wrap(a - b);
    var sumh := if suml > a then -1 else 0;
    c := Wrap(suml + carry);
    carry' := (if c > suml then -1 else 0) + sumh;
  }

  /** ADDSTEP: a + b + carry, where carry is 0 or 1. */
  method AddStep(a: word, b: word, carry: int) returns (c: word, carry': int)
    requires 0 <= carry <= 1
    ensures 0 <= carry' <= 1
    ensures c + B * carry' == a + b + carry
  {
    var suml, sumh := AddDetect(a, b);
    c, carry' := AddDetect(suml, carry);
    carry' := carry' + sumh;
  }

  /** ADD3STEP: a + b + c + carry, where carry is at most 2. */
  method Add3Step(c: word, a: word, b: word, carry: int) returns (t: word, carry': int)
    requires 0 <= carry <= 2
    ensures 0 <= carry' <= 2
    ensures t + B * carry' == a + b + c + carry
  {
    var s, sumh := AddDetect(a, b);
    var suml, sumh' := AddDetect(s, carry);
    t, carry' := AddDetect(suml, c);
    carry' := sumh + sumh' + carry';
  }

  /** The step of a loop that leaves in r the row x with the row y added (s = 1) or subtracted (s = -1). */
  lemma SumExtend(i: nat, r: seq<word>, w: word, k: int, k': int, x: seq<word>, s: int, y: seq<word>)
    requires i == |r| && i < |x| && i < |y| && (s == 1 || s == -1)
    requires Val(r) + Shift(i, k) == Val(x[..i]) + s * Val(y[..i])
    requires w + B * k' == x[i] + s * y[i] + k
    ensures Val(r + [w]) + Shift(i + 1, k') == Val(x[..i + 1]) + s * Val(y[..i + 1])
  {
    hide *;
    var u: int, v: int := x[i], y[i];
    DigitExtend(r, w, k, k', Val(x[..i]) + s * Val(y[..i]), u + s * v);
    ValExtend(x, i);
    ValExtend(y, i);
    ShiftAdd(i, u, v);
    ShiftSub(i, u, v);
  }

  /** r and a carry hold the sum of the low words of three rows. */
  ghost predicate Sum3(r: seq<word>, k: int, x: seq<word>, y: seq<word>, z: seq<word>) {
    var i := |r|;
    && i <= |x| && i <= |y| && i <= |z|
    && Val(r) + Shift(i, k) == Val(x[..i]) + Val(y[..i]) + Val(z[..i])
  }

  lemma Sum3Starts(x: seq<word>, y: seq<word>, z: seq<word>)
    ensures Sum3([], 0, x, y, z)
  {
    assert x[..0] == [] && y[..0] == [] && z[..0] == [];
  }

  lemma Sum3Ends(r: seq<word>, k: int, x: seq<word>, y: seq<word>, z: seq<word>)
    requires Sum3(r, k, x, y, z) && |r| == |x| == |y| == |z|
    ensures Val(r) + Shift(|r|, k) == Val(x) + Val(y) + Val(z)
  {
    assert x[..|r|] == x && y[..|r|] == y && z[..|r|] == z;
  }

  lemma Sum3Extend(i: nat, r: seq<word>, w: word, k: int, k': int, x: seq<word>, y: seq<word>, z: seq<word>)
    requires i == |r| && i < |x| && i < |y| && i < |z| && Sum3(r, k, x, y, z)
    requires w + B * k' == x[i] + y[i] + z[i] + k
    ensures Sum3(r + [w], k', x, y, z)
  {
    hide Val, Shift, Wrap;
    var u: int, v: int, t: int := x[i], y[i], z[i];
    DigitExtend(r, w, k, k', Val(x[..i]) + Val(y[..i]) + Val(z[..i]), u + v + t);
    ValExtend(x, i);
    ValExtend(y, i);
    ValExtend(z, i);
    ShiftAdd(i, u, v);
    ShiftAdd(i, u + v, t);
  }

  method SubWords(u: array<word>, uo: nat, v: array<word>, vo: nat, c: array<word>, co: nat, n: nat)
      returns (carry: int)
    requires uo + n <= u.Length && vo + n <= v.Length && co + n <= c.Length
    requires Apart(u, uo, n, c, co, n) && Apart(v, vo, n, c, co, n)
    modifies c
    ensures -1 <= carry <= 0
    ensures Val(c[co..co + n]) + Shift(n, carry) == old(Val(u[uo..uo + n])) - old(Val(v[vo..vo + n]))
    ensures forall j :: 0 <= j < c.Length && !(co <= j < co + n) ==> c[j] == old(c[j])
  {
    ghost var x, y := u[uo..uo + n], v[vo..vo + n];
    ghost var r: seq<word> := [];
    Empty();
    hide Val, Shift, Wrap;
    carry := 0;
    var i := 0;
    while i < n
      invariant 0 <= i <= n && -1 <= carry <= 0
      invariant |r| == i && forall j {:trigger r[j]} :: 0 <= j < i ==> r[j] == c[co + j]
      invariant Val(r) + Shift(i, carry) == Val(x[..i]) - Val(y[..i])
      invariant forall j :: 0 <= j < c.Length && !(co <= j < co + i) ==> c[j] == old(c[j])
    {
      ghost var k := carry;
      var e, f := u[uo + i], v[vo + i];
      assert e == x[i] && f == y[i];
      var w;
      w, carry := SubStep(e, f, carry);
      SumExtend(i, r, w, k, carry, x, -1, y);
      c[co + i] := w;
      r := r + [w];
      i := i + 1;
    }
    assert c[co..co + n] == r;
    assert x[..n] == x && y[..n] == y;
  }

  method AddWords(u: array<word>, uo: nat, v: array<word>, vo: nat, c: array<word>, co: nat, n: nat)
      returns (carry: int)
    requires uo + n <= u.Length && vo + n <= v.Length && co + n <= c.Length
    requires Apart(u, uo, n, c, co, n) && Apart(v, vo, n, c, co, n)
    modifies c
    ensures 0 <= carry <= 1
    ensures Val(c[co..co + n]) + Shift(n, carry) == old(Val(u[uo..uo + n])) + old(Val(v[vo..vo + n]))
    ensures forall j :: 0 <= j < c.Length && !(co <= j < co + n) ==> c[j] == old(c[j])
  {
    ghost var x, y := u[uo..uo + n], v[vo..vo + n];
    ghost var r: seq<word> := [];
    Empty();
    hide Val, Shift, Wrap;
    carry := 0;
    var i := 0;
    while i < n
      invariant 0 <= i <= n && 0 <= carry <= 1
      invariant |r| == i && forall j {:trigger r[j]} :: 0 <= j < i ==> r[j] == c[co + j]
      invariant Val(r) + Shift(i, carry) == Val(x[..i]) + Val(y[..i])
      invariant forall j :: 0 <= j < c.Length && !(co <= j < co + i) ==> c[j] == old(c[j])
    {
      ghost var k := carry;
      var e, f := u[uo + i], v[vo + i];
      assert e == x[i] && f == y[i];
      var w;
      w, carry := AddStep(e, f, carry);
      SumExtend(i, r, w, k, carry, x, 1, y);
      c[co + i] := w;
      r := r + [w];
      i := i + 1;
    }
    assert c[co..co + n] == r;
    assert x[..n] == x && y[..n] == y;
  }

  /** The sum of three rows of c, which may overlap each other, into t. */
  method Add3Words(t: array<word>, to: nat, c: array<word>, c0: nat, c1: nat, c2: nat, n: nat) returns (carry: int)
    requires to + n <= t.Length && c0 + n <= c.Length && c1 + n <= c.Length && c2 + n <= c.Length
    requires Apart(c, c0, n, t, to, n) && Apart(c, c1, n, t, to, n) && Apart(c, c2, n, t, to, n)
    modifies t
    ensures 0 <= carry <= 2
    ensures Val(t[to..to + n]) + Shift(n, carry)
         == old(Val(c[c1..c1 + n])) + old(Val(c[c2..c2 + n])) + old(Val(c[c0..c0 + n]))
    ensures forall j :: 0 <= j < t.Length && !(to <= j < to + n) ==> t[j] == old(t[j])
  {
    ghost var x, y, z := c[c1..c1 + n], c[c2..c2 + n], c[c0..c0 + n];
    ghost var r: seq<word> := [];
    Sum3Starts(x, y, z);
    hide *;
    carry := 0;
    var i := 0;
    while i < n
      invariant 0 <= i <= n && 0 <= carry <= 2
      invariant Sum3(r, carry, x, y, z)
      invariant |r| == i && forall j {:trigger r[j]} :: 0 <= j < i ==> r[j] == t[to + j]
      invariant forall j :: 0 <= j < t.Length && !(to <= j < to + i) ==> t[j] == old(t[j])
    {
      ghost var k := carry;
      var e, f, g := c[c0 + i], c[c1 + i], c[c2 + i];
      assert e == z[i] && f == x[i] && g == y[i];
      var w;
      w, carry := Add3Step(e, f, g, carry);
      Sum3Extend(i, r, w, k, carry, x, y, z);
      t[to + i] := w;
      r := r + [w];
      i := i + 1;
    }
    assert t[to..to + n] == r;
    Sum3Ends(r, carry, x, y, z);
  }

  /** Adds a small carry to a row, stopping as soon as it has been absorbed. */
  method CarryUp(c: array<word>, co: nat, n: nat, k: word) returns (carry: word)
    requires co + n <= c.Length
    modifies c
    ensures Val(c[co..co + n]) + Shift(n, carry) == old(Val(c[co..co + n])) + k
    ensures forall j :: 0 <= j < c.Length && !(co <= j < co + n) ==> c[j] == old(c[j])
  {
    ghost var x := c[co..co + n];
    ghost var r: seq<word> := [];
    Empty();
    hide Val, Shift, Wrap;
    carry := k;
    var i := 0;
    while i < n && carry != 0
      invariant 0 <= i <= n
      invariant |r| == i && forall j {:trigger r[j]} :: 0 <= j < i ==> r[j] == c[co + j]
      invariant Val(r) + Shift(i, carry) == Val(x[..i]) + k
      invariant forall j :: 0 <= j < c.Length && !(co <= j < co + i) ==> c[j] == old(c[j])
    {
      ghost var k0 := carry;
      var w, out := AddDetect(carry, c[co + i]);
      DigitExtend(r, w, k0, out, Val(x[..i]) + k, x[i]);
      ValExtend(x, i);
      c[co + i] := w;
      carry := out;
      r := r + [w];
      i := i + 1;
    }
    assert c[co..co + n] == r + x[i..];
    CarryStops(r, x, carry, k);
  }

  lemma CarryStops(r: seq<word>, x: seq<word>, carry: int, k: int)
    requires |r| <= |x|
    requires |r| == |x| || carry == 0
    requires Val(r) + Shift(|r|, carry) == Val(x[..|r|]) + k
    ensures Val(r + x[|r|..]) + Shift(|x|, carry) == Val(x) + k
  {
    hide *;
    ValConcat(r, x[|r|..]);
    ValSplit(x, |r|);
    if |r| == |x| {
      assert x[|r|..] == [] && r + [] == r && x[..|r|] == x;
      Empty();
      ShiftZero(|r|);
    } else {
      ShiftZero(|r|);
      ShiftZero(|x|);
    }
  }

  lemma ShiftZero(n: nat)
    ensures Shift(n, 0) == 0
  {
  }

  /** bigCompareLongs: compares two rows of one length from the most significant word down. */
  method CompareWords(a: array<word>, ao: nat, b: array<word>, bo: nat, n: nat) returns (r: int)
    requires ao + n <= a.Length && bo + n <= b.Length
    ensures r < 0 <==> Val(a[ao..ao + n]) < Val(b[bo..bo + n])
    ensures r == 0 <==> Val(a[ao..ao + n]) == Val(b[bo..bo + n])
  {
    ghost var x, y := a[ao..ao + n], b[bo..bo + n];
    var i := n;
    while i > 0 && a[ao + i - 1] == b[bo + i - 1]
      invariant 0 <= i <= n
      invariant x[i..] == y[i..]
    {
      assert x[i - 1] == a[ao + i - 1] && y[i - 1] == b[bo + i - 1];
      assert x[i - 1..] == [x[i - 1]] + x[i..] && y[i - 1..] == [y[i - 1]] + y[i..];
      i := i - 1;
    }
    if i == 0 {
      assert x[0..] == x && y[0..] == y;
      return 0;
    }
    assert x[i - 1] == a[ao + i - 1] && y[i - 1] == b[bo + i - 1];
    DecidedBy(x, y, i - 1);
    return if a[ao + i - 1] < b[bo + i - 1] then -1 else 1;
  }

  /** The most significant word in which two rows differ decides their order. */
  lemma DecidedBy(x: seq<word>, y: seq<word>, i: nat)
    requires |x| == |y| && i < |x| && x[i + 1..] == y[i + 1..] && x[i] != y[i]
    ensures Val(x) < Val(y) <==> x[i] < y[i]
    ensures Val(x) != Val(y)
  {
    hide Val, Shift;
    var u: int, v: int := x[i], y[i];
    ValSplit(x, i + 1);
    ValSplit(y, i + 1);
    ValExtend(x, i);
    ValExtend(y, i);
    ValBound(x[..i]);
    ValBound(y[..i]);
    ShiftAdd(i, u, 1);
    ShiftAdd(i, v, 1);
    ShiftOrder(i, v, u + 1);
    ShiftOrder(i, u, v + 1);
  }
}
