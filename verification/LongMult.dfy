/**
  The 32 by 32 bit multiplication primitives: one row of a product with its carry chain.
  A C pointer into a word array is an array together with an offset.
 */
module LongMult {
  import opened Words

  /** No word of a[ao..ao+an] is a word of c[co..co+cn]. */
  ghost predicate Apart(a: array<word>, ao: nat, an: nat, c: array<word>, co: nat, cn: nat) {
    a != c || ao + an <= co || co + cn <= ao
  }

  lemma ProductRange(x: word, y: word)
    ensures 0 <= x * y <= (B - 1) * (B - 1)
  {
    MulOrder(y, x, B - 1);
    MulOrder(B - 1, y, B - 1);
    MulOrder(y, 0, x);
  }

  lemma MulOrder(k: int, x: int, y: int)
    requires 0 <= k && x <= y
    ensures x * k <= y * k
  {
  }

  lemma Distribute(m: int, x: int, y: int)
    ensures m * (x + y) == m * x + m * y
  {
  }

  /** The high and low words of a full product. */
  method Umult(x: word, y: word) returns (hi: word, lo: word)
    ensures B * hi + lo == x * y
  {
    ProductRange(x, y);
    hi, lo := x * y / 0x1_0000_0000, x * y % 0x1_0000_0000;
  }

  /** x + y with the overflow of the sum, detected by comparing it with y, added to a high word. */
  method AddCarry(hi: word, x: word, y: word) returns (hi': word, s: word)
    requires B * hi + x + y < B * B
    ensures B * hi' + s == B * hi + x + y
  {
    s := Wrap(x + y);
    hi' := if s < y then Wrap(hi + 1) else hi;
  }

  /** One word of a row: m * x + carry + d split into the word stored and the carry passed on. */
  method LmultStep(m: word, x: word, carry: word, d: word) returns (w: word, out: word)
    ensures w + B * out == m * x + carry + d
  {
    ProductRange(m, x);
    var sumh, suml := Umult(m, x);
    sumh, suml := AddCarry(sumh, suml, carry);
    out, w := AddCarry(sumh, d, suml);
  }

  /** The step of every carry loop: one more word is stored and the carry keeps the sum exact. */
  lemma DigitExtend(r: seq<word>, w: word, k: int, k': int, x: int, e: int)
    requires Val(r) + Shift(|r|, k) == x
    requires w + B * k' == e + k
    ensures Val(r + [w]) + Shift(|r| + 1, k') == x + Shift(|r|, e)
  {
    ValSnoc(r, w);
    ShiftNext(|r|, k');
    ShiftAdd(|r|, w, B * k');
    ShiftAdd(|r|, e, k);
  }

  lemma RowExtend(i: nat, r: seq<word>, w: word, k: int, k': int, d: seq<word>, m: int, s: seq<word>)
    requires i == |r| && i < |d| && i < |s|
    requires Val(r) + Shift(i, k) == Val(d[..i]) + m * Val(s[..i])
    requires w + B * k' == m * s[i] + k + d[i]
    ensures Val(r + [w]) + Shift(i + 1, k') == Val(d[..i + 1]) + m * Val(s[..i + 1])
  {
    hide *;
    var x: int, y: int := s[i], d[i];
    DigitExtend(r, w, k, k', Val(d[..i]) + m * Val(s[..i]), m * x + y);
    ValExtend(d, i);
    ValExtend(s, i);
    ShiftAdd(i, m * x, y);
    ShiftMul(i, m, x);
    Distribute(m, Val(s[..i]), Shift(i, x));
  }

  /** Adds m times a row into another row of the same length; the carry out completes the sum. */
  method LMULT(dst: array<word>, o: nat, m: word, src: array<word>, so: nat, n: nat) returns (carry: word)
    requires o + n <= dst.Length && so + n <= src.Length
    requires Apart(src, so, n, dst, o, n)
    modifies dst
    ensures Val(dst[o..o + n]) + Shift(n, carry) == old(Val(dst[o..o + n])) + m * old(Val(src[so..so + n]))
    ensures forall j :: 0 <= j < dst.Length && !(o <= j < o + n) ==> dst[j] == old(dst[j])
  {
    ghost var d, s := dst[o..o + n], src[so..so + n];
    ghost var r: seq<word> := [];
    Empty();
    hide Val, Shift, Wrap;
    carry := 0;
    var i := 0;
    while i < n
      invariant 0 <= i <= n
      invariant |r| == i && forall j {:trigger r[j]} :: 0 <= j < i ==> r[j] == dst[o + j]
      invariant Val(r) + Shift(i, carry) == Val(d[..i]) + m * Val(s[..i])
      invariant forall j :: 0 <= j < dst.Length && !(o <= j < o + i) ==> dst[j] == old(dst[j])
    {
      ghost var k := carry;
      var x, y := src[so + i], dst[o + i];
      assert x == s[i] && y == d[i];
      var w;
      w, carry := LmultStep(m, x, carry, y);
      RowExtend(i, r, w, k, carry, d, m, s);
      dst[o + i] := w;
      r := r + [w];
      i := i + 1;
    }
    assert dst[o..o + n] == r;
    assert d[..n] == d && s[..n] == s;
  }
}
