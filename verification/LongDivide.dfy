/**
  longBigDivide: a two-word number by a word, in two steps of half a word.
 */
module LongDivide {
  import opened Words
  import opened LongMult
  import opened WordLoops
  import opened BigShift

  lemma PairOf(z: seq<word>)
    requires |z| == 2
    ensures Val(z) == z[0] + B * z[1]
  {
    assert z == [z[0]] + [z[1]];
    ConsVal(z[0], [z[1]]);
    ValSingle(z[1]);
  }

  /** The product of one word and a row of one word, into the first two words of tmp. */
  method WordProduct(tmp: array<word>, q: word, ms2: array<word>)
    requires tmp.Length >= 2 && ms2.Length == 1 && tmp != ms2
    modifies tmp
    ensures Val(tmp[0..2]) == q * ms2[0]
    ensures tmp[2..] == old(tmp[2..])
  {
    tmp[0], tmp[1] := 0, 0;
    assert tmp[0..0 + 1] == [0] && ms2[0..0 + 1] == [ms2[0]];
    ValSingle(0);
    ValSingle(ms2[0]);
    var carry := LMULT(tmp, 0, q, ms2, 0, 1);
    assert tmp[0..0 + 1] == [tmp[0]];
    ValSingle(tmp[0]);
    tmp[1] := carry;
    PairOf(tmp[0..2]);
    assert Shift(1, carry) == B * carry;
  }

  /** The while loop that lowers a trial digit until its product fits: the quotient, if the trial was not below it. */
  method LowerDigit(q0: word, ms2: array<word>, tmp: array<word>, bound: array<word>) returns (q: word)
    requires ms2.Length == 1 && tmp.Length >= 2 && bound.Length == 2 && tmp != ms2 && tmp != bound
    requires ms2[0] > 0 && q0 >= Val(bound[..]) / ms2[0]
    modifies tmp
    ensures q == Val(bound[..]) / ms2[0]
    ensures tmp[2..] == old(tmp[2..])
  {
    hide Val;
    var d := ms2[0];
    ghost var v := Val(bound[..]);
    q := q0;
    assert bound[0..2] == bound[..];
    WordProduct(tmp, q, ms2);
    var cmp := CompareWords(tmp, 0, bound, 0, 2);
    while cmp > 0
      invariant bound[0..2] == old(bound[..]) && ms2[0] == d
      invariant q >= v / d
      invariant Val(tmp[0..2]) == q * d && (cmp > 0 <==> q * d > v)
      invariant tmp[2..] == old(tmp[2..])
      decreases q
    {
      NotYet(v, d, q);
      q := q - 1;
      WordProduct(tmp, q, ms2);
      cmp := CompareWords(tmp, 0, bound, 0, 2);
    }
    Reached(v, d, q);
  }

  lemma NotYet(v: int, d: int, q: int)
    requires d > 0 && v >= 0 && q >= v / d && q * d > v
    ensures q > v / d && q > 0
  {
    assert v == d * (v / d) + v % d;
  }

  lemma Reached(v: int, d: int, q: int)
    requires d > 0 && v >= 0 && q >= v / d && q * d <= v
    ensures q == v / d
  {
    QuotientIs(v, d, v / d, v % d);
    if q > v / d {
      MulOrder(d, v / d + 1, q);
    }
  }

  /** A trial digit from the leading half words is never below the digit. */
  lemma TrialNotBelow(s: int, dhi: int, v: int, d: int)
    requires d >= dhi * 65536 && dhi > 0 && v >= 0 && s == v / 65536
    ensures s / dhi >= v / d
  {
    var q := v / d;
    ScaledTrial(dhi, v, d, q);
    QuotientReaches(s, dhi, q);
  }

  lemma ScaledTrial(dhi: int, v: int, d: int, q: int)
    requires d >= dhi * 65536 && dhi > 0 && v >= 0 && q == v / d
    ensures dhi * q <= v / 65536
  {
    assert v == d * q + v % d;
    MulOrder(q, dhi * 65536, d);
    MulAssociates(65536, dhi, q);
  }

  lemma QuotientReaches(s: int, p: int, q: int)
    requires p > 0 && p * q <= s
    ensures q <= s / p
  {
    assert s == p * (s / p) + s % p;
    if s / p < q {
      MulOrder(p, s / p + 1, q);
    }
  }

  lemma FirstHalf(hi: word, lo: word, d: word)
    requires d >= 0x8000_0000 && hi < d
    ensures var x := lo + B * hi; var v := x / 65536; var dhi := d / 65536;
      && dhi >= 32768 && v / 65536 == hi && hi / 65536 <= dhi && v / d <= 65535
      && (hi / 65536 < dhi ==> hi / dhi < 65536)
      && v < B * B
  {
    var x, dhi := lo + B * hi, d / 65536;
    var v := x / 65536;
    assert v == 65536 * hi + lo / 65536;
    assert v < 65536 * d;
    QuotientBound(v, d, 65536);
    if hi / 65536 < dhi {
      QuotientBound(hi, dhi, 65536);
    }
  }

  lemma Scaled(q: int, d: int)
    ensures q * (d * 65536) == 65536 * (d * q) == d * (65536 * q)
  {
  }

  /** What is left after the first half digit, and its leading half words. */
  lemma SecondHalf(x: int, d: word, q1: int)
    requires d >= 0x8000_0000 && 0 <= x < B * d && q1 == (x / 65536) / d
    ensures 0 <= q1 * (d * 65536) <= x
    ensures x - q1 * (d * 65536) < d * 65536
    ensures x / d == q1 * 65536 + (x - q1 * (d * 65536)) / d
  {
    Scaled(q1, d);
    RemainderOf(x / 65536, d);
    var e := q1 * (d * 65536);
    assert e == 65536 * (d * q1);
    assert 0 <= d * q1 by { MulOrder(d, 0, q1); }
    var x2 := x - e;
    RemainderOf(x2, d);
    Distribute(d, 65536 * q1, x2 / d);
    QuotientIs(x, d, 65536 * q1 + x2 / d, x2 % d);
  }

  lemma RemainderOf(v: int, d: int)
    requires d > 0
    ensures v == d * (v / d) + v % d && 0 <= v % d < d
  {
  }

  lemma SecondTrial(x2: int, x0: word, x1: word, d: word)
    requires d >= 0x8000_0000 && 0 <= x2 < d * 65536 && x2 == x0 + B * x1
    ensures var s := x1 % 65536 * 65536 + x0 / 65536; var dhi := d / 65536;
      && s == x2 / 65536 && x1 % 65536 == x1 <= dhi && x2 / d <= 65535
      && (x1 < dhi ==> s / dhi < 65536)
  {
    var dhi := d / 65536;
    assert x1 <= dhi;
    assert x2 / 65536 == x1 * 65536 + x0 / 65536;
    QuotientBound(x2, d, 65536);
    if x1 < dhi {
      QuotientBound(x2 / 65536, dhi, 65536);
    }
  }

  lemma Pow16()
    ensures Pow2(16) == 65536
  {
    assert Pow2(8) == 256;
    Pow2Add(8, 8);
  }

  /** One half-word digit: trial from the leading half words, then lowered until its product fits. */
  method HalfDigit(s: word, full: bool, dhi: word, ms2: array<word>, tmp: array<word>, bound: array<word>)
      returns (q: word)
    requires ms2.Length == 1 && tmp.Length >= 2 && bound.Length == 2 && tmp != ms2 && tmp != bound
    requires ms2[0] >= 0x8000_0000 && dhi == ms2[0] / 65536
    requires s == Val(bound[..]) / 65536 || full
    requires Val(bound[..]) / ms2[0] <= 65535 && (!full ==> s / dhi < 65536)
    modifies tmp
    ensures q == Val(bound[..]) / ms2[0]
  {
    hide Val;
    if full {
      q := 0xFFFF;
    } else {
      q := s / dhi % 65536;
      TrialNotBelow(s, dhi, Val(bound[..]), ms2[0]);
    }
    q := LowerDigit(q, ms2, tmp, bound);
  }

  /** The upper half of the quotient, from the number shifted down by half a word. */
  method UpperHalf(big: array<word>, d: word, ms2: array<word>, tmp: array<word>) returns (q: word)
    requires big.Length >= 2 && d >= 0x8000_0000 && big[1] < d
    requires ms2.Length == 1 && ms2[0] == d && tmp.Length >= 2 && tmp != ms2 && tmp != big
    modifies tmp
    ensures q == ((big[0] + B * big[1]) / 65536) / d
  {
    hide Val, Pow2;
    FirstHalf(big[1], big[0], d);
    var tmp2 := new word[2];
    tmp2[0], tmp2[1] := big[0], big[1];
    PairOf(tmp2[..]);
    assert tmp2[..2] == tmp2[..];
    ShiftWordsRight(tmp2, 2, 16);
    Pow16();
    assert tmp2[..2] == tmp2[..];
    var s, dhi := big[1], d / 65536;
    q := HalfDigit(s, s / 65536 % 65536 == dhi, dhi, ms2, tmp, tmp2);
  }

  /** longBigDivide for a normalised divisor, which is how the long divisions call it: the exact quotient. */
  method LongBigDivide(big: array<word>, d: word) returns (r: word)
    requires big.Length >= 2 && d >= 0x8000_0000 && big[1] < d
    ensures r == (big[0] + B * big[1]) / d
  {
    hide Val, Pow2;
    ghost var v := big[0] + B * big[1];
    var ms2 := new word[1](_ => d);
    var tmp := new word[3](_ => 0);
    var q1 := UpperHalf(big, d, ms2, tmp);
    SecondHalf(v, d, q1);
    var x := new word[2];
    x[0], x[1] := big[0], big[1];
    SubtractHalf(x, tmp, q1, d);
    ghost var x2 := v - q1 * (d * 65536);
    SecondTrial(x2, x[0], x[1], d);
    PairOf(x[..]);
    var s, dhi := x[1] % 65536 * 65536 + x[0] / 65536, d / 65536;
    var q2 := HalfDigit(s, x[1] % 65536 == dhi, dhi, ms2, tmp, x);
    QuotientBound(v, d, B);
    r := q1 * 65536 + q2;
  }

  /** x := x - q * d * 2^16 in place; the product is never above x, so the add-back of the source is not reached. */
  method SubtractHalf(x: array<word>, tmp: array<word>, q: word, d: word)
    requires x.Length == 2 && tmp.Length == 3 && x != tmp
    requires q * (d * 65536) <= x[0] + B * x[1]
    modifies x, tmp
    ensures x[0] + B * x[1] == old(x[0] + B * x[1]) - q * (d * 65536)
  {
    var div := new word[2];
    div[0], div[1] := Wrap(d * 65536), d / 65536;
    PairOf(div[..]);
    assert Val(div[..]) == d * 65536;
    PairOf(x[..]);
    ValBound(x[..]);
    RowTimes(tmp, q, div, Val(x[..]));
    assert x[..2] == x[..];
    SubtractPair(x, tmp);
  }

  /** The three-word product of one word and a row of two, when it fits two words. */
  method RowTimes(tmp: array<word>, q: word, div: array<word>, ghost bound: int)
    requires tmp.Length == 3 && div.Length == 2 && tmp != div
    requires q * Val(div[..]) <= bound < Shift(2, 1)
    modifies tmp
    ensures Val(tmp[..2]) == q * Val(div[..])
  {
    hide Val, Shift;
    tmp[0], tmp[1], tmp[2] := 0, 0, 0;
    PairOf(tmp[0..2]);
    assert div[0..2] == div[..];
    tmp[2] := LMULT(tmp, 0, q, div, 0, 2);
    assert tmp[0..2] == tmp[..2];
    CarryGone(tmp[..2], tmp[2], q * Val(div[..]));
  }

  lemma CarryGone(z: seq<word>, c: word, v: int)
    requires |z| == 2 && Val(z) + Shift(2, c) == v < Shift(2, 1)
    ensures Val(z) == v
  {
  }

  method SubtractPair(x: array<word>, y: array<word>)
    requires x.Length == 2 && y.Length >= 2 && x != y
    requires Val(y[..2]) <= Val(x[..2])
    modifies x
    ensures x[0] + B * x[1] == old(Val(x[..2])) - old(Val(y[..2]))
  {
    hide Val;
    PairOf(x[..2]);
    PairOf(y[..2]);
    var carry := 0;
    x[0], carry := SubStep(x[0], y[0], carry);
    x[1], carry := SubStep(x[1], y[1], carry);
  }
}
