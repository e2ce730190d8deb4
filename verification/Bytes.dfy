/** Bytes, and numbers as bytes. */
module Bytes {
  type byte = x: int | 0 <= x < 256

  function Zeros(n: nat): (z: seq<byte>)
    ensures |z| == n && forall i :: 0 <= i < n ==> z[i] == 0
  {
    seq(n, _ => 0)
  }

  /** The n low bytes of an integer, least significant first. */
  function Le(x: int, n: nat): (s: seq<byte>)
    ensures |s| == n
    decreases n
  {
    if n == 0 then [] else [x % 256] + Le(x / 256, n - 1)
  }

  function FromLe(s: seq<byte>): nat {
    if |s| == 0 then 0 else s[0] + 256 * FromLe(s[1..])
  }

  lemma {:induction false} FromLeLe(x: int, n: nat)
    requires 0 <= x < Pow(n)
    ensures FromLe(Le(x, n)) == x
    decreases n
  {
    if n > 0 {
      assert Le(x, n)[1..] == Le(x / 256, n - 1);
      FromLeLe(x / 256, n - 1);
    }
  }

  function Pow(n: nat): nat {
    if n == 0 then 1 else 256 * Pow(n - 1)
  }

  lemma Pows()
    ensures Pow(1) == 0x100 && Pow(2) == 0x1_0000 && Pow(4) == 0x1_0000_0000
  {
    assert Pow(3) == 0x100_0000;
  }

  /** The low bytes do not change when a multiple of their range is added. */
  lemma {:induction false} LeWraps(x: int, n: nat)
    ensures Le(x + Pow(n), n) == Le(x, n)
    decreases n
  {
    if n > 0 {
      assert (x + 256 * Pow(n - 1)) / 256 == x / 256 + Pow(n - 1);
      LeWraps(x / 256, n - 1);
    }
  }

  lemma {:induction false} FromLeBound(s: seq<byte>)
    ensures FromLe(s) < Pow(|s|)
  {
    if |s| > 0 {
      FromLeBound(s[1..]);
    }
  }

  /** The n low bytes of an integer, most significant first. */
  function Be(x: int, n: nat): (s: seq<byte>)
    ensures |s| == n
    decreases n
  {
    if n == 0 then [] else Be(x / 256, n - 1) + [x % 256]
  }

  function FromBe(s: seq<byte>): nat {
    if |s| == 0 then 0 else 256 * FromBe(s[..|s| - 1]) + s[|s| - 1]
  }

  lemma {:induction false} FromBeBe(x: int, n: nat)
    requires 0 <= x < Pow(n)
    ensures FromBe(Be(x, n)) == x
    decreases n
  {
    if n > 0 {
      assert Be(x, n)[..n - 1] == Be(x / 256, n - 1);
      FromBeBe(x / 256, n - 1);
    }
  }
}
