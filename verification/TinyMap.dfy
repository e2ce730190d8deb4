/**
  The bitmap of used blocks of the tiny file system: eight blocks to a byte, the places past the
  end of the medium set for good.
 */
module TinyMap {
  import opened TinyBlocks

  function Mask(j: nat): bv8
    requires j < 8
  {
    match j
    case 0 => 0x01
    case 1 => 0x02
    case 2 => 0x04
    case 3 => 0x08
    case 4 => 0x10
    case 5 => 0x20
    case 6 => 0x40
    case 7 => 0x80
  }

  predicate Bit(x: bv8, j: nat)
    requires j < 8
  {
    x & Mask(j) != 0
  }

  lemma SetBit(x: bv8, j: nat, k: nat)
    requires j < 8 && k < 8
    ensures Bit(x | Mask(j), k) <==> k == j || Bit(x, k)
  {
  }

  lemma ClearBit(x: bv8, j: nat, k: nat)
    requires j < 8 && k < 8
    ensures Bit(x & !Mask(j), k) <==> k != j && Bit(x, k)
  {
  }

  lemma FullByte(x: bv8)
    ensures x == 0xff <==> forall k :: 0 <= k < 8 ==> Bit(x, k)
  {
    assert Bit(x, 0) && Bit(x, 1) && Bit(x, 2) && Bit(x, 3) && Bit(x, 4) && Bit(x, 5) && Bit(x, 6) && Bit(x, 7) ==>
      x == 0xff;
    if x == 0xff {
      forall k: nat | k < 8
        ensures Bit(x, k)
      {
      }
    }
  }

  /** The places whose bit is set. */
  ghost function Used(m: seq<bv8>): set<nat> {
    set b: nat | b < 8 * |m| && Bit(m[b / 8], b % 8)
  }

  predicate IsSet(m: seq<bv8>, b: nat)
    requires b < 8 * |m|
  {
    Bit(m[b / 8], b % 8)
  }

  lemma UsedIs(m: seq<bv8>, b: nat)
    ensures b in Used(m) <==> b < 8 * |m| && IsSet(m, b)
  {
  }

  /** Changing one bit of one byte changes one place. */
  lemma OneBit(m: seq<bv8>, c: nat, x: bv8, v: bool)
    requires c < 8 * |m|
    requires forall k: nat :: k < 8 ==> (Bit(x, k) <==> if k == c % 8 then v else Bit(m[c / 8], k))
    ensures Used(m[c / 8 := x]) == if v then Used(m) + {c} else Used(m) - {c}
  {
    hide Bit, Mask;
    var m' := m[c / 8 := x];
    forall b: nat
      ensures b in Used(m') <==> if b == c then v else b in Used(m)
    {
      Places(b, c);
    }
  }

  /** mapset */
  method MapSet(bits: array<bv8>, bno: nat)
    requires bno < 8 * bits.Length
    modifies bits
    ensures Used(bits[..]) == old(Used(bits[..])) + {bno}
  {
    ghost var m := bits[..];
    var x := bits[bno / 8] | Mask(bno % 8);
    forall k: nat | k < 8
      ensures Bit(x, k) <==> k == bno % 8 || Bit(m[bno / 8], k)
    {
      SetBit(m[bno / 8], bno % 8, k);
    }
    OneBit(m, bno, x, true);
    bits[bno / 8] := x;
    assert bits[..] == m[bno / 8 := x];
  }

  /** mapclr */
  method MapClr(bits: array<bv8>, bno: nat)
    requires bno < 8 * bits.Length
    modifies bits
    ensures Used(bits[..]) == old(Used(bits[..])) - {bno}
  {
    ghost var m := bits[..];
    var x := bits[bno / 8] & !Mask(bno % 8);
    forall k: nat | k < 8
      ensures Bit(x, k) <==> k != bno % 8 && Bit(m[bno / 8], k)
    {
      ClearBit(m[bno / 8], bno % 8, k);
    }
    OneBit(m, bno, x, false);
    bits[bno / 8] := x;
    assert bits[..] == m[bno / 8 := x];
  }

  lemma Places(b: nat, c: nat)
    ensures b == c <==> b / 8 == c / 8 && b % 8 == c % 8
  {
  }

  /** mapalloc: the lowest free place, or none if all are taken. */
  method MapAlloc(bits: array<bv8>) returns (bno: nat)
    requires forall b: nat :: NOTABNO <= b < 8 * bits.Length ==> b in Used(bits[..])
    modifies bits
    ensures bno == NOTABNO ==> bits[..] == old(bits[..]) && forall b: nat :: b < 8 * bits.Length ==> b in Used(bits[..])
    ensures bno != NOTABNO ==>
      bno < 8 * bits.Length && bno !in old(Used(bits[..])) && Used(bits[..]) == old(Used(bits[..])) + {bno}
    ensures bno != NOTABNO ==> forall b: nat :: b < bno ==> b in old(Used(bits[..]))
  {
    ghost var m := bits[..];
    var i := 0;
    while i < bits.Length
      invariant 0 <= i <= bits.Length && bits[..] == m
      invariant forall b: nat :: b < 8 * i ==> b in Used(m)
    {
      var x := bits[i];
      FullByte(x);
      if x != 0xff {
        var j := 0;
        while j < 8
          invariant 0 <= j <= 8 && bits[..] == m
          invariant forall k :: 0 <= k < j ==> Bit(x, k)
        {
          if !Bit(x, j) {
            forall b: nat | b < 8 * i + j
              ensures b in Used(m)
            {
              if b >= 8 * i {
                assert b / 8 == i && b % 8 == b - 8 * i;
              }
            }
            bno := i * 8 + j;
            MapSet(bits, bno);
            return;
          }
          j := j + 1;
        }
      }
      i := i + 1;
    }
    bno := NOTABNO;
  }
}
