/**
  DES on one block (crypt/des.c): the bit permutations at both ends, and the rounds between them. The
  round function, the S-boxes with their rotations, is a parameter.
 */
module Des {
  type Text = s: seq<bv8> | |s| == 8 witness [0, 0, 0, 0, 0, 0, 0, 0]

  /** Two words of expanded key and half of the text to what is added to the other half. */
  type RoundFunction = (bv32, bv32, bv32) -> bv32

  /** The expanded key, two words a round. */
  type Key = k: seq<bv32> | |k| == 32 witness seq(32, _ => 0)

  datatype Halves = Halves(left: bv32, right: bv32)

  function Swapped(h: Halves): Halves {
    Halves(h.right, h.left)
  }

  function Shuffle6(v: bv32): bv32 {
    ((v << 6) & 0x33003300) | (v & 0xcc33cc33) | ((v >> 6) & 0x00cc00cc)
  }

  function Shuffle12(v: bv32): bv32 {
    ((v << 12) & 0x0f0f0000) | (v & 0xf0f00f0f) | ((v >> 12) & 0x0000f0f0)
  }

  /** The initial permutation of the two words of the text. */
  function Initial(v0: bv32, v1: bv32): Halves {
    var right := (v1 & 0xaaaaaaaa) | ((v0 >> 1) & 0x55555555);
    var left := ((v1 << 1) & 0xaaaaaaaa) | (v0 & 0x55555555);
    Halves(Shuffle12(Shuffle6(left)), Shuffle12(Shuffle6(right)))
  }

  /** The final permutation, to two words. */
  function Final(h: Halves): (bv32, bv32) {
    var v0 := ((h.left << 1) & 0xaaaaaaaa) | (h.right & 0x55555555);
    var v1 := (h.left & 0xaaaaaaaa) | ((h.right >> 1) & 0x55555555);
    (Shuffle12(Shuffle6(v0)), Shuffle12(Shuffle6(v1)))
  }

  /** The final permutation undoes the initial one, with the halves exchanged. */
  lemma FinalInitial(v0: bv32, v1: bv32)
    ensures Final(Swapped(Initial(v0, v1))) == (v0, v1)
  {
  }

  lemma InitialFinalLeft(l: bv32, r: bv32)
    ensures Initial(Final(Halves(l, r)).0, Final(Halves(l, r)).1).left == r
  {
  }

  lemma InitialFinalRight(l: bv32, r: bv32)
    ensures Initial(Final(Halves(l, r)).0, Final(Halves(l, r)).1).right == l
  {
  }

  lemma InitialFinal(h: Halves)
    ensures Initial(Final(h).0, Final(h).1) == Swapped(h)
  {
    hide Initial, Final;
    InitialFinalLeft(h.left, h.right);
    InitialFinalRight(h.left, h.right);
  }

  function Word(a: bv8, b: bv8, c: bv8, d: bv8): bv32 {
    (a as bv32) | ((b as bv32) << 8) | ((c as bv32) << 16) | ((d as bv32) << 24)
  }

  function ByteOf(v: bv32, k: nat): bv8
    requires k < 4
  {
    var w := match k case 0 => v case 1 => v >> 8 case 2 => v >> 16 case _ => v >> 24;
    (w & 0xff) as bv8
  }

  lemma WordBytes(a: bv8, b: bv8, c: bv8, d: bv8)
    ensures ByteOf(Word(a, b, c, d), 0) == a && ByteOf(Word(a, b, c, d), 1) == b
    ensures ByteOf(Word(a, b, c, d), 2) == c && ByteOf(Word(a, b, c, d), 3) == d
  {
  }

  lemma BytesWord(v: bv32)
    ensures Word(ByteOf(v, 0), ByteOf(v, 1), ByteOf(v, 2), ByteOf(v, 3)) == v
  {
  }

  type Pair = (bv32, bv32)

  /** The words of the expanded key, two a round. */
  function Pairs(key: Key): (ks: seq<Pair>)
    ensures |ks| == 16
  {
    seq(16, i requires 0 <= i < 16 => (key[2 * i], key[2 * i + 1]))
  }

  function Reversed(ks: seq<Pair>): (r: seq<Pair>)
    ensures |r| == |ks|
  {
    if |ks| == 0 then [] else Reversed(ks[1..]) + [ks[0]]
  }

  /** One round: the halves change places, one with the round function of the other added. */
  function Turn(f: RoundFunction, k: Pair, h: Halves): Halves {
    Halves(h.right, h.left ^ f(k.0, k.1, h.right))
  }

  lemma TurnBack(f: RoundFunction, k: Pair, h: Halves)
    ensures Turn(f, k, Swapped(Turn(f, k, h))) == Swapped(h)
  {
    XorTwice(h.left, f(k.0, k.1, h.right));
  }

  lemma XorTwice(a: bv32, x: bv32)
    ensures (a ^ x) ^ x == a
  {
  }

  /** Rounds with a subkey each. */
  function Rounds(f: RoundFunction, ks: seq<Pair>, h: Halves): Halves
    decreases |ks|
  {
    if |ks| == 0 then h else Rounds(f, ks[1..], Turn(f, ks[0], h))
  }

  lemma {:induction false} RoundsSnoc(f: RoundFunction, ks: seq<Pair>, k: Pair, h: Halves)
    ensures Rounds(f, ks + [k], h) == Turn(f, k, Rounds(f, ks, h))
    decreases |ks|
  {
    hide Turn;
    if |ks| == 0 {
      assert ks + [k] == [k] && [k][1..] == [];
    } else {
      RoundsSnoc(f, ks[1..], k, Turn(f, ks[0], h));
      assert (ks + [k])[1..] == ks[1..] + [k];
    }
  }

  /** The rounds with the subkeys backwards undo the rounds, whatever the round function is. */
  lemma {:induction false} RoundsBack(f: RoundFunction, ks: seq<Pair>, h: Halves)
    ensures Rounds(f, Reversed(ks), Swapped(Rounds(f, ks, h))) == Swapped(h)
    decreases |ks|
  {
    hide Turn, Swapped;
    if |ks| > 0 {
      RoundsBack(f, ks[1..], Turn(f, ks[0], h));
      RoundsSnoc(f, Reversed(ks[1..]), ks[0], Swapped(Rounds(f, ks, h)));
      TurnBack(f, ks[0], h);
    }
  }

  lemma {:induction false} ReversedSnoc(ks: seq<Pair>, k: Pair)
    ensures Reversed(ks + [k]) == [k] + Reversed(ks)
    decreases |ks|
  {
    if |ks| == 0 {
      assert ks + [k] == [k] && [k][1..] == [];
    } else {
      ReversedSnoc(ks[1..], k);
      assert (ks + [k])[1..] == ks[1..] + [k];
    }
  }

  lemma {:induction false} ReversedTwice(ks: seq<Pair>)
    ensures Reversed(Reversed(ks)) == ks
    decreases |ks|
  {
    if |ks| > 0 {
      ReversedTwice(ks[1..]);
      ReversedSnoc(Reversed(ks[1..]), ks[0]);
    }
  }

  lemma {:induction false} ReversedAt(ks: seq<Pair>, i: nat)
    requires i < |ks|
    ensures Reversed(ks)[i] == ks[|ks| - 1 - i]
    decreases |ks|
  {
    if i < |ks| - 1 {
      ReversedAt(ks[1..], i);
    }
  }

  /** The subkeys in the order the cipher takes them. */
  function Schedule(key: Key, decrypting: bool): (ks: seq<Pair>)
    ensures |ks| == 16
  {
    if decrypting then Reversed(Pairs(key)) else Pairs(key)
  }

  function Loaded(t: Text): Halves {
    Initial(Word(t[0], t[2], t[4], t[6]), Word(t[1], t[3], t[5], t[7]))
  }

  function Stored(h: Halves): (t: Text)
    ensures |t| == 8
  {
    var v := Final(h);
    [ByteOf(v.0, 0), ByteOf(v.1, 0), ByteOf(v.0, 1), ByteOf(v.1, 1), ByteOf(v.0, 2), ByteOf(v.1, 2), ByteOf(v.0, 3),
      ByteOf(v.1, 3)]
  }

  lemma LoadedStored(h: Halves)
    ensures Loaded(Stored(h)) == Swapped(h)
  {
    var v := Final(h);
    BytesWord(v.0);
    BytesWord(v.1);
    InitialFinal(h);
    hide Word, ByteOf, Final, Initial;
  }

  lemma StoredLoaded(t: Text)
    ensures Stored(Swapped(Loaded(t))) == t
  {
    WordBytes(t[0], t[2], t[4], t[6]);
    WordBytes(t[1], t[3], t[5], t[7]);
    FinalInitial(Word(t[0], t[2], t[4], t[6]), Word(t[1], t[3], t[5], t[7]));
    hide Word, ByteOf, Final, Initial;
  }

  /** The bit of a byte under a mask. */
  function Bit(b: bv8, mask: bv8): bv8 {
    if b & mask != 0 then 1 else 0
  }

  /** One bit of each of eight bytes, the last byte's first. */
  function Column(a: bv8, b: bv8, c: bv8, d: bv8, e: bv8, f: bv8, g: bv8, h: bv8, mask: bv8): bv8 {
    (Bit(h, mask) << 7) | (Bit(g, mask) << 6) | (Bit(f, mask) << 5) | (Bit(e, mask) << 4)
    | (Bit(d, mask) << 3) | (Bit(c, mask) << 2) | (Bit(b, mask) << 1) | Bit(a, mask)
  }

  function ColumnOf(t: Text, mask: bv8): bv8 {
    Column(t[0], t[1], t[2], t[3], t[4], t[5], t[6], t[7], mask)
  }

  /** A half has these bits of the text, a byte from each mask. */
  predicate Picks(v: bv32, t: Text, w: bv8, x: bv8, y: bv8, z: bv8) {
    && ByteOf(v, 3) == ColumnOf(t, w) && ByteOf(v, 2) == ColumnOf(t, x)
    && ByteOf(v, 1) == ColumnOf(t, y) && ByteOf(v, 0) == ColumnOf(t, z)
  }

  /**
    The table of the initial permutation of FIPS 46-3: the left half has bits 58, 50 and so on to 2 of the text, then
    60 to 4, 62 to 6 and 64 to 8; the right half bits 57 to 1, 59 to 3, 61 to 5 and 63 to 7.
   */
  lemma InitialTable(t: Text)
    ensures Picks(Loaded(t).left, t, 0x40, 0x10, 0x04, 0x01) && Picks(Loaded(t).right, t, 0x80, 0x20, 0x08, 0x02)
  {
    Left0(t[0], t[1], t[2], t[3], t[4], t[5], t[6], t[7]);
    Left1(t[0], t[1], t[2], t[3], t[4], t[5], t[6], t[7]);
    Left2(t[0], t[1], t[2], t[3], t[4], t[5], t[6], t[7]);
    Left3(t[0], t[1], t[2], t[3], t[4], t[5], t[6], t[7]);
    Right0(t[0], t[1], t[2], t[3], t[4], t[5], t[6], t[7]);
    Right1(t[0], t[1], t[2], t[3], t[4], t[5], t[6], t[7]);
    Right2(t[0], t[1], t[2], t[3], t[4], t[5], t[6], t[7]);
    Right3(t[0], t[1], t[2], t[3], t[4], t[5], t[6], t[7]);
    hide Initial, ByteOf, Column, Word;
  }

  lemma Left0(a: bv8, b: bv8, c: bv8, d: bv8, e: bv8, f: bv8, g: bv8, h: bv8)
    ensures ByteOf(Initial(Word(a, c, e, g), Word(b, d, f, h)).left, 0) == Column(a, b, c, d, e, f, g, h, 0x01)
  {
  }

  lemma Left1(a: bv8, b: bv8, c: bv8, d: bv8, e: bv8, f: bv8, g: bv8, h: bv8)
    ensures ByteOf(Initial(Word(a, c, e, g), Word(b, d, f, h)).left, 1) == Column(a, b, c, d, e, f, g, h, 0x04)
  {
  }

  lemma Left2(a: bv8, b: bv8, c: bv8, d: bv8, e: bv8, f: bv8, g: bv8, h: bv8)
    ensures ByteOf(Initial(Word(a, c, e, g), Word(b, d, f, h)).left, 2) == Column(a, b, c, d, e, f, g, h, 0x10)
  {
  }

  lemma Left3(a: bv8, b: bv8, c: bv8, d: bv8, e: bv8, f: bv8, g: bv8, h: bv8)
    ensures ByteOf(Initial(Word(a, c, e, g), Word(b, d, f, h)).left, 3) == Column(a, b, c, d, e, f, g, h, 0x40)
  {
  }

  lemma Right0(a: bv8, b: bv8, c: bv8, d: bv8, e: bv8, f: bv8, g: bv8, h: bv8)
    ensures ByteOf(Initial(Word(a, c, e, g), Word(b, d, f, h)).right, 0) == Column(a, b, c, d, e, f, g, h, 0x02)
  {
  }

  lemma Right1(a: bv8, b: bv8, c: bv8, d: bv8, e: bv8, f: bv8, g: bv8, h: bv8)
    ensures ByteOf(Initial(Word(a, c, e, g), Word(b, d, f, h)).right, 1) == Column(a, b, c, d, e, f, g, h, 0x08)
  {
  }

  lemma Right2(a: bv8, b: bv8, c: bv8, d: bv8, e: bv8, f: bv8, g: bv8, h: bv8)
    ensures ByteOf(Initial(Word(a, c, e, g), Word(b, d, f, h)).right, 2) == Column(a, b, c, d, e, f, g, h, 0x20)
  {
  }

  lemma Right3(a: bv8, b: bv8, c: bv8, d: bv8, e: bv8, f: bv8, g: bv8, h: bv8)
    ensures ByteOf(Initial(Word(a, c, e, g), Word(b, d, f, h)).right, 3) == Column(a, b, c, d, e, f, g, h, 0x80)
  {
  }

  /** That of the final permutation is its inverse, with the halves exchanged. */
  lemma FinalTable(h: Halves, t: Text)
    requires Picks(h.right, t, 0x40, 0x10, 0x04, 0x01) && Picks(h.left, t, 0x80, 0x20, 0x08, 0x02)
    ensures Stored(h) == t
  {
    InitialTable(t);
    StoredLoaded(t);
    BytesWord(h.left);
    BytesWord(h.right);
    BytesWord(Loaded(t).left);
    BytesWord(Loaded(t).right);
    hide Loaded, Stored, Column, ByteOf, Word;
  }

  /** block_cipher on a value. */
  function Cipher(f: RoundFunction, key: Key, t: Text, decrypting: bool): (u: Text)
    ensures |u| == 8
  {
    Stored(Rounds(f, Schedule(key, decrypting), Loaded(t)))
  }

  /** Decryption undoes encryption, and encryption decryption, for any round function and any expanded key. */
  lemma CipherInverse(f: RoundFunction, key: Key, t: Text, decrypting: bool)
    ensures Cipher(f, key, Cipher(f, key, t, decrypting), !decrypting) == t
  {
    hide Word, ByteOf, Final, Initial, Loaded, Stored;
    var ks, h := Schedule(key, decrypting), Loaded(t);
    LoadedStored(Rounds(f, ks, h));
    RoundsBack(f, ks, h);
    ReversedTwice(Pairs(key));
    StoredLoaded(t);
  }

  lemma {:induction false} RoundsFrom(f: RoundFunction, ks: seq<Pair>, hs: seq<Halves>, i: nat)
    requires |hs| == |ks| + 1 && i <= |ks|
    requires forall n :: 0 <= n < |ks| ==>
      hs[n + 1] == Halves(hs[n].right, hs[n].left ^ f(ks[n].0, ks[n].1, hs[n].right))
    ensures Rounds(f, ks[i..], hs[i]) == hs[|ks|]
    decreases |ks| - i
  {
    if i < |ks| {
      RoundsFrom(f, ks, hs, i + 1);
      assert ks[i..][1..] == ks[i + 1..];
    }
  }

  /**
    The sixteen rounds of FIPS 46-3: each half is the other one of before, the right with the round function of the
    right half and this round's subkey added; to decrypt the subkeys are taken from the last.
   */
  lemma SixteenRounds(f: RoundFunction, key: Key, t: Text, decrypting: bool, hs: seq<Halves>)
    requires |hs| == 17 && hs[0] == Loaded(t)
    requires forall n :: 0 <= n < 16 ==>
      var j := if decrypting then 30 - 2 * n else 2 * n;
      hs[n + 1] == Halves(hs[n].right, hs[n].left ^ f(key[j], key[j + 1], hs[n].right))
    ensures Cipher(f, key, t, decrypting) == Stored(hs[16])
  {
    var ks := Schedule(key, decrypting);
    hide Loaded, Stored, Rounds, Schedule;
    forall n | 0 <= n < 16
      ensures hs[n + 1] == Halves(hs[n].right, hs[n].left ^ f(ks[n].0, ks[n].1, hs[n].right))
    {
      ScheduleAt(key, decrypting, n);
    }
    RoundsFrom(f, ks, hs, 0);
    assert ks[0..] == ks;
  }

  /** block_cipher, in place. */
  method BlockCipher(f: RoundFunction, key: Key, text: array<bv8>, off: nat, decrypting: bool)
    requires off + 8 <= text.Length
    modifies text
    ensures text[off..off + 8] == Cipher(f, key, old(text[off..off + 8]), decrypting)
    ensures forall j :: 0 <= j < text.Length && !(off <= j < off + 8) ==> text[j] == old(text[j])
  {
    ghost var t: Text := text[off..off + 8];
    ghost var ks := Schedule(key, decrypting);
    var h := Initial(Word(text[off], text[off + 2], text[off + 4], text[off + 6]),
      Word(text[off + 1], text[off + 3], text[off + 5], text[off + 7]));
    assert h == Loaded(t);
    hide Word, ByteOf, Final, Initial;
    var left, right := TheRounds(f, key, h.left, h.right, decrypting);
    Store(text, off, Halves(left, right));
  }

  /** The bytes go back where they came from. */
  method Store(text: array<bv8>, off: nat, h: Halves)
    requires off + 8 <= text.Length
    modifies text
    ensures text[off..off + 8] == Stored(h)
    ensures forall j :: 0 <= j < text.Length && !(off <= j < off + 8) ==> text[j] == old(text[j])
  {
    hide ByteOf, Final;
    var v := Final(h);
    ghost var s := Stored(h);
    assert s[0] == ByteOf(v.0, 0) && s[2] == ByteOf(v.0, 1) && s[4] == ByteOf(v.0, 2) && s[6] == ByteOf(v.0, 3);
    assert s[1] == ByteOf(v.1, 0) && s[3] == ByteOf(v.1, 1) && s[5] == ByteOf(v.1, 2) && s[7] == ByteOf(v.1, 3);
    hide Stored;
    Spread(text, off, v.0);
    Spread(text, off + 1, v.1);
    SameEight(text[off..off + 8], s);
  }

  /** The bytes of a word go to every second place. */
  method Spread(text: array<bv8>, p: nat, v: bv32)
    requires p + 7 <= text.Length
    modifies text
    ensures text[p] == ByteOf(v, 0) && text[p + 2] == ByteOf(v, 1) && text[p + 4] == ByteOf(v, 2)
      && text[p + 6] == ByteOf(v, 3)
    ensures forall j :: 0 <= j < text.Length && j != p && j != p + 2 && j != p + 4 && j != p + 6 ==>
      text[j] == old(text[j])
  {
    hide ByteOf;
    text[p], text[p + 2], text[p + 4], text[p + 6] := ByteOf(v, 0), ByteOf(v, 1), ByteOf(v, 2), ByteOf(v, 3);
  }

  lemma SameEight(s: seq<bv8>, t: seq<bv8>)
    requires |s| == |t| == 8 && s[0] == t[0] && s[1] == t[1] && s[2] == t[2] && s[3] == t[3]
    requires s[4] == t[4] && s[5] == t[5] && s[6] == t[6] && s[7] == t[7]
    ensures s == t
  {
  }

  /** One half of the text takes in the other. */
  method HalfStep(f: RoundFunction, k: Pair, a: bv32, b: bv32) returns (c: bv32)
    ensures Turn(f, k, Halves(a, b)) == Halves(b, c)
  {
    c := a ^ f(k.0, k.1, b);
  }

  /** Eight times two rounds; the key is walked backwards to decrypt. */
  method TheRounds(f: RoundFunction, key: Key, l: bv32, r: bv32, decrypting: bool) returns (left: bv32, right: bv32)
    ensures Halves(left, right) == Rounds(f, Schedule(key, decrypting), Halves(l, r))
  {
    hide Rounds, Schedule, Turn;
    ghost var ks := Schedule(key, decrypting);
    left, right := l, r;
    var k := if decrypting then 30 else 0;
    var keystep := if decrypting then -2 else 2;
    var i := 0;
    assert ks[0..] == ks;
    while i < 8
      invariant 0 <= i <= 8 && k == if decrypting then 30 - 4 * i else 4 * i
      invariant Rounds(f, ks[2 * i..], Halves(left, right)) == Rounds(f, ks, Halves(l, r))
    {
      ScheduleAt(key, decrypting, 2 * i);
      ScheduleAt(key, decrypting, 2 * i + 1);
      TwoRounds(f, ks, 2 * i, Halves(left, right));
      left := HalfStep(f, (key[k], key[k + 1]), left, right);
      k := k + keystep;
      right := HalfStep(f, (key[k], key[k + 1]), right, left);
      k := k + keystep;
      i := i + 1;
    }
    NoRounds(f, ks, Halves(left, right));
  }

  lemma NoRounds(f: RoundFunction, ks: seq<Pair>, h: Halves)
    ensures Rounds(f, ks[|ks|..], h) == h
  {
  }

  lemma TwoRounds(f: RoundFunction, ks: seq<Pair>, i: nat, h: Halves)
    requires i + 2 <= |ks|
    ensures Rounds(f, ks[i..], h) == Rounds(f, ks[i + 2..], Turn(f, ks[i + 1], Turn(f, ks[i], h)))
  {
    hide Turn;
    assert ks[i..][1..] == ks[i + 1..] && ks[i + 1..][1..] == ks[i + 2..];
    assert Rounds(f, ks[i..], h) == Rounds(f, ks[i + 1..], Turn(f, ks[i], h));
  }

  lemma ScheduleAt(key: Key, decrypting: bool, j: nat)
    requires j < 16
    ensures Schedule(key, decrypting)[j] == if decrypting then (key[30 - 2 * j], key[31 - 2 * j])
      else (key[2 * j], key[2 * j + 1])
  {
    ReversedAt(Pairs(key), j);
  }

  const NOKEY: Key := seq(32, _ => 0)

  /** Three expanded keys, and for each pass whether it decrypts. */
  type Keys = k: seq<Key> | |k| == 3 witness [NOKEY, NOKEY, NOKEY]

  type Mode = m: seq<bool> | |m| == 3 witness [false, true, false]

  /** A pass decrypts with the keys taken from the other end. */
  function PassKeys(keys: Keys, m: Mode, j: nat): seq<Pair>
    requires j < 3
  {
    if m[j] then Schedule(keys[2 - j], true) else Schedule(keys[j], false)
  }

  function Pass(f: RoundFunction, keys: Keys, m: Mode, j: nat, h: Halves): Halves
    requires j < 3
  {
    Swapped(Rounds(f, PassKeys(keys, m, j), h))
  }

  /** triple_block_cipher on a value. */
  function Triple(f: RoundFunction, keys: Keys, t: Text, m: Mode): (u: Text) {
    Stored(Swapped(Pass(f, keys, m, 2, Pass(f, keys, m, 1, Pass(f, keys, m, 0, Loaded(t))))))
  }

  /** The passes are three block ciphers. */
  lemma TripleIsThree(f: RoundFunction, keys: Keys, t: Text, m: Mode)
    ensures var a := Cipher(f, keys[if m[0] then 2 else 0], t, m[0]);
      var b := Cipher(f, keys[1], a, m[1]);
      Triple(f, keys, t, m) == Cipher(f, keys[if m[2] then 0 else 2], b, m[2])
  {
    hide Loaded, Stored, Rounds, Schedule;
    var a := Cipher(f, keys[if m[0] then 2 else 0], t, m[0]);
    LoadedStored(Rounds(f, PassKeys(keys, m, 0), Loaded(t)));
    LoadedStored(Rounds(f, PassKeys(keys, m, 1), Loaded(a)));
    assert Loaded(a) == Pass(f, keys, m, 0, Loaded(t));
  }

  /** The mode that undoes a mode: the opposite of each pass, last first. */
  function Opposite(m: Mode): Mode {
    [!m[2], !m[1], !m[0]]
  }

  lemma PassBack(f: RoundFunction, keys: Keys, m: Mode, j: nat, h: Halves)
    requires j < 3
    ensures Pass(f, keys, Opposite(m), 2 - j, Pass(f, keys, m, j, h)) == h
  {
    var ks := PassKeys(keys, m, j);
    OppositeKeys(keys, m, j);
    RoundsBack(f, ks, h);
    hide PassKeys, Rounds, Reversed;
  }

  lemma OppositeKeys(keys: Keys, m: Mode, j: nat)
    requires j < 3
    ensures PassKeys(keys, Opposite(m), 2 - j) == Reversed(PassKeys(keys, m, j))
  {
    var key := keys[if m[j] then 2 - j else j];
    ReversedTwice(Pairs(key));
    assert Opposite(m)[2 - j] == !m[j];
    hide Pairs, Reversed;
  }

  lemma TripleInverse(f: RoundFunction, keys: Keys, t: Text, m: Mode)
    ensures Triple(f, keys, Triple(f, keys, t, m), Opposite(m)) == t
  {
    hide Pass, Loaded, Stored;
    var h := Loaded(t);
    var a := Pass(f, keys, m, 0, h);
    var b := Pass(f, keys, m, 1, a);
    var c := Pass(f, keys, m, 2, b);
    LoadedStored(Swapped(c));
    PassBack(f, keys, m, 2, b);
    PassBack(f, keys, m, 1, a);
    PassBack(f, keys, m, 0, h);
    StoredLoaded(t);
  }

  /** triple_block_cipher, in place; ende has a bit for each pass. */
  method TripleBlockCipher(f: RoundFunction, keys: Keys, text: array<bv8>, off: nat, ende: nat)
    requires off + 8 <= text.Length
    modifies text
    ensures text[off..off + 8] ==
      Triple(f, keys, old(text[off..off + 8]), [ende % 2 == 1, ende / 2 % 2 == 1, ende / 4 % 2 == 1])
    ensures forall j :: 0 <= j < text.Length && !(off <= j < off + 8) ==> text[j] == old(text[j])
  {
    ghost var t: Text := text[off..off + 8];
    ghost var m: Mode := [ende % 2 == 1, ende / 2 % 2 == 1, ende / 4 % 2 == 1];
    var h := Initial(Word(text[off], text[off + 2], text[off + 4], text[off + 6]),
      Word(text[off + 1], text[off + 3], text[off + 5], text[off + 7]));
    assert h == Loaded(t);
    hide Word, ByteOf, Final, Initial, Loaded, Stored;
    h := APass(f, keys, m, 0, ende, h);
    h := APass(f, keys, m, 1, ende / 2, h);
    h := APass(f, keys, m, 2, ende / 4, h);
    Store(text, off, Halves(h.right, h.left));
  }

  method APass(f: RoundFunction, keys: Keys, ghost m: Mode, j: nat, ende: nat, h: Halves) returns (g: Halves)
    requires j < 3 && m[j] == (ende % 2 == 1)
    ensures g == Pass(f, keys, m, j, h)
  {
    var left, right;
    if ende % 2 == 1 {
      left, right := TheRounds(f, keys[2 - j], h.left, h.right, true);
    } else {
      left, right := TheRounds(f, keys[j], h.left, h.right, false);
    }
    g := Halves(right, left);
  }
}
