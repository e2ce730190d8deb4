/**
  RC4 (crypt/rc4.c): the key schedule and the stream, over a state that stays a permutation.
 */
module Rc4 {
  import opened Seqs

  /** The state as a value. */
  datatype Stream = Stream(state: seq<nat>, x: nat, y: nat)

  ghost predicate Permutation(s: seq<nat>) {
    |s| == 256 && (forall i :: 0 <= i < 256 ==> s[i] < 256) && forall i, j :: 0 <= i < j < 256 ==> s[i] != s[j]
  }

  ghost predicate Good(s: Stream) {
    Permutation(s.state) && s.x < 256 && s.y < 256
  }

  function Swap(s: seq<nat>, i: nat, j: nat): seq<nat>
    requires i < |s| && j < |s|
  {
    s[i := s[j]][j := s[i]]
  }

  lemma SwapPermutes(s: seq<nat>, i: nat, j: nat)
    requires Permutation(s) && i < 256 && j < 256
    ensures Permutation(Swap(s, i, j))
  {
  }

  /** A step of the stream. */
  function Stepped(s: Stream): (r: Stream)
    requires |s.state| == 256
    ensures |r.state| == 256
  {
    var x := (s.x + 1) % 256;
    var y := (s.y + s.state[x]) % 256;
    Stream(Swap(s.state, x, y), x, y)
  }

  function ToByte(t: nat): bv8
    requires t < 256
  {
    t as bv8
  }

  /** The key byte of a state just stepped to. */
  function KeyByte(s: Stream): bv8
    requires |s.state| == 256
  {
    ToByte(KeyEntry(s))
  }

  function KeyEntry(s: Stream): nat
    requires |s.state| == 256
    ensures KeyEntry(s) < 256
  {
    s.state[(s.state[s.x % 256] + s.state[s.y % 256]) % 256] % 256
  }

  function Advanced(s: Stream, n: nat): (r: Stream)
    requires |s.state| == 256
    ensures |r.state| == 256
    decreases n
  {
    if n == 0 then s else Advanced(Stepped(s), n - 1)
  }

  function Add(a: bv8, k: bv8): bv8 {
    a ^ k
  }

  /** The bytes with the key bytes added. */
  function Crypted(s: Stream, d: seq<bv8>): (r: seq<bv8>)
    requires |s.state| == 256
    ensures |r| == |d|
    decreases |d|
  {
    if |d| == 0 then [] else [Add(d[0], KeyByte(Stepped(s)))] + Crypted(Stepped(s), d[1..])
  }

  lemma XorTwice(a: bv8, k: bv8)
    ensures Add(Add(a, k), k) == a
  {
  }

  /** The stream a second time takes the first off again, from the same state to the same state. */
  lemma {:induction false} CryptedTwice(s: Stream, d: seq<bv8>)
    requires |s.state| == 256
    ensures Crypted(s, Crypted(s, d)) == d
    decreases |d|
  {
    if |d| > 0 {
      hide KeyByte, Stepped, Add, ToByte;
      XorTwice(d[0], KeyByte(Stepped(s)));
      CryptedTwice(Stepped(s), d[1..]);
      assert Crypted(s, d)[1..] == Crypted(Stepped(s), d[1..]);
    }
  }

  /** In pieces or as a whole. */
  lemma {:induction false} CryptedJoin(s: Stream, a: seq<bv8>, b: seq<bv8>)
    requires |s.state| == 256
    ensures Crypted(s, a + b) == Crypted(s, a) + Crypted(Advanced(s, |a|), b)
    ensures Advanced(s, |a + b|) == Advanced(Advanced(s, |a|), |b|)
    decreases |a|
  {
    hide KeyByte, Stepped, Add, ToByte;
    if |a| == 0 {
      assert a + b == b;
    } else {
      assert (a + b)[1..] == a[1..] + b;
      CryptedJoin(Stepped(s), a[1..], b);
    }
  }

  lemma {:induction false} StaysGood(s: Stream, n: nat)
    requires Good(s)
    ensures Good(Advanced(s, n))
    decreases n
  {
    if n > 0 {
      var x := (s.x + 1) % 256;
      SwapPermutes(s.state, x, (s.y + s.state[x]) % 256);
      StaysGood(Stepped(s), n - 1);
    }
  }

  /** A step as RC4 has it: the entries at x and y change places. */
  ghost predicate StepsTo(s: Stream, t: Stream) {
    && |s.state| == |t.state| == 256 && t.x == (s.x + 1) % 256 && t.y == (s.y + s.state[t.x]) % 256
    && t.state[t.x] == s.state[t.y] && t.state[t.y] == s.state[t.x]
    && forall k :: 0 <= k < 256 && k != t.x && k != t.y ==> t.state[k] == s.state[k]
  }

  lemma StepIs(s: Stream, t: Stream)
    requires StepsTo(s, t)
    ensures t == Stepped(s)
  {
    assert t.state == Stepped(s).state;
  }

  lemma {:induction false} AdvancedSnoc(s: Stream, n: nat)
    requires |s.state| == 256
    ensures Advanced(s, n + 1) == Stepped(Advanced(s, n))
    decreases n
  {
    hide Stepped;
    if n > 0 {
      AdvancedSnoc(Stepped(s), n - 1);
    }
  }

  /** A stream goes through such steps, one a byte. */
  lemma {:induction false} Streams(st: seq<Stream>, i: nat)
    requires i < |st| && |st[0].state| == 256
    requires forall n {:trigger st[n]} :: 0 <= n < |st| - 1 ==> StepsTo(st[n], st[n + 1])
    ensures st[i] == Advanced(st[0], i)
    decreases i
  {
    hide StepsTo, Stepped;
    if i > 0 {
      Streams(st, i - 1);
      assert StepsTo(st[i - 1], st[i]);
      StepIs(st[i - 1], st[i]);
      AdvancedSnoc(st[0], i - 1);
    }
  }

  lemma {:induction false} CryptedByte(s: Stream, d: seq<bv8>, i: nat)
    requires i < |d| && |s.state| == 256
    ensures Crypted(s, d)[i] == Add(d[i], KeyByte(Advanced(s, i + 1)))
    decreases i
  {
    hide KeyByte, Stepped, Add;
    assert Advanced(Stepped(s), 0) == Stepped(s);
    if i > 0 {
      CryptedByte(Stepped(s), d[1..], i - 1);
    }
  }

  lemma EntryIs(b: bv8, t: Stream)
    requires Good(t)
    ensures Add(b, KeyByte(t)) == b ^ ToByte(t.state[(t.state[t.x] + t.state[t.y]) % 256])
  {
    hide ToByte;
    assert KeyEntry(t) == t.state[(t.state[t.x] + t.state[t.y]) % 256];
  }

  /** Every byte is encrypted by the entry that the sum of the two entries just exchanged points to. */
  lemma CryptedAt(s: Stream, d: seq<bv8>, i: nat, t: Stream)
    requires Good(s) && i < |d| && t == Advanced(s, i + 1)
    ensures Good(t) && Crypted(s, d)[i] == d[i] ^ ToByte(t.state[(t.state[t.x] + t.state[t.y]) % 256])
  {
    assert |s.state| == 256;
    hide *;
    CryptedByte(s, d, i);
    StaysGood(s, i + 1);
    EntryIs(d[i], t);
  }

  /** The table after the first n places have been mixed with the key, and the second index. */
  function Mixed(start: seq<nat>, n: nat): (r: (seq<nat>, nat))
    requires |start| > 0 && n <= 256
    ensures |r.0| == 256 && r.1 < 256
  {
    if n == 0 then (seq(256, i requires 0 <= i < 256 => i), 0)
    else
      var (s, j) := Mixed(start, n - 1);
      var k := (start[(n - 1) % |start|] + s[n - 1] + j) % 256;
      (Swap(s, n - 1, k), k)
  }

  /** One step of the key schedule, at place i with key entry c: it changes places with the one at the new index. */
  ghost predicate MixesTo(s: seq<nat>, j: nat, i: nat, c: nat, t: seq<nat>, k: nat) {
    && |s| == |t| == 256 && i < 256 && k == (j + s[i] + c) % 256 && t[i] == s[k] && t[k] == s[i]
    && forall m :: 0 <= m < 256 && m != i && m != k ==> t[m] == s[m]
  }

  lemma MixIs(s: seq<nat>, j: nat, i: nat, c: nat, t: seq<nat>, k: nat)
    requires MixesTo(s, j, i, c, t, k)
    ensures t == Swap(s, i, k)
  {
  }

  /** The key schedule of RC4, with the key over and over. */
  lemma {:induction false} MixedIs(start: seq<nat>, s: seq<seq<nat>>, j: seq<nat>, n: nat)
    requires |start| > 0 && |s| == |j| == 257 && n <= 256 && j[0] == 0
    requires |s[0]| == 256 && forall i :: 0 <= i < 256 ==> s[0][i] == i
    requires forall i {:trigger s[i]} :: 0 <= i < 256 ==>
      MixesTo(s[i], j[i], i, start[i % |start|], s[i + 1], j[i + 1])
    ensures Mixed(start, n) == (s[n], j[n])
    decreases n
  {
    hide MixesTo, Swap;
    if n == 0 {
      assert s[0] == Mixed(start, 0).0;
    } else {
      MixedIs(start, s, j, n - 1);
      assert MixesTo(s[n - 1], j[n - 1], n - 1, start[(n - 1) % |start|], s[n], j[n]);
      MixIs(s[n - 1], j[n - 1], n - 1, start[(n - 1) % |start|], s[n], j[n]);
      NextIndex(s[n - 1], j[n - 1], n - 1, start[(n - 1) % |start|], s[n], j[n]);
    }
  }

  lemma NextIndex(s: seq<nat>, j: nat, i: nat, c: nat, t: seq<nat>, k: nat)
    requires MixesTo(s, j, i, c, t, k)
    ensures |s| == 256 && i < 256 && k == (c + s[i] + j) % 256
  {
  }

  lemma RemainderIs(x: int, q: int, n: int, r: int)
    requires n > 0 && x == q * n + r && 0 <= r < n
    ensures x % n == r
  {
    var p, s := x / n, x % n;
    var d := q - p;
    assert x == p * n + s && d * n == s - r;
    Multiple(d, n);
  }

  lemma Multiple(d: int, n: int)
    requires n > 0
    ensures (d >= 1 ==> d * n >= n) && (d <= -1 ==> d * n <= -n)
  {
  }

  lemma NextPlace(i: nat, n: nat)
    requires n > 0
    ensures (i + 1) % n == if i % n + 1 >= n then 0 else i % n + 1
  {
    NextAt(i, n, i / n, i % n);
  }

  lemma NextAt(i: nat, n: nat, q: int, r: int)
    requires n > 0 && i == q * n + r && 0 <= r < n
    ensures (i + 1) % n == if r + 1 >= n then 0 else r + 1
  {
    if r + 1 >= n {
      assert (q + 1) * n == q * n + n;
      RemainderIs(i + 1, q + 1, n, 0);
    } else {
      RemainderIs(i + 1, q, n, r + 1);
    }
  }

  lemma {:induction false} MixedPermutes(start: seq<nat>, n: nat)
    requires |start| > 0 && n <= 256
    ensures Permutation(Mixed(start, n).0)
    decreases n
  {
    if n > 0 {
      MixedPermutes(start, n - 1);
      var (s, j) := Mixed(start, n - 1);
      SwapPermutes(s, n - 1, (start[(n - 1) % |start|] + s[n - 1] + j) % 256);
    }
  }

  lemma Remaining(s: Stream, d: seq<bv8>, i: nat)
    requires i < |d| && |s.state| == 256
    ensures Crypted(s, d[i..]) == [Add(d[i], KeyByte(Stepped(s)))] + Crypted(Stepped(s), d[i + 1..])
    ensures Advanced(s, |d| - i) == Advanced(Stepped(s), |d| - i - 1)
  {
    hide KeyByte, Stepped, Add, ToByte;
    assert d[i..][1..] == d[i + 1..];
  }

  lemma CryptedNone(s: Stream, d: seq<bv8>)
    requires |s.state| == 256
    ensures Crypted(s, d[|d|..]) == [] && Advanced(s, 0) == s
  {
  }

  class RC4state {
    const state: array<nat>
    var x: nat
    var y: nat

    ghost function Value(): Stream
      reads this, state
    {
      Stream(state[..], x, y)
    }

    /** The bytes to encrypt are not the state's. */
    ghost predicate Apart(p: array<bv8>) {
      var m: object, b: object := state, p;
      m != b
    }

    ghost predicate Valid()
      reads this, state
    {
      state.Length == 256 && Good(Value())
    }

    /** setupRC4state, for a key of at least a byte. */
    constructor (start: seq<nat>)
      requires |start| > 0
      ensures Valid() && Value() == Stream(Mixed(start, 256).0, 0, 0) && fresh(state)
    {
      state := new nat[256](i requires 0 <= i < 256 => i);
      x, y := 0, 0;
      new;
      assert state[..] == Mixed(start, 0).0;
      Mix(start);
    }

    /** The mixing of the key. */
    method Mix(start: seq<nat>)
      requires Valid() && |start| > 0 && x == y == 0 && state[..] == Mixed(start, 0).0
      modifies state
      ensures Valid() && state[..] == Mixed(start, 256).0
    {
      hide Permutation;
      var index2, p, sp := 0, 0, 0;
      MixedPermutes(start, 256);
      while sp < 256
        invariant 0 <= sp <= 256 && p == sp % |start| && state[..] == Mixed(start, sp).0
          && index2 == Mixed(start, sp).1
      {
        var t := state[sp];
        ghost var was := state[..];
        index2 := (start[p] + t + index2) % 256;
        state[sp] := state[index2];
        state[index2] := t;
        assert state[..] == Swap(was, sp, index2);
        p := p + 1;
        if p >= |start| {
          p := 0;
        }
        NextPlace(sp, |start|);
        sp := sp + 1;
      }
    }

    /** One byte of the stream. */
    method One(p: array<bv8>, j: nat)
      requires Valid() && Apart(p) && j < p.Length
      modifies this, state, p
      ensures Valid()
      ensures Value() == Stepped(old(Value())) && p[j] == Add(old(p[j]), KeyByte(Value()))
      ensures forall i :: 0 <= i < p.Length && i != j ==> p[i] == old(p[i])
    {
      hide Stepped, KeyByte, Add, Permutation;
      var k := NextKey();
      p[j] := Add(p[j], k);
    }

    /** rc4, in place. */
    method Crypt(p: array<bv8>, off: nat, len: nat)
      requires Valid() && Apart(p) && off + len <= p.Length
      modifies this, state, p
      ensures Valid() && Value() == Advanced(old(Value()), len)
      ensures p[off..off + len] == Crypted(old(Value()), old(p[off..off + len]))
      ensures forall j :: 0 <= j < p.Length && !(off <= j < off + len) ==> p[j] == old(p[j])
    {
      hide Crypted, Advanced, Stepped, KeyByte, Add, Permutation;
      ghost var d, s0 := p[off..off + len], Value();
      CryptedNone(s0, d);
      var i := 0;
      assert d[0..] == d;
      ghost var done: seq<bv8> := [];
      while i < len
        invariant 0 <= i <= len && Valid() && Advanced(Value(), len - i) == Advanced(s0, len)
        invariant p[off..off + i] == done && done + Crypted(Value(), d[i..]) == Crypted(s0, d)
        invariant forall j :: off + i <= j < off + len ==> p[j] == d[j - off]
        invariant forall j :: 0 <= j < p.Length && !(off <= j < off + i) ==> p[j] == old(p[j])
      {
        Remaining(Value(), d, i);
        ghost var x := [Add(d[i], KeyByte(Stepped(Value())))];
        Assoc(done, x, Crypted(Stepped(Value()), d[i + 1..]));
        One(p, off + i);
        done := done + x;
        i := i + 1;
      }
      CryptedNone(Value(), d);
    }

    /** The next key byte. */
    method NextKey() returns (k: bv8)
      requires Valid()
      modifies this, state
      ensures Valid() && Value() == Stepped(old(Value())) && k == KeyByte(Value())
    {
      hide ToByte, Stepped;
      Turn();
      var t := state[(state[x] + state[y]) % 256];
      assert t == KeyEntry(Value());
      k := ToByte(t);
    }

    method Turn()
      requires Valid()
      modifies this, state
      ensures Valid() && Value() == Stepped(old(Value()))
    {
      ghost var was := state[..];
      x := (x + 1) % 256;
      var tx := state[x];
      y := (y + tx) % 256;
      var ty := state[y];
      SwapPermutes(was, x, y);
      state[x] := ty;
      state[y] := tx;
      assert state[..] == Swap(was, x, y);
    }
  }
}
