/** Sequences: the bytes, or whatever else, of a list of blocks, and sequences without repetition. */
module Seqs {
  function Flat<T>(blocks: seq<seq<T>>): seq<T> {
    if |blocks| == 0 then [] else blocks[0] + Flat(blocks[1..])
  }

  lemma {:induction false} FlatAppend<T>(a: seq<seq<T>>, b: seq<T>)
    ensures Flat(a + [b]) == Flat(a) + b
    decreases |a|
  {
    if |a| == 0 {
      assert a + [b] == [b];
    } else {
      FlatAppend(a[1..], b);
      assert (a + [b])[1..] == a[1..] + [b];
    }
  }

  /** The blocks up to one, and that one. */
  lemma FlatSnoc<T>(blocks: seq<seq<T>>, i: nat)
    requires i < |blocks|
    ensures Flat(blocks[..i + 1]) == Flat(blocks[..i]) + blocks[i]
  {
    FlatAppend(blocks[..i], blocks[i]);
    assert blocks[..i + 1] == blocks[..i] + [blocks[i]];
  }

  lemma {:induction false} FlatLen<T>(blocks: seq<seq<T>>, i: nat)
    requires i <= |blocks|
    ensures |Flat(blocks[..i])| <= |Flat(blocks)|
    decreases |blocks|
  {
    if i > 0 {
      FlatLen(blocks[1..], i - 1);
      assert blocks[..i][1..] == blocks[1..][..i - 1];
    }
  }

  ghost predicate NoDup(s: seq<int>) {
    forall i, j :: 0 <= i < j < |s| ==> s[i] != s[j]
  }

  lemma FirstOnce(q: seq<int>)
    requires NoDup(q) && |q| > 0
    ensures q[0] !in q[1..] && q == [q[0]] + q[1..] && NoDup(q[1..])
  {
    assert forall i :: 0 <= i < |q[1..]| ==> q[1..][i] == q[i + 1];
  }

  lemma ConsNoDup(x: int, q: seq<int>)
    requires NoDup(q) && x !in q
    ensures NoDup([x] + q)
  {
    assert forall i :: 0 < i < |[x] + q| ==> ([x] + q)[i] == q[i - 1];
  }

  /** The sequence without p, where it first stands. */
  function Removed(q: seq<int>, p: int): seq<int> {
    if |q| == 0 then [] else if q[0] == p then q[1..] else [q[0]] + Removed(q[1..], p)
  }

  /** Removal by place. */
  lemma {:induction false} RemovedAt(q: seq<int>, p: int, i: nat)
    requires i <= |q| && p !in q[..i] && (i < |q| ==> q[i] == p)
    ensures Removed(q, p) == if i < |q| then q[..i] + q[i + 1..] else q
    decreases |q|
  {
    if i > 0 {
      assert q[0] == q[..i][0];
      assert q[1..][..i - 1] == q[..i][1..];
      RemovedAt(q[1..], p, i - 1);
    }
  }

  /** What is left when p goes: everybody else. */
  lemma {:induction false} RemovedMeans(q: seq<int>, p: int)
    requires NoDup(q)
    ensures p !in Removed(q, p) && NoDup(Removed(q, p)) && forall x :: x != p ==> (x in Removed(q, p) <==> x in q)
    decreases |q|
  {
    if |q| > 0 {
      RemovedMeans(q[1..], p);
      FirstOnce(q);
    }
  }

  /** And in the order in which they stood. */
  lemma RemovedInOrder(q: seq<int>, p: int)
    requires NoDup(q)
    ensures p !in q ==> Removed(q, p) == q
    ensures forall i {:trigger q[i]} :: 0 <= i < |q| && q[i] == p ==> Removed(q, p) == q[..i] + q[i + 1..]
  {
    if p !in q {
      RemovedAt(q, p, |q|);
    }
    forall i {:trigger q[i]} | 0 <= i < |q| && q[i] == p
      ensures Removed(q, p) == q[..i] + q[i + 1..]
    {
      RemovedAt(q, p, i);
    }
  }

  lemma Assoc<T>(a: seq<T>, b: seq<T>, c: seq<T>)
    ensures a + b + c == a + (b + c)
  {
  }
}
