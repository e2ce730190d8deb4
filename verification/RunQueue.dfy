/**
  The queue of ready programs of the Dis machine (emu/dis.c): linked through the programs, with a
  pointer to its last one.
 */
module RunQueue {
  import opened Links
  import opened Seqs

  type Prog = int
  const NIL := 0

  class Queue {
    var runhd: Prog
    var runtl: Prog
    var link: map<Prog, Prog>
    ghost var q: seq<Prog>

    ghost predicate Valid()
      reads this
    {
      Linked(link, runhd, q) && NoDup(q) && NIL !in q && runtl == if |q| == 0 then NIL else q[|q| - 1]
    }

    constructor ()
      ensures Valid() && q == []
    {
      runhd, runtl, link, q := NIL, NIL, map[], [];
    }

    /** addrun, for a program without a handler of its own. */
    method AddRun(p: Prog)
      requires Valid() && p != NIL && p !in q
      modifies this
      ensures Valid() && q == old(q) + [p]
    {
      LinkedMore(link, runhd, q, p);
      link := link[p := NIL];
      if runhd == NIL {
        runhd := p;
      } else {
        link := link[runtl := p];
      }
      runtl := p;
      q := q + [p];
      assert |old(q)| > 0 ==> link == old(link)[old(runtl) := p][p := NIL];
    }

    /** pushrun, and the end of acquire. */
    method PushRun(p: Prog)
      requires Valid() && p != NIL && p !in q
      modifies this
      ensures Valid() && q == [p] + old(q)
    {
      LinkedFrame(link, link[p := runhd], runhd, q);
      link := link[p := runhd];
      runhd := p;
      if link[p] == NIL {
        runtl := p;
      }
      q := [p] + q;
      assert q[1..] == old(q);
    }

    /** delrun: the running program leaves. */
    method DelRun() returns (p: Prog)
      requires Valid() && |q| > 0
      modifies this
      ensures Valid() && p == old(q)[0] && q == old(q)[1..]
    {
      p := runhd;
      runhd := link[p];
      if link[p] == NIL {
        runtl := NIL;
      }
      q := q[1..];
    }

    /** The search of delrunq: p, or NIL, with the program before it. */
    method Find(p: Prog) returns (prev: Prog, f: Prog, ghost i: nat)
      requires Valid() && p != NIL
      ensures i <= |q| && p !in q[..i] && prev == (if i == 0 then NIL else q[i - 1])
      ensures if i < |q| then f == p == q[i] else f == NIL
    {
      prev, f, i := NIL, runhd, 0;
      while f != NIL
        invariant 0 <= i <= |q| && Linked(link, f, q[i..])
        invariant prev == (if i == 0 then NIL else q[i - 1]) && p !in q[..i]
        decreases |q| - i
      {
        if f == p {
          return;
        }
        assert q[i..][1..] == q[i + 1..] && q[..i + 1] == q[..i] + [q[i]];
        prev := f;
        f := link[f];
        i := i + 1;
      }
    }

    /** delrunq: p leaves from wherever it is. */
    method DelRunQ(p: Prog)
      requires Valid() && p != NIL
      modifies this
      ensures Valid() && q == Removed(old(q), p)
    {
      var prev, f;
      ghost var i;
      prev, f, i := Find(p);
      if f == NIL {
        RemovedAt(q, p, i);
        return;
      }
      GoneLinks(link, runhd, q, p, i);
      GoneLast(q, p, i);
      hide Linked, Removed, NoDup;
      if prev == NIL {
        runhd := link[p];
      } else {
        link := link[prev := link[p]];
      }
      if p == runtl {
        runtl := prev;
      }
      q := Removed(q, p);
    }
  }

  lemma GapFacts(q: seq<Prog>, i: nat)
    requires NoDup(q) && NIL !in q && i < |q|
    ensures var q' := q[..i] + q[i + 1..];
      NoDup(q') && NIL !in q' && (|q'| > 0 ==> q'[|q'| - 1] == if i == |q| - 1 then q[i - 1] else q[|q| - 1])
    ensures q[i] == q[|q| - 1] <==> i == |q| - 1
  {
    var q' := q[..i] + q[i + 1..];
    assert forall j :: 0 <= j < |q'| ==> q'[j] == if j < i then q[j] else q[j + 1];
  }

  /** The program at place i unlinked. */
  lemma {:induction false} Unlinked(link: map<Prog, Prog>, h: Prog, q: seq<Prog>, i: nat)
    requires Linked(link, h, q) && NoDup(q) && i < |q|
    ensures q[i] in link && (i > 0 ==> q[i - 1] in link)
    ensures i == 0 ==> Linked(link, link[q[0]], q[1..])
    ensures i > 0 ==> Linked(link[q[i - 1] := link[q[i]]], h, q[..i] + q[i + 1..])
    decreases |q|
  {
    if i == 1 {
      var link' := link[q[0] := link[q[1]]];
      assert q[1..][1..] == q[2..];
      LinkedFrame(link, link', link[q[1]], q[2..]);
      assert (q[..1] + q[2..])[1..] == q[2..];
    } else if i > 1 {
      Unlinked(link, link[h], q[1..], i - 1);
      assert q[1..][..i - 1] + q[1..][i..] == (q[..i] + q[i + 1..])[1..];
    }
  }

  /** What is left when the program at place i is unlinked: its links. */
  lemma GoneLinks(link: map<Prog, Prog>, h: Prog, q: seq<Prog>, p: Prog, i: nat)
    requires Linked(link, h, q) && NoDup(q) && NIL !in q && i < |q| && p == q[i] && p !in q[..i]
    ensures p in link && (i > 0 ==> q[i - 1] in link && q[i - 1] != NIL)
    ensures if i == 0 then Linked(link, link[p], Removed(q, p)) else Linked(link[q[i - 1] := link[p]], h, Removed(q, p))
  {
    RemovedAt(q, p, i);
    Unlinked(link, h, q, i);
    if i == 0 {
      assert q[..0] + q[1..] == q[1..];
    }
  }

  /** And its last program. */
  lemma GoneLast(q: seq<Prog>, p: Prog, i: nat)
    requires NoDup(q) && NIL !in q && i < |q| && p == q[i] && p !in q[..i]
    ensures var r := Removed(q, p);
      && NoDup(r) && NIL !in r
      && if p == q[|q| - 1] && i == 0 then |r| == 0
         else |r| > 0 && r[|r| - 1] == if p == q[|q| - 1] then q[i - 1] else q[|q| - 1]
  {
    RemovedAt(q, p, i);
    GapFacts(q, i);
  }
}
