/** Queues linked through their elements, as the kernel keeps them: a head, and a link from each to the next. */
module Links {
  import opened Seqs

  /** What the last element links to. */
  const END := 0

  /** From h the links lead through the queue and end there. */
  ghost predicate Linked(link: map<int, int>, h: int, q: seq<int>)
    decreases |q|
  {
    if |q| == 0 then h == END else h == q[0] && h != END && h in link && Linked(link, link[h], q[1..])
  }

  lemma {:induction false} LinkedFrame(link: map<int, int>, link': map<int, int>, h: int, q: seq<int>)
    requires Linked(link, h, q) && forall p :: p in q && p in link ==> p in link' && link'[p] == link[p]
    ensures Linked(link', h, q)
    decreases |q|
  {
    if |q| > 0 {
      LinkedFrame(link, link', link[h], q[1..]);
    }
  }

  /** One more, linked behind the last. */
  lemma {:induction false} LinkedMore(link: map<int, int>, h: int, q: seq<int>, p: int)
    requires Linked(link, h, q) && p != END && p !in q && NoDup(q)
    ensures |q| == 0 ==> Linked(link[p := END], p, [p])
    ensures |q| > 0 ==> Linked(link[q[|q| - 1] := p][p := END], h, q + [p])
    decreases |q|
  {
    if |q| == 0 {
    } else if |q| == 1 {
      assert (q + [p])[1..] == [p] && [p][1..] == [];
      assert Linked(link[q[0] := p][p := END], p, [p]);
    } else {
      LinkedMore(link, link[h], q[1..], p);
      assert (q + [p])[1..] == q[1..] + [p];
      assert q[1..][|q| - 2] == q[|q| - 1];
    }
  }
}
