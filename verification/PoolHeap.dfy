/**
  The boundary tags of a pool (emu/alloc.c): every arena is filled by its leader and its blocks up to
  the end mark, every tail leads back to its header, and no two free blocks are neighbours. What
  taking, cutting, joining and giving back a block, and a new arena, do to that.
 */
module PoolHeap {
  import opened PoolTree
  import opened PoolTiles
  import opened FreeTree

  /** Leader at `base`, end mark at `limit`; the leader links to the arena before it. */
  datatype Arena = Arena(base: int, limit: int, link: int)

  /** Headers by the address behind their block. */
  type Tails = map<int, int>

  const MARK := 4

  ghost predicate ArenaOk(mem: Memory, tails: Tails, z: Sizes, a: Arena) {
    && 0 < a.base && a.base + UNIT < a.limit && a.limit + MARK <= LIMIT
    && a.base in mem && mem[a.base].magic == MAGIC_E && mem[a.base].size == UNIT
      && mem[a.base].csize == a.limit - a.base && mem[a.base].clink == a.link
    && a.limit in mem && mem[a.limit].magic == MAGIC_E
    && a.base + UNIT in tails && tails[a.base + UNIT] == a.base
    && Tiled(z, a.base + UNIT, a.limit)
  }

  ghost predicate Separate(a: Arena, b: Arena) {
    a.limit + MARK <= b.base || b.limit + MARK <= a.base
  }

  ghost predicate Within(z: Sizes, a: Arena, b: int) {
    OnWalk(z, a.base + UNIT, a.limit, b)
  }

  /** Block b: its tags, and no free block behind it when it is free. Its magic may be out of date when b is x. */
  ghost predicate BlockOk(mem: Memory, tails: Tails, z: Sizes, free: set<int>, x: int, b: int)
    requires b in z
  {
    && b in mem && mem[b].size == z[b]
    && (b != x ==> mem[b].magic in {MAGIC_A, MAGIC_I, MAGIC_F} && (mem[b].magic == MAGIC_F <==> b in free))
    && b + z[b] in tails && tails[b + z[b]] == b
    && (b in free ==> b + z[b] !in free)
  }

  ghost predicate Arenas(mem: Memory, tails: Tails, z: Sizes, arenas: seq<Arena>) {
    && (forall i {:trigger ArenaOk(mem, tails, z, arenas[i])} :: 0 <= i < |arenas| ==>
      ArenaOk(mem, tails, z, arenas[i]))
    && (forall i, j {:trigger Separate(arenas[i], arenas[j])} :: 0 <= i < j < |arenas| ==>
      Separate(arenas[i], arenas[j]))
  }

  ghost predicate Somewhere(z: Sizes, arenas: seq<Arena>, b: int) {
    exists i :: 0 <= i < |arenas| && Within(z, arenas[i], b)
  }

  ghost predicate Covered(z: Sizes, arenas: seq<Arena>) {
    forall b {:trigger Somewhere(z, arenas, b)} :: b in z ==> Somewhere(z, arenas, b)
  }

  /** The tags of all arenas are right, but for the magic of block x. */
  ghost predicate Heap(mem: Memory, tails: Tails, z: Sizes, arenas: seq<Arena>, free: set<int>, x: int) {
    && Arenas(mem, tails, z, arenas) && Covered(z, arenas)
    && free <= z.Keys && x !in free
    && forall b {:trigger BlockOk(mem, tails, z, free, x, b)} :: b in z ==> BlockOk(mem, tails, z, free, x, b)
  }

  /** The arena a block is in. */
  lemma Home(mem: Memory, tails: Tails, z: Sizes, arenas: seq<Arena>, free: set<int>, x: int, b: int) returns (i: nat)
    requires Heap(mem, tails, z, arenas, free, x) && b in z
    ensures i < |arenas| && Within(z, arenas[i], b) && ArenaOk(mem, tails, z, arenas[i])
    ensures z[b] >= UNIT && arenas[i].base + UNIT <= b && b + z[b] <= arenas[i].limit
  {
    assert Somewhere(z, arenas, b);
    i :| 0 <= i < |arenas| && Within(z, arenas[i], b);
    assert ArenaOk(mem, tails, z, arenas[i]);
    WalkRange(z, arenas[i].base + UNIT, arenas[i].limit, b);
  }

  lemma NotNil(mem: Memory, tails: Tails, z: Sizes, arenas: seq<Arena>, free: set<int>, x: int)
    requires Heap(mem, tails, z, arenas, free, x)
    ensures NIL !in z
  {
    if NIL in z {
      var i := Home(mem, tails, z, arenas, free, x, NIL);
    }
  }

  lemma Elsewhere(mem: Memory, tails: Tails, z: Sizes, arenas: seq<Arena>, i: nat, j: nat)
    requires Arenas(mem, tails, z, arenas) && i < |arenas| && j < |arenas|
    ensures i == j || Separate(arenas[i], arenas[j])
  {
    assert i < j ==> Separate(arenas[i], arenas[j]);
    assert j < i ==> Separate(arenas[j], arenas[i]);
  }

  /** No block is where a leader or an end mark is. */
  lemma TagsApart(mem: Memory, tails: Tails, z: Sizes, arenas: seq<Arena>, free: set<int>, x: int, i: nat)
    requires Heap(mem, tails, z, arenas, free, x) && i < |arenas|
    ensures arenas[i].base !in z && arenas[i].limit !in z
  {
    assert ArenaOk(mem, tails, z, arenas[i]);
    if arenas[i].base in z {
      var j := Home(mem, tails, z, arenas, free, x, arenas[i].base);
      Elsewhere(mem, tails, z, arenas, i, j);
    }
    if arenas[i].limit in z {
      var j := Home(mem, tails, z, arenas, free, x, arenas[i].limit);
      Elsewhere(mem, tails, z, arenas, i, j);
    }
  }

  /** The header behind a block tells whether a free block follows. */
  lemma Next(mem: Memory, tails: Tails, z: Sizes, arenas: seq<Arena>, free: set<int>, x: int, b: int)
    requires Heap(mem, tails, z, arenas, free, x) && b in z && b + z[b] != x
    ensures z[b] >= UNIT && b + z[b] in mem && (mem[b + z[b]].magic == MAGIC_F <==> b + z[b] in free)
  {
    var i := Home(mem, tails, z, arenas, free, x, b);
    TagsApart(mem, tails, z, arenas, free, x, i);
    WalkNext(z, arenas[i].base + UNIT, arenas[i].limit, b);
    if b + z[b] != arenas[i].limit {
      WalkRange(z, arenas[i].base + UNIT, arenas[i].limit, b + z[b]);
      assert BlockOk(mem, tails, z, free, x, b + z[b]);
    }
  }

  /** The tail before a block leads to the block it follows, or to the leader. */
  lemma Prev(mem: Memory, tails: Tails, z: Sizes, arenas: seq<Arena>, free: set<int>, x: int, b: int)
    requires Heap(mem, tails, z, arenas, free, x) && b in z && (x == NIL || (b in tails ==> tails[b] != x))
    ensures b in tails && tails[b] in mem && tails[b] != NIL && (mem[tails[b]].magic == MAGIC_F <==> tails[b] in free)
    ensures tails[b] in free ==> tails[b] in z && tails[b] + z[tails[b]] == b
    ensures forall p :: p in z && p + z[p] == b ==> p == tails[b]
  {
    var i := Home(mem, tails, z, arenas, free, x, b);
    TagsApart(mem, tails, z, arenas, free, x, i);
    var from, limit := arenas[i].base + UNIT, arenas[i].limit;
    if b != from {
      var p := WalkPrev(z, from, limit, b);
      WalkRange(z, from, limit, p);
      assert BlockOk(mem, tails, z, free, x, p);
      NotNil(mem, tails, z, arenas, free, x);
    }
    forall p | p in z && p + z[p] == b
      ensures p == tails[b]
    {
      assert BlockOk(mem, tails, z, free, x, p);
    }
  }

  /** Relinking free blocks leaves all tags. */
  lemma Relink(mem: Memory, mem': Memory, s: set<int>, tails: Tails, z: Sizes, arenas: seq<Arena>, free: set<int>,
      x: int)
    requires Heap(mem, tails, z, arenas, free, x) && LinksOnly(mem, mem', s)
    ensures Heap(mem', tails, z, arenas, free, x)
  {
    forall i | 0 <= i < |arenas|
      ensures ArenaOk(mem', tails, z, arenas[i])
    {
      assert ArenaOk(mem, tails, z, arenas[i]);
    }
    forall b | b in z
      ensures BlockOk(mem', tails, z, free, x, b)
    {
      assert BlockOk(mem, tails, z, free, x, b);
    }
  }

  /** A block out of the free tree. */
  lemma Out(mem: Memory, tails: Tails, z: Sizes, arenas: seq<Arena>, free: set<int>, t: int)
    requires Heap(mem, tails, z, arenas, free, NIL) && t in free
    ensures Heap(mem, tails, z, arenas, free - {t}, t)
  {
    forall b | b in z
      ensures BlockOk(mem, tails, z, free - {t}, t, b)
    {
      NotNil(mem, tails, z, arenas, free, NIL);
      assert BlockOk(mem, tails, z, free, NIL, b);
    }
  }

  /** Only the headers of some blocks differ. */
  ghost predicate HeadersBut(mem: Memory, mem': Memory, s: set<int>) {
    forall a :: a in mem && a !in s ==> a in mem' && mem'[a] == mem[a]
  }

  lemma ArenasFrame(mem: Memory, mem': Memory, s: set<int>, tails: Tails, tails': Tails, z: Sizes, arenas: seq<Arena>,
      free: set<int>, x: int)
    requires Heap(mem, tails, z, arenas, free, x) && HeadersBut(mem, mem', s) && s <= z.Keys
    requires forall i :: 0 <= i < |arenas| ==>
      arenas[i].base + UNIT in tails' && tails'[arenas[i].base + UNIT] == arenas[i].base
    ensures Arenas(mem', tails', z, arenas)
  {
    forall i | 0 <= i < |arenas|
      ensures ArenaOk(mem', tails', z, arenas[i])
    {
      assert ArenaOk(mem, tails, z, arenas[i]);
      TagsApart(mem, tails, z, arenas, free, x, i);
    }
  }

  /** A block that is out of the tree is marked allocated. */
  lemma Taken(mem: Memory, tails: Tails, z: Sizes, arenas: seq<Arena>, free: set<int>, t: int)
    requires Heap(mem, tails, z, arenas, free, t) && t in z
    ensures t in mem && Heap(mem[t := mem[t].(magic := MAGIC_A)], tails, z, arenas, free, NIL)
  {
    assert BlockOk(mem, tails, z, free, t, t);
    var mem' := mem[t := mem[t].(magic := MAGIC_A)];
    forall i | 0 <= i < |arenas|
      ensures arenas[i].base + UNIT in tails && tails[arenas[i].base + UNIT] == arenas[i].base
    {
      assert ArenaOk(mem, tails, z, arenas[i]);
    }
    ArenasFrame(mem, mem', {t}, tails, tails, z, arenas, free, t);
    forall b | b in z
      ensures BlockOk(mem', tails, z, free, NIL, b)
    {
      assert BlockOk(mem, tails, z, free, t, b);
    }
    NotNil(mem, tails, z, arenas, free, t);
  }

  /** A block between two that are not free goes into the free tree. */
  lemma Added(mem: Memory, tails: Tails, z: Sizes, arenas: seq<Arena>, free: set<int>, x: int, q: int)
    requires Heap(mem, tails, z, arenas, free, x) && x in {q, NIL} && q in z && q !in free && q + z[q] !in free
    requires forall p :: p in z && p + z[p] == q ==> p !in free
    ensures q in mem && Heap(mem[q := mem[q].(magic := MAGIC_F)], tails, z, arenas, free + {q}, NIL)
  {
    assert BlockOk(mem, tails, z, free, x, q);
    var mem' := mem[q := mem[q].(magic := MAGIC_F)];
    forall i | 0 <= i < |arenas|
      ensures arenas[i].base + UNIT in tails && tails[arenas[i].base + UNIT] == arenas[i].base
    {
      assert ArenaOk(mem, tails, z, arenas[i]);
    }
    ArenasFrame(mem, mem', {q}, tails, tails, z, arenas, free, x);
    forall i | 0 <= i < |arenas|
      ensures ArenaOk(mem', tails, z, arenas[i])
    {
    }
    var h := Home(mem, tails, z, arenas, free, x, q);
    forall b | b in z
      ensures BlockOk(mem', tails, z, free + {q}, NIL, b)
    {
      assert BlockOk(mem, tails, z, free, x, b);
    }
    NotNil(mem, tails, z, arenas, free, x);
  }

  /** Cutting or joining blocks of one arena does not touch the others. */
  lemma OthersTiled(mem: Memory, tails: Tails, z: Sizes, z': Sizes, arenas: seq<Arena>, i: nat, j: nat)
    requires Arenas(mem, tails, z, arenas) && i < |arenas| && j < |arenas| && i != j
    requires forall x {:trigger x in z'} :: !(arenas[i].base <= x < arenas[i].limit) ==>
      (x in z <==> x in z') && (x in z ==> z'[x] == z[x])
    ensures Tiled(z', arenas[j].base + UNIT, arenas[j].limit) && forall b :: Within(z', arenas[j], b) <==>
      Within(z, arenas[j], b)
  {
    Elsewhere(mem, tails, z, arenas, i, j);
    assert ArenaOk(mem, tails, z, arenas[j]) && ArenaOk(mem, tails, z, arenas[i]);
    TileFrame(z, z', arenas[j].base + UNIT, arenas[j].limit);
  }

  /** The arenas after the blocks of one were cut or joined, and some headers and tails of blocks written. */
  lemma Retiled(mem: Memory, mem': Memory, tails: Tails, tails': Tails, z: Sizes, z': Sizes, arenas: seq<Arena>, i: nat)
    requires Arenas(mem, tails, z, arenas) && i < |arenas|
    requires forall x {:trigger x in z'} :: !(arenas[i].base <= x < arenas[i].limit) ==>
      (x in z <==> x in z') && (x in z ==> z'[x] == z[x])
    requires Tiled(z', arenas[i].base + UNIT, arenas[i].limit)
    requires forall a :: a in mem && !(arenas[i].base < a < arenas[i].limit) ==> a in mem' && mem'[a] == mem[a]
    requires forall a :: a in tails && !(arenas[i].base + UNIT < a <= arenas[i].limit) ==>
      a in tails' && tails'[a] == tails[a]
    ensures Arenas(mem', tails', z', arenas)
  {
    forall j | 0 <= j < |arenas|
      ensures ArenaOk(mem', tails', z', arenas[j])
    {
      assert ArenaOk(mem, tails, z, arenas[j]);
      Elsewhere(mem, tails, z, arenas, i, j);
      if j != i {
        OthersTiled(mem, tails, z, z', arenas, i, j);
      }
    }
    forall j, k | 0 <= j < k < |arenas|
      ensures Separate(arenas[j], arenas[k])
    {
      Elsewhere(mem, tails, z, arenas, j, k);
      assert ArenaOk(mem, tails, z, arenas[j]);
    }
  }

  /** Blocks do not overlap, wherever they are. */
  lemma BlocksApart(mem: Memory, tails: Tails, z: Sizes, arenas: seq<Arena>, free: set<int>, x: int, b: int, c: int)
    requires Heap(mem, tails, z, arenas, free, x) && b in z && c in z && b != c
    ensures z[b] >= UNIT && z[c] >= UNIT && (b + z[b] <= c || c + z[c] <= b)
  {
    var i := Home(mem, tails, z, arenas, free, x, b);
    var j := Home(mem, tails, z, arenas, free, x, c);
    Elsewhere(mem, tails, z, arenas, i, j);
    if i == j {
      if b < c {
        WalkApart(z, arenas[i].base + UNIT, arenas[i].limit, b, c);
      } else {
        WalkApart(z, arenas[i].base + UNIT, arenas[i].limit, c, b);
      }
    }
  }

  /** Every block is still somewhere when one arena keeps its own. */
  lemma StillCovered(mem: Memory, tails: Tails, z: Sizes, z': Sizes, arenas: seq<Arena>, i: nat)
    requires Arenas(mem, tails, z, arenas) && Covered(z, arenas) && i < |arenas|
    requires forall x {:trigger x in z'} :: !(arenas[i].base <= x < arenas[i].limit) ==>
      (x in z <==> x in z') && (x in z ==> z'[x] == z[x])
    requires forall x :: x in z' ==> x in z || Within(z', arenas[i], x)
    requires forall x :: x in z' && Within(z, arenas[i], x) ==> Within(z', arenas[i], x)
    ensures Covered(z', arenas)
  {
    forall x | x in z'
      ensures Somewhere(z', arenas, x)
    {
      if Within(z', arenas[i], x) {
      } else {
        assert Somewhere(z, arenas, x);
        var j :| 0 <= j < |arenas| && Within(z, arenas[j], x);
        OthersTiled(mem, tails, z, z', arenas, i, j);
        assert Within(z', arenas[j], x);
      }
    }
  }

  /** Cutting the block b, which is not free and has no free block behind it. */
  lemma Split(mem: Memory, tails: Tails, z: Sizes, arenas: seq<Arena>, free: set<int>, b: int, s: int, mem': Memory,
      tails': Tails)
    requires Heap(mem, tails, z, arenas, free, NIL) && b in z && b !in free && b + z[b] !in free
    requires UNIT <= s < z[b] && s % UNIT == 0
    requires b in mem && b in mem' && mem'[b] == mem[b].(size := s) && b + s in mem' && mem'[b + s].size == z[b] - s
    requires HeadersBut(mem, mem', {b, b + s}) && tails' == tails[b + s := b][b + z[b] := b + s]
    ensures Heap(mem', tails', Cut(z, b, s), arenas, free, b + s) && b + s !in z
  {
    var i := Home(mem, tails, z, arenas, free, NIL, b);
    var z', c := Cut(z, b, s), b + s;
    CutTile(z, arenas[i].base + UNIT, arenas[i].limit, b, s);
    Retiled(mem, mem', tails, tails', z, z', arenas, i);
    StillCovered(mem, tails, z, z', arenas, i);
    SplitBlocks(mem, tails, z, arenas, free, b, s, mem', tails');
  }

  lemma SplitBlocks(mem: Memory, tails: Tails, z: Sizes, arenas: seq<Arena>, free: set<int>, b: int, s: int,
      mem': Memory, tails': Tails)
    requires Heap(mem, tails, z, arenas, free, NIL) && b in z && b !in free && b + z[b] !in free && UNIT <= s < z[b]
    requires b in mem && b in mem' && mem'[b] == mem[b].(size := s) && b + s in mem' && mem'[b + s].size == z[b] - s
    requires HeadersBut(mem, mem', {b, b + s}) && tails' == tails[b + s := b][b + z[b] := b + s]
    ensures forall x {:trigger BlockOk(mem', tails', Cut(z, b, s), free, b + s, x)} ::
      x in Cut(z, b, s) ==> BlockOk(mem', tails', Cut(z, b, s), free, b + s, x)
    ensures b + s !in z
  {
    var z', c := Cut(z, b, s), b + s;
    NotNil(mem, tails, z, arenas, free, NIL);
    assert BlockOk(mem, tails, z, free, NIL, b);
    if c in z {
      BlocksApart(mem, tails, z, arenas, free, NIL, b, c);
    }
    forall x | x in z'
      ensures BlockOk(mem', tails', z', free, c, x)
    {
      if x != c && x != b {
        assert BlockOk(mem, tails, z, free, NIL, x);
        BlocksApart(mem, tails, z, arenas, free, NIL, b, x);
      }
    }
  }

  /** Joining the block b with c behind it, both out of the tree. */
  lemma Join(mem: Memory, tails: Tails, z: Sizes, arenas: seq<Arena>, free: set<int>, x: int, b: int, mem': Memory)
    requires Heap(mem, tails, z, arenas, free, x) && b in z && b !in free && b + z[b] in z && b + z[b] !in free
    requires x in {NIL, b, b + z[b]}
    requires b in mem && b in mem' && mem'[b] == mem[b].(size := z[b] + z[b + z[b]])
      && HeadersBut(mem, mem', {b, b + z[b]})
    ensures Heap(mem', tails[b + z[b] + z[b + z[b]] := b], Merged(z, b), arenas, free, if x == b then b else NIL)
  {
    var i := Home(mem, tails, z, arenas, free, x, b);
    var c, z' := b + z[b], Merged(z, b);
    var tails', from, limit := tails[c + z[c] := b], arenas[i].base + UNIT, arenas[i].limit;
    TagsApart(mem, tails, z, arenas, free, x, i);
    WalkNext(z, from, limit, b);
    WalkRange(z, from, limit, c);
    MergeTile(z, from, limit, b);
    Retiled(mem, mem', tails, tails', z, z', arenas, i);
    StillCovered(mem, tails, z, z', arenas, i);
    var e := if x == b then b else NIL;
    forall y | y in z'
      ensures BlockOk(mem', tails', z', free, e, y)
    {
      if y != b {
        assert BlockOk(mem, tails, z, free, x, y);
        BlocksApart(mem, tails, z, arenas, free, x, b, y);
        BlocksApart(mem, tails, z, arenas, free, x, c, y);
      } else {
        assert BlockOk(mem, tails, z, free, x, b);
      }
    }
    NotNil(mem, tails, z, arenas, free, x);
  }

  /** The blocks of a new arena: the first s bytes behind the leader and, if any are left, the rest. */
  ghost function Opened(z: Sizes, base: int, s: int, ns: int): Sizes {
    if s < ns then z[base + UNIT := s][base + UNIT + s := ns - s] else z[base + UNIT := s]
  }

  /** What poolalloc writes into a new arena. */
  ghost predicate Written(mem: Memory, mem': Memory, tails: Tails, tails': Tails, base: int, s: int, ns: int,
      link: int) {
    var b, limit := base + UNIT, base + UNIT + ns;
    && base in mem' && mem'[base].magic == MAGIC_E && mem'[base].size == UNIT && mem'[base].csize == ns + UNIT
      && mem'[base].clink == link
    && b in mem' && mem'[b].magic == MAGIC_A && mem'[b].size == s
    && (s < ns ==> b + s in mem' && mem'[b + s].size == ns - s)
    && limit in mem' && mem'[limit].magic == MAGIC_E
    && HeadersBut(mem, mem', {base, b, b + s, limit})
    && tails' == if s < ns then tails[b := base][b + s := b][limit := b + s] else tails[b := base][b + s := b]
  }

  /** A new arena clear of the others. */
  lemma Grown(mem: Memory, tails: Tails, z: Sizes, arenas: seq<Arena>, free: set<int>, base: int, s: int, ns: int,
      link: int, mem': Memory, tails': Tails)
    requires Heap(mem, tails, z, arenas, free, NIL)
    requires 0 < base && UNIT <= s <= ns && s % UNIT == 0 && ns % UNIT == 0 && base + UNIT + ns + MARK <= LIMIT
    requires forall i {:trigger arenas[i]} :: 0 <= i < |arenas| ==>
      Separate(Arena(base, base + UNIT + ns, link), arenas[i])
    requires Written(mem, mem', tails, tails', base, s, ns, link)
    ensures Heap(mem', tails', Opened(z, base, s, ns), [Arena(base, base + UNIT + ns, link)] + arenas, free,
      if s < ns then base + UNIT + s else NIL)
    ensures base !in z && base + UNIT !in z && (s < ns ==> base + UNIT + s !in z) && base + UNIT + ns !in z
  {
    var a, z' := Arena(base, base + UNIT + ns, link), Opened(z, base, s, ns);
    GrownClear(mem, tails, z, arenas, free, a);
    GrownTiled(z, a, s);
    GrownArenas(mem, tails, z, arenas, free, a, s, mem', tails');
    GrownCovered(mem, tails, z, arenas, free, a, s);
    GrownBlocks(mem, tails, z, arenas, free, a, s, mem', tails');
  }

  lemma GrownTiled(z: Sizes, a: Arena, s: int)
    requires UNIT <= s <= a.limit - a.base - UNIT && s % UNIT == 0 && (a.limit - a.base) % UNIT == 0
    ensures var z' := Opened(z, a.base, s, a.limit - a.base - UNIT);
      Tiled(z', a.base + UNIT, a.limit) && Within(z', a, a.base + UNIT)
        && (a.base + UNIT + s < a.limit ==> Within(z', a, a.base + UNIT + s))
  {
    var z' := Opened(z, a.base, s, a.limit - a.base - UNIT);
    TwoPieces(z', a.base + UNIT, a.limit);
  }

  lemma TwoPieces(z: Sizes, from: int, limit: int)
    requires Piece(z, from, limit) && var mid := from + z[from]; mid < limit ==>
      Piece(z, mid, limit) && mid + z[mid] == limit
    ensures Tiled(z, from, limit) && OnWalk(z, from, limit, from) && var mid := from + z[from]; mid < limit ==>
      OnWalk(z, from, limit, mid)
  {
    var mid := from + z[from];
    if mid < limit {
      assert Tiled(z, limit, limit);
      assert Tiled(z, mid, limit);
      assert OnWalk(z, mid, limit, mid);
    }
  }

  lemma GrownCovered(mem: Memory, tails: Tails, z: Sizes, arenas: seq<Arena>, free: set<int>, a: Arena, s: int)
    requires Heap(mem, tails, z, arenas, free, NIL) && a.base + UNIT + s <= a.limit && 0 <= s
    requires forall i {:trigger arenas[i]} :: 0 <= i < |arenas| ==> Separate(a, arenas[i])
    requires var z' := Opened(z, a.base, s, a.limit - a.base - UNIT);
      Within(z', a, a.base + UNIT) && (a.base + UNIT + s < a.limit ==> Within(z', a, a.base + UNIT + s))
    ensures Covered(Opened(z, a.base, s, a.limit - a.base - UNIT), [a] + arenas)
  {
    var z', arenas' := Opened(z, a.base, s, a.limit - a.base - UNIT), [a] + arenas;
    forall x | x in z'
      ensures Somewhere(z', arenas', x)
    {
      if x in z && x != a.base + UNIT && (x != a.base + UNIT + s || x >= a.limit) {
        var i := Home(mem, tails, z, arenas, free, NIL, x);
        OldTiled(z, z', a, arenas[i]);
        assert arenas'[i + 1] == arenas[i];
      } else {
        assert arenas'[0] == a;
      }
    }
  }

  lemma GrownClear(mem: Memory, tails: Tails, z: Sizes, arenas: seq<Arena>, free: set<int>, a: Arena)
    requires Heap(mem, tails, z, arenas, free, NIL) && a.base <= a.limit
    requires forall i {:trigger arenas[i]} :: 0 <= i < |arenas| ==> Separate(a, arenas[i])
    ensures forall x :: x in z ==> z[x] >= UNIT && (x + z[x] < a.base || x > a.limit)
  {
    forall x | x in z
      ensures z[x] >= UNIT && (x + z[x] < a.base || x > a.limit)
    {
      var i := Home(mem, tails, z, arenas, free, NIL, x);
    }
  }

  lemma OldTiled(z: Sizes, z': Sizes, a: Arena, o: Arena)
    requires Separate(a, o) && o.base <= o.limit
    requires forall x {:trigger x in z'} :: !(a.base <= x < a.limit) ==>
      (x in z <==> x in z') && (x in z ==> z'[x] == z[x])
    ensures Tiled(z', o.base + UNIT, o.limit) <==> Tiled(z, o.base + UNIT, o.limit)
    ensures forall b :: Within(z', o, b) <==> Within(z, o, b)
  {
    TileFrame(z, z', o.base + UNIT, o.limit);
  }

  lemma GrownArenas(mem: Memory, tails: Tails, z: Sizes, arenas: seq<Arena>, free: set<int>, a: Arena, s: int,
      mem': Memory, tails': Tails)
    requires Heap(mem, tails, z, arenas, free, NIL)
    requires 0 < a.base && a.base + UNIT < a.limit && UNIT <= s <= a.limit - a.base - UNIT && a.limit + MARK <= LIMIT
    requires forall i {:trigger arenas[i]} :: 0 <= i < |arenas| ==> Separate(a, arenas[i])
    requires var ns := a.limit - a.base - UNIT;
      Written(mem, mem', tails, tails', a.base, s, ns, a.link)
        && Tiled(Opened(z, a.base, s, ns), a.base + UNIT, a.limit)
    ensures Arenas(mem', tails', Opened(z, a.base, s, a.limit - a.base - UNIT), [a] + arenas)
  {
    var z', arenas' := Opened(z, a.base, s, a.limit - a.base - UNIT), [a] + arenas;
    forall j | 0 <= j < |arenas'|
      ensures ArenaOk(mem', tails', z', arenas'[j])
    {
      if j > 0 {
        assert arenas'[j] == arenas[j - 1];
        assert ArenaOk(mem, tails, z, arenas[j - 1]);
        OldTiled(z, z', a, arenas[j - 1]);
      }
    }
    forall j, k | 0 <= j < k < |arenas'|
      ensures Separate(arenas'[j], arenas'[k])
    {
      assert arenas'[k] == arenas[k - 1];
      if j > 0 {
        Elsewhere(mem, tails, z, arenas, j - 1, k - 1);
        assert ArenaOk(mem, tails, z, arenas[j - 1]);
      }
    }
  }

  lemma GrownBlocks(mem: Memory, tails: Tails, z: Sizes, arenas: seq<Arena>, free: set<int>, a: Arena, s: int,
      mem': Memory, tails': Tails)
    requires Heap(mem, tails, z, arenas, free, NIL) && 0 < a.base && UNIT <= s <= a.limit - a.base - UNIT
    requires forall x :: x in z ==> z[x] >= UNIT && (x + z[x] < a.base || x > a.limit)
    requires Written(mem, mem', tails, tails', a.base, s, a.limit - a.base - UNIT, a.link)
    ensures var z', e := Opened(z, a.base, s, a.limit - a.base - UNIT), if a.base + UNIT + s < a.limit then
      a.base + UNIT + s else NIL;
      e !in free && free <= z'.Keys && forall x {:trigger BlockOk(mem', tails', z', free, e, x)} :: x in z' ==>
        BlockOk(mem', tails', z', free, e, x)
  {
    var z', e := Opened(z, a.base, s, a.limit - a.base - UNIT), if a.base + UNIT + s < a.limit then a.base + UNIT + s
      else NIL;
    NotNil(mem, tails, z, arenas, free, NIL);
    forall x | x in z'
      ensures BlockOk(mem', tails', z', free, e, x)
    {
      if x in z {
        assert BlockOk(mem, tails, z, free, NIL, x);
      }
    }
  }

  /** The bytes in blocks that are not free. */
  ghost function Used(z: Sizes, free: set<int>): int {
    Sum(z, z.Keys - free)
  }

  lemma UsedOut(z: Sizes, free: set<int>, t: int)
    requires t in z && t in free
    ensures Used(z, free - {t}) == Used(z, free) + z[t]
  {
    SumWithout(z, z.Keys - (free - {t}), t);
    assert z.Keys - (free - {t}) - {t} == z.Keys - free;
  }

  lemma UsedCut(z: Sizes, free: set<int>, b: int, s: int)
    requires b in z && b !in free && b + s !in z && b + s !in free
    ensures Used(Cut(z, b, s), free) == Used(z, free)
  {
    var z', c := Cut(z, b, s), b + s;
    SumWithout(z, z.Keys - free, b);
    SumWithout(z', z'.Keys - free, c);
    SumWithout(z', z'.Keys - free - {c}, b);
    assert z'.Keys - free - {c} - {b} == z.Keys - free - {b};
    SumSame(z, z', z.Keys - free - {b});
  }

  lemma UsedJoin(z: Sizes, free: set<int>, b: int)
    requires b in z && z[b] > 0 && b !in free && b + z[b] in z && b + z[b] !in free
    ensures Used(Merged(z, b), free) == Used(z, free)
  {
    var z', c := Merged(z, b), b + z[b];
    SumWithout(z', z'.Keys - free, b);
    SumWithout(z, z.Keys - free, c);
    SumWithout(z, z.Keys - free - {c}, b);
    assert z.Keys - free - {c} - {b} == z'.Keys - free - {b};
    SumSame(z, z', z.Keys - free - {c} - {b});
  }

  lemma UsedNew(z: Sizes, free: set<int>, base: int, s: int, ns: int)
    requires 0 < s <= ns && base + UNIT !in z && (s < ns ==> base + UNIT + s !in z) && free <= z.Keys
    ensures Used(Opened(z, base, s, ns), free) == Used(z, free) + ns
  {
    var z', b := Opened(z, base, s, ns), base + UNIT;
    SumWithout(z', z'.Keys - free, b);
    if s < ns {
      SumWithout(z', z'.Keys - free - {b}, b + s);
      assert z'.Keys - free - {b} - {b + s} == z.Keys - free;
    } else {
      assert z'.Keys - free - {b} == z.Keys - free;
    }
    SumSame(z, z', z.Keys - free);
  }
}
