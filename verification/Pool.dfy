/**
  poolalloc and poolfree of emu/alloc.c: best fit from the tree of free blocks, splitting, growth
  under the pool's cap, and joining with both neighbours.
 */
module Pool {
  import opened PoolTree
  import opened PoolTiles
  import opened FreeTree
  import opened PoolHeap

  const DATA := 8
  const BHDRSIZE := 16
  const MAXREQUEST := 0x4000_0000

  /** The size of the block a request needs: header and tail added, rounded up. */
  function Rounded(size: int): int {
    var n := size + BHDRSIZE + UNIT - 1;
    n - n % UNIT
  }

  /** The header at an address, whatever it holds. */
  function HeaderAt(mem: Memory, a: int): Bhdr {
    if a in mem then mem[a] else Bhdr(0, 0, 0, 0, 0, 0, 0, 0, 0)
  }

  /** With an end mark. */
  function Marked(mem: Memory, e: int): Memory {
    mem[e := HeaderAt(mem, e).(magic := MAGIC_E)]
  }

  /** The headers at some addresses are as they were. */
  ghost predicate Kept(mem: Memory, mem': Memory, s: set<int>) {
    forall a :: a in s && a in mem ==> a in mem' && mem'[a] == mem[a]
  }

  /** Some blocks are there and have their sizes still. */
  ghost predicate SizesKept(z: Sizes, z': Sizes, s: set<int>) {
    forall a :: a in s ==> a in z && a in z' && z'[a] == z[a]
  }

  /** The smallest free block of at least s bytes. */
  ghost predicate BestOf(z: Sizes, free: set<int>, s: int, b: int) {
    b in free && b in z && z[b] >= s && forall a :: a in free ==> a in z && (z[a] >= s ==> z[a] >= z[b])
  }

  /** The memory from brk to top is no arena's. */
  ghost predicate ClearOf(arenas: seq<Arena>, brk: int, top: int) {
    forall i {:trigger arenas[i]} :: 0 <= i < |arenas| ==> arenas[i].limit + MARK <= brk || top <= arenas[i].base
  }

  function Max(a: int, b: int): int {
    if a > b then a else b
  }

  /** From the blocks z, of which some are free, b was served for s bytes: no other block in use is touched. */
  ghost predicate Served(z: Sizes, free: set<int>, z': Sizes, free': set<int>, s: int, b: int) {
    && b in z' && s <= z'[b] && (z'[b] == s || z'[b] < s + s / 4)
    && b !in z.Keys - free && z'.Keys - free' == z.Keys - free + {b}
    && forall a :: a in z && a !in free ==> a in z' && z'[a] == z[a]
  }

  /** A new arena was opened for a request of s: for blocks it has the larger of s and the chunk, if the room under the
      cap is enough for that, and the whole units of the room if not. */
  ghost predicate Opens(arenas: seq<Arena>, arenas': seq<Arena>, s: int, chunk: int, room: int) {
    && |arenas'| > 0 && arenas'[1..] == arenas
    && var n := arenas'[0].limit - arenas'[0].base - UNIT;
      if s <= room && chunk <= room then s <= n && chunk <= n && n in {s, chunk}
      else n % UNIT == 0 && s <= n <= room < n + UNIT
  }

  /** The leaders are linked from the newest arena on. */
  ghost predicate Chained(chain: int, arenas: seq<Arena>)
    decreases |arenas|
  {
    chain == (if |arenas| == 0 then NIL else arenas[0].base) && (|arenas| > 0 ==> Chained(arenas[0].link, arenas[1..]))
  }

  /** What the arenas take from the cap. */
  ghost function Total(arenas: seq<Arena>): int {
    if |arenas| == 0 then 0 else arenas[0].limit - arenas[0].base + MARK + Total(arenas[1..])
  }

  /** The free blocks of the headers stay in place. */
  lemma TreeFrame(mem: Memory, mem': Memory, root: int, t: Tree)
    requires TreeOk(mem, root, t) && NIL !in mem' && forall a :: a in Addrs(t) && a in mem ==>
      a in mem' && mem'[a] == mem[a]
    ensures TreeOk(mem', root, t)
  {
    RepAddrs(mem, root, NIL, t);
    RepFrame(mem, mem', root, NIL, t);
  }

  /** q is the smallest free block larger than s, when no free block has size s; NIL when none is large enough. */
  ghost predicate Fits(mem: Memory, free: set<int>, s: int, q: int) {
    && (q != NIL ==> q in free && q in mem && mem[q].size > s)
    && forall a :: a in free ==> a in mem && (mem[a].size >= s ==> q != NIL && q in mem && mem[a].size >= mem[q].size)
  }

  /** The search of poolalloc at the subtree u: q is right for everything outside it. */
  ghost predicate Fitting(mem: Memory, all: set<int>, u: Tree, s: int, q: int) {
    && (q != NIL ==> q in all && q in mem && mem[q].size > s)
    && (forall a :: a in all ==> a in mem)
    && (forall a :: a in all && a !in Addrs(u) && mem[a].size >= s ==> q != NIL && mem[a].size >= mem[q].size)
    && (q != NIL ==> forall a :: a in Addrs(u) && a in mem ==> mem[a].size < mem[q].size)
  }

  lemma {:induction false} SizesBetween(mem: Memory, p: int, par: int, t: Tree, lo: int, hi: int)
    requires Rep(mem, p, par, t) && Sorted(t, lo, hi)
    ensures forall a :: a in Addrs(t) ==> a in mem && lo < mem[a].size < hi
    decreases t
  {
    if t.Node? {
      RingAddrs(mem, t.size, t.ring);
      SizesBetween(mem, mem[p].left, p, t.l, lo, t.size);
      SizesBetween(mem, mem[p].right, p, t.r, t.size, hi);
    }
  }

  lemma FitLeft(mem: Memory, all: set<int>, p: int, par: int, u: Tree, lo: int, hi: int, s: int, q: int)
    requires Rep(mem, p, par, u) && Sorted(u, lo, hi) && u.Node? && Addrs(u) <= all && Fitting(mem, all, u, s, q)
      && s < u.size
    ensures p in mem && mem[p].size == u.size && Fitting(mem, all, u.l, s, p) && Addrs(u.l) <= all
    ensures Rep(mem, mem[p].left, p, u.l) && Sorted(u.l, lo, u.size)
  {
    RingAddrs(mem, u.size, u.ring);
    RepAddrs(mem, p, par, u);
    SizesBetween(mem, mem[p].left, p, u.l, lo, u.size);
    SizesBetween(mem, mem[p].right, p, u.r, u.size, hi);
  }

  lemma FitRight(mem: Memory, all: set<int>, p: int, par: int, u: Tree, lo: int, hi: int, s: int, q: int)
    requires Rep(mem, p, par, u) && Sorted(u, lo, hi) && u.Node? && Addrs(u) <= all && Fitting(mem, all, u, s, q)
      && s > u.size
    ensures p in mem && mem[p].size == u.size && Fitting(mem, all, u.r, s, q) && Addrs(u.r) <= all
    ensures Rep(mem, mem[p].right, p, u.r) && Sorted(u.r, u.size, hi)
  {
    RingAddrs(mem, u.size, u.ring);
    RepAddrs(mem, p, par, u);
    SizesBetween(mem, mem[p].left, p, u.l, lo, u.size);
  }

  /** The block after a node's in its ring. */
  lemma RingNext(mem: Memory, p: int, par: int, u: Tree)
    requires Rep(mem, p, par, u) && p != NIL
    ensures u.Node? && p in mem && mem[p].size == u.size && mem[p].fwd in Addrs(u) && mem[p].fwd in mem
      && mem[mem[p].fwd].size == u.size
  {
    RepAddrs(mem, p, par, u);
    RingAddrs(mem, u.size, u.ring);
    assert Linked(mem, u.size, u.ring, 0);
    assert After(u.ring, 0) in u.ring;
  }

  lemma FitStarts(mem: Memory, root: int, t: Tree, s: int)
    requires Rep(mem, root, NIL, t)
    ensures Fitting(mem, Addrs(t), t, s, NIL)
  {
    RepAddrs(mem, root, NIL, t);
  }

  /** The loop of poolalloc: a block of exactly the size if there is one, else the best larger one. */
  method FindFit(free: FreeList, size: int) returns (exact: int, q: int)
    requires free.Ordered()
    ensures exact != NIL ==> exact in Addrs(free.tree) && exact in free.mem && free.mem[exact].size == size
    ensures exact == NIL ==> Fits(free.mem, Addrs(free.tree), size, q)
  {
    hide Apart, Rep, Sorted, Addrs, Fitting, Fits;
    var t := free.root;
    q := NIL;
    ghost var u, par, lo, hi := free.tree, NIL, 0, LIMIT;
    FitStarts(free.mem, free.root, free.tree, size);
    while t != NIL
      invariant Rep(free.mem, t, par, u) && Sorted(u, lo, hi) && Addrs(u) <= Addrs(free.tree)
      invariant Fitting(free.mem, Addrs(free.tree), u, size, q)
      decreases u
    {
      RingNext(free.mem, t, par, u);
      if free.mem[t].size == size {
        exact := free.mem[t].fwd;
        return;
      }
      if size < free.mem[t].size {
        FitLeft(free.mem, Addrs(free.tree), t, par, u, lo, hi, size, q);
        q := t;
        hi, u, par := u.size, u.l, t;
        t := free.mem[t].left;
      } else {
        FitRight(free.mem, Addrs(free.tree), t, par, u, lo, hi, size, q);
        lo, u, par := u.size, u.r, t;
        t := free.mem[t].right;
      }
    }
    FitEnds(free.mem, Addrs(free.tree), par, u, size, q);
    exact := NIL;
  }

  lemma FitEnds(mem: Memory, all: set<int>, par: int, u: Tree, s: int, q: int)
    requires Rep(mem, NIL, par, u) && Fitting(mem, all, u, s, q)
    ensures Fits(mem, all, s, q)
  {
    RepAddrs(mem, NIL, par, u);
  }

  /** Adding to the tree changes the magic and the links of free blocks, and nothing else. */
  lemma GiveBackTags(mem: Memory, mem': Memory, tails: Tails, z: Sizes, arenas: seq<Arena>, free: set<int>, x: int,
      q: int)
    requires Heap(mem, tails, z, arenas, free, x) && x in {q, NIL} && q in z && q !in free && q + z[q] !in free
    requires forall p :: p in z && p + z[p] == q ==> p !in free
    requires q in mem && LinksOnly(mem[q := mem[q].(magic := MAGIC_F)], mem', free + {q})
    ensures Heap(mem', tails, z, arenas, free + {q}, NIL) && HeadersBut(mem, mem', free + {q})
  {
    Added(mem, tails, z, arenas, free, x, q);
    Relink(mem[q := mem[q].(magic := MAGIC_F)], mem', free + {q}, tails, z, arenas, free + {q}, NIL);
  }

  lemma TakeTags(mem: Memory, mem': Memory, tails: Tails, z: Sizes, arenas: seq<Arena>, free: set<int>, t: int)
    requires Heap(mem, tails, z, arenas, free, NIL) && t in free && LinksOnly(mem, mem', free)
    ensures t in z && t in mem' && mem'[t].size == z[t] && z[t] >= UNIT && t + z[t] !in free
      && HeadersBut(mem, mem', free)
    ensures Heap(mem', tails, z, arenas, free - {t}, t)
    ensures forall p :: p in z && p + z[p] == t ==> p !in free
  {
    Out(mem, tails, z, arenas, free, t);
    Relink(mem, mem', free, tails, z, arenas, free - {t}, t);
    var i := Home(mem, tails, z, arenas, free, NIL, t);
    assert BlockOk(mem, tails, z, free, NIL, t);
    forall p | p in z && p + z[p] == t
      ensures p !in free
    {
      assert BlockOk(mem, tails, z, free, NIL, p);
    }
  }

  lemma BlockSize(mem: Memory, tails: Tails, z: Sizes, arenas: seq<Arena>, free: set<int>, x: int, q: int)
    requires Heap(mem, tails, z, arenas, free, x) && q in z
    ensures q in mem && mem[q].size == z[q] && UNIT <= z[q] < LIMIT && q > 0
  {
    var i := Home(mem, tails, z, arenas, free, x, q);
    assert BlockOk(mem, tails, z, free, x, q);
  }

  lemma SplitNeighbours(mem: Memory, tails: Tails, z: Sizes, arenas: seq<Arena>, free: set<int>, q: int, s: int)
    requires Heap(mem, tails, z, arenas, free, NIL) && q in z && q !in free && UNIT <= s < z[q]
    ensures q + s !in z && q + s !in free && q + s != NIL && forall p ::
      p in Cut(z, q, s) && p + Cut(z, q, s)[p] == q + s ==> p !in free
  {
    var i := Home(mem, tails, z, arenas, free, NIL, q);
    if q + s in z {
      BlocksApart(mem, tails, z, arenas, free, NIL, q, q + s);
    }
    forall p | p in Cut(z, q, s) && p + Cut(z, q, s)[p] == q + s
      ensures p !in free
    {
      if p in free {
        BlocksApart(mem, tails, z, arenas, free, NIL, p, q);
      }
    }
  }

  lemma OpenClear(mem: Memory, tails: Tails, z: Sizes, arenas: seq<Arena>, free: set<int>, a: Arena)
    requires Heap(mem, tails, z, arenas, free, NIL) && a.base <= a.limit
    requires forall i {:trigger arenas[i]} :: 0 <= i < |arenas| ==> Separate(a, arenas[i])
    ensures forall x :: a.base <= x <= a.limit ==> x !in z && x !in free
    ensures forall p :: p in z ==> p in mem && !(a.base <= p + z[p] <= a.limit)
  {
    GrownClear(mem, tails, z, arenas, free, a);
    forall p | p in z
      ensures p in mem && !(a.base <= p + z[p] <= a.limit)
    {
      assert BlockOk(mem, tails, z, free, NIL, p);
    }
  }

  /** The end mark may as well be written before the rest goes into the tree. */
  lemma MarkLater(mB: Memory, mC: Memory, free: set<int>, q: int, e: int)
    requires q in mB && e != q && e !in free && LinksOnly(mB[q := mB[q].(magic := MAGIC_F)], mC, free + {q})
    ensures var mA := Marked(mB, e); LinksOnly(mA[q := mA[q].(magic := MAGIC_F)], Marked(mC, e), free + {q})
  {
    assert mC.Keys == mB.Keys;
  }

  lemma RestFreed(mB: Memory, mC: Memory, tails: Tails, z: Sizes, arenas: seq<Arena>, free: set<int>, a: Arena, s: int)
    requires UNIT <= s && a.base + UNIT + s < a.limit
    requires forall x :: a.base <= x <= a.limit ==> x !in z && x !in free
    requires forall p :: p in z ==> !(a.base <= p + z[p] <= a.limit)
    requires var q := a.base + UNIT + s; q in mB && LinksOnly(mB[q := mB[q].(magic := MAGIC_F)], mC, free + {q})
    requires Heap(Marked(mB, a.limit), tails, Opened(z, a.base, s, a.limit - a.base - UNIT), [a] + arenas, free,
      a.base + UNIT + s)
    ensures var q := a.base + UNIT + s;
      && Heap(Marked(mC, a.limit), tails, Opened(z, a.base, s, a.limit - a.base - UNIT), [a] + arenas, free + {q}, NIL)
      && HeadersBut(Marked(mB, a.limit), Marked(mC, a.limit), free + {q})
  {
    var q := a.base + UNIT + s;
    MarkLater(mB, mC, free, q, a.limit);
    GiveBackTags(Marked(mB, a.limit), Marked(mC, a.limit), tails, Opened(z, a.base, s, a.limit - a.base - UNIT),
      [a] + arenas, free, q, q);
  }

  lemma UsedGiven(z: Sizes, free: set<int>, q: int)
    requires q in z && q !in free
    ensures Used(z, free + {q}) == Used(z, free) - z[q]
  {
    UsedOut(z, free + {q}, q);
    assert free + {q} - {q} == free;
  }

  class Pool {
    const maxsize: int
    const chunk: int
    const free: FreeList
    var tails: Tails
    var chain: int
    var cursize: int
    var arenasize: int
    var hw: int
    var nalloc: int
    var nfree: int
    var nbrk: int
    ghost var z: Sizes
    ghost var arenas: seq<Arena>

    ghost function Free(): set<int>
      reads this, free
    {
      Addrs(free.tree)
    }

    ghost function Allocated(): set<int>
      reads this, free
    {
      z.Keys - Free()
    }

    /** The tree of free blocks and the boundary tags are in order. */
    ghost predicate Tagged()
      reads this, free
    {
      free.Ordered() && Heap(free.mem, tails, z, arenas, Free(), NIL)
    }

    ghost predicate Counted()
      reads this, free
    {
      && chunk % UNIT == 0 && Chained(chain, arenas)
      && cursize == Used(z, Free()) && cursize <= hw
      && Total(arenas) <= arenasize <= maxsize
    }

    ghost predicate Valid()
      reads this, free
    {
      Tagged() && Counted()
    }

    constructor (maxsize: nat, chunk: nat)
      requires chunk % UNIT == 0
      ensures Valid() && fresh(free) && this.maxsize == maxsize && this.chunk == chunk && z == map[] && arenas == []
    {
      this.maxsize, this.chunk := maxsize, chunk;
      free := new FreeList();
      tails, chain, cursize, arenasize, hw, nalloc, nfree, nbrk := map[], NIL, 0, 0, 0, 0, 0, 0;
      z, arenas := map[], [];
    }

    /** A free block leaves the tree and is marked allocated. */
    method Take(t: int)
      requires Tagged() && t in Free()
      modifies free
      ensures Tagged() && Free() == old(Free()) - {t} && t in z && t + z[t] !in Free() && t in free.mem
        && free.mem[t].size == z[t]
      ensures Used(z, Free()) == Used(z, old(Free())) + z[t] && Kept(old(free.mem), free.mem, old(Allocated()))
    {
      hide Apart, Rep, Sorted, Addrs, Heap, Remove, Used;
      Detach(t);
      Taken(free.mem, tails, z, arenas, Free(), t);
      ghost var m := free.mem;
      free.mem := free.mem[t := free.mem[t].(magic := MAGIC_A)];
      TreeFrame(m, free.mem, free.root, free.tree);
    }

    /** A block between blocks that are not free goes into the tree. */
    method GiveBack(q: int, ghost x: int)
      requires free.Ordered() && Heap(free.mem, tails, z, arenas, Free(), x) && x in {q, NIL}
      requires q in z && q !in Free() && q + z[q] !in Free() && forall p :: p in z && p + z[p] == q ==> p !in Free()
      modifies free
      ensures Tagged() && Free() == old(Free()) + {q} && HeadersBut(old(free.mem), free.mem, old(Free()) + {q})
    {
      BlockSize(free.mem, tails, z, arenas, Free(), x, q);
      hide Apart, Rep, Sorted, Addrs, Heap, Insert;
      free.PoolAdd(q);
      GiveBackTags(old(free.mem), free.mem, tails, z, arenas, old(Free()), x, q);
    }

    /** Blocks in use take their sizes from the pool's count. */
    method Charge(b: int)
      requires b in free.mem
      modifies this`cursize, this`hw
      ensures cursize == old(cursize) + free.mem[b].size && hw == Max(old(hw), cursize)
    {
      cursize := cursize + free.mem[b].size;
      if cursize > hw {
        hw := cursize;
      }
    }

    /** The end of a block too large is cut off and freed. */
    method SplitOff(q: int, size: int)
      requires Tagged() && q in Allocated() && q + z[q] !in Free() && UNIT <= size < z[q] && size % UNIT == 0
      modifies this`tails, this`z, free
      ensures Tagged() && z == Cut(old(z), q, size) && Free() == old(Free()) + {q + size} && q + size !in old(z)
        && q + size !in old(Free())
      ensures HeadersBut(old(free.mem), free.mem, old(Free()) + {q, q + size}) && q in free.mem
        && free.mem[q].size == size
    {
      BlockSize(free.mem, tails, z, arenas, Free(), NIL, q);
      hide Apart, Rep, Sorted, Addrs, Heap;
      ghost var m, tl := free.mem, tails;
      var ns := free.mem[q].size - size;
      free.mem := free.mem[q := free.mem[q].(size := size)];
      tails := tails[q + size := q];
      var t := q + size;
      free.mem := free.mem[t := HeaderAt(free.mem, t).(size := ns)];
      tails := tails[t + ns := t];
      Split(m, tl, z, arenas, Free(), q, size, free.mem, tails);
      SplitNeighbours(m, tl, z, arenas, Free(), q, size);
      TreeFrame(m, free.mem, free.root, free.tree);
      z := Cut(z, q, size);
      GiveBack(t, t);
    }

    /** The leader of a new arena, the block asked for, and the size of the rest. */
    method WriteArena(base: int, size: int, ns: int) returns (t: int)
      requires 0 < base && UNIT <= size <= ns
      modifies this`tails, this`chain, free`mem
      ensures t == base + UNIT && chain == base && t in free.mem && free.mem[t].size == size
      ensures size < ns ==> t + size in free.mem && free.mem[t + size].size == ns - size
      ensures Written(old(free.mem), Marked(free.mem, t + ns), old(tails), tails, base, size, ns, old(chain))
      ensures HeadersBut(old(free.mem), free.mem, {base, t, t + size}) && (NIL !in old(free.mem) ==> NIL !in free.mem)
    {
      free.mem := free.mem[base := HeaderAt(free.mem, base).(magic := MAGIC_E, size := UNIT, csize := ns + UNIT,
        clink := chain)];
      chain := base;
      tails := tails[base + UNIT := base];
      t := base + UNIT;
      free.mem := free.mem[t := HeaderAt(free.mem, t).(magic := MAGIC_A, size := size)];
      tails := tails[t + size := t];
      if ns - size > 0 {
        var q := t + size;
        free.mem := free.mem[q := HeaderAt(free.mem, q).(size := ns - size)];
        tails := tails[q + (ns - size) := q];
      }
    }

    method MarkEnd(e: int)
      modifies free`mem
      ensures free.mem == Marked(old(free.mem), e)
    {
      free.mem := free.mem[e := HeaderAt(free.mem, e).(magic := MAGIC_E)];
    }

    /** The tags of a new arena at base, complete but for its end mark. */
    method LayArena(base: int, size: int, ns: int) returns (t: int)
      requires Tagged() && 0 < base && UNIT <= size <= ns && size % UNIT == 0 && ns % UNIT == 0
        && base + UNIT + ns + MARK <= LIMIT
      requires forall i {:trigger arenas[i]} :: 0 <= i < |arenas| ==>
        Separate(Arena(base, base + UNIT + ns, chain), arenas[i])
      modifies this`tails, this`chain, free`mem
      ensures free.Ordered() && t == base + UNIT && chain == base && t in free.mem && free.mem[t].size == size
      ensures size < ns ==> t + size in free.mem && free.mem[t + size].size == ns - size
      ensures Heap(Marked(free.mem, t + ns), tails, Opened(z, base, size, ns),
        [Arena(base, t + ns, old(chain))] + arenas, Free(),
                   if size < ns then t + size else NIL)
      ensures HeadersBut(old(free.mem), free.mem, {base, t, t + size})
      ensures forall x :: base <= x <= t + ns ==> x !in z && x !in Free()
      ensures forall p :: p in z ==> p in old(free.mem) && !(base <= p + z[p] <= t + ns)
    {
      ghost var m0, tl, a := free.mem, tails, Arena(base, base + UNIT + ns, chain);
      OpenClear(m0, tl, z, arenas, Free(), a);
      hide Apart, Rep, Sorted, Addrs, Heap;
      t := WriteArena(base, size, ns);
      Grown(m0, tl, z, arenas, Free(), base, size, ns, a.link, Marked(free.mem, a.limit), tails);
      TreeFrame(m0, free.mem, free.root, free.tree);
    }

    /** A new arena at base: the leader, the block asked for, the rest as a free block, the end mark. */
    method OpenArena(base: int, size: int, ns: int) returns (t: int)
      requires Tagged() && 0 < base && UNIT <= size <= ns && size % UNIT == 0 && ns % UNIT == 0
        && base + UNIT + ns + MARK <= LIMIT
      requires forall i {:trigger arenas[i]} :: 0 <= i < |arenas| ==>
        Separate(Arena(base, base + UNIT + ns, chain), arenas[i])
      modifies this`tails, this`z, this`arenas, this`chain, free
      ensures Tagged() && t == base + UNIT && t !in old(z) && z == Opened(old(z), base, size, ns) && t in free.mem
        && free.mem[t].size == size
      ensures Free() == (if size < ns then old(Free()) + {t + size} else old(Free())) && t !in Free()
      ensures size < ns ==> t + size !in old(z)
      ensures arenas == [Arena(base, base + UNIT + ns, old(chain))] + old(arenas) && chain == base
      ensures Kept(old(free.mem), free.mem, old(Allocated()))
    {
      hide Apart, Rep, Sorted, Addrs, Heap, Insert;
      ghost var f0, a := Free(), Arena(base, base + UNIT + ns, chain);
      t := LayArena(base, size, ns);
      var q := t + (if size < ns then size else 0);
      ghost var mB := free.mem;
      if size < ns {
        free.PoolAdd(q);
        RestFreed(mB, free.mem, tails, z, arenas, f0, a, size);
      }
      ghost var mC := free.mem;
      MarkEnd(q + free.mem[q].size);
      TreeFrame(mC, free.mem, free.root, free.tree);
      z := Opened(z, base, size, ns);
      arenas := [a] + arenas;
    }

    /** A block of exactly the size. */
    method ServeExact(t: int, size: int)
      requires Valid() && t in Free() && t in z && z[t] == size && size >= UNIT
      modifies this`cursize, this`hw, free
      ensures Valid() && Served(z, old(Free()), z, Free(), size, t) && cursize == old(cursize) + size
        && hw == Max(old(hw), cursize)
      ensures Kept(old(free.mem), free.mem, old(Allocated()))
    {
      hide Apart, Rep, Sorted, Addrs, Heap;
      Take(t);
      Charge(t);
    }

    /** A larger block, whole if cutting it would leave less than a quarter of the request. */
    method ServeLarger(q: int, size: int)
      requires Valid() && q in Free() && q in z && z[q] > size >= UNIT && size % UNIT == 0
      modifies this`tails, this`z, this`cursize, this`hw, free
      ensures Valid() && Served(old(z), old(Free()), z, Free(), size, q) && cursize == old(cursize) + z[q]
        && hw == Max(old(hw), cursize)
      ensures z[q] == if 4 * (old(z)[q] - size) < size then old(z)[q] else size
      ensures Kept(old(free.mem), free.mem, old(Allocated()))
    {
      FreeKnown(free.mem, tails, z, arenas, Free());
      hide Apart, Rep, Sorted, Addrs, Heap, Used, Cut, Chained, Total;
      ghost var f0 := Free();
      Take(q);
      var frag := free.mem[q].size - size;
      if frag >= size / 4 {
        SplitOff(q, size);
        SplitServed(old(z), f0, q, size);
      }
      Charge(q);
    }

    /** The size of the next arena: the chunk, or the request if larger; near the cap whatever is left. */
    ghost function Growth(size: int): int
      reads this
    {
      var ns := Max(size, chunk);
      if arenasize + ns + UNIT + MARK <= maxsize then ns
      else
        var left := maxsize - arenasize - UNIT - MARK;
        left - left % UNIT
    }

    /** A request is met exactly if it fits under the cap itself. */
    lemma GrowthFits(size: int)
      requires Valid() && size % UNIT == 0
      ensures Growth(size) >= size <==> arenasize + size + UNIT + MARK <= maxsize
      ensures arenasize + Growth(size) + UNIT + MARK <= maxsize && Growth(size) % UNIT == 0
    {
    }

    /** No arena of whole units, up to the request or the chunk, fits under the cap and has more for blocks. */
    lemma GrowthMost(size: int, n: int)
      requires Valid() && size % UNIT == 0 && n % UNIT == 0 && (n <= size || n <= chunk)
        && arenasize + n + UNIT + MARK <= maxsize
      ensures n <= Growth(size) && (Growth(size) <= size || Growth(size) <= chunk)
    {
      hide Tagged;
    }

    /** The system gives n bytes at brk, or fails when they do not end before top. */
    static method Sbrk(n: int, brk: int, top: int) returns (a: int)
      ensures a == if brk + n <= top then brk else -1
    {
      a := if brk + n <= top then brk else -1;
    }

    /** poolalloc when no free block is large enough. */
    method Grow(size: int, brk: int, top: int) returns (t: int)
      requires Valid() && UNIT <= size && size % UNIT == 0 && 0 < brk && top <= LIMIT
      requires ClearOf(arenas, brk, top)
      modifies this`tails, this`z, this`arenas, this`chain, this`arenasize, this`nbrk, free
      ensures Tagged() && Chained(chain, arenas) && Total(arenas) <= arenasize <= maxsize
      ensures t != NIL <==>
        old(arenasize) + size + UNIT + MARK <= maxsize && brk + old(Growth(size)) + UNIT + MARK + UNIT - 1 <= top
      ensures t != NIL ==> Opens(old(arenas), arenas, size, chunk, maxsize - old(arenasize) - UNIT - MARK)
      ensures t == NIL ==>
        z == old(z) && arenas == old(arenas) && free.mem == old(free.mem) && Free() == old(Free())
          && tails == old(tails)
      ensures t == NIL ==>
        arenasize == old(arenasize)
          + if old(arenasize) + size + UNIT + MARK > maxsize then 0 else old(Growth(size)) + UNIT + MARK
      ensures t != NIL ==> t !in old(z) && z == Opened(old(z), t - UNIT, size, old(Growth(size)))
      ensures t != NIL ==> t > UNIT && t in free.mem && free.mem[t].size == size && t !in Free()
      ensures t != NIL ==> Free() == if size < old(Growth(size)) then old(Free()) + {t + size} else old(Free())
      ensures t != NIL && size < old(Growth(size)) ==> t + size !in old(z)
      ensures Kept(old(free.mem), free.mem, old(Allocated()))
    {
      GrowthFits(size);
      hide Apart, Rep, Sorted, Addrs, Heap;
      var ns := chunk;
      if size > ns {
        ns := size;
      }
      var ldr := UNIT;
      var alloc := ns + ldr + MARK;
      arenasize := arenasize + alloc;
      if arenasize > maxsize {
        arenasize := arenasize - alloc;
        ns := maxsize - arenasize - ldr - MARK;
        ns := ns - ns % UNIT;
        if ns < size {
          return NIL;
        }
        alloc := ns + ldr + MARK;
        arenasize := arenasize + alloc;
      }
      nbrk := nbrk + 1;
      t := Sbrk(alloc + UNIT - 1, brk, top);
      if t == -1 {
        nbrk := nbrk - 1;
        return NIL;
      }
      t := t + UNIT - 1;
      t := t - t % UNIT;
      t := OpenArena(t, size, ns);
      assert arenas[1..] == old(arenas);
    }

    /** The block for a request from the tree, NIL if none is large enough. */
    method FromTree(s: int) returns (b: int)
      requires Valid() && UNIT <= s && s % UNIT == 0
      modifies this`tails, this`z, this`cursize, this`hw, free
      ensures Valid() && 0 <= b && (b != NIL <==> Available(old(z), old(Free()), s))
      ensures b != NIL ==> Served(old(z), old(Free()), z, Free(), s, b) && BestOf(old(z), old(Free()), s, b)
      ensures b != NIL ==> z[b] == if 4 * (old(z)[b] - s) < s then old(z)[b] else s
      ensures b != NIL ==> cursize == old(cursize) + z[b] && hw == Max(old(hw), cursize)
      ensures b == NIL ==>
        z == old(z) && Free() == old(Free()) && tails == old(tails) && cursize == old(cursize) && hw == old(hw)
      ensures Kept(old(free.mem), free.mem, old(Allocated()))
    {
      var exact, q := FindFit(free, s);
      TreeBlocks(free.mem, tails, z, arenas, Free(), s, exact, q);
      hide Apart, Rep, Sorted, Addrs, Heap, Fits;
      b := NIL;
      if exact != NIL {
        ServeExact(exact, s);
        b := exact;
      } else if q != NIL {
        ServeLarger(q, s);
        b := q;
      }
    }

    /** The block for a request from a new arena, NIL if there can be none. */
    method FromSystem(s: int, brk: int, top: int) returns (b: int)
      requires Valid() && UNIT <= s && s % UNIT == 0 && 0 < brk && top <= LIMIT && ClearOf(arenas, brk, top)
      modifies this`tails, this`z, this`arenas, this`chain, this`arenasize, this`nbrk, this`cursize, this`hw, free
      ensures Valid() && 0 <= b
      ensures b != NIL <==>
        old(arenasize) + s + UNIT + MARK <= maxsize && brk + old(Growth(s)) + UNIT + MARK + UNIT - 1 <= top
      ensures b != NIL ==> Served(old(z), old(Free()), z, Free(), s, b) && z[b] == s
      ensures b != NIL ==> Opens(old(arenas), arenas, s, chunk, maxsize - old(arenasize) - UNIT - MARK)
      ensures b != NIL ==> cursize == old(cursize) + z[b] && hw == Max(old(hw), cursize)
      ensures b == NIL ==>
        z == old(z) && Free() == old(Free()) && arenas == old(arenas) && cursize == old(cursize) && hw == old(hw)
      ensures b == NIL ==>
        arenasize == old(arenasize)
          + if old(arenasize) + s + UNIT + MARK > maxsize then 0 else old(Growth(s)) + UNIT + MARK
      ensures Kept(old(free.mem), free.mem, old(Allocated()))
    {
      FreeKnown(free.mem, tails, z, arenas, Free());
      hide Apart, Rep, Sorted, Addrs, Heap;
      b := Grow(s, brk, top);
      if b != NIL {
        NewUsed(old(z), old(Free()), z, Free(), b - UNIT, s, old(Growth(s)));
        Charge(b);
      }
    }

    /** What poolalloc can serve: a request that is not absurd, from a free block, or from the system if the request
        fits under the cap and the system has the bytes of the arena, its leader and its end mark, aligned. */
    ghost predicate Servable(size: int, brk: int, top: int)
      reads this, free
    {
      0 <= size < MAXREQUEST &&
      var s, room := Rounded(size), maxsize - arenasize - UNIT - MARK;
      (exists a :: a in Free() && a in z && z[a] >= s)
      || (s <= room
          && brk + UNIT + MARK + UNIT - 1
             + (if chunk > room then room - room % UNIT else if s > chunk then s else chunk) <= top)
    }

    /** poolalloc: v is where the data of a block may go, or NIL. */
    method PoolAlloc(size: int, brk: int, top: int) returns (v: int)
      requires Valid() && 0 < brk && top <= LIMIT && ClearOf(arenas, brk, top)
      modifies this, free
      ensures Valid() && (v != NIL <==> old(Servable(size, brk, top)))
      ensures v != NIL ==> v - DATA !in old(Allocated()) && Allocated() == old(Allocated()) + {v - DATA}
      ensures v != NIL ==> Rounded(size) <= z[v - DATA]
      ensures v != NIL ==> forall a :: a in old(Allocated()) ==> a in z && z[a] == old(z)[a]
      ensures v != NIL && old(Available(z, Free(), Rounded(size))) ==> arenas == old(arenas) && v - DATA in old(Free())
      ensures v != NIL && old(Available(z, Free(), Rounded(size))) ==>
        forall a :: a in old(Free()) ==>
          a in old(z) && (old(z)[a] >= Rounded(size) ==> old(z)[a] >= old(z)[v - DATA] >= Rounded(size))
      ensures v != NIL && arenas == old(arenas) ==>
        v - DATA in old(Free()) && z[v - DATA] ==
          if 4 * (old(z)[v - DATA] - Rounded(size)) < Rounded(size) then old(z)[v - DATA] else Rounded(size)
      ensures v != NIL && !old(Available(z, Free(), Rounded(size))) ==>
        z[v - DATA] == Rounded(size)
          && Opens(old(arenas), arenas, Rounded(size), chunk, maxsize - old(arenasize) - UNIT - MARK)
      ensures v != NIL ==>
        cursize == old(cursize) + z[v - DATA] && hw == if cursize > old(hw) then cursize else old(hw)
      ensures v == NIL ==>
        z == old(z) && Free() == old(Free()) && arenas == old(arenas) && cursize == old(cursize) && hw == old(hw)
      ensures Kept(old(free.mem), free.mem, old(Allocated()))
    {
      hide Apart, Rep, Sorted, Addrs, Heap, Used, Chained, Total;
      if size < 0 || size >= MAXREQUEST {
        return NIL;
      }
      var s := Rounded(size);
      nalloc := nalloc + 1;
      var b := FromTree(s);
      if b == NIL {
        b := FromSystem(s, brk, top);
      }
      v := if b == NIL then NIL else b + DATA;
    }

    /** A free block leaves the tree, still with the magic of a free block. */
    method Detach(t: int)
      requires Tagged() && t in Free()
      modifies free
      ensures free.Ordered() && Free() == old(Free()) - {t} && Heap(free.mem, tails, z, arenas, Free(), t)
      ensures t in z && t in free.mem && free.mem[t].size == z[t] && t + z[t] !in Free() && forall p ::
        p in z && p + z[p] == t ==> p !in Free()
      ensures Used(z, Free()) == Used(z, old(Free())) + z[t] && Kept(old(free.mem), free.mem, old(Allocated()))
    {
      FreeKnown(free.mem, tails, z, arenas, Free());
      UsedOut(z, Free(), t);
      hide Apart, Rep, Sorted, Addrs, Heap, Used, Remove;
      free.PoolDel(t);
      TakeTags(old(free.mem), free.mem, tails, z, arenas, old(Free()), t);
    }

    /** The block b takes in the block c behind it. */
    method Fuse(b: int, c: int, ghost x: int)
      requires free.Ordered() && Heap(free.mem, tails, z, arenas, Free(), x) && x in {b, c} && b in Allocated()
        && c in Allocated() && c == b + z[b]
      modifies this`tails, this`z, free`mem
      ensures free.Ordered() && Heap(free.mem, tails, z, arenas, Free(), if x == b then b else NIL)
        && z == Merged(old(z), b)
      ensures Used(z, Free()) == old(Used(z, Free())) && Kept(old(free.mem), free.mem, old(Allocated()) - {b, c})
    {
      BlockSize(free.mem, tails, z, arenas, Free(), x, b);
      BlockSize(free.mem, tails, z, arenas, Free(), x, c);
      UsedJoin(z, Free(), b);
      hide Apart, Rep, Sorted, Addrs, Heap, Used;
      ghost var m := free.mem;
      free.mem := free.mem[c := free.mem[c].(magic := 0)];
      free.mem := free.mem[b := free.mem[b].(size := free.mem[b].size + free.mem[c].size)];
      Join(m, tails, z, arenas, Free(), x, b, free.mem);
      TreeFrame(m, free.mem, free.root, free.tree);
      tails := tails[b + free.mem[b].size := b];
      z := Merged(z, b);
    }

    /** A block given back takes in the free block behind it. */
    method JoinForward(b: int, c: int)
      requires Tagged() && b in Allocated() && c == b + z[b] && c in Free()
      modifies this`tails, this`z, free
      ensures Tagged() && z == Merged(old(z), b) && Free() == old(Free()) - {c} && b in Allocated()
        && b + z[b] !in Free()
      ensures Used(z, Free()) - z[b] == old(Used(z, Free()) - z[b])
        && Kept(old(free.mem), free.mem, old(Allocated()) - {b})
    {
      BlockSize(free.mem, tails, z, arenas, Free(), NIL, b);
      hide Apart, Rep, Sorted, Addrs, Heap, Used, Remove;
      Detach(c);
      Fuse(b, c, c);
    }

    /** The free block before it takes in a block given back. */
    method JoinBackward(p: int, b: int)
      requires Tagged() && b in Allocated() && p in Free() && p in z && p + z[p] == b && b + z[b] !in Free()
      modifies this`tails, this`z, free
      ensures free.Ordered() && z == Merged(old(z), p) && Free() == old(Free()) - {p} && p in Allocated()
        && p + z[p] !in Free()
      ensures Heap(free.mem, tails, z, arenas, Free(), p) && forall y :: y in z && y + z[y] == p ==> y !in Free()
      ensures Used(z, Free()) - z[p] == old(Used(z, Free()) - z[b])
        && Kept(old(free.mem), free.mem, old(Allocated()) - {b})
    {
      BlockSize(free.mem, tails, z, arenas, Free(), NIL, b);
      hide Apart, Rep, Sorted, Addrs, Heap, Used, Remove;
      Detach(p);
      Fuse(p, b, p);
    }

    /** First half of poolfree. */
    method JoinNext(b: int)
      requires Tagged() && b in Allocated()
      modifies this`tails, this`z, free
      ensures Tagged() && Allocated() == old(Allocated()) && b in z && b + z[b] !in Free()
        && SizesKept(old(z), z, old(Allocated()) - {b})
      ensures Used(z, Free()) - z[b] == old(Used(z, Free()) - z[b])
        && Kept(old(free.mem), free.mem, old(Allocated()) - {b})
    {
      BlockSize(free.mem, tails, z, arenas, Free(), NIL, b);
      Next(free.mem, tails, z, arenas, Free(), NIL, b);
      FreeKnown(free.mem, tails, z, arenas, Free());
      hide Apart, Rep, Sorted, Addrs, Heap, Used;
      var c := b + free.mem[b].size;
      if free.mem[c].magic == MAGIC_F {
        JoinForward(b, c);
      }
    }

    /** The block before is free: both go into the tree as one. */
    method GiveBackJoined(c: int, b: int)
      requires Tagged() && b in Allocated() && b + z[b] !in Free() && c in Free() && c in z && c + z[c] == b
      modifies this`tails, this`z, free
      ensures Tagged() && Allocated() == old(Allocated()) - {b} && SizesKept(old(z), z, old(Allocated()) - {b})
      ensures Used(z, Free()) == old(Used(z, Free()) - z[b]) && Kept(old(free.mem), free.mem, old(Allocated()) - {b})
    {
      FreeKnown(free.mem, tails, z, arenas, Free());
      MergedKeeps(z, c, z.Keys - Free() - {b});
      hide Apart, Rep, Sorted, Addrs, Heap, Used, Merged;
      ghost var m0, kept := free.mem, Allocated() - {b};
      JoinBackward(c, b);
      UsedGiven(z, Free(), c);
      ghost var m1, changed := free.mem, Free() + {c};
      GiveBack(c, c);
      KeptOn(m0, m1, free.mem, kept, changed);
    }

    /** Second half of poolfree. */
    method JoinPrev(b: int)
      requires Tagged() && b in Allocated() && b + z[b] !in Free()
      modifies this`tails, this`z, free
      ensures Tagged() && Allocated() == old(Allocated()) - {b} && SizesKept(old(z), z, old(Allocated()) - {b})
      ensures Used(z, Free()) == old(Used(z, Free()) - z[b]) && Kept(old(free.mem), free.mem, old(Allocated()) - {b})
    {
      Prev(free.mem, tails, z, arenas, Free(), NIL, b);
      FreeKnown(free.mem, tails, z, arenas, Free());
      hide Apart, Rep, Sorted, Addrs, Heap, Used;
      var c := tails[b];
      if free.mem[c].magic == MAGIC_F {
        GiveBackJoined(c, b);
      } else {
        UsedGiven(z, Free(), b);
        GiveBack(b, NIL);
      }
    }

    /** poolfree of the data of an allocated block. */
    method PoolFree(v: int)
      requires Valid() && v - DATA in Allocated()
      modifies this, free
      ensures Valid() && Allocated() == old(Allocated()) - {v - DATA} && arenas == old(arenas)
      ensures forall a :: a in Allocated() ==> a in old(z) && z[a] == old(z)[a]
      ensures Kept(old(free.mem), free.mem, Allocated())
      ensures cursize == old(cursize) - old(z)[v - DATA] && hw == old(hw) && arenasize == old(arenasize)
    {
      var b := v - DATA;
      BlockSize(free.mem, tails, z, arenas, Free(), NIL, b);
      hide Apart, Rep, Sorted, Addrs, Heap, Used, Total, Chained;
      nfree := nfree + 1;
      cursize := cursize - free.mem[b].size;
      JoinNext(b);
      JoinPrev(b);
    }
  }

  /** A block in use is cut out of a free one. */
  lemma SplitServed(z: Sizes, free: set<int>, q: int, s: int)
    requires q in free && free <= z.Keys && 0 < s < z[q] && q + s !in z
    ensures var z', free' := Cut(z, q, s), free - {q} + {q + s};
      && Served(z, free, z', free', s, q) && z'[q] == s && Used(z', free') == Used(z, free - {q}) - z[q] + s
  {
    UsedCut(z, free - {q}, q, s);
    UsedOut(Cut(z, q, s), free - {q} + {q + s}, q + s);
    assert free - {q} + {q + s} - {q + s} == free - {q};
  }

  lemma KeptOn(m0: Memory, m1: Memory, m2: Memory, s: set<int>, t: set<int>)
    requires Kept(m0, m1, s) && HeadersBut(m1, m2, t) && s !! t
    ensures Kept(m0, m2, s)
  {
  }

  lemma MergedKeeps(z: Sizes, p: int, s: set<int>)
    requires p in z && p + z[p] in z && s <= z.Keys - {p, p + z[p]}
    ensures SizesKept(z, Merged(z, p), s)
  {
  }

  lemma FreeKnown(mem: Memory, tails: Tails, z: Sizes, arenas: seq<Arena>, free: set<int>)
    requires Heap(mem, tails, z, arenas, free, NIL)
    ensures free <= z.Keys
  {
  }

  ghost predicate Available(z: Sizes, free: set<int>, s: int) {
    exists a :: a in free && a in z && z[a] >= s
  }

  /** What the search says about the free blocks. */
  lemma TreeBlocks(mem: Memory, tails: Tails, z: Sizes, arenas: seq<Arena>, free: set<int>, s: int, exact: int, q: int)
    requires Heap(mem, tails, z, arenas, free, NIL) && 0 < s
    requires exact != NIL ==> exact in free && exact in mem && mem[exact].size == s
    requires exact == NIL ==> Fits(mem, free, s, q)
    ensures exact != NIL ==> exact > 0 && exact in z && z[exact] == s && BestOf(z, free, s, exact)
    ensures exact == NIL && q != NIL ==> q > 0 && q in z && z[q] > s && BestOf(z, free, s, q)
    ensures Available(z, free, s) <==> exact != NIL || q != NIL
  {
    forall a | a in free
      ensures a in z && a in mem && mem[a].size == z[a]
    {
      assert BlockOk(mem, tails, z, free, NIL, a);
    }
    if exact != NIL {
      var i := Home(mem, tails, z, arenas, free, NIL, exact);
    } else if q != NIL {
      var i := Home(mem, tails, z, arenas, free, NIL, q);
    }
  }

  lemma NewUsed(z: Sizes, free: set<int>, z': Sizes, free': set<int>, base: int, s: int, ns: int)
    requires 0 < s <= ns && base + UNIT !in z && (s < ns ==> base + UNIT + s !in z) && free <= z.Keys
    requires z' == Opened(z, base, s, ns) && free' == if s < ns then free + {base + UNIT + s} else free
    ensures Used(z', free') == Used(z, free) + s && Served(z, free, z', free', s, base + UNIT)
  {
    UsedNew(z, free, base, s, ns);
    if s < ns {
      UsedOut(z', free', base + UNIT + s);
      assert free' - {base + UNIT + s} == free;
    }
  }

  /** The request's bytes fit between the header and the tail, with less than a unit to spare. */
  lemma RoundedMeans(size: int)
    requires size >= 0
    ensures Rounded(size) % UNIT == 0 && size + BHDRSIZE <= Rounded(size) < size + BHDRSIZE + UNIT
      && Rounded(size) >= UNIT
  {
  }

  /** The data of blocks in use lie in an arena, clear of its tags, and never overlap. */
  lemma DataApart(p: Pool, b: int, c: int)
    requires p.Tagged() && b in p.Allocated() && c in p.Allocated() && b != c
    ensures b in p.z && c in p.z && (b + p.z[b] <= c || c + p.z[c] <= b)
    ensures exists i {:trigger p.arenas[i]} ::
      0 <= i < |p.arenas| && p.arenas[i].base + UNIT <= b && b + p.z[b] <= p.arenas[i].limit
  {
    BlocksApart(p.free.mem, p.tails, p.z, p.arenas, p.Free(), NIL, b, c);
    var i := Home(p.free.mem, p.tails, p.z, p.arenas, p.Free(), NIL, b);
    assert p.arenas[i].base + UNIT <= b;
  }

  /** cursize never wraps below zero: it is at least the size of every block in use. */
  lemma CountCovers(p: Pool, b: int)
    requires p.Valid() && b in p.Allocated()
    ensures b in p.z && 0 < p.z[b] <= p.cursize <= p.hw
  {
    forall a | a in p.z
      ensures p.z[a] > 0
    {
      BlockSize(p.free.mem, p.tails, p.z, p.arenas, p.Free(), NIL, a);
    }
    SumCovers(p.z, p.z.Keys - p.Free(), b);
  }

  /** Free blocks are never neighbours, and the tree has exactly the blocks marked free. */
  lemma FreeApart(p: Pool, b: int)
    requires p.Tagged() && b in p.z
    ensures b in p.free.mem && p.free.mem[b].size == p.z[b]
      && (p.free.mem[b].magic == MAGIC_F <==> b in Addrs(p.free.tree))
    ensures b + p.z[b] in p.tails && p.tails[b + p.z[b]] == b
    ensures b in p.Free() ==> b + p.z[b] !in p.Free()
  {
    NotNil(p.free.mem, p.tails, p.z, p.arenas, p.Free(), NIL);
    assert BlockOk(p.free.mem, p.tails, p.z, p.Free(), NIL, b);
  }
}
