/**
  The free blocks of a pool (emu/alloc.c): a search tree by size whose nodes head rings of blocks
  of one size, kept in the headers of the blocks themselves.
 */
module PoolTree {
  import opened Seqs

  const NIL := 0
  const MAGIC_A := 0xa110c
  const MAGIC_F := 0xbadc0c0a
  const MAGIC_E := 0xdeadbabe
  const MAGIC_I := 0xabba

  /** The header of a block. clink and csize are for the leader of an arena, the other links for free blocks. */
  datatype Bhdr = Bhdr(magic: int, size: int, left: int, right: int, parent: int, prev: int, fwd: int, clink: int,
      csize: int)

  /** Headers by address. */
  type Memory = map<int, Bhdr>

  /** A search tree of rings; the first block of a ring is the tree's node. */
  datatype Tree = Leaf | Node(size: int, ring: seq<int>, l: Tree, r: Tree)

  ghost function Addrs(t: Tree): set<int> {
    if t.Leaf? then {} else (set a | a in t.ring) + Addrs(t.l) + Addrs(t.r)
  }

  /** No block is in two places. */
  ghost predicate Apart(t: Tree) {
    t.Node? ==>
      && NoDup(t.ring) && Apart(t.l) && Apart(t.r)
      && (set a | a in t.ring) !! Addrs(t.l) && (set a | a in t.ring) !! Addrs(t.r) && Addrs(t.l) !! Addrs(t.r)
  }

  /** Strictly ordered by size, between two bounds. */
  ghost predicate Sorted(t: Tree, lo: int, hi: int) {
    t.Node? ==> lo < t.size < hi && |t.ring| > 0 && Sorted(t.l, lo, t.size) && Sorted(t.r, t.size, hi)
  }

  ghost function After(ring: seq<int>, i: int): int
    requires 0 <= i < |ring|
  {
    if i + 1 < |ring| then ring[i + 1] else ring[0]
  }

  ghost function Before(ring: seq<int>, i: int): int
    requires 0 <= i < |ring|
  {
    if i > 0 then ring[i - 1] else ring[|ring| - 1]
  }

  /** Block i of a ring is linked to its neighbours; only the first has a place in the tree. */
  ghost predicate Linked(mem: Memory, size: int, ring: seq<int>, i: int)
    requires 0 <= i < |ring|
  {
    && ring[i] in mem && ring[i] != NIL
    && var b := mem[ring[i]];
      b.size == size && b.magic == MAGIC_F && b.fwd == After(ring, i) && b.prev == Before(ring, i)
        && (i > 0 ==> b.parent == NIL)
  }

  ghost predicate Ring(mem: Memory, size: int, ring: seq<int>) {
    |ring| > 0 && forall i :: 0 <= i < |ring| ==> Linked(mem, size, ring, i)
  }

  /** The headers hold the tree t below p, whose parent link is par. */
  ghost predicate Rep(mem: Memory, p: int, par: int, t: Tree)
    decreases t
  {
    match t
    case Leaf => p == NIL
    case Node(size, ring, l, r) =>
      && Ring(mem, size, ring) && p == ring[0] && p in mem && mem[p].parent == par
      && Rep(mem, mem[p].left, p, l) && Rep(mem, mem[p].right, p, r)
  }

  lemma {:induction false} RepFrame(mem: Memory, mem': Memory, p: int, par: int, t: Tree)
    requires Rep(mem, p, par, t) && forall a :: a in Addrs(t) ==> a in mem && a in mem' && mem'[a] == mem[a]
    ensures Rep(mem', p, par, t)
    decreases t
  {
    if t.Node? {
      RingFrame(mem, mem', t.size, t.ring);
      assert p in t.ring;
      RepFrame(mem, mem', mem[p].left, p, t.l);
      RepFrame(mem, mem', mem[p].right, p, t.r);
    }
  }

  lemma RingFrame(mem: Memory, mem': Memory, size: int, ring: seq<int>)
    requires Ring(mem, size, ring) && forall a :: a in ring ==> a in mem && a in mem' && mem'[a] == mem[a]
    ensures Ring(mem', size, ring)
  {
    forall i | 0 <= i < |ring|
      ensures Linked(mem', size, ring, i)
    {
      assert Linked(mem, size, ring, i) && ring[i] in ring;
    }
  }

  /** The links of the first block into the tree are no concern of its ring. */
  lemma RingHead(mem: Memory, mem': Memory, size: int, ring: seq<int>)
    requires Ring(mem, size, ring) && NoDup(ring)
    requires forall a :: a in ring && a != ring[0] ==> a in mem && a in mem' && mem'[a] == mem[a]
    requires ring[0] in mem && ring[0] in mem'
    requires var b, c := mem[ring[0]], mem'[ring[0]];
      c.magic == b.magic && c.size == b.size && c.fwd == b.fwd && c.prev == b.prev
    ensures Ring(mem', size, ring)
  {
    forall i | 0 <= i < |ring|
      ensures Linked(mem', size, ring, i)
    {
      assert Linked(mem, size, ring, i) && ring[i] in ring;
    }
  }

  /** The same subtree under another parent. */
  lemma Reparent(mem: Memory, p: int, par: int, t: Tree, mem': Memory, par': int)
    requires Rep(mem, p, par, t) && Apart(t)
    requires forall a :: a in Addrs(t) && a != p ==> a in mem && a in mem' && mem'[a] == mem[a]
    requires p != NIL ==> p in mem && p in mem' && mem'[p] == mem[p].(parent := par')
    ensures Rep(mem', p, par', t)
  {
    if t.Node? {
      RingAddrs(mem, t.size, t.ring);
      RingHead(mem, mem', t.size, t.ring);
      RepAddrs(mem, p, par, t);
      RepFrame(mem, mem', mem[p].left, p, t.l);
      RepFrame(mem, mem', mem[p].right, p, t.r);
    }
  }

  lemma RingAddrs(mem: Memory, size: int, ring: seq<int>)
    requires Ring(mem, size, ring)
    ensures ring[0] in ring && forall a :: a in ring ==>
      a in mem && a != NIL && mem[a].magic == MAGIC_F && mem[a].size == size
  {
    forall a | a in ring
      ensures a in mem && a != NIL && mem[a].magic == MAGIC_F && mem[a].size == size
    {
      var i :| 0 <= i < |ring| && ring[i] == a;
      assert Linked(mem, size, ring, i);
    }
  }

  lemma {:induction false} RepAddrs(mem: Memory, p: int, par: int, t: Tree)
    requires Rep(mem, p, par, t)
    ensures forall a :: a in Addrs(t) ==> a in mem && a != NIL && mem[a].magic == MAGIC_F
    ensures p != NIL <==> t.Node?
    ensures p != NIL ==> p in Addrs(t)
    decreases t
  {
    if t.Node? {
      RingAddrs(mem, t.size, t.ring);
      RepAddrs(mem, mem[p].left, p, t.l);
      RepAddrs(mem, mem[p].right, p, t.r);
    }
  }

  /** A way down the tree, true for right. */
  type Path = seq<bool>

  ghost predicate Reaches(t: Tree, path: Path) {
    |path| == 0 || (t.Node? && Reaches(if path[0] then t.r else t.l, path[1..]))
  }

  ghost function Sub(t: Tree, path: Path): Tree
    requires Reaches(t, path)
  {
    if |path| == 0 then t else Sub(if path[0] then t.r else t.l, path[1..])
  }

  ghost function Plug(t: Tree, path: Path, s: Tree): Tree
    requires Reaches(t, path)
  {
    if |path| == 0 then s
    else if path[0] then t.(r := Plug(t.r, path[1..], s))
    else t.(l := Plug(t.l, path[1..], s))
  }

  /** The node a path's last step leaves from. */
  ghost function Owner(t: Tree, path: Path): int
    requires |path| > 0 && Reaches(t, path)
  {
    if |path| == 1 then (if |t.ring| > 0 then t.ring[0] else NIL) else Owner(if path[0] then t.r else t.l, path[1..])
  }

  lemma {:induction false} SubRep(mem: Memory, p: int, par: int, t: Tree, path: Path) returns (s: int)
    requires Rep(mem, p, par, t) && Reaches(t, path)
    ensures Rep(mem, s, if |path| == 0 then par else Owner(t, path), Sub(t, path))
    ensures |path| == 0 ==> s == p
    ensures |path| > 0 ==> var q := Owner(t, path);
      q in mem && q in Addrs(t) && q != NIL && s == if path[|path| - 1] then mem[q].right else mem[q].left
    ensures Addrs(Sub(t, path)) <= Addrs(t)
    decreases |path|
  {
    if |path| == 0 {
      s := p;
    } else {
      RepAddrs(mem, p, par, t);
      if |path| == 1 {
        assert path[1..] == [];
      }
      if path[0] {
        s := SubRep(mem, mem[p].right, p, t.r, path[1..]);
      } else {
        s := SubRep(mem, mem[p].left, p, t.l, path[1..]);
      }
    }
  }

  lemma {:induction false} SubApart(t: Tree, path: Path)
    requires Apart(t) && Reaches(t, path)
    ensures Apart(Sub(t, path)) && Addrs(Sub(t, path)) <= Addrs(t)
    decreases |path|
  {
    if |path| > 0 {
      SubApart(if path[0] then t.r else t.l, path[1..]);
    }
  }

  /** One child link and one subtree changed: the headers hold the tree with that subtree in place. */
  lemma {:induction false} PlugRep(mem: Memory, p: int, par: int, t: Tree, path: Path, mem': Memory, s: int, t': Tree)
    requires Rep(mem, p, par, t) && Apart(t) && Reaches(t, path) && |path| > 0
    requires var q := Owner(t, path);
      && q in mem && q in mem' && mem'[q] == (if path[|path| - 1] then mem[q].(right := s) else mem[q].(left := s))
      && Rep(mem', s, q, t')
    requires forall a :: a in Addrs(t) && a !in Addrs(Sub(t, path)) && a != Owner(t, path) ==>
      a in mem && a in mem' && mem'[a] == mem[a]
    ensures Rep(mem', p, par, Plug(t, path, t'))
    decreases |path|
  {
    var q, c := Owner(t, path), if path[0] then t.r else t.l;
    RepAddrs(mem, p, par, t);
    SubApart(t, path);
    assert p in t.ring;
    if |path| == 1 {
      assert path[1..] == [];
      RingHead(mem, mem', t.size, t.ring);
      if path[0] {
        RepFrame(mem, mem', mem[p].left, p, t.l);
      } else {
        RepFrame(mem, mem', mem[p].right, p, t.r);
      }
    } else {
      OwnerBelow(mem, p, par, t, path);
      RingFrame(mem, mem', t.size, t.ring);
      if path[0] {
        PlugRep(mem, mem[p].right, p, t.r, path[1..], mem', s, t');
        RepFrame(mem, mem', mem[p].left, p, t.l);
      } else {
        PlugRep(mem, mem[p].left, p, t.l, path[1..], mem', s, t');
        RepFrame(mem, mem', mem[p].right, p, t.r);
      }
    }
  }

  lemma OwnerBelow(mem: Memory, p: int, par: int, t: Tree, path: Path)
    requires Rep(mem, p, par, t) && Apart(t) && Reaches(t, path) && |path| > 1
    ensures var c := if path[0] then t.r else t.l;
      Owner(t, path) == Owner(c, path[1..]) && Owner(t, path) in Addrs(c) && Addrs(Sub(t, path)) <= Addrs(c)
  {
    if path[0] {
      var s := SubRep(mem, mem[p].right, p, t.r, path[1..]);
    } else {
      var s := SubRep(mem, mem[p].left, p, t.l, path[1..]);
    }
  }

  /** The tree with block q of size s added: at the end of the ring of its size, or as a new node. */
  ghost function Insert(t: Tree, s: int, q: int): Tree {
    match t
    case Leaf => Node(s, [q], Leaf, Leaf)
    case Node(size, ring, l, r) =>
      if s == size then Node(size, ring + [q], l, r)
      else if s < size then Node(size, ring, Insert(l, s, q), r)
      else Node(size, ring, l, Insert(r, s, q))
  }

  /** The path by which a search for size s goes, as far as it goes. */
  ghost predicate Searches(t: Tree, path: Path, s: int) {
    |path| == 0
      || (t.Node? && s != t.size && (path[0] <==> s > t.size) && Searches(if path[0] then t.r else t.l, path[1..], s))
  }

  lemma {:induction false} SearchReaches(t: Tree, path: Path, s: int)
    requires Searches(t, path, s)
    ensures Reaches(t, path)
    decreases |path|
  {
    if |path| > 0 {
      SearchReaches(if path[0] then t.r else t.l, path[1..], s);
    }
  }

  lemma {:induction false} SearchStep(t: Tree, path: Path, s: int)
    requires Searches(t, path, s) && Reaches(t, path) && Sub(t, path).Node? && Sub(t, path).size != s
    ensures var u, d := Sub(t, path), s > Sub(t, path).size;
      Searches(t, path + [d], s) && Reaches(t, path + [d]) && Sub(t, path + [d]) == if d then u.r else u.l
    ensures var d := s > Sub(t, path).size;
      Sub(t, path).ring != [] ==> Owner(t, path + [d]) == Sub(t, path).ring[0]
    decreases |path|
  {
    var d := s > Sub(t, path).size;
    if |path| == 0 {
      assert [d][1..] == [];
      assert path + [d] == [d];
    } else {
      var c := if path[0] then t.r else t.l;
      assert (path + [d])[1..] == path[1..] + [d];
      SearchStep(c, path[1..], s);
    }
  }

  lemma {:induction false} InsertPlug(t: Tree, path: Path, s: int, q: int)
    requires Searches(t, path, s) && Reaches(t, path)
    ensures Insert(t, s, q) == Plug(t, path, Insert(Sub(t, path), s, q))
    decreases |path|
  {
    if |path| > 0 {
      InsertPlug(if path[0] then t.r else t.l, path[1..], s, q);
    }
  }

  lemma {:induction false} InsertAddrs(t: Tree, s: int, q: int)
    requires Apart(t) && q !in Addrs(t)
    ensures Addrs(Insert(t, s, q)) == Addrs(t) + {q} && Apart(Insert(t, s, q))
    decreases t
  {
    if t.Node? {
      if s == t.size {
        forall i, j | 0 <= i < j < |t.ring + [q]|
          ensures (t.ring + [q])[i] != (t.ring + [q])[j]
        {
          assert t.ring[i] in t.ring;
        }
      } else if s < t.size {
        InsertAddrs(t.l, s, q);
      } else {
        InsertAddrs(t.r, s, q);
      }
    }
  }

  lemma {:induction false} InsertSorted(t: Tree, s: int, q: int, lo: int, hi: int)
    requires Sorted(t, lo, hi) && lo < s < hi
    ensures Sorted(Insert(t, s, q), lo, hi)
    decreases t
  {
    if t.Node? {
      if s < t.size {
        InsertSorted(t.l, s, q, lo, t.size);
      } else if s > t.size {
        InsertSorted(t.r, s, q, t.size, hi);
      }
    }
  }

  /** pooladd's four assignments that put q at the end of the ring that h heads. */
  ghost function Joined(mem: Memory, h: int, q: int): Memory
    requires h in mem && q in mem && mem[h].prev in mem
  {
    var m1 := mem[q := mem[q].(prev := mem[h].prev)];
    var m2 := m1[m1[q].prev := m1[m1[q].prev].(fwd := q)];
    var m3 := m2[q := m2[q].(fwd := h)];
    m3[h := m3[h].(prev := q)]
  }

  lemma JoinedRing(mem: Memory, size: int, ring: seq<int>, q: int)
    requires Ring(mem, size, ring) && NoDup(ring) && q in mem && q != NIL && q !in ring
    requires mem[q].size == size && mem[q].magic == MAGIC_F && mem[q].parent == NIL
    ensures ring[0] in mem && mem[ring[0]].prev in mem
    ensures Ring(Joined(mem, ring[0], q), size, ring + [q])
    ensures forall a :: a in mem && a !in ring && a != q ==>
      a in Joined(mem, ring[0], q) && Joined(mem, ring[0], q)[a] == mem[a]
    ensures var b, c := mem[ring[0]], Joined(mem, ring[0], q)[ring[0]];
      c.left == b.left && c.right == b.right && c.parent == b.parent
  {
    RingAddrs(mem, size, ring);
    var n := |ring|;
    assert Linked(mem, size, ring, 0) && Linked(mem, size, ring, n - 1);
    assert ring[n - 1] in ring;
    var mem', r := Joined(mem, ring[0], q), ring + [q];
    forall i | 0 <= i < |r|
      ensures Linked(mem', size, r, i)
    {
      if i < n {
        assert Linked(mem, size, ring, i) && ring[i] in ring;
      }
    }
  }

  /** The owner of a subtree is not in it. */
  lemma {:induction false} OwnerAway(mem: Memory, p: int, par: int, t: Tree, path: Path)
    requires Rep(mem, p, par, t) && Apart(t) && Reaches(t, path) && |path| > 0
    ensures Owner(t, path) !in Addrs(Sub(t, path))
    decreases |path|
  {
    RepAddrs(mem, p, par, t);
    assert p in t.ring;
    if |path| == 1 {
      assert path[1..] == [];
    } else if path[0] {
      OwnerAway(mem, mem[p].right, p, t.r, path[1..]);
    } else {
      OwnerAway(mem, mem[p].left, p, t.l, path[1..]);
    }
  }

  /** A subtree changed under a first block that stays, with its link from above. */
  lemma SameHead(mem: Memory, p: int, par: int, t: Tree, path: Path, mem': Memory, u': Tree)
    requires Rep(mem, p, par, t) && Apart(t) && Reaches(t, path) && Sub(t, path).Node? && |Sub(t, path).ring| > 0
    requires Rep(mem', Sub(t, path).ring[0], if |path| == 0 then par else Owner(t, path), u')
    requires forall a :: a in Addrs(t) && a !in Addrs(Sub(t, path)) ==> a in mem && a in mem' && mem'[a] == mem[a]
    ensures Rep(mem', p, par, Plug(t, path, u'))
  {
    var x := SubRep(mem, p, par, t, path);
    if |path| > 0 {
      OwnerAway(mem, p, par, t, path);
      PlugRep(mem, p, par, t, path, mem', x, u');
    }
  }

  /** The ring of one node changed behind its first block. */
  lemma NodeRing(mem: Memory, p: int, par: int, t: Tree, path: Path, mem': Memory, ring: seq<int>)
    requires Rep(mem, p, par, t) && Apart(t) && Reaches(t, path) && Sub(t, path).Node?
    requires var u := Sub(t, path);
      && |u.ring| > 0 && Ring(mem', u.size, ring) && ring[0] == u.ring[0] && ring[0] in mem && ring[0] in mem'
      && mem'[ring[0]].left == mem[ring[0]].left && mem'[ring[0]].right == mem[ring[0]].right
        && mem'[ring[0]].parent == mem[ring[0]].parent
    requires forall a :: a in Addrs(t) && a !in Sub(t, path).ring ==> a in mem && a in mem' && mem'[a] == mem[a]
    ensures var u := Sub(t, path); Rep(mem', p, par, Plug(t, path, Node(u.size, ring, u.l, u.r)))
  {
    var u := Sub(t, path);
    SubApart(t, path);
    var x := SubRep(mem, p, par, t, path);
    RingAddrs(mem, u.size, u.ring);
    RepFrame(mem, mem', mem[x].left, x, u.l);
    RepFrame(mem, mem', mem[x].right, x, u.r);
    SameHead(mem, p, par, t, path, mem', Node(u.size, ring, u.l, u.r));
  }

  /** A new node under the leaf where the search ended. */
  lemma NewLeaf(mem: Memory, p: int, par: int, t: Tree, path: Path, q: int, s: int, mem': Memory)
    requires Rep(mem, p, par, t) && Apart(t) && Reaches(t, path) && |path| > 0 && Sub(t, path).Leaf?
    requires q !in Addrs(t) && q in mem && q != NIL
    requires mem[q].size == s && mem[q].magic == MAGIC_F && mem[q].left == mem[q].right == NIL
      && mem[q].fwd == mem[q].prev == q
    requires var tp := Owner(t, path);
      && tp in mem
      && var m1 := mem[q := mem[q].(parent := tp)];
         mem' == m1[tp := if path[|path| - 1] then m1[tp].(right := q) else m1[tp].(left := q)]
    ensures Rep(mem', p, par, Plug(t, path, Node(s, [q], Leaf, Leaf)))
  {
    RepAddrs(mem, p, par, t);
    var x := SubRep(mem, p, par, t, path);
    assert Linked(mem', s, [q], 0);
    PlugRep(mem, p, par, t, path, mem', q, Node(s, [q], Leaf, Leaf));
  }

  lemma SoleRing(mem: Memory, q: int, s: int)
    requires q in mem && q != NIL && mem[q].size == s && mem[q].magic == MAGIC_F && mem[q].fwd == mem[q].prev == q
    requires mem[q].left == mem[q].right == NIL
    ensures Rep(mem, q, mem[q].parent, Node(s, [q], Leaf, Leaf))
  {
    assert Linked(mem, s, [q], 0);
  }

  /** A block of the tree is found by its size. */
  lemma {:induction false} FindBlock(mem: Memory, p: int, par: int, t: Tree, lo: int, hi: int, a: int)
      returns (path: Path)
    requires Rep(mem, p, par, t) && Sorted(t, lo, hi) && a in Addrs(t)
    ensures a in mem && Searches(t, path, mem[a].size) && Reaches(t, path)
    ensures Sub(t, path).Node? && Sub(t, path).size == mem[a].size && a in Sub(t, path).ring
    ensures lo < mem[a].size < hi
    decreases t
  {
    RepAddrs(mem, p, par, t);
    RingAddrs(mem, t.size, t.ring);
    if a in t.ring {
      path := [];
    } else if a in Addrs(t.l) {
      var rest := FindBlock(mem, mem[p].left, p, t.l, lo, t.size, a);
      path := [false] + rest;
      assert path[1..] == rest;
    } else {
      var rest := FindBlock(mem, mem[p].right, p, t.r, t.size, hi, a);
      path := [true] + rest;
      assert path[1..] == rest;
    }
  }

  /** The ring without its block i. */
  ghost function Without(ring: seq<int>, i: nat): seq<int>
    requires i < |ring|
  {
    ring[..i] + ring[i + 1..]
  }

  /** The two assignments that take a out of its ring. */
  ghost function Unlinked(mem: Memory, a: int): Memory
    requires a in mem && mem[a].prev in mem && mem[a].fwd in mem
  {
    var m1 := mem[mem[a].prev := mem[mem[a].prev].(fwd := mem[a].fwd)];
    m1[m1[a].fwd := m1[m1[a].fwd].(prev := m1[a].prev)]
  }

  /** Behind the first block: the rest of the ring closes up. */
  lemma UnlinkedRing(mem: Memory, size: int, ring: seq<int>, i: nat)
    requires Ring(mem, size, ring) && NoDup(ring) && 0 < i < |ring|
    ensures ring[0] in mem && ring[i] in mem
    ensures var a := ring[i]; mem[a].prev in mem && mem[a].fwd in mem && mem[a].parent == NIL
    ensures ring[0] in Unlinked(mem, ring[i])
    ensures Ring(Unlinked(mem, ring[i]), size, Without(ring, i))
    ensures forall b :: b in mem && b !in ring ==> b in Unlinked(mem, ring[i]) && Unlinked(mem, ring[i])[b] == mem[b]
    ensures var b, c := mem[ring[0]], Unlinked(mem, ring[i])[ring[0]];
      c.left == b.left && c.right == b.right && c.parent == b.parent
  {
    RingAddrs(mem, size, ring);
    var a, n, r := ring[i], |ring|, Without(ring, i);
    assert Linked(mem, size, ring, i);
    assert Linked(mem, size, ring, i - 1);
    assert ring[i - 1] in ring && After(ring, i) in ring;
    var mem' := Unlinked(mem, a);
    forall j | 0 <= j < |r|
      ensures Linked(mem', size, r, j)
    {
      var k := if j < i then j else j + 1;
      assert r[j] == ring[k] && ring[k] in ring;
      assert Linked(mem, size, ring, k);
    }
  }

  /** The leftmost node of a tree, and the tree without it. */
  ghost function Least(t: Tree): (m: Tree)
    requires t.Node?
    ensures m.Node?
  {
    if t.l.Leaf? then t else Least(t.l)
  }

  ghost function DropLeast(t: Tree): Tree
    requires t.Node?
  {
    if t.l.Leaf? then t.r else t.(l := DropLeast(t.l))
  }

  /** The subtree after its first block has gone: the next of the ring takes its place, or the tree closes up. */
  ghost function DropHead(u: Tree): Tree
    requires u.Node? && |u.ring| > 0
  {
    if |u.ring| > 1 then Node(u.size, u.ring[1..], u.l, u.r)
    else if u.l.Leaf? then u.r
    else if u.r.Leaf? then u.l
    else Node(Least(u.r).size, Least(u.r).ring, u.l, DropLeast(u.r))
  }

  ghost function IndexOf(ring: seq<int>, a: int): (i: nat)
    requires a in ring
    ensures i < |ring| && ring[i] == a
  {
    if ring[0] == a then 0 else 1 + IndexOf(ring[1..], a)
  }

  ghost function DropAt(u: Tree, a: int): Tree
    requires u.Node? && a in u.ring
  {
    if u.ring[0] == a then DropHead(u) else Node(u.size, Without(u.ring, IndexOf(u.ring, a)), u.l, u.r)
  }

  /** The tree without block a of size s. */
  ghost function Remove(t: Tree, s: int, a: int): Tree {
    match t
    case Leaf => Leaf
    case Node(size, ring, l, r) =>
      if s < size then Node(size, ring, Remove(l, s, a), r)
      else if s > size then Node(size, ring, l, Remove(r, s, a))
      else if a in ring then DropAt(t, a) else t
  }

  lemma {:induction false} RemovePlug(t: Tree, path: Path, s: int, a: int)
    requires Searches(t, path, s) && Reaches(t, path) && Sub(t, path).Node? && Sub(t, path).size == s
      && a in Sub(t, path).ring
    ensures Remove(t, s, a) == Plug(t, path, DropAt(Sub(t, path), a))
    decreases |path|
  {
    if |path| > 0 {
      RemovePlug(if path[0] then t.r else t.l, path[1..], s, a);
    }
  }

  lemma {:induction false} LeastFacts(t: Tree, lo: int, hi: int)
    requires t.Node? && Apart(t) && Sorted(t, lo, hi)
    ensures var m := Least(t);
      && m.Node? && m.l.Leaf? && |m.ring| > 0 && lo < m.size < hi && Sorted(DropLeast(t), m.size, hi)
      && NoDup(m.ring) && Apart(DropLeast(t)) && Addrs(DropLeast(t)) !! (set a | a in m.ring)
      && Addrs(DropLeast(t)) + (set a | a in m.ring) == Addrs(t)
    decreases t
  {
    if t.l.Node? {
      LeastFacts(t.l, lo, t.size);
    }
  }

  lemma {:induction false} SortedWider(t: Tree, lo: int, hi: int, lo': int, hi': int)
    requires Sorted(t, lo, hi) && lo' <= lo && hi <= hi'
    ensures Sorted(t, lo', hi')
    decreases t
  {
    if t.Node? {
      SortedWider(t.l, lo, t.size, lo', t.size);
      SortedWider(t.r, t.size, hi, t.size, hi');
    }
  }

  lemma DropHeadFacts(u: Tree, lo: int, hi: int)
    requires u.Node? && |u.ring| > 0 && Apart(u) && Sorted(u, lo, hi)
    ensures Sorted(DropHead(u), lo, hi) && Apart(DropHead(u)) && Addrs(DropHead(u)) == Addrs(u) - {u.ring[0]}
  {
    assert u.ring[0] in u.ring;
    if |u.ring| > 1 {
      assert u.ring == [u.ring[0]] + u.ring[1..];
    } else {
      assert u.ring == [u.ring[0]];
      SortedWider(u.l, lo, u.size, lo, hi);
      SortedWider(u.r, u.size, hi, lo, hi);
      if u.l.Node? && u.r.Node? {
        LeastFacts(u.r, u.size, hi);
        SortedWider(u.l, lo, u.size, lo, Least(u.r).size);
      }
    }
  }

  lemma WithoutFacts(ring: seq<int>, i: nat)
    requires NoDup(ring) && i < |ring|
    ensures NoDup(Without(ring, i)) && (set a | a in Without(ring, i)) == (set a | a in ring) - {ring[i]}
  {
    var r := Without(ring, i);
    forall a
      ensures a in r <==> a in ring && a != ring[i]
    {
      if a in ring && a != ring[i] {
        var j :| 0 <= j < |ring| && ring[j] == a;
        assert r[if j < i then j else j - 1] == a;
      }
      if a in r {
        var j :| 0 <= j < |r| && r[j] == a;
        assert ring[if j < i then j else j + 1] == a;
      }
    }
  }

  /** pooldel as a function keeps the order and takes out exactly the block. */
  lemma {:induction false} RemoveFacts(t: Tree, s: int, a: int, lo: int, hi: int, path: Path)
    requires Apart(t) && Sorted(t, lo, hi) && Searches(t, path, s) && Reaches(t, path)
    requires Sub(t, path).Node? && Sub(t, path).size == s && a in Sub(t, path).ring
    ensures Sorted(Remove(t, s, a), lo, hi) && Apart(Remove(t, s, a)) && a in Addrs(t)
      && Addrs(Remove(t, s, a)) == Addrs(t) - {a}
    decreases |path|
  {
    if |path| == 0 {
      if t.ring[0] == a {
        DropHeadFacts(t, lo, hi);
      } else {
        WithoutFacts(t.ring, IndexOf(t.ring, a));
      }
    } else if path[0] {
      RemoveFacts(t.r, s, a, t.size, hi, path[1..]);
    } else {
      RemoveFacts(t.l, s, a, lo, t.size, path[1..]);
    }
  }

  /** mem and mem' agree on the addresses of s. */
  ghost predicate Agree(mem: Memory, mem': Memory, s: set<int>) {
    forall a :: a in s ==> a in mem && a in mem' && mem'[a] == mem[a]
  }

  ghost predicate Changed(mem: Memory, mem': Memory, a: int, b: Bhdr) {
    a in mem && a in mem' && mem'[a] == b
  }

  /** A child, if there is one, got another parent. */
  ghost predicate Adopted(mem: Memory, mem': Memory, c: int, par: int) {
    c != NIL ==> c in mem && Changed(mem, mem', c, mem[c].(parent := par))
  }

  /** The second block f of a ring took the place of the first, t, in the tree. */
  lemma NextTakesOver(mem: Memory, x: int, par: int, u: Tree, mem': Memory)
    requires Rep(mem, x, par, u) && Apart(u) && u.Node? && |u.ring| > 1
    requires var f, z := u.ring[1], u.ring[|u.ring| - 1];
      && x in mem && f in mem && z in mem
      && Changed(mem, mem', f,
        mem[f].(parent := par, left := mem[x].left, right := mem[x].right, prev := z, fwd := if f == z then f
        else mem[f].fwd))
      && (f != z ==> Changed(mem, mem', z, mem[z].(fwd := f)))
      && Adopted(mem, mem', mem[x].left, f) && Adopted(mem, mem', mem[x].right, f)
      && Agree(mem, mem', Addrs(u) - {x, f, z, mem[x].left, mem[x].right})
    ensures Rep(mem', u.ring[1], par, DropHead(u))
  {
    var n, ring, f := |u.ring|, u.ring, u.ring[1];
    RingAddrs(mem, u.size, ring);
    RepAddrs(mem, mem[x].left, x, u.l);
    RepAddrs(mem, mem[x].right, x, u.r);
    var r := ring[1..];
    forall i | 0 <= i < |r|
      ensures Linked(mem', u.size, r, i)
    {
      assert Linked(mem, u.size, ring, i + 1);
      assert r[i] == ring[i + 1] && ring[i + 1] in ring;
    }
    assert f in ring && ring[n - 1] in ring;
    Reparent(mem, mem[x].left, x, u.l, mem', f);
    Reparent(mem, mem[x].right, x, u.r, mem', f);
  }

  /** The way to the left, k times. */
  ghost function Lefts(k: nat): (path: Path)
    ensures |path| == k
  {
    if k == 0 then [] else [false] + Lefts(k - 1)
  }

  /** The search of pooldel for the least node, k steps in. */
  ghost predicate Descended(mem: Memory, b: int, t: int, r: Tree, k: nat, f: int, m: int) {
    && Reaches(r, Lefts(k)) && Rep(mem, m, f, Sub(r, Lefts(k))) && Sub(r, Lefts(k)).Node?
    && Least(r) == Least(Sub(r, Lefts(k))) && DropLeast(r) == Plug(r, Lefts(k), DropLeast(Sub(r, Lefts(k))))
    && (if k == 0 then f == t && m == b else f == Owner(r, Lefts(k)) && f in mem && mem[f].left == m)
  }

  lemma {:induction false} LeftsSnoc(k: nat)
    ensures Lefts(k + 1) == Lefts(k) + [false]
  {
    if k > 0 {
      LeftsSnoc(k - 1);
    }
  }

  lemma {:induction false} PlugDeeper(r: Tree, path: Path, s: Tree)
    requires Reaches(r, path) && Sub(r, path).Node? && Reaches(r, path + [false])
    ensures Plug(r, path + [false], s) == Plug(r, path, Sub(r, path).(l := s))
      && Sub(r, path + [false]) == Sub(r, path).l
    ensures |Sub(r, path).ring| > 0 ==> Owner(r, path + [false]) == Sub(r, path).ring[0]
    decreases |path|
  {
    if |path| == 0 {
      assert path + [false] == [false];
      assert [false][1..] == [];
    } else {
      assert (path + [false])[1..] == path[1..] + [false];
      PlugDeeper(if path[0] then r.r else r.l, path[1..], s);
    }
  }

  lemma {:induction false} ReachesDeeper(r: Tree, path: Path)
    requires Reaches(r, path) && Sub(r, path).Node?
    ensures Reaches(r, path + [false])
    decreases |path|
  {
    if |path| == 0 {
      assert path + [false] == [false];
      assert [false][1..] == [];
    } else {
      assert (path + [false])[1..] == path[1..] + [false];
      ReachesDeeper(if path[0] then r.r else r.l, path[1..]);
    }
  }

  lemma DescendStep(mem: Memory, b: int, t: int, r: Tree, k: nat, f: int, m: int)
    requires Descended(mem, b, t, r, k, f, m)
    ensures m in mem && (mem[m].left == NIL <==> Sub(r, Lefts(k)).l.Leaf?)
    ensures mem[m].left != NIL ==> Descended(mem, b, t, r, k + 1, m, mem[m].left) && mem[m].left in mem
  {
    var u := Sub(r, Lefts(k));
    RepAddrs(mem, mem[m].left, m, u.l);
    if mem[m].left != NIL {
      LeftsSnoc(k);
      ReachesDeeper(r, Lefts(k));
      PlugDeeper(r, Lefts(k), DropLeast(u.l));
    }
  }

  lemma {:induction false} LeftsDepth(r: Tree, k: nat)
    requires Reaches(r, Lefts(k))
    ensures k <= Depth(r)
  {
    if k > 0 {
      assert Lefts(k)[1..] == Lefts(k - 1);
      LeftsDepth(r.l, k - 1);
    }
  }

  ghost function Depth(t: Tree): nat {
    if t.Leaf? then 0 else 1 + if Depth(t.l) > Depth(t.r) then Depth(t.l) else Depth(t.r)
  }

  /** The right child m of x has no left child: it took the place of x. */
  lemma ChildTakesOver(mem: Memory, x: int, par: int, u: Tree, m: int, mem': Memory, q: int)
    requires Rep(mem, x, par, u) && Apart(u) && u.Node? && u.l.Node? && u.r.Node? && u.r.l.Leaf?
    requires x in mem && m == mem[x].right && m in mem
    requires Changed(mem, mem', m, mem[m].(left := mem[x].left, parent := q)) && Adopted(mem, mem', mem[x].left, m)
    requires Agree(mem, mem', Addrs(u) - {x, m, mem[x].left})
    ensures Rep(mem', m, q, Node(Least(u.r).size, Least(u.r).ring, u.l, DropLeast(u.r)))
  {
    var a, c := mem[x].left, mem[m].right;
    RepAddrs(mem, a, x, u.l);
    RepAddrs(mem, m, x, u.r);
    RepAddrs(mem, c, m, u.r.r);
    RingAddrs(mem, u.r.size, u.r.ring);
    RingHead(mem, mem', u.r.size, u.r.ring);
    Reparent(mem, a, x, u.l, mem', m);
    RepFrame(mem, mem', c, m, u.r.r);
  }

  lemma {:induction false} DropLeastApart(t: Tree)
    requires t.Node? && Apart(t)
    ensures var m := Least(t);
      && m.l.Leaf? && NoDup(m.ring) && Apart(m) && Apart(DropLeast(t)) && Addrs(DropLeast(t)) !! (set a | a in m.ring)
      && Addrs(DropLeast(t)) + (set a | a in m.ring) == Addrs(t)
    decreases t
  {
    if t.l.Node? {
      DropLeastApart(t.l);
    }
  }

  /** Two subtrees adopted by the first block m of a ring make a tree. */
  lemma Crowned(mem: Memory, mem': Memory, m: int, size: int, ring: seq<int>, a: int, l: Tree, b: int, r: Tree, x: int,
      q: int)
    requires Ring(mem, size, ring) && NoDup(ring) && ring[0] == m && Rep(mem, a, x, l) && Rep(mem, b, x, r)
    requires Apart(Node(size, ring, l, r)) && m in mem
    requires Changed(mem, mem', m, mem[m].(left := a, right := b, parent := q)) && Adopted(mem, mem', a, m)
      && Adopted(mem, mem', b, m)
    requires Agree(mem, mem', Addrs(Node(size, ring, l, r)) - {m, a, b})
    ensures Rep(mem', m, q, Node(size, ring, l, r))
  {
    RepAddrs(mem, a, x, l);
    RepAddrs(mem, b, x, r);
    RingAddrs(mem, size, ring);
    RingHead(mem, mem', size, ring);
    Reparent(mem, a, x, l, mem', m);
    Reparent(mem, b, x, r, mem', m);
  }

  /** Where the least node m of a tree is: at the end of a row of left links, with f above it. */
  lemma LeastPlace(mem: Memory, b: int, x: int, r: Tree, k: nat, f: int, m: int)
    requires Rep(mem, b, x, r) && Apart(r) && r.Node? && k > 0 && Descended(mem, b, x, r, k, f, m) && m in mem
      && mem[m].left == NIL
    ensures Reaches(r, Lefts(k))
    ensures var s := Sub(r, Lefts(k));
      && s.Node? && s.l.Leaf? && s == Least(r) && DropLeast(r) == Plug(r, Lefts(k), s.r) && f == Owner(r, Lefts(k))
      && Apart(s) && f !in Addrs(s) && f in Addrs(r) && Ring(mem, s.size, s.ring) && s.ring[0] == m
      && m in s.ring && Rep(mem, mem[m].right, m, s.r) && Addrs(s) <= Addrs(r)
  {
    var s := Sub(r, Lefts(k));
    SubApart(r, Lefts(k));
    OwnerAway(mem, b, x, r, Lefts(k));
    var y := SubRep(mem, b, x, r, Lefts(k));
    RepAddrs(mem, mem[m].left, m, s.l);
  }

  /** f took the right subtree of the least node m: the tree without it is in place. */
  lemma LeastDetached(mem: Memory, b: int, x: int, r: Tree, k: nat, f: int, m: int, mem1: Memory)
    requires Rep(mem, b, x, r) && Apart(r) && r.Node? && k > 0 && Descended(mem, b, x, r, k, f, m) && m in mem
      && mem[m].left == NIL
    requires f in mem && Changed(mem, mem1, f, mem[f].(left := mem[m].right)) && Adopted(mem, mem1, mem[m].right, f)
    requires Agree(mem, mem1, Addrs(r) - {f, mem[m].right})
    ensures Rep(mem1, b, x, DropLeast(r)) && Ring(mem1, Least(r).size, Least(r).ring) && Least(r).ring[0] == m
  {
    var c, s := mem[m].right, Sub(r, Lefts(k));
    LeastPlace(mem, b, x, r, k, f, m);
    RepAddrs(mem, b, x, r);
    RepAddrs(mem, c, m, s.r);
    Reparent(mem, c, m, s.r, mem1, f);
    RingAddrs(mem, s.size, s.ring);
    RingFrame(mem, mem1, s.size, s.ring);
    LeftsSnoc(k - 1);
    PlugRep(mem, b, x, r, Lefts(k), mem1, c, s.r);
  }

  /** The least node m of the right subtree took the place of x, which had two children; f is above m. */
  lemma LeastTakesOver(mem: Memory, x: int, par: int, u: Tree, k: nat, f: int, m: int, mem1: Memory, mem': Memory,
      q: int)
    requires Rep(mem, x, par, u) && Apart(u) && u.Node? && u.l.Node? && u.r.Node? && k > 0
    requires x in mem && Descended(mem, mem[x].right, x, u.r, k, f, m) && m in mem && mem[m].left == NIL
    requires f in mem && Changed(mem, mem1, f, mem[f].(left := mem[m].right)) && Adopted(mem, mem1, mem[m].right, f)
    requires Agree(mem, mem1, Addrs(u) - {f, mem[m].right})
    requires m in mem1 && Changed(mem1, mem', m, mem1[m].(left := mem[x].left, right := mem[x].right, parent := q))
    requires Adopted(mem1, mem', mem[x].left, m) && Adopted(mem1, mem', mem[x].right, m)
    requires Agree(mem1, mem', Addrs(u) - {x, m, mem[x].left, mem[x].right})
    ensures Rep(mem', m, q, Node(Least(u.r).size, Least(u.r).ring, u.l, DropLeast(u.r)))
  {
    hide Descended, Ring, Sorted, Least, DropLeast, Sub, Reaches, Owner;
    var a, b := mem[x].left, mem[x].right;
    RepAddrs(mem, x, par, u);
    HeadInRing(mem, x, par, u);
    LeastPlace(mem, b, x, u.r, k, f, m);
    RepAddrs(mem, mem[m].right, m, Least(u.r).r);
    LeastDetached(mem, b, x, u.r, k, f, m, mem1);
    DropLeastApart(u.r);
    RepFrame(mem, mem1, a, x, u.l);
    RepAddrs(mem, a, x, u.l);
    var t := Node(Least(u.r).size, Least(u.r).ring, u.l, DropLeast(u.r));
    assert Addrs(t) <= Addrs(u.l) + Addrs(u.r);
    Crowned(mem1, mem', m, Least(u.r).size, Least(u.r).ring, a, u.l, b, DropLeast(u.r), x, q);
  }

  lemma HeadInRing(mem: Memory, x: int, par: int, u: Tree)
    requires Rep(mem, x, par, u) && u.Node?
    ensures x in u.ring && u.ring[0] == x && x in mem && Rep(mem, mem[x].left, x, u.l) && Rep(mem, mem[x].right, x, u.r)
  {
  }
}
