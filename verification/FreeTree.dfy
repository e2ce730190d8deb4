/**
  pooladd and pooldel of emu/alloc.c: the loops and link assignments, against the tree of rings.
 */
module FreeTree {
  import opened PoolTree

  const LIMIT := 0x1_0000_0000

  /** The headers hold the tree t of free blocks. */
  ghost predicate TreeOk(mem: Memory, root: int, t: Tree) {
    NIL !in mem && Rep(mem, root, NIL, t) && Apart(t) && Sorted(t, 0, LIMIT)
  }

  /** Only the links of free blocks differ. */
  ghost predicate LinksOnly(mem: Memory, mem': Memory, s: set<int>) {
    && mem'.Keys == mem.Keys
    && forall a {:trigger mem'[a]} :: a in mem ==>
      && mem'[a].size == mem[a].size && mem'[a].magic == mem[a].magic && mem'[a].clink == mem[a].clink
        && mem'[a].csize == mem[a].csize
      && (a !in s ==> mem'[a] == mem[a])
  }

  /** Where the search of pooladd is. */
  ghost predicate Searching(mem: Memory, root: int, t: Tree, path: Path, s: int, p: int, tp: int) {
    && Searches(t, path, s) && Reaches(t, path)
    && Rep(mem, p, if |path| == 0 then NIL else Owner(t, path), Sub(t, path))
    && tp == (if |path| == 0 then NIL else Owner(t, path))
    && (|path| > 0 ==> tp in mem && mem[tp].size != s && (path[|path| - 1] <==> s > mem[tp].size))
  }

  lemma SearchStarts(mem: Memory, root: int, t: Tree, s: int)
    requires Rep(mem, root, NIL, t)
    ensures Searching(mem, root, t, [], s, root, NIL)
  {
  }

  lemma SearchGoes(mem: Memory, root: int, t: Tree, path: Path, s: int, p: int, tp: int)
    requires Searching(mem, root, t, path, s, p, tp) && p != NIL
    ensures p in mem && Sub(t, path).Node? && Sub(t, path).size == mem[p].size && Sub(t, path).ring != []
      && Sub(t, path).ring[0] == p
    ensures s != mem[p].size ==>
      Searching(mem, root, t, path + [s > mem[p].size], s, if s < mem[p].size then mem[p].left else mem[p].right, p)
      && |path + [s > mem[p].size]| <= Depth(t)
  {
    var u := Sub(t, path);
    RepAddrs(mem, p, tp, u);
    RingAddrs(mem, u.size, u.ring);
    if s != mem[p].size {
      var d := s > mem[p].size;
      SearchStep(t, path, s);
      PathDepth(t, path + [d]);
    }
  }

  lemma {:induction false} PathDepth(t: Tree, path: Path)
    requires Reaches(t, path)
    ensures |path| <= Depth(t)
    decreases |path|
  {
    if |path| > 0 {
      PathDepth(if path[0] then t.r else t.l, path[1..]);
    }
  }

  lemma SearchOver(mem: Memory, root: int, t: Tree, path: Path, s: int, tp: int)
    requires Searching(mem, root, t, path, s, NIL, tp) && Rep(mem, root, NIL, t)
    ensures Sub(t, path).Leaf? && (t.Node? ==> |path| > 0 && tp in mem && tp in Addrs(t) && tp == Owner(t, path))
  {
    RepAddrs(mem, NIL, tp, Sub(t, path));
    if |path| > 0 {
      var x := SubRep(mem, root, NIL, t, path);
    }
  }

  class FreeList {
    var mem: Memory
    var root: int
    ghost var tree: Tree

    ghost predicate Ordered()
      reads this
    {
      TreeOk(mem, root, tree)
    }

    constructor ()
      ensures Ordered() && tree == Leaf && mem == map[]
    {
      mem, root, tree := map[], NIL, Leaf;
    }

    /** The first assignments of pooladd. */
    method ResetLinks(q: int)
      requires q in mem
      modifies this`mem
      ensures mem ==
        old(mem)[q := old(mem)[q].(magic := MAGIC_F, left := NIL, right := NIL, parent := NIL, fwd := q, prev := q)]
    {
      mem := mem[q := mem[q].(magic := MAGIC_F)];
      mem := mem[q := mem[q].(left := NIL)];
      mem := mem[q := mem[q].(right := NIL)];
      mem := mem[q := mem[q].(parent := NIL)];
      mem := mem[q := mem[q].(fwd := q)];
      mem := mem[q := mem[q].(prev := q)];
    }

    /** The block joins the ring of a node of its size. */
    method AddToRing(t: int, q: int, ghost path: Path)
      requires Ordered() && q in mem && q !in Addrs(tree) && q != NIL && mem[q].magic == MAGIC_F && mem[q].parent == NIL
      requires Searches(tree, path, mem[q].size) && Reaches(tree, path) && Sub(tree, path).Node?
        && Sub(tree, path).ring != []
      requires Sub(tree, path).ring[0] == t && Sub(tree, path).size == mem[q].size
      modifies this`mem
      ensures Rep(mem, root, NIL, Insert(tree, old(mem)[q].size, q)) && LinksOnly(old(mem), mem, Addrs(tree) + {q})
    {
      hide Searches, Reaches, Sub, Apart, Sorted, Rep, Addrs;
      InsertPlug(tree, path, mem[q].size, q);
      JoinRing(mem, root, tree, path, t, q);
      mem := mem[q := mem[q].(prev := mem[t].prev)];
      mem := mem[mem[q].prev := mem[mem[q].prev].(fwd := q)];
      mem := mem[q := mem[q].(fwd := t)];
      mem := mem[t := mem[t].(prev := q)];
      assert mem == Joined(old(mem), t, q);
    }

    /** The block becomes a node of its own under tp. */
    method AddLeaf(tp: int, q: int, ghost path: Path)
      requires Ordered() && q in mem && q !in Addrs(tree) && q != NIL && mem[q].magic == MAGIC_F
      requires mem[q].left == mem[q].right == NIL && mem[q].fwd == mem[q].prev == q
      requires tree.Node? && Searching(mem, root, tree, path, mem[q].size, NIL, tp)
      modifies this`mem
      ensures Rep(mem, root, NIL, Insert(tree, old(mem)[q].size, q)) && LinksOnly(old(mem), mem, Addrs(tree) + {q})
    {
      SearchOver(mem, root, tree, path, mem[q].size, tp);
      InsertPlug(tree, path, mem[q].size, q);
      hide Searches, Reaches, Sub, Apart, Sorted, Rep, Addrs, Owner;
      var size := mem[q].size;
      mem := mem[q := mem[q].(parent := tp)];
      if size < mem[tp].size {
        mem := mem[tp := mem[tp].(left := q)];
      } else {
        mem := mem[tp := mem[tp].(right := q)];
      }
      NewLeaf(old(mem), root, NIL, tree, path, q, size, mem);
    }

    /** The search of pooladd: to a node of the size, or to the place for one. */
    method FindPlace(size: int) returns (t: int, tp: int, ghost path: Path)
      requires Rep(mem, root, NIL, tree) && root != NIL
      ensures Searching(mem, root, tree, path, size, t, tp) && (t != NIL ==> t in mem && mem[t].size == size)
    {
      hide Searches, Reaches, Sub, Rep, Owner, Searching;
      t, tp, path := root, NIL, [];
      SearchStarts(mem, root, tree, size);
      while t != NIL
        invariant Searching(mem, root, tree, path, size, t, tp)
        decreases Depth(tree) - |path|
      {
        SearchGoes(mem, root, tree, path, size, t, tp);
        SearchFacts(mem, root, tree, path, size, t, tp);
        if size == mem[t].size {
          return;
        }
        PathDepth(tree, path);
        path := path + [size > mem[t].size];
        tp := t;
        if size < mem[t].size {
          t := mem[t].left;
        } else {
          t := mem[t].right;
        }
      }
    }

    /** The block into a tree that is not empty. */
    method AddBelow(q: int)
      requires Ordered() && q in mem && q !in Addrs(tree) && q != NIL && mem[q].magic == MAGIC_F && root != NIL
      requires mem[q].left == mem[q].right == mem[q].parent == NIL && mem[q].fwd == mem[q].prev == q
      modifies this`mem
      ensures Rep(mem, root, NIL, Insert(tree, old(mem)[q].size, q)) && LinksOnly(old(mem), mem, Addrs(tree) + {q})
    {
      RepAddrs(mem, root, NIL, tree);
      hide Searches, Reaches, Sub, Apart, Sorted, Rep, Addrs, Owner, Searching;
      var t, tp;
      ghost var path;
      t, tp, path := FindPlace(mem[q].size);
      if t != NIL {
        SearchGoes(mem, root, tree, path, mem[q].size, t, tp);
        SearchFacts(mem, root, tree, path, mem[q].size, t, tp);
        AddToRing(t, q, path);
      } else {
        AddLeaf(tp, q, path);
      }
    }

    /** pooladd */
    method PoolAdd(q: int)
      requires Ordered() && q in mem && q != NIL && q !in Addrs(tree) && 0 < mem[q].size < LIMIT
      modifies this
      ensures Ordered() && tree == Insert(old(tree), old(mem)[q].size, q) && Addrs(tree) == old(Addrs(tree)) + {q}
      ensures LinksOnly(old(mem)[q := old(mem)[q].(magic := MAGIC_F)], mem, old(Addrs(tree)) + {q})
    {
      ghost var m0 := mem;
      InsertAddrs(tree, mem[q].size, q);
      InsertSorted(tree, mem[q].size, q, 0, LIMIT);
      RepAddrs(mem, root, NIL, tree);
      ResetLinks(q);
      RepFrame(m0, mem, root, NIL, tree);
      hide Searches, Reaches, Sub, Apart, Sorted, Rep, Addrs, Owner, Searching;
      if root == NIL {
        SoleRing(mem, q, mem[q].size);
        root := q;
      } else {
        AddBelow(q);
      }
      tree := Insert(tree, mem[q].size, q);
    }

    /** The link from above to t, the root or a child link of s, goes to f. */
    method LinkAbove(s: int, t: int, f: int)
      requires s != NIL ==> s in mem
      modifies this`mem, this`root
      ensures root == if s == NIL then f else old(root)
      ensures s == NIL ==> mem == old(mem)
      ensures s != NIL ==>
        mem == old(mem)[s := if old(mem)[s].left == t then old(mem)[s].(left := f) else old(mem)[s].(right := f)]
    {
      if s == NIL {
        root := f;
      } else {
        if mem[s].left == t {
          mem := mem[s := mem[s].(left := f)];
        } else {
          mem := mem[s := mem[s].(right := f)];
        }
      }
    }

    /** The first case of pooldel: a block that is not the first of its ring. */
    method DelMember(t: int, ghost path: Path)
      requires Ordered() && At(tree, path, t) && Sub(tree, path).ring[0] != t
      modifies this`mem
      ensures Rep(mem, root, NIL, Plug(tree, path, DropAt(Sub(tree, path), t))) && LinksOnly(old(mem), mem, Addrs(tree))
    {
      MemberGone(mem, root, tree, path, t);
      hide Rep, Apart, Sorted, Sub, Reaches, Addrs;
      mem := mem[mem[t].prev := mem[mem[t].prev].(fwd := mem[t].fwd)];
      mem := mem[mem[t].fwd := mem[mem[t].fwd].(prev := mem[t].prev)];
    }

    /** The children of t become those of f. */
    method MoveChildren(t: int, f: int)
      requires t in mem && f in mem && t != f && f != NIL
      requires var l, r := mem[t].left, mem[t].right;
        (l != NIL ==> l in mem && l !in {t, f, r}) && (r != NIL ==> r in mem && r !in {t, f})
      modifies this`mem
      ensures mem.Keys == old(mem).Keys && mem[f] == old(mem)[f].(left := mem[t].left, right := mem[t].right)
        && mem[t] == old(mem)[t]
      ensures Adopted(old(mem), mem, mem[t].left, f) && Adopted(old(mem), mem, mem[t].right, f)
      ensures forall a {:trigger mem[a]} :: a in old(mem) && a !in {f, mem[t].left, mem[t].right} ==>
        mem[a] == old(mem)[a]
    {
      var l := mem[t].left;
      mem := mem[f := mem[f].(left := l)];
      if l != NIL {
        mem := mem[l := mem[l].(parent := f)];
      }
      var r := mem[t].right;
      mem := mem[f := mem[f].(right := r)];
      if r != NIL {
        mem := mem[r := mem[r].(parent := f)];
      }
    }

    /** The second case of pooldel: the next block of the ring takes the place of the first. */
    method DelHead(t: int, ghost path: Path)
      requires Ordered() && At(tree, path, t) && Sub(tree, path).ring[0] == t && |Sub(tree, path).ring| > 1
      modifies this`mem, this`root
      ensures Rep(mem, root, NIL, Plug(tree, path, DropHead(Sub(tree, path)))) && LinksOnly(old(mem), mem, Addrs(tree))
    {
      MemberTest(mem, root, tree, path, t);
      HeadPlaces(mem, root, tree, path, t);
      hide Rep, Apart, Sorted, Sub, Reaches, Addrs, Plug, DropHead, Owner, LinksOnly;
      ghost var m0, z := mem, mem[t].prev;
      var f := mem[t].fwd;
      var s := mem[t].parent;
      mem := mem[f := mem[f].(parent := s)];
      LinkAbove(s, t, f);
      MoveChildren(t, f);
      mem := mem[mem[t].prev := mem[mem[t].prev].(fwd := mem[t].fwd)];
      mem := mem[mem[t].fwd := mem[mem[t].fwd].(prev := mem[t].prev)];
      HeadGone(m0, old(root), tree, path, t, mem, root);
    }

    /** The loop of pooldel: the least node of the right subtree, and the node above it. */
    method FindLeast(t: int, ghost r: Tree) returns (f: int, rp: int, ghost k: nat)
      requires t in mem && Rep(mem, mem[t].right, t, r) && r.Node? && t !in Addrs(r)
      ensures Descended(mem, mem[t].right, t, r, k, f, rp) && rp in mem && mem[rp].left == NIL && (f == t <==> k == 0)
      ensures k == 0 ==> r.l.Leaf? && rp == mem[t].right
    {
      f := t;
      rp := mem[t].right;
      k := 0;
      var s := mem[rp].left;
      DescendStep(mem, mem[t].right, t, r, k, f, rp);
      while s != NIL
        invariant Descended(mem, mem[t].right, t, r, k, f, rp) && rp in mem && s == mem[rp].left
        decreases Depth(r) - k
      {
        DescendStep(mem, mem[t].right, t, r, k, f, rp);
        LeftsDepth(r, k + 1);
        k := k + 1;
        f := rp;
        rp := s;
        s := mem[rp].left;
      }
      DescendStep(mem, mem[t].right, t, r, k, f, rp);
      OwnerInside(mem, mem[t].right, t, r, k, f, rp);
    }

    /** The least node of the right subtree is taken from its place and gets both children of t. */
    method RaiseLeast(t: int, ghost par: int, ghost u: Tree) returns (rp: int)
      requires NIL !in mem && Rep(mem, t, par, u) && Apart(u) && u.Node? && |u.ring| == 1 && u.l.Node? && u.r.Node?
      modifies this`mem
      ensures Rep(mem, rp, if rp in mem then mem[rp].parent else NIL, DropHead(u)) && LinksOnly(old(mem), mem, Addrs(u))
      ensures t in mem && mem[t] == old(mem)[t]
    {
      AlonePlaces(mem, t, par, u);
      var f;
      ghost var k;
      f, rp, k := FindLeast(t, u.r);
      hide Rep, Apart, Addrs, Descended, DropHead, LinksOnly;
      LeastPlaces(mem, t, par, u, k, f, rp);
      ghost var m0 := mem;
      if f != t {
        var s := mem[rp].right;
        mem := mem[f := mem[f].(left := s)];
        if s != NIL {
          mem := mem[s := mem[s].(parent := f)];
        }
      }
      ghost var m1 := mem;
      GiveChildren(t, rp, f != t);
      if k > 0 {
        DeepSuccessor(m0, t, par, u, k, f, rp, m1, mem);
      } else {
        NearSuccessor(m0, t, par, u, rp, mem);
      }
    }

    /** rp gets the left child of t, and the right one unless it is rp itself. */
    method GiveChildren(t: int, rp: int, both: bool)
      requires t in mem && rp in mem && t != rp && mem[t].left in mem && mem[t].left != rp && mem[t].left != t
      requires both ==>
        mem[t].right in mem && mem[t].right != rp && mem[t].right != mem[t].left && mem[t].right != NIL
        && mem[t].right != t
      modifies this`mem
      ensures t in mem && mem[t] == old(mem)[t]
      ensures var a, b, m := mem[t].left, mem[t].right, old(mem);
        mem == if both then m[rp := m[rp].(left := a, right := b)][a := m[a].(parent := rp)][b := m[b].(parent := rp)]
                  else m[rp := m[rp].(left := a)][a := m[a].(parent := rp)]
    {
      if both {
        var s := mem[t].right;
        mem := mem[rp := mem[rp].(right := s)];
        if s != NIL {
          mem := mem[s := mem[s].(parent := rp)];
        }
      }
      var s := mem[t].left;
      mem := mem[rp := mem[rp].(left := s)];
      mem := mem[s := mem[s].(parent := rp)];
    }

    /** The inner part of the last case of pooldel: what takes the place of a block alone in its ring. */
    method PickSuccessor(t: int, ghost par: int, ghost u: Tree) returns (rp: int)
      requires NIL !in mem && Rep(mem, t, par, u) && Apart(u) && u.Node? && |u.ring| == 1
      modifies this`mem
      ensures Rep(mem, rp, if rp in mem then mem[rp].parent else NIL, DropHead(u)) && LinksOnly(old(mem), mem, Addrs(u))
      ensures t in mem && mem[t] == old(mem)[t]
    {
      AlonePlaces(mem, t, par, u);
      if mem[t].left == NIL {
        rp := mem[t].right;
      } else {
        if mem[t].right == NIL {
          rp := mem[t].left;
        } else {
          rp := RaiseLeast(t, par, u);
        }
      }
    }

    /** The last case of pooldel: the block was alone in its ring. */
    method DelSole(t: int, ghost path: Path)
      requires Ordered() && At(tree, path, t) && Sub(tree, path).ring[0] == t && |Sub(tree, path).ring| == 1
      modifies this`mem, this`root
      ensures Rep(mem, root, NIL, Plug(tree, path, DropHead(Sub(tree, path)))) && LinksOnly(old(mem), mem, Addrs(tree))
    {
      MemberTest(mem, root, tree, path, t);
      ghost var m0, par, u := mem, mem[t].parent, Sub(tree, path);
      SolePlaces(mem, root, tree, path, t);
      hide Rep, Apart, Sorted, Sub, Reaches, Addrs, Plug, DropHead, Owner;
      var rp := PickSuccessor(t, par, u);
      ghost var m1 := mem;
      var q := mem[t].parent;
      LinkAbove(q, t, rp);
      if rp != NIL {
        SuccessorThere(m1, rp, u);
        mem := mem[rp := mem[rp].(parent := q)];
      }
      SoleGone(m0, old(root), tree, path, t, m1, mem, root, rp);
    }

    /** pooldel: the tree keeps its order and loses exactly the block. */
    method PoolDel(t: int)
      requires Ordered() && t in Addrs(tree)
      modifies this
      ensures t in old(mem) && Ordered() && tree == Remove(old(tree), old(mem)[t].size, t)
        && Addrs(tree) == old(Addrs(tree)) - {t}
      ensures LinksOnly(old(mem), mem, old(Addrs(tree)))
    {
      RepAddrs(mem, root, NIL, tree);
      ghost var path := FindBlock(mem, root, NIL, tree, 0, LIMIT, t);
      ghost var s := mem[t].size;
      RemovePlug(tree, path, s, t);
      RemoveFacts(tree, s, t, 0, LIMIT, path);
      MemberTest(mem, root, tree, path, t);
      ghost var tree' := Remove(tree, s, t);
      hide Rep, Apart, Sorted, Addrs, Plug, DropHead, Remove, Searches;
      if mem[t].parent == NIL && root != t {
        DelMember(t, path);
      } else if mem[t].fwd != t {
        DelHead(t, path);
      } else {
        DelSole(t, path);
      }
      tree := tree';
    }
  }

  /** The blocks pooldel touches when the first block of a ring goes, all different. */
  lemma HeadPlaces(mem: Memory, root: int, t: Tree, path: Path, a: int)
    requires Rep(mem, root, NIL, t) && Apart(t) && At(t, path, a) && Sub(t, path).ring[0] == a
      && |Sub(t, path).ring| > 1
    ensures a in mem && var f, z, l, r, q := mem[a].fwd, mem[a].prev, mem[a].left, mem[a].right, mem[a].parent;
      && f in mem && z in mem && f in Addrs(t) && z in Addrs(t) && f != a && z != a
      && (l != NIL ==> l in mem && l in Addrs(t) && l !in {a, f, z, r, q})
        && (r != NIL ==> r in mem && r in Addrs(t) && r !in {a, f, z, l, q})
      && (q != NIL ==> q in mem && q in Addrs(t) && q !in {a, f, z, l, r}) && f != NIL && z != NIL && f !in {l, r, q}
        && z !in {l, r, q}
      && f == Sub(t, path).ring[1] && z == Sub(t, path).ring[|Sub(t, path).ring| - 1]
  {
    var u := Sub(t, path);
    SubApart(t, path);
    var x := SubRep(mem, root, NIL, t, path);
    RepAddrs(mem, root, NIL, t);
    RepAddrs(mem, mem[x].left, x, u.l);
    RepAddrs(mem, mem[x].right, x, u.r);
    RingAddrs(mem, u.size, u.ring);
    assert Linked(mem, u.size, u.ring, 0);
    assert u.ring[1] in u.ring && u.ring[|u.ring| - 1] in u.ring;
    if |path| > 0 {
      OwnerAway(mem, root, NIL, t, path);
    }
  }

  lemma HeadGone(mem: Memory, root: int, t: Tree, path: Path, a: int, mem': Memory, root': int)
    requires NIL !in mem && mem'.Keys == mem.Keys
    requires Rep(mem, root, NIL, t) && Apart(t) && At(t, path, a) && Sub(t, path).ring[0] == a
      && |Sub(t, path).ring| > 1 && a in mem
    requires var f, z, l, r, q := mem[a].fwd, mem[a].prev, mem[a].left, mem[a].right, mem[a].parent;
      && f in mem && z in mem
      && Changed(mem, mem', f,
        mem[f].(parent := q, left := l, right := r, prev := z, fwd := if f == z then f else mem[f].fwd))
      && (f != z ==> Changed(mem, mem', z, mem[z].(fwd := f))) && Adopted(mem, mem', l, f) && Adopted(mem, mem', r, f)
      && (if q == NIL then root' == f else root' == root && OwnerLinked(mem, mem', q, a, f))
      && forall b :: b in mem && b !in {f, z, l, r, q} ==> b in mem' && mem'[b] == mem[b]
    ensures Rep(mem', root', NIL, Plug(t, path, DropHead(Sub(t, path)))) && LinksOnly(mem, mem', Addrs(t))
  {
    var u, q := Sub(t, path), mem[a].parent;
    HeadPlaces(mem, root, t, path, a);
    MemberTest(mem, root, t, path, a);
    SubApart(t, path);
    RepAddrs(mem, root, NIL, t);
    var x := SubRep(mem, root, NIL, t, path);
    if |path| > 0 {
      OwnerAway(mem, root, NIL, t, path);
    }
    NextTakesOver(mem, a, q, u, mem');
    SubPlaces(mem, a, q, u);
    Replaced(mem, root, t, path, a, mem', root', mem[a].fwd, DropHead(u));
  }

  lemma SubPlaces(mem: Memory, x: int, par: int, u: Tree)
    requires Rep(mem, x, par, u) && u.Node? && |u.ring| > 1
    ensures x in mem && mem[x].fwd in Addrs(u) && mem[x].prev in Addrs(u)
    ensures (mem[x].left != NIL ==> mem[x].left in Addrs(u)) && (mem[x].right != NIL ==> mem[x].right in Addrs(u))
  {
    RepAddrs(mem, mem[x].left, x, u.l);
    RepAddrs(mem, mem[x].right, x, u.r);
    assert Linked(mem, u.size, u.ring, 0);
    assert u.ring[1] in u.ring && u.ring[|u.ring| - 1] in u.ring;
  }

  /** Block a is in the ring of the node at the end of the path. */
  ghost predicate At(t: Tree, path: Path, a: int) {
    Reaches(t, path) && Sub(t, path).Node? && a in Sub(t, path).ring
  }

  lemma MemberGone(mem: Memory, root: int, t: Tree, path: Path, a: int)
    requires Rep(mem, root, NIL, t) && Apart(t) && At(t, path, a) && Sub(t, path).ring[0] != a
    ensures a in mem && mem[a].prev in mem && mem[a].fwd in mem && mem[a].prev in Addrs(t) && mem[a].fwd in Addrs(t)
    ensures mem[a].prev != a && mem[a].fwd != a
    ensures Rep(Unlinked(mem, a), root, NIL, Plug(t, path, DropAt(Sub(t, path), a)))
  {
    var u := Sub(t, path);
    var i := IndexOf(u.ring, a);
    SubApart(t, path);
    var x := SubRep(mem, root, NIL, t, path);
    RepAddrs(mem, root, NIL, t);
    UnlinkedRing(mem, u.size, u.ring, i);
    assert Linked(mem, u.size, u.ring, i);
    assert u.ring[i - 1] in u.ring && After(u.ring, i) in u.ring;
    assert Without(u.ring, i)[0] == u.ring[0];
    NodeRing(mem, root, NIL, t, path, Unlinked(mem, a), Without(u.ring, i));
  }

  /** The test of pooldel tells a block that is not the first of its ring. */
  lemma MemberTest(mem: Memory, root: int, t: Tree, path: Path, a: int)
    requires Rep(mem, root, NIL, t) && Apart(t) && At(t, path, a)
    ensures a in mem && (mem[a].parent == NIL && root != a <==> Sub(t, path).ring[0] != a)
    ensures Sub(t, path).ring[0] == a ==>
      mem[a].parent == (if |path| == 0 then NIL else Owner(t, path)) && (|path| > 0 ==> Owner(t, path) != NIL)
    ensures Sub(t, path).ring[0] == a ==> (mem[a].fwd != a <==> |Sub(t, path).ring| > 1)
  {
    var u := Sub(t, path);
    var i := IndexOf(u.ring, a);
    SubApart(t, path);
    var x := SubRep(mem, root, NIL, t, path);
    assert Linked(mem, u.size, u.ring, i);
    if |path| > 0 {
      assert root in t.ring;
      if path[0] {
        var y := SubRep(mem, mem[root].right, root, t.r, path[1..]);
      } else {
        var y := SubRep(mem, mem[root].left, root, t.l, path[1..]);
      }
      assert a in Addrs(u);
    }
  }

  /** Which child link leads to the node at the end of a path. */
  lemma OwnerSide(mem: Memory, p: int, par: int, t: Tree, path: Path)
    requires Rep(mem, p, par, t) && Apart(t) && Reaches(t, path) && |path| > 0 && Sub(t, path).Node?
      && |Sub(t, path).ring| > 0
    ensures var q, x := Owner(t, path), Sub(t, path).ring[0];
      q in mem && (mem[q].left == x <==> !path[|path| - 1]) && (path[|path| - 1] ==> mem[q].right == x)
    decreases |path|
  {
    RepAddrs(mem, p, par, t);
    if |path| == 1 {
      assert path[1..] == [];
      RepAddrs(mem, mem[p].left, p, t.l);
      RepAddrs(mem, mem[p].right, p, t.r);
    } else if path[0] {
      OwnerSide(mem, mem[p].right, p, t.r, path[1..]);
    } else {
      OwnerSide(mem, mem[p].left, p, t.l, path[1..]);
    }
  }

  /** The owner q of a has x as its child instead. */
  ghost predicate OwnerLinked(mem: Memory, mem': Memory, q: int, a: int, x: int) {
    q in mem && q in mem' && mem'[q] == (if mem[q].left == a then mem[q].(left := x) else mem[q].(right := x))
  }

  /** A node and its subtree replaced, with the link from above. */
  lemma Replaced(mem: Memory, root: int, t: Tree, path: Path, a: int, mem': Memory, root': int, x: int, u: Tree)
    requires Rep(mem, root, NIL, t) && Apart(t) && At(t, path, a) && Sub(t, path).ring[0] == a
    requires |path| == 0 ==> root' == x && Rep(mem', x, NIL, u)
    requires |path| > 0 ==>
      root' == root && OwnerLinked(mem, mem', Owner(t, path), a, x) && Rep(mem', x, Owner(t, path), u)
    requires forall b :: b in Addrs(t) && b !in Addrs(Sub(t, path)) && (|path| > 0 ==> b != Owner(t, path)) ==>
      b in mem && b in mem' && mem'[b] == mem[b]
    ensures Rep(mem', root', NIL, Plug(t, path, u))
  {
    if |path| > 0 {
      OwnerSide(mem, root, NIL, t, path);
      PlugRep(mem, root, NIL, t, path, mem', x, u);
    }
  }

  lemma SearchFacts(mem: Memory, root: int, t: Tree, path: Path, s: int, p: int, tp: int)
    requires Searching(mem, root, t, path, s, p, tp)
    ensures Searches(t, path, s) && Reaches(t, path)
  {
  }

  /** The block q of the size of the node t joins the ring of t. */
  lemma JoinRing(mem: Memory, root: int, t: Tree, path: Path, h: int, q: int)
    requires Rep(mem, root, NIL, t) && Apart(t) && Reaches(t, path) && Sub(t, path).Node? && Sub(t, path).ring != []
      && Sub(t, path).ring[0] == h
    requires q in mem && q != NIL && q !in Addrs(t) && mem[q].magic == MAGIC_F && mem[q].parent == NIL
      && mem[q].size == Sub(t, path).size
    ensures h in mem && mem[h].prev in mem && mem[h].prev in Addrs(t) && h in Addrs(t)
    ensures var u := Sub(t, path);
      Rep(Joined(mem, h, q), root, NIL, Plug(t, path, Node(u.size, u.ring + [q], u.l, u.r)))
  {
    var u := Sub(t, path);
    SubApart(t, path);
    var x := SubRep(mem, root, NIL, t, path);
    RepAddrs(mem, root, NIL, t);
    JoinedRing(mem, u.size, u.ring, q);
    assert Linked(mem, u.size, u.ring, 0);
    assert u.ring[|u.ring| - 1] in u.ring && u.ring[0] in u.ring;
    NodeRing(mem, root, NIL, t, path, Joined(mem, h, q), u.ring + [q]);
  }

  lemma OwnerInside(mem: Memory, b: int, t: int, r: Tree, k: nat, f: int, m: int)
    requires Rep(mem, b, t, r) && Descended(mem, b, t, r, k, f, m)
    ensures k > 0 ==> f in Addrs(r)
  {
    var s := SubRep(mem, b, t, r, Lefts(k));
  }

  /** A block alone in its ring with at most one child. */
  lemma AlonePlaces(mem: Memory, t: int, par: int, u: Tree)
    requires Rep(mem, t, par, u) && Apart(u) && u.Node? && |u.ring| == 1 && NIL !in mem
    ensures t in mem && t !in Addrs(u.l) && t !in Addrs(u.r) && Rep(mem, mem[t].right, t, u.r)
    ensures mem[t].left == NIL <==> u.l.Leaf?
    ensures mem[t].right == NIL <==> u.r.Leaf?
    ensures u.l.Leaf? || u.r.Leaf? ==>
      var rp := if mem[t].left == NIL then mem[t].right else mem[t].left;
      Rep(mem, rp, if rp in mem then mem[rp].parent else NIL, DropHead(u))
  {
    RepAddrs(mem, mem[t].left, t, u.l);
    RepAddrs(mem, mem[t].right, t, u.r);
    assert t in u.ring;
    if u.l.Leaf? && u.r.Leaf? {
      assert Rep(mem, NIL, NIL, Leaf);
    }
  }

  /** The blocks pooldel touches when two children are left, all different. */
  lemma LeastPlaces(mem: Memory, t: int, par: int, u: Tree, k: nat, f: int, m: int)
    requires Rep(mem, t, par, u) && Apart(u) && u.Node? && |u.ring| == 1 && u.l.Node? && u.r.Node? && NIL !in mem
    requires t in mem && Descended(mem, mem[t].right, t, u.r, k, f, m) && m in mem && mem[m].left == NIL
    ensures var a, b, c := mem[t].left, mem[t].right, mem[m].right;
      && a in mem && b in mem && f in mem && a in Addrs(u) && b in Addrs(u) && m in Addrs(u) && f in Addrs(u)
      && m != t && a !in {t, b, m, f, c} && (c != NIL ==> c in mem && c in Addrs(u) && c !in {t, a, m, f})
      && b != t && (k > 0 ==> f != m && f != t && b != m && b != c) && (k == 0 ==> m == b)
  {
    var r := u.r;
    RepAddrs(mem, t, par, u);
    RepAddrs(mem, mem[t].left, t, u.l);
    RepAddrs(mem, mem[t].right, t, r);
    assert t in u.ring;
    if k > 0 {
      LeastPlace(mem, mem[t].right, t, r, k, f, m);
      RepAddrs(mem, mem[m].right, m, Least(r).r);
      RootAway(mem, mem[t].right, t, r, k);
    } else {
      RepAddrs(mem, mem[m].right, m, r.r);
    }
  }

  /** The root of a tree is not in a proper subtree. */
  lemma RootAway(mem: Memory, b: int, t: int, r: Tree, k: nat)
    requires Rep(mem, b, t, r) && Apart(r) && r.Node? && k > 0 && Reaches(r, Lefts(k))
    ensures b !in Addrs(Sub(r, Lefts(k)))
  {
    assert Lefts(k)[1..] == Lefts(k - 1);
    assert b in r.ring;
    SubApart(r.l, Lefts(k - 1));
  }

  lemma NearSuccessor(mem: Memory, t: int, par: int, u: Tree, m: int, mem': Memory)
    requires Rep(mem, t, par, u) && Apart(u) && u.Node? && |u.ring| == 1 && u.l.Node? && u.r.Node? && u.r.l.Leaf?
      && NIL !in mem
    requires t in mem && m == mem[t].right && m in mem && mem[t].left in mem && mem[t].left != m && mem[t].left != t
      && m != t
    requires mem' == mem[m := mem[m].(left := mem[t].left)][mem[t].left := mem[mem[t].left].(parent := m)]
    ensures Rep(mem', m, if m in mem' then mem'[m].parent else NIL, DropHead(u)) && LinksOnly(mem, mem', Addrs(u))
  {
    RepAddrs(mem, t, par, u);
    RepAddrs(mem, mem[t].left, t, u.l);
    RepAddrs(mem, m, t, u.r);
    ChildTakesOver(mem, t, par, u, m, mem', mem[m].parent);
  }

  lemma DeepSuccessor(mem: Memory, t: int, par: int, u: Tree, k: nat, f: int, m: int, mem1: Memory, mem': Memory)
    requires Rep(mem, t, par, u) && Apart(u) && u.Node? && |u.ring| == 1 && u.l.Node? && u.r.Node? && NIL !in mem
      && k > 0
    requires t in mem && Descended(mem, mem[t].right, t, u.r, k, f, m) && m in mem && mem[m].left == NIL && f in mem
    requires var c := mem[m].right;
      var m0 := mem[f := mem[f].(left := c)];
      mem1 == if c != NIL && c in m0 then m0[c := m0[c].(parent := f)] else m0
    requires var a, b := mem[t].left, mem[t].right;
      && a in mem1 && b in mem1 && m in mem1
      && mem' == mem1[m := mem1[m].(left := a, right := b)][a := mem1[a].(parent := m)][b := mem1[b].(parent := m)]
    ensures Rep(mem', m, if m in mem' then mem'[m].parent else NIL, DropHead(u)) && LinksOnly(mem, mem', Addrs(u))
  {
    LeastPlaces(mem, t, par, u, k, f, m);
    RepAddrs(mem, t, par, u);
    hide Rep, Apart, Addrs, Descended, DropHead, LinksOnly;
    var a, b, c := mem[t].left, mem[t].right, mem[m].right;
    FirstStep(mem, mem1, f, c);
    SecondStep(mem1, mem', m, a, b);
    LinksSum(mem, mem1, mem', Addrs(u), {f, c}, {m, a, b});
    LeastTakesOver(mem, t, par, u, k, f, m, mem1, mem', mem1[m].parent);
    DropHeadTwo(u);
  }

  lemma DropHeadTwo(u: Tree)
    requires u.Node? && |u.ring| == 1 && u.l.Node? && u.r.Node?
    ensures DropHead(u) == Node(Least(u.r).size, Least(u.r).ring, u.l, DropLeast(u.r))
  {
  }

  ghost predicate Elsewhere(mem: Memory, mem': Memory, s: set<int>) {
    mem'.Keys == mem.Keys && forall x :: x in mem && x !in s ==> mem'[x] == mem[x]
  }

  lemma FirstStep(mem: Memory, mem1: Memory, f: int, c: int)
    requires f in mem && NIL !in mem && (c != NIL ==> c in mem && c != f)
    requires var m0 := mem[f := mem[f].(left := c)];
      mem1 == if c != NIL && c in m0 then m0[c := m0[c].(parent := f)] else m0
    ensures Changed(mem, mem1, f, mem[f].(left := c)) && Adopted(mem, mem1, c, f) && Elsewhere(mem, mem1, {f, c})
    ensures LinksOnly(mem, mem1, {f, c})
  {
  }

  lemma SecondStep(mem: Memory, mem': Memory, m: int, a: int, b: int)
    requires m in mem && a in mem && b in mem && m != a && m != b && a != b
    requires mem' == mem[m := mem[m].(left := a, right := b)][a := mem[a].(parent := m)][b := mem[b].(parent := m)]
    ensures Changed(mem, mem', m, mem[m].(left := a, right := b, parent := mem[m].parent))
    ensures Adopted(mem, mem', a, m) && Adopted(mem, mem', b, m) && Elsewhere(mem, mem', {m, a, b})
    ensures LinksOnly(mem, mem', {m, a, b})
  {
  }

  lemma LinksSum(mem: Memory, mem1: Memory, mem': Memory, s: set<int>, s1: set<int>, s2: set<int>)
    requires LinksOnly(mem, mem1, s1) && LinksOnly(mem1, mem', s2) && NIL !in mem
    requires forall x :: x in s1 && x in mem ==> x in s
    requires forall x :: x in s2 && x in mem ==> x in s
    ensures LinksOnly(mem, mem', s)
  {
  }

  lemma SolePlaces(mem: Memory, root: int, t: Tree, path: Path, a: int)
    requires Rep(mem, root, NIL, t) && Apart(t) && At(t, path, a) && Sub(t, path).ring[0] == a && a in mem
    ensures Rep(mem, a, mem[a].parent, Sub(t, path)) && Apart(Sub(t, path)) && Addrs(Sub(t, path)) <= Addrs(t)
    ensures mem[a].parent != NIL ==>
      mem[a].parent in mem && mem[a].parent in Addrs(t) && mem[a].parent !in Addrs(Sub(t, path))
    ensures a in Addrs(Sub(t, path))
  {
    SubApart(t, path);
    MemberTest(mem, root, t, path, a);
    RepAddrs(mem, root, NIL, t);
    var x := SubRep(mem, root, NIL, t, path);
    if |path| > 0 {
      OwnerAway(mem, root, NIL, t, path);
    }
  }

  lemma SuccessorThere(mem: Memory, rp: int, u: Tree)
    requires u.Node? && |u.ring| > 0 && Apart(u) && rp != NIL
      && Rep(mem, rp, if rp in mem then mem[rp].parent else NIL, DropHead(u))
    ensures rp in mem && rp in Addrs(u) && rp != u.ring[0]
  {
    RepAddrs(mem, rp, if rp in mem then mem[rp].parent else NIL, DropHead(u));
    DropHeadAddrs(u);
  }

  lemma DropHeadAddrs(u: Tree)
    requires u.Node? && |u.ring| > 0 && Apart(u)
    ensures Addrs(DropHead(u)) == Addrs(u) - {u.ring[0]} && Apart(DropHead(u))
  {
    assert u.ring[0] in u.ring;
    if |u.ring| > 1 {
      assert u.ring == [u.ring[0]] + u.ring[1..];
    } else {
      assert u.ring == [u.ring[0]];
      if u.l.Node? && u.r.Node? {
        DropLeastApart(u.r);
      }
    }
  }

  /** The successor rp hangs in the place of a. */
  lemma SoleGone(mem: Memory, root: int, t: Tree, path: Path, a: int, mem1: Memory, mem': Memory, root': int, rp: int)
    requires Rep(mem, root, NIL, t) && Apart(t) && At(t, path, a) && Sub(t, path).ring[0] == a && a in mem
      && NIL !in mem
    requires LinksOnly(mem, mem1, Addrs(Sub(t, path)))
      && Rep(mem1, rp, if rp in mem1 then mem1[rp].parent else NIL, DropHead(Sub(t, path)))
    requires mem'.Keys == mem1.Keys
    requires var q := mem[a].parent;
      && (if q == NIL then root' == rp else root' == root && OwnerLinked(mem1, mem', q, a, rp))
      && Adopted(mem1, mem', rp, q) && forall b :: b in mem1 && b !in {rp, q} ==> mem'[b] == mem1[b]
    ensures Rep(mem', root', NIL, Plug(t, path, DropHead(Sub(t, path)))) && LinksOnly(mem, mem', Addrs(t))
  {
    var u, q := Sub(t, path), mem[a].parent;
    SolePlaces(mem, root, t, path, a);
    MemberTest(mem, root, t, path, a);
    DropHeadAddrs(u);
    RepAddrs(mem, root, NIL, t);
    if rp != NIL {
      SuccessorThere(mem1, rp, u);
    }
    SoleLinks(mem, mem1, mem', Addrs(t), Addrs(u), a, q, rp);
    hide DropHead, LinksOnly, At, Apart, Sorted;
    HangSuccessor(mem1, rp, DropHead(u), mem', q);
    Replaced(mem, root, t, path, a, mem', root', rp, DropHead(u));
  }

  lemma HangSuccessor(mem1: Memory, rp: int, d: Tree, mem': Memory, q: int)
    requires Rep(mem1, rp, if rp in mem1 then mem1[rp].parent else NIL, d) && Apart(d) && NIL !in mem1
      && q !in Addrs(d) && mem'.Keys == mem1.Keys
    requires Adopted(mem1, mem', rp, q) && forall b :: b in mem1 && b !in {rp, q} ==> mem'[b] == mem1[b]
    ensures Rep(mem', rp, q, d)
  {
    var par := if rp in mem1 then mem1[rp].parent else NIL;
    RepAddrs(mem1, rp, par, d);
    Reparent(mem1, rp, par, d, mem', q);
  }

  lemma SoleLinks(mem: Memory, mem1: Memory, mem': Memory, all: set<int>, sub: set<int>, a: int, q: int, rp: int)
    requires LinksOnly(mem, mem1, sub) && NIL !in mem && sub <= all && mem'.Keys == mem1.Keys
    requires q != NIL ==> OwnerLinked(mem1, mem', q, a, rp) && q in all && q !in sub && q in mem
    requires (rp != NIL ==> rp in sub) && (q != NIL ==> rp != q)
    requires Adopted(mem1, mem', rp, q) && forall b :: b in mem1 && b !in {rp, q} ==> mem'[b] == mem1[b]
    ensures LinksOnly(mem, mem', all) && (q != NIL ==> OwnerLinked(mem, mem', q, a, rp))
    ensures forall b :: b in mem && b !in sub && b != q ==> b in mem' && mem'[b] == mem[b]
  {
  }
}
