/**
  How the blocks of an arena (emu/alloc.c) fill it: from the block behind the leader by the sizes up
  to the end mark. Splitting a block and joining two keep the arena filled.
 */
module PoolTiles {
  import opened Sets

  const UNIT := 32

  /** Sizes of blocks by address. */
  type Sizes = map<int, int>

  ghost predicate Piece(z: Sizes, b: int, limit: int) {
    b in z && z[b] >= UNIT && z[b] % UNIT == 0 && b + z[b] <= limit
  }

  /** The blocks fill the space from `from` to `limit` without gap or overlap. */
  ghost predicate Tiled(z: Sizes, from: int, limit: int)
    decreases limit - from
  {
    from == limit || (from < limit && Piece(z, from, limit) && Tiled(z, from + z[from], limit))
  }

  /** b is one of the blocks met on the way. */
  ghost predicate OnWalk(z: Sizes, from: int, limit: int, b: int)
    decreases limit - from
  {
    from < limit && Piece(z, from, limit) && (b == from || OnWalk(z, from + z[from], limit, b))
  }

  lemma {:induction false} WalkRange(z: Sizes, from: int, limit: int, b: int)
    requires OnWalk(z, from, limit, b)
    ensures from <= b < limit && Piece(z, b, limit)
    decreases limit - from
  {
    if b != from {
      WalkRange(z, from + z[from], limit, b);
    }
  }

  /** Behind a block comes another, or the end. */
  lemma {:induction false} WalkNext(z: Sizes, from: int, limit: int, b: int)
    requires Tiled(z, from, limit) && OnWalk(z, from, limit, b)
    ensures b in z && (b + z[b] == limit || OnWalk(z, from, limit, b + z[b]))
    decreases limit - from
  {
    if b == from {
      if b + z[b] != limit {
        assert OnWalk(z, from + z[from], limit, from + z[from]);
      }
    } else {
      WalkNext(z, from + z[from], limit, b);
    }
  }

  /** Before a block that is not the first there is one that ends where it starts. */
  lemma {:induction false} WalkPrev(z: Sizes, from: int, limit: int, b: int) returns (p: int)
    requires OnWalk(z, from, limit, b) && b != from
    ensures OnWalk(z, from, limit, p) && p in z && p + z[p] == b
    decreases limit - from
  {
    if b == from + z[from] {
      p := from;
    } else {
      p := WalkPrev(z, from + z[from], limit, b);
    }
  }

  /** Blocks do not overlap. */
  lemma {:induction false} WalkApart(z: Sizes, from: int, limit: int, b: int, c: int)
    requires OnWalk(z, from, limit, b) && OnWalk(z, from, limit, c) && b < c
    ensures b in z && b + z[b] <= c
    decreases limit - from
  {
    if b == from {
      WalkRange(z, from + z[from], limit, c);
    } else if c == from {
      WalkRange(z, from, limit, b);
    } else {
      WalkApart(z, from + z[from], limit, b, c);
    }
  }

  /** The same blocks between two addresses. */
  ghost predicate SameBetween(z: Sizes, z': Sizes, from: int, limit: int) {
    forall x :: from <= x < limit ==> (x in z <==> x in z') && (x in z ==> z'[x] == z[x])
  }

  /** Only the blocks between the bounds matter. */
  lemma {:induction false} TileFrame(z: Sizes, z': Sizes, from: int, limit: int)
    requires SameBetween(z, z', from, limit)
    ensures Tiled(z', from, limit) <==> Tiled(z, from, limit)
    ensures forall b :: OnWalk(z', from, limit, b) <==> OnWalk(z, from, limit, b)
    decreases limit - from
  {
    if from < limit && Piece(z, from, limit) {
      TileFrame(z, z', from + z[from], limit);
    }
  }

  /** A block cut in two. */
  ghost function Cut(z: Sizes, b: int, s: int): Sizes
    requires b in z
  {
    z[b := s][b + s := z[b] - s]
  }

  lemma {:induction false} CutTile(z: Sizes, from: int, limit: int, b: int, s: int)
    requires Tiled(z, from, limit) && OnWalk(z, from, limit, b) && b in z && UNIT <= s < z[b] && s % UNIT == 0
    ensures Tiled(Cut(z, b, s), from, limit)
    ensures forall x :: OnWalk(Cut(z, b, s), from, limit, x) <==> OnWalk(z, from, limit, x) || x == b + s
    decreases limit - from
  {
    var z' := Cut(z, b, s);
    WalkRange(z, from, limit, b);
    if b == from {
      TileFrame(z, z', b + z[b], limit);
      assert Piece(z', b + s, limit);
      assert Tiled(z', b + s, limit);
      forall x
        ensures OnWalk(z', from, limit, x) <==> OnWalk(z, from, limit, x) || x == b + s
      {
        assert OnWalk(z', b + s, limit, x) <==> x == b + s || OnWalk(z', b + z[b], limit, x);
      }
    } else {
      WalkRange(z, from + z[from], limit, b);
      CutTile(z, from + z[from], limit, b, s);
    }
  }

  /** A block and the one behind it made one. */
  ghost function Merged(z: Sizes, b: int): Sizes
    requires b in z && b + z[b] in z
  {
    (z - {b + z[b]})[b := z[b] + z[b + z[b]]]
  }

  lemma {:induction false} MergeTile(z: Sizes, from: int, limit: int, b: int)
    requires Tiled(z, from, limit) && OnWalk(z, from, limit, b) && b in z && b + z[b] != limit
    ensures b + z[b] in z && OnWalk(z, from, limit, b + z[b])
    ensures Tiled(Merged(z, b), from, limit)
    ensures forall x :: OnWalk(Merged(z, b), from, limit, x) <==> OnWalk(z, from, limit, x) && x != b + z[b]
    decreases limit - from
  {
    WalkNext(z, from, limit, b);
    WalkRange(z, from, limit, b);
    WalkRange(z, from, limit, b + z[b]);
    var z', c := Merged(z, b), b + z[b];
    if b == from {
      TileFrame(z, z', c + z[c], limit);
      forall x
        ensures OnWalk(z', from, limit, x) <==> OnWalk(z, from, limit, x) && x != c
      {
        if OnWalk(z, c + z[c], limit, x) {
          WalkRange(z, c + z[c], limit, x);
        }
        assert OnWalk(z, from, limit, x) <==> x == b || x == c || OnWalk(z, c + z[c], limit, x);
      }
    } else {
      WalkRange(z, from + z[from], limit, b);
      MergeTile(z, from + z[from], limit, b);
    }
  }

  /** The sizes of some blocks together. */
  ghost function Sum(z: Sizes, s: set<int>): int {
    if s == {} then 0 else (if Pick(s) in z then z[Pick(s)] else 0) + Sum(z, s - {Pick(s)})
  }

  lemma {:induction false} SumWithout(z: Sizes, s: set<int>, x: int)
    requires x in s
    ensures Sum(z, s) == (if x in z then z[x] else 0) + Sum(z, s - {x})
    decreases |s|
  {
    var y := Pick(s);
    if y != x {
      SumWithout(z, s - {y}, x);
      SumWithout(z, s - {x}, y);
      assert (s - {y}) - {x} == (s - {x}) - {y};
    }
  }

  lemma {:induction false} SumSame(z: Sizes, z': Sizes, s: set<int>)
    requires forall x :: x in s ==> x in z && x in z' && z'[x] == z[x]
    ensures Sum(z', s) == Sum(z, s)
    decreases |s|
  {
    if s != {} {
      var x := Pick(s);
      assert x in s;
      SumSame(z, z', s - {x});
    }
  }

  /** No block is larger than all together. */
  lemma {:induction false} SumCovers(z: Sizes, s: set<int>, x: int)
    requires x in s && forall y :: y in s ==> y in z && z[y] > 0
    ensures Sum(z, s) >= z[x] && Sum(z, s - {x}) >= 0
    decreases |s|
  {
    SumWithout(z, s, x);
    if s != {x} {
      var y := Pick(s - {x});
      assert y in s;
      SumCovers(z, s - {x}, y);
    } else {
      assert s - {x} == {};
    }
  }
}
