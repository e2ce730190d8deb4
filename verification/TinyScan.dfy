/**
  What the recovery scan of the tiny file system keeps: the state between two files of tfsinit,
  and why a file is dropped.
 */
module TinyScan {
  import opened TinyBlocks
  import opened TinyChain

  ghost predicate Reaches(D: Medium, x: nat, y: nat) {
    exists w :: Walk(D, x, w) && y in w
  }

  /** A complete chain that nothing else on the medium leads into. */
  ghost predicate Exclusive(D: Medium, b: nat)
    requires b < |D| && D[b].Dir?
  {
    exists p :: IsChain(D, D[b].head, p) && forall c :: c in Dirs(D) && c != b ==> Untouchable(D, D[c].head, p)
  }

  ghost predicate Untouchable(D: Medium, x: nat, p: seq<nat>) {
    forall y :: y in p ==> !Reaches(D, x, y)
  }

  /** Blocks w have been followed from x, and bno comes next. */
  ghost predicate Following(D: Medium, x: nat, w: seq<nat>, bno: nat) {
    bno < |D| && Walk(D, x, w + [bno])
  }

  lemma FollowStarts(D: Medium, x: nat)
    requires x < |D|
    ensures Following(D, x, [], x)
  {
    assert [] + [x] == [x];
  }

  lemma FollowStep(D: Medium, x: nat, w: seq<nat>, bno: nat)
    requires WellFormed(D) && Following(D, x, w, bno) && D[bno].Data?
    ensures Following(D, x, w + [bno], D[bno].next)
  {
    var v := w + [bno];
    assert WellFormedItem(D[bno], |D|);
    assert forall i {:trigger (v + [D[bno].next])[i]} :: 0 <= i < |v| ==> (v + [D[bno].next])[i] == v[i];
  }

  lemma FollowEnds(D: Medium, x: nat, w: seq<nat>, bno: nat)
    requires Following(D, x, w, bno) && D[bno].End?
    ensures IsChain(D, x, w + [bno])
  {
  }

  lemma FollowReaches(D: Medium, x: nat, w: seq<nat>, bno: nat)
    requires Following(D, x, w, bno)
    ensures forall y :: y in w + [bno] ==> Reaches(D, x, y)
    ensures forall y :: y in w ==> y < |D| && D[y].Data?
  {
    var v := w + [bno];
    forall y | y in w
      ensures y < |D| && D[y].Data?
    {
      var i :| 0 <= i < |w| && w[i] == y;
      assert v[i] == y;
    }
  }

  /** A chain followed as far as bno goes through bno. */
  lemma FollowOnChain(D: Medium, x: nat, w: seq<nat>, bno: nat, p: seq<nat>)
    requires Following(D, x, w, bno) && IsChain(D, x, p)
    ensures bno in p && bno !in w && (D[bno].Data? || D[bno].End?)
  {
    var v := w + [bno];
    var i := |w|;
    WalkInChain(D, x, v, p);
    assert v[i] == bno && p[i] == bno;
    forall k | 0 <= k < i
      ensures w[k] != bno
    {
      assert v[k] == w[k] == p[k];
      NoRepeat(D, x, p, k, i);
    }
  }

  /**
    Between two files of the scan. D0 is the medium as found and D as it is now; the directory
    blocks in `done` have been followed, and those of them that are in `paths` are kept.
   */
  ghost predicate Scanned(D0: Medium, D: Medium, done: set<nat>, paths: map<nat, seq<nat>>, used: set<nat>) {
    && |D| == |D0| && WellFormed(D0) && done <= Dirs(D0) && paths.Keys <= done
    && (forall b {:trigger D[b]} :: 0 <= b < |D| ==> D[b] == if b in done && b !in paths then Junk else D0[b])
    && (forall b :: b in paths ==> IsChain(D0, D0[b].head, paths[b]))
    && Apart(paths) && Covers(used, paths) && Dirs(D0) - done <= used
    && (forall y :: y in used ==> Explained(D0, done, paths, y))
    && forall b :: b in done && Exclusive(D0, b) ==> b in paths
  }

  /** Why a place is marked: past the medium, a directory block, or on the way of a file followed. */
  ghost predicate Explained(D0: Medium, done: set<nat>, paths: map<nat, seq<nat>>, y: nat)
    requires done <= Dirs(D0)
  {
    || y >= |D0|
    || (y in Dirs(D0) && (y !in done || y in paths))
    || exists c :: c in done && Reaches(D0, D0[c].head, y)
  }

  lemma ScanStarts(D: Medium, used: set<nat>)
    requires WellFormed(D) && Dirs(D) <= used && forall y :: y in used ==> y >= |D| || y in Dirs(D)
    ensures Scanned(D, D, {}, map[], used)
  {
  }

  /** A file whose next block is taken, or is no data, has no chain of its own. */
  lemma NotExclusive(D0: Medium, D: Medium, done: set<nat>, paths: map<nat, seq<nat>>, used: set<nat>, b: nat,
      w: seq<nat>, bno: nat)
    requires Scanned(D0, D, done, paths, used) && b in Dirs(D0) && b !in done
    requires Following(D0, D0[b].head, w, bno)
    requires bno in used || bno in w || !(D0[bno].Data? || D0[bno].End?)
    ensures !Exclusive(D0, b)
  {
    assert bno in used ==> Explained(D0, done, paths, bno);
    if Exclusive(D0, b) {
      var p :| IsChain(D0, D0[b].head, p) && forall c :: c in Dirs(D0) && c != b ==> Untouchable(D0, D0[c].head, p);
      FollowOnChain(D0, D0[b].head, w, bno, p);
    }
  }

  /** The file is kept: its chain ran over free blocks to an end block. */
  lemma KeepFile(D0: Medium, D: Medium, done: set<nat>, paths: map<nat, seq<nat>>, used: set<nat>, b: nat, p: seq<nat>,
      used': set<nat>)
    requires Scanned(D0, D, done, paths, used) && b in Dirs(D0) && b !in done
    requires IsChain(D0, D0[b].head, p) && (forall y :: y in p ==> y !in used)
    requires forall y :: y in used' <==> y in used || y in p
    ensures Scanned(D0, D, done + {b}, paths[b := p], used')
  {
    hide IsChain, Exclusive, Reaches, WellFormed, WellFormedItem;
    KeptReaches(D0, b, p);
    KeepApart(paths, b, p, used);
    var done', paths' := done + {b}, paths[b := p];
    forall y | y in used'
      ensures Explained(D0, done', paths', y)
    {
      if y in used {
        assert Explained(D0, done, paths, y);
      }
    }
  }

  lemma KeptReaches(D0: Medium, b: nat, p: seq<nat>)
    requires b in Dirs(D0) && IsChain(D0, D0[b].head, p)
    ensures forall y :: y in p ==> Reaches(D0, D0[b].head, y)
  {
  }

  lemma KeepApart(paths: map<nat, seq<nat>>, b: nat, p: seq<nat>, used: set<nat>)
    requires Apart(paths) && Covers(used, paths) && forall y :: y in p ==> y !in used
    ensures Apart(paths[b := p])
  {
  }

  /** The file is dropped: its directory block is scrubbed, and what it marked may stay marked. */
  lemma DropFile(D0: Medium, D: Medium, done: set<nat>, paths: map<nat, seq<nat>>, used: set<nat>, b: nat, w: seq<nat>,
      bno: nat, used': set<nat>)
    requires Scanned(D0, D, done, paths, used) && b in Dirs(D0) && b !in done
    requires Following(D0, D0[b].head, w, bno)
    requires bno in used || bno in w || !(D0[bno].Data? || D0[bno].End?)
    requires forall y :: y in used && y != b ==> y in used'
    requires forall y :: y in used' ==> (y in used && y != b) || y in w
    ensures b < |D| && Scanned(D0, D[b := Junk], done + {b}, paths, used')
  {
    hide IsChain, Walk, Exclusive, Reaches, Following, WellFormed, WellFormedItem, Apart, Explained;
    NotExclusive(D0, D, done, paths, used, b, w, bno);
    KeptAvoid(D0, paths, b);
    DroppedExplained(D0, done, paths, used, b, w, bno, used');
  }

  lemma DroppedExplained(D0: Medium, done: set<nat>, paths: map<nat, seq<nat>>, used: set<nat>, b: nat, w: seq<nat>,
      bno: nat, used': set<nat>)
    requires done <= Dirs(D0) && b in Dirs(D0) && b !in done
      && (forall y :: y in used ==> Explained(D0, done, paths, y))
    requires Following(D0, D0[b].head, w, bno)
    requires forall y :: y in used' ==> (y in used && y != b) || y in w
    ensures forall y :: y in used' ==> Explained(D0, done + {b}, paths, y)
  {
    FollowReaches(D0, D0[b].head, w, bno);
    hide Walk, Reaches, Following;
    forall y | y in used'
      ensures Explained(D0, done + {b}, paths, y)
    {
      if y in used && y != b {
        assert Explained(D0, done, paths, y);
      } else {
        assert y in w + [bno];
      }
    }
  }

  lemma KeptAvoid(D0: Medium, paths: map<nat, seq<nat>>, b: nat)
    requires b in Dirs(D0) && paths.Keys <= Dirs(D0) && forall c :: c in paths ==> IsChain(D0, D0[c].head, paths[c])
    ensures forall c :: c in paths ==> b !in paths[c]
  {
    forall c | c in paths
      ensures b !in paths[c]
    {
      NotOnChain(D0, D0[c].head, paths[c], b);
    }
  }

  /** The scan is over: what is left is linked, and exactly the kept files are on it. */
  lemma ScanEnds(D0: Medium, D: Medium, paths: map<nat, seq<nat>>, used: set<nat>)
    requires Scanned(D0, D, Dirs(D0), paths, used)
    ensures Linked(D, paths) && Covers(used, paths)
    ensures forall b :: b in Dirs(D0) && Exclusive(D0, b) ==> b in paths
    ensures forall b {:trigger D[b]} :: 0 <= b < |D| ==> D[b] == if D0[b].Dir? && b !in paths then Junk else D0[b]
  {
    forall b | 0 <= b < |D|
      ensures WellFormedItem(D[b], |D|)
    {
      assert WellFormedItem(D0[b], |D0|);
    }
    assert Dirs(D) == paths.Keys;
    forall b | b in paths
      ensures IsChain(D, D[b].head, paths[b])
    {
      forall y | y in paths[b]
        ensures y < |D0| && D[y] == D0[y]
      {
        ChainWithin(D0, D0[b].head, paths[b]);
        if D0[y].Dir? {
          NotOnChain(D0, D0[b].head, paths[b], y);
        }
      }
      ChainFrame(D0, D, D0[b].head, paths[b]);
    }
  }

  lemma ReachedOnChain(D: Medium, x: nat, p: seq<nat>, y: nat)
    requires IsChain(D, x, p)
    ensures Reaches(D, x, y) ==> y in p
  {
    if Reaches(D, x, y) {
      var w :| Walk(D, x, w) && y in w;
      WalkInChain(D, x, w, p);
    }
  }

  /** On a medium in order every file has its chain to itself. */
  lemma LinkedExclusive(D: Medium, paths: map<nat, seq<nat>>, b: nat)
    requires Linked(D, paths) && b in paths
    ensures Exclusive(D, b)
  {
    forall c | c in Dirs(D) && c != b
      ensures Untouchable(D, D[c].head, paths[b])
    {
      assert Disjoint(paths[b], paths[c]);
      forall y | y in paths[b]
        ensures !Reaches(D, D[c].head, y)
      {
        ReachedOnChain(D, D[c].head, paths[c], y);
      }
    }
  }

  /** So the scan keeps all of it: the medium, the paths and the files stay as they are. */
  lemma ScanKeepsAll(D0: Medium, paths0: map<nat, seq<nat>>, D: Medium, paths: map<nat, seq<nat>>, used: set<nat>)
    requires Linked(D0, paths0) && Scanned(D0, D, Dirs(D0), paths, used)
    ensures D == D0 && paths == paths0
  {
    ScanEnds(D0, D, paths, used);
    forall b | b in Dirs(D0)
      ensures b in paths
    {
      LinkedExclusive(D0, paths0, b);
    }
    PathsUnique(D0, paths0, paths);
  }
}
