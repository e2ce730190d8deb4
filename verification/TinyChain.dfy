/**
  The files a medium holds: chains of data blocks hung from directory blocks, and what single
  block writes do to them.
 */
module TinyChain {
  import opened Bytes
  import opened Seqs
  import opened TinyBlocks

  type Medium = seq<Item>

  /** Blocks point inside the medium, and all but the last block of a file are full. */
  ghost predicate WellFormed(D: Medium) {
    forall b :: 0 <= b < |D| ==> WellFormedItem(D[b], |D|)
  }

  ghost predicate WellFormedItem(d: Item, n: nat) {
    && (d.Data? ==> d.next < n && |d.bytes| == DLEN)
    && (d.End? ==> |d.bytes| <= DLEN)
    && (d.Dir? ==> d.head < n && |d.name| <= NLEN && 0 !in d.name && d.pin <= 0xffff)
  }

  /** w follows the links of data blocks from x. */
  ghost predicate Walk(D: Medium, x: nat, w: seq<nat>) {
    && |w| > 0 && w[0] == x
    && (forall i {:trigger w[i]} :: 0 <= i < |w| ==> w[i] < |D|)
    && forall i {:trigger w[i]} :: 0 <= i < |w| - 1 ==> D[w[i]].Data? && D[w[i]].next == w[i + 1]
  }

  /** A walk that arrives at an end block. */
  ghost predicate IsChain(D: Medium, x: nat, p: seq<nat>) {
    Walk(D, x, p) && D[p[|p| - 1]].End?
  }

  ghost function Piece(d: Item): seq<byte> {
    match d
    case Data(_, bytes) => bytes
    case End(bytes) => bytes
    case _ => []
  }

  /** The bytes along a row of blocks. */
  ghost function Text(D: Medium, p: seq<nat>): seq<byte>
    requires InRange(|D|, p)
  {
    if |p| == 0 then [] else Piece(D[p[0]]) + Text(D, p[1..])
  }

  lemma {:induction false} TextConcat(D: Medium, p: seq<nat>, q: seq<nat>)
    requires InRange(|D|, p)
    requires InRange(|D|, q)
    ensures InRange(|D|, p + q)
    ensures Text(D, p + q) == Text(D, p) + Text(D, q)
  {
    if |p| == 0 {
      assert p + q == q;
    } else {
      hide Piece;
      assert (p + q)[1..] == p[1..] + q && (p + q)[0] == p[0];
      TextConcat(D, p[1..], q);
      Assoc(Piece(D[p[0]]), Text(D, p[1..]), Text(D, q));
    }
  }

  lemma {:induction false} TextFrame(D: Medium, D': Medium, p: seq<nat>)
    requires |D| == |D'| && forall i {:trigger p[i]} :: 0 <= i < |p| ==> p[i] < |D| && D[p[i]] == D'[p[i]]
    ensures Text(D, p) == Text(D', p)
  {
    if |p| > 0 {
      assert forall i {:trigger p[1..][i]} :: 0 <= i < |p[1..]| ==> p[1..][i] == p[i + 1];
      TextFrame(D, D', p[1..]);
    }
  }

  /** Walks from one block agree as far as they both go. */
  lemma {:induction false} WalksAgree(D: Medium, x: nat, w: seq<nat>, v: seq<nat>, i: nat)
    requires Walk(D, x, w) && Walk(D, x, v) && i < |w| && i < |v|
    ensures w[i] == v[i]
  {
    if i > 0 {
      WalksAgree(D, x, w, v, i - 1);
    }
  }

  lemma WalkTail(D: Medium, x: nat, w: seq<nat>, i: nat)
    requires Walk(D, x, w) && i < |w|
    ensures Walk(D, w[i], w[i..])
  {
    assert forall k {:trigger w[i..][k]} :: 0 <= k < |w[i..]| ==> w[i..][k] == w[i + k];
  }

  /** A walk from the start of a chain stays on it. */
  lemma WalkInChain(D: Medium, x: nat, w: seq<nat>, p: seq<nat>)
    requires Walk(D, x, w) && IsChain(D, x, p)
    ensures |w| <= |p| && w == p[..|w|]
  {
    if |w| > |p| {
      WalksAgree(D, x, w, p, |p| - 1);
    }
    forall i | 0 <= i < |w|
      ensures w[i] == p[i]
    {
      WalksAgree(D, x, w, p, i);
    }
  }

  /** There is one chain from a block at most. */
  lemma ChainUnique(D: Medium, x: nat, p: seq<nat>, q: seq<nat>)
    requires IsChain(D, x, p) && IsChain(D, x, q)
    ensures p == q
  {
    WalkInChain(D, x, p, q);
    WalkInChain(D, x, q, p);
  }

  /** A chain never comes back to a block. */
  lemma NoRepeat(D: Medium, x: nat, p: seq<nat>, i: nat, j: nat)
    requires IsChain(D, x, p) && i < j < |p|
    ensures p[i] != p[j]
  {
    WalkTail(D, x, p, i);
    WalkTail(D, x, p, j);
    if p[i] == p[j] {
      ChainUnique(D, p[i], p[i..], p[j..]);
    }
  }

  lemma {:induction false} TextLength(D: Medium, x: nat, p: seq<nat>)
    requires WellFormed(D) && IsChain(D, x, p)
    ensures |Text(D, p)| == DLEN * (|p| - 1) + |D[p[|p| - 1]].bytes|
    decreases |p|
  {
    if |p| == 1 {
      assert Text(D, p) == Piece(D[p[0]]) + Text(D, p[1..]);
    } else {
      WalkTail(D, x, p, 1);
      TextLength(D, p[1], p[1..]);
      assert WellFormedItem(D[p[0]], |D|);
    }
  }

  ghost function Dirs(D: Medium): set<nat> {
    set b: nat | b < |D| && D[b].Dir?
  }

  /** Every directory block heads a complete chain, and no two chains meet. */
  ghost predicate Linked(D: Medium, paths: map<nat, seq<nat>>) {
    && WellFormed(D) && paths.Keys == Dirs(D)
    && (forall b :: b in paths ==> IsChain(D, D[b].head, paths[b]))
    && Apart(paths)
  }

  ghost predicate Disjoint(p: seq<nat>, q: seq<nat>) {
    forall x :: x in p ==> x !in q
  }

  ghost predicate Apart(paths: map<nat, seq<nat>>) {
    forall b, c :: b in paths && c in paths && b != c ==> Disjoint(paths[b], paths[c])
  }

  datatype File = File(name: seq<byte>, pin: nat, text: seq<byte>)

  /** The files of a medium, by the block of their directory entry. */
  ghost function Files(D: Medium, paths: map<nat, seq<nat>>): map<nat, File>
    requires Linked(D, paths)
  {
    map b | b in paths :: File(D[b].name, D[b].pin, Text(D, paths[b]))
  }

  /** The paths are a matter of the medium alone. */
  lemma PathsUnique(D: Medium, paths: map<nat, seq<nat>>, paths': map<nat, seq<nat>>)
    requires Linked(D, paths) && Linked(D, paths')
    ensures paths == paths'
  {
    forall b | b in paths
      ensures paths[b] == paths'[b]
    {
      ChainUnique(D, D[b].head, paths[b], paths'[b]);
    }
  }

  /** The two media agree on the blocks of p. */
  ghost predicate Same(D: Medium, D': Medium, p: seq<nat>) {
    |D| == |D'| && forall y :: y in p && y < |D| ==> D'[y] == D[y]
  }

  lemma SameUpdate(D: Medium, b: nat, d: Item, p: seq<nat>)
    requires b < |D| && b !in p
    ensures Same(D, D[b := d], p)
  {
  }

  /** A file is untouched as long as its directory block and its chain are. */
  lemma Kept(D: Medium, D': Medium, paths: map<nat, seq<nat>>, c: nat)
    requires Linked(D, paths) && c in paths && Same(D, D', paths[c]) && c < |D| && D'[c] == D[c]
    ensures IsChain(D', D'[c].head, paths[c]) && InRange(|D|, paths[c]) && Text(D', paths[c]) == Text(D, paths[c])
  {
    ChainWithin(D, D[c].head, paths[c]);
    ChainFrame(D, D', D[c].head, paths[c]);
  }

  ghost predicate InRange(n: nat, p: seq<nat>) {
    forall i {:trigger p[i]} :: 0 <= i < |p| ==> p[i] < n
  }

  /** Neither a directory block nor on a chain. */
  ghost predicate Spare(D: Medium, paths: map<nat, seq<nat>>, b: nat) {
    b < |D| && b !in paths && forall c :: c in paths ==> b !in paths[c]
  }

  ghost predicate Covers(used: set<nat>, paths: map<nat, seq<nat>>) {
    forall b :: b in paths ==> b in used && forall x :: x in paths[b] ==> x in used
  }

  lemma ChainFrame(D: Medium, D': Medium, x: nat, p: seq<nat>)
    requires IsChain(D, x, p) && |D'| == |D| && forall y :: y in p ==> y < |D| && D'[y] == D[y]
    ensures IsChain(D', x, p) && Text(D', p) == Text(D, p)
  {
    assert forall i {:trigger p[i]} :: 0 <= i < |p| ==> p[i] in p;
    TextFrame(D, D', p);
  }

  /** Writing anything but a directory block to a spare place changes no file. */
  lemma SpareWrite(D: Medium, paths: map<nat, seq<nat>>, b: nat, d: Item)
    requires Linked(D, paths) && Spare(D, paths, b) && !d.Dir? && WellFormedItem(d, |D|)
    ensures Linked(D[b := d], paths) && Files(D[b := d], paths) == Files(D, paths)
  {
    var D' := D[b := d];
    hide Walk, IsChain, Text, InRange;
    assert Dirs(D') == Dirs(D);
    forall c | c in paths
      ensures IsChain(D', D'[c].head, paths[c]) && InRange(|D|, paths[c]) && Text(D', paths[c]) == Text(D, paths[c])
        && D'[c] == D[c]
    {
      SameUpdate(D, b, d, paths[c]);
      Kept(D, D', paths, c);
    }
  }

  lemma ChainWithin(D: Medium, x: nat, p: seq<nat>)
    requires Walk(D, x, p)
    ensures forall y :: y in p ==> y < |D|
  {
  }

  /** One block in front of a chain. */
  lemma ChainGrows(D: Medium, b: nat, bytes: seq<byte>, q: seq<nat>)
    requires |q| > 0 && IsChain(D, q[0], q) && b < |D| && b !in q
    ensures var D' := D[b := Data(q[0], bytes)];
      IsChain(D', b, [b] + q) && Text(D', [b] + q) == bytes + Text(D, q)
  {
    var D' := D[b := Data(q[0], bytes)];
    ChainWithin(D, q[0], q);
    ChainFrame(D, D', q[0], q);
    assert ([b] + q)[1..] == q;
  }

  lemma ChainStarts(D: Medium, b: nat, bytes: seq<byte>)
    requires b < |D|
    ensures IsChain(D[b := End(bytes)], b, [b]) && Text(D[b := End(bytes)], [b]) == bytes
  {
    var D' := D[b := End(bytes)];
    assert [b][1..] == [];
    assert Text(D', [b]) == Piece(D'[b]) + Text(D', []);
  }

  /** The blocks of q are off every chain and no directory blocks. */
  ghost predicate AllSpare(D: Medium, paths: map<nat, seq<nat>>, q: seq<nat>) {
    forall x :: x in q ==> Spare(D, paths, x)
  }

  /** A block that only its own path may use, rewritten. */
  lemma OthersSame(D: Medium, paths: map<nat, seq<nat>>, b: nat, d: Item)
    requires b < |D| && forall c :: c in paths && c != b ==> b !in paths[c]
    ensures forall c :: c in paths && c != b ==> Same(D, D[b := d], paths[c])
  {
    forall c | c in paths && c != b
      ensures Same(D, D[b := d], paths[c])
    {
      SameUpdate(D, b, d, paths[c]);
    }
  }

  /** The commit of the first data of a file: its directory block comes to point at the new chain. */
  lemma CommitHead(D: Medium, paths: map<nat, seq<nat>>, b: nat, name: seq<byte>, pin: nat, q: seq<nat>)
    requires Linked(D, paths) && |q| > 0 && IsChain(D, q[0], q) && AllSpare(D, paths, q)
    requires b < |D| && b !in q && forall c :: c in paths && c != b ==> b !in paths[c]
    requires |name| <= NLEN && 0 !in name && pin <= 0xffff
    ensures var D', paths' := D[b := Dir(q[0], name, pin)], paths[b := q];
      Linked(D', paths') && Files(D', paths') == Files(D, paths)[b := File(name, pin, Text(D, q))]
  {
    var D', paths' := D[b := Dir(q[0], name, pin)], paths[b := q];
    ChainWithin(D, q[0], q);
    ChainFrame(D, D', q[0], q);
    assert q[0] in q;
    OthersSame(D, paths, b, D'[b]);
    SpareDisjoint(D, paths, q);
    hide Walk, IsChain, Text, InRange, Same, Disjoint, Spare, AllSpare, Apart;
    assert Dirs(D') == Dirs(D) + {b};
    NewFileMap(D, D', paths, b, q);
  }

  lemma SpareDisjoint(D: Medium, paths: map<nat, seq<nat>>, q: seq<nat>)
    requires AllSpare(D, paths, q)
    ensures forall c :: c in paths ==> Disjoint(q, paths[c]) && Disjoint(paths[c], q)
  {
  }

  /** A medium that differs in file b alone, which now has the chain q. */
  lemma NewFileMap(D: Medium, D': Medium, paths: map<nat, seq<nat>>, b: nat, q: seq<nat>)
    requires Linked(D, paths) && |D'| == |D| && WellFormed(D') && Dirs(D') == Dirs(D) + {b}
    requires b < |D| && D'[b].Dir? && IsChain(D', D'[b].head, q) && InRange(|D|, q)
    requires forall c :: c in paths && c != b ==> D'[c] == D[c] && Same(D, D', paths[c])
    requires forall c :: c in paths && c != b ==> Disjoint(q, paths[c]) && Disjoint(paths[c], q)
    ensures Linked(D', paths[b := q])
    ensures Files(D', paths[b := q]) == Files(D, paths)[b := File(D'[b].name, D'[b].pin, Text(D', q))]
  {
    hide Walk, IsChain, Text, InRange, Disjoint, Apart, WellFormed, WellFormedItem, Same;
    OthersKept(D, D', paths, b, q);
  }

  /** Giving file b the chain q, off all other chains, keeps the other files. */
  lemma OthersKept(D: Medium, D': Medium, paths: map<nat, seq<nat>>, b: nat, q: seq<nat>)
    requires Linked(D, paths) && |D'| == |D|
    requires forall c :: c in paths && c != b ==> D'[c] == D[c] && Same(D, D', paths[c])
    requires forall c :: c in paths && c != b ==> Disjoint(q, paths[c]) && Disjoint(paths[c], q)
    ensures var paths' := paths[b := q];
      && (forall c :: c in paths && c != b ==>
        IsChain(D', D'[c].head, paths'[c]) && InRange(|D|, paths[c]) && Text(D', paths'[c]) == Text(D, paths[c]))
      && Apart(paths')
  {
    hide Walk, IsChain, Text, InRange, Disjoint, Same;
    forall c | c in paths && c != b
      ensures IsChain(D', D'[c].head, paths[c]) && InRange(|D|, paths[c]) && Text(D', paths[c]) == Text(D, paths[c])
    {
      Kept(D, D', paths, c);
    }
  }

  /** The last block of a chain and the ones before it. */
  lemma ChainSplit(D: Medium, x: nat, p: seq<nat>)
    requires IsChain(D, x, p)
    ensures var i := |p| - 1;
      p == p[..i] + [p[i]] && p[i] !in p[..i] && InRange(|D|, p) && InRange(|D|, p[..i]) && i >= 0 && p[i] in p
      && Text(D, p) == Text(D, p[..i]) + D[p[i]].bytes
  {
    var i := |p| - 1;
    assert p == p[..i] + [p[i]];
    TextConcat(D, p[..i], [p[i]]);
    assert [p[i]][1..] == [];
    assert Text(D, [p[i]]) == Piece(D[p[i]]) + Text(D, []);
    forall k | 0 <= k < i
      ensures p[..i][k] != p[i]
    {
      NoRepeat(D, x, p, k, i);
    }
  }

  /** Rewriting the end of a chain, with or without more blocks behind it. */
  lemma TailRewritten(D: Medium, x: nat, p: seq<nat>, d: Item, q: seq<nat>)
    requires IsChain(D, x, p) && (d.End? || d.Data?)
    requires forall y :: y in q ==> y < |D| && y !in p
    requires if d.End? then q == [] else |q| > 0 && d.next == q[0] && IsChain(D, q[0], q)
    ensures var D' := D[p[|p| - 1] := d];
      InRange(|D|, p[..|p| - 1]) && InRange(|D|, q)
      && IsChain(D', x, p + q) && Text(D', p + q) == Text(D, p[..|p| - 1]) + d.bytes + Text(D, q)
  {
    TailLinked(D, x, p, d, q);
    TailText(D, x, p, d, q);
  }

  lemma TailLinked(D: Medium, x: nat, p: seq<nat>, d: Item, q: seq<nat>)
    requires IsChain(D, x, p) && (d.End? || d.Data?)
    requires forall y :: y in q ==> y < |D| && y !in p
    requires if d.End? then q == [] else |q| > 0 && d.next == q[0] && IsChain(D, q[0], q)
    ensures IsChain(D[p[|p| - 1] := d], x, p + q)
  {
    var i := |p| - 1;
    var D' := D[p[i] := d];
    forall k | 0 <= k < i
      ensures p[k] != p[i]
    {
      NoRepeat(D, x, p, k, i);
    }
    assert Walk(D', x, p);
    if q != [] {
      assert p[i] in p;
      ChainFrame(D, D', q[0], q);
      WalkConcat(D', x, p, q);
    } else {
      assert p + q == p;
    }
  }

  lemma WalkConcat(D: Medium, x: nat, w: seq<nat>, q: seq<nat>)
    requires Walk(D, x, w) && |q| > 0 && IsChain(D, q[0], q)
    requires D[w[|w| - 1]].Data? && D[w[|w| - 1]].next == q[0]
    ensures IsChain(D, x, w + q)
  {
  }

  lemma TailText(D: Medium, x: nat, p: seq<nat>, d: Item, q: seq<nat>)
    requires IsChain(D, x, p) && (d.End? || d.Data?) && InRange(|D|, q)
    requires forall y :: y in q ==> y !in p
    ensures var D' := D[p[|p| - 1] := d];
      InRange(|D|, p[..|p| - 1]) && InRange(|D'|, p + q)
      && Text(D', p + q) == Text(D, p[..|p| - 1]) + d.bytes + Text(D, q)
  {
    hide Walk, IsChain, Text;
    ChainSplit(D, x, p);
    var i := |p| - 1;
    var D' := D[p[i] := d];
    OffPiece(D, p[..i], p[i], d);
    OffPiece(D, q, p[i], d);
    ThreeParts(D', p[..i], p[i], q);
    assert p + q == (p[..i] + [p[i]]) + q;
  }

  lemma ThreeParts(D: Medium, p: seq<nat>, e: nat, q: seq<nat>)
    requires InRange(|D|, p) && e < |D| && InRange(|D|, q)
    ensures InRange(|D|, (p + [e]) + q) && Text(D, (p + [e]) + q) == Text(D, p) + Piece(D[e]) + Text(D, q)
  {
    hide Text;
    TextConcat(D, p, [e]);
    TextConcat(D, p + [e], q);
    OnePiece(D, e);
  }

  lemma OnePiece(D: Medium, b: nat)
    requires b < |D|
    ensures Text(D, [b]) == Piece(D[b])
  {
    assert [b][1..] == [];
    assert Text(D, [b]) == Piece(D[b]) + Text(D, []);
  }

  lemma OffPiece(D: Medium, p: seq<nat>, b: nat, d: Item)
    requires InRange(|D|, p) && b < |D| && b !in p
    ensures Text(D[b := d], p) == Text(D, p)
  {
    TextFrame(D, D[b := d], p);
  }

  /** The commit of an append: the end block of the file is rewritten. */
  lemma CommitTail(D: Medium, paths: map<nat, seq<nat>>, b: nat, d: Item, q: seq<nat>)
    requires Linked(D, paths) && b in paths && (d.End? || d.Data?) && WellFormedItem(d, |D|)
    requires AllSpare(D, paths, q)
    requires if d.End? then q == [] else |q| > 0 && d.next == q[0] && IsChain(D, q[0], q)
    ensures |paths[b]| > 0 && paths[b][|paths[b]| - 1] < |D| && InRange(|D|, paths[b][..|paths[b]| - 1])
      && InRange(|D|, q)
    ensures var p := paths[b];
      var D', paths' := D[p[|p| - 1] := d], paths[b := p + q];
      Linked(D', paths')
      && Files(D', paths') ==
        Files(D, paths)[b := File(D[b].name, D[b].pin, Text(D, p[..|p| - 1]) + d.bytes + Text(D, q))]
  {
    hide Walk, IsChain, Text, InRange, Same, Disjoint, Spare, AllSpare, Apart, WellFormed, WellFormedItem;
    EndBlock(D, paths, b, q);
    var p := paths[b];
    TailRewritten(D, D[b].head, p, d, q);
    TailDisjoint(D, paths, b, q);
    TailSame(D, paths, b, d);
    InRangeConcat(|D|, p, q);
    NewFileMap(D, D[p[|p| - 1] := d], paths, b, p + q);
  }

  lemma InRangeConcat(n: nat, p: seq<nat>, q: seq<nat>)
    requires InRange(n, p) && InRange(n, q)
    ensures InRange(n, p + q)
  {
  }

  lemma TailSame(D: Medium, paths: map<nat, seq<nat>>, b: nat, d: Item)
    requires Linked(D, paths) && b in paths && (d.End? || d.Data?) && WellFormedItem(d, |D|)
    requires |paths[b]| > 0 && paths[b][|paths[b]| - 1] < |D|
    ensures var D' := D[paths[b][|paths[b]| - 1] := d];
      && WellFormed(D') && Dirs(D') == Dirs(D) + {b} && b < |D| && D'[b] == D[b]
      && forall c :: c in paths && c != b ==> D'[c] == D[c] && Same(D, D', paths[c])
  {
    hide Walk, IsChain, Text, InRange;
    var p := paths[b];
    var e := p[|p| - 1];
    assert e in p;
    NotADir(D, paths, b, e);
    forall c | c in paths && c != b
      ensures Same(D, D[e := d], paths[c])
    {
      assert Disjoint(p, paths[c]);
      SameUpdate(D, e, d, paths[c]);
    }
  }

  lemma TailDisjoint(D: Medium, paths: map<nat, seq<nat>>, b: nat, q: seq<nat>)
    requires AllSpare(D, paths, q) && Apart(paths) && b in paths
    ensures forall c :: c in paths && c != b ==> Disjoint(paths[b] + q, paths[c]) && Disjoint(paths[c], paths[b] + q)
  {
    forall c | c in paths && c != b
      ensures Disjoint(paths[b] + q, paths[c]) && Disjoint(paths[c], paths[b] + q)
    {
      assert Disjoint(paths[b], paths[c]) && Disjoint(paths[c], paths[b]);
    }
  }

  lemma EndBlock(D: Medium, paths: map<nat, seq<nat>>, b: nat, q: seq<nat>)
    requires Linked(D, paths) && b in paths && AllSpare(D, paths, q)
    ensures |paths[b]| > 0
    ensures var e := paths[b][|paths[b]| - 1]; e in paths[b] && e < |D| && !D[e].Dir? && e !in paths
    ensures InRange(|D|, paths[b]) && InRange(|D|, paths[b][..|paths[b]| - 1]) && InRange(|D|, q)
    ensures forall y :: y in q ==> y < |D| && y !in paths[b]
  {
    hide Text;
    var p := paths[b];
    NotADir(D, paths, b, p[|p| - 1]);
    assert forall i {:trigger q[i]} :: 0 <= i < |q| ==> q[i] in q;
  }

  lemma NotADir(D: Medium, paths: map<nat, seq<nat>>, b: nat, e: nat)
    requires Linked(D, paths) && b in paths && e in paths[b]
    ensures e < |D| && !D[e].Dir? && e !in paths
  {
    ChainWithin(D, D[b].head, paths[b]);
    if D[e].Dir? {
      NotOnChain(D, D[b].head, paths[b], e);
    }
  }

  /** Scrubbing a directory block removes its file and no other. */
  lemma RemoveFile(D: Medium, paths: map<nat, seq<nat>>, b: nat)
    requires Linked(D, paths) && b in paths
    ensures Linked(D[b := Junk], paths - {b}) && Files(D[b := Junk], paths - {b}) == Files(D, paths) - {b}
  {
    var D', paths' := D[b := Junk], paths - {b};
    hide Walk, IsChain, Text, InRange, Disjoint, Same;
    forall c | c in paths'
      ensures Same(D, D', paths[c])
    {
      NotOnChain(D, D[c].head, paths[c], b);
      SameUpdate(D, b, Junk, paths[c]);
    }
    assert Dirs(D') == Dirs(D) - {b};
    assert WellFormed(D');
    assert Apart(paths');
    hide WellFormed, WellFormedItem, Apart, Dirs;
    RestKept(D, D', paths, b);
  }

  lemma RestKept(D: Medium, D': Medium, paths: map<nat, seq<nat>>, b: nat)
    requires Linked(D, paths) && b in paths && |D'| == |D| && WellFormed(D') && Dirs(D') == Dirs(D) - {b}
      && Apart(paths - {b})
    requires forall c :: c in paths && c != b ==> D'[c] == D[c] && Same(D, D', paths[c])
    ensures Linked(D', paths - {b}) && Files(D', paths - {b}) == Files(D, paths) - {b}
  {
    hide Walk, IsChain, Text, InRange, Disjoint, Same, WellFormed, WellFormedItem, Apart;
    forall c | c in paths && c != b
      ensures IsChain(D', D'[c].head, paths[c]) && InRange(|D|, paths[c]) && Text(D', paths[c]) == Text(D, paths[c])
    {
      Kept(D, D', paths, c);
    }
  }

  /** Directory blocks are on no chain. */
  lemma NotOnChain(D: Medium, x: nat, p: seq<nat>, b: nat)
    requires IsChain(D, x, p) && b < |D| && !D[b].Data? && !D[b].End?
    ensures b !in p
  {
    forall i | 0 <= i < |p|
      ensures p[i] != b
    {
      if i < |p| - 1 {
        assert D[p[i]].Data?;
      }
    }
  }

  lemma {:induction false} FullPrefix(D: Medium, x: nat, p: seq<nat>, k: nat)
    requires WellFormed(D) && Walk(D, x, p) && k < |p|
    ensures InRange(|D|, p[..k]) && |Text(D, p[..k])| == DLEN * k
  {
    if k > 0 {
      FullPrefix(D, x, p, k - 1);
      assert p[..k] == p[..k - 1] + [p[k - 1]];
      TextConcat(D, p[..k - 1], [p[k - 1]]);
      OnePiece(D, p[k - 1]);
      assert WellFormedItem(D[p[k - 1]], |D|);
    }
  }

  /** Where the bytes of block k of a file are in its text. */
  lemma PieceAt(D: Medium, x: nat, p: seq<nat>, k: nat)
    requires WellFormed(D) && IsChain(D, x, p) && k < |p|
    ensures InRange(|D|, p)
    ensures var c := Piece(D[p[k]]); DLEN * k + |c| <= |Text(D, p)| && Text(D, p)[DLEN * k..DLEN * k + |c|] == c
    ensures k < |p| - 1 ==> D[p[k]].Data? && |D[p[k]].bytes| == DLEN && D[p[k]].next == p[k + 1]
    ensures k == |p| - 1 ==> D[p[k]].End? && DLEN * k + |D[p[k]].bytes| == |Text(D, p)|
  {
    hide Text, Piece;
    FullPrefix(D, x, p, k);
    TextLength(D, x, p);
    assert WellFormedItem(D[p[k]], |D|);
    SplitAt(p, k, |D|);
    Spliced(D, p[..k], p[k], p[k + 1..]);
    Middle(Text(D, p[..k]), Piece(D[p[k]]), Text(D, p[k + 1..]));
  }

  lemma SplitAt(p: seq<nat>, k: nat, n: nat)
    requires k < |p| && forall i {:trigger p[i]} :: 0 <= i < |p| ==> p[i] < n
    ensures p == p[..k] + ([p[k]] + p[k + 1..]) && InRange(n, p) && InRange(n, p[..k]) && InRange(n, p[k + 1..])
  {
  }

  lemma Middle(a: seq<byte>, b: seq<byte>, c: seq<byte>)
    ensures (a + (b + c))[|a|..|a| + |b|] == b
  {
  }

  lemma Spliced(D: Medium, a: seq<nat>, b: nat, c: seq<nat>)
    requires InRange(|D|, a) && b < |D| && InRange(|D|, c)
    ensures InRange(|D|, a + ([b] + c)) && Text(D, a + ([b] + c)) == Text(D, a) + (Piece(D[b]) + Text(D, c))
  {
    hide Text;
    TextConcat(D, [b], c);
    TextConcat(D, a, [b] + c);
    OnePiece(D, b);
  }
}
