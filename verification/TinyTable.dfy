/**
  The file table of the tiny file system, the walks that mark and free blocks, and what they mean
  for the medium and the table.
 */
module TinyTable {
  import opened Bytes
  import opened TinyBlocks
  import opened TinyMap
  import opened TinyChain
  import opened TinyScan

  /** An entry of the file table; the name of a free entry is empty. */
  datatype Tfile = Tfile(r: int, name: seq<byte>, bno: nat, dbno: nat, pin: nat, creating: bool, rmonclose: bool,
      length: nat)

  const BLANK := Tfile(0, [], 0, 0, 0, false, false, 0)

  /** The medium as the readers of blocks see it. */
  ghost function DecodeAll(m: seq<Block>): (D: Medium)
    ensures |D| == |m| && WellFormed(D)
  {
    seq(|m|, i requires 0 <= i < |m| => Decode(m[i], |m|))
  }

  lemma DecodeUpdate(m: seq<Block>, b: nat, p: Block)
    requires b < |m|
    ensures DecodeAll(m[b := p]) == DecodeAll(m)[b := Decode(p, |m|)]
  {
  }

  /** The blocks freeblocks visits: from bno by the links up to bend, or to an end block. */
  ghost predicate FreeList(D: Medium, bno: nat, bend: nat, w: seq<nat>) {
    if |w| == 0 then bno == bend || bno == NOTABNO
    else
      && Walk(D, bno, w) && bend !in w
      && var e := w[|w| - 1]; D[e].End? || (D[e].Data? && D[e].next == bend)
  }

  /** The bitmap has a bit for each block, and the bits past the last block are set. */
  ghost predicate MapFor(n: nat, m: seq<bv8>) {
    3 <= n <= NOTABNO && |m| == (n + 7) / 8 && forall y: nat :: n <= y < 8 * |m| ==> y in Used(m)
  }

  /** i blocks of the list are freed and bno comes next. */
  ghost predicate FreeAt(D: Medium, bno: nat, bend: nat, w: seq<nat>, i: nat)
    requires |w| > 0
  {
    && FreeList(D, w[0], bend, w) && i <= |w|
    && if i < |w| then bno == w[i] else bno == bend || bno == NOTABNO
  }

  lemma FreeNext(D: Medium, bno: nat, bend: nat, w: seq<nat>, i: nat)
    requires |w| > 0 && FreeAt(D, bno, bend, w, i) && i < |w|
    ensures bno < |D| && bno != bend && w[..i + 1] == w[..i] + [bno]
    ensures if D[bno].Data? then FreeAt(D, D[bno].next, bend, w, i + 1) else i + 1 == |w|
  {
    assert w[i] in w;
  }

  /** freeblocks */
  method FreeBlocks(medium: array<Block>, bits: array<bv8>, bno0: nat, bend: nat, ghost w: seq<nat>)
    requires MapFor(medium.Length, bits[..]) && FreeList(DecodeAll(medium[..]), bno0, bend, w)
    modifies bits
    ensures Used(bits[..]) == old(Used(bits[..])) - (set y | y in w)
  {
    ghost var D, u := DecodeAll(medium[..]), Used(bits[..]);
    ghost var i := 0;
    var bno := bno0;
    hide Used, Decode, DecodeAll, Walk;
    while bno != bend && bno != NOTABNO
      invariant 0 <= i <= |w| && (|w| > 0 ==> FreeAt(D, bno, bend, w, i))
        && (|w| == 0 ==> bno == bend || bno == NOTABNO)
      invariant Used(bits[..]) == u - (set y | y in w[..i])
      decreases |w| - i
    {
      FreeNext(D, bno, bend, w, i);
      MapClr(bits, bno);
      i := i + 1;
      var ok, last, next, len := ValidData(medium.Length, medium[bno]);
      DecodedAt(medium[..], bno);
      if !ok || last {
        break;
      }
      bno := next;
    }
    assert w[..|w|] == w;
  }

  lemma DecodedAt(m: seq<Block>, b: nat)
    requires b < |m|
    ensures DecodeAll(m)[b] == Decode(m[b], |m|)
  {
  }

  /** Clearing blocks of the medium leaves the bits past its end alone. */
  lemma MapForKept(n: nat, m: seq<bv8>, m': seq<bv8>, gone: set<nat>)
    requires MapFor(n, m) && |m'| == |m| && Used(m) - gone <= Used(m') && forall y :: y in gone ==> y < n
    ensures MapFor(n, m')
  {
    forall y: nat | n <= y < 8 * |m'|
      ensures y in Used(m')
    {
      assert y in Used(m) - gone;
    }
  }

  lemma FreeListRange(D: Medium, bno: nat, bend: nat, w: seq<nat>)
    requires FreeList(D, bno, bend, w)
    ensures forall y :: y in w ==> y < |D|
  {
    if |w| > 0 {
      ChainWithin(D, bno, w);
    }
  }

  /** The directory blocks below k, in order. */
  ghost function DirList(D: Medium, k: nat): (l: seq<nat>)
    requires k <= |D|
    ensures forall b: nat :: b in l <==> b < k && b < |D| && D[b].Dir?
  {
    if k == 0 then [] else if D[k - 1].Dir? then DirList(D, k - 1) + [k - 1] else DirList(D, k - 1)
  }

  lemma {:induction false} DirListDistinct(D: Medium, k: nat, i: nat, j: nat)
    requires k <= |D| && i < j < |DirList(D, k)|
    ensures DirList(D, k)[i] != DirList(D, k)[j]
  {
    if j < |DirList(D, k - 1)| {
      DirListDistinct(D, k - 1, i, j);
    } else {
      assert DirList(D, k)[i] in DirList(D, k - 1);
    }
  }

  /** The table entry of a directory block before its chain has been followed. */
  ghost function Found(D: Medium, b: nat): Tfile {
    if b < |D| && D[b].Dir? then Tfile(0, D[b].name, b, D[b].head, D[b].pin, false, false, 0) else BLANK
  }

  /** What the scan leaves in the table for directory block b: the entry of a file kept, or nothing. */
  ghost predicate Settled(D: Medium, paths: map<nat, seq<nat>>, b: nat, e: Tfile) {
    if b in paths then InRange(|D|, paths[b]) && e == Found(D, b).(length := |Text(D, paths[b])|) else e == BLANK
  }

  /** tfsinit's walk down one file: blocks w are marked for it, and bno is next. */
  ghost predicate Marking(D: Medium, x: nat, w: seq<nat>, bno: nat, before: set<nat>, now: set<nat>, length: nat) {
    && Following(D, x, w, bno) && InRange(|D|, w) && length == |Text(D, w)|
    && now == before + (set y | y in w) && forall y :: y in w ==> y !in before
  }

  lemma MarkingStarts(D: Medium, x: nat, u: set<nat>)
    requires x < |D|
    ensures Marking(D, x, [], x, u, u, 0)
  {
    FollowStarts(D, x);
  }

  lemma MarkedNext(D: Medium, w: seq<nat>, bno: nat, u: set<nat>, now: set<nat>, length: nat)
    requires InRange(|D|, w) && length == |Text(D, w)| && bno < |D| && bno !in now
    requires now == u + (set y | y in w) && forall y :: y in w ==> y !in u
    ensures InRange(|D|, w + [bno]) && length + |Piece(D[bno])| == |Text(D, w + [bno])|
    ensures now + {bno} == u + (set y | y in w + [bno]) && forall y :: y in w + [bno] ==> y !in u
  {
    hide Text;
    TextConcat(D, w, [bno]);
    OnePiece(D, bno);
  }

  lemma MarkingNext(D: Medium, x: nat, w: seq<nat>, bno: nat, u: set<nat>, now: set<nat>, length: nat)
    requires WellFormed(D) && Marking(D, x, w, bno, u, now, length) && bno !in now && D[bno].Data?
    ensures Marking(D, x, w + [bno], D[bno].next, u, now + {bno}, length + DLEN)
  {
    assert WellFormedItem(D[bno], |D|);
    hide Text, Following, InRange;
    FollowStep(D, x, w, bno);
    MarkedNext(D, w, bno, u, now, length);
  }

  /** The outcome of following one file. */
  ghost predicate Followed(D: Medium, x: nat, kept: bool, w: seq<nat>, bno: nat, before: set<nat>, now: set<nat>,
      length: nat) {
    if kept then
      && IsChain(D, x, w) && InRange(|D|, w) && length == |Text(D, w)|
      && now == before + (set y | y in w) && forall y :: y in w ==> y !in before
    else
      Marking(D, x, w, bno, before, now, length) && (bno in now || !(D[bno].Data? || D[bno].End?))
  }

  lemma MarkingEnds(D: Medium, x: nat, w: seq<nat>, bno: nat, u: set<nat>, now: set<nat>, length: nat)
    requires Marking(D, x, w, bno, u, now, length) && bno !in now && D[bno].End?
    ensures Followed(D, x, true, w + [bno], bno, u, now + {bno}, length + |D[bno].bytes|)
  {
    assert bno < |D|;
    hide Text, Following, InRange;
    FollowEnds(D, x, w, bno);
    MarkedNext(D, w, bno, u, now, length);
  }

  lemma Shrinks(n: nat, now: set<nat>, b: nat)
    requires b < n && b !in now
    ensures |Left(n, now + {b})| < |Left(n, now)|
  {
    assert Left(n, now + {b}) == Left(n, now) - {b};
  }

  /** The places not marked yet. */
  ghost function Left(n: nat, now: set<nat>): set<nat> {
    set b: nat | b < n && b !in now
  }

  /** A named entry of the table stands for a file on the medium, or for one without data yet. */
  ghost predicate EntryOk(D: Medium, paths: map<nat, seq<nat>>, used: set<nat>, e: Tfile) {
    if e.name == [] then e.length == 0
    else
      && 0 !in e.name && |e.name| <= NLEN && e.pin <= 0xffff && e.bno < |D| && e.bno in used
      && if e.dbno == NOTABNO then e.length == 0 && Spare(D, paths, e.bno)
         else
           && e.bno in paths && D[e.bno].Dir? && D[e.bno].head == e.dbno && D[e.bno].pin == e.pin
           && Cut(D[e.bno].name) == Cut(e.name) && InRange(|D|, paths[e.bno]) && e.length == |Text(D, paths[e.bno])|
  }

  /** A file with the empty name, which stands for a free entry in the table, has no bytes. */
  ghost predicate NamelessBare(files: map<nat, File>) {
    forall b :: b in files && files[b].name == [] ==> files[b].text == []
  }

  ghost predicate TableOk(D: Medium, paths: map<nat, seq<nat>>, used: set<nat>, f: seq<Tfile>) {
    && (forall i :: 0 <= i < |f| ==> EntryOk(D, paths, used, f[i]))
    && forall i, j :: 0 <= i < j < |f| && f[i].name != [] && f[j].name != [] ==> f[i].bno != f[j].bno
  }

  /** What tfsinit finds on a medium: its table, its paths and what became of the medium. */
  ghost predicate Recovered(D0: Medium, D: Medium, paths: map<nat, seq<nat>>, f: seq<Tfile>) {
    && Purged(D0, D) && Linked(D, paths)
    && (forall b :: b in Dirs(D0) && Exclusive(D0, b) ==> b in paths)
    && |f| == |DirList(D0, |D0|)| && forall i :: 0 <= i < |f| ==> Settled(D0, paths, DirList(D0, |D0|)[i], f[i])
  }

  /** The scan leaves every entry without references and without flags. */
  lemma Unflagged(D0: Medium, D: Medium, paths: map<nat, seq<nat>>, f: seq<Tfile>)
    requires Recovered(D0, D, paths, f)
    ensures forall i :: 0 <= i < |f| ==> f[i].r == 0 && !f[i].creating && !f[i].rmonclose
  {
    hide Linked, DirList, Text;
    forall i | 0 <= i < |f|
      ensures f[i].r == 0 && !f[i].creating && !f[i].rmonclose
    {
      assert Settled(D0, paths, DirList(D0, |D0|)[i], f[i]);
    }
  }

  /** The table is in order exactly if the files without a name have no bytes either. */
  lemma TableFromScan(D0: Medium, D: Medium, paths: map<nat, seq<nat>>, used: set<nat>, f: seq<Tfile>)
    requires Scanned(D0, D, Dirs(D0), paths, used) && |f| == |DirList(D0, |D0|)|
    requires |D0| <= NOTABNO
    requires forall i :: 0 <= i < |f| ==> Settled(D0, paths, DirList(D0, |D0|)[i], f[i])
    ensures Recovered(D0, D, paths, f) && Linked(D, paths) && Covers(used, paths)
    ensures TableOk(D, paths, used, f) <==> NamelessBare(Files(D, paths))
  {
    ScanEnds(D0, D, paths, used);
    ScanEntries(D0, D, paths, used, f);
    assert paths.Keys <= Dirs(D0);
    hide EntryOk, Settled, Scanned, Linked, Files, FoundAs;
    forall i, j | 0 <= i < j < |f| && f[i].name != [] && f[j].name != []
      ensures f[i].bno != f[j].bno
    {
      DirListDistinct(D0, |D0|, i, j);
    }
    BareEntries(D0, D, paths, f);
  }

  lemma ScanEntries(D0: Medium, D: Medium, paths: map<nat, seq<nat>>, used: set<nat>, f: seq<Tfile>)
    requires Scanned(D0, D, Dirs(D0), paths, used) && |f| == |DirList(D0, |D0|)| && |D0| <= NOTABNO
    requires forall i :: 0 <= i < |f| ==> Settled(D0, paths, DirList(D0, |D0|)[i], f[i])
    ensures Linked(D, paths)
    ensures forall i {:trigger f[i]} :: 0 <= i < |f| ==>
      (EntryOk(D, paths, used, f[i]) <==> (f[i].name == [] ==> f[i].length == 0))
      && (f[i].name != [] ==> f[i].bno == DirList(D0, |D0|)[i]) && FoundAs(D, paths, DirList(D0, |D0|)[i], f[i])
  {
    var l := DirList(D0, |D0|);
    ScanEnds(D0, D, paths, used);
    assert Purged(D0, D);
    hide EntryOk, Settled, Linked, FoundAs;
    forall i {:trigger f[i]} | 0 <= i < |f|
      ensures EntryOk(D, paths, used, f[i]) <==> (f[i].name == [] ==> f[i].length == 0)
      ensures (f[i].name != [] ==> f[i].bno == l[i]) && FoundAs(D, paths, l[i], f[i])
    {
      assert l[i] in l;
      FoundOk(D0, D, paths, used, l[i], f[i]);
    }
  }

  /** What the table says of directory block b, if its file was kept. */
  ghost predicate FoundAs(D: Medium, paths: map<nat, seq<nat>>, b: nat, e: Tfile)
    requires Linked(D, paths)
  {
    if b in paths then e.name == Files(D, paths)[b].name && e.length == |Files(D, paths)[b].text| else e == BLANK
  }

  lemma BareEntries(D0: Medium, D: Medium, paths: map<nat, seq<nat>>, f: seq<Tfile>)
    requires Linked(D, paths) && paths.Keys <= Dirs(D0) && |f| == |DirList(D0, |D0|)|
    requires forall i {:trigger f[i]} :: 0 <= i < |f| ==> FoundAs(D, paths, DirList(D0, |D0|)[i], f[i])
    ensures NamelessBare(Files(D, paths))
       <==> forall i {:trigger f[i]} :: 0 <= i < |f| && f[i].name == [] ==> f[i].length == 0
  {
    var l, files := DirList(D0, |D0|), Files(D, paths);
    assert files.Keys == paths.Keys;
    hide Linked, Files;
    if forall i {:trigger f[i]} :: 0 <= i < |f| && f[i].name == [] ==> f[i].length == 0 {
      forall b | b in files && files[b].name == []
        ensures files[b].text == []
      {
        assert b in files.Keys && b in Dirs(D0) && b in l;
        var i :| 0 <= i < |l| && l[i] == b;
        assert FoundAs(D, paths, l[i], f[i]);
      }
    }
    if NamelessBare(files) {
      forall i {:trigger f[i]} | 0 <= i < |f| && f[i].name == []
        ensures f[i].length == 0
      {
        assert FoundAs(D, paths, l[i], f[i]);
      }
    }
  }

  lemma FoundOk(D0: Medium, D: Medium, paths: map<nat, seq<nat>>, used: set<nat>, b: nat, e: Tfile)
    requires |D| == |D0| <= NOTABNO && WellFormed(D0) && Linked(D, paths) && Covers(used, paths) && b in Dirs(D0)
    requires Purged(D0, D) && Settled(D0, paths, b, e)
    ensures EntryOk(D, paths, used, e) <==> (e.name == [] ==> e.length == 0)
    ensures (e.name != [] ==> e.bno == b) && FoundAs(D, paths, b, e)
  {
    if b in paths {
      assert WellFormedItem(D0[b], |D0|);
      PurgedWalk(D0, D, D[b].head, paths[b]);
    }
  }

  /** The first j directory blocks. */
  ghost function Firsts(D: Medium, j: nat): set<nat>
    requires j <= |DirList(D, |D|)|
  {
    set b | b in DirList(D, |D|)[..j]
  }

  lemma FirstsStep(D: Medium, j: nat)
    requires j < |DirList(D, |D|)|
    ensures var b := DirList(D, |D|)[j]; b in Dirs(D) && b !in Firsts(D, j) && Firsts(D, j + 1) == Firsts(D, j) + {b}
  {
    var l := DirList(D, |D|);
    assert l[..j + 1] == l[..j] + [l[j]];
    assert l[j] in l;
    forall i | 0 <= i < j
      ensures l[..j][i] != l[j]
    {
      DirListDistinct(D, |D|, i, j);
    }
  }

  lemma FirstsAll(D: Medium)
    ensures Firsts(D, |DirList(D, |D|)|) == Dirs(D)
  {
    assert DirList(D, |D|)[..|DirList(D, |D|)|] == DirList(D, |D|);
  }

  /** D is D0 with some directory blocks scrubbed. */
  ghost predicate Purged(D0: Medium, D: Medium) {
    |D| == |D0| && forall b {:trigger D[b]} :: 0 <= b < |D| ==> D[b] == D0[b] || (D[b] == Junk && D0[b].Dir?)
  }

  /** Walks do not go through directory blocks, so scrubbing them changes none. */
  lemma PurgedWalk(D0: Medium, D: Medium, x: nat, w: seq<nat>)
    requires Purged(D0, D) && Walk(D, x, w)
    ensures Walk(D0, x, w)
    ensures IsChain(D, x, w) ==> IsChain(D0, x, w) && InRange(|D|, w) && Text(D0, w) == Text(D, w)
  {
    if IsChain(D, x, w) {
      forall i {:trigger w[i]} | 0 <= i < |w|
        ensures D[w[i]] == D0[w[i]]
      {
      }
      TextFrame(D, D0, w);
    }
  }

  lemma ScannedPurged(D0: Medium, D: Medium, done: set<nat>, paths: map<nat, seq<nat>>, used: set<nat>)
    requires Scanned(D0, D, done, paths, used)
    ensures Purged(D0, D) && (forall b :: b in Dirs(D0) && b !in done ==> D[b] == D0[b] && b !in paths && b in used)
  {
    forall b | b in Dirs(D0) && b !in done
      ensures D[b] == D0[b]
    {
    }
  }

  /** The part of the marked blocks that freeing up to bno gets back. */
  ghost function FreedPart(w: seq<nat>, bno: nat): (v: seq<nat>)
    ensures v <= w && bno !in v
    ensures |v| < |w| ==> w[|v|] == bno
    decreases |w|
  {
    if bno !in w then w else FreedPart(w[..|w| - 1], bno)
  }

  lemma DropList(D: Medium, x: nat, w: seq<nat>, bno: nat, v: seq<nat>)
    requires Following(D, x, w, bno) && v == FreedPart(w, bno)
    ensures FreeList(D, x, bno, v)
  {
    if |v| > 0 {
      var t, n := w + [bno], |v| - 1;
      assert Walk(D, x, t);
      forall i {:trigger v[i]} | 0 <= i < |v|
        ensures v[i] == t[i] && v[i] < |D|
      {
      }
      var y := t[n];
      assert D[y].Data? && D[y].next == t[n + 1];
      assert v[n] == y && t[n + 1] == bno;
    }
  }

  lemma OrderKept(D0: Medium, D: Medium, paths: map<nat, seq<nat>>, used: set<nat>)
    requires Scanned(D0, D, Dirs(D0), paths, used)
    ensures forall p :: Linked(D0, p) ==> D == D0 && paths == p
  {
    forall p | Linked(D0, p)
      ensures D == D0 && paths == p
    {
      ScanKeepsAll(D0, p, D, paths, used);
    }
  }

  lemma AllFound(D: Medium, f: seq<Tfile>, used: set<nat>)
    requires FoundBelow(D, |D|, f, used)
    ensures |f| == |DirList(D, |D|)| && (forall i :: 0 <= i < |f| ==> f[i] == Found(D, DirList(D, |D|)[i]))
    ensures Dirs(D) <= used && forall y :: y in used ==> y >= |D| || y in Dirs(D)
  {
  }

  /** The directory blocks below k have entries and are marked, and nothing else on the medium is. */
  ghost predicate FoundBelow(D: Medium, k: nat, f: seq<Tfile>, used: set<nat>)
    requires k <= |D|
  {
    && |f| == |DirList(D, k)| && (forall i :: 0 <= i < |f| ==> f[i] == Found(D, DirList(D, k)[i]))
    && (forall b :: b in Dirs(D) && b < k ==> b in used) && forall y :: y in used ==> y >= |D| || y in Dirs(D)
  }

  lemma FoundNone(D: Medium, used: set<nat>)
    requires forall y :: y in used ==> y >= |D|
    ensures FoundBelow(D, 0, [], used)
  {
  }

  lemma FoundNext(D: Medium, k: nat, f: seq<Tfile>, used: set<nat>)
    requires k < |D| && FoundBelow(D, k, f, used)
    ensures if D[k].Dir? then FoundBelow(D, k + 1, f + [Found(D, k)], used + {k}) else FoundBelow(D, k + 1, f, used)
  {
  }

  lemma NoneUsed(m: seq<bv8>)
    requires forall i :: 0 <= i < |m| ==> m[i] == 0
    ensures Used(m) == {}
  {
  }

  lemma NoneYet(D: Medium)
    ensures Firsts(D, 0) == {}
  {
  }


  lemma KeepNext(D0: Medium, D: Medium, done: set<nat>, paths: map<nat, seq<nat>>, u: set<nat>, b: nat, w: seq<nat>,
      bno: nat, now: set<nat>, length: nat)
    requires Scanned(D0, D, done, paths, u) && Purged(D0, D) && b in Dirs(D0) && b !in done
    requires Followed(D, D0[b].head, true, w, bno, u, now, length)
    ensures Scanned(D0, D, done + {b}, paths[b := w], now)
    ensures Settled(D0, paths[b := w], b, Found(D0, b).(length := length))
  {
    hide Scanned, Walk, Text, InRange;
    PurgedWalk(D0, D, D0[b].head, w);
    KeepFile(D0, D, done, paths, u, b, w, now);
  }

  lemma DropNext(D0: Medium, D: Medium, done: set<nat>, paths: map<nat, seq<nat>>, u: set<nat>, b: nat, w: seq<nat>,
      bno: nat, now: set<nat>, length: nat, v: seq<nat>)
    requires Scanned(D0, D, done, paths, u) && Purged(D0, D) && b in Dirs(D0) && b !in done
    requires Followed(D, D0[b].head, false, w, bno, u, now, length) && v == FreedPart(w, bno)
    ensures FreeList(D, D0[b].head, bno, v)
    ensures b < |D| && Scanned(D0, D[b := Junk], done + {b}, paths, now - (set y | y in v) - {b})
  {
    hide Scanned, Walk, Text, InRange, FreedPart;
    DropList(D, D0[b].head, w, bno, v);
    PurgedFollowing(D0, D, D0[b].head, w, bno);
    DropFile(D0, D, done, paths, u, b, w, bno, now - (set y | y in v) - {b});
  }

  lemma PurgedFollowing(D0: Medium, D: Medium, x: nat, w: seq<nat>, bno: nat)
    requires Purged(D0, D) && Following(D, x, w, bno)
    ensures Following(D0, x, w, bno) && (D0[bno].Data? || D0[bno].End? ==> D[bno] == D0[bno])
    ensures forall y :: y in w ==> y < |D0| && D0[y].Data?
  {
    PurgedWalk(D0, D, x, w + [bno]);
    FollowReaches(D0, x, w, bno);
  }

  lemma SettledBlank(D0: Medium, paths: map<nat, seq<nat>>, b: nat)
    requires b !in paths
    ensures Settled(D0, paths, b, BLANK)
  {
  }

  /** The entries of the other files stay as they were settled. */
  lemma SettledOthers(D0: Medium, j: nat, paths: map<nat, seq<nat>>, paths': map<nat, seq<nat>>, f: seq<Tfile>,
      f': seq<Tfile>)
    requires j < |DirList(D0, |D0|)| == |f| == |f'|
    requires forall c :: c != DirList(D0, |D0|)[j] ==>
      (c in paths' <==> c in paths) && (c in paths ==> paths'[c] == paths[c])
    requires forall i :: 0 <= i < |f| && i != j ==> f'[i] == f[i]
    requires forall i :: 0 <= i < j ==> Settled(D0, paths, DirList(D0, |D0|)[i], f[i])
    ensures forall i :: 0 <= i < j ==> Settled(D0, paths', DirList(D0, |D0|)[i], f'[i])
  {
    var l := DirList(D0, |D0|);
    forall i | 0 <= i < j
      ensures Settled(D0, paths', l[i], f'[i])
    {
      DirListDistinct(D0, |D0|, i, j);
    }
  }

  lemma MarkingInside(D: Medium, x: nat, w: seq<nat>, bno: nat, u: set<nat>, now: set<nat>, length: nat)
    requires Marking(D, x, w, bno, u, now, length)
    ensures bno < |D|
  {
  }

  lemma Stopped(D: Medium, x: nat, w: seq<nat>, bno: nat, u: set<nat>, now: set<nat>, length: nat)
    requires Marking(D, x, w, bno, u, now, length) && (bno in now || !(D[bno].Data? || D[bno].End?))
    ensures Followed(D, x, false, w, bno, u, now, length)
  {
  }

  /**
    What closing a newly created file does to another entry: one of the same name goes, at once or when it is closed.
   */
  function Superseded(name: seq<byte>, e: Tfile): Tfile {
    if e.name != name then e else if e.r != 0 then e.(rmonclose := true) else BLANK
  }

  /** The directory blocks of the first k entries that go at once, other than entry i. */
  ghost function Gone(t: seq<Tfile>, i: nat, k: nat): set<nat>
    requires i < |t| && k <= |t|
  {
    set j | 0 <= j < k && j != i && t[j].name == t[i].name && t[j].r == 0 :: t[j].bno
  }

  /** The table after the first k entries have been looked at. */
  ghost function SweptTable(t: seq<Tfile>, i: nat, k: nat): (u: seq<Tfile>)
    requires i < |t| && k <= |t|
    ensures |u| == |t| && u[i] == t[i]
    ensures forall j :: 0 <= j < |t| && j != i ==> u[j] == if j < k then Superseded(t[i].name, t[j]) else t[j]
  {
    if k == 0 then t
    else
      var u := SweptTable(t, i, k - 1);
      if i == k - 1 then u else u[k - 1 := Superseded(t[i].name, u[k - 1])]
  }

  /** And the files then. */
  ghost function SweptFiles(t: seq<Tfile>, i: nat, k: nat, s: map<nat, File>): map<nat, File>
    requires i < |t| && k <= |t|
  {
    if k == 0 then s
    else if i != k - 1 && t[k - 1].name == t[i].name && t[k - 1].r == 0 then SweptFiles(t, i, k - 1, s) - {t[k - 1].bno}
    else SweptFiles(t, i, k - 1, s)
  }

  lemma SweepStep(t: seq<Tfile>, i: nat, k: nat, s: map<nat, File>)
    requires i < |t| && k < |t|
    ensures SweptTable(t, i, 0) == t && SweptFiles(t, i, 0, s) == s
    ensures var u := SweptTable(t, i, k);
      SweptTable(t, i, k + 1) == if i == k then u else u[k := Superseded(u[i].name, u[k])]
    ensures var u := SweptTable(t, i, k);
      SweptFiles(t, i, k + 1, s) == if i != k && u[k].name == u[i].name && u[k].r == 0 then
        SweptFiles(t, i, k, s) - {u[k].bno} else SweptFiles(t, i, k, s)
  {
  }

  lemma {:induction false} SweptFilesIs(t: seq<Tfile>, i: nat, k: nat, s: map<nat, File>)
    requires i < |t| && k <= |t|
    ensures SweptFiles(t, i, k, s) == s - Gone(t, i, k)
  {
    if k == 0 {
      assert s - {} == s;
    } else {
      SweptFilesIs(t, i, k - 1, s);
      GoneStep(t, i, k - 1);
      assert (s - Gone(t, i, k - 1)) - {t[k - 1].bno} == s - (Gone(t, i, k - 1) + {t[k - 1].bno});
    }
  }

  lemma GoneStep(t: seq<Tfile>, i: nat, k: nat)
    requires i < |t| && k < |t|
    ensures Gone(t, i, k + 1) == Gone(t, i, k) + if k != i && t[k].name == t[i].name && t[k].r == 0 then {t[k].bno}
      else {}
  {
  }

  /** Dropping a reference to entry i changes none of the others. */
  lemma {:induction false} SameGone(t: seq<Tfile>, t': seq<Tfile>, i: nat, k: nat)
    requires i < |t| == |t'| && t' == t[i := t'[i]] && t'[i].name == t[i].name && k <= |t|
    ensures Gone(t', i, k) == Gone(t, i, k)
  {
    if k > 0 {
      SameGone(t, t', i, k - 1);
      GoneStep(t, i, k - 1);
      GoneStep(t', i, k - 1);
    }
  }
}
