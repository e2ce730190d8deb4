/**
  Appending to a file of the tiny file system as a row of block writes, and what the medium holds
  after each of them: the ground for saying that an append is there or not there after a crash.
 */
module TinyWrite {
  import opened Bytes
  import opened TinyBlocks
  import opened TinyMap
  import opened TinyChain
  import opened TinyScan
  import opened TinyTable

  datatype Write = Write(bno: nat, block: Block)

  ghost predicate Inside(n: nat, t: seq<Write>) {
    forall i {:trigger t[i]} :: 0 <= i < |t| ==> t[i].bno < n
  }

  /** The medium after some writes. */
  ghost function Apply(m: seq<Block>, t: seq<Write>): (r: seq<Block>)
    requires Inside(|m|, t)
    ensures |r| == |m|
    decreases |t|
  {
    if |t| == 0 then m
    else
      var w := t[|t| - 1];
      Apply(m, t[..|t| - 1])[w.bno := w.block]
  }

  /** A medium in order that holds these files. */
  ghost predicate Holds(m: seq<Block>, paths: map<nat, seq<nat>>, files: map<nat, File>) {
    Linked(DecodeAll(m), paths) && Files(DecodeAll(m), paths) == files
  }

  /** After each of the writes the medium still holds the files. */
  ghost predicate Steady(m: seq<Block>, t: seq<Write>, paths: map<nat, seq<nat>>, files: map<nat, File>) {
    Inside(|m|, t) && forall k {:trigger t[..k]} :: 0 <= k <= |t| ==> Holds(Apply(m, t[..k]), paths, files)
  }

  /**
    The writes of an append to file b: up to the last write the medium holds the files as they were,
    after it file b is the new one and no other file has changed.
   */
  ghost predicate Atomic(m: seq<Block>, t: seq<Write>, paths: map<nat, seq<nat>>, paths': map<nat, seq<nat>>,
      files: map<nat, File>, b: nat, file: File) {
    && |t| > 0 && Inside(|m|, t)
    && (forall k {:trigger t[..k]} :: 0 <= k < |t| ==> Holds(Apply(m, t[..k]), paths, files))
    && Holds(Apply(m, t), paths', files[b := file])
  }

  lemma ApplyNext(m: seq<Block>, t: seq<Write>, w: Write)
    requires Inside(|m|, t) && w.bno < |m|
    ensures Inside(|m|, t + [w]) && Apply(m, t + [w]) == Apply(m, t)[w.bno := w.block]
  {
    assert (t + [w])[..|t|] == t;
  }

  lemma SteadyStarts(m: seq<Block>, paths: map<nat, seq<nat>>, files: map<nat, File>)
    requires Holds(m, paths, files)
    ensures Steady(m, [], paths, files)
  {
    var t: seq<Write> := [];
    assert t[..0] == t;
  }

  lemma SteadyNext(m: seq<Block>, t: seq<Write>, w: Write, paths: map<nat, seq<nat>>, files: map<nat, File>)
    requires Steady(m, t, paths, files) && w.bno < |m| && Holds(Apply(m, t)[w.bno := w.block], paths, files)
    ensures Steady(m, t + [w], paths, files)
  {
    hide Holds;
    ApplyNext(m, t, w);
    forall k | 0 <= k <= |t + [w]|
      ensures Holds(Apply(m, (t + [w])[..k]), paths, files)
    {
      if k <= |t| {
        assert (t + [w])[..k] == t[..k];
      } else {
        assert (t + [w])[..k] == t + [w];
      }
    }
  }

  lemma SteadyCommits(m: seq<Block>, t: seq<Write>, w: Write, paths: map<nat, seq<nat>>, paths': map<nat, seq<nat>>,
      files: map<nat, File>, b: nat, file: File)
    requires Steady(m, t, paths, files) && w.bno < |m| && Holds(Apply(m, t)[w.bno := w.block], paths', files[b := file])
    ensures Atomic(m, t + [w], paths, paths', files, b, file)
  {
    hide Holds;
    ApplyNext(m, t, w);
    forall k | 0 <= k < |t + [w]|
      ensures Holds(Apply(m, (t + [w])[..k]), paths, files)
    {
      assert (t + [w])[..k] == t[..k];
    }
  }

  /**
    An append is crash-atomic: stop after any number of its block writes and run the recovery scan,
    and the files found are the old ones, or the old ones with the appended file in its new state.
   */
  lemma CrashAtomic(m: seq<Block>, t: seq<Write>, k: nat, paths: map<nat, seq<nat>>, paths': map<nat, seq<nat>>,
      files: map<nat, File>, b: nat, file: File, D: Medium, found: map<nat, seq<nat>>, f: seq<Tfile>)
    requires Atomic(m, t, paths, paths', files, b, file) && k <= |t|
    requires Inside(|m|, t[..k]) && Recovered(DecodeAll(Apply(m, t[..k])), D, found, f)
    ensures Linked(D, found) && D == DecodeAll(Apply(m, t[..k]))
    ensures Files(D, found) == if k < |t| then files else files[b := file]
  {
    hide Exclusive, Settled, DirList, Files;
    assert t[..|t|] == t;
    var D0 := DecodeAll(Apply(m, t[..k]));
    RecoveredAll(D0, if k < |t| then paths else paths', D, found, f);
  }

  lemma RecoveredAll(D0: Medium, paths0: map<nat, seq<nat>>, D: Medium, paths: map<nat, seq<nat>>, f: seq<Tfile>)
    requires Linked(D0, paths0) && Recovered(D0, D, paths, f)
    ensures D == D0 && paths == paths0
  {
    hide IsChain, Apart, Exclusive, Settled, WellFormed;
    forall b | b in Dirs(D0)
      ensures b in paths && b < |D| && D[b].Dir?
    {
      LinkedExclusive(D0, paths0, b);
      assert b in Dirs(D);
    }
    forall b | 0 <= b < |D|
      ensures D[b] == D0[b]
    {
      assert D0[b].Dir? ==> b in Dirs(D0);
    }
    assert D == D0;
    PathsUnique(D0, paths0, paths);
  }

  /** The new blocks of an append so far: a chain q of blocks that were free, with the bytes of `text`. */
  ghost predicate Building(m0: seq<Block>, m: seq<Block>, t: seq<Write>, paths: map<nat, seq<nat>>,
      files: map<nat, File>, q: seq<nat>, text: seq<byte>, u0: set<nat>, u: set<nat>) {
    && Steady(m0, t, paths, files) && m == Apply(m0, t)
    && (if |q| == 0 then text == [] else ChainOf(DecodeAll(m), q, text))
    && (forall x :: x in q ==> x < |m|) && Fresh(q, u0, u)
  }

  ghost predicate ChainOf(D: Medium, q: seq<nat>, text: seq<byte>)
    requires |q| > 0
  {
    IsChain(D, q[0], q) && InRange(|D|, q) && Text(D, q) == text
  }

  ghost predicate Fresh(q: seq<nat>, u0: set<nat>, u: set<nat>) {
    u == u0 + (set x | x in q) && forall x :: x in q ==> x !in u0
  }

  lemma BuildStarts(m: seq<Block>, paths: map<nat, seq<nat>>, files: map<nat, File>, u: set<nat>)
    requires Holds(m, paths, files)
    ensures Building(m, m, [], paths, files, [], [], u, u)
  {
    SteadyStarts(m, paths, files);
  }

  lemma UnmarkedIsSpare(D: Medium, paths: map<nat, seq<nat>>, u: set<nat>, b: nat)
    requires Covers(u, paths) && b < |D| && b !in u
    ensures Spare(D, paths, b)
  {
  }

  lemma FreshSpare(D: Medium, paths: map<nat, seq<nat>>, q: seq<nat>, u0: set<nat>, u: set<nat>)
    requires Fresh(q, u0, u) && Covers(u0, paths) && forall x :: x in q ==> x < |D|
    ensures AllSpare(D, paths, q)
  {
    forall x | x in q
      ensures Spare(D, paths, x)
    {
      UnmarkedIsSpare(D, paths, u0, x);
    }
  }

  /** The block written in front of the chain. */
  ghost function Front(q: seq<nat>, bytes: seq<byte>): Item {
    if |q| == 0 then End(bytes) else Data(q[0], bytes)
  }

  lemma BuildNext(m0: seq<Block>, m: seq<Block>, t: seq<Write>, paths: map<nat, seq<nat>>, files: map<nat, File>,
      q: seq<nat>, text: seq<byte>, u0: set<nat>, u: set<nat>, b: nat, p: Block, bytes: seq<byte>)
    requires Building(m0, m, t, paths, files, q, text, u0, u) && Covers(u0, paths)
    requires b < |m| && b !in u && Decode(p, |m|) == Front(q, bytes) && |bytes| <= DLEN && (|q| > 0 ==> |bytes| == DLEN)
    ensures Building(m0, m[b := p], t + [Write(b, p)], paths, files, [b] + q, bytes + text, u0, u + {b})
  {
    hide Decode, Walk, IsChain, Linked, Text, InRange, DecodeAll;
    var D := DecodeAll(m);
    DecodeUpdate(m, b, p);
    assert t[..|t|] == t;
    assert Holds(m, paths, files);
    UnmarkedIsSpare(D, paths, u0, b);
    SpareHolds(m, paths, files, b, p);
    SteadyNext(m0, t, Write(b, p), paths, files);
    ApplyNext(m0, t, Write(b, p));
    ChainFront(D, q, text, b, bytes);
  }

  lemma SpareHolds(m: seq<Block>, paths: map<nat, seq<nat>>, files: map<nat, File>, b: nat, p: Block)
    requires Holds(m, paths, files) && b < |m| && Spare(DecodeAll(m), paths, b) && !Decode(p, |m|).Dir?
    ensures Holds(m[b := p], paths, files)
  {
    hide Decode, Linked, Files;
    DecodeUpdate(m, b, p);
    assert WellFormedItem(DecodeAll(m[b := p])[b], |m|);
    SpareWrite(DecodeAll(m), paths, b, Decode(p, |m|));
  }

  lemma ChainFront(D: Medium, q: seq<nat>, text: seq<byte>, b: nat, bytes: seq<byte>)
    requires if |q| == 0 then text == [] else ChainOf(D, q, text)
    requires b < |D| && b !in q
    ensures ChainOf(D[b := Front(q, bytes)], [b] + q, bytes + text)
  {
    if |q| == 0 {
      ChainStarts(D, b, bytes);
      assert [b] + q == [b] && bytes + text == bytes;
    } else {
      ChainGrows(D, b, bytes, q);
    }
  }

  /** The commit of an append to a file that has data: its end block e is rewritten. */
  lemma CommitAppend(m0: seq<Block>, m: seq<Block>, t: seq<Write>, paths: map<nat, seq<nat>>, files: map<nat, File>,
      q: seq<nat>, text: seq<byte>, u0: set<nat>, u: set<nat>, b: nat, e: nat, p: Block, piece: seq<byte>)
    requires Building(m0, m, t, paths, files, q, text, u0, u) && Covers(u0, paths) && b in paths && b in files
    requires |paths[b]| > 0 && e == paths[b][|paths[b]| - 1] && e < |m| && DecodeAll(m)[e].End?
    requires var bytes := DecodeAll(m)[e].bytes + piece;
      |bytes| <= DLEN && (|q| > 0 ==> |bytes| == DLEN) && Decode(p, |m|) == Front(q, bytes)
    ensures Atomic(m0, t + [Write(e, p)], paths, paths[b := paths[b] + q], files, b,
      files[b].(text := files[b].text + piece + text))
    ensures m[e := p] == Apply(m0, t + [Write(e, p)])
  {
    hide Decode, Walk, IsChain, Text, InRange, DecodeAll, Linked, WellFormed, WellFormedItem, Spare, Fresh;
    var D := DecodeAll(m);
    assert t[..|t|] == t;
    assert Holds(m, paths, files);
    FreshSpare(D, paths, q, u0, u);
    DecodeUpdate(m, e, p);
    ApplyNext(m0, t, Write(e, p));
    AppendHolds(m, paths, files, q, text, b, e, p, piece);
    SteadyCommits(m0, t, Write(e, p), paths, paths[b := paths[b] + q], files, b,
      files[b].(text := files[b].text + piece + text));
  }

  lemma AppendHolds(m: seq<Block>, paths: map<nat, seq<nat>>, files: map<nat, File>, q: seq<nat>, text: seq<byte>,
      b: nat, e: nat, p: Block, piece: seq<byte>)
    requires Holds(m, paths, files) && b in paths && b in files && AllSpare(DecodeAll(m), paths, q)
    requires if |q| == 0 then text == [] else ChainOf(DecodeAll(m), q, text)
    requires |paths[b]| > 0 && e == paths[b][|paths[b]| - 1] && e < |m| && DecodeAll(m)[e].End?
    requires var bytes := DecodeAll(m)[e].bytes + piece;
      |bytes| <= DLEN && (|q| > 0 ==> |bytes| == DLEN) && Decode(p, |m|) == Front(q, bytes)
    ensures Holds(m[e := p], paths[b := paths[b] + q], files[b := files[b].(text := files[b].text + piece + text)])
  {
    var D, d := DecodeAll(m), Decode(p, |m|);
    DecodeUpdate(m, e, p);
    FrontFormed(q, DecodeAll(m)[e].bytes + piece, D);
    hide Decode, DecodeAll, WellFormed, WellFormedItem, Spare, Walk;
    CommitTail(D, paths, b, d, q);
    ChainSplit(D, D[b].head, paths[b]);
    NoText(D, q);
    Regroup(Text(D, paths[b][..|paths[b]| - 1]), D[e].bytes, piece, text);
  }

  lemma NoText(D: Medium, q: seq<nat>)
    ensures |q| == 0 ==> InRange(|D|, q) && Text(D, q) == []
  {
  }

  lemma Regroup(a: seq<byte>, b: seq<byte>, c: seq<byte>, d: seq<byte>)
    ensures a + (b + c) + d == (a + b) + c + d
  {
  }

  lemma FrontFormed(q: seq<nat>, bytes: seq<byte>, D: Medium)
    requires |bytes| <= DLEN && (|q| > 0 ==> |bytes| == DLEN) && (|q| > 0 ==> IsChain(D, q[0], q))
    ensures WellFormedItem(Front(q, bytes), |D|) && (Front(q, bytes).End? || Front(q, bytes).Data?)
    ensures Front(q, bytes).End? ==> q == []
  {
  }

  /** The commit of the first data of a file: its directory block is written. */
  lemma CommitFirst(m0: seq<Block>, m: seq<Block>, t: seq<Write>, paths: map<nat, seq<nat>>, files: map<nat, File>,
      q: seq<nat>, text: seq<byte>, u0: set<nat>, u: set<nat>, b: nat, p: Block, name: seq<byte>, pin: nat)
    requires Building(m0, m, t, paths, files, q, text, u0, u) && Covers(u0, paths) && |q| > 0
    requires b < |m| && b in u0 && (forall c :: c in paths && c != b ==> b !in paths[c])
    requires Decode(p, |m|) == Dir(q[0], name, pin) && |name| <= NLEN && 0 !in name && pin <= 0xffff
    ensures Atomic(m0, t + [Write(b, p)], paths, paths[b := q], files, b, File(name, pin, text))
    ensures m[b := p] == Apply(m0, t + [Write(b, p)])
  {
    hide Decode, Walk, IsChain, Text, InRange, DecodeAll, Linked, WellFormed, WellFormedItem, Spare, Files;
    var D := DecodeAll(m);
    assert t[..|t|] == t;
    assert Holds(m, paths, files);
    FreshSpare(D, paths, q, u0, u);
    DecodeUpdate(m, b, p);
    CommitHead(D, paths, b, name, pin, q);
    ApplyNext(m0, t, Write(b, p));
    SteadyCommits(m0, t, Write(b, p), paths, paths[b := q], files, b, File(name, pin, text));
  }

  /** An entry of another file is in order after a commit to file b. */
  lemma EntryKept(D: Medium, paths: map<nat, seq<nat>>, u: set<nat>, D': Medium, r: seq<nat>, q: seq<nat>,
      u': set<nat>, b: nat, e: Tfile)
    requires EntryOk(D, paths, u, e) && e.name != [] && e.bno != b && |D'| == |D| && u <= u'
    requires Linked(D, paths) && Linked(D', paths[b := r])
    requires forall x :: x in r ==> (b in paths && x in paths[b]) || x in q
    requires forall x :: x in q ==> x !in u
    requires forall c :: c in paths && c != b ==>
      c in Files(D', paths[b := r]) && Files(D', paths[b := r])[c] == Files(D, paths)[c]
    ensures EntryOk(D', paths[b := r], u', e)
  {
    hide Text, InRange, Disjoint, Apart;
    if e.dbno != NOTABNO {
      var c := e.bno;
      assert Files(D, paths)[c] == File(D[c].name, D[c].pin, Text(D, paths[c]));
      assert Files(D', paths[b := r])[c] == File(D'[c].name, D'[c].pin, Text(D', paths[c]));
      assert D[c].head == paths[c][0] == D'[c].head;
    }
  }

  lemma TableKept(D: Medium, paths: map<nat, seq<nat>>, u: set<nat>, D': Medium, r: seq<nat>, q: seq<nat>,
      u': set<nat>, b: nat, f: seq<Tfile>, i: nat, e: Tfile)
    requires TableOk(D, paths, u, f) && i < |f| && f[i].name != [] && f[i].bno == b && |D'| == |D| && u <= u'
    requires Linked(D, paths) && Linked(D', paths[b := r])
    requires forall x :: x in r ==> (b in paths && x in paths[b]) || x in q
    requires forall x :: x in q ==> x !in u
    requires forall c :: c in paths && c != b ==>
      c in Files(D', paths[b := r]) && Files(D', paths[b := r])[c] == Files(D, paths)[c]
    requires e.name == f[i].name && e.bno == b && EntryOk(D', paths[b := r], u', e)
    ensures TableOk(D', paths[b := r], u', f[i := e])
  {
    hide EntryOk, Linked, Files;
    forall j | 0 <= j < |f| && j != i
      ensures EntryOk(D', paths[b := r], u', f[j])
    {
      if f[j].name != [] {
        EntryKept(D, paths, u, D', r, q, u', b, f[j]);
      } else {
        NamelessOk(D, paths, u, f[j], D', paths[b := r], u');
      }
    }
  }

  lemma NamelessOk(D: Medium, paths: map<nat, seq<nat>>, u: set<nat>, e: Tfile, D': Medium, paths': map<nat, seq<nat>>,
      u': set<nat>)
    requires EntryOk(D, paths, u, e) && e.name == []
    ensures EntryOk(D', paths', u', e)
  {
  }

  lemma BlankOk(D: Medium, paths: map<nat, seq<nat>>, u: set<nat>, e: Tfile)
    requires e.name == [] && e.length == 0
    ensures EntryOk(D, paths, u, e)
  {
  }

  lemma BuildingSound(m0: seq<Block>, m: seq<Block>, t: seq<Write>, paths: map<nat, seq<nat>>, files: map<nat, File>,
      q: seq<nat>, text: seq<byte>, u0: set<nat>, u: set<nat>)
    requires Building(m0, m, t, paths, files, q, text, u0, u)
    ensures Holds(m, paths, files) && u == u0 + (set x | x in q) && forall x :: x in q ==> x < |m|
    ensures Fresh(q, u0, u) && |m| == |m0|
  {
    assert t[..|t|] == t;
  }

  lemma FrontOf(q: seq<nat>, piece: seq<byte>, p: Block, n: nat)
    requires |piece| <= DLEN && (|q| > 0 ==> |piece| == DLEN)
    requires Decode(p, n) == if |q| == 0 then End(piece) else Data(q[0], piece + Zeros(DLEN - |piece|))
    ensures Decode(p, n) == Front(q, piece)
  {
    assert |q| > 0 ==> piece + Zeros(DLEN - |piece|) == piece;
  }

  /** The places mapalloc must not hand out are taken. */
  lemma MapLimit(n: nat, m: seq<bv8>)
    requires MapFor(n, m)
    ensures forall b: nat :: NOTABNO <= b < 8 * |m| ==> b in Used(m)
    ensures forall b: nat :: b !in Used(m) && b < 8 * |m| ==> b < n
  {
  }

  /** The new blocks can be freed again, which leaves the bitmap as it was. */
  lemma BuildingList(m0: seq<Block>, m: seq<Block>, t: seq<Write>, paths: map<nat, seq<nat>>, files: map<nat, File>,
      q: seq<nat>, text: seq<byte>, u0: set<nat>, u: set<nat>, dbno: nat)
    requires Building(m0, m, t, paths, files, q, text, u0, u) && dbno == (if |q| == 0 then NOTABNO else q[0])
      && |m| <= NOTABNO
    ensures FreeList(DecodeAll(m), dbno, NOTABNO, q)
    ensures u - (set y | y in q) == u0
    ensures Steady(m0, t, paths, files) && m == Apply(m0, t)
  {
    hide DecodeAll, Text, Walk;
  }

  /** Where an entry of the table sits on the medium. */
  lemma EntryPlace(m: seq<Block>, paths: map<nat, seq<nat>>, files: map<nat, File>, u: set<nat>, f: seq<Tfile>, i: nat)
    requires TableOk(DecodeAll(m), paths, u, f) && Holds(m, paths, files) && i < |f| && f[i].name != []
    ensures var e := f[i];
      && e.bno < |m| && e.bno in u && 0 !in e.name && |e.name| <= NLEN && e.pin <= 0xffff
      && (forall c :: c in paths && c != e.bno ==> e.bno !in paths[c])
      && (e.dbno == NOTABNO ==> e.length == 0 && e.bno !in paths)
      && (e.dbno != NOTABNO ==> e.bno in paths && e.bno in files && e.length == |files[e.bno].text|
                                && files[e.bno].pin == e.pin && Cut(files[e.bno].name) == Cut(e.name))
      && (e.bno in files <==> e.bno in paths)
  {
    var e, D := f[i], DecodeAll(m);
    hide DecodeAll, Text;
    assert EntryOk(D, paths, u, e);
    if e.dbno != NOTABNO {
      forall c | c in paths && c != e.bno
        ensures e.bno !in paths[c]
      {
        NotOnChain(D, D[c].head, paths[c], e.bno);
      }
    }
  }

  lemma FileAt(D: Medium, paths: map<nat, seq<nat>>, b: nat)
    requires Linked(D, paths) && b in paths
    ensures b < |D| && D[b].Dir? && InRange(|D|, paths[b]) && |paths[b]| > 0 && paths[b][0] == D[b].head
    ensures b in Files(D, paths) && Files(D, paths)[b] == File(D[b].name, D[b].pin, Text(D, paths[b]))
  {
    hide Text, Apart;
  }

  lemma EntryWritten(D: Medium, paths: map<nat, seq<nat>>, u: set<nat>, e: Tfile, file: File)
    requires Linked(D, paths) && e.bno in paths && Files(D, paths)[e.bno] == file && e.bno in u
    requires e.name != [] && 0 !in e.name && |e.name| <= NLEN && e.pin <= 0xffff && e.pin == file.pin
      && Cut(file.name) == Cut(e.name)
    requires |paths[e.bno]| > 0 && e.dbno == paths[e.bno][0] && e.length == |file.text| && e.dbno != NOTABNO
    ensures EntryOk(D, paths, u, e)
  {
    hide Walk, IsChain, Text, Apart, InRange, WellFormed;
    FileAt(D, paths, e.bno);
  }

  /** The table after a commit, with the new length in the entry of the file. */
  lemma CommitTable(m0: seq<Block>, m: seq<Block>, t: seq<Write>, paths: map<nat, seq<nat>>, r: seq<nat>, q: seq<nat>,
      files: map<nat, File>, u0: set<nat>, u: set<nat>, f: seq<Tfile>, i: nat, e: Tfile, file: File, text: seq<byte>)
    requires TableOk(DecodeAll(m0), paths, u0, f) && i < |f| && f[i].name != [] && Covers(u0, paths) && Fresh(q, u0, u)
    requires Holds(m0, paths, files) && |m| == |m0| && Holds(m, paths[f[i].bno := r], files[f[i].bno := file])
    requires forall x :: x in r ==> (f[i].bno in paths && x in paths[f[i].bno]) || x in q
    requires e.name == f[i].name && e.bno == f[i].bno && e.pin == f[i].pin == file.pin && |r| > 0
      && e.dbno == r[0] != NOTABNO
    requires Cut(file.name) == Cut(e.name) && e.length == |file.text|
    ensures TableOk(DecodeAll(m), paths[f[i].bno := r], u, f[i := e])
    ensures Linked(DecodeAll(m), paths[f[i].bno := r]) && Covers(u, paths[f[i].bno := r])
  {
    var D, D', b := DecodeAll(m0), DecodeAll(m), f[i].bno;
    hide DecodeAll, Text, TableOk, Walk, IsChain, Apart, WellFormed, InRange, EntryOk, Covers;
    EntryPlace(m0, paths, files, u0, f, i);
    FileAt(D', paths[b := r], b);
    assert Files(D', paths[b := r])[b] == file;
    EntryWritten(D', paths[b := r], u, e, file);
    TableKept(D, paths, u0, D', r, q, u, b, f, i, e);
    CoversMore(u0, paths, u, q, b, r);
  }

  lemma CoversMore(u0: set<nat>, paths: map<nat, seq<nat>>, u: set<nat>, q: seq<nat>, b: nat, r: seq<nat>)
    requires Covers(u0, paths) && Fresh(q, u0, u) && b in u
    requires forall x :: x in r ==> (b in paths && x in paths[b]) || x in q
    ensures Covers(u, paths[b := r])
  {
  }

  lemma AtomicEnds(m: seq<Block>, t: seq<Write>, paths: map<nat, seq<nat>>, paths': map<nat, seq<nat>>,
      files: map<nat, File>, b: nat, file: File)
    requires Atomic(m, t, paths, paths', files, b, file)
    ensures Inside(|m|, t) && Holds(Apply(m, t), paths', files[b := file])
  {
  }

  /** A file with data whose last block holds none of it. */
  ghost predicate EmptyEnd(D: Medium, paths: map<nat, seq<nat>>, b: nat) {
    b in paths && |paths[b]| > 1
    && var e := paths[b][|paths[b]| - 1]; e < |D| && D[e].End? && D[e].bytes == []
  }

  lemma {:induction false} TotalZeros(s: seq<byte>)
    requires forall i :: 0 <= i < |s| ==> s[i] == 0
    ensures Total(s) == 0
  {
    if |s| > 0 {
      TotalZeros(s[1..]);
    }
  }

  /** A block of some leading bytes, zeros and a checksum byte. */
  function Sparse(head: seq<byte>, c: byte): Block
    requires |head| <= 47
  {
    head + Zeros(47 - |head|) + [c]
  }

  lemma SparseTotal(head: seq<byte>, c: byte)
    requires |head| <= 47
    ensures Total(Sparse(head, c)) == Total(head) + c
  {
    TotalConcat(head + Zeros(47 - |head|), [c]);
    TotalConcat(head, Zeros(47 - |head|));
    TotalZeros(Zeros(47 - |head|));
    assert [c][1..] == [];
  }

  /** A directory block, a full data block and an end block without bytes. */
  function EmptyEndMedium(): seq<Block> {
    [Sparse([TAGDIR, 1, 0, 0, 0, 97], 58), Sparse([TAGDATA, 2], 186), Sparse([TAGEND], 155)]
  }

  lemma EmptyEndBlocks()
    ensures DecodeAll(EmptyEndMedium()) == [Dir(1, [97], 0), Data(2, Zeros(DLEN)), End([])]
  {
    var m := EmptyEndMedium();
    SparseTotal([TAGDIR, 1, 0, 0, 0, 97], 58);
    SparseTotal([TAGDATA, 2], 186);
    SparseTotal([TAGEND], 155);
    assert [TAGDIR, 1, 0, 0, 0, 97] == [TAGDIR, 1, 0, 0, 0] + [97];
    TotalConcat([TAGDIR, 1, 0, 0, 0], [97]);
    TotalShort();
    assert m[0][5..33] == [97] + Zeros(27);
    NameOfPadded([97], Zeros(27));
    assert m[1][3..47] == Zeros(DLEN);
    assert m[2][3..3] == [];
    var D := DecodeAll(m);
    assert D[0] == Dir(1, [97], 0) && D[1] == Data(2, Zeros(DLEN)) && D[2] == End([]);
  }

  lemma TotalShort()
    ensures Total([TAGDIR, 1, 0, 0, 0]) == 101 && Total([97]) == 97 && Total([TAGDATA, 2]) == 70
      && Total([TAGEND]) == 101
  {
    var s: seq<byte> := [1, 0, 0, 0];
    assert [TAGDIR, 1, 0, 0, 0][1..] == s && [97][1..] == [] && [TAGDATA, 2][1..] == [2] && [TAGEND][1..] == [];
    assert s == [1] + [0, 0, 0] && [1][1..] == [] && [2][1..] == [];
    TotalConcat([1], [0, 0, 0]);
    TotalZeros([0, 0, 0]);
  }

  /** A medium in order on which an append goes wrong: the file of block 0 has a full block and an empty last one. */
  lemma EmptyEndExists()
    ensures var D, paths := DecodeAll(EmptyEndMedium()), map[0 := [1, 2]];
      Linked(D, paths) && NamelessBare(Files(D, paths)) && EmptyEnd(D, paths, 0)
        && Files(D, paths)[0].text == Zeros(DLEN)
  {
    EmptyEndBlocks();
    var D: Medium, paths: map<nat, seq<nat>> := DecodeAll(EmptyEndMedium()), map[0 := [1, 2]];
    assert Dirs(D) == {0};
    var p: seq<nat> := [1, 2];
    assert p[0] == 1 && p[1] == 2;
    assert Walk(D, 1, p);
    assert p[1..] == [2] && p[1..][1..] == [];
    assert Text(D, p) == Piece(D[1]) + (Piece(D[2]) + []);
  }

  /** A directory block without a name, an end block with one byte, and a block that is neither. */
  function NamelessMedium(): seq<Block> {
    [Sparse([TAGDIR, 1], 155), Sparse([TAGEND, 1, 0, 7], 147), Sparse([], 1)]
  }

  lemma NamelessTotals()
    ensures Total([TAGDIR, 1]) == 101 && Total([TAGEND, 1, 0, 7]) == 109 && Total([]) == 0
  {
    assert [TAGDIR, 1][1..] == [1] && [1][1..] == [];
    assert [TAGEND, 1, 0, 7][1..] == [1, 0, 7] && [1, 0, 7][1..] == [0, 7] && [0, 7][1..] == [7] && [7][1..] == [];
    assert Total([1, 0, 7]) == 1 + Total([0, 7]);
  }

  lemma NamelessBlocks()
    ensures DecodeAll(NamelessMedium()) == [Dir(1, [], 0), End([7]), Junk]
  {
    NamelessDir();
    NamelessEnd();
    SparseTotal([], 1);
    NamelessTotals();
    assert Decode(Sparse([], 1), 3) == Junk;
    hide Decode, Sparse;
    var m := NamelessMedium();
    ThreeDecoded(m);
    hide DecodeAll;
    assert |m| == 3 && m[0] == Sparse([TAGDIR, 1], 155) && m[1] == Sparse([TAGEND, 1, 0, 7], 147)
      && m[2] == Sparse([], 1);
  }

  lemma ThreeDecoded(m: seq<Block>)
    requires |m| == 3
    ensures DecodeAll(m) == [Decode(m[0], 3), Decode(m[1], 3), Decode(m[2], 3)]
  {
    hide Decode;
  }

  lemma NamelessDir()
    ensures Decode(Sparse([TAGDIR, 1], 155), 3) == Dir(1, [], 0)
  {
    NamelessTotals();
    SparseTotal([TAGDIR, 1], 155);
    hide Total;
    assert Sparse([TAGDIR, 1], 155)[5..33] == [] + Zeros(28);
    NameOfPadded([], Zeros(28));
  }

  lemma NamelessEnd()
    ensures Decode(Sparse([TAGEND, 1, 0, 7], 147), 3) == End([7])
  {
    NamelessTotals();
    SparseTotal([TAGEND, 1, 0, 7], 147);
    hide Total;
    assert Sparse([TAGEND, 1, 0, 7], 147)[3..4] == [7];
  }

  /** A medium in order whose only file has a byte but no name: the scan keeps it in an entry that counts as free. */
  lemma NamelessExists()
    ensures var D, paths := DecodeAll(NamelessMedium()), map[0 := [1]];
      Linked(D, paths) && Files(D, paths)[0] == File([], 0, [7]) && !NamelessBare(Files(D, paths))
  {
    NamelessBlocks();
    hide DecodeAll, NamelessMedium, EmptyEnd;
    NamelessLinked();
  }

  lemma NamelessLinked()
    ensures var D: Medium, paths: map<nat, seq<nat>> := [Dir(1, [], 0), End([7]), Junk], map[0 := [1]];
      Linked(D, paths) && Files(D, paths)[0] == File([], 0, [7]) && !NamelessBare(Files(D, paths))
  {
    var D: Medium, paths: map<nat, seq<nat>> := [Dir(1, [], 0), End([7]), Junk], map[0 := [1]];
    assert Dirs(D) == {0};
    var p: seq<nat> := [1];
    assert p[0] == 1;
    assert Walk(D, 1, p);
    assert p[1..] == [];
    assert Text(D, p) == Piece(D[1]) + [];
  }

  /** The chain of a file, on the medium as it was and with the new blocks written. */
  lemma FileChain(m0: seq<Block>, m: seq<Block>, paths: map<nat, seq<nat>>, files: map<nat, File>, u0: set<nat>,
      f: seq<Tfile>, i: nat)
    requires TableOk(DecodeAll(m0), paths, u0, f) && i < |f| && f[i].name != [] && f[i].bno in paths
      && f[i].dbno != NOTABNO
    requires Holds(m0, paths, files) && Holds(m, paths, files) && |m| == |m0|
    ensures var p, D := paths[f[i].bno], DecodeAll(m);
      && IsChain(D, f[i].dbno, p) && InRange(|m|, p) && |Text(D, p)| == f[i].length && p[0] == f[i].dbno
      && (EmptyEnd(DecodeAll(m0), paths, f[i].bno) <==> EmptyEnd(D, paths, f[i].bno))
  {
    var b, D0, D := f[i].bno, DecodeAll(m0), DecodeAll(m);
    var p := paths[b];
    hide DecodeAll, Text, Apart;
    assert EntryOk(D0, paths, u0, f[i]);
    assert Files(D0, paths)[b] == File(D0[b].name, D0[b].pin, Text(D0, p));
    assert Files(D, paths)[b] == File(D[b].name, D[b].pin, Text(D, p));
    TextLength(D0, D0[b].head, p);
    TextLength(D, D[b].head, p);
  }

  /** How much of the last block an append fills: all of it if more blocks follow, unless it was empty. */
  lemma Fill(used: nat, blocks: nat, offset: nat, last: nat, n: nat, more: bool)
    requires offset == DLEN * blocks + used > 0 && used <= DLEN && n > 0 && offset <= last < offset + DLEN
    requires last == offset || (last - 1) / DLEN * DLEN < offset
    requires if more then last % DLEN == 0 && last < offset + n else last == offset + n
    ensures used + (last - offset) <= DLEN && (used == 0 ==> more && last == offset && blocks > 0)
    ensures more && used > 0 ==> used + (last - offset) == DLEN
  {
  }

  lemma Joined(was: seq<byte>, piece: seq<byte>, pad: seq<byte>, rest: seq<byte>, data: seq<byte>)
    requires data == piece + rest && (piece == [] || pad == [])
    ensures was + (piece + pad) + rest == was + pad + data
  {
    if pad == [] {
      assert piece + pad == piece;
      assert was + pad == was;
      assert (was + piece) + rest == was + (piece + rest);
    } else {
      assert piece + pad == pad;
      assert rest == data;
    }
  }

  lemma Padded(bytes: seq<byte>, piece: seq<byte>, q: seq<nat>, p: Block, n: nat, pad: seq<byte>)
    requires |bytes + piece| <= DLEN && pad == if |q| > 0 then Zeros(DLEN - |bytes + piece|) else []
    requires Decode(p, n) == if |q| == 0 then End(bytes + piece)
      else Data(q[0], (bytes + piece) + Zeros(DLEN - |bytes + piece|))
    ensures |bytes + (piece + pad)| <= DLEN && (|q| > 0 ==> |bytes + (piece + pad)| == DLEN)
    ensures Decode(p, n) == Front(q, bytes + (piece + pad))
  {
    assert bytes + (piece + pad) == (bytes + piece) + pad;
    if |q| == 0 {
      assert bytes + (piece + pad) == bytes + piece;
    }
  }

  lemma NoWrites(m: seq<Block>, paths: map<nat, seq<nat>>, files: map<nat, File>)
    requires Holds(m, paths, files)
    ensures Steady(m, [], paths, files) && Inside(|m|, []) && Apply(m, []) == m
  {
    SteadyStarts(m, paths, files);
  }

  lemma SteadyEnds(m0: seq<Block>, m: seq<Block>, t: seq<Write>, paths: map<nat, seq<nat>>, files: map<nat, File>)
    requires Steady(m0, t, paths, files) && m == Apply(m0, t)
    ensures Holds(m, paths, files) && Inside(|m0|, t)
  {
    assert t[..|t|] == t;
  }

  lemma AtomicInside(m: seq<Block>, t: seq<Write>, paths: map<nat, seq<nat>>, paths': map<nat, seq<nat>>,
      files: map<nat, File>, b: nat, file: File)
    requires Atomic(m, t, paths, paths', files, b, file)
    ensures Inside(|m|, t)
  {
  }

  /** The table stays in order as long as the medium holds the same files. */
  lemma SameTable(m0: seq<Block>, m: seq<Block>, paths: map<nat, seq<nat>>, files: map<nat, File>, u: set<nat>,
      f: seq<Tfile>)
    requires TableOk(DecodeAll(m0), paths, u, f) && Holds(m0, paths, files) && Holds(m, paths, files) && |m| == |m0|
    ensures TableOk(DecodeAll(m), paths, u, f)
  {
    hide DecodeAll, EntryOk, Text, Linked;
    forall i | 0 <= i < |f|
      ensures EntryOk(DecodeAll(m), paths, u, f[i])
    {
      if f[i].name == [] {
        NamelessOk(DecodeAll(m0), paths, u, f[i], DecodeAll(m), paths, u);
      } else {
        SameEntry(m0, m, paths, files, u, f, i);
      }
    }
  }

  lemma SameEntry(m0: seq<Block>, m: seq<Block>, paths: map<nat, seq<nat>>, files: map<nat, File>, u: set<nat>,
      f: seq<Tfile>, i: nat)
    requires TableOk(DecodeAll(m0), paths, u, f) && Holds(m0, paths, files) && Holds(m, paths, files) && |m| == |m0|
    requires i < |f| && f[i].name != []
    ensures EntryOk(DecodeAll(m), paths, u, f[i])
  {
    hide DecodeAll, Text, Walk, IsChain, Apart, WellFormed;
    var e, D0, D := f[i], DecodeAll(m0), DecodeAll(m);
    assert EntryOk(D0, paths, u, e);
    if e.dbno != NOTABNO {
      FileAt(D0, paths, e.bno);
      FileAt(D, paths, e.bno);
      EntryPlace(m0, paths, files, u, f, i);
      EntryWritten(D, paths, u, e, files[e.bno]);
    }
  }

  /** A file with a length has data on the medium. */
  lemma FileLength(m: seq<Block>, paths: map<nat, seq<nat>>, files: map<nat, File>, u: set<nat>, f: seq<Tfile>, i: nat)
    requires TableOk(DecodeAll(m), paths, u, f) && Holds(m, paths, files) && i < |f| && f[i].name != []
    ensures f[i].length == if f[i].bno in files then |files[f[i].bno].text| else 0
  {
    EntryPlace(m, paths, files, u, f, i);
  }

  lemma FirstHasBlocks(q: seq<nat>, data: seq<byte>, last: nat)
    requires |data| > 0 && last < DLEN && (last == 0 || (last - 1) / DLEN * DLEN < 0)
    requires |q| == 0 ==> last == |data|
    ensures |q| > 0 && last == 0
  {
  }

  lemma SubSlice(s: seq<byte>, a: nat, len: nat, off: nat, l: nat)
    requires a + len <= |s| && off + l <= len
    ensures s[a..a + len][off..off + l] == s[a + off..a + off + l]
  {
    var x, y := s[a..a + len][off..off + l], s[a + off..a + off + l];
    forall i | 0 <= i < l
      ensures x[i] == y[i]
    {
    }
  }

  /** A block that is not marked is taken for a new directory entry; nothing on the medium changes but it. */
  lemma NewEntry(m0: seq<Block>, p: Block, paths: map<nat, seq<nat>>, files: map<nat, File>, u: set<nat>,
      f: seq<Tfile>, i: nat, b: nat, e: Tfile)
    requires TableOk(DecodeAll(m0), paths, u, f) && Holds(m0, paths, files) && Covers(u, paths) && b < |m0| && b !in u
    requires Decode(p, |m0|) == Junk && i < |f| && f[i].name == []
    requires e.bno == b && e.dbno == NOTABNO && e.length == f[i].length && 0 !in e.name && |e.name| <= NLEN
      && e.pin <= 0xffff
    ensures TableOk(DecodeAll(m0[b := p]), paths, u + {b}, f[i := e]) && Holds(m0[b := p], paths, files)
      && Covers(u + {b}, paths)
  {
    assert EntryOk(DecodeAll(m0), paths, u, f[i]);
    hide DecodeAll, Text, Linked, Decode, EntryOk;
    UnmarkedIsSpare(DecodeAll(m0), paths, u, b);
    SpareHolds(m0, paths, files, b, p);
    forall j | 0 <= j < |f| && j != i
      ensures EntryOk(DecodeAll(m0[b := p]), paths, u + {b}, f[j]) && (f[j].name != [] ==> f[j].bno != b)
    {
      if f[j].name == [] {
        NamelessOk(DecodeAll(m0), paths, u, f[j], DecodeAll(m0[b := p]), paths, u + {b});
      } else {
        SameEntry(m0, m0[b := p], paths, files, u, f, j);
        MoreMarks(DecodeAll(m0[b := p]), paths, u, f[j], b);
      }
    }
    EmptyEntry(DecodeAll(m0[b := p]), paths, u + {b}, e);
  }

  lemma MoreMarks(D: Medium, paths: map<nat, seq<nat>>, u: set<nat>, e: Tfile, b: nat)
    requires EntryOk(D, paths, u, e) && e.name != [] && b !in u
    ensures EntryOk(D, paths, u + {b}, e) && e.bno != b
  {
  }

  lemma EmptyEntry(D: Medium, paths: map<nat, seq<nat>>, u: set<nat>, e: Tfile)
    requires e.bno < |D| && e.bno in u && e.dbno == NOTABNO && e.length == 0 && Spare(D, paths, e.bno)
    requires 0 !in e.name && |e.name| <= NLEN && e.pin <= 0xffff
    ensures EntryOk(D, paths, u, e)
  {
  }

  lemma BlankEntry(D: Medium, paths: map<nat, seq<nat>>, u: set<nat>, f: seq<Tfile>, e: Tfile)
    requires TableOk(D, paths, u, f) && e.name == [] && e.length == 0
    ensures TableOk(D, paths, u, f + [e])
  {
    hide EntryOk;
    BlankOk(D, paths, u, e);
  }

  /** Removing a file: its directory block is scrubbed, its blocks and its entry are free again. */
  lemma RemoveEntry(m0: seq<Block>, m: seq<Block>, paths: map<nat, seq<nat>>, files: map<nat, File>, u: set<nat>,
      f: seq<Tfile>, i: nat, w: seq<nat>, u': set<nat>)
    requires TableOk(DecodeAll(m0), paths, u, f) && Holds(m0, paths, files) && Covers(u, paths) && i < |f|
      && f[i].name != []
    requires f[i].bno < |m0| == |m| && DecodeAll(m) == DecodeAll(m0)[f[i].bno := Junk]
    requires w == (if f[i].bno in paths then paths[f[i].bno] else []) && u' == u - (set y | y in w) - {f[i].bno}
    ensures Holds(m, paths - {f[i].bno}, files - {f[i].bno}) && Covers(u', paths - {f[i].bno})
    ensures TableOk(DecodeAll(m), paths - {f[i].bno}, u', f[i := BLANK])
  {
    var b := f[i].bno;
    var D, D', paths' := DecodeAll(m0), DecodeAll(m), paths - {b};
    EntryPlace(m0, paths, files, u, f, i);
    RemoveHolds(m0, m, paths, files, b, u, w);
    hide DecodeAll, Text, Linked, Decode, EntryOk, Holds;
    forall j | 0 <= j < |f| && j != i
      ensures EntryOk(D', paths', u', f[j])
    {
      if f[j].name == [] {
        NamelessOk(D, paths, u, f[j], D', paths', u');
      } else {
        RemainingEntry(m0, m, paths, files, u, f, i, j, w, u');
      }
    }
    BlankOk(D', paths', u', BLANK);
  }

  lemma RemoveHolds(m0: seq<Block>, m: seq<Block>, paths: map<nat, seq<nat>>, files: map<nat, File>, b: nat,
      u: set<nat>, w: seq<nat>)
    requires Holds(m0, paths, files) && Covers(u, paths) && b < |m0| == |m| && DecodeAll(m) == DecodeAll(m0)[b := Junk]
    requires w == if b in paths then paths[b] else []
    requires forall c :: c in paths && c != b ==> b !in paths[c]
    ensures Holds(m, paths - {b}, files - {b}) && Covers(u - (set y | y in w) - {b}, paths - {b})
  {
    hide DecodeAll, Text, Walk, IsChain, WellFormed;
    var D := DecodeAll(m0);
    if b in paths {
      RemoveFile(D, paths, b);
      OffTheChain(D, paths, b);
    } else {
      hide Files;
      SpareWrite(D, paths, b, Junk);
      assert paths - {b} == paths;
      assert b !in files by {
        NoSuchFile(D, paths, b);
      }
      assert files - {b} == files;
    }
  }

  lemma NoSuchFile(D: Medium, paths: map<nat, seq<nat>>, b: nat)
    requires Linked(D, paths) && b !in paths
    ensures b !in Files(D, paths)
  {
  }

  /** The other files have no block in common with file b. */
  lemma OffTheChain(D: Medium, paths: map<nat, seq<nat>>, b: nat)
    requires Linked(D, paths) && b in paths
    ensures forall c :: c in paths && c != b ==> c !in paths[b] && forall x :: x in paths[c] ==> x !in paths[b]
  {
    forall c | c in paths && c != b
      ensures c !in paths[b] && forall x :: x in paths[c] ==> x !in paths[b]
    {
      assert Disjoint(paths[b], paths[c]);
      NotOnChain(D, D[b].head, paths[b], c);
    }
  }

  lemma RemainingEntry(m0: seq<Block>, m: seq<Block>, paths: map<nat, seq<nat>>, files: map<nat, File>, u: set<nat>,
      f: seq<Tfile>, i: nat, j: nat, w: seq<nat>, u': set<nat>)
    requires TableOk(DecodeAll(m0), paths, u, f) && Holds(m0, paths, files) && i < |f| && f[i].name != []
    requires f[i].bno < |m0| == |m| && j < |f| && j != i && f[j].name != []
    requires Holds(m, paths - {f[i].bno}, files - {f[i].bno})
    requires w == (if f[i].bno in paths then paths[f[i].bno] else []) && u' == u - (set y | y in w) - {f[i].bno}
    ensures EntryOk(DecodeAll(m), paths - {f[i].bno}, u', f[j])
  {
    var b, e, paths' := f[i].bno, f[j], paths - {f[i].bno};
    assert e.bno != b;
    EntryPlace(m0, paths, files, u, f, j);
    assert b in paths ==> e.bno !in paths[b];
    hide DecodeAll, Text, Walk, IsChain, WellFormed, Apart;
    if e.dbno != NOTABNO {
      assert EntryOk(DecodeAll(m0), paths, u, e);
      FileAt(DecodeAll(m0), paths, e.bno);
      FileAt(DecodeAll(m), paths', e.bno);
      EntryWritten(DecodeAll(m), paths', u', e, files[e.bno]);
    } else {
      assert EntryOk(DecodeAll(m0), paths, u, e);
      EmptyEntry(DecodeAll(m), paths', u', e);
    }
  }

  lemma NamelessLength(D: Medium, paths: map<nat, seq<nat>>, u: set<nat>, f: seq<Tfile>, i: nat)
    requires TableOk(D, paths, u, f) && i < |f| && f[i].name == []
    ensures f[i].length == 0
  {
    assert EntryOk(D, paths, u, f[i]);
  }

  lemma BlankSlot(D: Medium, paths: map<nat, seq<nat>>, u: set<nat>, f: seq<Tfile>, i: nat)
    requires TableOk(D, paths, u, f) && i < |f|
    ensures TableOk(D, paths, u, f[i := BLANK])
  {
    BlankOk(D, paths, u, BLANK);
    hide EntryOk;
  }

  /** A whole chain can be freed. */
  lemma WholeList(D: Medium, x: nat, p: seq<nat>)
    requires IsChain(D, x, p) && |D| <= NOTABNO
    ensures FreeList(D, x, NOTABNO, p)
  {
    ChainWithin(D, x, p);
  }

  lemma EntryEmpty(D: Medium, paths: map<nat, seq<nat>>, u: set<nat>, f: seq<Tfile>, i: nat)
    requires TableOk(D, paths, u, f) && i < |f| && f[i].name != []
    ensures f[i].bno < |D| && (f[i].dbno == NOTABNO ==> f[i].bno !in paths)
  {
    assert EntryOk(D, paths, u, f[i]);
  }

  /** References and flags are no concern of the medium. */
  lemma FlagsOk(D: Medium, paths: map<nat, seq<nat>>, u: set<nat>, f: seq<Tfile>, i: nat, e: Tfile)
    requires TableOk(D, paths, u, f) && i < |f|
    requires e.name == f[i].name && e.bno == f[i].bno && e.dbno == f[i].dbno && e.pin == f[i].pin
      && e.length == f[i].length
    ensures TableOk(D, paths, u, f[i := e])
  {
    assert EntryOk(D, paths, u, f[i]);
  }
}
