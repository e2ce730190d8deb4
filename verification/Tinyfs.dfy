/**
  The tiny file system (emu/devtinyfs.c): the recovery scan, creating and removing files, appending
  and reading. The medium is an array of blocks, each written at once.
 */
module Tinyfs {
  import opened Bytes
  import opened TinyBlocks
  import opened TinyMap
  import opened TinyChain
  import opened TinyScan
  import opened TinyTable
  import opened TinyWrite
  import opened TinyRun

  /** How a write ends: the bytes are on the medium, or the offset is not the end of the file, or there is no room. */
  datatype Outcome = Wrote | AppendOnly | NoSpace

  class Tfs {
    const medium: array<Block>
    var bits: array<bv8>
    var f: seq<Tfile>
    ghost var paths: map<nat, seq<nat>>

    constructor (m: array<Block>)
      ensures medium == m && f == []
    {
      medium, f, paths := m, [], map[];
      bits := new bv8[0];
    }

    ghost function View(): (D: Medium)
      reads medium
      ensures |D| == medium.Length && WellFormed(D)
    {
      DecodeAll(medium[..])
    }

    ghost function Marked(): set<nat>
      reads this`bits, bits
    {
      Used(bits[..])
    }

    ghost predicate Mapped()
      reads this`bits, bits
    {
      (var m: object, b: object := medium, bits; m != b) && MapFor(medium.Length, bits[..])
    }

    /** The device write of one block. */
    method WriteBlock(b: nat, p: Block)
      requires b < medium.Length
      modifies medium
      ensures medium[..] == old(medium[..])[b := p] && View() == old(View())[b := Decode(p, medium.Length)]
    {
      DecodeUpdate(medium[..], b, p);
      medium[b] := p;
      assert medium[..] == old(medium[..])[b := p];
    }

    /** freefile */
    method FreeFile(i: nat, bend: nat, ghost w: seq<nat>)
      requires Mapped() && i < |f| && FreeList(View(), f[i].dbno, bend, w)
      requires f[i].bno < medium.Length || f[i].bno == NOTABNO
      modifies this`f, medium, bits
      ensures Mapped() && f == old(f)[i := BLANK]
      ensures Marked() == old(Marked()) - (set y | y in w) - (if old(f[i].bno) == NOTABNO then {} else {old(f[i].bno)})
      ensures View() == if old(f[i].bno) == NOTABNO then old(View()) else old(View())[old(f[i].bno) := Junk]
    {
      hide Used, DecodeAll, Decode, Walk;
      FreeListRange(View(), f[i].dbno, bend, w);
      ghost var m := bits[..];
      var bno := f[i].bno;
      FreeBlocks(medium, bits, f[i].dbno, bend, w);
      MapForKept(medium.Length, m, bits[..], set y | y in w);
      if bno != NOTABNO {
        ScrubbedIsJunk(medium.Length);
        WriteBlock(bno, Scrubbed());
        ghost var m' := bits[..];
        MapClr(bits, bno);
        MapForKept(medium.Length, m', bits[..], {bno});
      }
      f := f[i := BLANK];
    }

    /** The inner loop of tfsinit: marks the blocks of one file until its end block, or until it goes wrong. */
    method FollowBlocks(j: nat) returns (kept: bool, bno: nat, ghost w: seq<nat>)
      requires Mapped() && j < |f| && f[j].dbno < medium.Length && f[j].length == 0
      modifies this`f, bits
      ensures Mapped() && bits == old(bits) && |f| == |old(f)|
      ensures f == old(f)[j := old(f[j]).(length := f[j].length)]
      ensures Followed(View(), f[j].dbno, kept, w, bno, old(Marked()), Marked(), f[j].length)
    {
      hide Used, Decode, DecodeAll, Marking, Followed, Text;
      ghost var D, x, u := View(), f[j].dbno, Marked();
      bno := f[j].dbno;
      w := [];
      MarkingStarts(D, x, u);
      while true
        invariant Mapped() && bits == old(bits)
        invariant |f| == |old(f)| && f == old(f)[j := old(f[j]).(length := f[j].length)]
        invariant Marking(D, x, w, bno, u, Marked(), f[j].length)
        decreases |Left(|D|, Marked())|
      {
        MarkingInside(D, x, w, bno, u, Marked(), f[j].length);
        UsedIs(bits[..], bno);
        if IsSet(bits[..], bno) {
          Stopped(D, x, w, bno, u, Marked(), f[j].length);
          return false, bno, w;
        }
        var ok, last, next, len := ValidData(medium.Length, medium[bno]);
        DecodedAt(medium[..], bno);
        if !ok {
          Stopped(D, x, w, bno, u, Marked(), f[j].length);
          return false, bno, w;
        }
        ghost var m := bits[..];
        Shrinks(|D|, Marked(), bno);
        MapSet(bits, bno);
        MapForKept(medium.Length, m, bits[..], {});
        if last {
          MarkingEnds(D, x, w, bno, u, Used(m), f[j].length);
          w := w + [bno];
          f := f[j := f[j].(length := f[j].length + len)];
          return true, bno, w;
        }
        MarkingNext(D, x, w, bno, u, Used(m), f[j].length);
        w := w + [bno];
        f := f[j := f[j].(length := f[j].length + DLEN)];
        bno := next;
      }
    }

    /** The state of tfsinit between two files: the first j of the files found have been followed. */
    ghost predicate Scanning(D0: Medium, j: nat)
      reads this, medium, bits
    {
      var l := DirList(D0, |D0|);
      && Mapped() && |D0| == medium.Length && j <= |l| == |f|
      && Scanned(D0, View(), Firsts(D0, j), paths, Marked())
      && (forall i :: 0 <= i < j ==> Settled(D0, paths, l[i], f[i]))
      && forall i :: j <= i < |l| ==> f[i] == Found(D0, l[i])
    }

    /** The body of tfsinit's loop over the files: one file is followed, and dropped if it goes wrong. */
    method FollowFile(j: nat, ghost D0: Medium)
      requires Scanning(D0, j) && j < |f|
      modifies this`f, this`paths, medium, bits
      ensures Scanning(D0, j + 1) && bits == old(bits)
    {
      hide Used, Decode, DecodeAll, Scanned, Followed, Settled, DirList, Firsts;
      ghost var b, D, u := DirList(D0, |D0|)[j], View(), Marked();
      FirstsStep(D0, j);
      ScannedPurged(D0, D, Firsts(D0, j), paths, u);
      var kept, bno;
      ghost var w;
      kept, bno, w := FollowBlocks(j);
      assert View() == D;
      assert old(f[j]) == Found(D0, b);
      assert f[j].dbno == D0[b].head;
      if kept {
        KeepNext(D0, D, Firsts(D0, j), paths, u, b, w, bno, Marked(), f[j].length);
        paths := paths[b := w];
      } else {
        ghost var v, now := FreedPart(w, bno), Marked();
        DropNext(D0, D, Firsts(D0, j), paths, u, b, w, bno, now, f[j].length, v);
        FreeFile(j, bno, v);
        SettledBlank(D0, paths, b);
      }
      SettledOthers(D0, j, old(paths), paths, old(f), f);
    }

    ghost predicate Valid()
      reads this, medium, bits
    {
      Mapped() && Linked(View(), paths) && Covers(Marked(), paths) && TableOk(View(), paths, Marked(), f)
    }

    /** The bitmap at the start of tfsinit: only the bits past the end of the medium are set. */
    method ClearMap()
      requires 3 <= medium.Length <= NOTABNO
      modifies this`bits
      ensures Mapped() && fresh(bits) && forall y :: y in Marked() ==> y >= medium.Length
    {
      var x := (medium.Length + 7) / 8;
      bits := new bv8[x](_ => 0);
      NoneUsed(bits[..]);
      hide Used;
      var bno := medium.Length;
      while bno < x * 8
        invariant medium.Length <= bno <= x * 8 && fresh(bits) && bits.Length == x
        invariant forall y: nat :: y in Used(bits[..]) <==> medium.Length <= y < bno
      {
        MapSet(bits, bno);
        bno := bno + 1;
      }
    }

    /** The first pass of tfsinit: an entry for every directory block. */
    method FindFiles()
      requires Mapped() && f == [] && forall y :: y in Marked() ==> y >= medium.Length
      modifies this`f, bits
      ensures Mapped() && bits == old(bits) && FoundBelow(View(), medium.Length, f, Marked())
    {
      hide Used, Decode, DecodeAll, FoundBelow, Dirs;
      ghost var D := View();
      FoundNone(D, Marked());
      var bno := 0;
      while bno < medium.Length
        invariant 0 <= bno <= medium.Length && Mapped() && bits == old(bits) && FoundBelow(D, bno, f, Marked())
      {
        ghost var m := bits[..];
        FoundNext(D, bno, f, Marked());
        var ok, x, name, pin := ValidDir(medium.Length, medium[bno]);
        DecodedAt(medium[..], bno);
        if ok {
          MapSet(bits, bno);
          MapForKept(medium.Length, m, bits[..], {});
          f := f + [Tfile(0, name, bno, x, pin, false, false, 0)];
        }
        bno := bno + 1;
      }
    }

    /** The bitmap and the first pass. */
    method StartScan()
      requires 3 <= medium.Length <= NOTABNO
      modifies this
      ensures fresh(bits) && Scanning(View(), 0)
    {
      hide Used, Decode, DecodeAll, Dirs, DirList, MapFor, Scanned, FoundBelow;
      ghost var D0 := View();
      f, paths := [], map[];
      ClearMap();
      FindFiles();
      AllFound(D0, f, Marked());
      ScanStarts(D0, Marked());
      NoneYet(D0);
    }

    /** The second pass. */
    method FollowFiles(ghost D0: Medium)
      requires Scanning(D0, 0)
      modifies this`f, this`paths, medium, bits
      ensures Scanning(D0, |f|) && bits == old(bits)
    {
      hide Scanning;
      ScanCount(D0, 0);
      var j := 0;
      while j < |f|
        invariant 0 <= j <= |f| == |DirList(D0, |D0|)| && Scanning(D0, j) && bits == old(bits)
        decreases |DirList(D0, |D0|)| - j
      {
        FollowFile(j, D0);
        j := j + 1;
        ScanCount(D0, j);
      }
    }

    lemma ScanCount(D0: Medium, j: nat)
      requires Scanning(D0, j)
      ensures j <= |f| == |DirList(D0, |D0|)|
    {
    }

    /**
      tfsinit. Whatever is on the medium, the files it keeps are complete and apart; it drops no file whose
      chain is complete and its own, and on a medium in order it drops none and writes nothing. The
      table is in order exactly if the files without a name have no bytes.
     */
    method Init() returns (ok: bool)
      requires medium.Length <= NOTABNO
      modifies this, medium
      ensures ok <==> medium.Length >= 3
      ensures ok ==> Recovered(old(View()), View(), paths, f)
      ensures ok ==> (Valid() <==> NamelessBare(Files(View(), paths)))
      ensures ok ==> Mapped() && Covers(Marked(), paths)
      ensures ok ==> forall i :: 0 <= i < |f| ==> f[i].r == 0 && !f[i].creating && !f[i].rmonclose
      ensures ok ==> forall p :: Linked(old(View()), p) ==> View() == old(View()) && paths == p
    {
      if medium.Length < 3 {
        return false;
      }
      hide Used, Decode, DecodeAll, Scanned, Settled, DirList, Firsts, Recovered, Linked, TableOk, Exclusive, Dirs,
        MapFor, Covers;
      ghost var D0 := View();
      StartScan();
      FollowFiles(D0);
      FirstsAll(D0);
      TableFromScan(D0, View(), paths, Marked(), f);
      OrderKept(D0, View(), paths, Marked());
      Unflagged(D0, View(), paths, f);
      ok := true;
    }

    /** writedata */
    method WriteData(bno: nat, next: nat, buf: seq<byte>, last: bool) returns (ghost p: Block)
      requires medium.Length <= NOTABNO && bno < medium.Length && |buf| <= DLEN && (last || next < medium.Length)
      modifies medium
      ensures medium[..] == old(medium[..])[bno := p]
      ensures Decode(p, medium.Length) == if last then End(buf) else Data(next, buf + Zeros(DLEN - |buf|))
    {
      var md := DataBlock(next, buf, last, medium.Length);
      WriteBlock(bno, md);
      p := md;
    }

    /** The state of the backward loop of tinyfswrite: the bytes from `last` on are in new blocks. */
    ghost predicate Backward(m0: seq<Block>, t: seq<Write>, files: map<nat, File>, q: seq<nat>, data: seq<byte>,
        offset: nat, last: nat, u0: set<nat>)
      reads this`bits, this`paths, medium, bits
    {
      && Mapped() && Covers(u0, paths) && offset <= last <= offset + |data|
      && Building(m0, medium[..], t, paths, files, q, data[last - offset..], u0, Marked())
      && Counted(|q|, last, offset + |data|)
    }

    /** One turn of the loop: a block is taken for the bytes from `next` to `last`. */
    method BlockBack(data: seq<byte>, offset: nat, last: nat, next: nat, dbno: nat, ghost m0: seq<Block>,
        ghost t: seq<Write>, ghost files: map<nat, File>, ghost q: seq<nat>, ghost u0: set<nat>)
        returns (bno: nat, ghost t': seq<Write>)
      requires Backward(m0, t, files, q, data, offset, last, u0) && offset <= next < last && next % DLEN == 0
        && last - next <= DLEN
      requires |q| > 0 ==> last - next == DLEN
      requires dbno == if |q| == 0 then NOTABNO else q[0]
      modifies medium, bits
      ensures Mapped() && bits == old(bits)
      ensures bno == NOTABNO ==> Backward(m0, t, files, q, data, offset, last, u0)
      ensures bno != NOTABNO ==> Backward(m0, t', files, [bno] + q, data, offset, next, u0)
    {
      hide Used, Decode, DecodeAll, Building;
      ghost var m, b := medium[..], bits[..];
      BuildingSound(m0, m, t, paths, files, q, data[last - offset..], u0, Marked());
      assert |q| > 0 ==> q[0] in q;
      t' := t;
      MapLimit(medium.Length, bits[..]);
      bno := MapAlloc(bits);
      if bno == NOTABNO {
        return;
      }
      MapForKept(medium.Length, b, bits[..], {});
      var piece := data[next - offset..last - offset];
      ghost var p := WriteData(bno, dbno, piece, |data| + offset == last);
      t' := t + [Write(bno, p)];
      FrontOf(q, piece, p, medium.Length);
      BuildNext(m0, m, t, paths, files, q, data[last - offset..], u0, Used(b), bno, p, piece);
      assert piece + data[last - offset..] == data[next - offset..];
    }

    /** The error exit of the backward loop. */
    method GiveUpBlocks(data: seq<byte>, offset: nat, last: nat, dbno: nat, ghost m0: seq<Block>, ghost t: seq<Write>,
        ghost files: map<nat, File>, ghost q: seq<nat>, ghost u0: set<nat>)
      requires Backward(m0, t, files, q, data, offset, last, u0) && dbno == if |q| == 0 then NOTABNO else q[0]
      modifies bits
      ensures Mapped() && Marked() == u0 && Steady(m0, t, paths, files) && medium[..] == Apply(m0, t)
    {
      hide Used, Decode, DecodeAll, Building, Holds, Covers, Steady, Apply;
      BuildingList(m0, medium[..], t, paths, files, q, data[last - offset..], u0, Marked(), dbno);
      BuildingSound(m0, medium[..], t, paths, files, q, data[last - offset..], u0, Marked());
      ghost var b := bits[..];
      FreeBlocks(medium, bits, dbno, NOTABNO, q);
      MapForKept(medium.Length, b, bits[..], set y | y in q);
    }

    /** The backward loop of tinyfswrite, with its error exit: without room the blocks taken are freed again. */
    method NewBlocks(data: seq<byte>, offset: nat, ghost files: map<nat, File>)
        returns (dbno: nat, last: nat, ok: bool, ghost q: seq<nat>, ghost t: seq<Write>)
      requires Mapped() && |data| > 0 && Holds(medium[..], paths, files) && Covers(Marked(), paths)
      modifies medium, bits
      ensures Mapped() && bits == old(bits)
      ensures ok ==>
        Backward(old(medium[..]), t, files, q, data, offset, last, old(Marked()))
        && dbno == (if |q| == 0 then NOTABNO else q[0])
      ensures ok ==> last < offset + DLEN && (last == offset || (last - 1) / DLEN * DLEN < offset)
      ensures !ok ==>
        Marked() == old(Marked()) && Steady(old(medium[..]), t, paths, files) && medium[..] == Apply(old(medium[..]), t)
    {
      hide Used, Decode, DecodeAll, Building, Holds, Covers, Steady, Apply;
      ghost var m0, u0 := medium[..], Marked();
      BuildStarts(m0, paths, files, u0);
      dbno, last, q, t := NOTABNO, offset + |data|, [], [];
      assert data[|data|..] == [];
      var next := (last - 1) / DLEN * DLEN;
      while next >= offset
        invariant Backward(m0, t, files, q, data, offset, last, u0) && bits == old(bits)
        invariant dbno == if |q| == 0 then NOTABNO else q[0]
        invariant if |q| == 0 then next == (last - 1) / DLEN * DLEN else next == last - DLEN
        invariant next % DLEN == 0
        decreases next + DLEN
      {
        var bno;
        ghost var t';
        bno, t' := BlockBack(data, offset, last, next, dbno, m0, t, files, q, u0);
        if bno == NOTABNO {
          GiveUpBlocks(data, offset, last, dbno, m0, t, files, q, u0);
          ok := false;
          return;
        }
        t := t';
        q := [bno] + q;
        dbno, last := bno, next;
        next := next - DLEN;
      }
      ok := true;
    }

    /** The walk of tinyfswrite to the last data block; its two panics cannot happen. */
    method LastBlock(bno0: nat, offset: nat, ghost p: seq<nat>) returns (bno: nat, used: nat)
      requires IsChain(View(), bno0, p) && InRange(medium.Length, p) && |Text(View(), p)| == offset
      ensures bno == p[|p| - 1] && bno < medium.Length && Decode(medium[bno], medium.Length).End?
      ensures used == |Decode(medium[bno], medium.Length).bytes| <= DLEN && offset == DLEN * (|p| - 1) + used
    {
      hide Decode, DecodeAll, Text;
      ghost var D := View();
      TextLength(D, bno0, p);
      ghost var k := 0;
      var next := 0;
      bno, used := bno0, 0;
      while true
        invariant 0 <= k < |p| && bno == p[k] && next == DLEN * k
        decreases |p| - k
      {
        DecodedAt(medium[..], bno);
        var ok, last, follows, len := ValidData(medium.Length, medium[bno]);
        if last {
          assert !(next + DLEN < offset);
          used := len;
          return;
        }
        next := next + DLEN;
        assert !(next > offset);
        k := k + 1;
        bno := follows;
      }
    }

    /** The commit when the file has no data: its directory block is written. */
    method CommitDir(i: nat, dbno: nat, data: seq<byte>, ghost m0: seq<Block>, ghost t: seq<Write>,
        ghost files: map<nat, File>, ghost q: seq<nat>, ghost u0: set<nat>) returns (ghost t': seq<Write>)
      requires i < |f| && f[i].name != [] && |data| > 0 && |q| > 0 && dbno == q[0]
      requires Backward(m0, t, files, q, data, 0, 0, u0) && TableOk(DecodeAll(m0), paths, u0, f) && f[i].length == 0
      requires Holds(m0, paths, files)
      modifies this`f, this`paths, medium
      ensures Valid() && f == old(f)[i := old(f[i]).(dbno := dbno, length := |data|)] && bits == old(bits)
      ensures Atomic(m0, t', old(paths), paths, files, old(f[i]).bno, File(Cut(old(f[i]).name), old(f[i]).pin, data))
      ensures paths == old(paths)[old(f[i]).bno := q] && medium[..] == Apply(m0, t')
    {
      hide Used, Decode, DecodeAll, Building, Holds, Steady, Apply, TableOk, Linked, Atomic, Files, Text;
      ghost var m, b, name, pin := medium[..], f[i].bno, Cut(f[i].name), f[i].pin;
      assert data[0..] == data;
      BuildingSound(m0, m, t, paths, files, q, data, u0, Marked());
      EntryPlace(m0, paths, files, u0, f, i);
      assert q[0] in q;
      f := f[i := f[i].(dbno := dbno)];
      var md := DirBlock(f[i].dbno, f[i].name, f[i].pin, medium.Length);
      WriteBlock(f[i].bno, md);
      t' := t + [Write(b, md)];
      CommitFirst(m0, m, t, paths, files, q, data, u0, Marked(), b, md, name, pin);
      AtomicEnds(m0, t', paths, paths[b := q], files, b, File(name, pin, data));
      CommitTable(m0, medium[..], t', paths, q, q, files, u0, Marked(), old(f), i, f[i].(length := |data|),
        File(name, pin, data), data);
      paths := paths[b := q];
      f := f[i := f[i].(length := f[i].length + |data|)];
      assert f == old(f)[i := old(f[i]).(dbno := dbno, length := |data|)];
    }

    /** The end block is written again with the bytes that still fit and the link to the new blocks. */
    method FillEnd(bno: nat, used: nat, dbno: nat, data: seq<byte>, offset: nat, last: nat, ghost q: seq<nat>,
        ghost blocks: nat) returns (ghost md: Block, ghost pad: seq<byte>)
      requires 3 <= medium.Length <= NOTABNO && bno < medium.Length && Decode(medium[bno], medium.Length).End?
      requires used == |Decode(medium[bno], medium.Length).bytes| && offset == DLEN * blocks + used > 0 && |data| > 0
      requires if |q| == 0 then dbno == NOTABNO else dbno == q[0] < medium.Length
      requires offset <= last < offset + DLEN && (last == offset || (last - 1) / DLEN * DLEN < offset)
      requires if |q| > 0 then last % DLEN == 0 && last < offset + |data| else last == offset + |data|
      modifies medium
      ensures medium[..] == old(medium[..])[bno := md] && last - offset <= |data|
      ensures var bytes, more := old(Decode(medium[bno], medium.Length)).bytes, data[..last - offset] + pad;
        |bytes + more| <= DLEN && (|q| > 0 ==> |bytes + more| == DLEN)
        && Decode(md, medium.Length) == Front(q, bytes + more)
      ensures pad == (if used == 0 then Zeros(DLEN) else []) && (last == offset || pad == [])
        && (used == 0 ==> blocks > 0)
    {
      EndBytes(medium[bno], medium.Length);
      ghost var bytes := Decode(medium[bno], medium.Length).bytes;
      hide Decode;
      Fill(used, blocks, offset, last, |data|, |q| > 0);
      var piece := data[..last - offset];
      var buf := medium[bno][3..3 + used] + piece;
      md := WriteData(bno, dbno, buf, last == offset + |data|);
      pad := if |q| > 0 then Zeros(DLEN - |buf|) else [];
      Padded(bytes, piece, q, md, medium.Length, pad);
    }

    /** The last write when the file has data: its end block again, with what still fits and the new link. */
    method RewriteEnd(i: nat, dbno: nat, data: seq<byte>, offset: nat, last: nat, ghost m0: seq<Block>,
        ghost t: seq<Write>, ghost files: map<nat, File>, ghost q: seq<nat>, ghost u0: set<nat>)
        returns (ghost t': seq<Write>, ghost pad: seq<byte>)
      requires i < |f| && f[i].name != [] && |data| > 0 && dbno == (if |q| == 0 then NOTABNO else q[0])
      requires Backward(m0, t, files, q, data, offset, last, u0) && TableOk(DecodeAll(m0), paths, u0, f)
        && f[i].length == offset > 0
      requires last < offset + DLEN && (last == offset || (last - 1) / DLEN * DLEN < offset)
      requires Holds(m0, paths, files) && f[i].bno in paths && f[i].bno in files
      modifies medium
      ensures Atomic(m0, t', paths, paths[f[i].bno := paths[f[i].bno] + q], files, f[i].bno,
        files[f[i].bno].(text := files[f[i].bno].text + pad + data))
      ensures medium[..] == Apply(m0, t') && Fresh(q, u0, Marked()) && |paths[f[i].bno]| > 0
      ensures paths[f[i].bno][0] == f[i].dbno != NOTABNO && |files[f[i].bno].text| == offset
      ensures pad == if EmptyEnd(DecodeAll(m0), paths, f[i].bno) then Zeros(DLEN) else []
    {
      hide Used, Decode, DecodeAll, Building, Holds, Steady, Apply, TableOk, Linked, Atomic, Files, Text, IsChain;
      ghost var m, b, rest := medium[..], f[i].bno, data[last - offset..];
      BuildingSound(m0, m, t, paths, files, q, rest, u0, Marked());
      EntryPlace(m0, paths, files, u0, f, i);
      FileChain(m0, m, paths, files, u0, f, i);
      ghost var p := paths[b];
      assert |q| > 0 ==> q[0] in q;
      var bno, used := LastBlock(f[i].dbno, offset, p);
      DecodedAt(medium[..], bno);
      ghost var md;
      md, pad := FillEnd(bno, used, dbno, data, offset, last, q, |p| - 1);
      t' := t + [Write(bno, md)];
      ghost var piece := data[..last - offset];
      CommitAppend(m0, m, t, paths, files, q, rest, u0, Marked(), b, bno, md, piece + pad);
      Joined(files[b].text, piece, pad, rest, data);
    }

    /** The commit when the file has data: its end block is written again, and the table says its new length. */
    method CommitEnd(i: nat, dbno: nat, data: seq<byte>, offset: nat, last: nat, ghost m0: seq<Block>,
        ghost t: seq<Write>, ghost files: map<nat, File>, ghost q: seq<nat>, ghost u0: set<nat>)
        returns (ghost t': seq<Write>, ghost pad: seq<byte>)
      requires i < |f| && f[i].name != [] && |data| > 0 && dbno == (if |q| == 0 then NOTABNO else q[0])
      requires Backward(m0, t, files, q, data, offset, last, u0) && TableOk(DecodeAll(m0), paths, u0, f)
        && f[i].length == offset > 0
      requires last < offset + DLEN && (last == offset || (last - 1) / DLEN * DLEN < offset)
      requires Holds(m0, paths, files) && f[i].bno in paths && f[i].bno in files
      modifies this`f, this`paths, medium
      ensures Atomic(m0, t', old(paths), paths, files, old(f[i]).bno,
        files[old(f[i]).bno].(text := files[old(f[i]).bno].text + pad + data))
      ensures paths == old(paths)[old(f[i]).bno := old(paths)[old(f[i]).bno] + q] && medium[..] == Apply(m0, t')
        && bits == old(bits)
      ensures pad == if EmptyEnd(DecodeAll(m0), old(paths), old(f[i]).bno) then Zeros(DLEN) else []
      ensures pad == [] ==> Valid() && f == old(f)[i := old(f[i]).(length := offset + |data|)]
    {
      hide Used, Decode, DecodeAll, Building, Holds, Steady, Apply, TableOk, Linked, Atomic, Files, Text, IsChain,
        EmptyEnd, Counted;
      ghost var b, p := f[i].bno, paths[f[i].bno];
      t', pad := RewriteEnd(i, dbno, data, offset, last, m0, t, files, q, u0);
      EntryPlace(m0, paths, files, u0, f, i);
      ghost var file := files[b].(text := files[b].text + pad + data);
      paths := paths[b := p + q];
      f := f[i := f[i].(length := f[i].length + |data|)];
      if pad == [] {
        AtomicEnds(m0, t', old(paths), paths, files, b, file);
        CommitTable(m0, medium[..], t', old(paths), p + q, q, files, u0, Marked(), old(f), i, f[i], file, data);
      }
    }

    /** The files on the medium, by directory block. */
    ghost function Stored(): map<nat, File>
      requires Valid()
      reads this, medium, bits
    {
      Files(View(), paths)
    }

    /** The bytes of the file with this entry. */
    ghost function Bytes(i: nat): seq<byte>
      requires Valid() && i < |f|
      reads this, medium, bits
    {
      if f[i].bno in Stored() then Stored()[f[i].bno].text else []
    }

    /** In order, and no file ends in an empty block after others. */
    ghost predicate Neat()
      reads this, medium, bits
    {
      Valid() && Tight(paths, Stored())
    }

    /** The file an append of data to entry i makes. */
    ghost function Appended(i: nat, data: seq<byte>): File
      requires Valid() && i < |f|
      reads this, medium, bits
    {
      var pad := if EmptyEnd(View(), paths, f[i].bno) then Zeros(DLEN) else [];
      if f[i].length != 0 && f[i].bno in Stored() then Stored()[f[i].bno].(text := Bytes(i) + pad + data)
      else File(Cut(f[i].name), f[i].pin, data)
    }

    /**
      tinyfswrite. An append is atomic in its row of block writes; the bytes of the file are then the
      old ones and the new ones, unless its last block was empty and not its first: that block then
      counts as full. A failed append leaves the bitmap and the files as they were.
     */
    method Append(i: nat, data: seq<byte>, offset: nat) returns (r: Outcome, ghost t: seq<Write>)
      requires Valid() && i < |f| && f[i].name != [] && |data| > 0
      modifies this`f, this`paths, medium, bits
      ensures bits == old(bits) && Inside(medium.Length, t) && medium[..] == Apply(old(medium[..]), t)
      ensures r == AppendOnly <==> offset != old(f[i]).length
      ensures r == AppendOnly ==> t == [] && Marked() == old(Marked())
      ensures r != Wrote ==> Valid() && f == old(f) && Stored() == old(Stored()) && Marked() == old(Marked())
      ensures r != Wrote ==> Steady(old(medium[..]), t, old(paths), old(Stored()))
      ensures r == Wrote ==>
        Atomic(old(medium[..]), t, old(paths), paths, old(Stored()), old(f[i]).bno, old(Appended(i, data)))
      ensures r == Wrote && !EmptyEnd(old(View()), old(paths), old(f[i]).bno) ==>
        Valid() && |f| == |old(f)| && f[i].length == offset + |data|
      ensures old(Neat()) ==>
        Neat() && Step(old(f), old(Stored()), f, Stored(), if r == Wrote then Added(i, data) else Freed({}))
    {
      hide Used, Decode, DecodeAll, Building, Steady, Apply, TableOk, Linked, Atomic, Files, Text, MapFor, Covers,
        EmptyEnd, Inside;
      ghost var m0, u0, files := medium[..], Marked(), Stored();
      NoWrites(m0, paths, files);
      t := [];
      if offset != f[i].length {
        return AppendOnly, t;
      }
      EntryPlace(m0, paths, files, u0, f, i);
      FileLength(m0, paths, files, u0, f, i);
      ghost var q;
      var dbno, last, ok;
      dbno, last, ok, q, t := NewBlocks(data, offset, files);
      if !ok {
        SteadyEnds(m0, medium[..], t, paths, files);
        SameTable(m0, medium[..], paths, files, u0, f);
        return NoSpace, t;
      }
      r := Wrote;
      ghost var paths0, f0, file := paths, f, old(Appended(i, data));
      if offset == 0 {
        FirstHasBlocks(q, data, last);
        t := CommitDir(i, dbno, data, m0, t, files, q, u0);
      } else {
        ghost var pad;
        t, pad := CommitEnd(i, dbno, data, offset, last, m0, t, files, q, u0);
      }
      AtomicInside(m0, t, old(paths), paths, files, old(f[i]).bno, file);
      if old(Neat()) {
        TightEnd(DecodeAll(m0), paths0, f0[i].bno);
        AtomicEnds(m0, t, paths0, paths, files, f0[i].bno, file);
        TinyRun.Appended(m0, medium[..], paths0, paths, files, u0, f0, i, f[i], q, last, file, data);
      }
    }

    /** An append adds exactly its bytes if and only if the last block of the file has some, or is the only one. */
    lemma AppendExact(i: nat, data: seq<byte>)
      requires Valid() && i < |f| && f[i].name != [] && |data| > 0
      ensures Appended(i, data).text == Bytes(i) + data <==> !EmptyEnd(View(), paths, f[i].bno)
    {
      hide Text, Walk, DecodeAll, Covers, Used;
      EntryPlace(medium[..], paths, Stored(), Marked(), f, i);
      if f[i].bno in paths {
        FileAt(View(), paths, f[i].bno);
        TextLength(View(), View()[f[i].bno].head, paths[f[i].bno]);
      }
    }

    /** The first loop of tinyfsread: to the block the offset is in. */
    method SeekBlock(bno0: nat, offset: nat, ghost p: seq<nat>) returns (bno: nat)
      requires IsChain(View(), bno0, p) && InRange(medium.Length, p) && offset < |Text(View(), p)|
      ensures offset / DLEN < |p| && bno == p[offset / DLEN]
    {
      hide Decode, DecodeAll, Text;
      ghost var D := View();
      TextLength(D, bno0, p);
      ghost var k := 0;
      bno := bno0;
      var sofar := 0;
      while sofar + DLEN <= offset
        invariant 0 <= k < |p| && bno == p[k] && sofar == DLEN * k <= offset
        decreases offset - sofar
      {
        PieceAt(D, bno0, p, k);
        assert WellFormedItem(D[bno], |D|);
        DecodedAt(medium[..], bno);
        var ok, last, follows, len := ValidData(medium.Length, medium[bno]);
        bno := follows;
        k := k + 1;
        sofar := sofar + DLEN;
      }
    }

    /** tinyfsread: the bytes of the file from the offset on, n of them or as many as there are. */
    method Read(i: nat, n: nat, offset: nat) returns (a: seq<byte>)
      requires Valid() && i < |f| && f[i].name != []
      ensures a == if offset >= |Bytes(i)| then [] else if offset + n <= |Bytes(i)| then Bytes(i)[offset..offset + n]
        else Bytes(i)[offset..]
    {
      hide Used, Decode, DecodeAll, Text, Covers, MapFor;
      EntryPlace(medium[..], paths, Stored(), Marked(), f, i);
      FileLength(medium[..], paths, Stored(), Marked(), f, i);
      if offset >= f[i].length {
        return [];
      }
      var count := if n + offset >= f[i].length then f[i].length - offset else n;
      ghost var p := paths[f[i].bno];
      FileChain(medium[..], medium[..], paths, Stored(), Marked(), f, i);
      FileAt(View(), paths, f[i].bno);
      a := ReadBlocks(f[i].dbno, count, offset, p);
    }

    /** The part of a read that comes from one block. */
    method ReadPart(bno: nat, off: nat, want: nat, ghost dbno: nat, ghost p: seq<nat>, ghost k: nat, ghost at: nat)
        returns (part: seq<byte>, next: nat)
      requires IsChain(View(), dbno, p) && InRange(medium.Length, p) && k < |p| && bno == p[k]
      requires off < DLEN && at == DLEN * k + off && want > 0 && at + want <= |Text(View(), p)|
      ensures 1 <= |part| <= want && part == Text(View(), p)[at..at + |part|]
      ensures |part| < want ==> k + 1 < |p| && next == p[k + 1] && at + |part| == DLEN * (k + 1)
    {
      hide Decode, DecodeAll, Text, Walk, IsChain;
      PieceAt(View(), dbno, p, k);
      DecodedAt(medium[..], bno);
      var ok, last, follows, len := ValidData(medium.Length, medium[bno]);
      ghost var c := Piece(View()[bno]);
      assert c == medium[bno][3..3 + len] && off < len;
      var l: nat := len - off;
      if l > want {
        l := want;
      }
      SubSlice(Text(View(), p), DLEN * k, |c|, off, l);
      SubSlice(medium[bno], 3, len, off, l);
      part := medium[bno][3 + off..3 + off + l];
      next := follows;
    }

    /** The second loop of tinyfsread. */
    method ReadBlocks(dbno: nat, count: nat, offset: nat, ghost p: seq<nat>) returns (a: seq<byte>)
      requires IsChain(View(), dbno, p) && InRange(medium.Length, p) && offset < |Text(View(), p)|
        && offset + count <= |Text(View(), p)|
      ensures a == Text(View(), p)[offset..offset + count]
    {
      hide Decode, DecodeAll, Text, Walk, IsChain;
      ghost var text := Text(View(), p);
      var bno := SeekBlock(dbno, offset, p);
      ghost var k: nat := offset / DLEN;
      var off: nat := offset % DLEN;
      a := [];
      while |a| < count
        invariant 0 <= |a| <= count && a == text[offset..offset + |a|]
        invariant |a| < count ==> k < |p| && bno == p[k] && offset + |a| == DLEN * k + off && off < DLEN
        decreases count - |a|
      {
        var part, next := ReadPart(bno, off, count - |a|, dbno, p, k, offset + |a|);
        assert text[offset..offset + |a|] + text[offset + |a|..offset + |a| + |part|] ==
          text[offset..offset + |a| + |part|];
        a := a + part;
        bno := next;
        k := k + 1;
        off := 0;
      }
    }

    /** The search of newfile for a free entry of the table, which grows when there is none. */
    method FreeEntry() returns (i: nat)
      requires Valid()
      modifies this`f
      ensures Valid() && i < |f| && f[i].name == []
      ensures if i < |old(f)| then f == old(f) else f == old(f) + [BLANK] && i == |old(f)|
    {
      hide TableOk, Linked, Covers, MapFor, Used, DecodeAll;
      i := 0;
      while i < |f|
        invariant 0 <= i <= |f|
      {
        if f[i].name == [] {
          return;
        }
        i := i + 1;
      }
      BlankEntry(View(), paths, Marked(), f, BLANK);
      f := f + [BLANK];
    }

    /** freefile of an entry that has no block. */
    method ClearEntry(i: nat, ghost f0: seq<Tfile>)
      requires Mapped() && Linked(View(), paths) && Covers(Marked(), paths) && TableOk(View(), paths, Marked(), f0)
      requires i < |f| == |f0| && f == f0[i := f[i]] && f[i].bno == f[i].dbno == NOTABNO
      modifies this`f, medium, bits
      ensures Valid() && Stored() == old(Files(View(), paths)) && bits == old(bits) && f == f0[i := BLANK]
        && Marked() == old(Marked())
    {
      hide TableOk, Linked, Covers, Used, DecodeAll, Decode, Files;
      ghost var u := Marked();
      FreeFile(i, NOTABNO, []);
      assert Marked() == u;
      BlankSlot(View(), paths, u, f0, i);
      assert f == f0[i := BLANK];
    }

    /** newfile with the entry found. */
    method FillEntry(i: nat, name: seq<byte>, pin: nat) returns (ok: bool)
      requires Valid() && i < |f| && f[i].name == [] && name != [] && 0 !in name && pin <= 0xffff
      modifies this`f, medium, bits
      ensures Valid() && Stored() == old(Stored()) && bits == old(bits) && |f| == |old(f)|
      ensures ok ==> f == old(f)[i := Tfile(1, Cut(name), f[i].bno, NOTABNO, pin, true, false, 0)]
      ensures ok ==> f[i].bno !in old(Marked()) && Marked() == old(Marked()) + {f[i].bno}
      ensures !ok ==> f == old(f)[i := BLANK] && Marked() == old(Marked()) && forall b :: 0 <= b < medium.Length ==>
        b in Marked()
    {
      NamelessLength(View(), paths, Marked(), f, i);
      hide TableOk, Linked, Covers, Used, DecodeAll, Decode, Files;
      ghost var m0, u, b0, files, f0 := medium[..], Marked(), bits[..], Stored(), f;
      MapLimit(medium.Length, bits[..]);
      f := f[i := f[i].(name := Cut(name), creating := true, rmonclose := false, dbno := NOTABNO)];
      var bno := MapAlloc(bits);
      f := f[i := f[i].(bno := bno, r := 1, pin := pin)];
      if bno == NOTABNO {
        ClearEntry(i, f0);
        return false;
      }
      MapForKept(medium.Length, b0, bits[..], {});
      var md := DirBlock(NOTABNO, f[i].name, f[i].pin, medium.Length);
      WriteBlock(bno, md);
      NewEntry(m0, md, paths, files, u, f0, i, bno, f[i]);
      assert f == f0[i := f[i]];
      ok := true;
    }

    /** newfile: an entry without data and a directory block for it, or nothing if there is no block. */
    method NewFile(name: seq<byte>, pin: nat) returns (ok: bool, i: nat)
      requires Valid() && name != [] && 0 !in name && pin <= 0xffff
      modifies this`f, medium, bits
      ensures Valid() && Stored() == old(Stored()) && i < |f| && bits == old(bits)
      ensures ok ==> f[i] == Tfile(1, Cut(name), f[i].bno, NOTABNO, pin, true, false, 0)
      ensures ok ==> f[i].bno !in old(Marked()) && Marked() == old(Marked()) + {f[i].bno}
      ensures ok ==> if i < |old(f)| then old(f)[i].name == [] && f == old(f)[i := f[i]] else f == old(f) + [f[i]]
      ensures !ok ==> Marked() == old(Marked()) && forall b :: 0 <= b < medium.Length ==> b in Marked()
      ensures !ok ==> f == old(f) + [BLANK] || (i < |old(f)| && old(f)[i].name == [] && f == old(f)[i := BLANK])
      ensures old(Neat()) ==> Neat()
      ensures Step(old(f), old(Stored()), f, Stored(), if ok then Made(i, Cut(name)) else Freed({}))
    {
      StoredMarked();
      i := FreeEntry();
      hide Valid;
      ok := FillEntry(i, name, pin);
      assert i == |old(f)| ==> f == old(f) + [f[i]];
      MadeStep(old(f), old(Stored()), f, i);
    }

    /** The directory blocks of files are marked. */
    lemma StoredMarked()
      requires Valid()
      ensures forall b :: b in Stored() ==> b in Marked()
    {
      hide Linked, TableOk, Used, DecodeAll;
    }

    /** tinyfsremove: the file is gone from the medium and the table, its blocks are free, no other file changes. */
    method Remove(i: nat)
      requires Valid() && i < |f| && f[i].name != []
      modifies this`f, this`paths, medium, bits
      ensures Valid() && f == old(f)[i := BLANK] && bits == old(bits) && Stored() == old(Stored()) - {old(f[i]).bno}
      ensures Marked() == old(Marked()) - (set y | y in old(ChainOf(i))) - {old(f[i]).bno}
      ensures (old(Neat()) ==> Neat()) && Step(old(f), old(Stored()), f, Stored(), Freed(Emptied(f)))
    {
      hide TableOk, Linked, Covers, Used, DecodeAll, Decode, Files, Text, IsChain, Walk;
      ghost var m0, u, files, b, w := medium[..], Marked(), Stored(), f[i].bno, ChainOf(i);
      EntryPlace(m0, paths, files, u, f, i);
      if f[i].dbno != NOTABNO {
        FileChain(m0, m0, paths, files, u, f, i);
        WholeList(View(), f[i].dbno, w);
      }
      EntryEmpty(View(), paths, u, f, i);
      FreeFile(i, NOTABNO, w);
      RemoveEntry(m0, medium[..], paths, files, u, old(f), i, w, Marked());
      paths := paths - {b};
      assert Dropped(old(f), f) == {b};
      FreedStep(DecodeAll(m0), old(paths), u, old(f), files, f);
      if old(Neat()) {
        FewerTight(old(paths), files, {b});
      }
    }

    /** The data blocks of the file with this entry. */
    ghost function ChainOf(i: nat): seq<nat>
      requires i < |f|
      reads this`f, this`paths
    {
      if f[i].bno in paths then paths[f[i].bno] else []
    }

    /** tinyfswalk to a file: the first entry of the name gets a reference, or there is none. */
    method WalkTo(name: seq<byte>) returns (i: int)
      requires Valid() && name != []
      modifies this`f
      ensures Valid() && Stored() == old(Stored()) && (old(Neat()) ==> Neat())
      ensures i == -1 ==> f == old(f) && forall k :: 0 <= k < |f| ==> f[k].name != name
      ensures i != -1 ==> 0 <= i < |f| == |old(f)| && old(f)[i].name == name && f[i].r == old(f)[i].r + 1
      ensures i != -1 ==> Visited(State(old(f), old(Stored())), State(f, Stored()), i)
      ensures forall k :: 0 <= k < i ==> f[k].name != name
    {
      hide Valid, Neat;
      i := 0;
      while i < |f|
        invariant 0 <= i <= |f| && forall k :: 0 <= k < i ==> f[k].name != name
      {
        if f[i].name == name {
          SetFlags(i, f[i].r + 1, f[i].creating, f[i].rmonclose);
          return;
        }
        i := i + 1;
      }
      i := -1;
    }

    /** References and flags are set without touching the medium. */
    method SetFlags(i: nat, r: int, creating: bool, rmonclose: bool)
      requires Valid() && i < |f|
      modifies this`f
      ensures Valid() && f == old(f)[i := old(f[i]).(r := r, creating := creating, rmonclose := rmonclose)]
        && Stored() == old(Stored())
      ensures old(Neat()) ==> Neat()
    {
      hide Linked, Covers, Used, DecodeAll, Files;
      var e := f[i].(r := r, creating := creating, rmonclose := rmonclose);
      FlagsOk(View(), paths, Marked(), f, i, e);
      f := f[i := e];
    }

    /** r-- */
    method LoseReference(i: nat)
      requires Valid() && i < |f|
      modifies this`f
      ensures Valid() && f == old(f)[i := old(f[i]).(r := old(f[i]).r - 1)] && Stored() == old(Stored())
      ensures old(Neat()) ==> Neat()
    {
      hide *;
      SetFlags(i, f[i].r - 1, f[i].creating, f[i].rmonclose);
    }

    /**
      tinyfsopen with truncation: a new file of the same name, with one reference taken from the old
      one; the old one stays on the medium until the new one is closed.
     */
    method Reopen(i: nat, pin: nat) returns (ok: bool, j: nat)
      requires Valid() && i < |f| && f[i].name != [] && pin <= 0xffff
      modifies this`f, medium, bits
      ensures Valid() && Stored() == old(Stored()) && bits == old(bits) && (old(Neat()) ==> Neat())
      ensures ok ==> Reopened(old(f), f, i, j, pin) && f[j].bno !in old(Marked())
      ensures !ok ==> i < |f| && f[i] == old(f)[i] && forall b :: 0 <= b < medium.Length ==> b in Marked()
    {
      NamedHasNoNul(i);
      hide *;
      ghost var f0 := f;
      ok, j := NewFile(f[i].name, pin);
      ghost var f1 := f;
      if !ok {
        NamedStays(f0, f1, i, j);
        return;
      }
      LoseReference(i);
      ReopenedIs(f0, f1, f, i, j, pin);
    }

    lemma NamedHasNoNul(i: nat)
      requires Valid() && i < |f| && f[i].name != []
      ensures 0 !in f[i].name
    {
      hide Linked, Covers, Used, DecodeAll, Files;
      assert EntryOk(View(), paths, Marked(), f[i]);
    }

    /** One turn of the loop of tinyfsclose over the table. */
    method Supersede(i: nat, j: nat)
      requires Valid() && i < |f| && j < |f| && f[i].name != []
      modifies this`f, this`paths, medium, bits
      ensures Valid() && bits == old(bits)
      ensures f == if i == j then old(f) else old(f)[j := Superseded(old(f)[i].name, old(f)[j])]
      ensures Stored() == if i != j && old(f)[j].name == old(f)[i].name && old(f)[j].r == 0 then
        old(Stored()) - {old(f)[j].bno} else old(Stored())
      ensures old(Neat()) ==> Neat()
    {
      if i != j && f[j].name == f[i].name {
        if f[j].r != 0 {
          SetFlags(j, f[j].r, f[j].creating, true);
        } else {
          Remove(j);
        }
      }
    }

    /** The loop of tinyfsclose over the table. */
    method SupersedeAll(i: nat)
      requires Valid() && i < |f| && f[i].name != []
      modifies this`f, this`paths, medium, bits
      ensures Valid() && bits == old(bits)
      ensures f == SweptTable(old(f), i, |old(f)|) && Stored() == SweptFiles(old(f), i, |old(f)|, old(Stored()))
      ensures old(Neat()) ==> Neat()
    {
      hide *;
      ghost var f0, stored := f, Stored();
      SweepStep(f0, i, i, stored);
      var j := 0;
      while j < |f|
        invariant 0 <= j <= |f0| && Valid() && bits == old(bits)
        invariant f == SweptTable(f0, i, j) && Stored() == SweptFiles(f0, i, j, stored)
        invariant old(Neat()) ==> Neat()
        decreases |f0| - j
      {
        SweepStep(f0, i, j, stored);
        Supersede(i, j);
        j := j + 1;
      }
      assert j == |f0|;
    }

    /**
      tinyfsclose for a file: the last close of a file marked for it removes the file; the last close
      of a file that was being created makes it the only one of its name, except for those still open,
      which will go when they are closed.
     */
    method Close(i: nat)
      requires Valid() && i < |f| && f[i].name != [] && f[i].r >= 1
      modifies this`f, this`paths, medium, bits
      ensures Valid() && (old(Neat()) ==> Neat())
      ensures Closed(old(f), old(Stored()), f, Stored(), i)
      ensures old(f[i]).r > 1 || !(old(f[i]).rmonclose || old(f[i]).creating) ==>
        medium[..] == old(medium[..]) && Marked() == old(Marked())
      ensures old(f[i]).r == 1 && old(f[i]).rmonclose ==> f[i] == BLANK && Stored() == old(Stored()) - {old(f[i]).bno}
    {
      hide Valid;
      LoseReference(i);
      if f[i].r == 0 {
        if f[i].rmonclose {
          Remove(i);
        } else if f[i].creating {
          ghost var f1, stored := f, Stored();
          SupersedeAll(i);
          SweptFilesIs(f1, i, |f1|, stored);
          SameGone(old(f), f1, i, |f|);
          SetFlags(i, 0, false, f[i].rmonclose);
        }
      }
    }
  }
}
