/**
  Runs of operations on the tiny file system: what each entry of the file table holds over a row of
  creations, appends, truncations, removals and closes.
 */
module TinyRun {
  import opened Bytes
  import opened Seqs
  import opened TinyBlocks
  import opened TinyMap
  import opened TinyChain
  import opened TinyScan
  import opened TinyTable
  import opened TinyWrite

  /** A file as its table entry shows it. */
  datatype Slot = Slot(name: seq<byte>, text: seq<byte>)

  const NOFILE := Slot([], [])

  ghost function SlotAt(f: seq<Tfile>, files: map<nat, File>, k: nat): Slot {
    if k >= |f| || f[k].name == [] then NOFILE
    else Slot(f[k].name, if f[k].bno in files then files[f[k].bno].text else [])
  }

  /** What operations do to the table: newfile, and tinyfsopen with truncation; an append; entries given up. */
  datatype Event =
    | Made(slot: nat, name: seq<byte>)
    | Added(slot: nat, data: seq<byte>)
    | Freed(slots: set<nat>)

  ghost function Next(s: Slot, k: nat, e: Event): Slot {
    match e
    case Made(i, name) => if k == i then Slot(name, []) else s
    case Added(i, data) => if k == i then s.(text := s.text + data) else s
    case Freed(gone) => if k in gone then NOFILE else s
  }

  ghost predicate Step(f: seq<Tfile>, files: map<nat, File>, f': seq<Tfile>, files': map<nat, File>, e: Event) {
    forall k: nat {:trigger SlotAt(f', files', k)} :: SlotAt(f', files', k) == Next(SlotAt(f, files, k), k, e)
  }

  datatype State = State(f: seq<Tfile>, files: map<nat, File>)

  ghost predicate Run(r: seq<State>, es: seq<Event>) {
    && |r| == |es| + 1
    && forall j {:trigger es[j]} :: 0 <= j < |es| ==> Step(r[j].f, r[j].files, r[j + 1].f, r[j + 1].files, es[j])
  }

  /** The bytes appended to entry k, in order. */
  ghost function Appends(es: seq<Event>, k: nat): seq<byte> {
    if |es| == 0 then []
    else
      var e := es[|es| - 1];
      Appends(es[..|es| - 1], k) + if e.Added? && e.slot == k then e.data else []
  }

  /** Entry k is neither made anew nor given up. */
  ghost predicate Stays(es: seq<Event>, k: nat) {
    forall j {:trigger es[j]} :: 0 <= j < |es| ==>
      (es[j].Made? ==> es[j].slot != k) && (es[j].Freed? ==> k !in es[j].slots)
  }

  lemma RunPrefix(r: seq<State>, es: seq<Event>)
    requires Run(r, es) && |es| > 0
    ensures Run(r[..|es|], es[..|es| - 1])
  {
    var q, t := r[..|es|], es[..|es| - 1];
    forall j {:trigger t[j]} | 0 <= j < |t|
      ensures Step(q[j].f, q[j].files, q[j + 1].f, q[j + 1].files, t[j])
    {
      assert t[j] == es[j];
    }
  }

  lemma StaysPrefix(es: seq<Event>, k: nat)
    requires Stays(es, k) && |es| > 0
    ensures Stays(es[..|es| - 1], k)
  {
    var t := es[..|es| - 1];
    forall j {:trigger t[j]} | 0 <= j < |t|
      ensures (t[j].Made? ==> t[j].slot != k) && (t[j].Freed? ==> k !in t[j].slots)
    {
      assert t[j] == es[j];
    }
  }

  /**
    Over every run a file holds exactly the bytes appended since its entry was last made, by a
    creation or a truncation, in the order of the appends and whatever happens to other files.
   */
  lemma {:induction false} BytesSinceMade(r: seq<State>, es: seq<Event>, j: nat, k: nat)
    requires Run(r, es) && j < |es| && es[j].Made? && es[j].slot == k && Stays(es[j + 1..], k)
    ensures SlotAt(r[|es|].f, r[|es|].files, k) == Slot(es[j].name, Appends(es[j + 1..], k))
    decreases |es|
  {
    var n := |es| - 1;
    var s, s' := r[n], r[n + 1];
    assert Step(s.f, s.files, s'.f, s'.files, es[n]);
    if j < n {
      var t := es[j + 1..];
      assert es[..n][j + 1..] == t[..|t| - 1];
      assert t[|t| - 1] == es[n];
      RunPrefix(r, es);
      StaysPrefix(t, k);
      BytesSinceMade(r[..n + 1], es[..n], j, k);
    } else {
      assert es[j + 1..] == [];
    }
  }

  /** An entry that has been given up and not made again stays free. */
  lemma {:induction false} GoneStaysGone(r: seq<State>, es: seq<Event>, j: nat, k: nat)
    requires Run(r, es) && j < |es| && es[j].Freed? && k in es[j].slots
    requires forall i {:trigger es[i]} :: j < i < |es| ==> (es[i].Made? || es[i].Added?) ==> es[i].slot != k
    ensures SlotAt(r[|es|].f, r[|es|].files, k) == NOFILE
    decreases |es|
  {
    var n := |es| - 1;
    var s, s' := r[n], r[n + 1];
    assert Step(s.f, s.files, s'.f, s'.files, es[n]);
    if j < n {
      RunPrefix(r, es);
      GoneStaysGone(r[..n + 1], es[..n], j, k);
    }
  }

  /** The blocks taken for the bytes from `last` to `end`. */
  ghost predicate Counted(q: nat, last: int, end: int) {
    if q == 0 then last == end else last % DLEN == 0 && DLEN * (q - 1) < end - last <= DLEN * q
  }

  /**
    Files in no more blocks than they need, which is that none ends in an empty block; a file without bytes has one.
   */
  ghost predicate Tight(paths: map<nat, seq<nat>>, files: map<nat, File>) {
    forall b {:trigger paths[b]} :: b in paths && b in files && |paths[b]| > 1 ==>
      |files[b].text| > DLEN * (|paths[b]| - 1)
  }

  lemma TightMeans(D: Medium, paths: map<nat, seq<nat>>)
    requires Linked(D, paths)
    ensures Tight(paths, Files(D, paths)) <==> forall b :: b in paths ==> !EmptyEnd(D, paths, b)
  {
    hide Text;
    forall b | b in paths
      ensures !EmptyEnd(D, paths, b) <==> (|paths[b]| > 1 ==> |Files(D, paths)[b].text| > DLEN * (|paths[b]| - 1))
    {
      TextLength(D, D[b].head, paths[b]);
    }
  }

  lemma GrowTight(k: nat, q: nat, offset: nat, last: int, n: nat)
    requires n > 0 && offset <= last < offset + DLEN && (last == offset || (last - 1) / DLEN * DLEN < offset)
    requires k >= 1 && 0 < offset <= DLEN * k && (k > 1 ==> offset > DLEN * (k - 1)) && Counted(q, last, offset + n)
    ensures k + q > 1 ==> offset + n > DLEN * (k + q - 1)
  {
  }

  /** An append keeps the files tight. */
  lemma AppendTight(D: Medium, paths: map<nat, seq<nat>>, b: nat, q: seq<nat>, file: File, offset: nat, last: int,
      n: nat)
    requires Linked(D, paths) && Tight(paths, Files(D, paths)) && n > 0 && |file.text| == offset + n
    requires offset > 0 ==> b in paths && |Files(D, paths)[b].text| == offset
    requires offset <= last < offset + DLEN && (last == offset || (last - 1) / DLEN * DLEN < offset)
    requires Counted(|q|, last, offset + n) && (offset == 0 ==> last == 0)
    ensures Tight(paths[b := if offset == 0 then q else paths[b] + q], Files(D, paths)[b := file])
  {
    hide Text;
    if offset > 0 {
      TextLength(D, D[b].head, paths[b]);
      GrowTight(|paths[b]|, |q|, offset, last, n);
    }
  }

  /** An append changes the bytes of its own entry and of no other. */
  lemma AppendStep(D: Medium, paths: map<nat, seq<nat>>, u: set<nat>, f: seq<Tfile>, i: nat, e: Tfile,
      files: map<nat, File>, file: File, data: seq<byte>)
    requires TableOk(D, paths, u, f) && i < |f| && f[i].name != [] && e.name == f[i].name && e.bno == f[i].bno
    requires file.text == (if f[i].bno in files then files[f[i].bno].text else []) + data
    ensures Step(f, files, f[i := e], files[f[i].bno := file], Added(i, data))
  {
    hide EntryOk;
  }

  /** What an append leaves: the files tight, and the bytes of its own entry longer by its data. */
  lemma Appended(m0: seq<Block>, m: seq<Block>, paths: map<nat, seq<nat>>, paths': map<nat, seq<nat>>,
      files: map<nat, File>, u: set<nat>, f: seq<Tfile>, i: nat, e: Tfile, q: seq<nat>, last: int, file: File,
      data: seq<byte>)
    requires Holds(m0, paths, files) && TableOk(DecodeAll(m0), paths, u, f) && i < |f| && f[i].name != []
    requires Tight(paths, files) && e.name == f[i].name && e.bno == f[i].bno && |data| > 0
    requires file.text == (if f[i].bno in files then files[f[i].bno].text else []) + data
    requires var offset := f[i].length;
      && offset <= last < offset + DLEN && (last == offset || (last - 1) / DLEN * DLEN < offset)
      && Counted(|q|, last, offset + |data|) && (offset == 0 ==> last == 0) && (offset > 0 ==> f[i].bno in paths)
      && paths' == paths[f[i].bno := if offset == 0 then q else paths[f[i].bno] + q]
    requires Holds(m, paths', files[f[i].bno := file])
    ensures Linked(DecodeAll(m), paths') && Tight(paths', Files(DecodeAll(m), paths'))
    ensures Step(f, files, f[i := e], Files(DecodeAll(m), paths'), Added(i, data))
  {
    hide DecodeAll, TableOk, Text, Files, Linked, Step, Tight;
    EntryPlace(m0, paths, files, u, f, i);
    FileLength(m0, paths, files, u, f, i);
    AppendTight(DecodeAll(m0), paths, f[i].bno, q, file, f[i].length, last, |data|);
    AppendStep(DecodeAll(m0), paths, u, f, i, e, files, file, data);
  }

  /** Tight files do not end in an empty block. */
  lemma TightEnd(D: Medium, paths: map<nat, seq<nat>>, b: nat)
    requires Linked(D, paths) && Tight(paths, Files(D, paths))
    ensures !EmptyEnd(D, paths, b)
  {
    TightMeans(D, paths);
  }

  /** A new entry where there was none, or none after all. */
  lemma MadeStep(f: seq<Tfile>, files: map<nat, File>, f': seq<Tfile>, i: nat)
    requires i < |f'| && (f'[i].name != [] ==> f'[i].bno !in files)
    requires if i < |f| then f[i].name == [] && f' == f[i := f'[i]] else i == |f| && f' == f + [f'[i]]
    ensures Step(f, files, f', files, if f'[i].name == [] then Freed({}) else Made(i, f'[i].name))
  {
  }

  /** A truncation: entry j is new, without data, with the name of entry i, which has one reference less. */
  ghost predicate Reopened(f: seq<Tfile>, f': seq<Tfile>, i: nat, j: nat, pin: nat) {
    && i < |f| <= |f'| && j < |f'| && f'[i] == f[i].(r := f[i].r - 1)
    && f'[j] == Tfile(1, Cut(f[i].name), f'[j].bno, NOTABNO, pin, true, false, 0)
    && if j < |f| then f[j].name == [] && f' == f[i := f'[i]][j := f'[j]] else f' == f[i := f'[i]] + [f'[j]]
  }

  lemma NamedStays(f: seq<Tfile>, f': seq<Tfile>, i: nat, j: nat)
    requires i < |f| && f[i].name != []
    requires f' == f + [BLANK] || (j < |f| && f[j].name == [] && f' == f[j := BLANK])
    ensures i < |f'| && f'[i] == f[i]
  {
  }

  lemma ReopenedIs(f: seq<Tfile>, f': seq<Tfile>, f'': seq<Tfile>, i: nat, j: nat, pin: nat)
    requires i < |f| && f[i].name != [] && j < |f'|
      && f'[j] == Tfile(1, Cut(f[i].name), f'[j].bno, NOTABNO, pin, true, false, 0)
    requires if j < |f| then f[j].name == [] && f' == f[j := f'[j]] else f' == f + [f'[j]]
    requires i < |f'| && f'' == f'[i := f'[i].(r := f'[i].r - 1)]
    ensures Reopened(f, f'', i, j, pin) && f''[j] == f'[j]
  {
  }

  lemma ReopenStep(f: seq<Tfile>, files: map<nat, File>, f': seq<Tfile>, i: nat, j: nat, pin: nat)
    requires Reopened(f, f', i, j, pin) && f[i].name != [] && f'[j].bno !in files
    ensures Step(f, files, f', files, Made(j, Cut(f[i].name)))
    ensures f'[i] == f[i].(r := f[i].r - 1) && f'[j].name == Cut(f[i].name) && f'[j].length == 0
    ensures f'[j].r == 1 && f'[j].creating && !f'[j].rmonclose && (j < |f| ==> f[j].name == [])
    ensures forall k :: 0 <= k < |f| && k != i && k != j ==> f'[k] == f[k]
  {
  }

  /** The directory blocks of the entries that are cleared. */
  ghost function Dropped(f: seq<Tfile>, f': seq<Tfile>): set<nat>
    requires |f'| == |f|
  {
    set j: nat | j < |f| && f[j].name != [] && f'[j].name == [] :: f[j].bno
  }

  /** The free entries of a table. */
  ghost function Emptied(f: seq<Tfile>): set<nat> {
    set j: nat | j < |f| && f[j].name == []
  }

  /** Entries are cleared, and their files with them: the other entries keep theirs. */
  lemma FreedStep(D: Medium, paths: map<nat, seq<nat>>, u: set<nat>, f: seq<Tfile>, files: map<nat, File>,
      f': seq<Tfile>)
    requires TableOk(D, paths, u, f) && |f'| == |f|
    requires forall k: nat :: k < |f| ==> f'[k].name == [] || (f'[k].name == f[k].name && f'[k].bno == f[k].bno)
    ensures Step(f, files, f', files - Dropped(f, f'), Freed(Emptied(f')))
  {
    hide EntryOk;
    var files' := files - Dropped(f, f');
    forall k: nat
      ensures SlotAt(f', files', k) == Next(SlotAt(f, files, k), k, Freed(Emptied(f')))
    {
      if k < |f| && f'[k].name != [] {
        assert f[k].bno !in Dropped(f, f');
      }
    }
  }

  /** What tinyfsclose does to the table and the files, given the entry that is closed. */
  ghost predicate Closed(f: seq<Tfile>, files: map<nat, File>, f': seq<Tfile>, files': map<nat, File>, i: nat)
    requires i < |f|
  {
    var e := f[i];
    && |f'| == |f|
    && (e.r > 1 ==> f' == f[i := e.(r := e.r - 1)] && files' == files)
    && (e.r == 1 && e.rmonclose ==> f' == f[i := BLANK] && files' == files - {e.bno})
    && (e.r == 1 && !e.rmonclose ==> f'[i] == e.(r := 0, creating := false))
    && (e.r == 1 && !e.rmonclose && e.creating ==>
      && (forall j :: 0 <= j < |f| && j != i ==> f'[j] == Superseded(e.name, f[j]))
      && files' == files - Gone(f, i, |f|))
    && (e.r == 1 && !e.rmonclose && !e.creating ==>
      files' == files && forall j :: 0 <= j < |f| && j != i ==> f'[j] == f[j])
  }

  /** One reference to entry i more, or one less by a close. */
  ghost predicate Visited(s: State, s': State, i: nat) {
    && i < |s.f| && s.f[i].name != []
    && (s' == s.(f := s.f[i := s.f[i].(r := s.f[i].r + 1)])
        || (s.f[i].r >= 1 && Closed(s.f, s.files, s'.f, s'.files, i)))
  }

  /** Walks to files and closes of them, and nothing else. */
  ghost predicate Visits(r: seq<State>, at: seq<nat>) {
    |r| == |at| + 1 && forall j {:trigger at[j]} :: 0 <= j < |at| ==> Visited(r[j], r[j + 1], at[j])
  }

  /** Files without flags, as after tfsinit, are only looked at: every file stays, with its name and its bytes. */
  lemma {:induction false} VisitsKeep(r: seq<State>, at: seq<nat>)
    requires Visits(r, at) && forall i :: 0 <= i < |r[0].f| ==> !r[0].f[i].creating && !r[0].f[i].rmonclose
    ensures r[|at|].files == r[0].files && |r[|at|].f| == |r[0].f|
    ensures forall i :: 0 <= i < |r[0].f| ==> r[|at|].f[i] == r[0].f[i].(r := r[|at|].f[i].r)
    decreases |at|
  {
    if |at| > 0 {
      var n := |at| - 1;
      assert forall j {:trigger at[..n][j]} :: 0 <= j < n ==> at[..n][j] == at[j];
      VisitsKeep(r[..n + 1], at[..n]);
      assert Visited(r[n], r[n + 1], at[n]);
    }
  }

  /**
    After the last close of a file that was being created no other file of its name stays: those nobody has open are
    gone from the table and the medium, and those still open go when they are closed. Files of other names stay.
   */
  lemma NewestWins(f: seq<Tfile>, files: map<nat, File>, f': seq<Tfile>, files': map<nat, File>, i: nat, j: nat)
    requires i < |f| && f[i].r == 1 && f[i].creating && !f[i].rmonclose && Closed(f, files, f', files', i)
    requires j < |f| && j != i
    ensures f'[j] == if f[j].name != f[i].name then f[j] else if f[j].r == 0 then BLANK else f[j].(rmonclose := true)
    ensures f[j].name == f[i].name && f[j].r == 0 ==> f[j].bno !in files'
    ensures f'[i] == f[i].(r := 0, creating := false)
    ensures forall b :: b in files && (forall k :: 0 <= k < |f| ==> f[k].bno == b ==> f[k].name != f[i].name) ==>
      b in files' && files'[b] == files[b]
  {
  }

  /** What closing gives up is what it clears. */
  lemma ClosedDrops(f: seq<Tfile>, files: map<nat, File>, f': seq<Tfile>, files': map<nat, File>, i: nat)
    requires i < |f| && f[i].name != [] && f[i].r >= 1 && Closed(f, files, f', files', i)
    ensures files' == files - Dropped(f, f')
  {
    var e := f[i];
    if e.r > 1 || (!e.rmonclose && !e.creating) {
      assert Dropped(f, f') == {};
      assert files - {} == files;
    } else if e.rmonclose {
      assert Dropped(f, f') == {e.bno};
    } else {
      assert Gone(f, i, |f|) == Dropped(f, f');
    }
  }

  /** A close changes no file but those it gives up. */
  lemma CloseStep(D: Medium, paths: map<nat, seq<nat>>, u: set<nat>, f: seq<Tfile>, files: map<nat, File>,
      f': seq<Tfile>, files': map<nat, File>, i: nat)
    requires TableOk(D, paths, u, f) && i < |f| && f[i].name != [] && f[i].r >= 1 && Closed(f, files, f', files', i)
    ensures Step(f, files, f', files', Freed(Emptied(f')))
  {
    ClosedDrops(f, files, f', files', i);
    FreedStep(D, paths, u, f, files, f');
  }

  /** Dropping files keeps the others tight. */
  lemma FewerTight(paths: map<nat, seq<nat>>, files: map<nat, File>, gone: set<nat>)
    requires Tight(paths, files)
    ensures Tight(paths - gone, files - gone)
  {
    forall b | b in paths - gone && b in files - gone && |(paths - gone)[b]| > 1
      ensures |(files - gone)[b].text| > DLEN * (|(paths - gone)[b]| - 1)
    {
      assert (paths - gone)[b] == paths[b];
    }
  }
}
