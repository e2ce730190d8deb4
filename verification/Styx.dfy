/**
  The wire form of the Styx messages (emu/styx.c): which fields each type carries, what they are
  encoded to, and what decoding gets back.
 */
module Styx {
  import opened Bytes
  import opened Seqs

  const NAMELEN := 28
  const ERRLEN := 64
  const DIRLEN := 116

  const Tnop := 0
  const Rnop := 1
  const Rerror := 3
  const Tflush := 4
  const Rflush := 5
  const Tclone := 6
  const Rclone := 7
  const Twalk := 8
  const Rwalk := 9
  const Topen := 10
  const Ropen := 11
  const Tcreate := 12
  const Rcreate := 13
  const Tread := 14
  const Rread := 15
  const Twrite := 16
  const Rwrite := 17
  const Tclunk := 18
  const Rclunk := 19
  const Tremove := 20
  const Rremove := 21
  const Tstat := 22
  const Rstat := 23
  const Twstat := 24
  const Rwstat := 25
  const Tattach := 28
  const Rattach := 29
  const Tmax := 30

  /** A message. fid, newfid are C shorts, perm, offset, count longs, the qid unsigned longs. */
  datatype Fcall = Fcall(kind: int, tag: int, oldtag: int, fid: int, newfid: int, path: int, vers: int, perm: int,
      mode: int,
                         offset: int, count: int, uname: seq<byte>, aname: seq<byte>, ename: seq<byte>, name: seq<byte>,
                         stat: seq<byte>, data: seq<byte>)

  datatype Field =
    | OldTag | Fid | NewFid | Path | Vers | Perm | Mode | Offset | Count | Uname | Aname | Ename | Name | Stat | Data

  /** The fields behind type and tag, in order. */
  function Fields(kind: int): seq<Field> {
    if kind == Tnop || kind == Rnop || kind == Rflush then []
    else if kind == Tflush then [OldTag]
    else if kind == Tattach then [Fid, Uname, Aname]
    else if kind == Tclone then [Fid, NewFid]
    else if kind == Twalk then [Fid, Name]
    else if kind == Topen then [Fid, Mode]
    else if kind == Tcreate then [Fid, Name, Perm, Mode]
    else if kind == Tread then [Fid, Offset, Count]
    else if kind == Twrite then [Fid, Offset, Count, Data]
    else if kind == Tclunk || kind == Tremove || kind == Tstat then [Fid]
    else if kind == Rclone || kind == Rclunk || kind == Rremove || kind == Rwstat then [Fid]
    else if kind == Twstat || kind == Rstat then [Fid, Stat]
    else if kind == Rerror then [Ename]
    else if kind == Rattach || kind == Rwalk || kind == Ropen || kind == Rcreate then [Fid, Path, Vers]
    else if kind == Rread then [Fid, Count, Data]
    else if kind == Rwrite then [Fid, Count]
    else []
  }

  /** Types with a wire form. */
  predicate Known(kind: int) {
    0 <= kind < Tmax && kind != 2 && kind != 26 && kind != 27
  }

  /** msglen of a known type: its length, but for data. */
  function MsgLen(kind: int): nat {
    3 + FixedLen(Fields(kind))
  }

  function FieldLen(x: Field): nat {
    match x
    case OldTag | Fid | NewFid | Count => 2
    case Path | Vers | Perm => 4
    case Offset => 8
    case Mode => 1
    case Uname | Aname | Name => NAMELEN
    case Ename => ERRLEN
    case Stat => DIRLEN
    case Data => 1
  }

  function FixedLen(l: seq<Field>): nat {
    if |l| == 0 then 0 else FieldLen(l[0]) + FixedLen(l[1..])
  }

  /** A C short, long from its bits. */
  function Signed(v: int, m: int): int {
    if v >= m then v - 2 * m else v
  }

  /** A string field has a fixed length; the byte before data is padding. */
  function Put(f: Fcall, x: Field, pad: byte): seq<byte> {
    match x
    case OldTag => Le(f.oldtag, 2)
    case Fid => Le(f.fid, 2)
    case NewFid => Le(f.newfid, 2)
    case Path => Le(f.path, 4)
    case Vers => Le(f.vers, 4)
    case Perm => Le(f.perm, 4)
    case Mode => Le(f.mode, 1)
    case Offset => Le(f.offset, 4) + [0, 0, 0, 0]
    case Count => Le(f.count, 2)
    case Uname => f.uname
    case Aname => f.aname
    case Ename => f.ename
    case Name => f.name
    case Stat => f.stat
    case Data => [pad] + if 0 <= f.count <= |f.data| then f.data[..f.count] else []
  }

  function PutAll(f: Fcall, l: seq<Field>, pad: byte): seq<byte> {
    if |l| == 0 then [] else Put(f, l[0], pad) + PutAll(f, l[1..], pad)
  }

  /** convS2M */
  function Encode(f: Fcall, pad: byte): seq<byte> {
    [f.kind % 256] + Le(f.tag, 2) + PutAll(f, Fields(f.kind), pad)
  }

  lemma PutFirst(f: Fcall, a: Field, l: seq<Field>, pad: byte)
    ensures PutAll(f, [], pad) == [] && PutAll(f, [a] + l, pad) == Put(f, a, pad) + PutAll(f, l, pad)
  {
    assert ([a] + l)[1..] == l;
  }

  lemma Puts(f: Fcall, a: Field, b: Field, c: Field, d: Field, pad: byte)
    ensures PutAll(f, [], pad) == [] && PutAll(f, [a], pad) == Put(f, a, pad)
    ensures PutAll(f, [a, b], pad) == Put(f, a, pad) + Put(f, b, pad)
    ensures PutAll(f, [a, b, c], pad) == Put(f, a, pad) + Put(f, b, pad) + Put(f, c, pad)
    ensures PutAll(f, [a, b, c, d], pad) == Put(f, a, pad) + Put(f, b, pad) + Put(f, c, pad) + Put(f, d, pad)
  {
    hide Put, PutAll;
    PutFirst(f, a, [], pad);
    PutFirst(f, b, [], pad);
    PutFirst(f, c, [], pad);
    PutFirst(f, d, [], pad);
    PutFirst(f, a, [b], pad);
    PutFirst(f, b, [c], pad);
    PutFirst(f, c, [d], pad);
    PutFirst(f, a, [b, c], pad);
    PutFirst(f, b, [c, d], pad);
    PutFirst(f, a, [b, c, d], pad);
    assert [a] + [] == [a] && [b] + [] == [b] && [c] + [] == [c] && [d] + [] == [d];
    assert [a] + [b] == [a, b] && [b] + [c] == [b, c] && [c] + [d] == [c, d];
    assert [a] + [b, c] == [a, b, c] && [b] + [c, d] == [b, c, d] && [a] + [b, c, d] == [a, b, c, d];
    var x, y, z, w := Put(f, a, pad), Put(f, b, pad), Put(f, c, pad), Put(f, d, pad);
    Assoc(x, y, z);
    Assoc(x + y, z, w);
    Assoc(x, y, z + w);
  }

  /** The bytes of every message that is sent, in order: the numbers of the types, the places of the fields. */
  lemma TWireForm(f: Fcall, pad: byte)
    requires Known(f.kind) && (f.kind % 2 == 0)
    ensures var h := [f.kind] + Le(f.tag, 2);
      Encode(f, pad) == h + match f.kind
        case 0 => []
        case 4 => Le(f.oldtag, 2)
        case 6 => Le(f.fid, 2) + Le(f.newfid, 2)
        case 8 => Le(f.fid, 2) + f.name
        case 10 => Le(f.fid, 2) + Le(f.mode, 1)
        case 12 => Le(f.fid, 2) + f.name + Le(f.perm, 4) + Le(f.mode, 1)
        case 14 => Le(f.fid, 2) + (Le(f.offset, 4) + [0, 0, 0, 0]) + Le(f.count, 2)
        case 16 => Le(f.fid, 2) + (Le(f.offset, 4) + [0, 0, 0, 0]) + Le(f.count, 2)
          + ([pad] + if 0 <= f.count <= |f.data| then f.data[..f.count] else [])
        case 18 => Le(f.fid, 2)
        case 20 => Le(f.fid, 2)
        case 22 => Le(f.fid, 2)
        case 24 => Le(f.fid, 2) + f.stat
        case _ => Le(f.fid, 2) + f.uname + f.aname
  {
    Puts(f, Fid, NewFid, OldTag, OldTag, pad);
    Puts(f, OldTag, OldTag, OldTag, OldTag, pad);
    Puts(f, Fid, Name, Perm, Mode, pad);
    Puts(f, Fid, Mode, OldTag, OldTag, pad);
    Puts(f, Fid, Offset, Count, Data, pad);
    Puts(f, Fid, Stat, OldTag, OldTag, pad);
    Puts(f, Fid, Uname, Aname, OldTag, pad);
    hide Le, PutAll;
  }

  /** And of every reply. */
  lemma RWireForm(f: Fcall, pad: byte)
    requires Known(f.kind) && (f.kind % 2 == 1)
    ensures var h := [f.kind] + Le(f.tag, 2);
      Encode(f, pad) == h + match f.kind
        case 1 => []
        case 3 => f.ename
        case 5 => []
        case 7 => Le(f.fid, 2)
        case 15 => Le(f.fid, 2) + Le(f.count, 2)
          + ([pad] + if 0 <= f.count <= |f.data| then f.data[..f.count] else [])
        case 17 => Le(f.fid, 2) + Le(f.count, 2)
        case 19 => Le(f.fid, 2)
        case 21 => Le(f.fid, 2)
        case 23 => Le(f.fid, 2) + f.stat
        case 25 => Le(f.fid, 2)
        case _ => Le(f.fid, 2) + Le(f.path, 4) + Le(f.vers, 4)
  {
    Puts(f, Ename, Fid, Fid, Fid, pad);
    Puts(f, Fid, Count, Data, Fid, pad);
    Puts(f, Fid, Stat, Fid, Fid, pad);
    Puts(f, Fid, Path, Vers, Fid, pad);
    hide Le, PutAll;
  }

  lemma FixedFirst(a: Field, l: seq<Field>)
    ensures FixedLen([]) == 0 && FixedLen([a] + l) == FieldLen(a) + FixedLen(l)
  {
    assert ([a] + l)[1..] == l;
  }

  lemma FixedLens(a: Field, b: Field, c: Field, d: Field)
    ensures FixedLen([]) == 0 && FixedLen([a]) == FieldLen(a) && FixedLen([a, b]) == FieldLen(a) + FieldLen(b)
    ensures FixedLen([a, b, c]) == FieldLen(a) + FieldLen(b) + FieldLen(c)
    ensures FixedLen([a, b, c, d]) == FieldLen(a) + FieldLen(b) + FieldLen(c) + FieldLen(d)
  {
    hide FieldLen, FixedLen;
    FixedFirst(a, []);
    FixedFirst(b, []);
    FixedFirst(c, []);
    FixedFirst(d, []);
    FixedFirst(a, [b]);
    FixedFirst(b, [c]);
    FixedFirst(c, [d]);
    FixedFirst(a, [b, c]);
    FixedFirst(b, [c, d]);
    FixedFirst(a, [b, c, d]);
    assert [a] + [] == [a] && [b] + [] == [b] && [c] + [] == [c] && [d] + [] == [d];
    assert [a] + [b] == [a, b] && [b] + [c] == [b, c] && [c] + [d] == [c, d];
    assert [a] + [b, c] == [a, b, c] && [b] + [c, d] == [b, c, d] && [a] + [b, c, d] == [a, b, c, d];
  }

  /** The table msglen of the types. */
  lemma LengthTable(kind: int)
    requires Known(kind)
    ensures MsgLen(kind) == [3, 3, 0, 67, 5, 3, 7, 5, 33, 13, 6, 13, 38, 13, 15, 8, 16, 7, 5, 5, 5, 5, 5, 121, 121, 5,
      0, 0, 61, 13][kind]
  {
    FixedLens(Fid, NewFid, Fid, Fid);
    FixedLens(OldTag, Fid, Fid, Fid);
    FixedLens(Ename, Fid, Fid, Fid);
    FixedLens(Fid, Name, Perm, Mode);
    FixedLens(Fid, Mode, Fid, Fid);
    FixedLens(Fid, Offset, Count, Data);
    FixedLens(Fid, Count, Data, Fid);
    FixedLens(Fid, Stat, Fid, Fid);
    FixedLens(Fid, Path, Vers, Fid);
    FixedLens(Fid, Uname, Aname, Fid);
    hide FixedLen;
  }

  /** One field from the front of s, which is long enough. */
  function Get(f: Fcall, x: Field, s: seq<byte>): Fcall
    requires |s| >= FieldLen(x) && (x.Data? ==> 0 <= f.count && |s| >= 1 + f.count)
  {
    match x
    case OldTag => f.(oldtag := FromLe(s[..2]))
    case Fid => f.(fid := Signed(FromLe(s[..2]), 0x8000))
    case NewFid => f.(newfid := Signed(FromLe(s[..2]), 0x8000))
    case Path => f.(path := FromLe(s[..4]))
    case Vers => f.(vers := FromLe(s[..4]))
    case Perm => f.(perm := Signed(FromLe(s[..4]), 0x8000_0000))
    case Mode => f.(mode := s[0])
    case Offset => f.(offset := Signed(FromLe(s[..4]), 0x8000_0000))
    case Count => f.(count := FromLe(s[..2]))
    case Uname => f.(uname := s[..NAMELEN])
    case Aname => f.(aname := s[..NAMELEN])
    case Ename => f.(ename := s[..ERRLEN])
    case Name => f.(name := s[..NAMELEN])
    case Stat => f.(stat := s[..DIRLEN])
    case Data => f.(data := s[1..1 + f.count])
  }

  /** How much of the wire a field takes. */
  function Taken(f: Fcall, x: Field): nat {
    if x.Data? && f.count >= 0 then 1 + f.count else FieldLen(x)
  }

  datatype Got = More | Bad | Message(len: nat, f: Fcall)

  /** The fields from the front of s; More when it is too short for the data. */
  function GetAll(f: Fcall, l: seq<Field>, s: seq<byte>, done: nat): Got
    decreases |l|
  {
    if |l| == 0 then Message(done, f)
    else if |s| < Taken(f, l[0]) || (l[0].Data? && f.count < 0) then More
    else GetAll(Get(f, l[0], s), l[1..], s[Taken(f, l[0])..], done + Taken(f, l[0]))
  }

  /** convM2S on the bytes there are: a message with its length, More when they are too few, Bad for an unknown type. */
  function Decode(s: seq<byte>, f: Fcall): Got {
    if |s| < 3 then More
    else if !Known(s[0]) then Bad
    else if |s| < MsgLen(s[0]) then More
    else GetAll(f.(kind := s[0], tag := FromLe(s[1..3])), Fields(s[0]), s[3..], 3)
  }

  /** The fields of a C struct hold values of their types. */
  predicate Typed(f: Fcall) {
    && Known(f.kind) && 0 <= f.tag < 0x1_0000 && 0 <= f.oldtag < 0x1_0000
    && -0x8000 <= f.fid < 0x8000 && -0x8000 <= f.newfid < 0x8000
    && 0 <= f.path < 0x1_0000_0000 && 0 <= f.vers < 0x1_0000_0000
    && -0x8000_0000 <= f.perm < 0x8000_0000 && -0x8000_0000 <= f.offset < 0x8000_0000
      && -0x8000_0000 <= f.count < 0x8000_0000
    && 0 <= f.mode < 256
    && |f.uname| == |f.aname| == |f.name| == NAMELEN && |f.ename| == ERRLEN && |f.stat| == DIRLEN
    && (Data in Fields(f.kind) ==> 0 <= f.count <= |f.data|)
  }

  /** Two messages carry the same in a field. */
  predicate SameField(f: Fcall, g: Fcall, x: Field) {
    match x
    case OldTag => f.oldtag == g.oldtag
    case Fid => f.fid == g.fid
    case NewFid => f.newfid == g.newfid
    case Path => f.path == g.path
    case Vers => f.vers == g.vers
    case Perm => f.perm == g.perm
    case Mode => f.mode == g.mode
    case Offset => f.offset == g.offset
    case Count => f.count == g.count
    case Uname => f.uname == g.uname
    case Aname => f.aname == g.aname
    case Ename => f.ename == g.ename
    case Name => f.name == g.name
    case Stat => f.stat == g.stat
    case Data => 0 <= f.count <= |f.data| && f.data[..f.count] == g.data
  }

  /** g is the message f as far as its type goes. */
  predicate SameMessage(f: Fcall, g: Fcall) {
    f.kind == g.kind && f.tag == g.tag && forall i :: 0 <= i < |Fields(f.kind)| ==> SameField(f, g, Fields(f.kind)[i])
  }

  /** The count goes out as two bytes. */
  predicate CountFits(f: Fcall) {
    Count in Fields(f.kind) ==> 0 <= f.count < 0x1_0000
  }

  lemma SignedLe(x: int, n: nat, m: int)
    requires -m <= x < m && 2 * m == Pow(n)
    ensures Signed(FromLe(Le(x, n)), m) == x
  {
    if x < 0 {
      LeWraps(x, n);
      FromLeLe(x + 2 * m, n);
    } else {
      FromLeLe(x, n);
    }
  }

  /** Fields are distinct, and data comes last, behind its count. */
  predicate Laid(l: seq<Field>) {
    && (forall i, j :: 0 <= i < j < |l| ==> l[i] != l[j])
    && (forall i :: 0 <= i < |l| && l[i].Data? ==> i == |l| - 1 && (i > 0 ==> l[i - 1].Count?))
  }

  lemma FieldsLaid(kind: int)
    ensures Laid(Fields(kind)) && (|Fields(kind)| > 0 ==> !Fields(kind)[0].Data?)
  {
  }

  /** A field goes out and comes back. */
  lemma GetPut(f: Fcall, g: Fcall, x: Field, pad: byte, rest: seq<byte>)
    requires Typed(f) && (x.Count? ==> 0 <= f.count < 0x1_0000)
      && (x.Data? ==> g.count == f.count && 0 <= f.count <= |f.data|)
    ensures var s := Put(f, x, pad) + rest;
      && |Put(f, x, pad)| == Taken(g, x) && |s| >= Taken(g, x) && |s| >= FieldLen(x)
      && s[Taken(g, x)..] == rest && SameField(f, Get(g, x, s), x) && (x.Count? ==> Get(g, x, s).count == f.count)
  {
    Pows();
    var s := Put(f, x, pad) + rest;
    hide Fields, Known;
    match x
    case OldTag => FromLeLe(f.oldtag, 2); assert s[..2] == Le(f.oldtag, 2);
    case Fid => SignedLe(f.fid, 2, 0x8000); assert s[..2] == Le(f.fid, 2);
    case NewFid => SignedLe(f.newfid, 2, 0x8000); assert s[..2] == Le(f.newfid, 2);
    case Path => FromLeLe(f.path, 4); assert s[..4] == Le(f.path, 4);
    case Vers => FromLeLe(f.vers, 4); assert s[..4] == Le(f.vers, 4);
    case Perm => SignedLe(f.perm, 4, 0x8000_0000); assert s[..4] == Le(f.perm, 4);
    case Mode => assert Le(f.mode, 1)[0] == f.mode;
    case Offset => SignedLe(f.offset, 4, 0x8000_0000); assert s[..4] == Le(f.offset, 4);
    case Count => FromLeLe(f.count, 2); assert s[..2] == Le(f.count, 2);
    case Uname | Aname | Ename | Name | Stat =>
    case Data => assert s[1..1 + f.count] == f.data[..f.count];
  }

  /** Other fields stay. */
  lemma GetOther(f: Fcall, g: Fcall, x: Field, y: Field, s: seq<byte>)
    requires |s| >= FieldLen(y) && (y.Data? ==> 0 <= g.count && |s| >= 1 + g.count) && x != y && SameField(f, g, x)
    ensures SameField(f, Get(g, y, s), x)
  {
  }

  lemma {:induction false} GetAllOther(f: Fcall, g: Fcall, l: seq<Field>, s: seq<byte>, done: nat, x: Field)
    requires x !in l && SameField(f, g, x) && GetAll(g, l, s, done).Message?
    ensures SameField(f, GetAll(g, l, s, done).f, x)
    decreases |l|
  {
    if |l| > 0 {
      GetOther(f, g, x, l[0], s);
      GetAllOther(f, Get(g, l[0], s), l[1..], s[Taken(g, l[0])..], done + Taken(g, l[0]), x);
    }
  }

  lemma {:induction false} GetPutAll(f: Fcall, g: Fcall, l: seq<Field>, pad: byte, rest: seq<byte>, done: nat)
    requires Typed(f) && Laid(l) && (Count in l ==> 0 <= f.count < 0x1_0000) && (Data in l ==> 0 <= f.count <= |f.data|)
    requires |l| > 0 && l[0].Data? ==> g.count == f.count
    ensures var r := GetAll(g, l, PutAll(f, l, pad) + rest, done);
      && r.Message? && r.len == done + |PutAll(f, l, pad)| && r.f.kind == g.kind && r.f.tag == g.tag
      && forall i :: 0 <= i < |l| ==> SameField(f, r.f, l[i])
    decreases |l|
  {
    hide Typed, SameField, Put, Get, Fields;
    if |l| > 0 {
      var s := PutAll(f, l, pad) + rest;
      assert s == Put(f, l[0], pad) + (PutAll(f, l[1..], pad) + rest);
      GetPut(f, g, l[0], pad, PutAll(f, l[1..], pad) + rest);
      GetKeeps(g, l[0], s);
      GetPutAll(f, Get(g, l[0], s), l[1..], pad, rest, done + Taken(g, l[0]));
      FirstField(l);
      GetAllOther(f, Get(g, l[0], s), l[1..], PutAll(f, l[1..], pad) + rest, done + Taken(g, l[0]), l[0]);
      var r := GetAll(g, l, s, done);
      forall i | 0 <= i < |l|
        ensures SameField(f, r.f, l[i])
      {
        assert i > 0 ==> l[i] == l[1..][i - 1];
      }
    }
  }

  lemma GetKeeps(g: Fcall, x: Field, s: seq<byte>)
    requires |s| >= FieldLen(x) && (x.Data? ==> 0 <= g.count && |s| >= 1 + g.count)
    ensures Get(g, x, s).kind == g.kind && Get(g, x, s).tag == g.tag && (!x.Count? ==> Get(g, x, s).count == g.count)
  {
  }

  lemma FirstField(l: seq<Field>)
    requires Laid(l) && |l| > 0
    ensures l[0] !in l[1..] && Laid(l[1..]) && (|l| > 1 && l[1].Data? ==> l[0].Count?)
  {
    assert forall i :: 0 <= i < |l[1..]| ==> l[1..][i] == l[i + 1];
  }

  /** convM2S undoes convS2M, takes exactly its length, and does not look at what follows. */
  lemma RoundTrip(f: Fcall, g: Fcall, pad: byte, rest: seq<byte>)
    requires Typed(f) && CountFits(f)
    ensures var r := Decode(Encode(f, pad) + rest, g); r.Message? && r.len == |Encode(f, pad)| && SameMessage(f, r.f)
  {
    var l, s := Fields(f.kind), Encode(f, pad) + rest;
    FieldsLaid(f.kind);
    Pows();
    FromLeLe(f.tag, 2);
    assert s[1..3] == Le(f.tag, 2) && s[3..] == PutAll(f, l, pad) + rest && s[0] == f.kind;
    PutLen(f, l, pad);
    hide Fields;
    GetPutAll(f, g.(kind := s[0], tag := FromLe(s[1..3])), l, pad, rest, 3);
  }

  lemma {:induction false} PutLen(f: Fcall, l: seq<Field>, pad: byte)
    requires Typed(f)
    ensures |PutAll(f, l, pad)| >= FixedLen(l)
  {
    hide Fields;
    if |l| > 0 {
      PutLen(f, l[1..], pad);
    }
  }

  /** A decoded count has two bytes. */
  lemma {:induction false} CountBound(g: Fcall, l: seq<Field>, s: seq<byte>, done: nat)
    requires GetAll(g, l, s, done).Message? && (Count in l || 0 <= g.count < 0x1_0000)
    ensures 0 <= GetAll(g, l, s, done).f.count < 0x1_0000
    decreases |l|
  {
    if |l| > 0 {
      Pows();
      if l[0].Count? {
        FromLeBound(s[..2]);
      }
      CountBound(Get(g, l[0], s), l[1..], s[Taken(g, l[0])..], done + Taken(g, l[0]));
    }
  }

  /** Exactly the messages whose count fits two bytes come back as they were. */
  lemma RoundTripExactly(f: Fcall, g: Fcall, pad: byte)
    requires Typed(f)
    ensures CountFits(f) <==> var r := Decode(Encode(f, pad), g); r.Message? && SameMessage(f, r.f)
  {
    hide Fields;
    var s := Encode(f, pad);
    assert s + [] == s;
    if CountFits(f) {
      RoundTrip(f, g, pad, []);
    } else {
      CountLost(f, s, g);
    }
  }

  lemma CountLost(f: Fcall, s: seq<byte>, g: Fcall)
    requires !CountFits(f) && |s| >= 3 && s[0] == f.kind
    ensures var r := Decode(s, g); r.Message? ==> !SameMessage(f, r.f)
  {
    hide Fields;
    if Decode(s, g).Message? {
      CountBound(g.(kind := s[0], tag := FromLe(s[1..3])), Fields(s[0]), s[3..], 3);
      var i :| 0 <= i < |Fields(f.kind)| && Fields(f.kind)[i] == Count;
      assert !SameField(f, Decode(s, g).f, Fields(f.kind)[i]);
    }
  }

  /** What a message's first bytes decode to: nothing until the last of it is there. */
  lemma {:induction false} GetAllPrefix(g: Fcall, l: seq<Field>, s: seq<byte>, done: nat, n: nat)
    requires n <= |s|
    ensures var r := GetAll(g, l, s, done);
      && !r.Bad? && (r.More? ==> GetAll(g, l, s[..n], done).More?)
      && (r.Message? ==>
        done <= r.len <= done + |s| && GetAll(g, l, s[..n], done) == if done + n >= r.len then r else More)
    decreases |l|
  {
    if |l| > 0 {
      var t := Taken(g, l[0]);
      if |s| < t || (l[0].Data? && g.count < 0) {
      } else {
        GetAllPrefix(Get(g, l[0], s), l[1..], s[t..], done + t, if n < t then 0 else n - t);
        if n >= t {
          assert s[..n][t..] == s[t..][..n - t];
          GetSame(g, l[0], s, n);
        }
      }
    }
  }

  lemma GetSame(g: Fcall, x: Field, s: seq<byte>, n: nat)
    requires n <= |s| && n >= Taken(g, x) && |s| >= Taken(g, x) && (x.Data? ==> g.count >= 0)
    ensures n >= FieldLen(x) && Get(g, x, s[..n]) == Get(g, x, s)
  {
    match x
    case OldTag | Fid | NewFid | Count => assert s[..n][..2] == s[..2];
    case Path | Vers | Perm | Offset => assert s[..n][..4] == s[..4];
    case Uname | Aname | Name => assert s[..n][..NAMELEN] == s[..NAMELEN];
    case Ename => assert s[..n][..ERRLEN] == s[..ERRLEN];
    case Stat => assert s[..n][..DIRLEN] == s[..DIRLEN];
    case Data => assert s[..n][1..1 + g.count] == s[1..1 + g.count] by { assert s[..n][1..] == s[1..n]; }
    case Mode =>
  }

  /** A message is as long as its fixed fields at least. */
  lemma {:induction false} GetAllLong(g: Fcall, l: seq<Field>, s: seq<byte>, done: nat)
    requires GetAll(g, l, s, done).Message?
    ensures GetAll(g, l, s, done).len >= done + FixedLen(l)
    decreases |l|
  {
    if |l| > 0 {
      GetAllLong(Get(g, l[0], s), l[1..], s[Taken(g, l[0])..], done + Taken(g, l[0]));
    }
  }

  /**
    Messages delimit themselves: of a stream, every part long enough shows the same message, every shorter one none.
   */
  lemma DecodePrefix(s: seq<byte>, g: Fcall, n: nat)
    requires n <= |s|
    ensures var r := Decode(s, g);
      && (r.Message? ==> 3 <= r.len <= |s| && Decode(s[..n], g) == if n >= r.len then r else More)
      && (r.Bad? ==> Decode(s[..n], g) == if n >= 3 then Bad else More)
      && (r.More? ==> Decode(s[..n], g).More?)
  {
    hide Fields;
    if n >= 3 {
      assert s[..n][1..3] == s[1..3] && s[..n][3..] == s[3..][..n - 3];
      var g' := g.(kind := s[0], tag := FromLe(s[1..3]));
      GetAllPrefix(g', Fields(s[0]), s[3..], 3, n - 3);
      if GetAll(g', Fields(s[0]), s[3..], 3).Message? {
        GetAllLong(g', Fields(s[0]), s[3..], 3);
      }
    } else if |s| >= 3 {
      var g' := g.(kind := s[0], tag := FromLe(s[1..3]));
      GetAllPrefix(g', Fields(s[0]), s[3..], 3, 0);
      if GetAll(g', Fields(s[0]), s[3..], 3).Message? {
        GetAllLong(g', Fields(s[0]), s[3..], 3);
      }
    }
  }

  const BLANK := Fcall(0, 0, 0, 0, 0, 0, 0, 0, 0, 0, 0, [], [], [], [], [], [])

  /** The message at the front of a stream, by the stream alone. */
  function Front(s: seq<byte>): Got {
    Decode(s, BLANK)
  }

  predicate EqualField(f: Fcall, g: Fcall, x: Field) {
    if x.Data? then f.data == g.data else SameField(f, g, x)
  }

  /** Equal in type, tag and every field of the type. */
  predicate Agree(f: Fcall, g: Fcall) {
    f.kind == g.kind && f.tag == g.tag && forall i :: 0 <= i < |Fields(f.kind)| ==> EqualField(f, g, Fields(f.kind)[i])
  }

  lemma GetBoth(f: Fcall, g: Fcall, x: Field, s: seq<byte>)
    requires |s| >= FieldLen(x) && (x.Data? ==> 0 <= f.count == g.count && |s| >= 1 + g.count)
    ensures EqualField(Get(f, x, s), Get(g, x, s), x) && Taken(f, x) == Taken(g, x)
    ensures x.Count? ==> Get(f, x, s).count == Get(g, x, s).count >= 0
    ensures forall y :: y != x && EqualField(f, g, y) ==> EqualField(Get(f, x, s), Get(g, x, s), y)
  {
  }

  /** What a message overwrites does not depend on what was there. */
  lemma {:induction false} GetAllBoth(f: Fcall, g: Fcall, l: seq<Field>, s: seq<byte>, done: nat)
    requires Laid(l) && (|l| > 0 && l[0].Data? ==> f.count == g.count)
    ensures var a, b := GetAll(f, l, s, done), GetAll(g, l, s, done);
      && (a.Message? <==> b.Message?)
      && (a.Message? ==>
        a.len == b.len && a.f.kind == f.kind && a.f.tag == f.tag && b.f.kind == g.kind && b.f.tag == g.tag)
      && (a.Message? ==> forall i :: 0 <= i < |l| ==> EqualField(a.f, b.f, l[i]))
      && (a.Message? ==> forall y :: y !in l && EqualField(f, g, y) ==> EqualField(a.f, b.f, y))
    decreases |l|
  {
    if |l| > 0 && |s| >= FieldLen(l[0]) && (l[0].Data? ==> f.count >= 0 && |s| >= 1 + f.count) {
      hide Get, EqualField;
      GetBoth(f, g, l[0], s);
      GetKeeps(f, l[0], s);
      GetKeeps(g, l[0], s);
      FirstField(l);
      GetAllBoth(Get(f, l[0], s), Get(g, l[0], s), l[1..], s[Taken(f, l[0])..], done + Taken(f, l[0]));
      assert forall i :: 0 < i < |l| ==> l[i] == l[1..][i - 1];
    }
  }

  lemma DecodeBoth(s: seq<byte>, f: Fcall, g: Fcall)
    ensures var a, b := Decode(s, f), Decode(s, g);
      && (a.More? <==> b.More?) && (a.Bad? <==> b.Bad?) && (a.Message? ==> a.len == b.len && Agree(a.f, b.f))
  {
    hide Fields;
    if |s| >= 3 && Known(s[0]) {
      FieldsLaid(s[0]);
      var f', g' := f.(kind := s[0], tag := FromLe(s[1..3])), g.(kind := s[0], tag := FromLe(s[1..3]));
      GetAllBoth(f', g', Fields(s[0]), s[3..], 3);
      GetAllPrefix(f', Fields(s[0]), s[3..], 3, 0);
      GetAllPrefix(g', Fields(s[0]), s[3..], 3, 0);
    }
  }
}
