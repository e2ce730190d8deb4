/**
  convS2M and convM2S (emu/styx.c): a pointer moves over the buffer, field by field as the type of
  the message says.
 */
module StyxCodec {
  import opened Bytes
  import opened Styx

  /** PSHORT, PLONG and PCHAR: the n low bytes of x. */
  method PutLe(x: int, n: nat, ap: array<byte>, p: nat) returns (q: nat)
    requires p + n <= ap.Length
    modifies ap
    ensures q == p + n && ap[..q] == old(ap[..p]) + Le(x, n) && ap[q..] == old(ap[q..])
  {
    ghost var z := Le(x, n);
    var v, i := x, 0;
    assert Le(x, n)[0..] == Le(x, n);
    while i < n
      invariant 0 <= i <= n && z[i..] == Le(v, n - i)
      invariant ap[..p] == old(ap[..p]) && ap[p..p + i] == z[..i] && ap[p + i..] == old(ap[p + i..])
    {
      ap[p + i] := v % 256;
      assert z[i] == z[i..][0] && z[i..][1..] == z[i + 1..];
      v := v / 256;
      i := i + 1;
    }
    q := p + n;
    assert ap[..q] == ap[..p] + ap[p..p + n];
  }

  /** PSTRING */
  method PutString(s: seq<byte>, ap: array<byte>, p: nat) returns (q: nat)
    requires p + |s| <= ap.Length
    modifies ap
    ensures q == p + |s| && ap[..q] == old(ap[..p]) + s && ap[q..] == old(ap[q..])
  {
    var i := 0;
    while i < |s|
      invariant 0 <= i <= |s|
      invariant ap[..p] == old(ap[..p]) && ap[p..p + i] == s[..i] && ap[p + i..] == old(ap[p + i..])
    {
      ap[p + i] := s[i];
      i := i + 1;
    }
    q := p + |s|;
    assert ap[..q] == ap[..p] + ap[p..p + |s|];
  }

  /** One field; the byte before data is left as it is. */
  method PutField(f: Fcall, x: Field, pad: byte, ap: array<byte>, p: nat) returns (q: nat)
    requires p + |Put(f, x, pad)| <= ap.Length && (x.Data? ==> 0 <= f.count <= |f.data| && ap[p] == pad)
    modifies ap
    ensures q == p + |Put(f, x, pad)| && ap[..q] == old(ap[..p]) + Put(f, x, pad) && ap[q..] == old(ap[q..])
  {
    match x
    case OldTag => q := PutLe(f.oldtag, 2, ap, p);
    case Fid => q := PutLe(f.fid, 2, ap, p);
    case NewFid => q := PutLe(f.newfid, 2, ap, p);
    case Path => q := PutLe(f.path, 4, ap, p);
    case Vers => q := PutLe(f.vers, 4, ap, p);
    case Perm => q := PutLe(f.perm, 4, ap, p);
    case Mode => q := PutLe(f.mode, 1, ap, p);
    case Offset => {
      q := PutLe(f.offset, 4, ap, p);
      q := PutString([0, 0, 0, 0], ap, q);
    }
    case Count => q := PutLe(f.count, 2, ap, p);
    case Uname => q := PutString(f.uname, ap, p);
    case Aname => q := PutString(f.aname, ap, p);
    case Ename => q := PutString(f.ename, ap, p);
    case Name => q := PutString(f.name, ap, p);
    case Stat => q := PutString(f.stat, ap, p);
    case Data => {
      assert ap[..p + 1] == ap[..p] + [pad];
      q := PutString(f.data[..f.count], ap, p + 1);
    }
  }

  lemma {:induction false} PutSnoc(f: Fcall, l: seq<Field>, i: nat, pad: byte)
    requires i < |l|
    ensures PutAll(f, l[..i + 1], pad) == PutAll(f, l[..i], pad) + Put(f, l[i], pad)
    ensures |PutAll(f, l[..i + 1], pad)| <= |PutAll(f, l, pad)|
    decreases i
  {
    hide Put;
    if i == 0 {
      assert l[..1][1..] == [] && l[..0] == [];
    } else {
      PutSnoc(f, l[1..], i - 1, pad);
      assert l[..i + 1][1..] == l[1..][..i] && l[..i][1..] == l[1..][..i - 1];
    }
  }

  /** What is behind place q, element by element. */
  lemma TailSame(was: seq<byte>, now: seq<byte>, q: nat)
    requires |was| == |now| && q <= |now| && now[q..] == was[q..]
    ensures forall j :: q <= j < |now| ==> now[j] == was[j]
  {
    forall j | q <= j < |now|
      ensures now[j] == was[j]
    {
      assert now[q..][j - q] == was[q..][j - q];
    }
  }

  /** Where the padding byte of a message with data is, behind type and tag. */
  ghost function PadAt(f: Fcall, l: seq<Field>, pad: byte): nat
    requires |l| > 0
  {
    |PutAll(f, l[..|l| - 1], pad)|
  }

  /** The fields l are in the buffer from p to q, and nothing else has changed. */
  ghost predicate Placed(f: Fcall, l: seq<Field>, pad: byte, was: seq<byte>, now: seq<byte>, p: nat, q: nat) {
    && |now| == |was| && q == p + |PutAll(f, l, pad)| <= |now| && now[p..q] == PutAll(f, l, pad)
    && now[..p] == was[..p] && forall j :: q <= j < |now| ==> now[j] == was[j]
  }

  lemma NothingPlaced(f: Fcall, pad: byte, s: seq<byte>, p: nat)
    requires p <= |s|
    ensures Placed(f, [], pad, s, s, p, p)
  {
    assert s[p..p] == [];
  }

  lemma PlacedMore(f: Fcall, l: seq<Field>, i: nat, pad: byte, was: seq<byte>, mid: seq<byte>, now: seq<byte>, h: nat,
      p: nat, q: nat)
    requires i < |l| && Placed(f, l[..i], pad, was, mid, h, p) && |now| == |mid|
      && q == p + |Put(f, l[i], pad)| <= |now|
    requires now[..q] == mid[..p] + Put(f, l[i], pad) && now[q..] == mid[q..]
    ensures Placed(f, l[..i + 1], pad, was, now, h, q)
  {
    PutSnoc(f, l, i, pad);
    TailSame(mid, now, q);
    hide Put, PutAll;
    assert now[..h] == now[..q][..h] && mid[..h] == mid[..p][..h];
    assert now[h..q] == now[..q][h..] && mid[h..p] == mid[..p][h..];
  }

  /** The i-th field, x, when those before it are in the buffer behind the first h bytes. */
  method PutNext(f: Fcall, x: Field, pad: byte, ap: array<byte>, p: nat, ghost l: seq<Field>, ghost i: nat,
      ghost h: nat, ghost was: seq<byte>) returns (q: nat)
    requires i < |l| && l[i] == x && h + |PutAll(f, l, pad)| <= ap.Length && Placed(f, l[..i], pad, was, ap[..], h, p)
    requires x.Data? ==>
      i == |l| - 1 && 0 <= f.count <= |f.data| && h + PadAt(f, l, pad) < |was| && was[h + PadAt(f, l, pad)] == pad
    modifies ap
    ensures Placed(f, l[..i + 1], pad, was, ap[..], h, q)
  {
    PutSnoc(f, l, i, pad);
    hide Put, PutAll;
    ghost var mid := ap[..];
    q := PutField(f, x, pad, ap, p);
    PlacedMore(f, l, i, pad, was, mid, ap[..], h, p, q);
  }

  /** The byte before the data, which neither side looks at, is pad. */
  ghost predicate PadOk(f: Fcall, l: seq<Field>, pad: byte, ap: array<byte>, p: nat)
    reads ap
  {
    Data in l ==> |l| > 0 && p + PadAt(f, l, pad) < ap.Length && ap[p + PadAt(f, l, pad)] == pad
  }

  method Put1(f: Fcall, a: Field, pad: byte, ap: array<byte>, p: nat) returns (q: nat)
    requires p + |PutAll(f, [a], pad)| <= ap.Length && (a.Data? ==> 0 <= f.count <= |f.data|)
    requires a.Data? ==> PadAt(f, [a], pad) + p < ap.Length && ap[p + PadAt(f, [a], pad)] == pad
    modifies ap
    ensures Placed(f, [a], pad, old(ap[..]), ap[..], p, q)
  {
    ghost var l, was := [a], ap[..];
    NothingPlaced(f, pad, was, p);
    assert l[..0] == [] && l[..1] == l;
    hide Placed, Put, PutAll, PadAt;
    q := p;
    q := PutNext(f, a, pad, ap, q, l, 0, p, was);
  }

  method Put2(f: Fcall, a: Field, b: Field, pad: byte, ap: array<byte>, p: nat) returns (q: nat)
    requires p + |PutAll(f, [a, b], pad)| <= ap.Length && !a.Data? && (b.Data? ==> 0 <= f.count <= |f.data|)
    requires b.Data? ==> PadAt(f, [a, b], pad) + p < ap.Length && ap[p + PadAt(f, [a, b], pad)] == pad
    modifies ap
    ensures Placed(f, [a, b], pad, old(ap[..]), ap[..], p, q)
  {
    ghost var l, was := [a, b], ap[..];
    NothingPlaced(f, pad, was, p);
    assert l[..0] == [] && l[..2] == l;
    hide Placed, Put, PutAll, PadAt;
    q := p;
    q := PutNext(f, a, pad, ap, q, l, 0, p, was);
    q := PutNext(f, b, pad, ap, q, l, 1, p, was);
  }

  method Put3(f: Fcall, a: Field, b: Field, c: Field, pad: byte, ap: array<byte>, p: nat) returns (q: nat)
    requires p + |PutAll(f, [a, b, c], pad)| <= ap.Length && !a.Data? && !b.Data?
      && (c.Data? ==> 0 <= f.count <= |f.data|)
    requires c.Data? ==> PadAt(f, [a, b, c], pad) + p < ap.Length && ap[p + PadAt(f, [a, b, c], pad)] == pad
    modifies ap
    ensures Placed(f, [a, b, c], pad, old(ap[..]), ap[..], p, q)
  {
    ghost var l, was := [a, b, c], ap[..];
    NothingPlaced(f, pad, was, p);
    assert l[..0] == [] && l[..3] == l;
    hide Placed, Put, PutAll, PadAt;
    q := p;
    q := PutNext(f, a, pad, ap, q, l, 0, p, was);
    q := PutNext(f, b, pad, ap, q, l, 1, p, was);
    q := PutNext(f, c, pad, ap, q, l, 2, p, was);
  }

  method Put4(f: Fcall, a: Field, b: Field, c: Field, d: Field, pad: byte, ap: array<byte>, p: nat) returns (q: nat)
    requires p + |PutAll(f, [a, b, c, d], pad)| <= ap.Length && !a.Data? && !b.Data? && !c.Data?
      && (d.Data? ==> 0 <= f.count <= |f.data|)
    requires d.Data? ==> PadAt(f, [a, b, c, d], pad) + p < ap.Length && ap[p + PadAt(f, [a, b, c, d], pad)] == pad
    modifies ap
    ensures Placed(f, [a, b, c, d], pad, old(ap[..]), ap[..], p, q)
  {
    ghost var l, was := [a, b, c, d], ap[..];
    NothingPlaced(f, pad, was, p);
    assert l[..0] == [] && l[..4] == l;
    hide Placed, Put, PutAll, PadAt;
    q := p;
    q := PutNext(f, a, pad, ap, q, l, 0, p, was);
    q := PutNext(f, b, pad, ap, q, l, 1, p, was);
    q := PutNext(f, c, pad, ap, q, l, 2, p, was);
    q := PutNext(f, d, pad, ap, q, l, 3, p, was);
  }

  /** The cases of a request. */
  method PutRequest(f: Fcall, pad: byte, ap: array<byte>, p: nat) returns (q: nat)
    requires Typed(f) && f.kind % 2 == 0 && p + |PutAll(f, Fields(f.kind), pad)| <= ap.Length
    requires PadOk(f, Fields(f.kind), pad, ap, p)
    modifies ap
    ensures Placed(f, Fields(f.kind), pad, old(ap[..]), ap[..], p, q)
  {
    hide Put, PutAll, Placed;
    var k := f.kind;
    if k == Tflush {
      q := Put1(f, OldTag, pad, ap, p);
    } else if k == Tattach {
      q := Put3(f, Fid, Uname, Aname, pad, ap, p);
    } else if k == Tclone {
      q := Put2(f, Fid, NewFid, pad, ap, p);
    } else if k == Twalk {
      q := Put2(f, Fid, Name, pad, ap, p);
    } else if k == Topen {
      q := Put2(f, Fid, Mode, pad, ap, p);
    } else if k == Tcreate {
      q := Put4(f, Fid, Name, Perm, Mode, pad, ap, p);
    } else if k == Tread {
      q := Put3(f, Fid, Offset, Count, pad, ap, p);
    } else if k == Twrite {
      q := Put4(f, Fid, Offset, Count, Data, pad, ap, p);
    } else if k == Tclunk || k == Tremove || k == Tstat {
      q := Put1(f, Fid, pad, ap, p);
    } else if k == Twstat {
      q := Put2(f, Fid, Stat, pad, ap, p);
    } else {
      q := p;
      NothingPlaced(f, pad, ap[..], p);
    }
  }

  /** The cases of a reply. */
  method PutReply(f: Fcall, pad: byte, ap: array<byte>, p: nat) returns (q: nat)
    requires Typed(f) && f.kind % 2 == 1 && p + |PutAll(f, Fields(f.kind), pad)| <= ap.Length
    requires PadOk(f, Fields(f.kind), pad, ap, p)
    modifies ap
    ensures Placed(f, Fields(f.kind), pad, old(ap[..]), ap[..], p, q)
  {
    hide Put, PutAll, Placed;
    var k := f.kind;
    if k == Rerror {
      q := Put1(f, Ename, pad, ap, p);
    } else if k == Rattach || k == Rwalk || k == Ropen || k == Rcreate {
      q := Put3(f, Fid, Path, Vers, pad, ap, p);
    } else if k == Rclone || k == Rclunk || k == Rremove || k == Rwstat {
      q := Put1(f, Fid, pad, ap, p);
    } else if k == Rread {
      q := Put3(f, Fid, Count, Data, pad, ap, p);
    } else if k == Rwrite {
      q := Put2(f, Fid, Count, pad, ap, p);
    } else if k == Rstat {
      q := Put2(f, Fid, Stat, pad, ap, p);
    } else {
      q := p;
      NothingPlaced(f, pad, ap[..], p);
    }
  }

  /**
    convS2M: the length of the message, or -1 for a type without a wire form. The padding byte is whatever the buffer
    had.
   */
  method ConvS2M(f: Fcall, ap: array<byte>, pad: byte) returns (n: int)
    requires 0 <= f.kind < 256 && 3 <= ap.Length
    requires Known(f.kind) ==> Typed(f) && |Encode(f, pad)| <= ap.Length && PadOk(f, Fields(f.kind), pad, ap, 3)
    modifies ap
    ensures n == -1 <==> !Known(f.kind)
    ensures Known(f.kind) ==> n == |Encode(f, pad)| && ap[..n] == Encode(f, pad) && forall j :: n <= j < ap.Length ==>
      ap[j] == old(ap[j])
  {
    hide Fields, PutAll, Put;
    var p := PutLe(f.kind, 1, ap, 0);
    p := PutLe(f.tag, 2, ap, p);
    assert Le(f.kind, 1) == [f.kind % 256] + Le(f.kind / 256, 0);
    if !Known(f.kind) {
      return -1;
    }
    TailSame(old(ap[..]), ap[..], 3);
    assert ap[..3] == [f.kind % 256] + Le(f.tag, 2);
    if f.kind % 2 == 0 {
      n := PutRequest(f, pad, ap, p);
    } else {
      n := PutReply(f, pad, ap, p);
    }
    assert ap[..n] == ap[..3] + ap[3..n];
  }

  /** GSHORT, GLONG and GCHAR: n bytes as a number. */
  method GetLe(ap: array<byte>, p: nat, n: nat) returns (v: nat)
    requires p + n <= ap.Length
    ensures v == FromLe(ap[p..p + n])
  {
    v := 0;
    var i := n;
    while i > 0
      invariant 0 <= i <= n && v == FromLe(ap[p + i..p + n])
    {
      i := i - 1;
      assert ap[p + i..p + n][1..] == ap[p + i + 1..p + n];
      v := ap[p + i] + 256 * v;
    }
  }

  /** One field but data. */
  method GetField(f: Fcall, x: Field, ap: array<byte>, n: nat, p: nat) returns (g: Fcall)
    requires p <= n <= ap.Length && n - p >= FieldLen(x) && !x.Data?
    ensures g == Get(f, x, ap[p..n])
  {
    var s := ap[p..n];
    assert n - p >= 2 ==> s[..2] == ap[p..p + 2];
    assert n - p >= 4 ==> s[..4] == ap[p..p + 4];
    match x
    case OldTag => { var v := GetLe(ap, p, 2); g := f.(oldtag := v); }
    case Fid => { var v := GetLe(ap, p, 2); g := f.(fid := Signed(v, 0x8000)); }
    case NewFid => { var v := GetLe(ap, p, 2); g := f.(newfid := Signed(v, 0x8000)); }
    case Path => { var v := GetLe(ap, p, 4); g := f.(path := v); }
    case Vers => { var v := GetLe(ap, p, 4); g := f.(vers := v); }
    case Perm => { var v := GetLe(ap, p, 4); g := f.(perm := Signed(v, 0x8000_0000)); }
    case Mode => g := f.(mode := ap[p]);
    case Offset => { var v := GetLe(ap, p, 4); g := f.(offset := Signed(v, 0x8000_0000)); }
    case Count => { var v := GetLe(ap, p, 2); g := f.(count := v); }
    case Uname => g := f.(uname := s[..NAMELEN]);
    case Aname => g := f.(aname := s[..NAMELEN]);
    case Ename => g := f.(ename := s[..ERRLEN]);
    case Name => g := f.(name := s[..NAMELEN]);
    case Stat => g := f.(stat := s[..DIRLEN]);
  }

  /** A field with others behind it. */
  method GetNext(f: Fcall, x: Field, ghost rest: seq<Field>, ap: array<byte>, n: nat, p: nat, ghost h: nat)
      returns (g: Fcall, q: nat)
    requires h <= p <= n <= ap.Length && n - p >= FieldLen(x) && !x.Data?
    ensures q == p + FieldLen(x) && GetAll(f, [x] + rest, ap[p..n], p) == GetAll(g, rest, ap[q..n], q)
      && (x.Count? ==> g.count >= 0)
  {
    g := GetField(f, x, ap, n, p);
    q := p + FieldLen(x);
    assert ([x] + rest)[1..] == rest && ap[p..n][FieldLen(x)..] == ap[q..n];
    hide Get;
    assert GetAll(f, [x] + rest, ap[p..n], p) == GetAll(g, rest, ap[q..n], q);
  }

  /** The last field; data only when all of it is there. */
  method GetLast(f: Fcall, x: Field, ap: array<byte>, n: nat, p: nat) returns (r: Got)
    requires p <= n <= ap.Length && n - p >= FieldLen(x) && (x.Data? ==> f.count >= 0)
    ensures r == GetAll(f, [x], ap[p..n], p)
  {
    assert [x][1..] == [];
    if x.Data? {
      if n - p < 1 + f.count {
        return More;
      }
      r := Message(p + 1 + f.count, f.(data := ap[p..n][1..1 + f.count]));
      assert GetAll(Get(f, x, ap[p..n]), [], ap[p..n][1 + f.count..], p + 1 + f.count) == r;
    } else {
      var g := GetField(f, x, ap, n, p);
      r := Message(p + FieldLen(x), g);
      assert GetAll(g, [], ap[p..n][FieldLen(x)..], p + FieldLen(x)) == r;
    }
  }

  method GetNone(f: Fcall, ap: array<byte>, n: nat) returns (r: Got)
    requires 3 <= n <= ap.Length
    ensures r == GetAll(f, [], ap[3..n], 3)
  {
    r := Message(3, f);
  }

  method Get1(f: Fcall, a: Field, ap: array<byte>, n: nat, p: nat) returns (r: Got)
    requires p <= n <= ap.Length && n - p >= FixedLen([a]) && (a.Data? ==> false)
    ensures r == GetAll(f, [a], ap[p..n], p)
  {
    var g, q := f, p;
    assert [a][1..] == [];
    hide Get, GetAll;
    r := GetLast(g, a, ap, n, q);
  }

  method Get2(f: Fcall, a: Field, b: Field, ap: array<byte>, n: nat, p: nat) returns (r: Got)
    requires p <= n <= ap.Length && n - p >= FixedLen([a, b]) && !a.Data? && (b.Data? ==> a.Count?)
    ensures r == GetAll(f, [a, b], ap[p..n], p)
  {
    var g, q := f, p;
    assert [a, b][1..] == [b];
    assert [b][1..] == [];
    hide Get, GetAll;
    g, q := GetNext(g, a, [b], ap, n, q, p);
    r := GetLast(g, b, ap, n, q);
  }

  method Get3(f: Fcall, a: Field, b: Field, c: Field, ap: array<byte>, n: nat, p: nat) returns (r: Got)
    requires p <= n <= ap.Length && n - p >= FixedLen([a, b, c]) && !a.Data? && !b.Data? && (c.Data? ==> b.Count?)
    ensures r == GetAll(f, [a, b, c], ap[p..n], p)
  {
    assert [a, b, c][1..] == [b, c];
    var g, q := GetNext(f, a, [b, c], ap, n, p, p);
    r := Get2(g, b, c, ap, n, q);
  }

  method Get4(f: Fcall, a: Field, b: Field, c: Field, d: Field, ap: array<byte>, n: nat, p: nat) returns (r: Got)
    requires p <= n <= ap.Length && n - p >= FixedLen([a, b, c, d]) && !a.Data? && !b.Data? && !c.Data?
      && (d.Data? ==> c.Count?)
    ensures r == GetAll(f, [a, b, c, d], ap[p..n], p)
  {
    assert [a, b, c, d][1..] == [b, c, d];
    var g, q := GetNext(f, a, [b, c, d], ap, n, p, p);
    r := Get3(g, b, c, d, ap, n, q);
  }

  /** The cases of a request. */
  method GetRequest(f: Fcall, ap: array<byte>, n: nat) returns (r: Got)
    requires Known(f.kind) && f.kind % 2 == 0 && MsgLen(f.kind) <= n <= ap.Length
    ensures r == GetAll(f, Fields(f.kind), ap[3..n], 3)
  {
    hide GetAll, Get;
    var k := f.kind;
    if k == Tflush {
      r := Get1(f, OldTag, ap, n, 3);
    } else if k == Tattach {
      r := Get3(f, Fid, Uname, Aname, ap, n, 3);
    } else if k == Tclone {
      r := Get2(f, Fid, NewFid, ap, n, 3);
    } else if k == Twalk {
      r := Get2(f, Fid, Name, ap, n, 3);
    } else if k == Topen {
      r := Get2(f, Fid, Mode, ap, n, 3);
    } else if k == Tcreate {
      r := Get4(f, Fid, Name, Perm, Mode, ap, n, 3);
    } else if k == Tread {
      r := Get3(f, Fid, Offset, Count, ap, n, 3);
    } else if k == Twrite {
      r := Get4(f, Fid, Offset, Count, Data, ap, n, 3);
    } else if k == Tclunk || k == Tremove || k == Tstat {
      r := Get1(f, Fid, ap, n, 3);
    } else if k == Twstat {
      r := Get2(f, Fid, Stat, ap, n, 3);
    } else {
      r := GetNone(f, ap, n);
    }
  }

  /** The cases of a reply. */
  method GetReply(f: Fcall, ap: array<byte>, n: nat) returns (r: Got)
    requires Known(f.kind) && f.kind % 2 == 1 && MsgLen(f.kind) <= n <= ap.Length
    ensures r == GetAll(f, Fields(f.kind), ap[3..n], 3)
  {
    hide GetAll, Get;
    var k := f.kind;
    if k == Rerror {
      r := Get1(f, Ename, ap, n, 3);
    } else if k == Rattach || k == Rwalk || k == Ropen || k == Rcreate {
      r := Get3(f, Fid, Path, Vers, ap, n, 3);
    } else if k == Rclone || k == Rclunk || k == Rremove || k == Rwstat {
      r := Get1(f, Fid, ap, n, 3);
    } else if k == Rread {
      r := Get3(f, Fid, Count, Data, ap, n, 3);
    } else if k == Rwrite {
      r := Get2(f, Fid, Count, ap, n, 3);
    } else if k == Rstat {
      r := Get2(f, Fid, Stat, ap, n, 3);
    } else {
      r := GetNone(f, ap, n);
    }
  }


  /** convM2S on the first n bytes: the length of the message, 0 when there is none yet, -1 when there will never be. */
  method ConvM2S(ap: array<byte>, f: Fcall, n: nat) returns (len: int, g: Fcall)
    requires n <= ap.Length
    ensures match Decode(ap[..n], f)
      case More => len == 0
      case Bad => len == -1
      case Message(k, m) => len == k && g == m && 0 < len
  {
    hide GetAll, Get, Fields;
    g := f;
    if n < 3 {
      return 0, g;
    }
    g := g.(kind := ap[0]);
    var t := GetLe(ap, 1, 2);
    g := g.(tag := t);
    assert ap[..n][1..3] == ap[1..3] && ap[..n][3..] == ap[3..n];
    if !Known(g.kind) {
      return -1, g;
    }
    if n < MsgLen(g.kind) {
      return 0, g;
    }
    var r;
    if g.kind % 2 == 0 {
      r := GetRequest(g, ap, n);
    } else {
      r := GetReply(g, ap, n);
    }
    DecodePrefix(ap[..n], f, n);
    GetAllPrefix(g, Fields(g.kind), ap[3..n], 3, 0);
    len := 0;
    if r.Message? {
      len, g := r.len, r.f;
    }
  }
}
