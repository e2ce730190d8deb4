/**
  The 48-byte blocks of the tiny file system (emu/devtinyfs.c): what the writers of blocks put on
  the medium and what the readers take a block for.
 */
module TinyBlocks {
  import opened Bytes

  const BLEN: nat := 48
  const DLEN: nat := 44
  const NLEN: nat := 28
  const TAGDIR: byte := 100
  const TAGDATA: byte := 68
  const TAGEND: byte := 101
  const NOTABNO: nat := 0xffff

  type Block = b: seq<byte> | |b| == 48 witness Zeros(48)

  /** A block as the scan and the walks see it. */
  datatype Item =
    | Data(next: nat, bytes: seq<byte>)
    | End(bytes: seq<byte>)
    | Dir(head: nat, name: seq<byte>, pin: nat)
    | Junk

  ghost function Total(s: seq<byte>): int {
    if |s| == 0 then 0 else s[0] + Total(s[1..])
  }

  lemma {:induction false} TotalConcat(s: seq<byte>, t: seq<byte>)
    ensures Total(s + t) == Total(s) + Total(t)
  {
    if |s| == 0 {
      assert s + t == t;
    } else {
      assert (s + t)[1..] == s[1..] + t;
      TotalConcat(s[1..], t);
    }
  }

  lemma TotalNext(p: seq<byte>, i: nat)
    requires i < |p|
    ensures Total(p[..i + 1]) == Total(p[..i]) + p[i]
  {
    assert p[..i + 1] == p[..i] + [p[i]];
    TotalConcat(p[..i], [p[i]]);
    assert Total([p[i]]) == p[i] + Total([p[i]][1..]);
  }

  /** checksum: the sum of the bytes, kept in a byte. */
  method Checksum(p: seq<byte>) returns (s: byte)
    ensures s == Total(p) % 256
  {
    s := 0;
    var i := 0;
    assert p[..0] == [];
    while i < |p|
      invariant 0 <= i <= |p| && s == Total(p[..i]) % 256
    {
      TotalNext(p, i);
      s := (s + p[i]) % 256;
      i := i + 1;
    }
    assert p[..|p|] == p;
  }

  function GetS(lo: byte, hi: byte): (v: nat)
    ensures v <= 0xffff
  {
    lo + 256 * hi
  }

  function Low(v: int): byte {
    v % 256
  }

  function High(v: int): byte {
    (v / 256) % 256
  }

  lemma PutGet(v: nat)
    requires v <= 0xffff
    ensures GetS(Low(v), High(v)) == v
  {
  }

  /** The bytes before the first zero, a C string in a field. */
  function Name(s: seq<byte>): (r: seq<byte>)
    ensures |r| <= |s| && 0 !in r
  {
    if |s| == 0 || s[0] == 0 then [] else [s[0]] + Name(s[1..])
  }

  lemma {:induction false} NameOfPadded(s: seq<byte>, t: seq<byte>)
    requires 0 !in s && (|t| == 0 || t[0] == 0)
    ensures Name(s + t) == s
  {
    if |s| == 0 {
      assert s + t == t;
    } else {
      assert (s + t)[1..] == s[1..] + t;
      NameOfPadded(s[1..], t);
    }
  }

  /** What a name becomes in a directory block: strncpy keeps all but the last place. */
  function Cut(name: seq<byte>): (r: seq<byte>)
    ensures |r| < NLEN && r <= name && (|name| < NLEN ==> r == name)
    ensures 0 !in name ==> 0 !in r
  {
    if |name| < NLEN then name else name[..NLEN - 1]
  }

  /** What a block is taken for on a medium of n blocks: validdir, and validdata for the rest. */
  ghost function Decode(p: Block, n: nat): (d: Item)
    ensures d.Data? ==> d.next < n && |d.bytes| == DLEN
    ensures d.End? ==> |d.bytes| <= DLEN
    ensures d.Dir? ==> d.head < n && |d.name| <= NLEN && 0 !in d.name && d.pin <= 0xffff
  {
    if Total(p) % 256 != 0 then Junk
    else
      var x := GetS(p[1], p[2]);
      if p[0] == TAGDIR && x < n then Dir(x, Name(p[5..33]), GetS(p[3], p[4]))
      else if p[0] == TAGDATA && x < n then Data(x, p[3..47])
      else if p[0] == TAGEND && x <= DLEN then End(p[3..3 + x])
      else Junk
  }

  /** The bytes of a block, by place: the kind, the next block or the number of bytes, the pin, the name, the data. */
  lemma BlockForm(p: Block, n: nat)
    ensures var d, x: int := Decode(p, n), p[1] as int + 256 * p[2] as int;
      && (d.Dir? <==> Total(p) % 256 == 0 && p[0] == 100 && x < n)
      && (d.Data? <==> Total(p) % 256 == 0 && p[0] == 68 && x < n)
      && (d.End? <==> Total(p) % 256 == 0 && p[0] == 101 && x <= 44)
      && (d.Dir? ==> d.head == x && d.pin == p[3] as int + 256 * p[4] as int && d.name <= p[5..33]
                     && (|d.name| < 28 ==> p[5 + |d.name|] == 0))
      && (d.Data? ==> d.next == x && d.bytes == p[3..47]) && (d.End? ==> d.bytes == p[3..3 + x])
  {
    NameStops(p[5..33]);
  }

  lemma {:induction false} NameStops(s: seq<byte>)
    ensures Name(s) <= s && (|Name(s)| < |s| ==> s[|Name(s)|] == 0)
  {
    if |s| > 0 && s[0] != 0 {
      NameStops(s[1..]);
    }
  }

  /** validdir: where the file starts, its name and pin, if the block is a directory block. */
  method ValidDir(n: nat, p: Block) returns (ok: bool, bno: nat, name: seq<byte>, pin: nat)
    ensures ok <==> Decode(p, n).Dir?
    ensures ok ==> Decode(p, n) == Dir(bno, name, pin)
  {
    bno, name, pin := 0, [], 0;
    var s := Checksum(p);
    if s != 0 || p[0] != TAGDIR {
      return false, 0, [], 0;
    }
    var x := GetS(p[1], p[2]);
    if x >= n {
      return false, 0, [], 0;
    }
    return true, x, Name(p[5..33]), GetS(p[3], p[4]);
  }

  /** validdata: the type, next block and data length of a block, if it is a data block. */
  method ValidData(n: nat, p: Block) returns (ok: bool, last: bool, bno: nat, len: nat)
    ensures ok <==> Decode(p, n).Data? || Decode(p, n).End?
    ensures ok ==> len <= DLEN && (last <==> Decode(p, n).End?)
    ensures ok && !last ==> Decode(p, n) == Data(bno, p[3..47]) && len == DLEN
    ensures ok && last ==> Decode(p, n) == End(p[3..3 + len]) && bno == len
  {
    var s := Checksum(p);
    if s != 0 {
      return false, false, 0, 0;
    }
    var x := GetS(p[1], p[2]);
    if p[0] == TAGDATA {
      return x < n, false, x, DLEN;
    }
    if p[0] == TAGEND {
      if x > DLEN {
        return false, true, 0, 0;
      }
      return true, true, x, x;
    }
    return false, false, 0, 0;
  }

  /** Where the bytes of an end block are. */
  lemma EndBytes(p: Block, n: nat)
    requires Decode(p, n).End?
    ensures |Decode(p, n).bytes| <= DLEN && Decode(p, n).bytes == p[3..3 + |Decode(p, n).bytes|]
  {
  }

  /** Filling in the checksum makes the bytes of a block sum to nothing. */
  method Seal(body: seq<byte>) returns (p: Block)
    requires |body| == 47
    ensures p[..47] == body && Total(p) % 256 == 0
  {
    var s := Checksum(body + [0]);
    TotalConcat(body, [0]);
    assert Total([0]) == 0 + Total([0][1..]);
    var c: byte := (256 - s as int) % 256;
    p := body + [c];
    TotalConcat(body, [c]);
    assert Total([c]) == c + Total([c][1..]);
  }

  /** The block writedata puts on the medium; a block that is not the last counts as full, padded or not. */
  method DataBlock(next: nat, buf: seq<byte>, last: bool, ghost n: nat) returns (p: Block)
    requires |buf| <= DLEN && (last || next < n <= 0xffff)
    ensures Decode(p, n) == if last then End(buf) else Data(next, buf + Zeros(DLEN - |buf|))
  {
    var v := if last then |buf| else next;
    var tag := if last then TAGEND else TAGDATA;
    PutGet(v);
    var body := [tag, Low(v), High(v)] + buf + Zeros(DLEN - |buf|);
    p := Seal(body);
    assert p[0] == body[0] && p[1] == body[1] && p[2] == body[2];
    assert p[3..3 + |buf|] == p[..47][3..3 + |buf|] == body[3..3 + |buf|] == buf;
    assert p[3..47] == p[..47][3..47] == body[3..47] == buf + Zeros(DLEN - |buf|);
  }

  /** The block writedir puts on the medium; a file without data has no valid start and is not taken for one. */
  method DirBlock(dbno: nat, name: seq<byte>, pin: nat, ghost n: nat) returns (p: Block)
    requires dbno <= 0xffff && pin <= 0xffff && 0 !in name && n <= 0xffff
    ensures Decode(p, n) == if dbno < n then Dir(dbno, Cut(name), pin) else Junk
  {
    PutGet(dbno);
    PutGet(pin);
    var c := Cut(name);
    var pad := Zeros(NLEN - |c|);
    var body := [TAGDIR, Low(dbno), High(dbno), Low(pin), High(pin)] + c + pad + Zeros(14);
    p := Seal(body);
    assert p[0] == body[0] && p[1] == body[1] && p[2] == body[2] && p[3] == body[3] && p[4] == body[4];
    assert p[5..33] == p[..47][5..33] == body[5..33] == c + pad;
    NameOfPadded(c, pad);
  }

  /** The block freefile leaves behind: no checksum, so neither data nor directory. */
  function Scrubbed(): Block {
    seq(48, _ => 0x55)
  }

  lemma ScrubbedIsJunk(n: nat)
    ensures Decode(Scrubbed(), n) == Junk
  {
    TotalOf(Scrubbed());
  }

  lemma {:induction false} TotalOf(s: seq<byte>)
    requires forall i :: 0 <= i < |s| ==> s[i] == 0x55
    ensures Total(s) == 0x55 * |s|
  {
    if |s| > 0 {
      TotalOf(s[1..]);
    }
  }
}
