/**
  mntrpcread (emu/devmnt.c): messages cut out of a byte stream that arrives in pieces of any size,
  with what is left over kept for the next call.
 */
module StyxStream {
  import opened Bytes
  import opened Styx
  import opened StyxCodec

  const MAXRPC := 8192 + 128

  /** The channel to the server: what it will still send, in pieces that only it knows. */
  class Channel {
    var stream: seq<byte>

    constructor (stream: seq<byte>)
      ensures this.stream == stream
    {
      this.stream := stream;
    }

    /** Some bytes, at most n; none only at the end of the stream or when none were asked for. */
    method Read(n: nat) returns (b: seq<byte>)
      modifies this
      ensures old(stream) == b + stream && |b| <= n && (|b| == 0 <==> n == 0 || |old(stream)| == 0)
    {
      var k: nat :| k <= n && k <= |stream| && (k == 0 <==> n == 0 || |stream| == 0);
      b := stream[..k];
      stream := stream[k..];
    }
  }

  datatype Outcome = Ok(f: Fcall) | BadType | Hungup

  class Mnt {
    const c: Channel
    const part: array<byte>
    var npart: nat

    constructor (c: Channel)
      ensures Valid() && this.c == c && fresh(part) && npart == 0
    {
      this.c := c;
      part := new byte[MAXRPC];
      npart := 0;
    }

    ghost predicate Valid()
      reads this
    {
      npart <= part.Length == MAXRPC
    }

    /** The stream from the first byte that no message has used. */
    ghost function Pending(): seq<byte>
      requires Valid()
      reads this, part, c
    {
      part[..npart] + c.stream
    }

    /** What was left over goes to the front of the buffer. */
    method Restore(rpc: array<byte>)
      requires Valid() && rpc.Length == MAXRPC && rpc != part
      modifies rpc
      ensures rpc[..npart] == part[..npart]
    {
      forall i | 0 <= i < npart {
        rpc[i] := part[i];
      }
    }

    /** One read behind the first buf bytes. */
    method Fill(rpc: array<byte>, buf: nat) returns (n: nat)
      requires Valid() && rpc.Length == MAXRPC && rpc != part && buf <= MAXRPC
      modifies rpc, c
      ensures buf + n <= MAXRPC && rpc[..buf + n] + c.stream == old(rpc[..buf] + c.stream)
        && |old(c.stream)| == n + |c.stream|
      ensures n == 0 <==> buf == MAXRPC || |old(c.stream)| == 0
    {
      ghost var was := rpc[..buf];
      var b := c.Read(MAXRPC - buf);
      n := |b|;
      forall i | 0 <= i < n {
        rpc[buf + i] := b[i];
      }
      assert rpc[..buf + n] == was + b;
    }

    /** n bytes behind a message are left over. */
    method Keep(rpc: array<byte>, cn: nat, n: nat)
      requires Valid() && rpc.Length == MAXRPC && rpc != part && cn + n <= MAXRPC
      modifies this`npart, part
      ensures Valid() && npart == n && part[..n] == rpc[cn..cn + n]
    {
      npart := n;
      forall i | 0 <= i < n {
        part[i] := rpc[cn + i];
      }
    }

    /** The next message. Which it is, and what is left, depends on the stream alone, not on how it was cut up. */
    method RpcRead(rpc: array<byte>, reply: Fcall) returns (r: Outcome)
      requires Valid() && rpc.Length == MAXRPC && rpc != part
      modifies this`npart, part, c, rpc
      ensures Valid()
      ensures var m := Front(old(Pending()));
        if m.Message? && m.len <= MAXRPC then m.len <= |old(Pending())| && Pending() == old(Pending())[m.len..]
          && r.Ok? && Agree(r.f, m.f)
        else if m.Bad? then r == BadType
        else r == Hungup
    {
      hide Agree, Decode, Fields;
      ghost var s := Pending();
      var f := reply;
      var buf, eof, check := 0, false, npart > 0;
      if check {
        Restore(rpc);
        buf := npart;
        npart := 0;
      }
      assert rpc[..buf] + c.stream == s;
      Front1(s, 0);
      while true
        invariant buf <= MAXRPC && rpc[..buf] + c.stream == s && Valid() && npart == 0
        invariant !check ==> Front(s[..buf]).More?
        decreases |c.stream|, if check then 2 else 1, if eof then 0 else 1
      {
        if !check {
          f := f.(tag := 0, kind := 0);
          var k := Fill(rpc, buf);
          if k == 0 {
            if eof {
              Front1(s, buf);
              return Hungup;
            }
            eof := true;
            continue;
          }
          eof := false;
          buf := buf + k;
        }
        check := false;
        assert rpc[..buf] == s[..buf];
        var cn, g := ConvM2S(rpc, f, buf);
        DecodeBoth(rpc[..buf], f, BLANK);
        Front1(s, buf);
        f := g;
        if cn < 0 {
          return BadType;
        }
        if cn > 0 {
          Keep(rpc, cn, buf - cn);
          assert part[..npart] == s[..buf][cn..] && c.stream == s[buf..];
          TailJoin(s, buf, cn);
          return Ok(f);
        }
      }
    }
  }

  /** What part of a stream shows of its first message. */
  lemma Front1(s: seq<byte>, n: nat)
    requires n <= |s|
    ensures var m, p := Front(s), Front(s[..n]);
      && (m.Message? ==> 3 <= m.len <= |s| && p == if n >= m.len then m else More)
      && (m.Bad? ==> |s| >= 3 && p == if n >= 3 then Bad else More) && (m.More? ==> p.More?)
  {
    DecodePrefix(s, BLANK, n);
  }

  lemma TailJoin(s: seq<byte>, n: nat, k: nat)
    requires k <= n <= |s|
    ensures s[..n][k..] + s[n..] == s[k..]
  {
  }
}
