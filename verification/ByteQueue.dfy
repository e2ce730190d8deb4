/**
  I/O queues (emu/qio.c): the sections that qbwrite, qproduce, qpass, qiwrite, qbread, qclose and
  qhangup run while they hold the queue's lock, on the linked list of blocks.
 */
module ByteQueue {
  import opened Links
  import opened Seqs

  type Block = int
  const NIL := 0

  type Bytes = seq<int>

  /** A queue as a value. starve: the reader asked to be woken; flow: a writer did. */
  datatype Queue = Queue(blocks: seq<Bytes>, len: int, limit: int, starve: bool, flow: bool, closed: bool)

  /** A block at the end: the end of qbwrite, qproduce and qiwrite. */
  function Appended(q: Queue, b: Bytes): Queue {
    q.(blocks := q.blocks + [b], len := q.len + |b|, starve := false)
  }

  /** qpass turns on flow control when the queue is half full. */
  function Passed(q: Queue, b: Bytes): Queue {
    Appended(q, b).(flow := q.flow || q.len + |b| >= q.limit / 2)
  }

  /** qproduce refuses when the queue is full. */
  function Produced(q: Queue, b: Bytes): Queue {
    if q.len >= q.limit then q.(flow := true) else Appended(q, b)
  }

  /** A writer in flow control is to be woken when less than half is left. */
  predicate Drained(q: Queue)
    requires |q.blocks| > 0
  {
    q.flow && q.len - |q.blocks[0]| < q.limit / 2
  }

  /** The first block out: qbread. */
  function Taken(q: Queue): Queue
    requires |q.blocks| > 0
  {
    q.(blocks := q.blocks[1..], len := q.len - |q.blocks[0]|, flow := q.flow && !Drained(q))
  }

  /** What a read left of a block, back at the front. */
  function PushedBack(q: Queue, b: Bytes): Queue {
    q.(blocks := [b] + q.blocks, len := q.len + |b|)
  }

  /** The blocks have contents. */
  ghost predicate Filled(data: map<Block, Bytes>, ids: seq<Block>) {
    forall b :: b in ids ==> b in data
  }

  /** The contents of the blocks. */
  ghost function Contents(data: map<Block, Bytes>, ids: seq<Block>): seq<Bytes> {
    if |ids| == 0 then [] else [if ids[0] in data then data[ids[0]] else []] + Contents(data, ids[1..])
  }

  class IOQueue {
    var bfirst: Block
    var blast: Block
    var next: map<Block, Block>
    var data: map<Block, Bytes>
    var len: int
    const limit: int
    var starve: bool
    var flow: bool
    var closed: bool
    ghost var ids: seq<Block>

    ghost function Value(): Queue
      reads this
    {
      Queue(Contents(data, ids), len, limit, starve, flow, closed)
    }

    /** blast is the last block, and left over when there is none. */
    ghost predicate Valid()
      reads this
    {
      && Linked(next, bfirst, ids) && Filled(data, ids) && NoDup(ids) && NIL !in ids
      && (|ids| > 0 ==> blast == ids[|ids| - 1])
    }

    /** qopen */
    constructor (limit: int)
      ensures Valid() && Value() == Queue([], 0, limit, true, false, false)
    {
      this.limit := limit;
      bfirst, blast, next, data, len, starve, flow, closed, ids := NIL, NIL, map[], map[], 0, true, false, false, [];
    }

    /** The block goes to the end; a block just allocated has no next. */
    method Link(b: Block, bytes: Bytes)
      requires Valid() && b != NIL && b !in ids
      modifies this`bfirst, this`blast, this`next, this`data, this`len, this`ids
      ensures Valid() && ids == old(ids) + [b] && Value() ==
        old(Value()).(blocks := old(Value()).blocks + [bytes], len := old(len) + |bytes|)
    {
      LinkedMore(next, bfirst, ids, b);
      ContentsMore(data, ids, b, bytes);
      data := data[b := bytes];
      if bfirst != NIL {
        next := next[b := NIL];
        next := next[blast := b];
        assert next == old(next)[old(blast) := b][b := NIL];
      } else {
        next := next[b := NIL];
        bfirst := b;
      }
      blast := b;
      len := len + |bytes|;
      ids := ids + [b];
    }

    /** The section of qbwrite, and of qiwrite; true if the reader is to be woken. */
    method Append(b: Block, bytes: Bytes) returns (wake: bool)
      requires Valid() && b != NIL && b !in ids
      modifies this
      ensures Valid() && Value() == Appended(old(Value()), bytes) && wake == old(starve)
    {
      Link(b, bytes);
      wake := starve;
      if starve {
        starve := false;
      }
    }

    /** The section of qproduce. */
    method Produce(b: Block, bytes: Bytes) returns (ok: bool, wake: bool)
      requires Valid() && b != NIL && b !in ids
      modifies this
      ensures Valid() && Value() == Produced(old(Value()), bytes) && ok == (old(len) < limit)
        && wake == (ok && old(starve))
    {
      if len >= limit {
        flow := true;
        return false, false;
      }
      wake := Append(b, bytes);
      ok := true;
    }

    /** The section of qpass. */
    method Pass(b: Block, bytes: Bytes) returns (wake: bool)
      requires Valid() && b != NIL && b !in ids
      modifies this
      ensures Valid() && Value() == Passed(old(Value()), bytes) && wake == old(starve)
    {
      Link(b, bytes);
      if len >= limit / 2 {
        flow := true;
      }
      wake := starve;
      if starve {
        starve := false;
      }
    }

    /** The section of qbread when there is a block; wake if the writer is to be woken. */
    method Take() returns (b: Block, wake: bool)
      requires Valid() && |ids| > 0
      modifies this
      ensures Valid() && b == old(ids)[0] && ids == old(ids)[1..] && b in data && data == old(data)
        && |old(Value()).blocks| > 0
      ensures Value() == Taken(old(Value())) && wake == Drained(old(Value())) && data[b] == old(Value()).blocks[0]
    {
      b := bfirst;
      bfirst := next[b];
      ids := ids[1..];
      len := len - |data[b]|;
      wake := flow && len < limit / 2;
      if wake {
        flow := false;
      }
    }

    /** The second section of qbread: what was too much goes back to the front. */
    method PushBack(b: Block, rest: Bytes)
      requires Valid() && b != NIL && b !in ids
      modifies this
      ensures Valid() && Value() == PushedBack(old(Value()), rest)
    {
      LinkedFrame(next, next[b := bfirst], bfirst, ids);
      ContentsFrame(data, data[b := rest], ids);
      data := data[b := rest];
      next := next[b := bfirst];
      if bfirst == NIL {
        blast := b;
      }
      bfirst := b;
      len := len + |rest|;
      ids := [b] + ids;
      assert ids[1..] == old(ids);
    }

    /** The section of qclose. */
    method Close()
      requires Valid()
      modifies this
      ensures Valid() && Value() == old(Value()).(blocks := [], len := 0, closed := true)
    {
      closed := true;
      bfirst := NIL;
      len := 0;
      ids := [];
    }
  }

  lemma {:induction false} ContentsFrame(data: map<Block, Bytes>, data': map<Block, Bytes>, ids: seq<Block>)
    requires forall i :: 0 <= i < |ids| ==>
      (ids[i] in data <==> ids[i] in data') && (ids[i] in data ==> data'[ids[i]] == data[ids[i]])
    ensures Contents(data', ids) == Contents(data, ids)
  {
    if |ids| > 0 {
      ContentsFrame(data, data', ids[1..]);
    }
  }

  lemma {:induction false} ContentsMore(data: map<Block, Bytes>, ids: seq<Block>, b: Block, bytes: Bytes)
    requires b !in ids
    ensures Contents(data[b := bytes], ids + [b]) == Contents(data, ids) + [bytes]
  {
    if |ids| == 0 {
      assert ids + [b] == [b] && [b][1..] == [];
    } else {
      assert (ids + [b])[1..] == ids[1..] + [b];
      ContentsMore(data, ids[1..], b, bytes);
    }
  }
}
