/**
  One reader, one qbwrite writer and any number of other producers on a byte queue (emu/qio.c with
  Sleep and Wakeup of emu/proc.c): every section under the queue's lock, every test outside it, every
  sleep and every wakeup is a step, in any interleaving. The queue is not a message queue.
 */
module QueueRun {
  import opened ByteQueue
  import opened Seqs

  datatype Reader =
    | RIdle
    | RLook(n: nat)                      // qbread: about to lock the queue
    | RDoze(n: nat)                      // found it empty: about to sleep
    | RAsleep(n: nat)
    | RSplit(rest: Bytes, wake: bool)    // has dropped the lock to copy what it did not want
    | RDone(wake: bool)                  // about to wake the writer, if need be

  datatype Writer =
    | WIdle
    | WCheck(b: Bytes)                   // qbwrite: about to test for room
    | WFlag(b: Bytes)                    // there is none: about to ask to be woken
    | WDoze(b: Bytes)                    // about to sleep
    | WAsleep(b: Bytes)
    | WPut(b: Bytes)                     // about to lock the queue
    | WDone(wake: bool)                  // about to wake the reader, if need be

  /** A producer that never sleeps, or who closes the queue. */
  datatype Other = OIdle | OWake | OClose | OCloseWriter

  /** in_ and out are the bytes that ever went in and came out; cut says that qclose threw some away. */
  datatype Sys = Sys(q: Queue, reader: Reader, writer: Writer, others: map<int, Other>, in_: Bytes, out: Bytes,
      cut: bool)

  datatype Act =
    | Read(n: nat) | ReaderStep
    | Write(b: Bytes) | WriterStep | GiveUp
    | Produce(p: int, b: Bytes) | Pass(p: int, b: Bytes) | IWrite(p: int, b: Bytes)
    | Close(p: int) | HangUp(p: int) | OtherStep(p: int)

  function WakeReader(s: Sys): Sys {
    if s.reader.RAsleep? then s.(reader := RLook(s.reader.n)) else s
  }

  function WakeWriter(s: Sys): Sys {
    if s.writer.WAsleep? then s.(writer := WCheck(s.writer.b)) else s
  }

  predicate Full(q: Queue) {
    !(q.len < q.limit || q.closed)
  }

  function ReaderMoves(s: Sys): Sys
    requires !s.reader.RIdle? && !s.reader.RAsleep?
  {
    match s.reader
    case RLook(n) =>
      if |s.q.blocks| > 0 then
        var b := s.q.blocks[0];
        if |b| > n then s.(q := Taken(s.q), reader := RSplit(b[n..], Drained(s.q)), out := s.out + b[..n])
        else s.(q := Taken(s.q), reader := RDone(Drained(s.q)), out := s.out + b)
      else if s.q.closed then s.(reader := RIdle)
      else s.(q := s.q.(starve := true), reader := RDoze(n))
    case RDoze(n) => s.(reader := if s.q.closed || |s.q.blocks| > 0 then RLook(n) else RAsleep(n))
    case RSplit(rest, wake) => s.(q := PushedBack(s.q, rest), reader := RDone(wake))
    case RDone(wake) => (if wake then WakeWriter(s) else s).(reader := RIdle)
  }

  function WriterMoves(s: Sys): Sys
    requires !s.writer.WIdle? && !s.writer.WAsleep?
  {
    match s.writer
    case WCheck(b) => s.(writer := if Full(s.q) then WFlag(b) else WPut(b))
    case WFlag(b) => s.(q := s.q.(flow := true), writer := WDoze(b))
    case WDoze(b) => s.(writer := if Full(s.q) then WAsleep(b) else WCheck(b))
    case WPut(b) =>
      if s.q.closed then s.(writer := WIdle)
        else s.(q := Appended(s.q, b), writer := WDone(s.q.starve), in_ := s.in_ + b)
    case WDone(wake) => (if wake then WakeReader(s) else s).(writer := WIdle)
  }

  predicate Ready(s: Sys, a: Act) {
    match a
    case Read(_) => s.reader.RIdle?
    case ReaderStep => !s.reader.RIdle? && !s.reader.RAsleep?
    case Write(_) => s.writer.WIdle?
    case WriterStep => !s.writer.WIdle? && !s.writer.WAsleep?
    case GiveUp => s.writer.WCheck? && Full(s.q)
    case Produce(p, _) => p in s.others && s.others[p].OIdle? && !s.q.closed
    case Pass(p, _) => p in s.others && s.others[p].OIdle?
    case IWrite(p, _) => p in s.others && s.others[p].OIdle?
    case Close(p) => p in s.others && s.others[p].OIdle?
    case HangUp(p) => p in s.others && s.others[p].OIdle?
    case OtherStep(p) => p in s.others && !s.others[p].OIdle?
  }

  function After(s: Sys, a: Act): Sys
    requires Ready(s, a)
  {
    match a
    case Read(n) => s.(reader := RLook(n))
    case ReaderStep => ReaderMoves(s)
    case Write(b) => s.(writer := WCheck(b))
    case WriterStep => WriterMoves(s)
    case GiveUp => s.(writer := WIdle)
    case Produce(p, b) =>
      if s.q.len >= s.q.limit then s.(q := Produced(s.q, b))
      else s.(q := Produced(s.q, b), in_ := s.in_ + b, others := s.others[p := if s.q.starve then OWake else OIdle])
    case Pass(p, b) => s.(q := Passed(s.q, b), in_ := s.in_ + b,
      others := s.others[p := if s.q.starve then OWake else OIdle])
    case IWrite(p, b) => s.(q := Appended(s.q, b), in_ := s.in_ + b,
      others := s.others[p := if s.q.starve then OWake else OIdle])
    case Close(p) => s.(q := s.q.(blocks := [], len := 0, closed := true), others := s.others[p := OClose], cut := true)
    case HangUp(p) => s.(q := s.q.(closed := true), others := s.others[p := OClose])
    case OtherStep(p) =>
      if s.others[p].OCloseWriter? then WakeWriter(s).(others := s.others[p := OIdle])
      else WakeReader(s).(others := s.others[p := if s.others[p].OClose? then OCloseWriter else OIdle])
  }

  /** A queue just opened, with its limit. */
  ghost predicate Init(s: Sys) {
    && s.q == Queue([], 0, s.q.limit, true, false, false) && s.reader.RIdle? && s.writer.WIdle?
    && (forall p :: p in s.others ==> s.others[p].OIdle?) && s.in_ == s.out == [] && !s.cut
  }

  /** What the reader has taken out and will put back. */
  function Rest(s: Sys): Bytes {
    if s.reader.RSplit? then s.reader.rest else []
  }

  ghost predicate DataOk(s: Sys) {
    s.q.len == |Flat(s.q.blocks)| && (!s.cut ==> s.in_ == s.out + Rest(s) + Flat(s.q.blocks))
  }

  /** A wakeup of the reader is under way. */
  ghost predicate ReaderWoken(s: Sys) {
    (s.writer.WDone? && s.writer.wake) || exists p :: p in s.others && (s.others[p].OWake? || s.others[p].OClose?)
  }

  /** A wakeup of the writer is under way. */
  ghost predicate WriterWoken(s: Sys) {
    || ((s.reader.RSplit? || s.reader.RDone?) && s.reader.wake)
    || exists p :: p in s.others && (s.others[p].OClose? || s.others[p].OCloseWriter?)
  }

  ghost predicate ReaderOk(s: Sys) {
    && (s.reader.RDoze? ==> s.q.starve || |s.q.blocks| > 0 || s.q.closed)
    && (s.reader.RAsleep? ==> ReaderWoken(s) || (|s.q.blocks| == 0 && !s.q.closed && s.q.starve))
  }

  lemma AppendKeeps(s: Sys, s': Sys, b: Bytes)
    requires DataOk(s) && s'.q.blocks == s.q.blocks + [b] && s'.q.len == s.q.len + |b|
    requires s'.in_ == s.in_ + b && s'.out == s.out && s'.cut == s.cut && Rest(s') == Rest(s)
    ensures DataOk(s')
  {
    FlatAppend(s.q.blocks, b);
    assert s.out + Rest(s) + Flat(s.q.blocks) + b == s.out + Rest(s) + (Flat(s.q.blocks) + b);
  }

  lemma SameKeeps(s: Sys, s': Sys)
    requires DataOk(s) && s'.q.blocks == s.q.blocks && s'.q.len == s.q.len
    requires s'.in_ == s.in_ && s'.out == s.out && s'.cut == s.cut && Rest(s') == Rest(s)
    ensures DataOk(s')
  {
  }

  lemma DataKept(s: Sys, a: Act)
    requires DataOk(s) && Ready(s, a)
    ensures DataOk(After(s, a))
  {
    hide Flat, DataOk;
    var s' := After(s, a);
    match a
    case Read(_) => SameKeeps(s, s');
    case ReaderStep => ReadKeeps(s);
    case Write(_) => SameKeeps(s, s');
    case WriterStep =>
      if s.writer.WPut? && !s.q.closed { AppendKeeps(s, s', s.writer.b); } else { SameKeeps(s, s'); }
    case GiveUp => SameKeeps(s, s');
    case Produce(_, b) => if s.q.len >= s.q.limit { SameKeeps(s, s'); } else { AppendKeeps(s, s', b); }
    case Pass(_, b) => AppendKeeps(s, s', b);
    case IWrite(_, b) => AppendKeeps(s, s', b);
    case Close(_) => CutKeeps(s');
    case HangUp(_) => SameKeeps(s, s');
    case OtherStep(_) => SameKeeps(s, s');
  }

  lemma CutKeeps(s: Sys)
    requires s.cut && s.q.len == 0 && s.q.blocks == []
    ensures DataOk(s)
  {
  }

  lemma ReadKeeps(s: Sys)
    requires DataOk(s) && !s.reader.RIdle? && !s.reader.RAsleep?
    ensures DataOk(ReaderMoves(s))
  {
    var s' := ReaderMoves(s);
    if s.reader.RLook? && |s.q.blocks| > 0 {
      TakeKeeps(s);
    } else if s.reader.RSplit? {
      var r := s.reader.rest;
      assert ([r] + s.q.blocks)[1..] == s.q.blocks;
      assert s.out + r + Flat(s.q.blocks) == s.out + [] + (r + Flat(s.q.blocks));
    } else {
      SameKeeps(s, s');
    }
  }

  lemma TakeKeeps(s: Sys)
    requires DataOk(s) && s.reader.RLook? && |s.q.blocks| > 0
    ensures DataOk(ReaderMoves(s))
  {
    var b, n, tail := s.q.blocks[0], s.reader.n, Flat(s.q.blocks[1..]);
    if |b| > n {
      assert b == b[..n] + b[n..];
      assert s.out + b[..n] + b[n..] + tail == s.out + [] + (b + tail);
    } else {
      assert s.out + b + [] + tail == s.out + [] + (b + tail);
    }
  }

  lemma ReaderKept(s: Sys, a: Act)
    requires ReaderOk(s) && Ready(s, a)
    ensures ReaderOk(After(s, a))
  {
    var s' := After(s, a);
    if s'.reader.RAsleep? && s.reader.RAsleep? && ReaderWoken(s) && !(s.writer.WDone? && s.writer.wake) {
      var p :| p in s.others && (s.others[p].OWake? || s.others[p].OClose?);
      assert p in s'.others && (s'.others[p].OWake? || s'.others[p].OClose?);
    } else if s'.reader.RAsleep? && (a.Produce? || a.Pass? || a.IWrite? || a.Close? || a.HangUp?) {
      assert a.p in s'.others;
    }
  }

  /** The acts can be taken one after the other. */
  ghost predicate CanRun(s: Sys, acts: seq<Act>)
    decreases |acts|
  {
    |acts| == 0 || (Ready(s, acts[0]) && CanRun(After(s, acts[0]), acts[1..]))
  }

  /** Where they lead. */
  ghost function Final(s: Sys, acts: seq<Act>): Sys
    requires CanRun(s, acts)
    decreases |acts|
  {
    if |acts| == 0 then s else Final(After(s, acts[0]), acts[1..])
  }

  lemma StepOk(s: Sys, a: Act)
    requires DataOk(s) && ReaderOk(s) && Ready(s, a)
    ensures DataOk(After(s, a)) && ReaderOk(After(s, a))
  {
    hide DataOk, ReaderOk;
    DataKept(s, a);
    ReaderKept(s, a);
  }

  lemma {:induction false} RunOk(s: Sys, acts: seq<Act>)
    requires DataOk(s) && ReaderOk(s) && CanRun(s, acts)
    ensures DataOk(Final(s, acts)) && ReaderOk(Final(s, acts))
    decreases |acts|
  {
    if |acts| > 0 {
      hide DataOk, ReaderOk, Ready, After;
      StepOk(s, acts[0]);
      RunOk(After(s, acts[0]), acts[1..]);
    }
  }

  lemma InitOk(s: Sys)
    requires Init(s)
    ensures DataOk(s) && ReaderOk(s)
  {
  }

  /** What was read is a prefix of what went in, whoever writes, even while the reader holds a remainder. */
  lemma ReadsInOrder(s: Sys, acts: seq<Act>)
    requires Init(s) && CanRun(s, acts) && !Final(s, acts).cut
    ensures var t := Final(s, acts); t.out <= t.in_ && |t.in_| == |t.out| + |Rest(t)| + t.q.len
  {
    InitOk(s);
    RunOk(s, acts);
  }

  datatype Found = Nothing | Got(b: Bytes)

  /** The first block the reader finds in a run. */
  ghost function Finds(s: Sys, acts: seq<Act>): Found
    requires CanRun(s, acts)
    decreases |acts|
  {
    if |acts| == 0 then Nothing
    else if acts[0].ReaderStep? && s.reader.RLook? && |s.q.blocks| > 0 then Got(s.q.blocks[0])
    else Finds(After(s, acts[0]), acts[1..])
  }

  /** No read begins. */
  ghost predicate NoRead(acts: seq<Act>) {
    forall i :: 0 <= i < |acts| ==> !acts[i].Read?
  }

  /** A read of n has begun and has found nothing yet. */
  predicate Wanting(r: Reader, n: nat) {
    (r.RLook? || r.RDoze? || r.RAsleep?) && r.n == n
  }

  lemma {:induction false} ReadOver(s: Sys, acts: seq<Act>)
    requires CanRun(s, acts) && NoRead(acts) && (s.reader.RSplit? || s.reader.RDone? || s.reader.RIdle?)
    ensures Final(s, acts).out == s.out && (s.q.closed ==> Final(s, acts).q.closed)
    decreases |acts|
  {
    if |acts| > 0 {
      assert !acts[0].Read?;
      ReadOver(After(s, acts[0]), acts[1..]);
    }
  }

  lemma {:induction false} ReadGoesOn(s: Sys, n: nat, acts: seq<Act>)
    requires Wanting(s.reader, n) && CanRun(s, acts) && NoRead(acts)
    ensures match Finds(s, acts)
      case Nothing => Final(s, acts).out == s.out && (Final(s, acts).reader.RIdle? ==> Final(s, acts).q.closed)
      case Got(b) => Final(s, acts).out == s.out + if |b| > n then b[..n] else b
    decreases |acts|
  {
    if |acts| > 0 {
      assert !acts[0].Read?;
      var t := After(s, acts[0]);
      if Wanting(t.reader, n) {
        ReadGoesOn(t, n, acts[1..]);
      } else {
        ReadOver(t, acts[1..]);
        FindsNothing(t, acts[1..]);
      }
    }
  }

  lemma {:induction false} FindsNothing(s: Sys, acts: seq<Act>)
    requires CanRun(s, acts) && NoRead(acts) && (s.reader.RSplit? || s.reader.RDone? || s.reader.RIdle?)
    ensures Finds(s, acts) == Nothing
    decreases |acts|
  {
    if |acts| > 0 {
      assert !acts[0].Read?;
      FindsNothing(After(s, acts[0]), acts[1..]);
    }
  }

  /**
    A read of n, from its beginning until the reader is idle again or reads on, whatever the others do meanwhile: if
    it found a block, what has been read is longer by exactly the first bytes of that block, n or as many as there are;
    it ends without one only when the queue is closed.
   */
  lemma ReadTakes(s: Sys, n: nat, acts: seq<Act>)
    requires s.reader.RIdle? && CanRun(s, [Read(n)] + acts) && NoRead(acts)
    ensures CanRun(s.(reader := RLook(n)), acts)
    ensures var t := Final(s, [Read(n)] + acts);
      match Finds(s.(reader := RLook(n)), acts)
      case Nothing => t.out == s.out && (t.reader.RIdle? ==> t.q.closed)
      case Got(b) => t.out <= s.out + b && |t.out| == |s.out| + if n < |b| then n else |b|
  {
    assert ([Read(n)] + acts)[1..] == acts;
    ReadGoesOn(s.(reader := RLook(n)), n, acts);
  }

  /** Nothing is put in and no write is given up. */
  ghost predicate NoWrite(acts: seq<Act>) {
    forall i :: 0 <= i < |acts| ==>
      var a := acts[i]; !(a.Write? || a.GiveUp? || a.Produce? || a.Pass? || a.IWrite?)
  }

  /** A write of b has begun and has put nothing in yet. */
  predicate Offering(w: Writer, b: Bytes) {
    !w.WIdle? && !w.WDone? && w.b == b
  }

  /** From s to t a write of b went on: nothing was put in before it left, and nothing after. */
  ghost predicate Goes(s: Sys, t: Sys, b: Bytes) {
    && (Offering(s.writer, b) || s.writer.WDone? || s.writer.WIdle?)
    && (Offering(t.writer, b) || t.writer.WDone? || t.writer.WIdle?)
    && (s.q.closed ==> t.q.closed) && (Offering(t.writer, b) ==> Offering(s.writer, b))
    && ((t.in_ == s.in_ && (Offering(t.writer, b) || !Offering(s.writer, b) || t.q.closed))
        || (t.in_ == s.in_ + b && Offering(s.writer, b) && !Offering(t.writer, b)))
  }

  lemma WriteGoes(s: Sys, b: Bytes, a: Act)
    requires Offering(s.writer, b) || s.writer.WDone? || s.writer.WIdle?
    requires Ready(s, a) && !(a.Write? || a.GiveUp? || a.Produce? || a.Pass? || a.IWrite?)
    ensures Goes(s, After(s, a), b)
  {
  }

  lemma {:induction false} WriteGoesOn(s: Sys, b: Bytes, acts: seq<Act>)
    requires Offering(s.writer, b) || s.writer.WDone? || s.writer.WIdle?
    requires CanRun(s, acts) && NoWrite(acts)
    ensures Goes(s, Final(s, acts), b)
    decreases |acts|
  {
    if |acts| > 0 {
      var a := acts[0];
      assert !(a.Write? || a.GiveUp? || a.Produce? || a.Pass? || a.IWrite?);
      WriteGoes(s, b, a);
      hide After, Ready;
      WriteGoesOn(After(s, a), b, acts[1..]);
    }
  }

  /** A qbwrite, from its beginning to its end, puts in exactly its bytes once, unless the queue was closed. */
  lemma WritePuts(s: Sys, b: Bytes, acts: seq<Act>)
    requires s.writer.WIdle? && CanRun(s, [Write(b)] + acts) && NoWrite(acts)
    ensures var t := Final(s, [Write(b)] + acts);
      t.writer.WIdle? ==> t.in_ == s.in_ + b || (t.in_ == s.in_ && t.q.closed)
  {
    assert ([Write(b)] + acts)[1..] == acts;
    WriteGoesOn(s.(writer := WCheck(b)), b, acts);
  }

  /** Nothing is put in and nobody closes. */
  predicate ReadsOnly(a: Act) {
    (a.Read? && a.n >= 1) || a.ReaderStep? || a.OtherStep?
  }

  ghost function Reads(acts: seq<Act>): nat {
    if |acts| == 0 then 0 else (if acts[0].Read? then 1 else 0) + Reads(acts[1..])
  }

  /** No empty blocks, and a read under way is of a byte or more. */
  ghost predicate NoneEmpty(s: Sys) {
    (forall i :: 0 <= i < |s.q.blocks| ==> s.q.blocks[i] != []) && (s.reader.RSplit? ==> s.reader.rest != [])
  }

  ghost predicate WritesSome(a: Act) {
    a.Write? || a.Pass? || a.Produce? || a.IWrite? ==> a.b != []
  }

  predicate WriterHasSome(w: Writer) {
    !w.WIdle? && !w.WDone? ==> w.b != []
  }

  lemma NoneEmptyKept(s: Sys, a: Act)
    requires NoneEmpty(s) && WriterHasSome(s.writer) && Ready(s, a) && WritesSome(a)
    ensures NoneEmpty(After(s, a)) && WriterHasSome(After(s, a).writer)
  {
  }

  lemma {:induction false} NoneEmptyRun(s: Sys, acts: seq<Act>)
    requires NoneEmpty(s) && WriterHasSome(s.writer) && CanRun(s, acts)
      && forall i :: 0 <= i < |acts| ==> WritesSome(acts[i])
    ensures NoneEmpty(Final(s, acts)) && WriterHasSome(Final(s, acts).writer)
    decreases |acts|
  {
    if |acts| > 0 {
      NoneEmptyKept(s, acts[0]);
      hide Ready, After, NoneEmpty;
      NoneEmptyRun(After(s, acts[0]), acts[1..]);
    }
  }

  function Pending(r: Reader): nat {
    if (r.RLook? || r.RDoze? || r.RAsleep?) && r.n >= 1 then 1 else 0
  }

  lemma ReadsStep(s: Sys, a: Act)
    requires NoneEmpty(s) && DataOk(s) && !s.cut && Ready(s, a) && ReadsOnly(a)
    ensures var t := After(s, a);
      && t.in_ == s.in_ && t.cut == s.cut && |t.out| >= |s.out|
      && (|t.out| + Pending(t.reader) >= |s.out| + Pending(s.reader) + (if a.Read? then 1 else 0)
          || |t.out| >= |t.in_|)
  {
    hide Flat;
    if a.ReaderStep? && s.reader.RLook? && |s.q.blocks| == 0 {
      assert Flat(s.q.blocks) == [] by { NoBlocks(s.q.blocks); }
    }
  }

  lemma NoBlocks(blocks: seq<Bytes>)
    requires |blocks| == 0
    ensures Flat(blocks) == []
  {
  }

  /** Every read ends with a byte more, or with everything read. */
  lemma {:induction false} ReadsGain(s: Sys, acts: seq<Act>)
    requires NoneEmpty(s) && WriterHasSome(s.writer) && DataOk(s) && !s.cut && CanRun(s, acts)
      && forall i :: 0 <= i < |acts| ==> ReadsOnly(acts[i])
    ensures var t := Final(s, acts);
      && t.in_ == s.in_ && t.cut == s.cut && |t.out| >= |s.out|
      && (|t.out| + Pending(t.reader) >= |s.out| + Pending(s.reader) + Reads(acts) || |t.out| >= |t.in_|)
    decreases |acts|
  {
    if |acts| > 0 {
      ReadsStep(s, acts[0]);
      NoneEmptyKept(s, acts[0]);
      DataKept(s, acts[0]);
      hide Ready, After, NoneEmpty, DataOk, ReadsOnly;
      ReadsGain(After(s, acts[0]), acts[1..]);
    }
  }

  /**
    When no empty block was ever written, and then nobody writes or closes, as many reads of a byte or more as there
    are bytes left get everything: what came out is what went in.
   */
  lemma ReadsGetAll(s: Sys, acts: seq<Act>, rest: seq<Act>)
    requires Init(s) && CanRun(s, acts) && (forall i :: 0 <= i < |acts| ==> WritesSome(acts[i]))
    requires var t := Final(s, acts);
      && !t.cut && t.reader.RIdle? && CanRun(t, rest) && (forall i :: 0 <= i < |rest| ==> ReadsOnly(rest[i]))
      && Reads(rest) >= t.q.len && Final(t, rest).reader.RIdle?
    ensures Final(Final(s, acts), rest).out == Final(Final(s, acts), rest).in_ == Final(s, acts).in_
  {
    InitOk(s);
    RunOk(s, acts);
    NoneEmptyRun(s, acts);
    var t := Final(s, acts);
    ReadsGain(t, rest);
    RunOk(t, rest);
    var u := Final(t, rest);
    hide CanRun, Final, Ready, After;
    assert u.in_ == u.out + Rest(u) + Flat(u.q.blocks);
  }

  /** The reader never sleeps on a queue with data, or on a closed one, unless it is about to be woken. */
  lemma NoLostReader(s: Sys, acts: seq<Act>)
    requires Init(s) && CanRun(s, acts) && Final(s, acts).reader.RAsleep? && !ReaderWoken(Final(s, acts))
    ensures var t := Final(s, acts); t.q.len == 0 && !t.q.closed && t.q.starve
  {
    InitOk(s);
    RunOk(s, acts);
  }

  /** Only qbwrite and qpass of at most n bytes, reads, closing. */
  predicate Quiet(a: Act, n: nat) {
    !a.Produce? && !a.IWrite? && (a.Write? || a.Pass? ==> |a.b| <= n)
  }

  /** No block put in has more than n bytes. */
  predicate Small(a: Act, n: nat) {
    a.Write? || a.Pass? || a.Produce? || a.IWrite? ==> |a.b| <= n
  }

  /** Reader and writer both sleep and nobody is about to wake either. */
  ghost predicate Stuck(s: Sys) {
    s.reader.RAsleep? && s.writer.WAsleep? && !ReaderWoken(s) && !WriterWoken(s)
  }

  ghost predicate SmallBlocks(blocks: seq<Bytes>, n: nat) {
    forall i :: 0 <= i < |blocks| ==> |blocks[i]| <= n
  }

  predicate SmallWrite(w: Writer, n: nat) {
    !w.WIdle? && !w.WDone? ==> |w.b| <= n
  }

  /** A writer about to sleep will be woken; one asleep will be, or the queue is still half full. */
  ghost predicate WaitOk(s: Sys) {
    && (s.writer.WDoze? ==> s.q.flow || s.q.closed || s.q.len + |Rest(s)| < s.q.limit)
    && (s.writer.WAsleep? ==> WriterWoken(s) || (s.q.flow && !s.q.closed && s.q.len >= s.q.limit / 2))
  }

  ghost predicate SizesOk(s: Sys, n: nat) {
    SmallBlocks(s.q.blocks, n) && SmallWrite(s.writer, n) && |Rest(s)| <= n && s.q.len == |Flat(s.q.blocks)|
  }

  lemma ReadSizes(s: Sys, n: nat)
    requires SizesOk(s, n) && !s.reader.RIdle? && !s.reader.RAsleep?
    ensures SmallBlocks(ReaderMoves(s).q.blocks, n) && |Rest(ReaderMoves(s))| <= n
      && SmallWrite(ReaderMoves(s).writer, n)
  {
    hide Flat;
    if s.reader.RSplit? {
      assert forall i :: 0 < i <= |s.q.blocks| ==> ([s.reader.rest] + s.q.blocks)[i] == s.q.blocks[i - 1];
    }
  }

  lemma LenKept(s: Sys, a: Act)
    requires s.q.len == |Flat(s.q.blocks)| && Ready(s, a)
    ensures After(s, a).q.len == |Flat(After(s, a).q.blocks)|
  {
    DataKept(s.(cut := true), a);
    assert After(s.(cut := true), a).q == After(s, a).q;
    hide Flat, After, Ready;
  }

  lemma SmallKept(s: Sys, a: Act, n: nat)
    requires SizesOk(s, n) && Ready(s, a) && Small(a, n)
    ensures SmallBlocks(After(s, a).q.blocks, n) && SmallWrite(After(s, a).writer, n) && |Rest(After(s, a))| <= n
  {
    hide Flat;
    if a.ReaderStep? {
      ReadSizes(s, n);
    } else if a.WriterStep? {
      assert WriterMoves(s).q.blocks == s.q.blocks || WriterMoves(s).q.blocks == s.q.blocks + [s.writer.b];
    } else if (a.Produce? && s.q.len < s.q.limit) || a.Pass? || a.IWrite? {
      assert After(s, a).q.blocks == s.q.blocks + [a.b];
    } else {
      assert After(s, a).q.blocks == s.q.blocks || After(s, a).q.blocks == [];
    }
  }

  lemma SizesKept(s: Sys, a: Act, n: nat)
    requires SizesOk(s, n) && Ready(s, a) && Small(a, n)
    ensures SizesOk(After(s, a), n) && After(s, a).q.limit == s.q.limit
  {
    LenKept(s, a);
    SmallKept(s, a, n);
    LimitKept(s, a);
    hide Flat, After, Ready;
  }

  lemma LimitKept(s: Sys, a: Act)
    requires Ready(s, a)
    ensures After(s, a).q.limit == s.q.limit
  {
  }

  /** A wakeup by somebody closing stays under way. */
  lemma CloserStays(s: Sys, s': Sys)
    requires s'.others == s.others && exists p :: p in s.others && (s.others[p].OClose? || s.others[p].OCloseWriter?)
    ensures WriterWoken(s')
  {
    var p :| p in s.others && (s.others[p].OClose? || s.others[p].OCloseWriter?);
    assert p in s'.others;
  }

  lemma ReadWaits(s: Sys, n: nat)
    requires SizesOk(s, n) && WaitOk(s) && !s.reader.RIdle? && !s.reader.RAsleep? && n <= s.q.limit - s.q.limit / 2
    ensures WaitOk(ReaderMoves(s))
  {
    assert |s.q.blocks| > 0 ==> |s.q.blocks[0]| <= n && s.q.len >= |s.q.blocks[0]|;
    hide Flat;
    if exists p :: p in s.others && (s.others[p].OClose? || s.others[p].OCloseWriter?) {
      CloserStays(s, ReaderMoves(s));
    }
  }

  lemma OtherWaits(s: Sys, a: Act)
    requires WaitOk(s) && Ready(s, a) && (a.Close? || a.HangUp? || a.OtherStep?)
    ensures WaitOk(After(s, a))
  {
    var s' := After(s, a);
    assert a.p in s'.others;
    if s'.writer.WAsleep? && exists p :: p in s.others && (s.others[p].OClose? || s.others[p].OCloseWriter?) {
      var p :| p in s.others && (s.others[p].OClose? || s.others[p].OCloseWriter?);
      assert p in s'.others && (s'.others[p].OClose? || s'.others[p].OCloseWriter?);
    }
  }

  lemma WriteWaits(s: Sys, n: nat)
    requires SizesOk(s, n) && WaitOk(s) && !s.writer.WIdle? && !s.writer.WAsleep?
    ensures WaitOk(WriterMoves(s))
  {
  }

  lemma WaitsKept(s: Sys, a: Act, n: nat)
    requires SizesOk(s, n) && WaitOk(s) && Ready(s, a) && Quiet(a, n) && n <= s.q.limit - s.q.limit / 2
    ensures WaitOk(After(s, a))
  {
    match a
    case ReaderStep => ReadWaits(s, n);
    case WriterStep => WriteWaits(s, n);
    case Close(_) => OtherWaits(s, a);
    case HangUp(_) => OtherWaits(s, a);
    case OtherStep(_) => OtherWaits(s, a);
    case Read(_) =>
    case Write(_) =>
    case GiveUp =>
    case Pass(_, _) => PassWaits(s, a, n);
    case _ =>
  }

  /** qpass asks for the writer's wakeup itself when it fills half the queue. */
  lemma PassWaits(s: Sys, a: Act, n: nat)
    requires SizesOk(s, n) && WaitOk(s) && Ready(s, a) && a.Pass? && n <= s.q.limit - s.q.limit / 2
    ensures WaitOk(After(s, a))
  {
    hide Flat;
    var s' := After(s, a);
    if exists p :: p in s.others && (s.others[p].OClose? || s.others[p].OCloseWriter?) {
      var p :| p in s.others && (s.others[p].OClose? || s.others[p].OCloseWriter?);
      assert p in s'.others && (s'.others[p].OClose? || s'.others[p].OCloseWriter?);
    }
  }

  /** A block tested for room and not yet put in. */
  function Admitted(w: Writer): Bytes {
    if w.WPut? then w.b else []
  }

  ghost predicate LimitOk(s: Sys, n: nat) {
    s.q.len + |Rest(s)| + |Admitted(s.writer)| <= s.q.limit - 1 + 3 * n
  }

  lemma BoundKept(s: Sys, a: Act, n: nat)
    requires SizesOk(s, n) && LimitOk(s, n) && Ready(s, a) && Small(a, n) && !a.Pass? && !a.IWrite?
    requires s.q.limit > 0 && !s.q.closed
    ensures LimitOk(After(s, a), n)
  {
    hide Flat;
    if a.ReaderStep? {
      ReadBound(s, n);
    }
  }

  lemma ReadBound(s: Sys, n: nat)
    requires SizesOk(s, n) && LimitOk(s, n) && !s.reader.RIdle? && !s.reader.RAsleep?
    ensures LimitOk(ReaderMoves(s), n)
  {
    if s.reader.RLook? && |s.q.blocks| > 0 {
      assert |Flat(s.q.blocks)| == |s.q.blocks[0]| + |Flat(s.q.blocks[1..])|;
    }
    hide Flat;
  }

  lemma {:induction false} BoundRun(s: Sys, acts: seq<Act>, n: nat)
    requires SizesOk(s, n) && LimitOk(s, n) && CanRun(s, acts) && s.q.limit > 0 && !s.q.closed
    requires forall i :: 0 <= i < |acts| ==> Small(acts[i], n) && !acts[i].Pass? && !acts[i].IWrite?
    requires !Final(s, acts).q.closed
    ensures LimitOk(Final(s, acts), n) && Final(s, acts).q.limit == s.q.limit
    decreases |acts|
  {
    if |acts| > 0 {
      SizesKept(s, acts[0], n);
      BoundKept(s, acts[0], n);
      StaysClosed(After(s, acts[0]), acts[1..]);
      LimitKept(s, acts[0]);
      hide SizesOk, LimitOk, Ready, After, Small;
      BoundRun(After(s, acts[0]), acts[1..], n);
    }
  }

  lemma {:induction false} StaysClosed(s: Sys, acts: seq<Act>)
    requires CanRun(s, acts)
    ensures s.q.closed ==> Final(s, acts).q.closed
    decreases |acts|
  {
    if |acts| > 0 {
      StaysClosed(After(s, acts[0]), acts[1..]);
    }
  }

  /**
    Flow control holds: with qbwrite and qproduce of blocks up to n bytes an open queue never has more than three such
    blocks beyond one byte less than its limit: one let in by qproduce, one by qbwrite, and what a read puts back.
   */
  lemma FlowBound(s: Sys, acts: seq<Act>, n: nat)
    requires Init(s) && CanRun(s, acts) && s.q.limit > 0 && !Final(s, acts).q.closed
    requires forall i :: 0 <= i < |acts| ==> Small(acts[i], n) && !acts[i].Pass? && !acts[i].IWrite?
    ensures Final(s, acts).q.len <= s.q.limit - 1 + 3 * n
  {
    BoundRun(s, acts, n);
  }

  lemma {:induction false} WaitsOk(s: Sys, acts: seq<Act>, n: nat)
    requires SizesOk(s, n) && WaitOk(s) && CanRun(s, acts) && n <= s.q.limit - s.q.limit / 2 && forall i ::
      0 <= i < |acts| ==> Quiet(acts[i], n)
    ensures WaitOk(Final(s, acts)) && Final(s, acts).q.limit == s.q.limit
    decreases |acts|
  {
    if |acts| > 0 {
      hide SizesOk, WaitOk, Ready, After, Quiet;
      SizesKept(s, acts[0], n);
      WaitsKept(s, acts[0], n);
      WaitsOk(After(s, acts[0]), acts[1..], n);
    }
  }

  /** With qbwrite and qpass alone and no block over half the limit, reader and writer are never both left asleep. */
  lemma NeverStuck(s: Sys, acts: seq<Act>, n: nat)
    requires Init(s) && CanRun(s, acts) && s.q.limit >= 2 && n <= s.q.limit - s.q.limit / 2 && forall i ::
      0 <= i < |acts| ==> Quiet(acts[i], n)
    ensures !Stuck(Final(s, acts))
  {
    InitOk(s);
    RunOk(s, acts);
    WaitsOk(s, acts, n);
  }

  lemma {:induction false} RunJoin(s: Sys, a: seq<Act>, b: seq<Act>)
    requires CanRun(s, a) && CanRun(Final(s, a), b)
    ensures CanRun(s, a + b) && Final(s, a + b) == Final(Final(s, a), b)
    decreases |a|
  {
    if |a| == 0 {
      assert a + b == b;
    } else {
      hide Ready, After;
      RunJoin(After(s, a[0]), a[1..], b);
      assert (a + b)[1..] == a[1..] + b;
    }
  }

  lemma Run3(s: Sys, a: Act, b: Act, c: Act)
    requires Ready(s, a) && Ready(After(s, a), b) && Ready(After(After(s, a), b), c)
    ensures CanRun(s, [a, b, c]) && Final(s, [a, b, c]) == After(After(After(s, a), b), c)
  {
    hide Ready, After;
    var s1, s2 := After(s, a), After(After(s, a), b);
    assert [a, b, c][1..] == [b, c] && [b, c][1..] == [c] && [c][1..] == [];
    Run1(s2, c);
    assert CanRun(s1, [b, c]) && Final(s1, [b, c]) == Final(s2, [c]);
  }

  lemma Run1(s: Sys, a: Act)
    requires Ready(s, a)
    ensures CanRun(s, [a]) && Final(s, [a]) == After(s, a)
  {
    assert [a][1..] == [];
  }

  /** An undisturbed qbwrite with room. */
  lemma WriteOne(s: Sys, b: Bytes) returns (acts: seq<Act>)
    requires s.writer.WIdle? && s.reader.RIdle? && s.q.len < s.q.limit && !s.q.closed
    ensures CanRun(s, acts) && Final(s, acts) == s.(q := Appended(s.q, b), in_ := s.in_ + b)
    ensures forall i, n :: 0 <= i < |acts| && n >= |b| ==> Quiet(acts[i], n)
  {
    Run3(s, Write(b), WriterStep, WriterStep);
    var t := s.(q := Appended(s.q, b), in_ := s.in_ + b, writer := WDone(s.q.starve));
    Run1(t, WriterStep);
    RunJoin(s, [Write(b), WriterStep, WriterStep], [WriterStep]);
    acts := [Write(b), WriterStep, WriterStep] + [WriterStep];
  }

  /** A writer finds no room and asks to be woken. */
  lemma AskForRoom(s: Sys, b: Bytes) returns (acts: seq<Act>)
    requires s.writer.WIdle? && Full(s.q)
    ensures CanRun(s, acts) && Final(s, acts) == s.(q := s.q.(flow := true), writer := WDoze(b))
    ensures forall i, n :: 0 <= i < |acts| && n >= |b| ==> Quiet(acts[i], n)
  {
    Run3(s, Write(b), WriterStep, WriterStep);
    acts := [Write(b), WriterStep, WriterStep];
  }

  /** A read of a whole block while the writer is awake, or while nobody asked to be woken. */
  lemma ReadOne(s: Sys) returns (acts: seq<Act>)
    requires s.reader.RIdle? && |s.q.blocks| > 0 && (Drained(s.q) ==> !s.writer.WAsleep?)
    ensures CanRun(s, acts) && Final(s, acts) == s.(q := Taken(s.q), out := s.out + s.q.blocks[0])
    ensures forall i, n :: 0 <= i < |acts| ==> Quiet(acts[i], n)
  {
    Run3(s, Read(|s.q.blocks[0]|), ReaderStep, ReaderStep);
    acts := [Read(|s.q.blocks[0]|), ReaderStep, ReaderStep];
  }

  /** A read of nothing: the first block goes out and comes back, and the writer's request is forgotten. */
  lemma ReadNothing(s: Sys) returns (acts: seq<Act>)
    requires s.reader.RIdle? && |s.q.blocks| > 0 && |s.q.blocks[0]| > 0 && s.writer.WDoze? && Drained(s.q)
    ensures CanRun(s, acts) && Final(s, acts) == s.(q := s.q.(flow := false))
    ensures forall i, n :: 0 <= i < |acts| ==> Quiet(acts[i], n)
  {
    var b := s.q.blocks[0];
    Run3(s, Read(0), ReaderStep, ReaderStep);
    assert b[0..] == b && s.out + b[..0] == s.out && [b] + s.q.blocks[1..] == s.q.blocks;
    var t := s.(q := s.q.(flow := false), reader := RDone(true));
    Run1(t, ReaderStep);
    RunJoin(s, [Read(0), ReaderStep, ReaderStep], [ReaderStep]);
    acts := [Read(0), ReaderStep, ReaderStep] + [ReaderStep];
  }

  /** A read of an empty queue. */
  lemma ReaderSleeps(s: Sys) returns (acts: seq<Act>)
    requires s.reader.RIdle? && |s.q.blocks| == 0 && !s.q.closed
    ensures CanRun(s, acts) && Final(s, acts) == s.(q := s.q.(starve := true), reader := RAsleep(1))
    ensures forall i, n :: 0 <= i < |acts| ==> Quiet(acts[i], n)
  {
    Run3(s, Read(1), ReaderStep, ReaderStep);
    acts := [Read(1), ReaderStep, ReaderStep];
  }

  /** The writer goes to sleep, the reader empties the queue and goes to sleep: nobody wakes either. */
  lemma {:induction false} BothSleep(s: Sys) returns (acts: seq<Act>)
    requires s.reader.RIdle? && s.writer.WAsleep? && !s.q.flow && !s.q.closed && forall p :: p in s.others ==>
      s.others[p].OIdle?
    ensures CanRun(s, acts) && Stuck(Final(s, acts))
    ensures forall i, n :: 0 <= i < |acts| ==> Quiet(acts[i], n)
    decreases |s.q.blocks|
  {
    if |s.q.blocks| == 0 {
      acts := ReaderSleeps(s);
    } else {
      var a := ReadOne(s);
      hide Stuck;
      var t := Final(s, a);
      var b := BothSleep(t);
      RunJoin(s, a, b);
      acts := a + b;
    }
  }

  /**
    A full queue whose first block is most of it: a writer who asks for room just before a read of nothing is never
    woken.
   */
  lemma RequestForgotten(s: Sys) returns (acts: seq<Act>)
    requires s.reader.RIdle? && s.writer.WIdle? && Full(s.q) && |s.q.blocks| > 0 && |s.q.blocks[0]| > 0
    requires s.q.len - |s.q.blocks[0]| < s.q.limit / 2 && forall p :: p in s.others ==> s.others[p].OIdle?
    ensures CanRun(s, acts) && Stuck(Final(s, acts))
    ensures forall i, n :: 0 <= i < |acts| ==> Quiet(acts[i], n)
  {
    var a := AskForRoom(s, []);
    var s1 := Final(s, a);
    var b := ReadNothing(s1);
    var s2 := Final(s1, b);
    Run1(s2, WriterStep);
    var s3 := After(s2, WriterStep);
    var c := BothSleep(s3);
    hide Stuck, Ready, After, Quiet;
    RunJoin(s2, [WriterStep], c);
    RunJoin(s1, b, [WriterStep] + c);
    RunJoin(s, a, b + ([WriterStep] + c));
    acts := a + (b + ([WriterStep] + c));
  }

  /** A larger block than that, and there is a run that leaves both asleep. */
  lemma CanGetStuck(s: Sys, n: nat) returns (acts: seq<Act>)
    requires Init(s) && s.q.limit >= 2 && n > s.q.limit - s.q.limit / 2
    ensures CanRun(s, acts) && Stuck(Final(s, acts)) && forall i :: 0 <= i < |acts| ==> Quiet(acts[i], n)
  {
    var big := seq(n, _ => 0);
    var a := WriteOne(s, big);
    var t := Final(s, a);
    if n < s.q.limit {
      var c := WriteOne(t, seq(s.q.limit / 2 - 1, _ => 0));
      var u := Final(t, c);
      var d := RequestForgotten(u);
      hide Stuck, Ready, After;
      RunJoin(t, c, d);
      RunJoin(s, a, c + d);
      acts := a + (c + d);
    } else {
      var d := RequestForgotten(t);
      hide Stuck, Ready, After;
      RunJoin(s, a, d);
      acts := a + d;
    }
  }

  /**
    A queue is safe with blocks of up to n bytes: no run with qbwrite and qpass alone leaves reader and writer asleep
    for ever.
   */
  ghost predicate Safe(s: Sys, n: nat) {
    forall acts :: CanRun(s, acts) && (forall i :: 0 <= i < |acts| ==> Quiet(acts[i], n)) ==> !Stuck(Final(s, acts))
  }

  /** Exactly when both cannot be left asleep: no block over half the limit. */
  lemma SafeExactly(s: Sys, n: nat)
    requires Init(s) && s.q.limit >= 2
    ensures Safe(s, n) <==> n <= s.q.limit - s.q.limit / 2
  {
    if n <= s.q.limit - s.q.limit / 2 {
      forall acts | CanRun(s, acts) && forall i :: 0 <= i < |acts| ==> Quiet(acts[i], n)
        ensures !Stuck(Final(s, acts))
      {
        NeverStuck(s, acts, n);
      }
    } else {
      var acts := CanGetStuck(s, n);
      assert !Safe(s, n);
    }
  }

  /** The length kept is that of the blocks. */
  ghost predicate Counted(q: Queue) {
    q.len == |Flat(q.blocks)|
  }

  lemma AppendCounted(q: Queue, b: Bytes)
    requires Counted(q)
    ensures Counted(Appended(q, b))
  {
    FlatAppend(q.blocks, b);
  }

  /** k bytes written one at a time. */
  lemma {:induction false} WriteMany(s: Sys, k: nat) returns (acts: seq<Act>)
    requires s.writer.WIdle? && s.reader.RIdle? && !s.q.closed && s.q.len + k <= s.q.limit && Counted(s.q)
    ensures CanRun(s, acts)
    ensures var t := Final(s, acts);
      && t == s.(q := t.q, in_ := t.in_) && Counted(t.q)
      && t.q.len == s.q.len + k && t.q == s.q.(blocks := t.q.blocks, len := t.q.len, starve := s.q.starve && k == 0)
    ensures forall i :: 0 <= i < |acts| ==> Quiet(acts[i], 1)
    decreases k
  {
    if k == 0 {
      acts := [];
    } else {
      var a := WriteOne(s, [0]);
      AppendCounted(s.q, [0]);
      var t := Final(s, a);
      var b := WriteMany(t, k - 1);
      hide Ready, After, Quiet, Counted;
      RunJoin(s, a, b);
      acts := a + b;
    }
  }

  /** Everything is read before a writer who has asked for room is asleep: the request is met too soon. */
  lemma {:induction false} ReadAll(s: Sys) returns (acts: seq<Act>)
    requires s.reader.RIdle? && s.writer.WDoze? && Counted(s.q) && s.q.limit >= 2
    ensures CanRun(s, acts)
    ensures var t := Final(s, acts);
      && t == s.(q := t.q, out := t.out) && t.q.blocks == []
      && t.q == s.q.(blocks := [], len := 0, flow := s.q.flow && |s.q.blocks| == 0)
    ensures forall i :: 0 <= i < |acts| ==> Quiet(acts[i], 1)
    decreases |s.q.blocks|
  {
    if |s.q.blocks| == 0 {
      acts := [];
    } else {
      var a := ReadOne(s);
      var t := Final(s, a);
      assert |Flat(s.q.blocks)| == |s.q.blocks[0]| + |Flat(s.q.blocks[1..])|;
      var b := ReadAll(t);
      hide Ready, After, Quiet, Counted, Flat;
      RunJoin(s, a, b);
      acts := a + b;
    }
  }

  /** A byte more by qproduce or qiwrite. */
  function OneMore(p: int, producing: bool): Act {
    if producing then Produce(p, [0]) else IWrite(p, [0])
  }

  /** k bytes put in one at a time by a producer with nobody to wake. */
  lemma {:induction false} Refill(s: Sys, p: int, producing: bool, k: nat) returns (acts: seq<Act>)
    requires p in s.others && s.others[p].OIdle? && !s.q.starve && !s.q.closed && s.q.len + k <= s.q.limit
    ensures CanRun(s, acts)
    ensures var t := Final(s, acts);
      && t == s.(q := t.q, in_ := t.in_)
      && t.q.len == s.q.len + k && t.q == s.q.(blocks := t.q.blocks, len := t.q.len)
    ensures forall i :: 0 <= i < |acts| ==> acts[i] == OneMore(p, producing)
    decreases k
  {
    if k == 0 {
      acts := [];
    } else {
      var a := OneMore(p, producing);
      Run1(s, a);
      assert s.others[p := OIdle] == s.others;
      var t := After(s, a);
      var b := Refill(t, p, producing, k - 1);
      hide Ready, After;
      RunJoin(s, [a], b);
      acts := [a] + b;
    }
  }

  /**
    With qproduce or qiwrite beside qbwrite no bound on the blocks helps, not even single bytes: these
    can fill the queue again after the writer's request was met and before the writer is asleep.
   */
  lemma FillingCanStick(s: Sys, p: int, producing: bool) returns (acts: seq<Act>)
    requires Init(s) && s.q.limit >= 2 && p in s.others
    ensures CanRun(s, acts) && Stuck(Final(s, acts))
    ensures forall i :: 0 <= i < |acts| ==> Quiet(acts[i], 1) || acts[i] == OneMore(p, producing)
  {
    var a := WriteMany(s, s.q.limit);
    var s1 := Final(s, a);
    assert |s1.q.blocks| > 0 by {
      assert |Flat(s1.q.blocks)| > 0;
    }
    var b := AskForRoom(s1, []);
    var s2 := Final(s1, b);
    var c := ReadAll(s2);
    var s3 := Final(s2, c);
    var d := Refill(s3, p, producing, s.q.limit);
    var s4 := Final(s3, d);
    Run1(s4, WriterStep);
    var e := BothSleep(After(s4, WriterStep));
    hide Stuck, Ready, After;
    RunJoin(s4, [WriterStep], e);
    RunJoin(s3, d, [WriterStep] + e);
    RunJoin(s2, c, d + ([WriterStep] + e));
    RunJoin(s1, b, c + (d + ([WriterStep] + e)));
    acts := b + (c + (d + ([WriterStep] + e)));
    RunJoin(s, a, acts);
    acts := a + acts;
  }
}
