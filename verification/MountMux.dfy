/**
  The mount driver's multiplexer (emu/devmnt.c): many processes have requests out on one channel,
  one at a time reads it, files the replies of the others, and passes the reading on. Every section
  under the mount point's lock, every sleep and every wakeup is a step, in any interleaving; the
  server may send any tag at any time, any process may be interrupted, and any flush may fail to be
  sent.
 */
module MountMux {
  import opened Procs
  import opened Seqs
  import opened Sets

  const TAGFLS := 0x8000
  const TAGEND := 0xfffe

  /**
    A request. sent has the tags of its flushes and hung says that the channel hung up; both are kept for the proof.
   */
  datatype Rpc = Rpc(tag: int, flushtag: int, flushed: bool, done: bool, buf: int, reply: int, sent: set<int>,
      hung: bool)

  datatype PC =
    | Off
    | Start             // has a fresh request, about to queue it
    | Writing           // sends it
    | Gate              // about to look whether somebody reads
    | Dozing            // somebody does: about to sleep
    | Asleep            // on the request's rendez
    | Woken
    | Flushing(picked: bool)  // interrupted: about to take a flush tag; picked: while being woken to read
    | Sending(picked: bool)   // sends the flush
    | Reading           // is the reader
    | Got(t: int)       // has read a reply with tag t
    | Swapping(q: Proc) // it completes q's request
    | Waking(q: Proc)   // which is done: wakes q
    | Closing           // its own request is done: about to give up the reading
    | Scanning          // has given it up, looks for a sleeper
    | Rousing(q: Proc)  // wakes q to read

  datatype Act = Plain | Interrupt | FlushFail | Hangup | Reply(t: int)

  datatype Mnt = Mnt(pc: map<Proc, PC>, rpc: map<Proc, Rpc>, lock: Proc, rip: Proc, queue: seq<Proc>, flushtag: int)

  function Go(s: Mnt, p: Proc, c: PC): Mnt {
    s.(pc := s.pc[p := c])
  }

  /** Wakeup on the rendez of q's request. */
  function Wake(s: Mnt, q: Proc): Mnt {
    if q in s.pc && s.pc[q].Asleep? then Go(s, q, Woken) else s
  }

  predicate Matches(r: Rpc, t: int) {
    r.tag == t || (r.flushed && r.flushtag == t)
  }

  /** The place in the queue of the request a reply is for, or the end. */
  function Find(rpc: map<Proc, Rpc>, queue: seq<Proc>, t: int): (i: nat)
    ensures i <= |queue|
    ensures i < |queue| ==> queue[i] in rpc && Matches(rpc[queue[i]], t)
  {
    if |queue| == 0 then 0
    else if queue[0] in rpc && Matches(rpc[queue[0]], t) then 0
    else 1 + Find(rpc, queue[1..], t)
  }

  /** The place of the first request not done whose process sleeps, or the end. */
  function Sleeper(s: Mnt, queue: seq<Proc>): (i: nat)
    ensures i <= |queue|
    ensures i < |queue| ==> queue[i] in s.pc && queue[i] in s.rpc && !s.rpc[queue[i]].done && s.pc[queue[i]].Asleep?
  {
    if |queue| == 0 then 0
    else if queue[0] in s.pc && queue[0] in s.rpc && !s.rpc[queue[0]].done && s.pc[queue[0]].Asleep? then 0
    else 1 + Sleeper(s, queue[1..])
  }

  function Unlinked(queue: seq<Proc>, i: nat): seq<Proc>
    requires i < |queue|
  {
    queue[..i] + queue[i + 1..]
  }

  function NextTag(t: int): int {
    if t + 1 == TAGEND then TAGFLS else t + 1
  }

  /** mntflush under the lock. */
  function Flushed(s: Mnt, p: Proc): Mnt
    requires p in s.rpc
  {
    s.(rpc := s.rpc[p := s.rpc[p].(flushtag := s.flushtag, flushed := true, sent := s.rpc[p].sent + {s.flushtag})],
       flushtag := NextTag(s.flushtag))
  }

  /** mntqrm: the request is given up. */
  function Given(s: Mnt, p: Proc): Mnt
    requires p in s.rpc
  {
    s.(queue := Removed(s.queue, p), rpc := s.rpc[p := s.rpc[p].(done := true, flushed := false, hung := true)])
  }

  /** Somebody has given up the reading and is about to wake p for it. */
  predicate BeingRoused(s: Mnt, p: Proc) {
    exists r :: r in s.pc && s.pc[r] == Rousing(p)
  }

  predicate Ready(s: Mnt, p: Proc, a: Act)
    requires p in s.pc && p in s.rpc
  {
    match s.pc[p]
    case Off | Dozing | Woken | Rousing(_) => a.Plain?
    case Sending(_) => a.Plain? || (a.FlushFail? && s.lock == NOBODY)
    case Writing => a.Plain? || a.Interrupt?
    case Asleep => a.Interrupt?
    case Reading => if s.rpc[p].done then a.Plain? else a.Reply? || ((a.Interrupt? || a.Hangup?) && s.lock == NOBODY)
    case Swapping(q) => a.Plain? && q in s.rpc
    case Waking(_) | Scanning => a.Plain?
    case _ => a.Plain? && s.lock == NOBODY
  }

  function After(s: Mnt, p: Proc, a: Act): Mnt
    requires p in s.pc && p in s.rpc && Ready(s, p, a)
  {
    var r := s.rpc[p];
    match s.pc[p]
    case Off => Go(s, p, Start).(rpc := s.rpc[p := r.(done := false, flushed := false, sent := {}, hung := false)])
    case Start => Go(s, p, Writing).(queue := [p] + s.queue, rpc := s.rpc[p := r.(flushed := false)])
    case Writing => Go(s, p, if a.Plain? then Gate else Flushing(false))
    case Gate => if s.rip == NOBODY then Go(s, p, Reading).(rip := p) else Go(s, p, Dozing)
    case Dozing => Go(s, p, if r.done || s.rip == NOBODY then Woken else Asleep)
    case Asleep => Go(s, p, Flushing(BeingRoused(s, p)))
    case Woken => Go(s, p, if r.done then Off else Gate)
    case Flushing(picked) => Go(Flushed(s, p), p, Sending(picked))
    case Sending(_) => if a.Plain? then Go(s, p, Gate) else Go(Given(s, p), p, Off)
    case Reading =>
      if r.done then Go(s, p, Closing)
      else if a.Reply? then Go(s, p, Got(a.t)).(rpc := s.rpc[p := r.(reply := a.t)])
      else if a.Interrupt? then Flushed(s, p)
      else Go(Given(s, p), p, Closing)
    case Got(t) =>
      var i := Find(s.rpc, s.queue, t);
      if i == |s.queue| then Go(s, p, Reading)
      else if s.queue[i] == p then
        Go(s, p, Reading).(queue := Unlinked(s.queue, i), rpc := s.rpc[p := r.(done := true)])
      else Go(s, p, Swapping(s.queue[i])).(queue := Unlinked(s.queue, i))
    case Swapping(q) =>
      Go(s, p, Waking(q)).(rpc := s.rpc[p := r.(buf := s.rpc[q].buf)][q := s.rpc[q].(buf := r.buf, reply := r.reply,
        done := true)])
    case Waking(q) => Go(Wake(s, q), p, Reading)
    case Closing => Go(s, p, Scanning).(lock := p, rip := NOBODY)
    case Scanning =>
      var i := Sleeper(s, s.queue);
      Go(s, p, if i == |s.queue| then Off else Rousing(s.queue[i])).(lock := NOBODY)
    case Rousing(q) => Go(Wake(s, q), p, Off)
  }

  ghost predicate AnyStep(s: Mnt, s': Mnt, p: Proc, a: Act) {
    p in s.pc && p in s.rpc && Ready(s, p, a) && s' == After(s, p, a)
  }

  /** This is not the failing flush of a request that the reader is about to complete, which would then be reused. */
  ghost predicate KeepsInHand(s: Mnt, p: Proc, a: Act) {
    a.FlushFail? && p in s.pc && s.pc[p].Sending? ==> !InHand(s, p)
  }

  /** Nor is this the failing flush of a process that was just being woken to read, which it then never does. */
  ghost predicate KeepsRoused(s: Mnt, p: Proc, a: Act) {
    a.FlushFail? && p in s.pc && s.pc[p].Sending? ==> !s.pc[p].picked
  }

  /** No request is linked into the queue while it is there: the list of the source would become a ring. */
  ghost predicate LinksOnce(s: Mnt, p: Proc) {
    p in s.pc && s.pc[p].Start? ==> p !in s.queue
  }

  ghost predicate Step(s: Mnt, s': Mnt, p: Proc, a: Act) {
    AnyStep(s, s', p, a) && KeepsInHand(s, p, a)
  }

  ghost predicate Init(s: Mnt) {
    && s.rpc.Keys == s.pc.Keys && NOBODY !in s.pc && (forall p :: p in s.pc ==> s.pc[p].Off?)
    && (forall p, q :: p in s.rpc && q in s.rpc && p != q ==>
      s.rpc[p].buf != s.rpc[q].buf && s.rpc[p].tag != s.rpc[q].tag)
    && (forall p :: p in s.rpc ==> s.rpc[p].tag < TAGFLS && !s.rpc[p].done && !s.rpc[p].flushed && s.rpc[p].sent == {})
    && s.lock == s.rip == NOBODY && s.queue == [] && TAGFLS <= s.flushtag < TAGEND
  }

  predicate Reader(c: PC) {
    c.Reading? || c.Got? || c.Swapping? || c.Waking? || c.Closing?
  }

  /** The request has been queued and its process still needs it. */
  predicate Active(c: PC) {
    !(c.Off? || c.Start? || c.Closing? || c.Scanning? || c.Rousing?)
  }

  /** Awake and bound for the gate, whatever happens: not so a process that may still leave by a failing flush. */
  predicate Heading(c: PC) {
    c.Gate? || c.Dozing? || c.Woken? || (c.Flushing? && c.picked) || (c.Sending? && c.picked)
  }

  /** The reader is about to complete p. */
  ghost predicate InHand(s: Mnt, p: Proc) {
    s.rip in s.pc && s.pc[s.rip].Swapping? && s.pc[s.rip].q == p
  }

  /** What holds of a process in every run, whatever becomes of the queue. */
  ghost predicate Core(s: Mnt, p: Proc)
    requires p in s.pc && p in s.rpc
  {
    var c, r := s.pc[p], s.rpc[p];
    && (Reader(c) <==> s.rip == p) && (c.Swapping? ==> c.q in s.pc && c.q != p)
    && (c.Asleep? && r.done ==> s.rip in s.pc && s.pc[s.rip].Waking? && s.pc[s.rip].q == p)
  }

  /** A request that its process waits for is in the queue, unless the reader has it in hand. */
  ghost predicate Listed(s: Mnt, p: Proc)
    requires p in s.pc && p in s.rpc
  {
    Active(s.pc[p]) && !s.rpc[p].done && !InHand(s, p) ==> p in s.queue
  }

  /** What holds of a process as long as nobody reuses a request that the reader has in hand. */
  ghost predicate Local(s: Mnt, p: Proc)
    requires p in s.pc && p in s.rpc
  {
    var c, r := s.pc[p], s.rpc[p];
    && Core(s, p) && (c.Scanning? <==> s.lock == p)
    && (p in s.queue <==> Active(c) && !r.done && !InHand(s, p))
    && (c.Closing? || c.Scanning? || c.Rousing? ==> r.done) && (c.Start? ==> !r.done)
    && (c.Got? ==> !r.done && r.reply == c.t)
    && (c.Swapping? ==> c.q in s.rpc && Active(s.pc[c.q]) && !s.rpc[c.q].done && !r.done
                        && Answers(s.rpc[c.q], r.reply))
    && (r.flushed ==> r.flushtag in r.sent) && (r.done && !r.hung ==> Answers(r, r.reply))
    && r.tag < TAGFLS && forall t :: t in r.sent ==> TAGFLS <= t < TAGEND
  }

  /** A reply with the tag t is for this request: it bears its tag or that of one of its flushes. */
  predicate Answers(r: Rpc, t: int) {
    r.tag == t || t in r.sent
  }

  ghost predicate BuffersApart(rpc: map<Proc, Rpc>) {
    forall p, q :: p in rpc && q in rpc && p != q ==> rpc[p].buf != rpc[q].buf
  }

  ghost predicate TagsApart(rpc: map<Proc, Rpc>) {
    forall p, q :: p in rpc && q in rpc && p != q ==> rpc[p].tag != rpc[q].tag
  }

  /** p is awake, heading for the gate with a request not done. */
  ghost predicate Comes(s: Mnt, p: Proc) {
    p in s.pc && p in s.rpc && Heading(s.pc[p]) && !s.rpc[p].done
  }

  /** p is about to wake somebody to read. */
  ghost predicate Rouses(s: Mnt, p: Proc) {
    p in s.pc && (s.pc[p].Scanning? || (s.pc[p].Rousing? && Sleeps(s, s.pc[p].q)))
  }

  ghost predicate Sleeps(s: Mnt, p: Proc) {
    p in s.pc && p in s.rpc && s.pc[p].Asleep? && !s.rpc[p].done
  }

  /** When nobody reads, no request sleeps alone. */
  ghost predicate GateHeld(s: Mnt) {
    s.rip == NOBODY ==> forall p :: Sleeps(s, p) ==> exists c :: Comes(s, c) || Rouses(s, c)
  }

  ghost predicate Frame(s: Mnt) {
    s.rpc.Keys == s.pc.Keys && NOBODY !in s.pc && (s.rip == NOBODY || s.rip in s.pc)
  }

  /** In every run. */
  ghost predicate CoreInv(s: Mnt) {
    Frame(s) && BuffersApart(s.rpc) && forall p {:trigger Core(s, p)} :: p in s.pc ==> Core(s, p)
  }

  /** In every run in which no process picked by the gate leaves by a failing flush and no request is linked twice. */
  ghost predicate GateInv(s: Mnt) {
    CoreInv(s) && NoDup(s.queue) && GateHeld(s) && forall p {:trigger Listed(s, p)} :: p in s.pc ==> Listed(s, p)
  }

  ghost predicate Shape(s: Mnt) {
    && Frame(s) && (s.lock == NOBODY || s.lock in s.pc)
    && TAGFLS <= s.flushtag < TAGEND && NoDup(s.queue) && TagsApart(s.rpc)
  }

  /** In every run in which no request that the reader has in hand leaves by a failing flush. */
  ghost predicate Inv(s: Mnt) {
    Shape(s) && BuffersApart(s.rpc) && forall p {:trigger Local(s, p)} :: p in s.pc ==> Local(s, p)
  }

  lemma InitOk(s: Mnt)
    requires Init(s)
    ensures Inv(s)
  {
    forall p | p in s.pc
      ensures Local(s, p)
    {
      assert p in s.rpc.Keys;
    }
  }

  lemma Owners(s: Mnt, p: Proc, o: Proc)
    requires Inv(s) && p in s.pc && o in s.pc
    ensures p in s.rpc && o in s.rpc && Local(s, p) && Local(s, o)
      && (s.rip in s.pc ==> s.rip in s.rpc && Local(s, s.rip))
    ensures NOBODY !in s.pc
  {
    assert p in s.rpc.Keys && o in s.rpc.Keys && (s.rip in s.pc ==> s.rip in s.rpc.Keys);
  }

  lemma UnlinkedMeans(q: seq<Proc>, i: nat, x: Proc)
    requires NoDup(q) && i < |q|
    ensures NoDup(Unlinked(q, i)) && (x in Unlinked(q, i) <==> x in q && x != q[i])
  {
    var u := Unlinked(q, i);
    assert forall j :: 0 <= j < |u| ==> u[j] == if j < i then q[j] else q[j + 1];
    if x in q && x != q[i] {
      var j :| 0 <= j < |q| && q[j] == x;
      assert u[if j < i then j else j - 1] == x;
    }
  }

  lemma OffKept(s: Mnt, s': Mnt, p: Proc, a: Act, o: Proc)
    requires Inv(s) && Step(s, s', p, a) && s.pc[p].Off? && o in s.pc
    ensures o in s'.pc && o in s'.rpc && Local(s', o)
  {
    Owners(s, p, o);
  }

  lemma StartKept(s: Mnt, s': Mnt, p: Proc, a: Act, o: Proc)
    requires Inv(s) && Step(s, s', p, a) && s.pc[p].Start? && o in s.pc
    ensures o in s'.pc && o in s'.rpc && Local(s', o)
  {
    Owners(s, p, o);
    HeadOrTail([p] + s.queue, o);
    assert ([p] + s.queue)[1..] == s.queue;
  }

  lemma WritingKept(s: Mnt, s': Mnt, p: Proc, a: Act, o: Proc)
    requires Inv(s) && Step(s, s', p, a) && s.pc[p].Writing? && o in s.pc
    ensures o in s'.pc && o in s'.rpc && Local(s', o)
  {
    Owners(s, p, o);
  }

  lemma GateKept(s: Mnt, s': Mnt, p: Proc, a: Act, o: Proc)
    requires Inv(s) && Step(s, s', p, a) && s.pc[p].Gate? && o in s.pc
    ensures o in s'.pc && o in s'.rpc && Local(s', o)
  {
    Owners(s, p, o);
  }

  lemma DozingKept(s: Mnt, s': Mnt, p: Proc, a: Act, o: Proc)
    requires Inv(s) && Step(s, s', p, a) && s.pc[p].Dozing? && o in s.pc
    ensures o in s'.pc && o in s'.rpc && Local(s', o)
  {
    Owners(s, p, o);
  }

  lemma AsleepKept(s: Mnt, s': Mnt, p: Proc, a: Act, o: Proc)
    requires Inv(s) && Step(s, s', p, a) && s.pc[p].Asleep? && o in s.pc
    ensures o in s'.pc && o in s'.rpc && Local(s', o)
  {
    Owners(s, p, o);
  }

  lemma WokenKept(s: Mnt, s': Mnt, p: Proc, a: Act, o: Proc)
    requires Inv(s) && Step(s, s', p, a) && s.pc[p].Woken? && o in s.pc
    ensures o in s'.pc && o in s'.rpc && Local(s', o)
  {
    Owners(s, p, o);
  }

  lemma FlushingKept(s: Mnt, s': Mnt, p: Proc, a: Act, o: Proc)
    requires Inv(s) && Step(s, s', p, a) && s.pc[p].Flushing? && o in s.pc
    ensures o in s'.pc && o in s'.rpc && Local(s', o)
  {
    Owners(s, p, o);
  }

  lemma SendingKept(s: Mnt, s': Mnt, p: Proc, a: Act, o: Proc)
    requires Inv(s) && Step(s, s', p, a) && s.pc[p].Sending? && o in s.pc
    ensures o in s'.pc && o in s'.rpc && Local(s', o)
  {
    Owners(s, p, o);
    RemovedMeans(s.queue, p);
  }

  lemma ReadingKept(s: Mnt, s': Mnt, p: Proc, a: Act, o: Proc)
    requires Inv(s) && Step(s, s', p, a) && s.pc[p].Reading? && o in s.pc
    ensures o in s'.pc && o in s'.rpc && Local(s', o)
  {
    Owners(s, p, o);
    RemovedMeans(s.queue, p);
  }

  lemma GotKept(s: Mnt, s': Mnt, p: Proc, a: Act, o: Proc)
    requires Inv(s) && Step(s, s', p, a) && s.pc[p].Got? && o in s.pc
    ensures o in s'.pc && o in s'.rpc && Local(s', o)
  {
    Owners(s, p, o);
    var i := Find(s.rpc, s.queue, s.pc[p].t);
    if i < |s.queue| {
      UnlinkedMeans(s.queue, i, o);
      Owners(s, p, s.queue[i]);
    }
  }

  lemma SwappingKept(s: Mnt, s': Mnt, p: Proc, a: Act, o: Proc)
    requires Inv(s) && Step(s, s', p, a) && s.pc[p].Swapping? && o in s.pc
    ensures o in s'.pc && o in s'.rpc && Local(s', o)
  {
    Owners(s, p, o);
  }

  lemma WakingKept(s: Mnt, s': Mnt, p: Proc, a: Act, o: Proc)
    requires Inv(s) && Step(s, s', p, a) && s.pc[p].Waking? && o in s.pc
    ensures o in s'.pc && o in s'.rpc && Local(s', o)
  {
    Owners(s, p, o);
  }

  lemma ClosingKept(s: Mnt, s': Mnt, p: Proc, a: Act, o: Proc)
    requires Inv(s) && Step(s, s', p, a) && s.pc[p].Closing? && o in s.pc
    ensures o in s'.pc && o in s'.rpc && Local(s', o)
  {
    Owners(s, p, o);
  }

  lemma ScanningKept(s: Mnt, s': Mnt, p: Proc, a: Act, o: Proc)
    requires Inv(s) && Step(s, s', p, a) && s.pc[p].Scanning? && o in s.pc
    ensures o in s'.pc && o in s'.rpc && Local(s', o)
  {
    Owners(s, p, o);
  }

  lemma RousingKept(s: Mnt, s': Mnt, p: Proc, a: Act, o: Proc)
    requires Inv(s) && Step(s, s', p, a) && s.pc[p].Rousing? && o in s.pc
    ensures o in s'.pc && o in s'.rpc && Local(s', o)
  {
    Owners(s, p, o);
  }

  lemma LocalKept(s: Mnt, s': Mnt, p: Proc, a: Act, o: Proc)
    requires Inv(s) && Step(s, s', p, a) && o in s.pc
    ensures o in s'.pc && o in s'.rpc && Local(s', o)
  {
    hide Local, Reader, Active, Heading, Find, Sleeper, Removed;
    match s.pc[p]
    case Off => OffKept(s, s', p, a, o);
    case Start => StartKept(s, s', p, a, o);
    case Writing => WritingKept(s, s', p, a, o);
    case Gate => GateKept(s, s', p, a, o);
    case Dozing => DozingKept(s, s', p, a, o);
    case Asleep => AsleepKept(s, s', p, a, o);
    case Woken => WokenKept(s, s', p, a, o);
    case Flushing(_) => FlushingKept(s, s', p, a, o);
    case Sending(_) => SendingKept(s, s', p, a, o);
    case Reading => ReadingKept(s, s', p, a, o);
    case Got(_) => GotKept(s, s', p, a, o);
    case Swapping(_) => SwappingKept(s, s', p, a, o);
    case Waking(_) => WakingKept(s, s', p, a, o);
    case Closing => ClosingKept(s, s', p, a, o);
    case Scanning => ScanningKept(s, s', p, a, o);
    case Rousing(_) => RousingKept(s, s', p, a, o);
  }

  lemma QueueKept(s: Mnt, s': Mnt, p: Proc, a: Act)
    requires Inv(s) && Step(s, s', p, a)
    ensures NoDup(s'.queue)
  {
    Owners(s, p, p);
    match s.pc[p]
    case Start => ConsNoDup(p, s.queue);
    case Got(t) =>
      var i := Find(s.rpc, s.queue, t);
      if i < |s.queue| {
        UnlinkedMeans(s.queue, i, p);
      }
    case Reading => RemovedMeans(s.queue, p);
    case Sending(_) => RemovedMeans(s.queue, p);
    case _ =>
  }

  lemma KeysKept(s: Mnt, s': Mnt, p: Proc, a: Act)
    requires s.rpc.Keys == s.pc.Keys && AnyStep(s, s', p, a) && (s.pc[p].Swapping? ==> s.pc[p].q in s.rpc)
    ensures s'.rpc.Keys == s.pc.Keys && s'.pc.Keys == s.pc.Keys
  {
    hide Find, Sleeper, Removed;
  }

  lemma TagKept(s: Mnt, s': Mnt, p: Proc, a: Act)
    requires AnyStep(s, s', p, a) && TAGFLS <= s.flushtag < TAGEND
    ensures TAGFLS <= s'.flushtag < TAGEND
  {
    hide Find, Sleeper, Removed;
  }

  lemma LocksKept(s: Mnt, s': Mnt, p: Proc, a: Act)
    requires AnyStep(s, s', p, a)
    ensures s'.rip in {s.rip, p, NOBODY} && s'.lock in {s.lock, p, NOBODY}
  {
    hide Find, Sleeper, Removed;
  }

  lemma FieldsKept(s: Mnt, s': Mnt, p: Proc, a: Act)
    requires Inv(s) && Step(s, s', p, a)
    ensures s'.rpc.Keys == s'.pc.Keys == s.pc.Keys && TAGFLS <= s'.flushtag < TAGEND
    ensures (s'.rip == NOBODY || s'.rip in s'.pc) && (s'.lock == NOBODY || s'.lock in s'.pc)
  {
    Owners(s, p, p);
    KeysKept(s, s', p, a);
    TagKept(s, s', p, a);
    LocksKept(s, s', p, a);
    hide After, Ready, Local;
  }

  lemma TagsKept(s: Mnt, s': Mnt, p: Proc, a: Act)
    requires TagsApart(s.rpc) && s.rpc.Keys == s'.rpc.Keys && AnyStep(s, s', p, a)
    ensures TagsApart(s'.rpc)
  {
    hide Find, Sleeper, Removed;
    forall x | x in s.rpc
      ensures s'.rpc[x].tag == s.rpc[x].tag
    {
    }
  }

  /** The scan finds a sleeper if a request in the queue has one. */
  lemma {:induction false} SleeperFound(s: Mnt, queue: seq<Proc>, j: nat)
    requires j < |queue| && Sleeps(s, queue[j])
    ensures Sleeper(s, queue) < |queue|
  {
    if j > 0 {
      SleeperFound(s, queue[1..], j - 1);
    }
  }

  lemma StepOk(s: Mnt, s': Mnt, p: Proc, a: Act)
    requires Inv(s) && Step(s, s', p, a)
    ensures Inv(s')
  {
    QueueKept(s, s', p, a);
    FieldsKept(s, s', p, a);
    TagsKept(s, s', p, a);
    InvCore(s);
    CoreStep(s, s', p, a);
    hide Step, Local;
    forall o | o in s'.pc
      ensures Local(s', o)
    {
      LocalKept(s, s', p, a, o);
    }
  }

  lemma InvCore(s: Mnt)
    requires Inv(s)
    ensures CoreInv(s)
  {
    forall p | p in s.pc
      ensures Core(s, p)
    {
      assert p in s.rpc.Keys && Local(s, p);
    }
  }

  lemma Cores(s: Mnt, p: Proc, o: Proc)
    requires CoreInv(s) && p in s.pc && o in s.pc
    ensures p in s.rpc && o in s.rpc && Core(s, p) && Core(s, o) && (s.rip in s.pc ==> s.rip in s.rpc && Core(s, s.rip))
    ensures NOBODY !in s.pc && (s.pc[p].Swapping? ==> s.pc[p].q in s.rpc)
  {
    assert p in s.rpc.Keys && o in s.rpc.Keys && (s.rip in s.pc ==> s.rip in s.rpc.Keys);
    assert Core(s, p);
    assert s.pc[p].Swapping? ==> s.pc[p].q in s.pc.Keys;
  }

  /** Buffers are swapped, never shared. */
  lemma BufferKept(s: Mnt, s': Mnt, p: Proc, a: Act, x: Proc, y: Proc)
    requires CoreInv(s) && AnyStep(s, s', p, a) && x in s.rpc && y in s.rpc && x != y
    ensures x in s'.rpc && y in s'.rpc && s'.rpc[x].buf != s'.rpc[y].buf
  {
    Cores(s, p, p);
    hide Find, Sleeper, Removed;
    if s.pc[p].Swapping? {
      var q := s.pc[p].q;
      assert s.rpc[p].buf != s.rpc[q].buf;
    } else {
      BufferSame(s, s', p, a, x);
      BufferSame(s, s', p, a, y);
    }
  }

  lemma BufferSame(s: Mnt, s': Mnt, p: Proc, a: Act, x: Proc)
    requires AnyStep(s, s', p, a) && x in s.rpc && !s.pc[p].Swapping?
    ensures x in s'.rpc && s'.rpc[x].buf == s.rpc[x].buf
  {
    hide Find, Sleeper, Removed;
  }

  /** Any step, with the queue in any order and shape, keeps what holds of every process. */
  lemma CoreKept(s: Mnt, s': Mnt, p: Proc, a: Act, o: Proc)
    requires CoreInv(s) && AnyStep(s, s', p, a) && o in s.pc && s'.rpc.Keys == s'.pc.Keys == s.pc.Keys
    ensures o in s'.rpc && Core(s', o)
  {
    Cores(s, p, o);
    assert o in s'.rpc.Keys;
    if s.pc[p].Got? {
      GotCore(s, s', p, a, o);
    } else if Reader(s.pc[p]) {
      ReaderCore(s, s', p, a, o);
    } else if s.pc[p].Rousing? {
      RousingCore(s, s', p, a, o);
    } else if o == p {
      OwnCore(s, s', p, a);
    } else {
      OtherCore(s, s', p, a, o);
    }
  }

  lemma RousingCore(s: Mnt, s': Mnt, p: Proc, a: Act, o: Proc)
    requires CoreInv(s) && AnyStep(s, s', p, a) && s.pc[p].Rousing? && o in s.pc && o in s'.pc && o in s'.rpc
    ensures Core(s', o)
  {
    Cores(s, p, o);
  }

  lemma OwnCore(s: Mnt, s': Mnt, p: Proc, a: Act)
    requires CoreInv(s) && AnyStep(s, s', p, a) && !Reader(s.pc[p]) && !s.pc[p].Rousing? && p in s'.pc && p in s'.rpc
    ensures Core(s', p)
  {
    Cores(s, p, p);
    hide Sleeper, Removed, Find, BeingRoused;
  }

  lemma ReaderCore(s: Mnt, s': Mnt, p: Proc, a: Act, o: Proc)
    requires CoreInv(s) && AnyStep(s, s', p, a) && Reader(s.pc[p]) && !s.pc[p].Got?
    requires o in s.pc && o in s'.pc && o in s'.rpc
    ensures Core(s', o)
  {
    Cores(s, p, o);
    hide Sleeper, Removed, Find;
  }

  lemma OtherCore(s: Mnt, s': Mnt, p: Proc, a: Act, o: Proc)
    requires CoreInv(s) && AnyStep(s, s', p, a) && !Reader(s.pc[p]) && !s.pc[p].Rousing?
    requires o in s.pc && o != p && o in s'.pc && o in s'.rpc
    ensures Core(s', o)
  {
    Cores(s, p, o);
    hide Sleeper, Removed, Find, BeingRoused;
  }

  lemma GotCore(s: Mnt, s': Mnt, p: Proc, a: Act, o: Proc)
    requires CoreInv(s) && AnyStep(s, s', p, a) && s.pc[p].Got? && o in s.pc && o in s'.pc && o in s'.rpc
    ensures Core(s', o)
  {
    Cores(s, p, o);
    var i := Find(s.rpc, s.queue, s.pc[p].t);
    if i < |s.queue| {
      assert s.queue[i] in s.rpc.Keys;
    }
  }

  lemma CoreStep(s: Mnt, s': Mnt, p: Proc, a: Act)
    requires CoreInv(s) && AnyStep(s, s', p, a)
    ensures CoreInv(s')
  {
    Cores(s, p, p);
    KeysKept(s, s', p, a);
    LocksKept(s, s', p, a);
    hide AnyStep, Core;
    forall o | o in s'.pc
      ensures Core(s', o)
    {
      CoreKept(s, s', p, a, o);
    }
    forall x, y | x in s'.rpc && y in s'.rpc && x != y
      ensures s'.rpc[x].buf != s'.rpc[y].buf
    {
      BufferKept(s, s', p, a, x, y);
    }
  }

  /** When nobody reads, a sleeper is in the queue. */
  lemma SleeperQueued(s: Mnt, p: Proc) returns (j: nat)
    requires GateInv(s) && s.rip == NOBODY && Sleeps(s, p)
    ensures j < |s.queue| && s.queue[j] == p
  {
    assert Listed(s, p);
    j :| 0 <= j < |s.queue| && s.queue[j] == p;
  }

  ghost predicate GateStep(s: Mnt, s': Mnt, p: Proc, a: Act) {
    AnyStep(s, s', p, a) && KeepsRoused(s, p, a) && LinksOnce(s, p)
  }

  lemma GateQueue(s: Mnt, s': Mnt, p: Proc, a: Act)
    requires NoDup(s.queue) && GateStep(s, s', p, a)
    ensures NoDup(s'.queue)
  {
    match s.pc[p]
    case Start => ConsNoDup(p, s.queue);
    case Got(t) =>
      var i := Find(s.rpc, s.queue, t);
      if i < |s.queue| {
        UnlinkedMeans(s.queue, i, p);
      }
    case Reading => RemovedMeans(s.queue, p);
    case Sending(_) => RemovedMeans(s.queue, p);
    case _ =>
  }

  /** Who leaves the queue is done, or in hand, or does not wait any more. */
  lemma ListedKept(s: Mnt, s': Mnt, p: Proc, a: Act, o: Proc)
    requires GateInv(s) && GateStep(s, s', p, a) && o in s.pc && o in s'.pc && o in s'.rpc
    ensures Listed(s', o)
  {
    Cores(s, p, o);
    assert Listed(s, o);
    assert o in s.rpc.Keys && Listed(s, o);
    hide *;
    if s.pc[p].Start? {
      StartListed(s, s', p, a, o);
    } else if s.pc[p].Got? {
      GotListed(s, s', p, a, o);
    } else if s.pc[p].Reading? || s.pc[p].Sending? {
      DropListed(s, s', p, a, o);
    } else {
      QuietListed(s, s', p, a, o);
    }
  }

  lemma DropListed(s: Mnt, s': Mnt, p: Proc, a: Act, o: Proc)
    requires GateInv(s) && GateStep(s, s', p, a) && (s.pc[p].Reading? || s.pc[p].Sending?)
    requires o in s.pc && o in s'.pc && o in s'.rpc
    ensures Listed(s', o)
  {
    Cores(s, p, o);
    assert Listed(s, o);
    hide Sleeper, Find, Removed;
    RemovedMeans(s.queue, p);
  }

  lemma QuietListed(s: Mnt, s': Mnt, p: Proc, a: Act, o: Proc)
    requires CoreInv(s) && o in s.pc && o in s.rpc && Listed(s, o) && AnyStep(s, s', p, a) && o in s'.pc && o in s'.rpc
    requires !s.pc[p].Start? && !s.pc[p].Got? && !s.pc[p].Reading? && !s.pc[p].Sending?
    ensures Listed(s', o)
  {
    if Reader(s.pc[p]) {
      ReaderListed(s, s', p, a, o);
    } else {
      Cores(s, p, o);
      hide Sleeper, Find, Removed, BeingRoused;
      assert s'.queue == s.queue && (s'.rip == s.rip || s'.rip == p);
    }
  }

  lemma ReaderListed(s: Mnt, s': Mnt, p: Proc, a: Act, o: Proc)
    requires CoreInv(s) && o in s.pc && o in s.rpc && Listed(s, o) && AnyStep(s, s', p, a) && o in s'.pc && o in s'.rpc
    requires s.pc[p].Swapping? || s.pc[p].Waking? || s.pc[p].Closing?
    ensures Listed(s', o)
  {
    Cores(s, p, o);
    hide Sleeper, Find, Removed, BeingRoused;
  }

  lemma StartListed(s: Mnt, s': Mnt, p: Proc, a: Act, o: Proc)
    requires GateInv(s) && GateStep(s, s', p, a) && s.pc[p].Start? && o in s.pc && o in s'.pc && o in s'.rpc
    ensures Listed(s', o)
  {
    Cores(s, p, o);
    assert Listed(s, o);
    HeadOrTail([p] + s.queue, o);
    assert ([p] + s.queue)[1..] == s.queue;
  }

  lemma GotListed(s: Mnt, s': Mnt, p: Proc, a: Act, o: Proc)
    requires GateInv(s) && GateStep(s, s', p, a) && s.pc[p].Got? && o in s.pc && o in s'.pc && o in s'.rpc
    ensures Listed(s', o)
  {
    Cores(s, p, o);
    assert Listed(s, o);
    var i := Find(s.rpc, s.queue, s.pc[p].t);
    if i < |s.queue| {
      UnlinkedMeans(s.queue, i, o);
    }
  }

  /** Whoever was coming, or about to wake somebody, still is, unless the reading was taken. */
  lemma GateHolds(s: Mnt, s': Mnt, p: Proc, a: Act, z: Proc) returns (c: Proc)
    requires GateInv(s) && GateStep(s, s', p, a) && s'.pc.Keys == s'.rpc.Keys == s.pc.Keys
    requires s'.rip == NOBODY && Sleeps(s', z)
    ensures Comes(s', c) || Rouses(s', c)
  {
    assert z in s'.pc.Keys;
    Cores(s, p, z);
    if s.pc[p].Closing? {
      c := p;
    } else if s.pc[p].Scanning? {
      var j := SleeperQueued(s, z);
      SleeperFound(s, s.queue, j);
      c := p;
    } else if s.pc[p].Rousing? && Sleeps(s, s.pc[p].q) {
      c := s.pc[p].q;
    } else if Heading(s.pc[p]) && !s.rpc[p].done {
      c := p;
    } else if s.pc[p].Asleep? && !s.rpc[p].done && BeingRoused(s, p) {
      c := p;
    } else {
      c := Remains(s, s', p, a, z);
    }
  }

  lemma Remains(s: Mnt, s': Mnt, p: Proc, a: Act, z: Proc) returns (c: Proc)
    requires GateInv(s) && GateStep(s, s', p, a) && s'.pc.Keys == s'.rpc.Keys == s.pc.Keys
    requires s'.rip == NOBODY && Sleeps(s', z)
    requires !s.pc[p].Closing? && !s.pc[p].Scanning? && !(s.pc[p].Rousing? && Sleeps(s, s.pc[p].q))
    requires !(Heading(s.pc[p]) && !s.rpc[p].done) && !(s.pc[p].Asleep? && !s.rpc[p].done && BeingRoused(s, p))
    ensures Comes(s', c) || Rouses(s', c)
  {
    assert z in s'.pc.Keys;
    Cores(s, p, z);
    assert Sleeps(s, z);
    c :| Comes(s, c) || Rouses(s, c);
    hide Find, Removed;
    if Comes(s, c) {
      ComesStays(s, s', p, a, c);
    } else {
      RousesStays(s, s', p, a, c);
    }
  }

  lemma ComesStays(s: Mnt, s': Mnt, p: Proc, a: Act, c: Proc)
    requires CoreInv(s) && GateStep(s, s', p, a) && s.rip == NOBODY && Comes(s, c) && c != p
    ensures Comes(s', c)
  {
    Cores(s, p, c);
    hide Find, Sleeper, Removed;
  }

  /** A sleeper that somebody is about to wake. */
  lemma RousesStays(s: Mnt, s': Mnt, p: Proc, a: Act, c: Proc)
    requires CoreInv(s) && GateStep(s, s', p, a) && s.rip == NOBODY && Rouses(s, c) && c != p
    requires !(s.pc[p].Asleep? && !s.rpc[p].done && BeingRoused(s, p)) && !(s.pc[p].Rousing? && Sleeps(s, s.pc[p].q))
    ensures Rouses(s', c)
  {
    Cores(s, p, c);
    hide Find, Sleeper, Removed;
  }

  lemma GateStepOk(s: Mnt, s': Mnt, p: Proc, a: Act)
    requires GateInv(s) && GateStep(s, s', p, a)
    ensures GateInv(s')
  {
    GateQueue(s, s', p, a);
    Cores(s, p, p);
    KeysKept(s, s', p, a);
    CoreStep(s, s', p, a);
    hide GateStep, AnyStep, Core, Listed, Comes, Rouses;
    forall o | o in s'.pc
      ensures o in s'.rpc && Listed(s', o)
    {
      assert o in s'.rpc.Keys;
      ListedKept(s, s', p, a, o);
    }
    if s'.rip == NOBODY {
      forall z | Sleeps(s', z)
        ensures exists c :: Comes(s', c) || Rouses(s', c)
      {
        var c := GateHolds(s, s', p, a, z);
      }
    }
  }

  ghost predicate AnyNext(s: Mnt, s': Mnt) {
    exists p, a :: AnyStep(s, s', p, a)
  }

  /** Steps of any processes in any order, with any replies, interrupts and failing flushes. */
  ghost predicate AnyRun(r: seq<Mnt>) {
    |r| > 0 && forall i :: 0 < i < |r| ==> AnyNext(r[i - 1], r[i])
  }

  /** A step that finds the queue in whatever state it may be. */
  ghost predicate WildNext(s: Mnt, s': Mnt) {
    exists p, a, queue {:trigger AnyStep(s.(queue := queue), s', p, a)} :: AnyStep(s.(queue := queue), s', p, a)
  }

  /**
    Any steps, when nothing at all is known of the queue: a request linked into the list while it is
    there makes a ring of it, after which a sequence does not describe it any more.
   */
  ghost predicate WildRun(r: seq<Mnt>) {
    |r| > 0 && Init(r[0]) && forall i :: 0 < i < |r| ==> WildNext(r[i - 1], r[i])
  }

  lemma AnyIsWild(r: seq<Mnt>)
    requires AnyRun(r) && Init(r[0])
    ensures WildRun(r)
  {
    hide AnyStep;
    forall i | 0 < i < |r|
      ensures WildNext(r[i - 1], r[i])
    {
      assert AnyNext(r[i - 1], r[i]);
      var p, a :| AnyStep(r[i - 1], r[i], p, a);
      assert r[i - 1].(queue := r[i - 1].queue) == r[i - 1];
    }
  }

  /** A run in which no request that the reader has in hand leaves by a failing flush. */
  ghost predicate Run(r: seq<Mnt>) {
    |r| > 0 && Init(r[0]) && forall i :: 0 < i < |r| ==> RunNext(r[i - 1], r[i])
  }

  ghost predicate RunNext(s: Mnt, s': Mnt) {
    exists p, a :: Step(s, s', p, a)
  }

  /** A run in which no process picked by the gate leaves by a failing flush and no request is linked twice. */
  ghost predicate GateRun(r: seq<Mnt>) {
    |r| > 0 && Init(r[0]) && forall i :: 0 < i < |r| ==> GateNext(r[i - 1], r[i])
  }

  ghost predicate GateNext(s: Mnt, s': Mnt) {
    exists p, a :: GateStep(s, s', p, a)
  }

  lemma {:induction false} WildOk(r: seq<Mnt>, i: nat)
    requires WildRun(r) && i < |r|
    ensures CoreInv(r[i])
  {
    if i == 0 {
      InitOk(r[0]);
      InvCore(r[0]);
    } else {
      WildOk(r, i - 1);
      assert WildNext(r[i - 1], r[i]);
      var p, a, queue :| AnyStep(r[i - 1].(queue := queue), r[i], p, a);
      OtherQueue(r[i - 1], queue);
      CoreStep(r[i - 1].(queue := queue), r[i], p, a);
    }
  }

  lemma OtherQueue(s: Mnt, queue: seq<Proc>)
    requires CoreInv(s)
    ensures CoreInv(s.(queue := queue))
  {
    var t := s.(queue := queue);
    forall p | p in t.pc
      ensures p in t.rpc && Core(t, p)
    {
      assert p in s.rpc.Keys && Core(s, p);
    }
  }

  lemma {:induction false} RunOk(r: seq<Mnt>, i: nat)
    requires Run(r) && i < |r|
    ensures Inv(r[i])
  {
    if i == 0 {
      InitOk(r[0]);
    } else {
      RunOk(r, i - 1);
      assert RunNext(r[i - 1], r[i]);
      var p, a :| Step(r[i - 1], r[i], p, a);
      StepOk(r[i - 1], r[i], p, a);
    }
  }

  lemma {:induction false} GateRunOk(r: seq<Mnt>, i: nat)
    requires GateRun(r) && i < |r|
    ensures GateInv(r[i])
  {
    if i == 0 {
      InitOk(r[0]);
      InvCore(r[0]);
    } else {
      GateRunOk(r, i - 1);
      assert GateNext(r[i - 1], r[i]);
      var p, a :| GateStep(r[i - 1], r[i], p, a);
      GateStepOk(r[i - 1], r[i], p, a);
    }
  }

  /** At most one process reads the channel, in every run, whatever becomes of the queue. */
  lemma OneReader(r: seq<Mnt>, i: nat, p: Proc, q: Proc)
    requires WildRun(r) && i < |r| && p in r[i].pc && q in r[i].pc && Reader(r[i].pc[p]) && Reader(r[i].pc[q])
    ensures p == q
  {
    WildOk(r, i);
    Cores(r[i], p, q);
  }

  /** The swapping of buffers never leaves one with two requests, in every run, whatever becomes of the queue. */
  lemma OwnBuffers(r: seq<Mnt>, i: nat, p: Proc, q: Proc)
    requires WildRun(r) && i < |r| && p in r[i].rpc && q in r[i].rpc && p != q
    ensures r[i].rpc[p].buf != r[i].rpc[q].buf
  {
    WildOk(r, i);
  }

  /** A sleeper whose request is done is about to be woken by the reader, whatever becomes of the queue. */
  lemma NoLostReply(r: seq<Mnt>, i: nat, p: Proc)
    requires WildRun(r) && i < |r| && p in r[i].pc && p in r[i].rpc && r[i].pc[p].Asleep? && r[i].rpc[p].done
    ensures r[i].rip in r[i].pc && r[i].pc[r[i].rip] == Waking(p)
  {
    WildOk(r, i);
    Cores(r[i], p, p);
  }

  /** What was last read into each buffer: the tag of the reply, noted when the reader takes it. */
  type Held = map<int, int>

  function Noted(h: Held, s: Mnt, p: Proc, a: Act): Held {
    if p in s.pc && p in s.rpc && s.pc[p].Reading? && a.Reply? then h[s.rpc[p].buf := a.t] else h
  }

  ghost predicate NotedNext(s: Mnt, h: Held, s': Mnt, h': Held) {
    exists p, a, queue {:trigger AnyStep(s.(queue := queue), s', p, a)} ::
      AnyStep(s.(queue := queue), s', p, a) && h' == Noted(h, s, p, a)
  }

  /** A run beside the history of its buffers; whatever is known or not of the queue. */
  ghost predicate NotedRun(r: seq<Mnt>, h: seq<Held>) {
    |h| == |r| > 0 && Init(r[0]) && forall i :: 0 < i < |r| ==> NotedNext(r[i - 1], h[i - 1], r[i], h[i])
  }

  /** p's buffer holds the reply that its request was done by, or that p is about to file for another. */
  ghost predicate HoldsReply(s: Mnt, h: Held, p: Proc)
    requires p in s.pc && p in s.rpc
  {
    var c, x := s.pc[p], s.rpc[p];
    && (c.Got? || c.Swapping? ==> !x.done)
    && ((x.done && !x.hung) || c.Got? || c.Swapping? ==> x.buf in h && h[x.buf] == x.reply)
  }

  ghost predicate HeldInv(s: Mnt, h: Held) {
    CoreInv(s) && forall p {:trigger HoldsReply(s, h, p)} :: p in s.pc && p in s.rpc ==> HoldsReply(s, h, p)
  }

  /** The reader takes a reply into its own buffer, which is no other's. */
  lemma HeldRead(s: Mnt, h: Held, s': Mnt, p: Proc, a: Act, o: Proc)
    requires HeldInv(s, h) && AnyStep(s, s', p, a) && s.pc[p].Reading? && o in s.pc && o in s'.pc && o in s'.rpc
    ensures HoldsReply(s', Noted(h, s, p, a), o)
  {
    Cores(s, p, o);
    assert HoldsReply(s, h, o) && HoldsReply(s, h, p);
    hide Find, Sleeper, Removed, BeingRoused;
  }

  /** The buffer goes with its reply. */
  lemma HeldSwap(s: Mnt, h: Held, s': Mnt, p: Proc, a: Act, o: Proc)
    requires HeldInv(s, h) && AnyStep(s, s', p, a) && s.pc[p].Swapping? && o in s.pc && o in s'.pc && o in s'.rpc
    ensures HoldsReply(s', h, o)
  {
    Cores(s, p, o);
    assert HoldsReply(s, h, o) && HoldsReply(s, h, p);
    hide Find, Sleeper, Removed, BeingRoused;
  }

  lemma HeldElse(s: Mnt, h: Held, s': Mnt, p: Proc, a: Act, o: Proc)
    requires HeldInv(s, h) && AnyStep(s, s', p, a) && !s.pc[p].Swapping? && !s.pc[p].Reading?
    requires o in s.pc && o in s'.pc && o in s'.rpc
    ensures HoldsReply(s', h, o)
  {
    Cores(s, p, o);
    assert HoldsReply(s, h, o) && HoldsReply(s, h, p);
    hide Find, Sleeper, Removed, BeingRoused;
  }

  lemma HeldKept(s: Mnt, h: Held, s': Mnt, p: Proc, a: Act, o: Proc)
    requires HeldInv(s, h) && AnyStep(s, s', p, a) && o in s.pc && o in s'.pc && o in s'.rpc
    ensures HoldsReply(s', Noted(h, s, p, a), o)
  {
    hide After, Ready, HeldInv, HoldsReply;
    if s.pc[p].Swapping? {
      HeldSwap(s, h, s', p, a, o);
    } else if s.pc[p].Reading? {
      HeldRead(s, h, s', p, a, o);
    } else {
      HeldElse(s, h, s', p, a, o);
    }
  }

  lemma {:induction false} HeldOk(r: seq<Mnt>, h: seq<Held>, i: nat)
    requires NotedRun(r, h) && i < |r|
    ensures HeldInv(r[i], h[i])
  {
    if i == 0 {
      InitOk(r[0]);
      InvCore(r[0]);
    } else {
      HeldOk(r, h, i - 1);
      var s, s' := r[i - 1], r[i];
      assert NotedNext(s, h[i - 1], s', h[i]);
      var p, a, queue :| AnyStep(s.(queue := queue), s', p, a) && h[i] == Noted(h[i - 1], s, p, a);
      HeldStep(s, h[i - 1], queue, s', p, a);
    }
  }

  lemma HeldStep(s: Mnt, h: Held, queue: seq<Proc>, s': Mnt, p: Proc, a: Act)
    requires HeldInv(s, h) && AnyStep(s.(queue := queue), s', p, a)
    ensures HeldInv(s', Noted(h, s, p, a))
  {
    var t := s.(queue := queue);
    OtherQueue(s, queue);
    assert HeldInv(t, h) by {
      forall o | o in t.pc && o in t.rpc
        ensures HoldsReply(t, h, o)
      {
        assert HoldsReply(s, h, o);
      }
    }
    CoreStep(t, s', p, a);
    Cores(t, p, p);
    KeysKept(t, s', p, a);
    hide AnyStep, CoreInv, HoldsReply;
    forall o | o in s'.pc && o in s'.rpc
      ensures HoldsReply(s', Noted(h, s, p, a), o)
    {
      assert o in t.pc.Keys;
      HeldKept(t, h, s', p, a, o);
    }
  }

  /** Every run has such a history. */
  lemma {:induction false} HistoryExists(r: seq<Mnt>) returns (h: seq<Held>)
    requires WildRun(r)
    ensures NotedRun(r, h)
    decreases |r|
  {
    if |r| == 1 {
      h := [map[]];
    } else {
      var n := |r| - 1;
      h := HistoryExists(r[..n]);
      assert WildNext(r[n - 1], r[n]);
      var p, a, queue :| AnyStep(r[n - 1].(queue := queue), r[n], p, a);
      h := h + [Noted(h[n - 1], r[n - 1], p, a)];
      hide AnyStep, Init;
      assert NotedNext(r[n - 1], h[n - 1], r[n], h[n]);
    }
  }

  /**
    In every run a request that is done, and not because the channel hung up, has in its own buffer the reply it was
    done by: whoever read it gave the buffer away with it. In a run that reuses no request in hand that reply is one
    to this request.
   */
  lemma OwnBytes(r: seq<Mnt>, h: seq<Held>, i: nat, p: Proc)
    requires NotedRun(r, h) && i < |r| && p in r[i].rpc && r[i].rpc[p].done && !r[i].rpc[p].hung
    ensures var x := r[i].rpc[p]; x.buf in h[i] && h[i][x.buf] == x.reply
    ensures var x := r[i].rpc[p]; Run(r) ==> h[i][x.buf] == x.tag || h[i][x.buf] in x.sent
  {
    HeldOk(r, h, i);
    assert p in r[i].pc.Keys;
    assert HoldsReply(r[i], h[i], p);
    if Run(r) {
      OwnReply(r, i, p);
    }
  }

  /** The place of a request whose tag no other request in the queue can be taken for. */
  lemma {:induction false} FindOnly(rpc: map<Proc, Rpc>, queue: seq<Proc>, q: Proc, t: int)
    requires q in queue && q in rpc && rpc[q].tag == t
    requires forall o :: o in queue && o in rpc && Matches(rpc[o], t) ==> o == q
    ensures Find(rpc, queue, t) < |queue| && queue[Find(rpc, queue, t)] == q
  {
    HeadOrTail(queue, q);
    if !(queue[0] in rpc && Matches(rpc[queue[0]], t)) {
      assert queue[0] != q;
      forall o | o in queue[1..] && o in rpc && Matches(rpc[o], t)
        ensures o == q
      {
        assert o in queue;
      }
      FindOnly(rpc, queue[1..], q, t);
    }
  }

  /** A reply with the tag of a request in the queue is delivered: the reader's next steps complete that request. */
  lemma ReplyDelivered(r: seq<Mnt>, i: nat, p: Proc, q: Proc)
    requires Run(r) && i < |r| && p in r[i].pc && q in r[i].rpc && q in r[i].queue && r[i].lock == NOBODY
    requires r[i].pc[p] == Got(r[i].rpc[q].tag)
    ensures p in r[i].rpc && Ready(r[i], p, Plain)
    ensures var s := After(r[i], p, Plain);
      if p == q then s.rpc[q].done && s.rpc[q].reply == s.rpc[q].tag
      else
        && Ready(s, p, Plain)
        && var t := After(s, p, Plain);
           t.rpc[q].done && t.rpc[q].reply == t.rpc[q].tag == r[i].rpc[q].tag && t.rpc[q].buf == r[i].rpc[p].buf
           && t.pc[p] == Waking(q)
  {
    var s, t := r[i], r[i].rpc[q].tag;
    RunOk(r, i);
    assert q in s.pc.Keys;
    Owners(s, p, q);
    forall o | o in s.queue && o in s.rpc && Matches(s.rpc[o], t)
      ensures o == q
    {
      assert o in s.pc.Keys;
      Owners(s, p, o);
    }
    FindOnly(s.rpc, s.queue, q, t);
    hide Find, Sleeper, Removed;
  }

  /**
    A request is done by a reply to it or to one of its flushes, or because the channel hung up; a reply with a
    request's tag is for no other.
   */
  lemma OwnReply(r: seq<Mnt>, i: nat, p: Proc)
    requires Run(r) && i < |r| && p in r[i].pc
    ensures p in r[i].rpc && OwnReplyAt(r[i], p)
  {
    RunOk(r, i);
    Owners(r[i], p, p);
  }

  ghost predicate OwnReplyAt(s: Mnt, p: Proc)
    requires p in s.rpc
  {
    var x := s.rpc[p];
    x.done && !x.hung ==> (x.reply == x.tag || (x.reply in x.sent && x.reply >= TAGFLS)) && x.tag < TAGFLS
  }

  /**
    Done is done: only a new request of the process is undone again, and only the reader, holding a reply, or the
    process itself completes one.
   */
  lemma DoneOnce(r: seq<Mnt>, i: nat, p: Proc, a: Act, q: Proc)
    requires Run(r) && i + 1 < |r| && Step(r[i], r[i + 1], p, a) && q in r[i].pc
    ensures q in r[i].rpc && q in r[i + 1].rpc
    ensures r[i].rpc[q].done && !r[i + 1].rpc[q].done ==> p == q && r[i].pc[p].Off?
    ensures !r[i].rpc[q].done && r[i + 1].rpc[q].done ==> DoneBy(r[i], r[i + 1], p, q)
  {
    RunOk(r, i);
    Owners(r[i], p, q);
    FieldsKept(r[i], r[i + 1], p, a);
    DoneChange(r[i], r[i + 1], p, a, q);
  }

  /** q's request is completed by its process, or by the reader with a reply to it. */
  ghost predicate DoneBy(s: Mnt, s': Mnt, p: Proc, q: Proc)
    requires p in s.pc && p in s.rpc && q in s.rpc && q in s'.rpc
  {
    || (q == p && s'.rpc[q].hung)
    || (s.rip == p && (q == p || s.pc[p] == Swapping(q)) && Answers(s.rpc[q], s.rpc[p].reply))
  }

  lemma DoneChange(s: Mnt, s': Mnt, p: Proc, a: Act, q: Proc)
    requires Inv(s) && Step(s, s', p, a) && q in s.rpc && q in s.pc && q in s'.rpc
    ensures s.rpc[q].done && !s'.rpc[q].done ==> p == q && s.pc[p].Off?
    ensures !s.rpc[q].done && s'.rpc[q].done ==> DoneBy(s, s', p, q)
  {
    Owners(s, p, q);
    hide Sleeper, Removed;
  }

  /**
    A request in the queue is one not done, and every request not done that its process waits for is there, or in the
    reader's hands.
   */
  lemma QueueExact(r: seq<Mnt>, i: nat, p: Proc)
    requires Run(r) && i < |r| && p in r[i].pc
    ensures p in r[i].rpc && QueueExactAt(r[i], p) && NoDup(r[i].queue)
  {
    RunOk(r, i);
    Owners(r[i], p, p);
  }

  ghost predicate QueueExactAt(s: Mnt, p: Proc)
    requires p in s.pc && p in s.rpc
  {
    p in s.queue <==> Active(s.pc[p]) && !s.rpc[p].done && !InHand(s, p)
  }

  /** So nothing is linked twice in such a run. */
  lemma LinkedOnce(r: seq<Mnt>, i: nat, p: Proc)
    requires Run(r) && i < |r|
    ensures LinksOnce(r[i], p)
  {
    RunOk(r, i);
    if p in r[i].pc {
      Owners(r[i], p, p);
    }
  }

  /**
    While nobody reads, a sleeper with a request not done has somebody coming to the gate, or about to wake one such
    sleeper.
   */
  lemma NoLostGate(r: seq<Mnt>, i: nat, p: Proc) returns (c: Proc)
    requires GateRun(r) && i < |r| && r[i].rip == NOBODY && Sleeps(r[i], p)
    ensures Comes(r[i], c) || Rouses(r[i], c)
  {
    GateRunOk(r, i);
    c :| Comes(r[i], c) || Rouses(r[i], c);
  }

  /** And whoever is coming then becomes the reader by its own steps alone. */
  lemma {:induction false} ComerReads(s: Mnt, c: Proc) returns (r: seq<Mnt>)
    requires Comes(s, c) && s.rip == s.lock == NOBODY
    ensures AnyRun(r) && r[0] == s && r[|r| - 1].rip == c && c in r[|r| - 1].pc && r[|r| - 1].pc[c].Reading?
    decreases match s.pc[c] case Gate => 0 case Woken => 1 case Sending(_) => 1 case _ => 2
  {
    var t := After(s, c, Plain);
    assert AnyStep(s, t, c, Plain);
    r := [s, t];
    if !s.pc[c].Gate? {
      var q := ComerReads(t, c);
      r := JoinRuns(r, q);
    }
  }

  /** Done while its process sends the next request with it, and in the queue. */
  ghost predicate Reused(s: Mnt, p: Proc) {
    p in s.pc && p in s.rpc && s.pc[p].Writing? && s.rpc[p].done && p in s.queue && s.lock == NOBODY
  }

  /** Such a process finds its request done, leaves, and asks again: its request would be linked a second time. */
  lemma LinkedAgain(s: Mnt, p: Proc) returns (r: seq<Mnt>)
    requires Reused(s, p) && s.rip != NOBODY
    ensures AnyRun(r) && r[0] == s && !LinksOnce(r[|r| - 1], p)
  {
    var s1 := After(s, p, Plain);
    var s2 := After(s1, p, Plain);
    var s3 := After(s2, p, Plain);
    var s4 := After(s3, p, Plain);
    var s5 := After(s4, p, Plain);
    assert AnyStep(s, s1, p, Plain) && AnyStep(s1, s2, p, Plain) && AnyStep(s2, s3, p, Plain);
    assert AnyStep(s3, s4, p, Plain) && AnyStep(s4, s5, p, Plain);
    r := [s, s1, s2, s3, s4, s5];
  }

  /**
    The care about the request in hand is needed each time: let its process leave by a failing flush,
    and it can ask again and be done by the old reply, while its new request is in the queue. The
    reply is not even one to it if it was one to the flush.
   */
  lemma ReusedInHand(s: Mnt, p: Proc) returns (r: seq<Mnt>)
    requires CoreInv(s) && p in s.pc && s.pc[p].Sending? && s.lock == NOBODY && InHand(s, p)
    ensures AnyRun(r) && r[0] == s && var t := r[|r| - 1]; p in t.pc && p in t.rpc && !QueueExactAt(t, p)
    ensures var t := r[|r| - 1]; s.rip in s.rpc && (s.rpc[s.rip].reply != s.rpc[p].tag ==> !OwnReplyAt(t, p))
    ensures var t := r[|r| - 1]; Reused(t, p) && t.rip == s.rip != NOBODY
    ensures |r| == 5 && p in r[3].rpc && p in r[4].rpc && !r[3].rpc[p].done && r[4].rpc[p].done
    ensures s.rip in r[3].pc && s.rip in r[3].rpc
      && (s.rpc[s.rip].reply != s.rpc[p].tag ==> !DoneBy(r[3], r[4], s.rip, p))
  {
    Cores(s, p, s.rip);
    var x := s.rip;
    var s1 := After(s, p, FlushFail);
    var s2 := After(s1, p, Plain);
    var s3 := After(s2, p, Plain);
    var s4 := After(s3, x, Plain);
    hide Removed;
    assert s3.queue[0] == p && s4.queue == s3.queue;
    assert AnyStep(s, s1, p, FlushFail) && AnyStep(s1, s2, p, Plain) && AnyStep(s2, s3, p, Plain);
    assert AnyStep(s3, s4, x, Plain);
    r := [s, s1, s2, s3, s4];
    assert forall i :: 0 < i < |r| ==> AnyNext(r[i - 1], r[i]) by {
      assert AnyNext(s, s1) && AnyNext(s1, s2) && AnyNext(s2, s3) && AnyNext(s3, s4);
    }
  }

  /** A run of steps of one process, plain but for the last. */
  lemma {:induction false} Walk(s: Mnt, p: Proc, n: nat, a: Act) returns (r: seq<Mnt>)
    requires CanWalk(s, p, n, a)
    ensures AnyRun(r) && r[0] == s && r[|r| - 1] == Walked(s, p, n, a)
    decreases n
  {
    var b := if n == 0 then a else Plain;
    var t := After(s, p, b);
    assert AnyStep(s, t, p, b);
    r := [s, t];
    if n > 0 {
      var q := Walk(t, p, n - 1, a);
      r := JoinRuns(r, q);
    }
  }

  ghost predicate CanWalk(s: Mnt, p: Proc, n: nat, a: Act)
    decreases n
  {
    p in s.pc && p in s.rpc && var b := if n == 0 then a else Plain;
      Ready(s, p, b) && (n > 0 ==> CanWalk(After(s, p, b), p, n - 1, a))
  }

  ghost function Walked(s: Mnt, p: Proc, n: nat, a: Act): Mnt
    requires CanWalk(s, p, n, a)
    decreases n
  {
    if n == 0 then After(s, p, a) else Walked(After(s, p, Plain), p, n - 1, a)
  }

  lemma JoinRuns(a: seq<Mnt>, b: seq<Mnt>) returns (r: seq<Mnt>)
    requires AnyRun(a) && AnyRun(b) && a[|a| - 1] == b[0]
    ensures AnyRun(r) && r[0] == a[0] && r[|r| - 1] == b[|b| - 1]
  {
    r := a + b[1..];
    forall i | 0 < i < |r|
      ensures AnyNext(r[i - 1], r[i])
    {
      if i >= |a| {
        assert r[i] == b[i - |a| + 1] && r[i - 1] == b[i - |a|];
      }
    }
  }

  function Three(x: PC, y: PC, z: PC): map<Proc, PC> {
    map[1 := x, 2 := y, 3 := z]
  }

  function Fresh(k: int): Rpc {
    Rpc(k, 0, false, false, k, 0, {}, false)
  }

  function ThreeRpcs(x: Rpc, y: Rpc, z: Rpc): map<Proc, Rpc> {
    map[1 := x, 2 := y, 3 := z]
  }

  /** Three processes start, one reads and two sleep. */
  lemma ReaderAndSleepers() returns (r: seq<Mnt>)
    ensures AnyRun(r) && Init(r[0])
    ensures r[|r| - 1] ==
      Mnt(Three(Reading, Asleep, Asleep), ThreeRpcs(Fresh(1), Fresh(2), Fresh(3)), NOBODY, 1, [3, 2, 1], TAGFLS)
  {
    var m := ThreeRpcs(Fresh(1), Fresh(2), Fresh(3));
    var s := Mnt(Three(Off, Off, Off), m, NOBODY, NOBODY, [], TAGFLS);
    ThreeInit();
    Begins(s, 1);
    Sleeps0(Begun(s, 1), 2);
    Sleeps0(Slept(Begun(s, 1), 2), 3);
    ThreeAsleep();
    hide *;
    r := Walk(s, 1, 3, Plain);
    var q := Walk(Begun(s, 1), 2, 4, Plain);
    r := JoinRuns(r, q);
    q := Walk(Slept(Begun(s, 1), 2), 3, 4, Plain);
    r := JoinRuns(r, q);
  }

  lemma ThreeInit()
    ensures Init(Mnt(Three(Off, Off, Off), ThreeRpcs(Fresh(1), Fresh(2), Fresh(3)), NOBODY, NOBODY, [], TAGFLS))
  {
  }

  lemma ThreeAsleep()
    ensures var m := ThreeRpcs(Fresh(1), Fresh(2), Fresh(3));
      Slept(Slept(Begun(Mnt(Three(Off, Off, Off), m, NOBODY, NOBODY, [], TAGFLS), 1), 2), 3)
      == Mnt(Three(Reading, Asleep, Asleep), m, NOBODY, 1, [3, 2, 1], TAGFLS)
  {
  }

  ghost function Begun(s: Mnt, p: Proc): Mnt {
    Go(s, p, Reading).(queue := [p] + s.queue, rip := p)
  }

  ghost function Slept(s: Mnt, p: Proc): Mnt {
    Go(s, p, Asleep).(queue := [p] + s.queue)
  }

  /** A process with a fresh request finds nobody reading. */
  lemma Begins(s: Mnt, p: Proc)
    requires p in s.pc && p in s.rpc && s.pc[p].Off? && s.lock == s.rip == NOBODY
      && s.rpc[p] == Fresh(s.rpc[p].tag).(buf := s.rpc[p].buf)
    ensures CanWalk(s, p, 3, Plain) && Walked(s, p, 3, Plain) == Begun(s, p)
  {
    var s1 := After(s, p, Plain);
    assert s1 == Go(s, p, Start) by { assert s1.rpc == s.rpc; }
    var s2 := After(s1, p, Plain);
    assert s2 == Go(s, p, Writing).(queue := [p] + s.queue) by { assert s2.rpc == s.rpc; }
    var s3 := After(s2, p, Plain);
    assert s3 == Go(s, p, Gate).(queue := [p] + s.queue);
    assert CanWalk(s3, p, 0, Plain) && CanWalk(s2, p, 1, Plain) && CanWalk(s1, p, 2, Plain);
    assert Walked(s3, p, 0, Plain) == Begun(s, p) && Walked(s2, p, 1, Plain) == Walked(s3, p, 0, Plain);
    assert Walked(s1, p, 2, Plain) == Walked(s2, p, 1, Plain);
  }

  /** A process with a fresh request finds somebody reading. */
  lemma Sleeps0(s: Mnt, p: Proc)
    requires p in s.pc && p in s.rpc && s.pc[p].Off? && s.lock == NOBODY != s.rip
      && s.rpc[p] == Fresh(s.rpc[p].tag).(buf := s.rpc[p].buf)
    ensures CanWalk(s, p, 4, Plain) && Walked(s, p, 4, Plain) == Slept(s, p)
  {
    var s1 := After(s, p, Plain);
    assert s1 == Go(s, p, Start) by { assert s1.rpc == s.rpc; }
    var s2 := After(s1, p, Plain);
    assert s2 == Go(s, p, Writing).(queue := [p] + s.queue) by { assert s2.rpc == s.rpc; }
    var s3 := After(s2, p, Plain);
    assert s3 == Go(s, p, Gate).(queue := [p] + s.queue);
    var s4 := After(s3, p, Plain);
    assert s4 == Go(s, p, Dozing).(queue := [p] + s.queue);
    assert CanWalk(s4, p, 0, Plain) && CanWalk(s3, p, 1, Plain) && CanWalk(s2, p, 2, Plain) && CanWalk(s1, p, 3, Plain);
    assert Walked(s4, p, 0, Plain) == Slept(s, p) && Walked(s3, p, 1, Plain) == Walked(s4, p, 0, Plain);
    assert Walked(s2, p, 2, Plain) == Walked(s3, p, 1, Plain) && Walked(s1, p, 3, Plain) == Walked(s2, p, 2, Plain);
  }

  function Answered(k: int): Rpc {
    Fresh(k).(done := true, reply := k)
  }

  /** The reader gets its own reply, gives up the reading and is about to wake the first sleeper. */
  lemma AboutToRouse() returns (r: seq<Mnt>)
    ensures AnyRun(r)
      && r[0] ==
      Mnt(Three(Reading, Asleep, Asleep), ThreeRpcs(Fresh(1), Fresh(2), Fresh(3)), NOBODY, 1, [3, 2, 1], TAGFLS)
    ensures r[|r| - 1] ==
      Mnt(Three(Rousing(3), Asleep, Asleep), ThreeRpcs(Answered(1), Fresh(2), Fresh(3)), NOBODY, NOBODY, [3, 2], TAGFLS)
  {
    var f, m := Fresh(1).(reply := 1), ThreeRpcs(Answered(1), Fresh(2), Fresh(3));
    var s0 := Mnt(Three(Reading, Asleep, Asleep), ThreeRpcs(Fresh(1), Fresh(2), Fresh(3)), NOBODY, 1, [3, 2, 1],
      TAGFLS);
    var s1 := Mnt(Three(Got(1), Asleep, Asleep), ThreeRpcs(f, Fresh(2), Fresh(3)), NOBODY, 1, [3, 2, 1], TAGFLS);
    var s2 := Mnt(Three(Reading, Asleep, Asleep), m, NOBODY, 1, [3, 2], TAGFLS);
    var s3 := Mnt(Three(Closing, Asleep, Asleep), m, NOBODY, 1, [3, 2], TAGFLS);
    var s4 := Mnt(Three(Scanning, Asleep, Asleep), m, 1, NOBODY, [3, 2], TAGFLS);
    var s5 := Mnt(Three(Rousing(3), Asleep, Asleep), m, NOBODY, NOBODY, [3, 2], TAGFLS);
    OwnReplyRead();
    ReadingGivenUp();
    hide Find, Matches, Removed, Ready, After;
    assert AnyStep(s2, s3, 1, Plain) && AnyStep(s3, s4, 1, Plain) && AnyStep(s4, s5, 1, Plain);
    hide *;
    r := [s0, s1, s2, s3, s4, s5];
  }

  lemma ReadingGivenUp()
    ensures var m := ThreeRpcs(Answered(1), Fresh(2), Fresh(3));
      var s2 := Mnt(Three(Reading, Asleep, Asleep), m, NOBODY, 1, [3, 2], TAGFLS);
      var s3 := Mnt(Three(Closing, Asleep, Asleep), m, NOBODY, 1, [3, 2], TAGFLS);
      var s4 := Mnt(Three(Scanning, Asleep, Asleep), m, 1, NOBODY, [3, 2], TAGFLS);
      var s5 := Mnt(Three(Rousing(3), Asleep, Asleep), m, NOBODY, NOBODY, [3, 2], TAGFLS);
      AnyStep(s2, s3, 1, Plain) && AnyStep(s3, s4, 1, Plain) && AnyStep(s4, s5, 1, Plain)
  {
    hide Find, Matches, Removed;
  }

  lemma OwnReplyRead()
    ensures var f, m := Fresh(1).(reply := 1), ThreeRpcs(Answered(1), Fresh(2), Fresh(3));
      var s0 := Mnt(Three(Reading, Asleep, Asleep), ThreeRpcs(Fresh(1), Fresh(2), Fresh(3)), NOBODY, 1, [3, 2, 1],
        TAGFLS);
      var s1 := Mnt(Three(Got(1), Asleep, Asleep), ThreeRpcs(f, Fresh(2), Fresh(3)), NOBODY, 1, [3, 2, 1], TAGFLS);
      var s2 := Mnt(Three(Reading, Asleep, Asleep), m, NOBODY, 1, [3, 2], TAGFLS);
      AnyStep(s0, s1, 1, Reply(1)) && AnyStep(s1, s2, 1, Plain)
  {
    GotFirst();
    hide Find, Sleeper, Removed, Matches;
    assert Unlinked([3, 2, 1], 2) == [3, 2];
  }

  /** The reply is found to be the reader's own, last in the queue. */
  lemma GotFirst()
    ensures Find(ThreeRpcs(Fresh(1).(reply := 1), Fresh(2), Fresh(3)), [3, 2, 1], 1) == 2
  {
    var m := ThreeRpcs(Fresh(1).(reply := 1), Fresh(2), Fresh(3));
    assert [3, 2, 1][1..] == [2, 1] && [2, 1][1..] == [1];
    assert Find(m, [1], 1) == 0 && Find(m, [2, 1], 1) == 1;
  }

  lemma PickedInterrupted()
    ensures var m, n := ThreeRpcs(Answered(1), Fresh(2), Fresh(3)), ThreeRpcs(Answered(1), Fresh(2), Interrupted(3));
      var s0 := Mnt(Three(Rousing(3), Asleep, Asleep), m, NOBODY, NOBODY, [3, 2], TAGFLS);
      var s1 := Mnt(Three(Rousing(3), Asleep, Flushing(true)), m, NOBODY, NOBODY, [3, 2], TAGFLS);
      var s2 := Mnt(Three(Rousing(3), Asleep, Sending(true)), n, NOBODY, NOBODY, [3, 2], TAGFLS + 1);
      AnyStep(s0, s1, 3, Interrupt) && AnyStep(s1, s2, 3, Plain)
  {
    hide Find, Sleeper, Matches, Removed;
    assert Three(Rousing(3), Asleep, Asleep)[1] == Rousing(3);
    assert {} + {TAGFLS} == {TAGFLS};
  }

  /** That sleeper is interrupted first, its flush cannot be sent, and it leaves. */
  lemma PickedLeaves() returns (r: seq<Mnt>)
    ensures AnyRun(r)
    ensures r[0] ==
      Mnt(Three(Rousing(3), Asleep, Asleep), ThreeRpcs(Answered(1), Fresh(2), Fresh(3)), NOBODY, NOBODY, [3, 2], TAGFLS)
    ensures r[|r| - 1] == Mnt(Three(Off, Asleep, Off), r[|r| - 1].rpc, NOBODY, NOBODY, [2], TAGFLS + 1)
    ensures 2 in r[|r| - 1].rpc && r[|r| - 1].rpc[2] == Fresh(2)
  {
    hide Find, Sleeper, Matches;
    var m := ThreeRpcs(Answered(1), Fresh(2), Fresh(3));
    var n := ThreeRpcs(Answered(1), Fresh(2), Interrupted(3));
    var o := ThreeRpcs(Answered(1), Fresh(2), Interrupted(3).(done := true, flushed := false, hung := true));
    var s0 := Mnt(Three(Rousing(3), Asleep, Asleep), m, NOBODY, NOBODY, [3, 2], TAGFLS);
    var s1 := Mnt(Three(Rousing(3), Asleep, Flushing(true)), m, NOBODY, NOBODY, [3, 2], TAGFLS);
    var s2 := Mnt(Three(Rousing(3), Asleep, Sending(true)), n, NOBODY, NOBODY, [3, 2], TAGFLS + 1);
    var s3 := Mnt(Three(Rousing(3), Asleep, Off), o, NOBODY, NOBODY, [2], TAGFLS + 1);
    var s4 := Mnt(Three(Off, Asleep, Off), o, NOBODY, NOBODY, [2], TAGFLS + 1);
    PickedInterrupted();
    assert [3, 2][1..] == [2];
    assert AnyStep(s2, s3, 3, FlushFail);
    assert AnyStep(s3, s4, 1, Plain);
    assert o[2] == Fresh(2);
    hide *;
    r := [s0, s1, s2, s3, s4];
  }

  /** Without that care a run can end with nobody reading, a request not done asleep, and nobody awake at all. */
  lemma GateLost() returns (r: seq<Mnt>)
    ensures AnyRun(r) && Init(r[0])
    ensures var s := r[|r| - 1];
      s.rip == NOBODY && Sleeps(s, 2) && forall p :: p in s.pc ==>
        (s.pc[p].Off? || s.pc[p].Asleep?) && !Comes(s, p) && !Rouses(s, p)
  {
    r := ReaderAndSleepers();
    var q := AboutToRouse();
    r := JoinRuns(r, q);
    q := PickedLeaves();
    r := JoinRuns(r, q);
  }

  /** A sleeper is interrupted, and before its flush is sent the reader has the reply to it, and the sleeper in hand. */
  lemma FlushReply() returns (r: seq<Mnt>)
    ensures AnyRun(r)
    ensures r[0] ==
      Mnt(Three(Reading, Asleep, Asleep), ThreeRpcs(Fresh(1), Fresh(2), Fresh(3)), NOBODY, 1, [3, 2, 1], TAGFLS)
    ensures var s := r[|r| - 1];
      s.pc == Three(Swapping(2), Sending(false), Asleep) && s.lock == NOBODY && s.rip == 1
      && s.rpc == ThreeRpcs(Fresh(1).(reply := TAGFLS), Interrupted(2), Fresh(3))
  {
    var m, n := ThreeRpcs(Fresh(1), Fresh(2), Fresh(3)), ThreeRpcs(Fresh(1), Interrupted(2), Fresh(3));
    var o := ThreeRpcs(Fresh(1).(reply := TAGFLS), Interrupted(2), Fresh(3));
    var s0 := Mnt(Three(Reading, Asleep, Asleep), m, NOBODY, 1, [3, 2, 1], TAGFLS);
    var s1 := Mnt(Three(Reading, Flushing(false), Asleep), m, NOBODY, 1, [3, 2, 1], TAGFLS);
    var s2 := Mnt(Three(Reading, Sending(false), Asleep), n, NOBODY, 1, [3, 2, 1], TAGFLS + 1);
    var s3 := Mnt(Three(Got(TAGFLS), Sending(false), Asleep), o, NOBODY, 1, [3, 2, 1], TAGFLS + 1);
    var s4 := Mnt(Three(Swapping(2), Sending(false), Asleep), o, NOBODY, 1, [3, 1], TAGFLS + 1);
    GotSecond();
    FlushTaken();
    hide Find, Sleeper, Matches;
    assert AnyStep(s2, s3, 1, Reply(TAGFLS));
    hide *;
    r := [s0, s1, s2, s3, s4];
  }

  lemma FlushTaken()
    ensures var m, n := ThreeRpcs(Fresh(1), Fresh(2), Fresh(3)), ThreeRpcs(Fresh(1), Interrupted(2), Fresh(3));
      var s0 := Mnt(Three(Reading, Asleep, Asleep), m, NOBODY, 1, [3, 2, 1], TAGFLS);
      var s1 := Mnt(Three(Reading, Flushing(false), Asleep), m, NOBODY, 1, [3, 2, 1], TAGFLS);
      var s2 := Mnt(Three(Reading, Sending(false), Asleep), n, NOBODY, 1, [3, 2, 1], TAGFLS + 1);
      AnyStep(s0, s1, 2, Interrupt) && AnyStep(s1, s2, 2, Plain)
  {
    hide Find, Sleeper, Matches, Removed;
    assert {} + {TAGFLS} == {TAGFLS};
  }

  lemma GotSecond()
    ensures var o := ThreeRpcs(Fresh(1).(reply := TAGFLS), Interrupted(2), Fresh(3));
      var s3 := Mnt(Three(Got(TAGFLS), Sending(false), Asleep), o, NOBODY, 1, [3, 2, 1], TAGFLS + 1);
      var s4 := Mnt(Three(Swapping(2), Sending(false), Asleep), o, NOBODY, 1, [3, 1], TAGFLS + 1);
      AnyStep(s3, s4, 1, Plain)
  {
    var o := ThreeRpcs(Fresh(1).(reply := TAGFLS), Interrupted(2), Fresh(3));
    assert [3, 2, 1][1..] == [2, 1];
    assert Find(o, [2, 1], TAGFLS) == 0;
    assert Find(o, [3, 2, 1], TAGFLS) == 1;
    hide Find, Sleeper, Matches;
    assert Unlinked([3, 2, 1], 1) == [3, 1];
  }

  function Interrupted(k: int): Rpc {
    Fresh(k).(flushtag := TAGFLS, flushed := true, sent := {TAGFLS})
  }

  /** A run from the start that ends with a request done by a reply that is neither to it nor to a flush of it. */
  lemma ReplyMisused() returns (r: seq<Mnt>)
    ensures AnyRun(r) && Init(r[0])
    ensures var s := r[|r| - 1];
      2 in s.pc && 2 in s.rpc && !OwnReplyAt(s, 2) && !QueueExactAt(s, 2) && s.rpc[2].done && !s.rpc[2].hung
    ensures Reused(r[|r| - 1], 2) && r[|r| - 1].rip != NOBODY
  {
    r := ReaderAndSleepers();
    var q := FlushReply();
    r := JoinRuns(r, q);
    AnyIsWild(r);
    WildOk(r, |r| - 1);
    q := ReusedInHand(r[|r| - 1], 2);
    var t := q[|q| - 1];
    r := JoinRuns(r, q);
    assert r[|r| - 1] == t;
  }

  /** And on to where a request is about to be linked into the queue it is in. */
  lemma QueueTorn() returns (r: seq<Mnt>)
    ensures AnyRun(r) && Init(r[0]) && !LinksOnce(r[|r| - 1], 2)
  {
    r := ReplyMisused();
    var q := LinkedAgain(r[|r| - 1], 2);
    r := JoinRuns(r, q);
  }
}
