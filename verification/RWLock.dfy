/**
  Reader/writer locks (emu/lock.c) as steps of any number of processes: every spin lock taken, every
  section run under it, and every rendezvous is a step, in any interleaving.
 */
module RWLock {
  import opened Procs
  import opened QueueLock
  import opened Seqs
  import opened Sets

  /** The owner of k while readers hold it together. */
  const READERS := -1

  /** Where a process is. w tells writers from readers. */
  datatype PC =
    | Idle
    | Reading
    | Writing
    | XEnter(w: bool)           // qlock(&l->x): wants the spin lock
    | XIn(w: bool)              // holds the spin lock
    | XAsleep(w: bool)          // in the queue, at its rendezvous
    | LEnter                    // rlock: wants l
    | LCount                    // holds l, counts itself
    | KTry                      // canqlock(&l->k)
    | KIn                       // holds the spin lock of k
    | LLeave
    | XFree(w: bool)            // qunlock(&l->x): wants the spin lock
    | XOut(w: bool)
    | XHand(w: bool, to: Proc)  // at the rendezvous of the process it wakes
    | KEnter                    // wlock: qlock(&l->k)
    | KQueue
    | KAsleep
    | KFree(w: bool)            // qunlock(&l->k)
    | KOut(w: bool)
    | KHand(w: bool, to: Proc)
    | DEnter                    // runlock: wants l
    | DCount
    | DLeave

  /** A queueing lock with its spin lock; who owns it, who came to wait and who was let go are kept for the proof. */
  datatype Guard = Guard(use: Proc, q: Lock, owner: Proc, came: seq<Proc>, went: seq<Proc>)

  datatype RW = RW(pc: map<Proc, PC>, x: Guard, k: Guard, l: Proc, readers: int)

  function Go(s: RW, p: Proc, c: PC): RW {
    s.(pc := s.pc[p := c])
  }

  /** The section of qlock: p has the lock, or a place in the queue. */
  function Entered(g: Guard, p: Proc): Guard {
    if g.q.locked then g.(use := NOBODY, q := Grab(g.q, p), came := g.came + [p])
    else g.(use := NOBODY, q := Grab(g.q, p), owner := p)
  }

  /** The section of qunlock. */
  function Left(g: Guard): Guard {
    if |g.q.queue| > 0 then g.(use := NOBODY, q := Release(g.q), went := g.went + [g.q.queue[0]])
    else g.(use := NOBODY, q := Release(g.q), owner := NOBODY)
  }

  /**
    Process p, at work inside the lock, can take its next step: no spin lock it wants is held, whoever it meets is
    there.
   */
  predicate Ready(s: RW, p: Proc)
    requires p in s.pc
  {
    match s.pc[p]
    case XEnter(_) | XFree(_) => s.x.use == NOBODY
    case KEnter | KFree(_) => s.k.use == NOBODY
    case LEnter | DEnter => s.l == NOBODY
    case XHand(_, to) => to in s.pc && s.pc[to].XAsleep?
    case KHand(_, to) => to in s.pc && s.pc[to].KAsleep?
    case Idle | XAsleep(_) | KAsleep => false
    case _ => true
  }

  /** What that step does. */
  function After(s: RW, p: Proc): RW
    requires p in s.pc && Ready(s, p)
  {
    match s.pc[p]
    case Reading => Go(s, p, DEnter)
    case Writing => Go(s, p, KFree(true))
    case XEnter(w) => Go(s, p, XIn(w)).(x := s.x.(use := p))
    case XIn(w) => Go(s, p, if s.x.q.locked then XAsleep(w) else if w then KEnter else LEnter).(x := Entered(s.x, p))
    case LEnter => Go(s, p, LCount).(l := p)
    case LCount => Go(s, p, KTry).(readers := s.readers + 1)
    case KTry => if s.k.use == NOBODY then Go(s, p, KIn).(k := s.k.(use := p)) else Go(s, p, LLeave)
    case KIn =>
      Go(s, p, LLeave).(k := if s.k.q.locked then s.k.(use := NOBODY)
        else s.k.(use := NOBODY, q := Grab(s.k.q, p), owner := READERS))
    case LLeave => Go(s, p, XFree(false)).(l := NOBODY)
    case XFree(w) => Go(s, p, XOut(w)).(x := s.x.(use := p))
    case XOut(w) => Go(s, p, if |s.x.q.queue| > 0 then XHand(w, s.x.q.queue[0]) else if w then Idle
      else Reading).(x := Left(s.x))
    case XHand(w, to) =>
      Go(Go(s, p, if w then Idle else Reading), to, if s.pc[to].w then KEnter else LEnter).(x := s.x.(owner := to))
    case KEnter => Go(s, p, KQueue).(k := s.k.(use := p))
    case KQueue => Go(s, p, if s.k.q.locked then KAsleep else Writing).(k := Entered(s.k, p))
    case KFree(w) => Go(s, p, KOut(w)).(k := s.k.(use := p))
    case KOut(w) =>
      Go(s, p, if |s.k.q.queue| > 0 then KHand(w, s.k.q.queue[0]) else if w then XFree(true)
        else DLeave).(k := Left(s.k))
    case KHand(w, to) => Go(Go(s, p, if w then XFree(true) else DLeave), to, Writing).(k := s.k.(owner := to))
    case DEnter => Go(s, p, DCount).(l := p)
    case DCount =>
      if s.readers == 1 then Go(s, p, KFree(false)).(readers := 0, k := s.k.(owner := p))
      else Go(s, p, DLeave).(readers := s.readers - 1)
    case DLeave => Go(s, p, Idle).(l := NOBODY)
  }

  /** One step of process p; outside the lock it may begin rlock or wlock. */
  ghost predicate Step(s: RW, s': RW, p: Proc) {
    p in s.pc
    && if s.pc[p].Idle? then s' == Go(s, p, XEnter(false)) || s' == Go(s, p, XEnter(true))
       else Ready(s, p) && s' == After(s, p)
  }

  ghost predicate Init(s: RW) {
    && NOBODY !in s.pc && READERS !in s.pc && (forall p :: p in s.pc ==> s.pc[p] == Idle)
    && s.x == s.k == Guard(NOBODY, State(false, []), NOBODY, [], []) && s.l == NOBODY && s.readers == 0
  }

  predicate HoldsX(c: PC) {
    c.LEnter? || c.LCount? || c.KTry? || c.KIn? || c.LLeave? || c.XFree? || c.XOut? || c.XHand? || c.KEnter?
      || c.KQueue? || c.KAsleep?
    || c.Writing? || (c.KFree? && c.w) || (c.KOut? && c.w) || (c.KHand? && c.w)
  }

  predicate HoldsL(c: PC) {
    c.LCount? || c.KTry? || c.KIn? || c.LLeave? || c.DCount? || c.DLeave? || (c.KFree? && !c.w) || (c.KOut? && !c.w)
      || (c.KHand? && !c.w)
  }

  predicate HoldsK(c: PC) {
    c.Writing? || c.KFree? || c.KOut? || c.KHand?
  }

  /** The process is counted in readers. */
  predicate Counted(c: PC) {
    c.KTry? || c.KIn? || c.LLeave? || (c.XFree? && !c.w) || (c.XOut? && !c.w) || (c.XHand? && !c.w) || c.Reading?
      || c.DEnter? || c.DCount?
  }

  ghost function CountedSet(pc: map<Proc, PC>): set<Proc> {
    set p | p in pc && Counted(pc[p])
  }

  /** What is known of one process. */
  ghost predicate Local(s: RW, p: Proc)
    requires p in s.pc
  {
    var c := s.pc[p];
    && (HoldsX(c) <==> s.x.owner == p) && (HoldsL(c) <==> s.l == p) && (HoldsK(c) <==> s.k.owner == p)
    && (c.XIn? || c.XOut? <==> s.x.use == p) && (c.KIn? || c.KQueue? || c.KOut? <==> s.k.use == p)
    && (c.XAsleep? <==> p in s.x.q.queue || HandedX(s, p)) && (c.KAsleep? <==> p in s.k.q.queue || HandedK(s, p))
    && (c.XHand? ==> c.to in s.pc && c.to !in s.x.q.queue) && (c.KHand? ==> c.to in s.pc && c.to !in s.k.q.queue)
  }

  ghost predicate HandedX(s: RW, p: Proc) {
    s.x.owner in s.pc && s.pc[s.x.owner].XHand? && s.pc[s.x.owner].to == p
  }

  ghost predicate HandedK(s: RW, p: Proc) {
    s.k.owner in s.pc && s.pc[s.k.owner].KHand? && s.pc[s.k.owner].to == p
  }

  ghost predicate GuardOk(procs: set<Proc>, g: Guard) {
    && (g.use == NOBODY || g.use in procs) && (g.owner == NOBODY || g.owner == READERS || g.owner in procs)
    && (g.q.locked <==> g.owner != NOBODY) && (|g.q.queue| > 0 ==> g.q.locked)
    && (forall p :: p in g.q.queue ==> p in procs)
    && NoDup(g.q.queue) && g.came == g.went + g.q.queue
  }

  /** Readers hold k together, but for the first while it counts itself in. */
  ghost predicate ReadersOk(s: RW) {
    && s.readers == |CountedSet(s.pc)| && (s.k.owner == READERS ==> s.readers > 0)
    && (s.readers > 0 && s.k.owner != READERS ==>
          s.k.owner == NOBODY && s.readers == 1 && s.l in s.pc && (s.pc[s.l].KTry? || s.pc[s.l].KIn?))
  }

  ghost predicate Inv(s: RW) {
    && NOBODY !in s.pc && READERS !in s.pc && (s.l == NOBODY || s.l in s.pc) && s.x.owner != READERS
    && GuardOk(s.pc.Keys, s.x) && GuardOk(s.pc.Keys, s.k) && ReadersOk(s)
    && forall p {:trigger Local(s, p)} :: p in s.pc ==> Local(s, p)
  }

  lemma InitOk(s: RW)
    requires Init(s)
    ensures Inv(s)
  {
    Empty(CountedSet(s.pc));
  }

  /** canqlock in rlock finds the spin lock of k free. */
  lemma Uncontended(s: RW, p: Proc)
    requires Inv(s) && p in s.pc && s.pc[p].KTry?
    ensures s.k.use == NOBODY
  {
    assert Local(s, p) && (s.k.use in s.pc ==> Local(s, s.k.use));
  }

  lemma Owners(s: RW, p: Proc, o: Proc)
    requires Inv(s) && p in s.pc && o in s.pc
    ensures Local(s, p) && Local(s, o) && (s.x.owner in s.pc ==> Local(s, s.x.owner))
      && (s.k.owner in s.pc ==> Local(s, s.k.owner))
    ensures s.l in s.pc ==> Local(s, s.l)
  {
  }

  lemma XInKept(s: RW, s': RW, p: Proc, o: Proc)
    requires Inv(s) && Step(s, s', p) && s.pc[p].XIn? && o in s.pc
    ensures o in s'.pc && Local(s', o)
  {
    Owners(s, p, o);
  }

  lemma XOutKept(s: RW, s': RW, p: Proc, o: Proc)
    requires Inv(s) && Step(s, s', p) && s.pc[p].XOut? && o in s.pc
    ensures o in s'.pc && Local(s', o)
  {
    Owners(s, p, o);
  }

  lemma XHandKept(s: RW, s': RW, p: Proc, o: Proc)
    requires Inv(s) && Step(s, s', p) && s.pc[p].XHand? && o in s.pc
    ensures o in s'.pc && Local(s', o)
  {
    Owners(s, p, o);
  }

  lemma KInKept(s: RW, s': RW, p: Proc, o: Proc)
    requires Inv(s) && Step(s, s', p) && s.pc[p].KIn? && o in s.pc
    ensures o in s'.pc && Local(s', o)
  {
    Owners(s, p, o);
  }

  lemma KQueueKept(s: RW, s': RW, p: Proc, o: Proc)
    requires Inv(s) && Step(s, s', p) && s.pc[p].KQueue? && o in s.pc
    ensures o in s'.pc && Local(s', o)
  {
    Owners(s, p, o);
  }

  lemma KOutKept(s: RW, s': RW, p: Proc, o: Proc)
    requires Inv(s) && Step(s, s', p) && s.pc[p].KOut? && o in s.pc
    ensures o in s'.pc && Local(s', o)
  {
    Owners(s, p, o);
  }

  lemma KHandKept(s: RW, s': RW, p: Proc, o: Proc)
    requires Inv(s) && Step(s, s', p) && s.pc[p].KHand? && o in s.pc
    ensures o in s'.pc && Local(s', o)
  {
    Owners(s, p, o);
  }

  lemma DCountKept(s: RW, s': RW, p: Proc, o: Proc)
    requires Inv(s) && Step(s, s', p) && s.pc[p].DCount? && o in s.pc
    ensures o in s'.pc && Local(s', o)
  {
    Owners(s, p, o);
  }

  lemma XPlainKept(s: RW, s': RW, p: Proc, o: Proc)
    requires Inv(s) && Step(s, s', p) && o in s.pc && var c := s.pc[p]; c.XEnter? || c.XFree?
    ensures o in s'.pc && Local(s', o)
  {
    Owners(s, p, o);
  }

  lemma IdleKept(s: RW, s': RW, p: Proc, o: Proc)
    requires Inv(s) && Step(s, s', p) && o in s.pc && var c := s.pc[p]; c.Idle?
    ensures o in s'.pc && Local(s', o)
  {
    Owners(s, p, o);
  }

  lemma ReadingKept(s: RW, s': RW, p: Proc, o: Proc)
    requires Inv(s) && Step(s, s', p) && o in s.pc && var c := s.pc[p]; c.Reading?
    ensures o in s'.pc && Local(s', o)
  {
    Owners(s, p, o);
  }

  lemma WritingKept(s: RW, s': RW, p: Proc, o: Proc)
    requires Inv(s) && Step(s, s', p) && o in s.pc && var c := s.pc[p]; c.Writing?
    ensures o in s'.pc && Local(s', o)
  {
    Owners(s, p, o);
  }

  lemma LPlainKept(s: RW, s': RW, p: Proc, o: Proc)
    requires Inv(s) && Step(s, s', p) && o in s.pc && var c := s.pc[p]; c.LEnter? || c.LCount? || c.LLeave?
    ensures o in s'.pc && Local(s', o)
  {
    Owners(s, p, o);
  }

  lemma DPlainKept(s: RW, s': RW, p: Proc, o: Proc)
    requires Inv(s) && Step(s, s', p) && o in s.pc && var c := s.pc[p]; c.DEnter? || c.DLeave?
    ensures o in s'.pc && Local(s', o)
  {
    Owners(s, p, o);
  }

  lemma KPlainKept(s: RW, s': RW, p: Proc, o: Proc)
    requires Inv(s) && Step(s, s', p) && o in s.pc
    requires var c := s.pc[p]; c.KTry? || c.KEnter? || c.KFree? || c.KAsleep? || c.XAsleep?
    ensures o in s'.pc && Local(s', o)
  {
    Owners(s, p, o);
  }

  lemma LocalKept(s: RW, s': RW, p: Proc, o: Proc)
    requires Inv(s) && Step(s, s', p) && o in s.pc
    ensures s'.pc.Keys == s.pc.Keys && Local(s', o)
  {
    hide Local, HoldsX, HoldsL, HoldsK, Counted, CountedSet;
    match s.pc[p]
    case Idle => IdleKept(s, s', p, o);
    case Reading => ReadingKept(s, s', p, o);
    case Writing => WritingKept(s, s', p, o);
    case XEnter(_) | XFree(_) => XPlainKept(s, s', p, o);
    case LEnter | LCount | LLeave => LPlainKept(s, s', p, o);
    case DEnter | DLeave => DPlainKept(s, s', p, o);
    case KTry | KEnter | KFree(_) | KAsleep | XAsleep(_) => KPlainKept(s, s', p, o);
    case XIn(_) => XInKept(s, s', p, o);
    case XOut(_) => XOutKept(s, s', p, o);
    case XHand(_, _) => XHandKept(s, s', p, o);
    case KIn => KInKept(s, s', p, o);
    case KQueue => KQueueKept(s, s', p, o);
    case KOut(_) => KOutKept(s, s', p, o);
    case KHand(_, _) => KHandKept(s, s', p, o);
    case DCount => DCountKept(s, s', p, o);
  }

  lemma EnteredOk(procs: set<Proc>, g: Guard, p: Proc)
    requires GuardOk(procs, g) && p in procs && p !in g.q.queue && p != NOBODY
    ensures GuardOk(procs, Entered(g, p))
  {
  }

  lemma LeftOk(procs: set<Proc>, g: Guard)
    requires GuardOk(procs, g) && g.owner != NOBODY
    ensures GuardOk(procs, Left(g))
  {
  }

  /** Queues and histories. */
  lemma GuardsKept(s: RW, s': RW, p: Proc)
    requires Inv(s) && Step(s, s', p)
    ensures GuardOk(s'.pc.Keys, s'.x) && GuardOk(s'.pc.Keys, s'.k)
  {
    Owners(s, p, p);
    LocalKept(s, s', p, p);
    if s.pc[p].XIn? {
      EnteredOk(s.pc.Keys, s.x, p);
    } else if s.pc[p].KQueue? {
      EnteredOk(s.pc.Keys, s.k, p);
    } else if s.pc[p].XOut? {
      LeftOk(s.pc.Keys, s.x);
    } else if s.pc[p].KOut? {
      LeftOk(s.pc.Keys, s.k);
    }
  }

  lemma OthersCounted(s: RW, s': RW, p: Proc, q: Proc)
    requires Step(s, s', p) && q in s.pc && q != p
    ensures q in s'.pc && Counted(s'.pc[q]) == Counted(s.pc[q])
  {
  }

  lemma OwnCounted(s: RW, s': RW, p: Proc)
    requires Inv(s) && Step(s, s', p)
    ensures p in s'.pc && (Counted(s'.pc[p]) <==> !s.pc[p].DCount? && (s.pc[p].LCount? || Counted(s.pc[p])))
  {
    Owners(s, p, p);
  }

  /** The number counted in follows one process. */
  lemma CountOne(pc: map<Proc, PC>, pc': map<Proc, PC>, p: Proc)
    requires p in pc && pc'.Keys == pc.Keys && forall q :: q in pc && q != p ==> Counted(pc'[q]) == Counted(pc[q])
    ensures |CountedSet(pc')| ==
      |CountedSet(pc)| + (if Counted(pc'[p]) then 1 else 0) - (if Counted(pc[p]) then 1 else 0)
    ensures Counted(pc[p]) ==> |CountedSet(pc)| > 0
  {
    var a, b := CountedSet(pc), CountedSet(pc');
    Same(a - {p}, b - {p});
    assert (p in a <==> Counted(pc[p])) && (p in b <==> Counted(pc'[p]));
    Without(a, p);
    Without(b, p);
  }

  lemma CountChanges(s: RW, s': RW, p: Proc)
    requires Inv(s) && Step(s, s', p)
    ensures |CountedSet(s'.pc)| ==
      |CountedSet(s.pc)| + (if s.pc[p].LCount? then 1 else if s.pc[p].DCount? then -1 else 0)
    ensures Counted(s.pc[p]) ==> |CountedSet(s.pc)| > 0
  {
    LocalKept(s, s', p, p);
    OwnCounted(s, s', p);
    hide Step, Local;
    forall q | q in s.pc && q != p
      ensures Counted(s'.pc[q]) == Counted(s.pc[q])
    {
      OthersCounted(s, s', p, q);
    }
    CountOne(s.pc, s'.pc, p);
  }

  lemma ReadersKept(s: RW, s': RW, p: Proc)
    requires Inv(s) && Step(s, s', p)
    ensures ReadersOk(s')
  {
    CountChanges(s, s', p);
    Owners(s, p, p);
    if s.pc[p].KTry? {
      Uncontended(s, p);
    }
  }

  lemma FieldsKept(s: RW, s': RW, p: Proc)
    requires Inv(s) && Step(s, s', p)
    ensures s'.pc.Keys == s.pc.Keys && (s'.l == NOBODY || s'.l in s'.pc) && s'.x.owner != READERS
  {
    LocalKept(s, s', p, p);
  }

  lemma StepOk(s: RW, s': RW, p: Proc)
    requires Inv(s) && Step(s, s', p)
    ensures Inv(s')
  {
    GuardsKept(s, s', p);
    ReadersKept(s, s', p);
    FieldsKept(s, s', p);
    hide Step, Ready, Local, GuardOk, ReadersOk;
    forall o | o in s'.pc
      ensures Local(s', o)
    {
      LocalKept(s, s', p, o);
    }
  }

  /** A run of the lock: any processes, in any order. */
  ghost predicate Run(r: seq<RW>) {
    |r| > 0 && Init(r[0]) && forall i :: 0 < i < |r| ==> Next(r[i - 1], r[i])
  }

  ghost predicate Next(s: RW, s': RW) {
    exists p :: Step(s, s', p)
  }

  lemma {:induction false} RunOk(r: seq<RW>, i: nat)
    requires Run(r) && i < |r|
    ensures Inv(r[i])
  {
    if i == 0 {
      InitOk(r[0]);
    } else {
      RunOk(r, i - 1);
      assert Next(r[i - 1], r[i]);
      var p :| Step(r[i - 1], r[i], p);
      StepOk(r[i - 1], r[i], p);
    }
  }

  lemma SomeCounted(pc: map<Proc, PC>, q: Proc)
    requires q in pc
    ensures Counted(pc[q]) ==> |CountedSet(pc)| > 0
  {
    if Counted(pc[q]) {
      assert q in CountedSet(pc);
    }
  }

  /** The calls of the lock. */
  datatype Call = Rlock | Wlock

  /** A state beside the history of which call each process made last. */
  datatype Told = Told(s: RW, calls: map<Proc, Call>)

  /** A step, and the call it is, if the process was outside. */
  ghost predicate ToldStep(t: Told, t': Told, p: Proc) {
    p in t.s.pc
    && if t.s.pc[p].Idle? then
         || t' == Told(Go(t.s, p, XEnter(false)), t.calls[p := Rlock])
         || t' == Told(Go(t.s, p, XEnter(true)), t.calls[p := Wlock])
       else Ready(t.s, p) && t' == t.(s := After(t.s, p))
  }

  ghost predicate ToldNext(t: Told, t': Told) {
    exists p :: ToldStep(t, t', p)
  }

  ghost predicate ToldRun(t: seq<Told>) {
    |t| > 0 && Init(t[0].s) && forall i :: 0 < i < |t| ==> ToldNext(t[i - 1], t[i])
  }

  ghost function States(t: seq<Told>): (r: seq<RW>)
    ensures |r| == |t| && forall i :: 0 <= i < |t| ==> r[i] == t[i].s
  {
    seq(|t|, i requires 0 <= i < |t| => t[i].s)
  }

  lemma ToldIsRun(t: seq<Told>)
    requires ToldRun(t)
    ensures Run(States(t))
  {
    hide Ready, After, Init;
    var r := States(t);
    forall i | 0 < i < |r|
      ensures Next(r[i - 1], r[i])
    {
      assert ToldNext(t[i - 1], t[i]);
      var p :| ToldStep(t[i - 1], t[i], p);
      assert Step(r[i - 1], r[i], p);
    }
  }

  /** Every run has such a history. */
  lemma {:induction false} HistoryExists(r: seq<RW>) returns (t: seq<Told>)
    requires Run(r)
    ensures ToldRun(t) && States(t) == r
    decreases |r|
  {
    var n := |r| - 1;
    if n == 0 {
      t := [Told(r[0], map[])];
    } else {
      t := HistoryExists(r[..n]);
      assert Next(r[n - 1], r[n]);
      var p :| Step(r[n - 1], r[n], p);
      assert States(t)[n - 1] == r[n - 1];
      hide Ready, After, Init;
      var calls := t[n - 1].calls;
      var u := Told(r[n], if !r[n - 1].pc[p].Idle? then calls
        else calls[p := if r[n] == Go(r[n - 1], p, XEnter(false)) then Rlock else Wlock]);
      assert ToldStep(t[n - 1], u, p);
      assert ToldNext(t[n - 1], u);
      t := t + [u];
    }
  }

  /** Where a process can be after each call. */
  predicate Follows(c: PC, call: Call) {
    match c
    case Idle => true
    case LEnter | LCount | KTry | KIn | LLeave | Reading | DEnter | DCount | DLeave => call.Rlock?
    case KEnter | KQueue | KAsleep | Writing => call.Wlock?
    case _ => c.w <==> call.Wlock?
  }

  ghost predicate CallsOk(t: Told) {
    forall p :: p in t.s.pc && !t.s.pc[p].Idle? ==> p in t.calls && Follows(t.s.pc[p], t.calls[p])
  }

  lemma OwnFollows(s: RW, p: Proc, call: Call)
    requires p in s.pc && !s.pc[p].Idle? && Ready(s, p) && Follows(s.pc[p], call)
    ensures p in After(s, p).pc && Follows(After(s, p).pc[p], call)
  {
  }

  lemma PcKept(s: RW, p: Proc, q: Proc)
    requires p in s.pc && !s.pc[p].Idle? && Ready(s, p) && q in After(s, p).pc
    ensures q in s.pc && (s.pc[q].Idle? && q != p ==> After(s, p).pc[q].Idle?)
  {
  }

  lemma OthersFollow(s: RW, p: Proc, q: Proc, call: Call)
    requires p in s.pc && q in s.pc && q != p && Ready(s, p) && !s.pc[q].Idle? && Follows(s.pc[q], call)
    ensures q in After(s, p).pc && Follows(After(s, p).pc[q], call)
  {
  }

  lemma CallsStep(t: Told, t': Told, p: Proc)
    requires CallsOk(t) && ToldStep(t, t', p)
    ensures CallsOk(t')
  {
    if t.s.pc[p].Idle? {
      return;
    }
    forall q | q in t'.s.pc && !t'.s.pc[q].Idle?
      ensures q in t'.calls && Follows(t'.s.pc[q], t'.calls[q])
    {
      PcKept(t.s, p, q);
      hide After, Ready, Follows;
      if q == p {
        OwnFollows(t.s, p, t.calls[p]);
      } else {
        OthersFollow(t.s, p, q, t.calls[q]);
      }
    }
  }

  lemma {:induction false} CallsKept(t: seq<Told>, i: nat)
    requires ToldRun(t) && i < |t|
    ensures CallsOk(t[i])
  {
    if i > 0 {
      CallsKept(t, i - 1);
      assert ToldNext(t[i - 1], t[i]);
      var p :| ToldStep(t[i - 1], t[i], p);
      CallsStep(t[i - 1], t[i], p);
    }
  }

  /** The process has the lock. */
  predicate Inside(c: PC) {
    c.Reading? || c.Writing?
  }

  /** Whoever is inside came in by the call for it: a wlock never reads, an rlock never writes. */
  lemma ByItsCall(t: seq<Told>, i: nat, p: Proc)
    requires ToldRun(t) && i < |t| && p in t[i].s.pc && Inside(t[i].s.pc[p])
    ensures p in t[i].calls && (t[i].calls[p] == if t[i].s.pc[p].Reading? then Rlock else Wlock)
  {
    CallsKept(t, i);
  }

  /** While one who called wlock is inside, nobody else is, whichever call he made. */
  lemma Exclusion(t: seq<Told>, i: nat, p: Proc, q: Proc)
    requires ToldRun(t) && i < |t| && p in t[i].s.pc && q in t[i].s.pc && p in t[i].calls && t[i].calls[p] == Wlock
    requires Inside(t[i].s.pc[p]) && Inside(t[i].s.pc[q])
    ensures p == q
  {
    var r := States(t);
    ToldIsRun(t);
    ByItsCall(t, i, p);
    RunOk(r, i);
    Owners(r[i], p, q);
    SomeCounted(r[i].pc, q);
  }

  /** Process p can take its next n steps alone. */
  ghost predicate CanGo(s: RW, p: Proc, n: nat)
    decreases n
  {
    n == 0 || (p in s.pc && !s.pc[p].Idle? && Ready(s, p) && CanGo(After(s, p), p, n - 1))
  }

  /** Where they lead. */
  ghost function Gone(s: RW, p: Proc, n: nat): RW
    requires CanGo(s, p, n)
    decreases n
  {
    if n == 0 then s else Gone(After(s, p), p, n - 1)
  }

  lemma {:induction false} GoneJoin(s: RW, p: Proc, a: nat, b: nat)
    requires CanGo(s, p, a) && CanGo(Gone(s, p, a), p, b)
    ensures CanGo(s, p, a + b) && Gone(s, p, a + b) == Gone(Gone(s, p, a), p, b)
    decreases a
  {
    hide Ready, After;
    if a > 0 {
      var t := After(s, p);
      assert Gone(s, p, a) == Gone(t, p, a - 1);
      GoneJoin(t, p, a - 1, b);
      assert CanGo(t, p, a + b - 1);
    }
  }

  /** Two steps. */
  lemma Two(s: RW, p: Proc)
    requires p in s.pc && !s.pc[p].Idle? && Ready(s, p)
    requires var t := After(s, p); p in t.pc && !t.pc[p].Idle? && Ready(t, p)
    ensures CanGo(s, p, 2) && Gone(s, p, 2) == After(After(s, p), p)
  {
    hide Ready, After;
    var t := After(s, p);
    var u := After(t, p);
    assert CanGo(u, p, 0) && Gone(u, p, 0) == u;
    assert CanGo(t, p, 1) && Gone(t, p, 1) == u;
  }

  /** Nobody is about to enter or leave, and no writer is inside or waits. */
  ghost predicate Open(s: RW) {
    && s.x.use == s.k.use == s.l == NOBODY && s.x.q == State(false, []) && s.x.owner == NOBODY
    && s.k.q.queue == [] && (s.k.q.locked <==> s.readers > 0) && s.readers >= 0
    && s.k.owner == if s.readers > 0 then READERS else NOBODY
  }

  /** One reader more. */
  ghost function WithReader(s: RW, p: Proc): RW {
    Go(s, p, Reading).(readers := s.readers + 1, k := s.k.(q := State(true, []), owner := READERS))
  }

  /** p has the gate. */
  ghost function Entering(s: RW, p: Proc, c: PC): RW {
    Go(s, p, c).(x := s.x.(q := State(true, []), owner := p))
  }

  lemma TakesGate(s: RW, p: Proc, w: bool)
    requires Open(s) && p in s.pc
    ensures CanGo(Go(s, p, XEnter(w)), p, 2)
      && Gone(Go(s, p, XEnter(w)), p, 2) == Entering(s, p, if w then KEnter else LEnter)
  {
    Two(Go(s, p, XEnter(w)), p);
  }

  lemma CountsItself(s: RW, p: Proc)
    requires Open(s) && p in s.pc
    ensures CanGo(Entering(s, p, LEnter), p, 2)
      && Gone(Entering(s, p, LEnter), p, 2) == Entering(s, p, KTry).(l := p, readers := s.readers + 1)
  {
    Two(Entering(s, p, LEnter), p);
  }

  lemma TakesForReaders(s: RW, p: Proc)
    requires Open(s) && p in s.pc
    ensures var t := Entering(s, p, KTry).(l := p, readers := s.readers + 1);
      && CanGo(t, p, 2)
      && Gone(t, p, 2) == t.(pc := t.pc[p := LLeave], k := s.k.(q := State(true, []), owner := READERS))
  {
    Two(Entering(s, p, KTry).(l := p, readers := s.readers + 1), p);
  }

  lemma LeavesGate(s: RW, p: Proc)
    requires Open(s) && p in s.pc && p != NOBODY
    ensures var t := Entering(s, p, LLeave).(l := p);
      && CanGo(t, p, 3) && Gone(t, p, 3) == Go(s, p, Reading)
  {
    var t := Entering(s, p, LLeave).(l := p);
    Two(t, p);
    var u := After(After(t, p), p);
    assert CanGo(After(u, p), p, 0) && CanGo(u, p, 1);
    GoneJoin(t, p, 2, 1);
  }

  /** An rlock that finds no writer comes in by its own steps, whoever reads already. */
  lemma RlockEnters(s: RW, p: Proc)
    requires Open(s) && p in s.pc && p != NOBODY
    ensures CanGo(Go(s, p, XEnter(false)), p, 9) && Gone(Go(s, p, XEnter(false)), p, 9) == WithReader(s, p)
    ensures Open(WithReader(s, p))
  {
    TakesGate(s, p, false);
    CountsItself(s, p);
    TakesForReaders(s, p);
    var t := s.(readers := s.readers + 1, k := s.k.(q := State(true, []), owner := READERS));
    LeavesGate(t, p);
    assert Entering(s, p, KTry).(l := p, readers := s.readers + 1).(pc := Entering(s, p, KTry).pc[p := LLeave],
      k := s.k.(q := State(true, []), owner := READERS)) == Entering(t, p, LLeave).(l := p);
    hide CanGo, Gone;
    GoneJoin(Entering(s, p, LEnter), p, 2, 2);
    GoneJoin(Entering(s, p, LEnter), p, 4, 3);
    GoneJoin(Go(s, p, XEnter(false)), p, 2, 7);
  }

  /** A told run goes on by a call of p and its own steps. */
  lemma {:induction false} Tell(t: seq<Told>, p: Proc, n: nat) returns (u: seq<Told>)
    requires ToldRun(t) && CanGo(t[|t| - 1].s, p, n)
    ensures ToldRun(u) && u[0] == t[0] && u[|u| - 1] == t[|t| - 1].(s := Gone(t[|t| - 1].s, p, n))
    decreases n
  {
    u := t;
    if n > 0 {
      var a := t[|t| - 1];
      var b := a.(s := After(a.s, p));
      assert ToldStep(a, b, p);
      hide Ready, After, Init;
      u := TellNext(t, p, b);
      u := Tell(u, p, n - 1);
    }
  }

  lemma TellNext(t: seq<Told>, p: Proc, b: Told) returns (u: seq<Told>)
    requires ToldRun(t) && ToldStep(t[|t| - 1], b, p)
    ensures ToldRun(u) && u == t + [b]
  {
    hide ToldStep, Init;
    u := t + [b];
  }

  /** Any two processes that call rlock can be inside at once. */
  lemma ReadTogether(s: RW, p: Proc, q: Proc) returns (t: seq<Told>)
    requires Init(s) && p in s.pc && q in s.pc && p != q
    ensures ToldRun(t) && t[0].s == s
    ensures var e := t[|t| - 1];
      && p in e.s.pc && q in e.s.pc && p in e.calls && q in e.calls && e.calls[p] == e.calls[q] == Rlock
      && e.s.pc[p] == e.s.pc[q] == Reading
  {
    var a := Told(s, map[]);
    t := [a];
    RlockEnters(s, p);
    var s1 := WithReader(s, p);
    RlockEnters(s1, q);
    var b := Told(Go(s, p, XEnter(false)), a.calls[p := Rlock]);
    assert ToldStep(a, b, p);
    hide CanGo, Gone, Ready, After;
    t := TellNext(t, p, b);
    t := Tell(t, p, 9);
    var c := t[|t| - 1];
    var d := Told(Go(s1, q, XEnter(false)), c.calls[q := Rlock]);
    assert ToldStep(c, d, q);
    t := TellNext(t, q, d);
    t := Tell(t, q, 9);
  }

  /** The lock is handed over in the order in which processes came to wait. */
  lemma FirstComeFirstServed(r: seq<RW>, i: nat)
    requires Run(r) && i < |r|
    ensures r[i].x.came == r[i].x.went + r[i].x.q.queue && r[i].k.came == r[i].k.went + r[i].k.q.queue
    ensures forall p :: p in r[i].pc && HoldsX(r[i].pc[p]) <==> p in r[i].pc && p == r[i].x.owner
  {
    RunOk(r, i);
    forall p | p in r[i].pc
      ensures HoldsX(r[i].pc[p]) <==> p == r[i].x.owner
    {
      assert Local(r[i], p);
    }
  }

  /** p stands in the queue before q. */
  ghost predicate Before(queue: seq<Proc>, p: Proc, q: Proc) {
    |queue| > 0 && (queue[0] == p || (queue[0] != q && Before(queue[1..], p, q)))
  }

  lemma {:induction false} BeforeMore(queue: seq<Proc>, p: Proc, q: Proc, o: Proc)
    requires Before(queue, p, q)
    ensures Before(queue + [o], p, q)
  {
    if queue[0] != p {
      BeforeMore(queue[1..], p, q, o);
      assert (queue + [o])[1..] == queue[1..] + [o];
    }
  }

  lemma {:induction false} BeforeLast(queue: seq<Proc>, p: Proc, q: Proc)
    requires p in queue && q !in queue
    ensures Before(queue + [q], p, q)
  {
    HeadOrTail(queue, p);
    if queue[0] != p {
      BeforeLast(queue[1..], p, q);
      assert (queue + [q])[1..] == queue[1..] + [q];
    }
  }

  /** p sleeps at the gate of the lock. */
  predicate Waits(s: RW, p: Proc) {
    p in s.pc && s.pc[p].XAsleep?
  }

  /** q does not have the gate, and if it waits too it is behind p. */
  ghost predicate Behind(s: RW, p: Proc, q: Proc) {
    q != p && q in s.pc && !HoldsX(s.pc[q])
    && (s.pc[q].XAsleep? ==> !HandedX(s, q) && (p in s.x.q.queue ==> Before(s.x.q.queue, p, q)))
  }

  lemma WaitedFor(s: RW, p: Proc)
    requires Inv(s) && Waits(s, p)
    ensures s.x.q.locked && s.x.owner in s.pc && HoldsX(s.pc[s.x.owner])
  {
    Owners(s, p, p);
    assert p in s.x.q.queue || HandedX(s, p);
    assert p in s.x.q.queue ==> |s.x.q.queue| > 0;
    assert s.x.owner in s.pc.Keys;
    Owners(s, s.x.owner, p);
  }

  lemma XInBehind(s: RW, s': RW, o: Proc, p: Proc, q: Proc)
    requires Inv(s) && Step(s, s', o) && s.pc[o].XIn? && Waits(s, p) && Behind(s, p, q)
    ensures Behind(s', p, q)
  {
    Owners(s, p, q);
    Owners(s, o, p);
    var queue := s.x.q.queue;
    hide Before;
    WaitedFor(s, p);
    assert s.x.owner != o && s'.x.owner == s.x.owner && s'.pc[s.x.owner] == s.pc[s.x.owner];
    assert !HandedX(s, q) && !HandedX(s', q);
    if p in queue + [o] {
      if o == q {
        BeforeLast(queue, p, q);
      } else if Before(queue, p, q) {
        BeforeMore(queue, p, q, o);
      }
    }
  }

  lemma XOutBehind(s: RW, s': RW, o: Proc, p: Proc, q: Proc)
    requires Inv(s) && Step(s, s', o) && s.pc[o].XOut? && Waits(s, p) && Behind(s, p, q)
    ensures Behind(s', p, q)
  {
    Owners(s, p, q);
    Owners(s, o, p);
    var queue := s.x.q.queue;
    assert s.x.owner == o && !HandedX(s, p) && p in queue;
    FirstOnce(queue);
    HeadOrTail(queue, p);
    if s.pc[q].XAsleep? {
      assert Before(queue, p, q) && queue[0] != q;
      assert s'.x.owner == o && s'.pc[o].XHand? && s'.pc[o].to == queue[0];
    }
  }

  lemma HandBehind(s: RW, s': RW, o: Proc, p: Proc, q: Proc)
    requires Inv(s) && Step(s, s', o) && (s.pc[o].XHand? || s.pc[o].KHand?) && Waits(s, p) && Behind(s, p, q)
    ensures Behind(s', p, q)
  {
    Owners(s, p, q);
    Owners(s, o, p);
    hide Before;
  }

  /** A step of q itself. */
  lemma OwnBehind(s: RW, s': RW, p: Proc, q: Proc)
    requires Inv(s) && Step(s, s', q) && !s.pc[q].XIn? && !s.pc[q].XOut? && !s.pc[q].XHand? && !s.pc[q].KHand?
    requires Behind(s, p, q)
    ensures Behind(s', p, q)
  {
    hide Before;
  }

  lemma OthersBehind(s: RW, s': RW, o: Proc, p: Proc, q: Proc)
    requires Step(s, s', o) && !s.pc[o].XIn? && !s.pc[o].XOut? && !s.pc[o].XHand? && !s.pc[o].KHand?
    requires o != q && Behind(s, p, q)
    ensures Behind(s', p, q)
  {
    hide Before, Counted, HoldsL, HoldsK;
    var x := s.x.owner;
    assert s'.pc[q] == s.pc[q] && s'.x.q == s.x.q && s'.x.owner == x;
    assert x in s.pc && s'.pc[x].XHand? ==> s'.pc[x] == s.pc[x];
  }

  lemma StepBehind(s: RW, s': RW, o: Proc, p: Proc, q: Proc)
    requires Inv(s) && Step(s, s', o) && Waits(s, p) && Behind(s, p, q)
    ensures Behind(s', p, q)
  {
    assert o in s.pc;
    hide *;
    if s.pc[o].XIn? {
      XInBehind(s, s', o, p, q);
    } else if s.pc[o].XOut? {
      XOutBehind(s, s', o, p, q);
    } else if s.pc[o].XHand? || s.pc[o].KHand? {
      HandBehind(s, s', o, p, q);
    } else if o == q {
      OwnBehind(s, s', p, q);
    } else {
      OthersBehind(s, s', o, p, q);
    }
  }

  /**
    Nobody overtakes: while p waits for the lock, as a reader or a writer, whoever had it not and did not wait when p
    already did does not get it.
   */
  lemma {:induction false} NoOvertaking(r: seq<RW>, i: nat, k: nat, p: Proc, q: Proc)
    requires Run(r) && i <= k < |r| && forall m {:trigger r[m]} :: i <= m <= k ==> Waits(r[m], p)
    requires q in r[i].pc && !HoldsX(r[i].pc[q]) && !Waits(r[i], q)
    ensures Behind(r[k], p, q)
  {
    if i < k {
      NoOvertaking(r, i, k - 1, p, q);
      RunOk(r, k - 1);
      assert Next(r[k - 1], r[k]);
      var o :| Step(r[k - 1], r[k], o);
      hide Step, Inv, Behind, Waits;
      assert Waits(r[k - 1], p);
      StepBehind(r[k - 1], r[k], o, p, q);
    }
  }

  /** Nobody is stuck: while some process is inside the lock and none reads or writes, a process inside can go on. */
  lemma NoDeadlock(r: seq<RW>, i: nat, p: Proc) returns (q: Proc)
    requires Run(r) && i < |r| && p in r[i].pc && !r[i].pc[p].Idle?
    requires forall o :: o in r[i].pc ==> !r[i].pc[o].Reading? && !r[i].pc[o].Writing?
    ensures q in r[i].pc && Ready(r[i], q)
  {
    RunOk(r, i);
    q := Mover(r[i], p);
  }

  lemma Mover(s: RW, p: Proc) returns (q: Proc)
    requires Inv(s) && p in s.pc && !s.pc[p].Idle?
    requires forall o :: o in s.pc ==> !s.pc[o].Reading? && !s.pc[o].Writing?
    ensures q in s.pc && Ready(s, q)
  {
    if s.k.use in s.pc {
      q := s.k.use;
      assert Local(s, q);
    } else if s.x.use in s.pc {
      q := s.x.use;
      assert Local(s, q);
    } else if s.l in s.pc {
      q := s.l;
      assert Local(s, q);
      HandMeets(s, q);
    } else if s.x.owner in s.pc {
      q := OwnerMoves(s);
    } else {
      q := p;
      assert Local(s, q);
    }
  }

  /** Whoever wakes a process finds it asleep. */
  lemma HandMeets(s: RW, p: Proc)
    requires Inv(s) && p in s.pc
    ensures s.pc[p].XHand? || s.pc[p].KHand? ==> Ready(s, p)
  {
    assert Local(s, p);
    if s.pc[p].XHand? || s.pc[p].KHand? {
      assert Local(s, s.pc[p].to);
    }
  }

  lemma OwnerMoves(s: RW) returns (q: Proc)
    requires Inv(s) && s.x.owner in s.pc && s.x.use == s.k.use == s.l == NOBODY
    requires forall o :: o in s.pc ==> !s.pc[o].Reading? && !s.pc[o].Writing?
    ensures q in s.pc && Ready(s, q)
  {
    q := s.x.owner;
    assert Local(s, q);
    HandMeets(s, q);
    Owners(s, q, q);
    if s.pc[q].KAsleep? {
      q := Pick(CountedSet(s.pc));
      assert Local(s, q);
    }
  }
}
