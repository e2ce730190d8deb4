/**
  The Dis virtual machine is run by one process at a time (emu/dis.c): acquire, release, iyield and
  startup pass it on. First the sections these run under isched.l, on the linked queue of waiting
  processes; then every interleaving of any number of processes.
 */
module VMToken {
  import opened Links
  import opened Procs
  import opened Seqs
  import opened Sets

  /** isched as a value: nobody runs the machine, how many acquirers asked for it, who waits. */
  datatype Sched = Sched(idle: bool, yield_: int, vmq: seq<Proc>)

  /** acquire puts itself first. */
  function Acquired(s: Sched, up: Proc): Sched {
    if s.idle then s.(idle := false) else s.(yield_ := s.yield_ + 1, vmq := [up] + s.vmq)
  }

  function Released(s: Sched): Sched {
    if |s.vmq| == 0 then s.(idle := true) else s.(vmq := s.vmq[1..])
  }

  /** iyield goes to the end. */
  function Yielded(s: Sched, up: Proc): Sched {
    if |s.vmq| == 0 then s.(yield_ := s.yield_ - 1) else s.(yield_ := s.yield_ - 1, vmq := s.vmq[1..] + [up])
  }

  function Started(s: Sched, up: Proc): Sched {
    if s.idle then s.(idle := false) else s.(vmq := s.vmq + [up])
  }

  class Isched {
    var idle: bool
    var yield_: int
    var vmq: Proc
    var vmqt: Proc
    var qnext: map<Proc, Proc>
    ghost var queue: seq<Proc>

    ghost function Value(): Sched
      reads this
    {
      Sched(idle, yield_, queue)
    }

    /** vmqt is the last of the queue, and left over when the queue is empty. */
    ghost predicate Valid()
      reads this
    {
      Linked(qnext, vmq, queue) && NOBODY !in queue && NoDup(queue) && (|queue| > 0 ==> vmqt == queue[|queue| - 1])
    }

    constructor ()
      ensures Valid() && Value() == Sched(false, 0, [])
    {
      idle, yield_, vmq, vmqt, qnext, queue := false, 0, NOBODY, NOBODY, map[], [];
    }

    /** The section of acquire; n is -1 if the machine was idle, else the count before. */
    method Acquire(up: Proc) returns (n: int)
      requires Valid() && up != NOBODY && up !in queue
      modifies this
      ensures Valid() && Value() == Acquired(old(Value()), up) && n == if old(idle) then -1 else old(yield_)
    {
      if idle {
        idle := false;
        return -1;
      }
      n := yield_;
      yield_ := yield_ + 1;
      LinkedFrame(qnext, qnext[up := vmq], vmq, queue);
      qnext := qnext[up := vmq];
      if vmq == NOBODY {
        vmqt := up;
      }
      vmq := up;
      queue := [up] + queue;
      assert queue[1..] == old(queue);
    }

    /** The section of release: the process to hand the machine to, or NOBODY. */
    method Release() returns (p: Proc)
      requires Valid()
      modifies this
      ensures Valid() && Value() == Released(old(Value())) && p == if |old(queue)| == 0 then NOBODY else old(queue)[0]
    {
      p := vmq;
      if vmq == NOBODY {
        idle := true;
        return;
      }
      vmq := qnext[p];
      queue := queue[1..];
    }

    /** Behind the last one; the stale vmqt of an empty queue is not used. */
    method Append(up: Proc)
      requires Valid() && up != NOBODY && up !in queue
      modifies this`vmq, this`vmqt, this`qnext, this`queue
      ensures Valid() && queue == old(queue) + [up]
    {
      LinkedMore(qnext, vmq, queue, up);
      if vmq == NOBODY {
        vmq := up;
      } else {
        qnext := qnext[vmqt := up];
      }
      vmqt := up;
      qnext := qnext[up := NOBODY];
      queue := queue + [up];
    }

    /** The section of iyield: the process to hand the machine to, or NOBODY. */
    method Yield(up: Proc) returns (p: Proc)
      requires Valid() && up != NOBODY && up !in queue
      modifies this
      ensures Valid() && Value() == Yielded(old(Value()), up) && p == if |old(queue)| == 0 then NOBODY
        else old(queue)[0]
    {
      yield_ := yield_ - 1;
      p := vmq;
      if p == NOBODY {
        return;
      }
      vmq := qnext[p];
      queue := queue[1..];
      Append(up);
    }

    /** The section of startup; true if the machine is the caller's. */
    method Startup(up: Proc) returns (got: bool)
      requires Valid() && up != NOBODY && up !in queue
      modifies this
      ensures Valid() && Value() == Started(old(Value()), up) && got == old(idle)
    {
      got := idle;
      if idle {
        idle := false;
        return;
      }
      Append(up);
    }
  }

  /** Where a process is. */
  datatype PC =
    | Out                          // a kernel process at other work
    | Fresh                        // a new interpreter before startup
    | Wake                         // acquire: queued, about to wake the idle interpreter
    | Wait(acq: bool)              // at its rendezvous
    | Running                      // has the machine
    | Asleep                       // has the machine, sleeps on irend with nothing to run
    | Yielding                     // has seen that somebody asked for the machine
    | Hand(to: Proc, stay: bool)   // at the rendezvous of the process that gets the machine
    | Spawn                        // release found nobody: about to start an interpreter

  /** owner is who has the machine, kept for the proof. */
  datatype VM = VM(pc: map<Proc, PC>, s: Sched, owner: Proc)

  datatype Act = Begin | Give | Look | Doze | Roused | Create(new_: Proc)

  function Go(v: VM, p: Proc, c: PC): VM {
    v.(pc := v.pc[p := c])
  }

  predicate Ready(v: VM, p: Proc, a: Act)
    requires p in v.pc
  {
    match v.pc[p]
    case Wait(_) => false
    case Running => a.Give? || (a.Look? && v.s.yield_ != 0) || (a.Doze? && v.s.yield_ == 0)
    case Asleep => a.Roused?
    case Hand(to, _) => to in v.pc && v.pc[to].Wait?
    case Spawn => a.Create? && a.new_ !in v.pc && a.new_ > 0
    case _ => true
  }

  function After(v: VM, p: Proc, a: Act): VM
    requires p in v.pc && Ready(v, p, a)
  {
    match v.pc[p]
    case Out =>
      Go(v, p, if v.s.idle then Running else if v.s.yield_ == 0 then Wake else Wait(true))
        .(s := Acquired(v.s, p), owner := if v.s.idle then p else v.owner)
    case Fresh =>
      Go(v, p, if v.s.idle then Running else Wait(false)).(s := Started(v.s, p), owner := if v.s.idle then p
        else v.owner)
    case Wake =>
      if v.owner in v.pc && v.pc[v.owner].Asleep? then Go(Go(v, v.owner, Running), p, Wait(true))
        else Go(v, p, Wait(true))
    case Running =>
      if a.Give? then
        if |v.s.vmq| == 0 then Go(v, p, Spawn).(s := Released(v.s), owner := NOBODY)
        else Go(v, p, Hand(v.s.vmq[0], false)).(s := Released(v.s))
      else Go(v, p, if a.Look? then Yielding else Asleep)
    case Asleep => Go(v, p, Running)
    case Yielding =>
      Go(v, p, if |v.s.vmq| == 0 then Running else Hand(v.s.vmq[0], true)).(s := Yielded(v.s, p))
    case Hand(to, stay) => Go(Go(v, p, if stay then Wait(false) else Out), to, Running).(owner := to)
    case Spawn => Go(Go(v, p, Out), a.new_, Fresh)
  }

  ghost predicate Init(v: VM) {
    && (forall p :: p in v.pc ==> p > 0) && (forall p :: p in v.pc ==> v.pc[p].Out? || v.pc[p].Fresh?)
    && v.owner == NOBODY && v.s == Sched(true, 0, [])
  }

  predicate HasVM(c: PC) {
    c.Running? || c.Asleep? || c.Yielding? || c.Hand?
  }

  /** In acquire, waiting. */
  predicate Acquirer(c: PC) {
    c.Wake? || (c.Wait? && c.acq)
  }

  predicate Waiting(c: PC) {
    c.Wake? || c.Wait? || (c.Hand? && c.stay)
  }

  /** p is to get the machine next. */
  ghost predicate Handed(v: VM, p: Proc) {
    v.owner in v.pc && v.pc[v.owner].Hand? && v.pc[v.owner].to == p
  }

  ghost predicate Local(v: VM, p: Proc)
    requires p in v.pc
  {
    var c := v.pc[p];
    && p > 0 && (HasVM(c) <==> v.owner == p) && (Waiting(c) <==> p in v.s.vmq || Handed(v, p))
    && (c.Hand? ==> c.to in v.pc && c.to !in v.s.vmq && c.to != p) && (c.Yielding? ==> v.s.yield_ > 0)
  }

  /** How many of the queue are in acquire. */
  ghost function Acqs(pc: map<Proc, PC>, q: seq<Proc>): nat {
    if |q| == 0 then 0 else (if q[0] in pc && Acquirer(pc[q[0]]) then 1 else 0) + Acqs(pc, q[1..])
  }

  /** Those in acquire come first. */
  ghost predicate AcquirersFirst(pc: map<Proc, PC>, q: seq<Proc>) {
    forall i, j :: 0 <= i < j < |q| && q[i] in pc && q[j] in pc && Acquirer(pc[q[j]]) ==> Acquirer(pc[q[i]])
  }

  ghost predicate Known(pc: map<Proc, PC>, q: seq<Proc>) {
    forall i :: 0 <= i < |q| ==> q[i] in pc
  }

  ghost predicate QueueOk(pc: map<Proc, PC>, s: Sched) {
    && Known(pc, s.vmq) && NoDup(s.vmq) && AcquirersFirst(pc, s.vmq) && s.yield_ >= Acqs(pc, s.vmq)
  }

  /** An interpreter asleep while somebody asked for the machine is about to be woken. */
  ghost predicate WakeComing(v: VM) {
    v.owner in v.pc && v.pc[v.owner].Asleep? && v.s.yield_ > 0 ==> exists p :: p in v.pc && v.pc[p].Wake?
  }

  ghost predicate Inv(v: VM) {
    && (v.s.idle <==> v.owner == NOBODY) && (v.owner == NOBODY || v.owner in v.pc) && (v.s.idle ==> |v.s.vmq| == 0)
    && QueueOk(v.pc, v.s) && WakeComing(v)
    && forall p {:trigger Local(v, p)} :: p in v.pc ==> Local(v, p)
  }

  /** One step of a process. */
  ghost predicate Step(v: VM, v': VM, p: Proc, a: Act) {
    p in v.pc && Ready(v, p, a) && v' == After(v, p, a)
  }

  lemma InitOk(v: VM)
    requires Init(v)
    ensures Inv(v)
  {
  }

  lemma Owners(v: VM, p: Proc, o: Proc)
    requires Inv(v) && p in v.pc && o in v.pc
    ensures Local(v, p) && Local(v, o) && (v.owner in v.pc ==> Local(v, v.owner)) && NOBODY !in v.pc
  {
    assert NOBODY in v.pc ==> Local(v, NOBODY);
  }

  lemma OutKept(v: VM, v': VM, p: Proc, a: Act, o: Proc)
    requires Inv(v) && Step(v, v', p, a) && v.pc[p].Out? && o in v.pc
    ensures o in v'.pc && Local(v', o)
  {
    Owners(v, p, o);
  }

  lemma FreshKept(v: VM, v': VM, p: Proc, a: Act, o: Proc)
    requires Inv(v) && Step(v, v', p, a) && v.pc[p].Fresh? && o in v.pc
    ensures o in v'.pc && Local(v', o)
  {
    Owners(v, p, o);
  }

  lemma WakeKept(v: VM, v': VM, p: Proc, a: Act, o: Proc)
    requires Inv(v) && Step(v, v', p, a) && v.pc[p].Wake? && o in v.pc
    ensures o in v'.pc && Local(v', o)
  {
    Owners(v, p, o);
  }

  lemma RunningKept(v: VM, v': VM, p: Proc, a: Act, o: Proc)
    requires Inv(v) && Step(v, v', p, a) && v.pc[p].Running? && o in v.pc
    ensures o in v'.pc && Local(v', o)
  {
    Owners(v, p, o);
    if |v.s.vmq| > 0 {
      HeadOrTail(v.s.vmq, o);
    }
  }

  lemma AsleepKept(v: VM, v': VM, p: Proc, a: Act, o: Proc)
    requires Inv(v) && Step(v, v', p, a) && v.pc[p].Asleep? && o in v.pc
    ensures o in v'.pc && Local(v', o)
  {
    Owners(v, p, o);
  }

  lemma YieldingKept(v: VM, v': VM, p: Proc, a: Act, o: Proc)
    requires Inv(v) && Step(v, v', p, a) && v.pc[p].Yielding? && o in v.pc
    ensures o in v'.pc && Local(v', o)
  {
    Owners(v, p, o);
  }

  lemma HandKept(v: VM, v': VM, p: Proc, a: Act, o: Proc)
    requires Inv(v) && Step(v, v', p, a) && v.pc[p].Hand? && o in v.pc
    ensures o in v'.pc && Local(v', o)
  {
    Owners(v, p, o);
  }

  lemma SpawnKept(v: VM, v': VM, p: Proc, a: Act, o: Proc)
    requires Inv(v) && Step(v, v', p, a) && v.pc[p].Spawn? && o in v.pc
    ensures o in v'.pc && Local(v', o)
  {
    Owners(v, p, o);
  }

  lemma LocalKept(v: VM, v': VM, p: Proc, a: Act, o: Proc)
    requires Inv(v) && Step(v, v', p, a) && o in v.pc
    ensures o in v'.pc && Local(v', o)
  {
    hide Local, HasVM, Waiting, Acquirer, Acqs;
    match v.pc[p]
    case Out => OutKept(v, v', p, a, o);
    case Fresh => FreshKept(v, v', p, a, o);
    case Wake => WakeKept(v, v', p, a, o);
    case Running => RunningKept(v, v', p, a, o);
    case Asleep => AsleepKept(v, v', p, a, o);
    case Yielding => YieldingKept(v, v', p, a, o);
    case Hand(_, _) => HandKept(v, v', p, a, o);
    case Spawn => SpawnKept(v, v', p, a, o);
  }

  lemma {:induction false} AcqsFrame(pc: map<Proc, PC>, pc': map<Proc, PC>, q: seq<Proc>)
    requires forall i :: 0 <= i < |q| ==> q[i] in pc && q[i] in pc' && Acquirer(pc'[q[i]]) == Acquirer(pc[q[i]])
    ensures Acqs(pc', q) == Acqs(pc, q)
  {
    if |q| > 0 {
      AcqsFrame(pc, pc', q[1..]);
    }
  }

  lemma {:induction false} AcqsAppend(pc: map<Proc, PC>, q: seq<Proc>, p: Proc)
    requires p in pc
    ensures Acqs(pc, q + [p]) == Acqs(pc, q) + if Acquirer(pc[p]) then 1 else 0
  {
    if |q| == 0 {
      assert q + [p] == [p];
    } else {
      assert (q + [p])[1..] == q[1..] + [p];
      AcqsAppend(pc, q[1..], p);
    }
  }

  lemma {:induction false} NoAcqs(pc: map<Proc, PC>, q: seq<Proc>)
    requires AcquirersFirst(pc, q) && |q| > 0 && Known(pc, q) && !Acquirer(pc[q[0]])
    ensures Acqs(pc, q) == 0
    decreases |q|
  {
    if |q| > 1 {
      NoAcqs(pc, q[1..]);
    }
  }

  /** The queue after its own operations. */
  lemma AcquiredOk(pc: map<Proc, PC>, s: Sched, up: Proc)
    requires QueueOk(pc, s) && up in pc && up !in s.vmq && Acquirer(pc[up])
    ensures QueueOk(pc, Acquired(s, up))
  {
    assert ([up] + s.vmq)[1..] == s.vmq;
  }

  lemma StartedOk(pc: map<Proc, PC>, s: Sched, up: Proc)
    requires QueueOk(pc, s) && up in pc && up !in s.vmq && !Acquirer(pc[up])
    ensures QueueOk(pc, Started(s, up))
  {
    AcqsAppend(pc, s.vmq, up);
  }

  lemma ReleasedOk(pc: map<Proc, PC>, s: Sched)
    requires QueueOk(pc, s)
    ensures QueueOk(pc, Released(s))
  {
  }

  lemma YieldedOk(pc: map<Proc, PC>, s: Sched, up: Proc)
    requires QueueOk(pc, s) && up in pc && up !in s.vmq && !Acquirer(pc[up]) && s.yield_ > 0
    ensures QueueOk(pc, Yielded(s, up))
  {
    if |s.vmq| > 0 {
      AcqsAppend(pc, s.vmq[1..], up);
      if !Acquirer(pc[s.vmq[0]]) {
        NoAcqs(pc, s.vmq);
      }
    }
  }

  lemma QueueFrame(pc: map<Proc, PC>, pc': map<Proc, PC>, s: Sched)
    requires QueueOk(pc, s) && forall i :: 0 <= i < |s.vmq| ==>
      s.vmq[i] in pc && s.vmq[i] in pc' && Acquirer(pc'[s.vmq[i]]) == Acquirer(pc[s.vmq[i]])
    ensures QueueOk(pc', s)
  {
    AcqsFrame(pc, pc', s.vmq);
  }

  lemma QueueKept(v: VM, v': VM, p: Proc, a: Act)
    requires Inv(v) && Step(v, v', p, a)
    ensures QueueOk(v'.pc, v'.s)
  {
    Owners(v, p, p);
    forall i | 0 <= i < |v.s.vmq|
      ensures v.s.vmq[i] in v'.pc && Acquirer(v'.pc[v.s.vmq[i]]) == Acquirer(v.pc[v.s.vmq[i]])
    {
      Owners(v, p, v.s.vmq[i]);
    }
    QueueFrame(v.pc, v'.pc, v.s);
    match v.pc[p]
    case Out => if !v.s.idle { AcquiredOk(v'.pc, v.s, p); }
    case Fresh => StartedOk(v'.pc, v.s, p);
    case Running => ReleasedOk(v'.pc, v.s);
    case Yielding => YieldedOk(v'.pc, v.s, p);
    case _ =>
  }

  lemma WakeKeptComing(v: VM, v': VM, p: Proc, a: Act)
    requires Inv(v) && Step(v, v', p, a)
    ensures WakeComing(v')
  {
    Owners(v, p, p);
    if v'.owner in v'.pc && v'.pc[v'.owner].Asleep? && v'.s.yield_ > 0 {
      if v.pc[p].Out? && v.s.yield_ == 0 {
        assert v'.pc[p].Wake?;
      } else {
        var w :| w in v.pc && v.pc[w].Wake?;
        Owners(v, p, w);
        assert v'.pc[w].Wake?;
      }
    }
  }

  lemma OwnerKept(v: VM, v': VM, p: Proc, a: Act)
    requires Inv(v) && Step(v, v', p, a)
    ensures (v'.s.idle <==> v'.owner == NOBODY) && (v'.owner == NOBODY || v'.owner in v'.pc)
      && (v'.s.idle ==> |v'.s.vmq| == 0)
  {
    Owners(v, p, p);
  }

  lemma StepOk(v: VM, v': VM, p: Proc, a: Act)
    requires Inv(v) && Step(v, v', p, a)
    ensures Inv(v')
  {
    OwnerKept(v, v', p, a);
    QueueKept(v, v', p, a);
    WakeKeptComing(v, v', p, a);
    forall o | o in v'.pc
      ensures Local(v', o)
    {
      if o in v.pc {
        LocalKept(v, v', p, a, o);
      } else {
        NewKept(v, v', p, a, o);
      }
    }
  }

  /** A process just created. */
  lemma NewKept(v: VM, v': VM, p: Proc, a: Act, o: Proc)
    requires Inv(v) && Step(v, v', p, a) && o in v'.pc && o !in v.pc
    ensures Local(v', o)
  {
    Owners(v, p, p);
  }

  /** A run: any processes, in any order. */
  ghost predicate Run(r: seq<VM>) {
    |r| > 0 && Init(r[0]) && forall i :: 0 < i < |r| ==> Next(r[i - 1], r[i])
  }

  ghost predicate Next(v: VM, v': VM) {
    exists p, a :: Step(v, v', p, a)
  }

  lemma {:induction false} RunOk(r: seq<VM>, i: nat)
    requires Run(r) && i < |r|
    ensures Inv(r[i])
  {
    if i == 0 {
      InitOk(r[0]);
    } else {
      RunOk(r, i - 1);
      assert Next(r[i - 1], r[i]);
      var p, a :| Step(r[i - 1], r[i], p, a);
      StepOk(r[i - 1], r[i], p, a);
    }
  }

  /** There is one machine: it is idle, or exactly one process has it or is handing it on. */
  lemma OneToken(r: seq<VM>, i: nat)
    requires Run(r) && i < |r|
    ensures r[i].s.idle ==> forall p :: p in r[i].pc ==> !HasVM(r[i].pc[p])
    ensures !r[i].s.idle ==> r[i].owner in r[i].pc && HasVM(r[i].pc[r[i].owner])
    ensures forall p, q :: p in r[i].pc && q in r[i].pc && HasVM(r[i].pc[p]) && HasVM(r[i].pc[q]) ==> p == q
    ensures r[i].s.yield_ >= 0
  {
    RunOk(r, i);
    forall p | p in r[i].pc
      ensures HasVM(r[i].pc[p]) <==> p == r[i].owner
      ensures p > 0
    {
      assert Local(r[i], p);
    }
  }

  /**
    Who waits is in the queue once, or about to get the machine; nobody else is in it, and nobody waits while it is
    idle.
   */
  lemma WaitersQueued(r: seq<VM>, i: nat, p: Proc)
    requires Run(r) && i < |r| && p in r[i].pc
    ensures Waiting(r[i].pc[p]) <==> p in r[i].s.vmq || Handed(r[i], p)
    ensures !(p in r[i].s.vmq && Handed(r[i], p)) && NoDup(r[i].s.vmq)
    ensures r[i].s.idle ==> !Waiting(r[i].pc[p])
  {
    RunOk(r, i);
    Owners(r[i], p, p);
  }

  /** While somebody in acquire waits, whoever gets the machine next is in acquire: interpreters come after them all. */
  lemma AcquirerNext(r: seq<VM>, i: nat, p: Proc, a: Act, q: Proc)
    requires Run(r) && i + 1 < |r| && Step(r[i], r[i + 1], p, a) && !r[i].pc[p].Hand?
    requires p in r[i + 1].pc && r[i + 1].pc[p].Hand? && q in r[i].s.vmq && q in r[i].pc && Acquirer(r[i].pc[q])
    ensures r[i + 1].pc[p].to in r[i].pc && Acquirer(r[i].pc[r[i + 1].pc[p].to])
  {
    RunOk(r, i);
    HeadOrTail(r[i].s.vmq, q);
  }

  /** The interpreters in a queue, in order. */
  ghost function Interps(pc: map<Proc, PC>, q: seq<Proc>): seq<Proc> {
    if |q| == 0 then []
    else (if q[0] in pc && Acquirer(pc[q[0]]) then [] else [q[0]]) + Interps(pc, q[1..])
  }

  lemma {:induction false} InterpsFrame(pc: map<Proc, PC>, pc': map<Proc, PC>, q: seq<Proc>)
    requires forall i :: 0 <= i < |q| ==> q[i] in pc && q[i] in pc' && Acquirer(pc'[q[i]]) == Acquirer(pc[q[i]])
    ensures Interps(pc', q) == Interps(pc, q)
  {
    if |q| > 0 {
      InterpsFrame(pc, pc', q[1..]);
    }
  }

  lemma {:induction false} InterpsAppend(pc: map<Proc, PC>, q: seq<Proc>, p: Proc)
    requires p in pc && !Acquirer(pc[p])
    ensures Interps(pc, q + [p]) == Interps(pc, q) + [p]
  {
    if |q| == 0 {
      assert q + [p] == [p];
    } else {
      assert (q + [p])[1..] == q[1..] + [p];
      InterpsAppend(pc, q[1..], p);
      hide Acquirer;
      Assoc(if q[0] in pc && Acquirer(pc[q[0]]) then [] else [q[0]], Interps(pc, q[1..]), [p]);
    }
  }

  /** Beside a state, the interpreters that ever came to wait and those that ever were let go, in order. */
  datatype Told = Told(v: VM, came: seq<Proc>, went: seq<Proc>)

  /** p is now in the queue as an interpreter, and was not. */
  ghost predicate Comes(v: VM, v': VM, p: Proc) {
    p in v'.pc && p in v'.s.vmq && p !in v.s.vmq && !Acquirer(v'.pc[p])
  }

  /** p now hands the machine to an interpreter. */
  ghost predicate LetsGo(v: VM, v': VM, p: Proc) {
    && p in v.pc && p in v'.pc && v'.pc[p].Hand? && !v.pc[p].Hand?
    && v'.pc[p].to in v.pc && !Acquirer(v.pc[v'.pc[p].to])
  }

  ghost predicate ToldNext(t: Told, t': Told) {
    exists p, a {:trigger Step(t.v, t'.v, p, a)} ::
      && Step(t.v, t'.v, p, a)
      && t'.came == t.came + (if Comes(t.v, t'.v, p) then [p] else [])
      && t'.went == t.went + (if LetsGo(t.v, t'.v, p) then [t'.v.pc[p].to] else [])
  }

  ghost predicate ToldRun(t: seq<Told>) {
    |t| > 0 && Init(t[0].v) && t[0].came == t[0].went == [] && forall i :: 0 < i < |t| ==> ToldNext(t[i - 1], t[i])
  }

  /** Interpreters get the machine in the order in which they came to wait for it. */
  lemma {:induction false} InterpretersInOrder(t: seq<Told>, i: nat)
    requires ToldRun(t) && i < |t|
    ensures Inv(t[i].v) && t[i].came == t[i].went + Interps(t[i].v.pc, t[i].v.s.vmq)
  {
    if i == 0 {
      InitOk(t[0].v);
    } else {
      InterpretersInOrder(t, i - 1);
      var b, c := t[i - 1], t[i];
      assert ToldNext(b, c);
      var p, a :| Step(b.v, c.v, p, a) && c.came == b.came + (if Comes(b.v, c.v, p) then [p] else [])
        && c.went == b.went + (if LetsGo(b.v, c.v, p) then [c.v.pc[p].to] else []);
      StepOk(b.v, c.v, p, a);
      InterpsStep(b.v, c.v, p, a);
      hide Inv, Step, Comes, LetsGo, Init;
      var x := if LetsGo(b.v, c.v, p) then [c.v.pc[p].to] else [];
      var y := if Comes(b.v, c.v, p) then [p] else [];
      Assoc(b.went, x, Interps(c.v.pc, c.v.s.vmq));
      Assoc(b.went, Interps(b.v.pc, b.v.s.vmq), y);
    }
  }

  /** The queue of before has the same interpreters in it after a step. */
  lemma SameInterps(v: VM, v': VM, p: Proc, a: Act)
    requires Inv(v) && Step(v, v', p, a)
    ensures Interps(v'.pc, v.s.vmq) == Interps(v.pc, v.s.vmq) && p in v'.pc
    ensures |v.s.vmq| > 0 ==> Interps(v'.pc, v.s.vmq[1..]) == Interps(v.pc, v.s.vmq[1..])
  {
    var q := v.s.vmq;
    forall i | 0 <= i < |q|
      ensures q[i] in v'.pc && Acquirer(v'.pc[q[i]]) == Acquirer(v.pc[q[i]])
    {
      Owners(v, p, q[i]);
    }
    Owners(v, p, p);
    hide Inv, Step, Acquirer;
    InterpsFrame(v.pc, v'.pc, q);
    if |q| > 0 {
      InterpsFrame(v.pc, v'.pc, q[1..]);
    }
  }

  /** A step takes the first interpreter, and puts one at the end. */
  ghost predicate Moves(v: VM, v': VM, p: Proc) {
    Interps(v.pc, v.s.vmq) + (if Comes(v, v', p) then [p] else []) ==
      (if LetsGo(v, v', p) then [v'.pc[p].to] else []) + Interps(v'.pc, v'.s.vmq)
  }

  lemma OutMoves(v: VM, v': VM, p: Proc, a: Act)
    requires Inv(v) && Step(v, v', p, a) && v.pc[p].Out?
    ensures Moves(v, v', p)
  {
    SameInterps(v, v', p, a);
    Owners(v, p, p);
    var q := v.s.vmq;
    assert ([p] + q)[1..] == q;
  }

  lemma FreshMoves(v: VM, v': VM, p: Proc, a: Act)
    requires Inv(v) && Step(v, v', p, a) && v.pc[p].Fresh?
    ensures Moves(v, v', p)
  {
    SameInterps(v, v', p, a);
    Owners(v, p, p);
    hide Interps;
    if !v.s.idle {
      InterpsAppend(v'.pc, v.s.vmq, p);
    }
  }

  lemma RunningMoves(v: VM, v': VM, p: Proc, a: Act)
    requires Inv(v) && Step(v, v', p, a) && v.pc[p].Running?
    ensures Moves(v, v', p)
  {
    SameInterps(v, v', p, a);
    Owners(v, p, p);
    assert p !in v.s.vmq;
  }

  lemma YieldingMoves(v: VM, v': VM, p: Proc, a: Act)
    requires Inv(v) && Step(v, v', p, a) && v.pc[p].Yielding?
    ensures Moves(v, v', p)
  {
    SameInterps(v, v', p, a);
    Owners(v, p, p);
    var q := v.s.vmq;
    if |q| > 0 {
      Owners(v, p, q[0]);
      InterpsFirst(v.pc, q);
      hide Interps;
      InterpsAppend(v'.pc, q[1..], p);
      Assoc(if Acquirer(v.pc[q[0]]) then [] else [q[0]], Interps(v.pc, q[1..]), [p]);
    }
  }

  lemma InterpsFirst(pc: map<Proc, PC>, q: seq<Proc>)
    requires |q| > 0 && q[0] in pc
    ensures Interps(pc, q) == (if Acquirer(pc[q[0]]) then [] else [q[0]]) + Interps(pc, q[1..])
  {
  }

  lemma InterpsStep(v: VM, v': VM, p: Proc, a: Act)
    requires Inv(v) && Step(v, v', p, a)
    ensures Moves(v, v', p)
  {
    match v.pc[p]
    case Out => OutMoves(v, v', p, a);
    case Fresh => FreshMoves(v, v', p, a);
    case Running => RunningMoves(v, v', p, a);
    case Yielding => YieldingMoves(v, v', p, a);
    case _ =>
      SameInterps(v, v', p, a);
      Owners(v, p, p);
  }

  /** An acquirer is never forgotten: while one waits, somebody other than those at work outside can go on. */
  lemma AcquirerServed(r: seq<VM>, i: nat, p: Proc) returns (q: Proc, a: Act)
    requires Run(r) && i < |r| && p in r[i].pc && Acquirer(r[i].pc[p])
    ensures q in r[i].pc && Ready(r[i], q, a) && !r[i].pc[q].Out? && !r[i].pc[q].Fresh? && !r[i].pc[q].Asleep?
  {
    RunOk(r, i);
    q, a := Mover(r[i], p);
  }

  lemma Mover(v: VM, p: Proc) returns (q: Proc, a: Act)
    requires Inv(v) && p in v.pc && Acquirer(v.pc[p])
    ensures q in v.pc && Ready(v, q, a) && !v.pc[q].Out? && !v.pc[q].Fresh? && !v.pc[q].Asleep?
  {
    Owners(v, p, p);
    q, a := v.owner, Give;
    if v.pc[q].Hand? {
      assert Local(v, v.pc[q].to);
      if v.pc[v.pc[q].to].Wake? {
        q := v.pc[q].to;
      }
    } else if v.pc[q].Asleep? {
      var j :| 0 <= j < |v.s.vmq| && v.s.vmq[j] == p;
      AcqsPositive(v.pc, v.s.vmq, j);
      q :| q in v.pc && v.pc[q].Wake?;
    }
  }

  lemma {:induction false} AcqsPositive(pc: map<Proc, PC>, q: seq<Proc>, j: nat)
    requires j < |q| && q[j] in pc && Acquirer(pc[q[j]])
    ensures Acqs(pc, q) > 0
  {
    if j > 0 {
      AcqsPositive(pc, q[1..], j - 1);
    }
  }
}
