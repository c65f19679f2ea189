/**
 Threads, semaphores, locks and condition variables as one state machine
 (threads/thread.c, threads/synch.c).

 The machine has one processor.  Every region that runs with interrupts off is
 one step; between two steps the timer may preempt the running thread.  The two
 regions that change a condition variable's list of waiters, `WaitEnqueue` and
 `Signal`, run with interrupts on but are one step each too: only a thread that
 holds the lock is in one, and no two threads hold it (KernelRuns.NoTwoInside).  A
 thread inside a synchronisation call carries a program counter that says which
 region it will run next.  Client code is unrestricted: it may start any call
 whose assertions hold.
 */
module Kernel {
  import opened Options

  type Tid = int
  type Lock = int
  type Cond = int

  datatype Status = Running | Ready | Blocked | Dying

  /** A user semaphore, the semaphore inside a lock, or the one a waiter on a
      condition variable keeps on its own stack. */
  datatype SemaId = User(n: nat) | OfLock(l: Lock) | OfWaiter(t: Tid)

  /** Where a thread is, at the level of interrupts-off regions. */
  datatype Pc =
    | Client
    | DownUser(n: nat)
    | UpUser(n: nat)
    | Acquire(l: Lock)                        // lock_acquire, before sema_down
    | Acquired(l: Lock)                       // ... before the holder is set
    | Release(l: Lock)                        // lock_release, before the holder is cleared
    | Released(l: Lock)                       // ... before sema_up
    | WaitEnqueue(c: Cond, l: Lock)           // cond_wait, before queueing
    | WaitRelease(c: Cond, l: Lock)           // ... before the holder is cleared
    | WaitReleased(c: Cond, l: Lock)          // ... before sema_up on the lock
    | WaitDown(c: Cond, l: Lock)              // ... before sema_down on the waiter
    | WaitReacquire(c: Cond, l: Lock)         // ... before sema_down on the lock
    | WaitReacquired(c: Cond, l: Lock)        // ... before the holder is set
    | Signal(c: Cond, l: Lock, all: bool)     // cond_signal or cond_broadcast, before the pop
    | SignalUp(c: Cond, l: Lock, w: Tid, all: bool)

  /** What thread.c owns. */
  datatype Sched = Sched(status: map<Tid, Status>, ready: seq<Tid>, current: Tid, idle: Tid, initial: Tid)

  /** Every semaphore's value and list of waiting threads. */
  datatype Semas = Semas(values: map<SemaId, nat>, waiters: map<SemaId, seq<Tid>>)

  /** Lock holders, the lock each condition variable goes with, and the queues. */
  datatype Monitors = Monitors(holder: map<Lock, Option<Tid>>, lockOf: map<Cond, Lock>, queue: map<Cond, seq<Tid>>)

  /** `retry` holds the threads that were woken inside sema_down and have not
      yet rechecked the value; they come back with interrupts off. */
  datatype State = State(sched: Sched, pc: map<Tid, Pc>, retry: set<Tid>, semas: Semas, mon: Monitors)
  {
    const current: Tid := sched.current
    const idle: Tid := sched.idle
    const ready: seq<Tid> := sched.ready

    function Stat(t: Tid): Option<Status> {
      if t in sched.status then Some(sched.status[t]) else None
    }

    function At(t: Tid): Pc {
      if t in pc then pc[t] else Client
    }

    function Value(s: SemaId): nat {
      if s in semas.values then semas.values[s] else 0
    }

    function Waiting(s: SemaId): seq<Tid> {
      if s in semas.waiters then semas.waiters[s] else []
    }

    function Queue(c: Cond): seq<Tid> {
      if c in mon.queue then mon.queue[c] else []
    }

    function Holder(l: Lock): Option<Tid> {
      if l in mon.holder then mon.holder[l] else None
    }

    function Move(p: Pc): State {
      this.(pc := pc[current := p])
    }
  }

  // The semaphore a thread is about to down, and where it goes afterwards.
  function DownTarget(t: Tid, p: Pc): Option<SemaId> {
    match p
    case DownUser(n) => Some(User(n))
    case Acquire(l) => Some(OfLock(l))
    case WaitDown(_, _) => Some(OfWaiter(t))
    case WaitReacquire(_, l) => Some(OfLock(l))
    case _ => None
  }

  function AfterDown(p: Pc): Pc {
    match p
    case Acquire(l) => Acquired(l)
    case WaitDown(c, l) => WaitReacquire(c, l)
    case WaitReacquire(c, l) => WaitReacquired(c, l)
    case _ => Client
  }

  function UpTarget(p: Pc): Option<SemaId> {
    match p
    case UpUser(n) => Some(User(n))
    case Released(l) => Some(OfLock(l))
    case WaitReleased(_, l) => Some(OfLock(l))
    case SignalUp(_, _, w, _) => Some(OfWaiter(w))
    case _ => None
  }

  function AfterUp(p: Pc): Pc {
    match p
    case WaitReleased(c, l) => WaitDown(c, l)
    case SignalUp(c, l, _, all) => if all then Signal(c, l, true) else Client
    case _ => Client
  }

  // ---------- Scheduling ----------

  function NextThread(sc: Sched): Tid {
    if sc.ready == [] then sc.idle else sc.ready[0]
  }

  /** `schedule` and `thread_schedule_tail`: the front of the ready list, or the
      idle thread, becomes the running thread. */
  function Dispatch(sc: Sched): Sched {
    sc.(ready := if sc.ready == [] then [] else sc.ready[1..],
        current := NextThread(sc),
        status := sc.status[NextThread(sc) := Running])
  }

  // The running thread's new status, and on the ready list if it is to be there.
  function StepDown(sc: Sched, how: Status): Sched {
    sc.(status := sc.status[sc.current := how],
        ready := if how == Ready && sc.current != sc.idle then sc.ready + [sc.current] else sc.ready)
  }

  function Block(sc: Sched): Sched {
    Dispatch(StepDown(sc, Blocked))
  }

  function Yield(sc: Sched): Sched {
    Dispatch(StepDown(sc, Ready))
  }

  function Unblock(sc: Sched, t: Tid): Sched {
    sc.(ready := sc.ready + [t], status := sc.status[t := Ready])
  }

  /** The dying thread's page is freed once another thread runs, except that of
      the initial thread, which did not come from the page allocator. */
  function Exit(st: State): State {
    var dead := st.current;
    var sc := Dispatch(StepDown(st.sched, Dying));
    if dead == sc.initial then st.(sched := sc)
    else st.(sched := sc.(status := sc.status - {dead}), pc := st.pc - {dead})
  }

  // ---------- Semaphores ----------

  /** One trip round the loop of sema_down: take a unit, or go to sleep. */
  function SemaDown(st: State, s: SemaId): State {
    var t := st.current;
    if st.Value(s) > 0 then
      st.(semas := st.semas.(values := st.semas.values[s := st.Value(s) - 1]),
          retry := st.retry - {t}, pc := st.pc[t := AfterDown(st.At(t))])
    else
      st.(semas := st.semas.(waiters := st.semas.waiters[s := st.Waiting(s) + [t]]),
          retry := st.retry - {t}, sched := Block(st.sched))
  }

  function SemaUp(st: State, s: SemaId): State {
    var w, up := st.Waiting(s), st.semas.values[s := st.Value(s) + 1];
    if w == [] then
      st.(semas := st.semas.(values := up))
    else
      st.(semas := Semas(up, st.semas.waiters[s := w[1..]]),
          retry := st.retry + {w[0]}, sched := Unblock(st.sched, w[0]))
  }

  function TryDown(st: State, s: SemaId): State {
    if st.Value(s) > 0
    then st.(semas := st.semas.(values := st.semas.values[s := st.Value(s) - 1])) else st
  }

  // ---------- Locks and condition variables ----------

  function SetHolder(st: State, l: Lock, h: Option<Tid>): State {
    st.(mon := st.mon.(holder := st.mon.holder[l := h]))
  }

  /** cond_wait: a fresh semaphore, and a place at the end of the queue. */
  function Enqueue(st: State, c: Cond): State {
    var s := OfWaiter(st.current);
    st.(semas := Semas(st.semas.values[s := 0], st.semas.waiters[s := []]),
        mon := st.mon.(queue := st.mon.queue[c := st.Queue(c) + [st.current]]))
  }

  function PopQueue(st: State, c: Cond): State
    requires st.Queue(c) != []
  {
    st.(mon := st.mon.(queue := st.mon.queue[c := st.Queue(c)[1..]]))
  }

  // ---------- Steps ----------

  datatype Event =
    | Call(p: Pc)              // client code starts a call
    | TryLock(l: Lock)         // lock_try_acquire up to the end of sema_try_down
    | Exec                     // the running thread runs its next region
    | Preempt                  // timer tick or thread_yield
    | IdleBlock                // the idle loop
    | Create(t: Tid)
    | ThreadExit
    | IntrUp(n: nat)           // interrupt handler: sema_up
    | IntrTryDown(n: nat)      // interrupt handler or client: sema_try_down

  // The assertions at the top of each call.
  predicate Callable(st: State, p: Pc) {
    var me := Some(st.current);
    match p
    case DownUser(_) => true
    case UpUser(_) => true
    case Acquire(l) => l in st.mon.holder && st.Holder(l) != me
    case Release(l) => st.Holder(l) == me
    case WaitEnqueue(c, l) => c in st.mon.lockOf && l == st.mon.lockOf[c] && st.Holder(l) == me
    case Signal(c, l, _) => c in st.mon.lockOf && l == st.mon.lockOf[c] && st.Holder(l) == me
    case _ => false
  }

  /** Interrupts are off exactly when the running thread has just come back
      from its sleep inside sema_down. */
  predicate Enabled(st: State, ev: Event) {
    var t := st.current;
    && (st.current in st.retry ==> ev == Exec)
    && match ev
       case Call(p) => t != st.idle && st.At(t) == Client && Callable(st, p)
       case TryLock(l) => t != st.idle && st.At(t) == Client && l in st.mon.holder && st.Holder(l) != Some(t)
       case Exec => st.At(t) != Client
       case Preempt => true
       case IdleBlock => t == st.idle
       case Create(n) => t != st.idle && st.At(t) == Client && n !in st.pc && n !in st.sched.status
       case ThreadExit => t != st.idle && st.At(t) == Client
       case IntrUp(_) => true
       case IntrTryDown(_) => true
  }

  // The regions that touch no semaphore but the thread's own waiter.
  function LocalRegion(st: State): State {
    var t := st.current;
    match st.At(t)
    case Acquired(l) => SetHolder(st, l, Some(t)).Move(Client)
    case WaitReacquired(_, l) => SetHolder(st, l, Some(t)).Move(Client)
    case Release(l) => SetHolder(st, l, None).Move(Released(l))
    case WaitRelease(c, l) => SetHolder(st, l, None).Move(WaitReleased(c, l))
    case WaitEnqueue(c, l) => Enqueue(st, c).Move(WaitRelease(c, l))
    case Signal(c, l, all) =>
      if st.Queue(c) == [] then st.Move(Client)
      else PopQueue(st, c).Move(SignalUp(c, l, st.Queue(c)[0], all))
    case _ => st
  }

  /** The running thread's next region. */
  function ExecNext(st: State): State {
    var t, p := st.current, st.At(st.current);
    if DownTarget(t, p).Some? then SemaDown(st, DownTarget(t, p).value)
    else if UpTarget(p).Some? then SemaUp(st, UpTarget(p).value).Move(AfterUp(p))
    else LocalRegion(st)
  }

  function Next(st: State, ev: Event): State {
    match ev
    case Call(p) => st.Move(p)
    case TryLock(l) => if st.Value(OfLock(l)) > 0 then TryDown(st, OfLock(l)).Move(Acquired(l)) else st
    case Exec => ExecNext(st)
    case Preempt => st.(sched := Yield(st.sched))
    case IdleBlock => st.(sched := Block(st.sched))
    case Create(t) => st.(pc := st.pc[t := Client], sched := Unblock(st.sched, t))
    case ThreadExit => Exit(st)
    case IntrUp(n) => SemaUp(st, User(n))
    case IntrTryDown(n) => TryDown(st, User(n))
  }

  /** After thread_start: the initial thread runs, the idle thread sleeps. */
  ghost predicate Init(st: State) {
    var main := st.sched.initial;
    && st.idle != main
    && st.sched == Sched(map[main := Running, st.idle := Blocked], [], main, st.idle, main)
    && st.pc == map[main := Client, st.idle := Client]
    && st.retry == {} && st.semas.waiters == map[] && st.mon.queue == map[]
    && (forall l | l in st.mon.holder :: st.Holder(l) == None && st.Value(OfLock(l)) == 1)
    && (forall t :: st.Value(OfWaiter(t)) == 0)
    && (forall c | c in st.mon.lockOf :: st.mon.lockOf[c] in st.mon.holder)
  }

  // ---------- Runs ----------

  datatype Run = Start(st: State) | Then(prev: Run, ev: Event)

  ghost function End(r: Run): State {
    match r case Start(st) => st case Then(p, ev) => Next(End(p), ev)
  }

  ghost function First(r: Run): State {
    match r case Start(st) => st case Then(p, _) => First(p)
  }

  ghost predicate ValidRun(r: Run) {
    r.Then? ==> ValidRun(r.prev) && Enabled(End(r.prev), r.ev)
  }
}
