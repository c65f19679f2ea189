/**
 Semaphores never lose a wakeup, locks exclude, and condition variables pay
 every waiter exactly one signal: the invariants and their preservation by each
 step of the kernel machine.
 */
module KernelSync {
  import opened Options
  import opened Sequences
  import opened Kernel
  import opened KernelInvariants

  // ---------- No lost wakeup ----------

  /** The threads woken inside sema_down(s) that have not looked again yet. */
  ghost function Woken(st: State, s: SemaId): set<Tid> {
    set t | t in st.retry && Target(st, t) == Some(s)
  }

  /** While anyone is queued, every unit of the semaphore is spoken for by a
      thread that was woken and has yet to recheck. */
  ghost predicate WakeOk(st: State, s: SemaId) {
    st.Waiting(s) != [] ==> st.Value(s) <= |Woken(st, s)|
  }

  ghost predicate NoLostWakeup(st: State) {
    forall s :: WakeOk(st, s)
  }

  lemma SmallerSet<T>(a: set<T>, b: set<T>)
    requires a <= b
    ensures |a| <= |b|
  {
    if a != b {
      assert b == a + (b - a);
    }
  }

  lemma WakeCarried(st: State, st': State, s: SemaId)
    requires WakeOk(st, s) && (st'.Waiting(s) != [] ==> st.Waiting(s) != [])
    requires st'.Value(s) <= st.Value(s) && Woken(st, s) <= Woken(st', s)
    ensures WakeOk(st', s)
  {
    SmallerSet(Woken(st, s), Woken(st', s));
  }

  lemma OneFewer<T>(a: set<T>, b: set<T>, x: T)
    requires b == a - {x}
    ensures |a| - 1 <= |b| <= |a| && (x !in a ==> b == a)
  {
    if x in a { assert a == b + {x}; } else { assert a == b; }
  }

  lemma WokenAfterDown(st: State, s: SemaId, x: SemaId)
    requires Target(st, st.current) == Some(s)
    ensures Woken(SemaDown(st, s), x) == Woken(st, x) - {st.current}
    ensures x != s ==> st.current !in Woken(st, x)
  {
    var st' := SemaDown(st, s);
    assert forall t | t != st.current :: st'.At(t) == st.At(t);
    assert st'.retry == st.retry - {st.current};
  }

  lemma WakeDown(st: State, s: SemaId)
    requires NoLostWakeup(st) && Target(st, st.current) == Some(s)
    ensures NoLostWakeup(SemaDown(st, s))
  {
    var st' := SemaDown(st, s);
    forall x ensures WakeOk(st', x) {
      assert WakeOk(st, x);
      WokenAfterDown(st, s, x);
      OneFewer(Woken(st, x), Woken(st', x), st.current);
      if x != s { assert st'.Waiting(x) == st.Waiting(x) && st'.Value(x) == st.Value(x); }
    }
  }

  lemma WakeUp(st: State, s: SemaId)
    requires NoLostWakeup(st) && Threads(st)
    ensures NoLostWakeup(SemaUp(st, s))
  {
    var st', w := SemaUp(st, s), st.Waiting(s);
    forall x ensures WakeOk(st', x) {
      assert WakeOk(st, x);
      if x != s {
        WakeCarried(st, st', x);
      } else if w != [] {
        assert w[0] in w;
        assert ThreadOk(st, Some(st.current), w[0]) && WaitsRight(st, w[0], s);
        assert Woken(st', s) == Woken(st, s) + {w[0]};
      }
    }
  }

  // Steps that leave the wait lists alone, raise no value and move only
  // threads that were not woken.
  lemma WakeFrame(st: State, st': State)
    requires NoLostWakeup(st) && st.retry == st'.retry
    requires forall t | t in st.retry :: st'.At(t) == st.At(t)
    requires forall s :: st'.Waiting(s) == st.Waiting(s) && st'.Value(s) <= st.Value(s)
    ensures NoLostWakeup(st')
  {
    forall s ensures WakeOk(st', s) {
      assert WakeOk(st, s);
      WakeCarried(st, st', s);
    }
  }

  lemma WakeExec(st: State)
    requires Threads(st) && NoLostWakeup(st) && Enabled(st, Exec)
    ensures NoLostWakeup(ExecNext(st))
  {
    var t, p := st.current, st.At(st.current);
    assert ThreadOk(st, Some(t), t);
    if DownTarget(t, p).Some? {
      WakeDown(st, DownTarget(t, p).value);
    } else if UpTarget(p).Some? {
      var s := UpTarget(p).value;
      SemaUpKeeps(st, s);
      WakeUp(st, s);
      WakeMove(SemaUp(st, s), AfterUp(p));
    } else {
      OwnWaiterEmpty(st);
      LocalFrame(st);
      LocalValues(st);
      WakeFrame(st, LocalRegion(st));
    }
  }

  lemma WakeMove(st: State, p: Pc)
    requires NoLostWakeup(st) && st.current !in st.retry
    ensures NoLostWakeup(st.Move(p))
  {
    WakeFrame(st, st.Move(p));
  }

  // cond_wait initialises the semaphore on its own stack.
  ghost predicate Resets(st: State, s: SemaId) {
    s == OfWaiter(st.current) && st.At(st.current).WaitEnqueue?
  }

  lemma LocalValues(st: State)
    ensures forall s :: LocalRegion(st).Value(s) == (if Resets(st, s) then 0 else st.Value(s))
  {
  }

  lemma WakeStep(st: State, ev: Event)
    requires Threads(st) && NoLostWakeup(st) && Enabled(st, ev)
    ensures NoLostWakeup(Next(st, ev))
  {
    var t := st.current;
    assert ThreadOk(st, Some(t), t);
    match ev
    case Exec => WakeExec(st);
    case IntrUp(n) => WakeUp(st, User(n));
    case Call(p) => WakeMove(st, p);
    case TryLock(l) =>
      WakeFrame(st, TryDown(st, OfLock(l)));
      WakeMove(TryDown(st, OfLock(l)), Acquired(l));
    case Create(n) => assert ThreadOk(st, Some(t), n); WakeFrame(st, Next(st, ev));
    case _ => WakeFrame(st, Next(st, ev));
  }

  // ---------- Mutual exclusion ----------

  ghost function LockIn(p: Pc): Option<Lock> {
    match p
    case Acquire(l) => Some(l)
    case Acquired(l) => Some(l)
    case Release(l) => Some(l)
    case Released(l) => Some(l)
    case WaitEnqueue(_, l) => Some(l)
    case WaitRelease(_, l) => Some(l)
    case WaitReleased(_, l) => Some(l)
    case WaitDown(_, l) => Some(l)
    case WaitReacquire(_, l) => Some(l)
    case WaitReacquired(_, l) => Some(l)
    case Signal(_, l, _) => Some(l)
    case SignalUp(_, l, _, _) => Some(l)
    case _ => None
  }

  ghost function CondIn(p: Pc): Option<Cond> {
    match p
    case WaitEnqueue(c, _) => Some(c)
    case WaitRelease(c, _) => Some(c)
    case WaitReleased(c, _) => Some(c)
    case WaitDown(c, _) => Some(c)
    case WaitReacquire(c, _) => Some(c)
    case WaitReacquired(c, _) => Some(c)
    case Signal(c, _, _) => Some(c)
    case SignalUp(c, _, _, _) => Some(c)
    case _ => None
  }

  // Between the decrement and setting the holder, or between clearing the
  // holder and the increment.
  ghost predicate InTransit(p: Pc, l: Lock) {
    (p.Acquired? || p.Released? || p.WaitReleased? || p.WaitReacquired?) && LockIn(p) == Some(l)
  }

  ghost predicate MustHold(p: Pc) {
    p.Release? || p.WaitEnqueue? || p.WaitRelease? || p.Signal? || p.SignalUp?
  }

  /** Thread t is between the decrement and the increment of lock l's semaphore. */
  ghost predicate Owns(st: State, t: Tid, l: Lock) {
    InTransit(st.At(t), l) || st.Holder(l) == Some(t)
  }

  /** The semaphore is 1 when nobody owns the lock and 0 when exactly one thread
      does; while a holder is recorded it is the owner and is not in transit. */
  ghost predicate LockOk(st: State, l: Lock) {
    l in st.mon.holder ==>
      && st.Value(OfLock(l)) <= 1
      && (forall t, u | Owns(st, t, l) && Owns(st, u, l) :: t == u)
      && (forall t | InTransit(st.At(t), l) :: st.Holder(l) == None)
      && (st.Value(OfLock(l)) == 0 <==> exists t :: Owns(st, t, l))
  }

  /** A thread inside a call names known locks, and holds those it has to. */
  ghost predicate LockPcOk(st: State, t: Tid) {
    var p := st.At(t);
    && (LockIn(p).Some? ==> LockIn(p).value in st.mon.holder)
    && (MustHold(p) ==> st.Holder(LockIn(p).value) == Some(t))
    && (CondIn(p).Some? ==> CondIn(p).value in st.mon.lockOf && Some(st.mon.lockOf[CondIn(p).value]) == LockIn(p))
  }

  ghost predicate Locks(st: State) {
    (forall l :: LockOk(st, l)) && (forall t :: LockPcOk(st, t))
  }

  lemma LockCarried(st: State, st': State, l: Lock)
    requires LockOk(st, l) && (l in st'.mon.holder <==> l in st.mon.holder)
    requires st'.Value(OfLock(l)) == st.Value(OfLock(l)) && st'.Holder(l) == st.Holder(l)
    requires forall t :: InTransit(st'.At(t), l) <==> InTransit(st.At(t), l)
    ensures LockOk(st', l)
  {
    assert forall t :: Owns(st', t, l) <==> Owns(st, t, l);
  }

  lemma PcCarried(st: State, st': State, t: Tid)
    requires LockPcOk(st, t) && st'.At(t) == st.At(t) && st'.mon.lockOf == st.mon.lockOf
    requires st'.mon.holder.Keys == st.mon.holder.Keys
    requires MustHold(st.At(t)) ==> st'.Holder(LockIn(st.At(t)).value) == st.Holder(LockIn(st.At(t)).value)
    ensures LockPcOk(st', t)
  {
  }

  // The running thread changes its own program counter, possibly together
  // with the semaphore or the holder of one lock.
  lemma LocksFrame(st: State, st': State, only: Option<Lock>)
    requires Locks(st)
    requires st'.mon.lockOf == st.mon.lockOf && st'.mon.holder.Keys == st.mon.holder.Keys
    requires forall u | u != st.current :: st'.At(u) == st.At(u)
    requires forall l | Some(l) != only :: st'.Value(OfLock(l)) == st.Value(OfLock(l)) && st'.Holder(l) == st.Holder(l)
    requires forall l | Some(l) != only :: InTransit(st'.At(st.current), l) <==> InTransit(st.At(st.current), l)
    requires LockPcOk(st', st.current)
    requires only.Some? ==> only.value in st.mon.holder && LockOk(st', only.value)
    requires only.Some? ==> st'.Holder(only.value) == st.Holder(only.value) || Owns(st, st.current, only.value)
    ensures Locks(st')
  {
    forall l ensures LockOk(st', l) {
      assert LockOk(st, l);
      if Some(l) != only { LockCarried(st, st', l); }
    }
    forall t ensures LockPcOk(st', t) {
      assert LockPcOk(st, t);
      if t != st.current {
        if only.Some? {
          assert LockOk(st, only.value);
          assert Owns(st, t, only.value) ==> st'.Holder(only.value) == st.Holder(only.value);
        }
        PcCarried(st, st', t);
      }
    }
  }

  lemma HolderOwns(st: State, l: Lock)
    ensures st.Holder(l) == None || exists t :: Owns(st, t, l)
  {
    assert st.Holder(l).Some? ==> Owns(st, st.Holder(l).value, l);
  }

  lemma TakesLock(st: State, st': State, l: Lock)
    requires Locks(st) && l in st.mon.holder && st.Value(OfLock(l)) > 0
    requires st'.mon == st.mon && forall u | u != st.current :: st'.At(u) == st.At(u)
    requires forall x :: st'.Value(OfLock(x)) == st.Value(OfLock(x)) - (if x == l then 1 else 0)
    requires forall x :: InTransit(st'.At(st.current), x) <==> x == l
    requires !MustHold(st'.At(st.current)) && LockIn(st'.At(st.current)) == Some(l)
    requires forall x | x != l :: !InTransit(st.At(st.current), x)
    requires CondIn(st'.At(st.current)) == CondIn(st.At(st.current))
    requires CondIn(st.At(st.current)).Some? ==> LockIn(st.At(st.current)) == Some(l)
    ensures Locks(st')
  {
    HolderOwns(st, l);
    assert LockOk(st, l) && LockPcOk(st, st.current);
    assert Owns(st', st.current, l);
    assert !exists t :: Owns(st, t, l);
    assert st'.Holder(l) == None;
    assert forall t | t != st.current :: Owns(st', t, l) <==> Owns(st, t, l);
    LocksFrame(st, st', Some(l));
  }

  // The holder of l is recorded or erased by the one thread that owns l.
  lemma HandsOver(st: State, st': State, l: Lock)
    requires Locks(st) && Owns(st, st.current, l) && Owns(st', st.current, l) && l in st.mon.holder
    requires st'.mon.lockOf == st.mon.lockOf && st'.mon.holder.Keys == st.mon.holder.Keys
    requires forall u | u != st.current :: st'.At(u) == st.At(u)
    requires forall x :: st'.Value(OfLock(x)) == st.Value(OfLock(x)) && (x != l ==> st'.Holder(x) == st.Holder(x))
    requires st'.Holder(l) == (if InTransit(st'.At(st.current), l) then None else Some(st.current))
    requires forall x | x != l :: !InTransit(st'.At(st.current), x) && !InTransit(st.At(st.current), x)
    requires LockPcOk(st', st.current)
    ensures Locks(st')
  {
    assert LockOk(st, l);
    forall t | t != st.current ensures !Owns(st', t, l) && !InTransit(st'.At(t), l) { assert !Owns(st, t, l); }
    LocksFrame(st, st', Some(l));
  }

  lemma GivesUp(st: State, st': State, l: Lock)
    requires Locks(st) && InTransit(st.At(st.current), l) && l in st.mon.holder
    requires st'.mon == st.mon && forall u | u != st.current :: st'.At(u) == st.At(u)
    requires forall x :: st'.Value(OfLock(x)) == st.Value(OfLock(x)) + (if x == l then 1 else 0)
    requires forall x :: !InTransit(st'.At(st.current), x)
    requires LockPcOk(st', st.current)
    ensures Locks(st')
  {
    assert LockOk(st, l) && Owns(st, st.current, l);
    forall t ensures !Owns(st', t, l) { if t != st.current { assert !Owns(st, t, l); } }
    LocksFrame(st, st', Some(l));
  }

  lemma LocksExecDown(st: State, s: SemaId)
    requires Locks(st) && Target(st, st.current) == Some(s)
    ensures Locks(SemaDown(st, s))
  {
    var st', t := SemaDown(st, s), st.current;
    assert LockPcOk(st, t);
    if st.Value(s) > 0 && s.OfLock? {
      TakesLock(st, st', s.l);
    } else {
      LocksFrame(st, st', None);
    }
  }

  lemma LocksExecUp(st: State)
    requires Locks(st) && UpTarget(st.At(st.current)).Some?
    ensures var p := st.At(st.current); Locks(SemaUp(st, UpTarget(p).value).Move(AfterUp(p)))
  {
    var p := st.At(st.current);
    var s, st' := UpTarget(p).value, SemaUp(st, UpTarget(p).value).Move(AfterUp(p));
    assert LockPcOk(st, st.current);
    if s.OfLock? {
      GivesUp(st, st', s.l);
    } else {
      LocksFrame(st, st', None);
    }
  }

  lemma LocksSetHolder(st: State, l: Lock)
    requires Locks(st) && InTransit(st.At(st.current), l) && l in st.mon.holder
    ensures Locks(SetHolder(st, l, Some(st.current)).Move(Client))
  {
    HandsOver(st, SetHolder(st, l, Some(st.current)).Move(Client), l);
  }

  lemma LocksClearHolder(st: State, l: Lock, p: Pc)
    requires Locks(st) && st.Holder(l) == Some(st.current) && InTransit(p, l)
    requires LockPcOk(st, st.current) && LockIn(st.At(st.current)) == Some(l) && CondIn(p) == CondIn(st.At(st.current))
    requires forall x :: !InTransit(st.At(st.current), x)
    ensures Locks(SetHolder(st, l, None).Move(p))
  {
    HandsOver(st, SetHolder(st, l, None).Move(p), l);
  }

  // Steps that move the running thread and touch no lock.
  lemma LocksMove(st: State, st': State)
    requires Locks(st) && st'.mon.holder == st.mon.holder && st'.mon.lockOf == st.mon.lockOf
    requires forall u | u != st.current :: st'.At(u) == st.At(u)
    requires forall l :: st'.Value(OfLock(l)) == st.Value(OfLock(l))
    requires forall l :: !InTransit(st'.At(st.current), l) && !InTransit(st.At(st.current), l)
    requires LockPcOk(st', st.current)
    ensures Locks(st')
  {
    LocksFrame(st, st', None);
  }

  lemma LocksSame(st: State, st': State)
    requires Locks(st) && st'.mon == st.mon
    requires forall u :: st'.At(u) == st.At(u)
    requires forall l :: st'.Value(OfLock(l)) == st.Value(OfLock(l))
    ensures Locks(st')
  {
    assert LockPcOk(st, st.current);
    LocksFrame(st, st', None);
  }

  lemma LocksLocal(st: State)
    requires Locks(st) && st.At(st.current) != Client
    requires DownTarget(st.current, st.At(st.current)).None? && UpTarget(st.At(st.current)).None?
    ensures Locks(LocalRegion(st))
  {
    assert LockPcOk(st, st.current);
    match st.At(st.current)
    case Acquired(l) => LocksSetHolder(st, l);
    case WaitReacquired(_, l) => LocksSetHolder(st, l);
    case Release(l) => LocksClearHolder(st, l, Released(l));
    case WaitRelease(c, l) => LocksClearHolder(st, l, WaitReleased(c, l));
    case WaitEnqueue(c, l) => LocksMove(st, Enqueue(st, c).Move(WaitRelease(c, l)));
    case Signal(c, l, all) =>
      if st.Queue(c) == [] { LocksMove(st, st.Move(Client)); }
      else { LocksMove(st, PopQueue(st, c).Move(SignalUp(c, l, st.Queue(c)[0], all))); }
  }

  lemma LocksExec(st: State)
    requires Locks(st) && st.At(st.current) != Client
    ensures Locks(ExecNext(st))
  {
    var t, p := st.current, st.At(st.current);
    if DownTarget(t, p).Some? { LocksExecDown(st, DownTarget(t, p).value); }
    else if UpTarget(p).Some? { LocksExecUp(st); }
    else { LocksLocal(st); }
  }

  lemma LocksStep(st: State, ev: Event)
    requires Threads(st) && Locks(st) && Enabled(st, ev)
    ensures Locks(Next(st, ev))
  {
    var t := st.current;
    assert LockPcOk(st, t) && ThreadOk(st, Some(t), t);
    match ev
    case Exec => LocksExec(st);
    case TryLock(l) => if st.Value(OfLock(l)) > 0 { TakesLock(st, TryDown(st, OfLock(l)).Move(Acquired(l)), l); }
    case Call(p) => CallNamesLocks(st, p); LocksMove(st, st.Move(p));
    case Preempt => LocksSame(st, Next(st, ev));
    case IdleBlock => LocksSame(st, Next(st, ev));
    case Create(n) => assert ThreadOk(st, Some(t), n); LocksSame(st, Next(st, ev));
    case ThreadExit => LocksSame(st, Exit(st));
    case IntrUp(n) => LocksSame(st, SemaUp(st, User(n)));
    case IntrTryDown(n) => LocksSame(st, TryDown(st, User(n)));
  }

  lemma CallNamesLocks(st: State, p: Pc)
    requires Callable(st, p)
    ensures LockPcOk(st.Move(p), st.current) && forall l :: !InTransit(p, l)
  {
  }

  // ---------- Condition variables ----------

  // From joining the queue to getting past the waiter semaphore.
  ghost predicate WaitPhase(p: Pc) {
    p.WaitRelease? || p.WaitReleased? || p.WaitDown?
  }

  // u has taken t off a queue and is about to raise its semaphore.
  ghost predicate Chose(st: State, u: Tid, t: Tid) {
    st.At(u).SignalUp? && st.At(u).w == t
  }

  /** A waiting thread has exactly one claim: a place in the queue of its
      condition, a signaller that has chosen it, or a unit on its semaphore.
      A thread that is not waiting has none. */
  ghost predicate WaiterOk(st: State, t: Tid) {
    var p, v := st.At(t), st.Value(OfWaiter(t));
    && (forall c | t in st.Queue(c) :: WaitPhase(p) && p.c == c && v == 0 && forall u :: !Chose(st, u, t))
    && v <= 1
    && (v == 1 ==> WaitPhase(p) && forall u :: !Chose(st, u, t))
    && (forall u | Chose(st, u, t) :: WaitPhase(p))
    && (forall u, w | Chose(st, u, t) && Chose(st, w, t) :: u == w)
    && (WaitPhase(p) ==> t in st.Queue(p.c) || v == 1 || exists u :: Chose(st, u, t))
  }

  ghost predicate Conds(st: State) {
    (forall c :: Distinct(st.Queue(c))) && (forall t :: WaiterOk(st, t))
  }

  lemma WaiterCarried(st: State, st': State, t: Tid)
    requires WaiterOk(st, t) && st'.Value(OfWaiter(t)) == st.Value(OfWaiter(t))
    requires forall c :: t in st'.Queue(c) <==> t in st.Queue(c)
    requires WaitPhase(st'.At(t)) <==> WaitPhase(st.At(t))
    requires WaitPhase(st.At(t)) ==> st'.At(t).c == st.At(t).c
    requires forall u :: Chose(st', u, t) <==> Chose(st, u, t)
    ensures WaiterOk(st', t)
  {
  }

  // Steps in which nobody joins or leaves a queue or a waiting phase.
  lemma CondsFrame(st: State, st': State)
    requires Conds(st) && st'.mon.queue == st.mon.queue
    requires forall u | u != st.current :: st'.At(u) == st.At(u)
    requires forall t :: st'.Value(OfWaiter(t)) == st.Value(OfWaiter(t))
    requires WaitPhase(st'.At(st.current)) <==> WaitPhase(st.At(st.current))
    requires WaitPhase(st.At(st.current)) ==> st'.At(st.current).c == st.At(st.current).c
    requires !st.At(st.current).SignalUp? && !st'.At(st.current).SignalUp?
    ensures Conds(st')
  {
    assert forall c :: st'.Queue(c) == st.Queue(c);
    forall t ensures WaiterOk(st', t) {
      assert WaiterOk(st, t);
      assert forall u :: Chose(st', u, t) <==> Chose(st, u, t);
      WaiterCarried(st, st', t);
    }
  }

  lemma CondsSame(st: State, st': State)
    requires Conds(st) && st'.mon.queue == st.mon.queue && forall u :: st'.At(u) == st.At(u)
    requires forall t :: st'.Value(OfWaiter(t)) == st.Value(OfWaiter(t))
    ensures Conds(st')
  {
    assert forall c :: st'.Queue(c) == st.Queue(c);
    forall t ensures WaiterOk(st', t) {
      assert WaiterOk(st, t);
      assert forall u :: Chose(st', u, t) <==> Chose(st, u, t);
      WaiterCarried(st, st', t);
    }
  }

  // The thread that joins a queue was in none, had no unit and was not chosen.
  lemma JoinerOk(st: State, st': State, c: Cond, l: Lock)
    requires WaiterOk(st, st.current) && st.At(st.current) == WaitEnqueue(c, l)
    requires st' == Enqueue(st, c).Move(WaitRelease(c, l))
    ensures WaiterOk(st', st.current)
  {
    var me := st.current;
    assert st'.At(me) == WaitRelease(c, l) && st'.Value(OfWaiter(me)) == 0;
    forall u ensures !Chose(st', u, me) { assert !Chose(st, u, me); }
    assert st'.Queue(c) == st.Queue(c) + [me];
    assert me in st'.Queue(c);
    forall x | me in st'.Queue(x) ensures x == c { assert x != c ==> st'.Queue(x) == st.Queue(x); }
  }

  lemma CondsEnqueue(st: State, c: Cond, l: Lock)
    requires Conds(st) && st.At(st.current) == WaitEnqueue(c, l)
    ensures Conds(Enqueue(st, c).Move(WaitRelease(c, l)))
  {
    var st', me := Enqueue(st, c).Move(WaitRelease(c, l)), st.current;
    assert WaiterOk(st, me);
    assert Distinct(st.Queue(c)) && me !in st.Queue(c);
    DistinctAppend(st.Queue(c), me);
    forall x ensures Distinct(st'.Queue(x)) {
      assert st'.Queue(x) == if x == c then st.Queue(c) + [me] else st.Queue(x);
    }
    forall t ensures WaiterOk(st', t) {
      assert WaiterOk(st, t);
      if t == me {
        JoinerOk(st, st', c, l);
      } else {
        assert forall u :: Chose(st', u, t) <==> Chose(st, u, t);
        WaiterCarried(st, st', t);
      }
    }
  }

  // cond_signal takes the longest waiter off the queue.
  lemma CondsPop(st: State, c: Cond, l: Lock, all: bool)
    requires Conds(st) && st.At(st.current) == Signal(c, l, all) && st.Queue(c) != []
    ensures Conds(PopQueue(st, c).Move(SignalUp(c, l, st.Queue(c)[0], all)))
  {
    var q, me := st.Queue(c), st.current;
    var w := q[0];
    var st' := PopQueue(st, c).Move(SignalUp(c, l, w, all));
    assert w in q && WaiterOk(st, w) && Distinct(q);
    DistinctTail(q);
    forall x ensures Distinct(st'.Queue(x)) {
      assert st'.Queue(x) == if x == c then q[1..] else st.Queue(x);
    }
    forall t ensures WaiterOk(st', t) {
      assert WaiterOk(st, t);
      if t == w {
        forall u ensures Chose(st', u, t) <==> u == me { assert !Chose(st, u, t); }
        forall x ensures t !in st'.Queue(x) { assert t in st.Queue(x) ==> x == c; }
        assert Chose(st', me, t) && st'.At(t) == st.At(t);
      } else {
        assert forall u :: Chose(st', u, t) <==> Chose(st, u, t);
        assert forall x :: t in st'.Queue(x) <==> t in st.Queue(x);
        WaiterCarried(st, st', t);
      }
    }
  }

  // ... and raises its semaphore.
  lemma CondsSignalUp(st: State, w: Tid)
    requires Conds(st) && Chose(st, st.current, w)
    ensures Conds(SemaUp(st, OfWaiter(w)).Move(AfterUp(st.At(st.current))))
  {
    var st', me := SemaUp(st, OfWaiter(w)).Move(AfterUp(st.At(st.current))), st.current;
    assert WaiterOk(st, w);
    assert forall c :: st'.Queue(c) == st.Queue(c);
    forall t ensures WaiterOk(st', t) {
      assert WaiterOk(st, t);
      if t == w {
        forall u ensures !Chose(st', u, t) { assert Chose(st, u, t) ==> u == me; }
      } else {
        assert forall u :: Chose(st', u, t) <==> Chose(st, u, t);
        WaiterCarried(st, st', t);
      }
    }
  }

  // The waiter gets past its own semaphore.
  lemma CondsPast(st: State)
    requires Conds(st) && st.At(st.current).WaitDown? && st.Value(OfWaiter(st.current)) > 0
    ensures Conds(SemaDown(st, OfWaiter(st.current)))
  {
    var st', me := SemaDown(st, OfWaiter(st.current)), st.current;
    assert WaiterOk(st, me);
    assert forall c :: st'.Queue(c) == st.Queue(c);
    forall t ensures WaiterOk(st', t) {
      assert WaiterOk(st, t);
      assert forall u :: Chose(st', u, t) <==> Chose(st, u, t);
      if t != me { WaiterCarried(st, st', t); }
    }
  }

  lemma CondsDown(st: State, s: SemaId)
    requires Conds(st) && Target(st, st.current) == Some(s)
    ensures Conds(SemaDown(st, s))
  {
    if st.Value(s) == 0 {
      CondsSame(st, SemaDown(st, s));
    } else if s.OfWaiter? {
      CondsPast(st);
    } else {
      CondsFrame(st, SemaDown(st, s));
    }
  }

  lemma CondsUp(st: State)
    requires Conds(st) && UpTarget(st.At(st.current)).Some?
    ensures var p := st.At(st.current); Conds(SemaUp(st, UpTarget(p).value).Move(AfterUp(p)))
  {
    var p := st.At(st.current);
    if p.SignalUp? {
      CondsSignalUp(st, p.w);
    } else {
      CondsFrame(st, SemaUp(st, UpTarget(p).value).Move(AfterUp(p)));
    }
  }

  lemma CondsLocal(st: State)
    requires Conds(st) && st.At(st.current) != Client
    requires DownTarget(st.current, st.At(st.current)).None? && UpTarget(st.At(st.current)).None?
    ensures Conds(LocalRegion(st))
  {
    var t := st.current;
    match st.At(t)
    case Acquired(l) => CondsFrame(st, SetHolder(st, l, Some(t)).Move(Client));
    case WaitReacquired(_, l) => CondsFrame(st, SetHolder(st, l, Some(t)).Move(Client));
    case Release(l) => CondsFrame(st, SetHolder(st, l, None).Move(Released(l)));
    case WaitRelease(c, l) => CondsFrame(st, SetHolder(st, l, None).Move(WaitReleased(c, l)));
    case WaitEnqueue(c, l) => CondsEnqueue(st, c, l);
    case Signal(c, l, all) =>
      if st.Queue(c) == [] { CondsFrame(st, st.Move(Client)); } else { CondsPop(st, c, l, all); }
  }

  lemma CondsExec(st: State)
    requires Conds(st) && st.At(st.current) != Client
    ensures Conds(ExecNext(st))
  {
    var t, p := st.current, st.At(st.current);
    if DownTarget(t, p).Some? { CondsDown(st, DownTarget(t, p).value); }
    else if UpTarget(p).Some? { CondsUp(st); }
    else { CondsLocal(st); }
  }

  lemma CondsStep(st: State, ev: Event)
    requires Threads(st) && Conds(st) && Enabled(st, ev)
    ensures Conds(Next(st, ev))
  {
    var t := st.current;
    assert ThreadOk(st, Some(t), t);
    match ev
    case Exec => CondsExec(st);
    case TryLock(l) => if st.Value(OfLock(l)) > 0 { CondsFrame(st, TryDown(st, OfLock(l)).Move(Acquired(l))); }
    case Call(p) => CondsFrame(st, st.Move(p));
    case Preempt => CondsSame(st, Next(st, ev));
    case IdleBlock => CondsSame(st, Next(st, ev));
    case Create(n) => assert ThreadOk(st, Some(t), n); CondsSame(st, Next(st, ev));
    case ThreadExit => CondsSame(st, Exit(st));
    case IntrUp(n) => CondsSame(st, SemaUp(st, User(n)));
    case IntrTryDown(n) => CondsSame(st, TryDown(st, User(n)));
  }

  // ---------- Every reachable state ----------

  ghost predicate Inv(st: State) {
    Threads(st) && NoLostWakeup(st) && Locks(st) && Conds(st)
  }

  lemma InvInit(st: State)
    requires Init(st)
    ensures Inv(st)
  {
    forall t ensures ThreadOk(st, Some(st.current), t) {
      forall s ensures WaitsRight(st, t, s) {}
    }
    forall s ensures WakeOk(st, s) {}
    forall l ensures LockOk(st, l) {}
    forall t ensures LockPcOk(st, t) {}
    forall t ensures WaiterOk(st, t) {}
  }

  lemma InvStep(st: State, ev: Event)
    requires Inv(st) && Enabled(st, ev)
    ensures Inv(Next(st, ev))
  {
    ThreadsStep(st, ev);
    WakeStep(st, ev);
    LocksStep(st, ev);
    CondsStep(st, ev);
  }

  /** The invariants hold at the end of every run, whatever the interleaving. */
  lemma {:induction false} InvRun(r: Run)
    requires ValidRun(r) && Init(First(r))
    ensures Inv(End(r))
  {
    match r
    case Start(st) => InvInit(st);
    case Then(p, ev) => InvRun(p); InvStep(End(p), ev);
  }
}
