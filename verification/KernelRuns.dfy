/**
 What the invariants mean for whole runs: units and signals are conserved, locks
 exclude, no wakeup is lost, and both the ready list and the queues of condition
 variables are served in order.
 */
module KernelRuns {
  import opened Options
  import opened Sequences
  import opened Kernel
  import opened KernelInvariants
  import opened KernelSync

  function Bit(b: bool): int {
    if b then 1 else 0
  }

  // ---------- One list element for each thread ----------

  /** In every run exactly one thread is running, a thread other than the idle one
      is ready exactly when it is on the ready list, and no thread is on two lists
      or twice on one; so each needs only one list element. */
  lemma OneListEach(r: Run, t: Tid, s: SemaId, s': SemaId)
    requires ValidRun(r) && Init(First(r))
    ensures var st := End(r);
      && (st.Stat(t) == Some(Running) <==> t == st.current)
      && (t in st.ready <==> st.Stat(t) == Some(Ready) && t != st.idle)
      && (t in st.Waiting(s) ==> st.Stat(t) == Some(Blocked) && t !in st.ready)
      && (t in st.Waiting(s) && t in st.Waiting(s') ==> s == s')
      && Distinct(st.ready) && Distinct(st.Waiting(s))
  {
    InvRun(r);
    var st := End(r);
    assert ThreadOk(st, Some(st.current), t) && WaitsRight(st, t, s) && WaitsRight(st, t, s');
  }

  // ---------- Semaphores: units are conserved ----------

  predicate Ups(st: State, ev: Event, s: SemaId) {
    (ev.IntrUp? && s == User(ev.n)) || (ev.Exec? && UpTarget(st.At(st.current)) == Some(s))
  }

  /** A down that completes, as opposed to one that goes to sleep. */
  predicate Downs(st: State, ev: Event, s: SemaId) {
    && st.Value(s) > 0
    && ((ev.IntrTryDown? && s == User(ev.n)) || (ev.TryLock? && s == OfLock(ev.l))
        || (ev.Exec? && DownTarget(st.current, st.At(st.current)) == Some(s)))
  }

  ghost function UpCount(r: Run, s: SemaId): nat {
    match r case Start(_) => 0 case Then(p, ev) => UpCount(p, s) + Bit(Ups(End(p), ev, s))
  }

  ghost function DownCount(r: Run, s: SemaId): nat {
    match r case Start(_) => 0 case Then(p, ev) => DownCount(p, s) + Bit(Downs(End(p), ev, s))
  }

  lemma ValueAfterExec(st: State, s: SemaId)
    requires Conds(st) && st.At(st.current) != Client
    ensures ExecNext(st).Value(s) == st.Value(s) + Bit(Ups(st, Exec, s)) - Bit(Downs(st, Exec, s))
  {
    var t, p := st.current, st.At(st.current);
    assert WaiterOk(st, t);
    if DownTarget(t, p).None? && UpTarget(p).None? { LocalValues(st); }
  }

  lemma ValueAfter(st: State, ev: Event, s: SemaId)
    requires Conds(st) && Enabled(st, ev)
    ensures Next(st, ev).Value(s) == st.Value(s) + Bit(Ups(st, ev, s)) - Bit(Downs(st, ev, s))
  {
    if ev.Exec? { ValueAfterExec(st, s); }
  }

  /** In every run, every semaphore's value is its initial value plus the ups
      minus the completed downs. */
  lemma {:induction false} SemaphoreConservation(r: Run, s: SemaId)
    requires ValidRun(r) && Init(First(r))
    ensures End(r).Value(s) == First(r).Value(s) + UpCount(r, s) - DownCount(r, s)
  {
    if r.Then? {
      SemaphoreConservation(r.prev, s);
      InvRun(r.prev);
      ValueAfter(End(r.prev), r.ev, s);
    }
  }

  /** In every run, the value of a semaphore that has waiters is at most the number
      of threads that were woken and have not rechecked it. */
  lemma WakeupsCovered(r: Run, s: SemaId)
    requires ValidRun(r) && Init(First(r)) && End(r).Waiting(s) != []
    ensures End(r).Value(s) <= |Woken(End(r), s)|
  {
    InvRun(r);
    assert WakeOk(End(r), s);
  }

  // t is not queued on s but ready or running, with s the next thing it downs.
  ghost predicate Rechecks(st: State, t: Tid, s: SemaId) {
    t !in st.Waiting(s) && st.Stat(t) in {Some(Ready), Some(Running)} && Target(st, t) == Some(s)
  }

  /** In every run, whenever a semaphore is positive while threads are queued on
      it, some other thread has been woken and is on its way to look again. */
  lemma WakeupPending(r: Run, s: SemaId)
    requires ValidRun(r) && Init(First(r)) && End(r).Waiting(s) != [] && End(r).Value(s) > 0
    ensures exists t :: t in Woken(End(r), s) && Rechecks(End(r), t, s)
  {
    InvRun(r);
    var st := End(r);
    assert WakeOk(st, s);
    assert |Woken(st, s)| > 0;
    var t :| t in Woken(st, s);
    assert ThreadOk(st, Some(st.current), t) && WaitsRight(st, t, s);
  }

  // ---------- Locks ----------

  ghost function Owners(st: State, l: Lock): set<Tid> {
    set t | t in st.pc.Keys + (if st.Holder(l).Some? then {st.Holder(l).value} else {}) && Owns(st, t, l)
  }

  lemma OneOwner(st: State, l: Lock)
    requires LockOk(st, l) && l in st.mon.holder
    ensures st.Value(OfLock(l)) + |Owners(st, l)| == 1
    ensures st.Holder(l).Some? ==> Owners(st, l) == {st.Holder(l).value}
  {
    forall t ensures t in Owners(st, l) <==> Owns(st, t, l) {}
    HolderOwns(st, l);
    if t :| Owns(st, t, l) {
      assert Owners(st, l) == {t};
      assert st.Holder(l).Some? ==> Owns(st, st.Holder(l).value, l);
    } else {
      assert Owners(st, l) == {};
    }
  }

  /** In every run, a lock's semaphore plus the number of threads between the
      decrement and the increment is one, and a recorded holder is that thread. */
  lemma MutualExclusion(r: Run, l: Lock)
    requires ValidRun(r) && Init(First(r)) && l in End(r).mon.holder
    ensures End(r).Value(OfLock(l)) + |Owners(End(r), l)| == 1
    ensures End(r).Holder(l).Some? ==> Owners(End(r), l) == {End(r).Holder(l).value}
  {
    InvRun(r);
    assert LockOk(End(r), l);
    OneOwner(End(r), l);
  }

  /** Two threads are never both inside regions that need the same lock held. */
  lemma NoTwoInside(r: Run, t: Tid, u: Tid)
    requires ValidRun(r) && Init(First(r))
    requires MustHold(End(r).At(t)) && MustHold(End(r).At(u)) && LockIn(End(r).At(t)) == LockIn(End(r).At(u))
    ensures t == u
  {
    InvRun(r);
    var st := End(r);
    assert LockPcOk(st, t) && LockPcOk(st, u);
  }

  // ---------- Condition variables ----------

  // A signal takes t off the queue of its condition.
  predicate Picks(st: State, ev: Event, t: Tid) {
    var p := st.At(st.current);
    ev.Exec? && p.Signal? && st.Queue(p.c) != [] && st.Queue(p.c)[0] == t
  }

  // t gets past the semaphore it waits on.
  predicate Passes(st: State, ev: Event, t: Tid) {
    st.current == t && st.At(t).WaitDown? && Downs(st, ev, OfWaiter(t))
  }

  ghost function PickCount(r: Run, t: Tid): nat {
    match r case Start(_) => 0 case Then(p, ev) => PickCount(p, t) + Bit(Picks(End(p), ev, t))
  }

  ghost function PassCount(r: Run, t: Tid): nat {
    match r case Start(_) => 0 case Then(p, ev) => PassCount(p, t) + Bit(Passes(End(p), ev, t))
  }

  // Signals sent to t that it has not consumed yet.
  ghost function InFlight(st: State, t: Tid): int {
    st.Value(OfWaiter(t)) + Bit(exists u :: Chose(st, u, t))
  }

  lemma SameChoosers(st: State, st': State, t: Tid)
    requires forall u :: Chose(st', u, t) <==> Chose(st, u, t)
    ensures (exists u :: Chose(st', u, t)) <==> (exists u :: Chose(st, u, t))
  {
  }

  // A signaller has its choice from the pop until it raises the semaphore.
  lemma ChoosersExec(st: State, t: Tid)
    requires Conds(st) && st.At(st.current) != Client
    ensures var p := st.At(st.current);
      Bit(exists u :: Chose(ExecNext(st), u, t))
      == Bit(exists u :: Chose(st, u, t)) + Bit(Picks(st, Exec, t)) - Bit(p.SignalUp? && p.w == t)
  {
    var me, p, st' := st.current, st.At(st.current), ExecNext(st);
    assert WaiterOk(st, t);
    assert forall u | u != me :: st'.At(u) == st.At(u);
    if Picks(st, Exec, t) {
      assert t in st.Queue(p.c);
      assert Chose(st', me, t) && forall u :: !Chose(st, u, t);
    } else if p.SignalUp? && p.w == t {
      assert Chose(st, me, t);
      forall u ensures !Chose(st', u, t) { assert Chose(st, u, t) ==> u == me; }
    } else {
      forall u ensures Chose(st', u, t) <==> Chose(st, u, t) {}
      SameChoosers(st, st', t);
    }
  }

  lemma InFlightExec(st: State, t: Tid)
    requires Conds(st) && st.At(st.current) != Client
    ensures InFlight(ExecNext(st), t) == InFlight(st, t) + Bit(Picks(st, Exec, t)) - Bit(Passes(st, Exec, t))
  {
    ChoosersExec(st, t);
    ValueAfterExec(st, OfWaiter(t));
  }

  lemma InFlightStep(st: State, ev: Event, t: Tid)
    requires Inv(st) && Enabled(st, ev)
    ensures InFlight(Next(st, ev), t) == InFlight(st, t) + Bit(Picks(st, ev, t)) - Bit(Passes(st, ev, t))
  {
    var st' := Next(st, ev);
    if ev.Exec? {
      InFlightExec(st, t);
    } else {
      ValueAfter(st, ev, OfWaiter(t));
      OthersChoose(st, ev, t);
      SameChoosers(st, st', t);
    }
  }

  lemma OthersChoose(st: State, ev: Event, t: Tid)
    requires Inv(st) && Enabled(st, ev) && !ev.Exec?
    ensures forall u :: Chose(Next(st, ev), u, t) <==> Chose(st, u, t)
  {
    assert ThreadOk(st, Some(st.current), st.current);
    if ev.Create? { assert ThreadOk(st, Some(st.current), ev.t); }
  }

  /** In every run, the number of times a thread has come out of a wait is the
      number of signals that picked it, less at most one that is still on its
      way; so each return is paid for by a signal of its own, and none is lost. */
  lemma {:induction false} SignalsConserved(r: Run, t: Tid)
    requires ValidRun(r) && Init(First(r))
    ensures PickCount(r, t) == PassCount(r, t) + InFlight(End(r), t)
    ensures 0 <= InFlight(End(r), t) <= 1
  {
    InvRun(r);
    assert WaiterOk(End(r), t);
    if r.Then? {
      SignalsConserved(r.prev, t);
      InvRun(r.prev);
      InFlightStep(End(r.prev), r.ev, t);
    }
  }

  /** A thread asleep inside cond_wait is still queued, or a signaller has
      chosen it and has yet to raise its semaphore: a signal that arrives
      before the waiter goes to sleep cannot leave it asleep. */
  lemma SleeperIsWaiting(r: Run, t: Tid)
    requires ValidRun(r) && Init(First(r)) && t in End(r).Waiting(OfWaiter(t))
    ensures End(r).At(t).WaitDown? && End(r).Value(OfWaiter(t)) == 0
    ensures t in End(r).Queue(End(r).At(t).c) || exists u :: Chose(End(r), u, t)
  {
    InvRun(r);
    var st, s := End(r), OfWaiter(t);
    assert ThreadOk(st, Some(st.current), t) && WaitsRight(st, t, s) && WaiterOk(st, t) && WakeOk(st, s);
    forall u ensures u !in Woken(st, s) {
      assert ThreadOk(st, Some(st.current), u);
    }
    assert Woken(st, s) == {};
  }

  /** Leaving cond_wait sets the holder to the returning thread, which is then
      the lock's only owner. */
  lemma WaitReturnsWithLock(r: Run)
    requires ValidRun(r) && Init(First(r)) && Enabled(End(r), Exec)
    requires End(r).At(End(r).current).WaitReacquired?
    ensures var st, st' := End(r), ExecNext(End(r));
      var l := st.At(st.current).l;
      st'.At(st.current) == Client && st'.Holder(l) == Some(st.current) && Owners(st', l) == {st.current}
  {
    InvRun(r);
    var st := End(r);
    var l := st.At(st.current).l;
    assert LockPcOk(st, st.current);
    LocksExec(st);
    assert LockOk(ExecNext(st), l);
    OneOwner(ExecNext(st), l);
  }

  // ---------- The ready list is served in order ----------

  // The steps that call schedule().
  predicate Dispatches(st: State, ev: Event) {
    || ev.Preempt? || ev.IdleBlock? || ev.ThreadExit?
    || (ev.Exec? && var s := DownTarget(st.current, st.At(st.current)); s.Some? && st.Value(s.value) == 0)
  }

  ghost function DispatchCount(r: Run): nat {
    match r case Start(_) => 0 case Then(p, ev) => DispatchCount(p) + Bit(Dispatches(End(p), ev))
  }

  lemma ReadyAfterExec(st: State, k: nat)
    requires k < |st.ready|
    ensures var st' := ExecNext(st);
      if Dispatches(st, Exec) then
        if k == 0 then st'.current == st.ready[0] else k <= |st'.ready| && st'.ready[k - 1] == st.ready[k]
      else k < |st'.ready| && st'.ready[k] == st.ready[k]
  {
  }

  lemma ReadyAfter(st: State, ev: Event, k: nat)
    requires k < |st.ready|
    ensures var st' := Next(st, ev);
      if Dispatches(st, ev) then
        if k == 0 then st'.current == st.ready[0] else k <= |st'.ready| && st'.ready[k - 1] == st.ready[k]
      else k < |st'.ready| && st'.ready[k] == st.ready[k]
  {
    if ev.Exec? { ReadyAfterExec(st, k); }
  }

  /** A thread at position k of the ready list moves up one place with every
      call of schedule() and is the one that the (k+1)-th such call runs. */
  lemma {:induction false} ReadyInOrder(r: Run, k: nat)
    requires k < |First(r).ready| && DispatchCount(r) <= k + 1
    ensures var d := DispatchCount(r);
      d <= k ==> k - d < |End(r).ready| && End(r).ready[k - d] == First(r).ready[k]
    ensures r.Then? && DispatchCount(r) == k + 1 && Dispatches(End(r.prev), r.ev) ==>
      End(r).current == First(r).ready[k]
  {
    if r.Then? {
      ReadyInOrder(r.prev, k);
      if DispatchCount(r.prev) <= k { ReadyAfter(End(r.prev), r.ev, k - DispatchCount(r.prev)); }
    }
  }

  // ---------- Condition queues are served in order ----------

  predicate PopsFrom(st: State, ev: Event, c: Cond) {
    var p := st.At(st.current);
    ev.Exec? && p.Signal? && p.c == c && st.Queue(c) != []
  }

  ghost function PopCount(r: Run, c: Cond): nat {
    match r case Start(_) => 0 case Then(p, ev) => PopCount(p, c) + Bit(PopsFrom(End(p), ev, c))
  }

  /** A queue changes only at a signal, which takes the front, and at a wait,
      which adds to the end. */
  lemma QueueAfter(st: State, ev: Event, c: Cond)
    ensures var q, q' := st.Queue(c), Next(st, ev).Queue(c);
      if PopsFrom(st, ev, c) then q' == q[1..]
      else q' == q || (ev.Exec? && st.At(st.current).WaitEnqueue? && st.At(st.current).c == c && q' == q + [st.current])
  {
  }

  /** A thread at position k of a condition's queue is the one picked by the
      (k+1)-th signal from now on. */
  lemma {:induction false} SignalsInOrder(r: Run, c: Cond, k: nat)
    requires k < |First(r).Queue(c)| && PopCount(r, c) <= k + 1
    ensures var d := PopCount(r, c);
      d <= k ==> k - d < |End(r).Queue(c)| && End(r).Queue(c)[k - d] == First(r).Queue(c)[k]
    ensures r.Then? && PopCount(r, c) == k + 1 && PopsFrom(End(r.prev), r.ev, c) ==>
      Picks(End(r.prev), r.ev, First(r).Queue(c)[k])
  {
    if r.Then? {
      SignalsInOrder(r.prev, c, k);
      QueueAfter(End(r.prev), r.ev, c);
    }
  }

  // ---------- Broadcast ----------

  ghost predicate Broadcasting(st: State, u: Tid, c: Cond) {
    (st.At(u).Signal? || st.At(u).SignalUp?) && st.At(u).c == c && st.At(u).all
  }

  /** While a thread is inside cond_broadcast nobody else touches the queue; its
      own steps only take from the front, and it leaves with the queue empty. */
  lemma BroadcastStep(st: State, ev: Event, u: Tid, c: Cond)
    requires Inv(st) && Enabled(st, ev) && Broadcasting(st, u, c)
    ensures var st' := Next(st, ev); var q, q' := st.Queue(c), st'.Queue(c);
      && (q' == q || (q != [] && q' == q[1..] && Picks(st, ev, q[0])))
      && (Broadcasting(st', u, c) || (q == [] && st'.At(u) == Client))
  {
    QueueAfter(st, ev, c);
    assert LockPcOk(st, u) && LockPcOk(st, st.current);
    assert ThreadOk(st, Some(st.current), st.current) && ThreadOk(st, Some(st.current), u);
    if u != st.current { UntouchedPc(st, ev, u); }
  }

  lemma UntouchedPc(st: State, ev: Event, u: Tid)
    requires Enabled(st, ev) && u != st.current && st.At(u) != Client
    ensures Next(st, ev).At(u) == st.At(u)
  {
  }

  ghost predicate BroadcastThroughout(r: Run, u: Tid, c: Cond) {
    r.Then? ==> Broadcasting(End(r.prev), u, c) && BroadcastThroughout(r.prev, u, c)
  }

  /** From the start of a cond_broadcast to its return, every thread that was
      queued is picked, and at the return nobody is queued. */
  lemma {:induction false} BroadcastWakesAll(r: Run, u: Tid, c: Cond)
    requires ValidRun(r) && Inv(First(r)) && Broadcasting(First(r), u, c) && BroadcastThroughout(r, u, c)
    ensures Inv(End(r))
    ensures Broadcasting(End(r), u, c) || (End(r).At(u) == Client && End(r).Queue(c) == [])
    ensures forall t | t in First(r).Queue(c) :: t in End(r).Queue(c) || PickCount(r, t) > 0
  {
    if r.Then? {
      BroadcastWakesAll(r.prev, u, c);
      InvStep(End(r.prev), r.ev);
      BroadcastStep(End(r.prev), r.ev, u, c);
    }
  }
}
