/**
 What every step of the kernel machine keeps, and so what holds in every state
 of every run.
 */
module KernelInvariants {
  import opened Options
  import opened Sequences
  import opened Kernel

  // ---------- The scheduler ----------

  ghost function Target(st: State, t: Tid): Option<SemaId> {
    DownTarget(t, st.At(t))
  }

  /** A thread other than the idle one is on the wait list of `s` exactly when
      it is blocked and `s` is the semaphore it is downing. */
  ghost predicate WaitsRight(st: State, t: Tid, s: SemaId) {
    t in st.Waiting(s) <==> st.Stat(t) == Some(Blocked) && t != st.idle && Target(st, t) == Some(s)
  }

  /** One thread's status agrees with the lists it is on.  `running` is the
      thread that has the processor, if any. */
  ghost predicate ThreadOk(st: State, running: Option<Tid>, t: Tid) {
    && (running == Some(t) <==> st.Stat(t) == Some(Running))
    && (t in st.ready <==> st.Stat(t) == Some(Ready) && t != st.idle)
    && (forall s :: WaitsRight(st, t, s))
    && (st.Stat(t) == Some(Blocked) && t != st.idle ==> Target(st, t).Some?)
    && (t in st.retry ==> st.Stat(t) in {Some(Ready), Some(Running)} && Target(st, t).Some?)
    && (t == st.idle || st.Stat(t) in {None, Some(Dying)} ==> st.At(t) == Client)
    && (t == st.idle ==> st.Stat(t) !in {None, Some(Dying)})
  }

  ghost predicate Consistent(st: State, running: Option<Tid>) {
    && Distinct(st.ready)
    && (forall s :: Distinct(st.Waiting(s)))
    && (forall t :: ThreadOk(st, running, t))
  }

  /** Exactly one thread runs; a thread is ready exactly when it is on the ready
      list, blocked exactly when it is on one wait list, and on each once. */
  ghost predicate Threads(st: State) {
    Consistent(st, Some(st.current))
  }

  // Everything about thread t that ThreadOk looks at is the same.
  ghost predicate SameFor(st: State, st': State, t: Tid) {
    && st'.Stat(t) == st.Stat(t) && (t in st'.ready <==> t in st.ready) && (t in st'.retry <==> t in st.retry)
    && st'.At(t) == st.At(t) && st'.idle == st.idle
    && forall s :: t in st'.Waiting(s) <==> t in st.Waiting(s)
  }

  lemma Carried(st: State, st': State, running: Option<Tid>, running': Option<Tid>, t: Tid)
    requires ThreadOk(st, running, t) && SameFor(st, st', t)
    requires running == Some(t) <==> running' == Some(t)
    ensures ThreadOk(st', running', t)
  {
    forall s ensures WaitsRight(st', t, s) { assert WaitsRight(st, t, s); }
  }

  lemma DispatchKeeps(st: State)
    requires Consistent(st, None)
    ensures Threads(st.(sched := Dispatch(st.sched)))
  {
    if st.ready != [] { DistinctTail(st.ready); }
    var st' := st.(sched := Dispatch(st.sched));
    var n := st'.current;
    assert ThreadOk(st, None, st.idle);
    assert ThreadOk(st, None, n);
    forall t ensures ThreadOk(st', Some(n), t) {
      assert ThreadOk(st, None, t);
      if t == n {
        forall s ensures WaitsRight(st', t, s) { assert WaitsRight(st, t, s); }
      } else {
        assert t in st'.ready <==> t in st.ready;
        Carried(st, st', None, Some(n), t);
      }
    }
    assert forall s :: st'.Waiting(s) == st.Waiting(s);
  }

  // The running thread goes to sleep on `s`, and nobody runs yet.
  lemma SleepKeeps(st: State, s: SemaId, mid: State)
    requires Threads(st) && Target(st, st.current) == Some(s)
    requires mid == st.(semas := st.semas.(waiters := st.semas.waiters[s := st.Waiting(s) + [st.current]]),
                        retry := st.retry - {st.current}, sched := StepDown(st.sched, Blocked))
    ensures Consistent(mid, None)
  {
    var t := st.current;
    assert ThreadOk(st, Some(t), t);
    assert WaitsRight(st, t, s);
    DistinctAppend(st.Waiting(s), t);
    forall x ensures Distinct(mid.Waiting(x)) {
      assert mid.Waiting(x) == if x == s then st.Waiting(s) + [t] else st.Waiting(x);
    }
    forall u ensures ThreadOk(mid, None, u) {
      assert ThreadOk(st, Some(t), u);
      if u == t {
        forall x ensures WaitsRight(mid, t, x) { assert WaitsRight(st, t, x); }
      } else {
        Carried(st, mid, Some(t), None, u);
      }
    }
  }

  // The running thread steps down without going to sleep on anything.
  lemma StepDownKeeps(st: State, how: Status)
    requires Threads(st) && st.current !in st.retry && how != Running
    requires how == Blocked ==> st.current == st.idle
    requires how == Dying ==> st.current != st.idle && st.At(st.current) == Client
    ensures Consistent(st.(sched := StepDown(st.sched, how)), None)
    ensures Threads(st.(sched := Dispatch(StepDown(st.sched, how))))
  {
    var t, mid := st.current, st.(sched := StepDown(st.sched, how));
    assert ThreadOk(st, Some(t), t);
    if how == Ready && t != st.idle { DistinctAppend(st.ready, t); }
    forall u ensures ThreadOk(mid, None, u) {
      assert ThreadOk(st, Some(t), u);
      if u == t {
        forall x ensures WaitsRight(mid, t, x) { assert WaitsRight(st, t, x); }
      } else {
        Carried(st, mid, Some(t), None, u);
      }
    }
    assert forall x :: mid.Waiting(x) == st.Waiting(x);
    DispatchKeeps(mid);
  }

  lemma ExitKeeps(st: State)
    requires Threads(st) && st.current != st.idle && st.At(st.current) == Client && st.current !in st.retry
    ensures Threads(Exit(st))
  {
    var dead := st.current;
    StepDownKeeps(st, Dying);
    var mid := st.(sched := StepDown(st.sched, Dying));
    var sw := st.(sched := Dispatch(StepDown(st.sched, Dying)));
    assert ThreadOk(mid, None, dead) && ThreadOk(mid, None, NextThread(mid.sched)) && ThreadOk(mid, None, mid.idle);
    if dead != st.sched.initial { FreeKeeps(sw, dead); }
  }

  lemma FreeKeeps(st: State, dead: Tid)
    requires Threads(st) && st.Stat(dead) == Some(Dying)
    ensures Threads(st.(sched := st.sched.(status := st.sched.status - {dead}), pc := st.pc - {dead}))
  {
    var st' := st.(sched := st.sched.(status := st.sched.status - {dead}), pc := st.pc - {dead});
    forall u ensures ThreadOk(st', Some(st.current), u) {
      assert ThreadOk(st, Some(st.current), u);
      if u == dead {
        forall x ensures WaitsRight(st', u, x) { assert WaitsRight(st, u, x); }
      } else {
        Carried(st, st', Some(st.current), Some(st.current), u);
      }
    }
    assert forall x :: st'.Waiting(x) == st.Waiting(x);
  }

  // The running thread moves on without giving up the processor.
  lemma MoveKeeps(st: State, st': State, p: Pc)
    requires Threads(st) && st.current != st.idle && st'.sched == st.sched
    requires st'.pc == st.pc[st.current := p] && st'.retry == st.retry - {st.current}
    requires forall s :: st'.Waiting(s) == st.Waiting(s)
    ensures Threads(st')
  {
    var t := st.current;
    forall u ensures ThreadOk(st', Some(t), u) {
      assert ThreadOk(st, Some(t), u);
      if u == t {
        forall x ensures WaitsRight(st', t, x) { assert WaitsRight(st, t, x); }
      } else {
        Carried(st, st', Some(t), Some(t), u);
      }
    }
  }

  lemma SameThreads(st: State, st': State)
    requires Threads(st) && st'.sched == st.sched && st'.pc == st.pc && st'.retry == st.retry
    requires st'.semas.waiters == st.semas.waiters
    ensures Threads(st')
  {
    assert forall s :: st'.Waiting(s) == st.Waiting(s);
    forall u ensures ThreadOk(st', Some(st.current), u) {
      assert ThreadOk(st, Some(st.current), u);
      Carried(st, st', Some(st.current), Some(st.current), u);
    }
  }

  lemma SemaUpKeeps(st: State, s: SemaId)
    requires Threads(st)
    ensures Threads(SemaUp(st, s))
    ensures st.current !in st.retry ==> st.current !in SemaUp(st, s).retry
  {
    var w, st', cur := st.Waiting(s), SemaUp(st, s), Some(st.current);
    if w == [] {
      SameThreads(st, st');
    } else {
      var t := w[0];
      assert t in w;
      assert ThreadOk(st, cur, t) && WaitsRight(st, t, s);
      DistinctTail(w);
      DistinctAppend(st.ready, t);
      forall x ensures Distinct(st'.Waiting(x)) {
        assert st'.Waiting(x) == if x == s then w[1..] else st.Waiting(x);
      }
      forall u ensures ThreadOk(st', cur, u) {
        assert ThreadOk(st, cur, u);
        if u == t {
          forall x ensures WaitsRight(st', t, x) { assert WaitsRight(st, t, x); }
        } else {
          assert forall x :: u in st'.Waiting(x) <==> u in st.Waiting(x);
          Carried(st, st', cur, cur, u);
        }
      }
    }
  }

  lemma CreateKeeps(st: State, t: Tid)
    requires Threads(st) && t !in st.pc && t !in st.sched.status
    ensures Threads(st.(pc := st.pc[t := Client], sched := Unblock(st.sched, t)))
  {
    var cur := Some(st.current);
    assert ThreadOk(st, cur, t);
    DistinctAppend(st.ready, t);
    var st' := st.(pc := st.pc[t := Client], sched := Unblock(st.sched, t));
    forall u ensures ThreadOk(st', cur, u) {
      assert ThreadOk(st, cur, u);
      if u == t {
        forall x ensures WaitsRight(st', t, x) { assert WaitsRight(st, t, x); }
      } else {
        Carried(st, st', cur, cur, u);
      }
    }
    assert forall x :: st'.Waiting(x) == st.Waiting(x);
  }

  lemma DownKeeps(st: State, s: SemaId)
    requires Threads(st) && Target(st, st.current) == Some(s)
    ensures Threads(SemaDown(st, s))
  {
    assert ThreadOk(st, Some(st.current), st.current);
    if st.Value(s) > 0 {
      assert forall x :: SemaDown(st, s).Waiting(x) == st.Waiting(x);
      MoveKeeps(st, SemaDown(st, s), AfterDown(st.At(st.current)));
    } else {
      var mid := st.(semas := st.semas.(waiters := st.semas.waiters[s := st.Waiting(s) + [st.current]]),
                     retry := st.retry - {st.current}, sched := StepDown(st.sched, Blocked));
      SleepKeeps(st, s, mid);
      DispatchKeeps(mid);
    }
  }

  // Only a thread itself ever sleeps on its own waiter semaphore.
  lemma OwnWaiterEmpty(st: State)
    requires Threads(st)
    ensures st.Waiting(OfWaiter(st.current)) == []
  {
    var w, cur := st.Waiting(OfWaiter(st.current)), Some(st.current);
    forall u ensures u !in w {
      assert ThreadOk(st, cur, u) && WaitsRight(st, u, OfWaiter(st.current));
      assert ThreadOk(st, cur, st.current);
    }
    NoMembers(w);
  }

  lemma LocalFrame(st: State)
    requires st.Waiting(OfWaiter(st.current)) == [] && st.At(st.current) != Client
    ensures var st' := LocalRegion(st);
      && st'.sched == st.sched && st'.retry == st.retry
      && st'.pc == st.pc[st.current := st'.At(st.current)]
      && forall s :: st'.Waiting(s) == st.Waiting(s)
  {
  }

  lemma LocalKeeps(st: State)
    requires Threads(st) && DownTarget(st.current, st.At(st.current)).None? && st.At(st.current) != Client
    ensures Threads(LocalRegion(st))
  {
    assert ThreadOk(st, Some(st.current), st.current);
    OwnWaiterEmpty(st);
    LocalFrame(st);
    MoveKeeps(st, LocalRegion(st), LocalRegion(st).At(st.current));
  }

  lemma ExecKeeps(st: State)
    requires Threads(st) && Enabled(st, Exec)
    ensures Threads(ExecNext(st))
  {
    var t, p := st.current, st.At(st.current);
    assert ThreadOk(st, Some(t), t);
    if DownTarget(t, p).Some? {
      DownKeeps(st, DownTarget(t, p).value);
    } else if UpTarget(p).Some? {
      var up := SemaUp(st, UpTarget(p).value);
      SemaUpKeeps(st, UpTarget(p).value);
      MoveUp(up, AfterUp(p));
    } else {
      LocalKeeps(st);
    }
  }

  lemma MoveUp(st: State, p: Pc)
    requires Threads(st) && st.current != st.idle && st.current !in st.retry
    ensures Threads(st.Move(p))
  {
    MoveKeeps(st, st.Move(p), p);
  }

  lemma ThreadsStep(st: State, ev: Event)
    requires Threads(st) && Enabled(st, ev)
    ensures Threads(Next(st, ev))
  {
    match ev
    case Call(p) => MoveUp(st, p);
    case TryLock(l) =>
      SameThreads(st, TryDown(st, OfLock(l)));
      MoveUp(TryDown(st, OfLock(l)), Acquired(l));
    case Exec => ExecKeeps(st);
    case Preempt => StepDownKeeps(st, Ready);
    case IdleBlock => StepDownKeeps(st, Blocked);
    case Create(t) => CreateKeeps(st, t);
    case ThreadExit => ExitKeeps(st);
    case IntrUp(n) => SemaUpKeeps(st, User(n));
    case IntrTryDown(n) => SameThreads(st, TryDown(st, User(n)));
  }
}
