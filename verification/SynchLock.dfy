/** Locks and condition variables on top of the semaphores. */
module SynchLock {
  import opened Basics
  import opened Scheduler
  import opened Synch
  import opened SynchWait

  // ---- Locks -------------------------------------------------------------------------------------

  /** A lock's semaphore is 0 exactly while some thread is between its down and its up, and the
      stored holder is that thread. */
  ghost predicate LockOk(s: State, l: LockId) {
    && At(s.semas, OfLock(l)).value == (if l in s.owner then 0 else 1)
    && (l in s.holder ==> l in s.owner && s.owner[l] == s.holder[l])
    && (l in s.owner ==> var t := s.owner[l]; (l in s.holder && s.holder[l] == t) || (t in s.pc && Between(s.pc[t], l)))
  }

  /** The owner of `l` is about to store itself as the holder, or has just stopped being it. */
  predicate Between(pc: Pc, l: LockId) {
    (pc.LockSet? || pc.LockUp?) && pc.l == l
  }

  ghost predicate HeldBy(s: State, t: Tid, l: LockId) {
    l in s.holder && s.holder[l] == t
  }

  /** What a thread's position says about the locks. */
  ghost predicate PcLock(s: State, t: Tid, pc: Pc) {
    match pc
    case LockSet(l, _) => l in s.owner && s.owner[l] == t && l !in s.holder
    case LockUp(l, _) => l in s.owner && s.owner[l] == t && l !in s.holder
    case LockClear(l, _) => HeldBy(s, t, l)
    case CondUp(c, _, _) => HeldBy(s, t, c.lock)
    case CondPop(c) => HeldBy(s, t, c.lock)
    case LockDown(l, _, _) => !HeldBy(s, t, l)
    case CondDown(l, _, _) => !HeldBy(s, t, l)
    case _ => true
  }

  ghost predicate LockInv(s: State) {
    && (forall l :: LockOk(s, l))
    && (forall t :: t in s.pc ==> PcLock(s, t, s.pc[t]))
    && (forall t: Tid, l: LockId :: (t, l) in s.inside <==> HeldBy(s, t, l))
  }

  /** A step that leaves the lock state alone and moves threads only between positions the locks
      say nothing about, or that they allow. */
  lemma LockFrame(s: State, r: State)
    requires LockInv(s)
    requires r.holder == s.holder && r.owner == s.owner && r.inside == s.inside
    requires forall l :: At(r.semas, OfLock(l)).value == At(s.semas, OfLock(l)).value
    requires forall t :: t in r.pc ==> (t in s.pc && r.pc[t] == s.pc[t]) || PcLock(s, t, r.pc[t])
    requires forall t :: t in s.pc && (s.pc[t].LockSet? || s.pc[t].LockUp?) ==> t in r.pc && r.pc[t] == s.pc[t]
    ensures LockInv(r)
  {
    forall l ensures LockOk(r, l) {
      assert LockOk(s, l);
    }
    forall t | t in r.pc ensures PcLock(r, t, r.pc[t]) {
      assert t in s.pc ==> PcLock(s, t, s.pc[t]);
    }
  }

  lemma LockSame(s: State, r: State)
    requires LockInv(s) && r.pc == s.pc
    requires r.holder == s.holder && r.owner == s.owner && r.inside == s.inside
    requires forall l :: At(r.semas, OfLock(l)).value == At(s.semas, OfLock(l)).value
    ensures LockInv(r)
  {
    hide LockInv;
    LockFrame(s, r);
  }

  lemma LockMove(s: State, r: State, cur: Tid, x: Pc)
    requires LockInv(s) && cur in s.pc && r.pc == s.pc[cur := x]
    requires r.holder == s.holder && r.owner == s.owner && r.inside == s.inside
    requires forall l :: At(r.semas, OfLock(l)).value == At(s.semas, OfLock(l)).value
    requires !s.pc[cur].LockSet? && !s.pc[cur].LockUp? && PcLock(s, cur, x)
    ensures LockInv(r)
  {
    hide LockInv;
    LockFrame(s, r);
  }

  /** The current thread completes the down of a lock's semaphore. */
  lemma LockTaken(s: State, r: State, l: LockId, cur: Tid, via: Option<Waiter>)
    requires LockInv(s) && At(s.semas, OfLock(l)).value > 0
    requires cur in s.pc && !s.pc[cur].LockSet? && !s.pc[cur].LockUp?
    requires r.holder == s.holder && r.inside == s.inside && r.owner == s.owner[l := cur]
    requires r.semas == TryTake(s, OfLock(l)).semas
    requires r.pc == s.pc[cur := LockSet(l, via)]
    ensures LockInv(r)
  {
    assert LockOk(s, l);
    forall m ensures LockOk(r, m) {
      assert LockOk(s, m);
    }
    forall t | t in r.pc ensures PcLock(r, t, r.pc[t]) {
      assert t in s.pc && PcLock(s, t, s.pc[t]);
    }
  }

  lemma HolderStored(s: State, l: LockId)
    requires LockInv(s) && s.k.cur in s.pc && s.pc[s.k.cur].LockSet? && s.pc[s.k.cur].l == l
    ensures LockInv(StoreHolder(s, l))
  {
    var r := StoreHolder(s, l);
    assert PcLock(s, s.k.cur, s.pc[s.k.cur]);
    forall m ensures LockOk(r, m) {
      assert LockOk(s, m);
    }
    forall t | t in r.pc ensures PcLock(r, t, r.pc[t]) {
      assert t in s.pc && PcLock(s, t, s.pc[t]);
      if t != s.k.cur { OneOwner(s, t, s.k.cur, l); }
    }
  }

  /** Two threads that both say they own `l` are the same thread. */
  lemma OneOwner(s: State, t: Tid, u: Tid, l: LockId)
    requires LockInv(s)
    requires t in s.pc && u in s.pc && Between(s.pc[u], l)
    ensures Between(s.pc[t], l) || HeldBy(s, t, l) ==> t == u
  {
    assert PcLock(s, u, s.pc[u]);
    assert PcLock(s, t, s.pc[t]);
    assert LockOk(s, l);
  }

  lemma HolderCleared(s: State, l: LockId, via: Option<Waiter>)
    requires LockInv(s) && s.k.cur in s.pc && HeldBy(s, s.k.cur, l)
    requires !s.pc[s.k.cur].LockSet? && !s.pc[s.k.cur].LockUp?
    ensures LockInv(ClearHolder(s, l, via))
  {
    var r := ClearHolder(s, l, via);
    assert LockOk(s, l);
    forall m ensures LockOk(r, m) {
      assert LockOk(s, m);
    }
    forall t | t in r.pc ensures PcLock(r, t, r.pc[t]) {
      assert t in s.pc ==> PcLock(s, t, s.pc[t]);
    }
  }

  lemma LockReleased(s: State, r: State, l: LockId, cur: Tid, x: Pc)
    requires LockInv(s) && cur in s.pc && s.pc[cur].LockUp? && s.pc[cur].l == l
    requires r.holder == s.holder && r.inside == s.inside && r.owner == s.owner - {l}
    requires forall m :: m != l ==> At(r.semas, OfLock(m)).value == At(s.semas, OfLock(m)).value
    requires At(r.semas, OfLock(l)).value == (At(s.semas, OfLock(l)).value + 1) % WORD
    requires r.pc == s.pc[cur := x] && !Between(x, l) && PcLock(s, cur, x)
    ensures LockInv(r)
  {
    assert PcLock(s, cur, s.pc[cur]);
    assert LockOk(s, l);
    forall m ensures LockOk(r, m) {
      assert LockOk(s, m);
    }
    forall t | t in r.pc ensures PcLock(r, t, r.pc[t]) {
      assert t in s.pc && PcLock(s, t, s.pc[t]);
      if t != cur { OneOwner(s, t, cur, l); }
    }
  }

  // ---- Events and locks --------------------------------------------------------------------------

  /** The semaphore the event works on, if its value can change. */
  lemma UpValues(s: State, id: SemaId)
    ensures forall j :: j != id ==> At(UpSection(s, id).semas, j) == At(s.semas, j)
    ensures At(UpSection(s, id).semas, id).value == (At(s.semas, id).value + 1) % WORD
    ensures UpSection(s, id).pc == s.pc && UpSection(s, id).k.cur == s.k.cur
    ensures UpSection(s, id) == s.(semas := UpSection(s, id).semas, k := UpSection(s, id).k)
  {
  }

  lemma DownSleepLock(s: State, id: SemaId)
    requires LockInv(s) && s.k.cur in s.pc && DownTarget(s.pc[s.k.cur]) == Some(id)
    ensures LockInv(DownSleep(s, id))
  {
    hide LockInv, Block;
    PcLockAt(s, s.k.cur);
    LockMove(s, DownSleep(s, id), s.k.cur, Asleep(s.pc[s.k.cur]));
  }

  lemma DownTakeLock(s: State, id: SemaId)
    requires LockInv(s) && s.k.cur in s.pc && DownTarget(s.pc[s.k.cur]) == Some(id) && At(s.semas, id).value > 0
    ensures LockInv(DownTake(s, id))
  {
    hide LockInv;
    var cur, r := s.k.cur, DownTake(s, id);
    PcLockAt(s, cur);
    if id.OfLock? {
      LockTaken(s, r, id.l, cur, s.pc[cur].via);
    } else {
      LockMove(s, r, cur, AfterDown(s.pc[cur]));
    }
  }

  lemma DownLock(s: State, id: SemaId)
    requires LockInv(s) && s.k.cur in s.pc && DownTarget(s.pc[s.k.cur]) == Some(id)
    ensures LockInv(DownStep(s, id))
  {
    hide LockInv, DownSleep, DownTake;
    if At(s.semas, id).value == 0 { DownSleepLock(s, id); } else { DownTakeLock(s, id); }
  }

  lemma PcLockAt(s: State, t: Tid)
    requires LockInv(s) && t in s.pc
    ensures PcLock(s, t, s.pc[t])
  {
  }

  lemma ReleaseLock(s: State, l: LockId, via: Option<Waiter>)
    requires LockInv(s) && s.k.cur in s.pc && s.pc[s.k.cur] == LockUp(l, via)
    ensures LockInv(ReleaseUp(s, l, via))
  {
    hide LockInv, UpSection;
    UpValues(s, OfLock(l));
    PcLockAt(s, s.k.cur);
    LockReleased(s, ReleaseUp(s, l, via), l, s.k.cur, if via.None? then User else CondDown(l, via.value, false));
  }

  lemma SignalLock(s: State, c: Cond, w: Waiter, all: bool)
    requires LockInv(s) && s.k.cur in s.pc && s.pc[s.k.cur] == CondUp(c, w, all)
    ensures LockInv(SignalUp(s, c, w, all))
  {
    hide LockInv, UpSection;
    UpValues(s, OfWaiter(w));
    PcLockAt(s, s.k.cur);
    LockFrame(s, SignalUp(s, c, w, all));
  }

  lemma PopLock(s: State, c: Cond, all: bool)
    requires LockInv(s) && s.k.cur in s.pc && HeldBy(s, s.k.cur, c.lock)
    requires s.pc[s.k.cur] == User || s.pc[s.k.cur].CondPop?
    ensures LockInv(PopWaiter(s, c, all))
  {
    hide LockInv;
    LockFrame(s, PopWaiter(s, c, all));
  }

  lemma BootLock(s: State)
    requires LockInv(s) && s.k.cur in s.pc && s.pc[s.k.cur] in {BootIdle, BootUp, Idling}
    ensures LockInv(ContinueStep(s))
  {
    hide LockInv, UpSection, Block;
    UpValues(s, IDLE_STARTED);
    var r := ContinueStep(s);
    LockMove(s, r, s.k.cur, r.pc[s.k.cur]);
  }

  lemma ContinueLock(s: State)
    requires LockInv(s) && s.k.cur in s.pc
    ensures LockInv(ContinueStep(s))
  {
    hide LockInv, DownStep, UpSection, Block, ReleaseUp, SignalUp, StoreHolder, ClearHolder, PopWaiter, Unblock, At;
    PcLockAt(s, s.k.cur);
    match s.pc[s.k.cur]
    case User =>
    case SemaDown(p, start, _) => DownLock(s, Plain(p, start));
    case LockDown(l, _, _) => DownLock(s, OfLock(l));
    case CondDown(_, w, _) => DownLock(s, OfWaiter(w));
    case LockSet(l, _) => HolderStored(s, l);
    case LockClear(l, w) => HolderCleared(s, l, Some(w));
    case LockUp(l, via) => ReleaseLock(s, l, via);
    case CondUp(c, w, all) => SignalLock(s, c, w, all);
    case CondPop(c) => PopLock(s, c, true);
    case Spawned(n) => LockMove(s, ContinueStep(s), s.k.cur, User);
    case BootIdle => BootLock(s);
    case BootUp => BootLock(s);
    case Idling => BootLock(s);
  }

  lemma TryAcquireLock(s: State, l: LockId)
    requires LockInv(s) && Enabled(s, TryAcquire(l))
    ensures LockInv(Next(s, TryAcquire(l)))
  {
    hide LockInv;
    if At(s.semas, OfLock(l)).value > 0 {
      LockTaken(s, Next(s, TryAcquire(l)), l, s.k.cur, None);
    }
  }

  lemma PlainLock(s: State, e: Event)
    requires LockInv(s) && Enabled(s, e)
    requires e.HandlerUp? || e.Up? || e.HandlerTryDown? || e.TryDown? || e.Down?
    ensures LockInv(Next(s, e))
  {
    hide LockInv, UpSection;
    UpValues(s, Plain(e.p, e.start));
    if e.Down? {
      LockMove(s, Next(s, e), s.k.cur, SemaDown(e.p, e.start, false));
    } else {
      LockSame(s, Next(s, e));
    }
  }

  lemma ThreadLock(s: State, e: Event)
    requires LockInv(s) && Enabled(s, e) && (e == Create || e == ExitNow)
    requires e == Create ==> s.k.nextTid !in s.pc
    ensures LockInv(Next(s, e))
  {
    hide LockInv, Exit, Spawn;
    LockFrame(s, Next(s, e));
  }

  /** The lock invariant is kept by every event. */
  lemma StepLock(s: State, e: Event)
    requires LockInv(s) && Enabled(s, e)
    requires e == Create ==> s.k.nextTid !in s.pc
    ensures LockInv(Next(s, e))
  {
    hide LockInv, ContinueStep, UpSection, Exit, Yield, Tick, Spawn, PopWaiter, ClearHolder, TryTake, At;
    match e
    case Timer => LockSame(s, Next(s, e));
    case HandlerUp(p, start) => PlainLock(s, e);
    case HandlerTryDown(p, start) => PlainLock(s, e);
    case Down(p, start) => PlainLock(s, e);
    case TryDown(p, start) => PlainLock(s, e);
    case Up(p, start) => PlainLock(s, e);
    case Acquire(l) => LockMove(s, Next(s, e), s.k.cur, LockDown(l, None, false));
    case TryAcquire(l) => TryAcquireLock(s, l);
    case Release(l) => HolderCleared(s, l, None);
    case CondWait(c) => LockMove(s, Next(s, e), s.k.cur, LockClear(c.lock, s.nextW));
    case Signal(c) => PopLock(s, c, false);
    case Broadcast(c) => PopLock(s, c, true);
    case Create => ThreadLock(s, e);
    case YieldNow => LockSame(s, Next(s, e));
    case ExitNow => ThreadLock(s, e);
    case Continue => ContinueLock(s);
  }
}
