/** Condition variables: the life of every cond_wait call. */
module SynchCond {
  import opened Basics
  import opened Scheduler
  import opened Synch
  import opened SynchLock
  import opened SynchWait

  /** The cond_wait call a thread is in, as long as it has not been signalled and noticed it. */
  function InWait(pc: Pc): (r: Option<Waiter>) {
    match pc
    case LockClear(_, w) => Some(w)
    case LockUp(_, via) => via
    case CondDown(_, w, _) => Some(w)
    case _ => None
  }

  function Lock(pc: Pc): (l: LockId)
    requires InWait(pc).Some?
  {
    match pc
    case LockClear(l, _) => l
    case LockUp(l, _) => l
    case CondDown(l, _, _) => l
  }

  ghost predicate WaitOk(s: State, w: Waiter) {
    && (w in s.waits <==> w < s.nextW)
    && At(s.semas, OfWaiter(w)).value == (if w in s.waits && s.waits[w].phase == Signalled then 1 else 0)
    && (w in s.waits ==>
         var x := s.waits[w];
         && (x.phase != Done ==> x.thread in s.pc && InWait(s.pc[x.thread]) == Some(w))
         && (x.phase.Popped? ==> x.phase.popper in s.pc && s.pc[x.phase.popper].CondUp? && s.pc[x.phase.popper].w == w))
  }

  ghost predicate PcCond(s: State, t: Tid, pc: Pc) {
    && (InWait(pc).Some? ==>
         var w := InWait(pc).value;
         w in s.waits && s.waits[w].thread == t && s.waits[w].phase != Done && s.waits[w].cond.lock == Lock(pc))
    && (pc.CondUp? ==> pc.w in s.waits && s.waits[pc.w].cond == pc.c && s.waits[pc.w].phase == Popped(t))
    && ((pc.LockDown? || pc.LockSet?) && pc.via.Some? ==>
         var w := pc.via.value;
         w in s.waits && s.waits[w].thread == t && s.waits[w].phase == Done && s.waits[w].cond.lock == pc.l)
  }

  /** The list of a condition variable holds exactly the calls not yet signalled, oldest first. */
  ghost predicate QueueOk(s: State, c: Cond) {
    && (forall i, j :: 0 <= i < j < |Queue(s.conds, c)| ==> Queue(s.conds, c)[i] < Queue(s.conds, c)[j])
    && (forall w :: w in Queue(s.conds, c) <==> w in s.waits && s.waits[w].phase == Queued && s.waits[w].cond == c)
  }

  ghost predicate CondInv(s: State) {
    && (forall w :: WaitOk(s, w))
    && (forall t :: t in s.pc ==> PcCond(s, t, s.pc[t]))
    && (forall c :: QueueOk(s, c))
  }

  /** Nothing about the waiters changes; threads move only in ways their calls allow. */
  lemma CondFrame(s: State, r: State)
    requires CondInv(s)
    requires r.waits == s.waits && r.nextW == s.nextW && r.conds == s.conds
    requires forall w :: At(r.semas, OfWaiter(w)).value == At(s.semas, OfWaiter(w)).value
    requires forall t :: t in r.pc ==> (t in s.pc && r.pc[t] == s.pc[t]) || PcCond(s, t, r.pc[t])
    requires forall t :: t in s.pc && (InWait(s.pc[t]).Some? || s.pc[t].CondUp?) ==>
                           t in r.pc && InWait(r.pc[t]) == InWait(s.pc[t]) && (s.pc[t].CondUp? ==> r.pc[t] == s.pc[t])
    ensures CondInv(r)
  {
    forall w ensures WaitOk(r, w) { assert WaitOk(s, w); }
    forall t | t in r.pc ensures PcCond(r, t, r.pc[t]) { assert t in s.pc ==> PcCond(s, t, s.pc[t]); }
    forall c ensures QueueOk(r, c) { assert QueueOk(s, c); }
  }

  lemma CondSame(s: State, r: State)
    requires CondInv(s) && r.pc == s.pc
    requires r.waits == s.waits && r.nextW == s.nextW && r.conds == s.conds
    requires forall w :: At(r.semas, OfWaiter(w)).value == At(s.semas, OfWaiter(w)).value
    ensures CondInv(r)
  {
    hide CondInv;
    CondFrame(s, r);
  }

  lemma CondMove(s: State, r: State, cur: Tid, x: Pc)
    requires CondInv(s) && cur in s.pc && r.pc == s.pc[cur := x]
    requires r.waits == s.waits && r.nextW == s.nextW && r.conds == s.conds
    requires forall w :: At(r.semas, OfWaiter(w)).value == At(s.semas, OfWaiter(w)).value
    requires !s.pc[cur].CondUp? && InWait(x) == InWait(s.pc[cur]) && PcCond(s, cur, x)
    ensures CondInv(r)
  {
    hide CondInv, PcCond;
    CondFrame(s, r);
  }

  lemma PcCondAt(s: State, t: Tid)
    requires CondInv(s) && t in s.pc
    ensures PcCond(s, t, s.pc[t])
  {
  }

  // ---- cond_wait queues its waiter -----------------------------------------------------------------

  lemma PushQueue(s: State, c: Cond, d: Cond)
    requires CondInv(s)
    ensures QueueOk(PushWaiter(s, c), d)
  {
    var r, w := PushWaiter(s, c), s.nextW;
    assert QueueOk(s, d) && WaitOk(s, w);
    var q, q' := Queue(s.conds, d), Queue(r.conds, d);
    forall v | v in q ensures v < w { assert WaitOk(s, v); }
    assert q' == if d == c then q + [w] else q;
    forall i, j | 0 <= i < j < |q'| ensures q'[i] < q'[j] {
      assert q[i] in q;
    }
  }

  lemma Pushed(s: State, c: Cond)
    requires CondInv(s) && s.k.cur in s.pc && s.pc[s.k.cur] == User
    ensures CondInv(PushWaiter(s, c))
  {
    var r := PushWaiter(s, c);
    assert WaitOk(s, s.nextW);
    forall w ensures WaitOk(r, w) { assert WaitOk(s, w); }
    forall t | t in r.pc ensures PcCond(r, t, r.pc[t]) { assert t in s.pc && PcCond(s, t, s.pc[t]); }
    forall d ensures QueueOk(r, d) { PushQueue(s, c, d); }
  }

  // ---- cond_signal takes the first one off the list -----------------------------------------------------

  lemma PopQueue(s: State, c: Cond, all: bool, d: Cond)
    requires CondInv(s)
    ensures QueueOk(PopWaiter(s, c, all), d)
  {
    assert QueueOk(s, d) && QueueOk(s, c);
    var q := Queue(s.conds, c);
    if q != [] {
      assert q[0] in q;
      TailOfNoDup(q);
    }
  }

  lemma Popped1(s: State, c: Cond, all: bool)
    requires CondInv(s) && s.k.cur in s.pc && (s.pc[s.k.cur] == User || s.pc[s.k.cur].CondPop?)
    ensures CondInv(PopWaiter(s, c, all))
  {
    var r := PopWaiter(s, c, all);
    var q := Queue(s.conds, c);
    assert QueueOk(s, c);
    if q == [] {
      CondMove(s, r, s.k.cur, User);
    } else {
      assert q[0] in q;
      PoppedRest(s, r, c, q[0], all);
      forall d ensures QueueOk(r, d) { PopQueue(s, c, all, d); }
    }
  }

  lemma PoppedRest(s: State, r: State, c: Cond, w: Waiter, all: bool)
    requires CondInv(s) && s.k.cur in s.pc && (s.pc[s.k.cur] == User || s.pc[s.k.cur].CondPop?)
    requires w in s.waits && s.waits[w].phase == Queued && s.waits[w].cond == c
    requires r.semas == s.semas && r.nextW == s.nextW && r.pc == s.pc[s.k.cur := CondUp(c, w, all)]
    requires r.waits == s.waits[w := s.waits[w].(phase := Popped(s.k.cur))]
    ensures forall v :: WaitOk(r, v)
    ensures forall t :: t in r.pc ==> PcCond(r, t, r.pc[t])
  {
    forall v ensures WaitOk(r, v) { assert WaitOk(s, v); }
    forall t | t in r.pc ensures PcCond(r, t, r.pc[t]) { assert t in s.pc && PcCond(s, t, s.pc[t]); }
  }

  // ---- cond_signal raises the private semaphore -----------------------------------------------------------

  /** One waiter goes from one phase to a later one that is not `Queued`; the lists do not notice. */
  lemma PhaseQueues(s: State, r: State, w: Waiter, p: Phase)
    requires CondInv(s) && w in s.waits && s.waits[w].phase != Queued && p != Queued
    requires r.conds == s.conds && r.waits == s.waits[w := s.waits[w].(phase := p)]
    ensures forall c :: QueueOk(r, c)
  {
    forall c ensures QueueOk(r, c) { assert QueueOk(s, c); }
  }

  lemma Signalled1(s: State, r: State, c: Cond, w: Waiter, all: bool, x: Pc)
    requires CondInv(s) && s.k.cur in s.pc && s.pc[s.k.cur] == CondUp(c, w, all)
    requires r.conds == s.conds && r.nextW == s.nextW && w in s.waits
    requires r.waits == s.waits[w := s.waits[w].(phase := Signalled)]
    requires r.pc == s.pc[s.k.cur := x] && (x == User || x.CondPop?)
    requires forall v :: v != w ==> At(r.semas, OfWaiter(v)).value == At(s.semas, OfWaiter(v)).value
    requires At(r.semas, OfWaiter(w)).value == (At(s.semas, OfWaiter(w)).value + 1) % WORD
    ensures CondInv(r)
  {
    PcCondAt(s, s.k.cur);
    PhaseQueues(s, r, w, Signalled);
    forall v ensures WaitOk(r, v) { assert WaitOk(s, v); }
    forall t | t in r.pc ensures PcCond(r, t, r.pc[t]) { assert t in s.pc && PcCond(s, t, s.pc[t]); }
  }

  // ---- cond_wait notices ---------------------------------------------------------------------------------

  lemma Noticed(s: State, w: Waiter)
    requires CondInv(s) && s.k.cur in s.pc && s.pc[s.k.cur].CondDown? && s.pc[s.k.cur].w == w
    requires At(s.semas, OfWaiter(w)).value > 0
    ensures CondInv(DownTake(s, OfWaiter(w)))
  {
    var r := DownTake(s, OfWaiter(w));
    PcCondAt(s, s.k.cur);
    assert WaitOk(s, w);
    PhaseQueues(s, r, w, Done);
    forall v ensures WaitOk(r, v) { assert WaitOk(s, v); }
    forall t | t in r.pc ensures PcCond(r, t, r.pc[t]) { assert t in s.pc && PcCond(s, t, s.pc[t]); }
  }

  // ---- Events ----------------------------------------------------------------------------------------

  lemma DownSleepCond(s: State, id: SemaId)
    requires CondInv(s) && s.k.cur in s.pc && DownTarget(s.pc[s.k.cur]) == Some(id)
    ensures CondInv(DownSleep(s, id))
  {
    hide CondInv, Block;
    PcCondAt(s, s.k.cur);
    CondMove(s, DownSleep(s, id), s.k.cur, Asleep(s.pc[s.k.cur]));
  }

  lemma DownTakeCond(s: State, id: SemaId)
    requires CondInv(s) && s.k.cur in s.pc && DownTarget(s.pc[s.k.cur]) == Some(id) && At(s.semas, id).value > 0
    ensures CondInv(DownTake(s, id))
  {
    hide CondInv;
    PcCondAt(s, s.k.cur);
    if id.OfWaiter? {
      Noticed(s, id.w);
    } else {
      CondMove(s, DownTake(s, id), s.k.cur, AfterDown(s.pc[s.k.cur]));
    }
  }

  lemma DownCond(s: State, id: SemaId)
    requires CondInv(s) && s.k.cur in s.pc && DownTarget(s.pc[s.k.cur]) == Some(id)
    ensures CondInv(DownStep(s, id))
  {
    hide CondInv, DownSleep, DownTake;
    if At(s.semas, id).value == 0 { DownSleepCond(s, id); } else { DownTakeCond(s, id); }
  }

  lemma ReleaseCond(s: State, l: LockId, via: Option<Waiter>)
    requires CondInv(s) && s.k.cur in s.pc && s.pc[s.k.cur] == LockUp(l, via)
    ensures CondInv(ReleaseUp(s, l, via))
  {
    hide CondInv, UpSection;
    UpValues(s, OfLock(l));
    PcCondAt(s, s.k.cur);
    CondMove(s, ReleaseUp(s, l, via), s.k.cur, if via.None? then User else CondDown(l, via.value, false));
  }

  lemma SignalCond(s: State, c: Cond, w: Waiter, all: bool)
    requires CondInv(s) && s.k.cur in s.pc && s.pc[s.k.cur] == CondUp(c, w, all)
    ensures CondInv(SignalUp(s, c, w, all))
  {
    hide CondInv, UpSection;
    UpValues(s, OfWaiter(w));
    PcCondAt(s, s.k.cur);
    var x := if all then CondPop(c) else User;
    Signalled1(s, SignalUp(s, c, w, all), c, w, all, x);
  }

  lemma BootCond(s: State)
    requires CondInv(s) && s.k.cur in s.pc && s.pc[s.k.cur] in {BootIdle, BootUp, Idling}
    ensures CondInv(ContinueStep(s))
  {
    hide CondInv, UpSection, Block;
    UpValues(s, IDLE_STARTED);
    var r := ContinueStep(s);
    CondMove(s, r, s.k.cur, r.pc[s.k.cur]);
  }

  lemma MoveCond(s: State)
    requires CondInv(s) && s.k.cur in s.pc
    requires s.pc[s.k.cur].LockSet? || s.pc[s.k.cur].LockClear? || s.pc[s.k.cur].Spawned?
    ensures CondInv(ContinueStep(s))
  {
    hide CondInv, Unblock;
    PcCondAt(s, s.k.cur);
    var r := ContinueStep(s);
    CondMove(s, r, s.k.cur, r.pc[s.k.cur]);
  }

  lemma ContinueCond(s: State)
    requires CondInv(s) && s.k.cur in s.pc
    ensures CondInv(ContinueStep(s))
  {
    hide CondInv, DownStep, UpSection, Block, ReleaseUp, SignalUp, StoreHolder, ClearHolder, PopWaiter, Unblock, At;
    match s.pc[s.k.cur]
    case User =>
    case SemaDown(p, start, _) => DownCond(s, Plain(p, start));
    case LockDown(l, _, _) => DownCond(s, OfLock(l));
    case CondDown(_, w, _) => DownCond(s, OfWaiter(w));
    case LockSet(l, _) => MoveCond(s);
    case LockClear(l, w) => MoveCond(s);
    case LockUp(l, via) => ReleaseCond(s, l, via);
    case CondUp(c, w, all) => SignalCond(s, c, w, all);
    case CondPop(c) => Popped1(s, c, true);
    case Spawned(n) => MoveCond(s);
    case BootIdle => BootCond(s);
    case BootUp => BootCond(s);
    case Idling => BootCond(s);
  }

  lemma PlainCond(s: State, e: Event)
    requires CondInv(s) && Enabled(s, e)
    requires e.HandlerUp? || e.Up? || e.HandlerTryDown? || e.TryDown? || e.Down?
    ensures CondInv(Next(s, e))
  {
    hide CondInv, UpSection;
    UpValues(s, Plain(e.p, e.start));
    if e.Down? {
      CondMove(s, Next(s, e), s.k.cur, SemaDown(e.p, e.start, false));
    } else {
      CondSame(s, Next(s, e));
    }
  }

  lemma LockCond(s: State, e: Event)
    requires CondInv(s) && Enabled(s, e) && (e.Acquire? || e.TryAcquire? || e.Release?)
    ensures CondInv(Next(s, e))
  {
    hide CondInv;
    var r := Next(s, e);
    CondMove(s, r, s.k.cur, r.pc[s.k.cur]);
  }

  lemma ThreadCond(s: State, e: Event)
    requires CondInv(s) && Enabled(s, e) && (e == Create || e == ExitNow)
    requires e == Create ==> s.k.nextTid !in s.pc
    ensures CondInv(Next(s, e))
  {
    hide CondInv, Exit, Spawn;
    CondFrame(s, Next(s, e));
  }

  /** The condition-variable invariant is kept by every event. */
  lemma StepCond(s: State, e: Event)
    requires CondInv(s) && Enabled(s, e)
    requires e == Create ==> s.k.nextTid !in s.pc
    ensures CondInv(Next(s, e))
  {
    hide CondInv, ContinueStep, UpSection, Exit, Yield, Tick, Spawn, PopWaiter, PushWaiter, ClearHolder, TryTake, At;
    match e
    case Timer => CondSame(s, Next(s, e));
    case HandlerUp(p, start) => PlainCond(s, e);
    case HandlerTryDown(p, start) => PlainCond(s, e);
    case Down(p, start) => PlainCond(s, e);
    case TryDown(p, start) => PlainCond(s, e);
    case Up(p, start) => PlainCond(s, e);
    case Acquire(l) => LockCond(s, e);
    case TryAcquire(l) => LockCond(s, e);
    case Release(l) => LockCond(s, e);
    case CondWait(c) => Pushed(s, c);
    case Signal(c) => Popped1(s, c, false);
    case Broadcast(c) => Popped1(s, c, true);
    case Create => ThreadCond(s, e);
    case YieldNow => CondSame(s, Next(s, e));
    case ExitNow => ThreadCond(s, e);
    case Continue => ContinueCond(s);
  }
}
