/** What the calls of threads/synch.c, and thread_create, have done when they return, over all runs. */
module SynchCalls {
  import opened Basics
  import opened Scheduler
  import opened Synch
  import opened SynchBroadcast
  import opened SynchCond
  import opened SynchLock
  import opened SynchRuns
  import opened SynchSteps
  import opened SynchWait

  /** The calls that can take more than one step; cond_signal and cond_broadcast have a module of their own. */
  predicate IsCall(e: Event) {
    e.Down? || e.Acquire? || e.TryAcquire? || e.Release? || e.CondWait? || e.Create?
  }

  /** What the call makes: the number of its waiter, or of the new thread. */
  function Made(s: State, e: Event): (n: nat) {
    if e.Create? then s.k.nextTid else s.nextW
  }

  /** Where a thread can be while it is inside the call. */
  predicate InCall(e: Event, n: nat, pc: Pc) {
    match e
    case Down(p, start) => pc.SemaDown? && pc.p == p && pc.start == start
    case Acquire(l) => (pc.LockDown? && pc.l == l && pc.via == None) || pc == LockSet(l, None)
    case TryAcquire(l) => pc == LockSet(l, None)
    case Release(l) => pc == LockUp(l, None)
    case CondWait(c) =>
      || pc == LockClear(c.lock, n) || pc == LockUp(c.lock, Some(n)) || (pc.CondDown? && pc.l == c.lock && pc.w == n)
      || (pc.LockDown? && pc.l == c.lock && pc.via == Some(n)) || pc == LockSet(c.lock, Some(n))
    case Create => pc == Spawned(n)
    case _ => false
  }

  ghost predicate Calling(s: State, t: Tid, e: Event, n: nat) {
    && t in s.pc && InCall(e, n, s.pc[t])
    && (e.CondWait? ==> n in s.waits && s.waits[n].thread == t && s.waits[n].cond == e.c)
  }

  /** The lock is the thread's, and nobody else can take it. */
  ghost predicate HoldsLock(s: State, t: Tid, l: LockId) {
    HeldBy(s, t, l) && (t, l) in s.inside && At(s.semas, OfLock(l)).value == 0
  }

  /** What is true when the call has returned; `s` is the state before its last step. sema_down has taken a unit that
      was there; lock_acquire has the lock; after lock_release it is free; cond_wait has been signalled, on that very
      condition variable, and has the lock again; thread_create's new thread is on the run queue. */
  ghost predicate Completed(s: State, r: State, t: Tid, e: Event, n: nat) {
    t in r.pc && r.pc[t] == User &&
    match e
    case Down(p, start) =>
      var a, b := At(s.semas, Plain(p, start)), At(r.semas, Plain(p, start));
      a.value > 0 && b.value == a.value - 1 && b.downs == a.downs + 1
    case Acquire(l) => HoldsLock(r, t, l)
    case TryAcquire(l) => HoldsLock(r, t, l)
    case Release(l) => l !in r.holder && (t, l) !in r.inside && At(r.semas, OfLock(l)).value == 1
    case CondWait(c) => HoldsLock(r, t, c.lock) && n in r.waits && r.waits[n] == Wait(t, c, Done)
    case Create => n in r.k.status && r.k.status[n] == Ready && n in r.k.ready
    case _ => true
  }

  /** A lock is free when nobody holds it, is about to, or is giving it up. */
  ghost predicate IsFree(s: State, l: LockId) {
    l !in s.holder && forall t :: t in s.pc ==> !Between(s.pc[t], l)
  }

  // ---- The first step -----------------------------------------------------------------------------------------------

  lemma CallStart(s: State, e: Event)
    requires Inv(s) && IsCall(e) && Enabled(s, e)
    ensures var r := Next(s, e);
            Calling(r, s.k.cur, e, Made(s, e)) || (e.TryAcquire? && !IsFree(s, e.l) && r == s)
  {
    hide Good, LockInv, CondInv, Spawn, Queue, Take;
    FreshTid(s);
    if e.TryAcquire? { FreeMeans(s, e.l); }
  }

  lemma FreeMeans(s: State, l: LockId)
    requires Inv(s)
    ensures At(s.semas, OfLock(l)).value > 0 <==> IsFree(s, l)
  {
    hide Good, CondInv;
    assert LockOk(s, l);
    forall t | t in s.pc && Between(s.pc[t], l) ensures At(s.semas, OfLock(l)).value == 0 {
      assert PcLock(s, t, s.pc[t]);
    }
  }

  // ---- The caller's own steps ---------------------------------------------------------------------------------------

  lemma DownOwn(s: State, e: Event, n: nat)
    requires Inv(s) && e.Down? && s.k.cur in s.pc && Calling(s, s.k.cur, e, n)
    ensures var r := ContinueStep(s); Calling(r, s.k.cur, e, n) || Completed(s, r, s.k.cur, e, n)
  {
    hide Good, LockInv, CondInv, Block;
  }

  lemma StoreOwn(s: State, l: LockId, via: Option<Waiter>)
    requires Inv(s) && s.k.cur in s.pc && s.pc[s.k.cur] == LockSet(l, via)
    ensures var r := ContinueStep(s); r.pc[s.k.cur] == User && HoldsLock(r, s.k.cur, l) && r.waits == s.waits
  {
    hide Good, CondInv;
    assert LockOk(s, l) && PcLock(s, s.k.cur, s.pc[s.k.cur]);
  }

  lemma AcquireOwn(s: State, e: Event, n: nat)
    requires Inv(s) && (e.Acquire? || e.TryAcquire?) && s.k.cur in s.pc && Calling(s, s.k.cur, e, n)
    ensures var r := ContinueStep(s); Calling(r, s.k.cur, e, n) || Completed(s, r, s.k.cur, e, n)
  {
    hide Good, LockInv, CondInv, Block, Take, Enqueue, HoldsLock;
    if s.pc[s.k.cur].LockSet? { StoreOwn(s, e.l, None); }
  }

  lemma ReleaseOwn(s: State, e: Event, n: nat)
    requires Inv(s) && e.Release? && s.k.cur in s.pc && Calling(s, s.k.cur, e, n)
    ensures var r := ContinueStep(s); Completed(s, r, s.k.cur, e, n)
  {
    hide Good, CondInv, WakeFirst;
    assert LockOk(s, e.l) && PcLock(s, s.k.cur, s.pc[s.k.cur]);
  }

  lemma CondOwn(s: State, e: Event, n: nat)
    requires Inv(s) && e.CondWait? && s.k.cur in s.pc && Calling(s, s.k.cur, e, n)
    ensures var r := ContinueStep(s); Calling(r, s.k.cur, e, n) || Completed(s, r, s.k.cur, e, n)
  {
    hide Good, LockInv, CondInv, Block, Take, Enqueue, HoldsLock, Raise, WakeFirst, WaitsAdvance;
    InvParts(s);
    PcCondAt(s, s.k.cur);
    ContinueAdvances(s);
    Same(s, ContinueStep(s), n);
    if s.pc[s.k.cur].LockSet? { StoreOwn(s, e.c.lock, Some(n)); }
  }

  lemma Same(s: State, r: State, w: Waiter)
    requires WaitsAdvance(s, r) && w in s.waits
    ensures w in r.waits && r.waits[w].thread == s.waits[w].thread && r.waits[w].cond == s.waits[w].cond
  {
  }

  lemma CreateOwn(s: State, e: Event, n: nat)
    requires Inv(s) && e.Create? && s.k.cur in s.pc && Calling(s, s.k.cur, e, n)
    ensures var r := ContinueStep(s); Completed(s, r, s.k.cur, e, n)
  {
    hide LockInv, CondInv, SchedInv, ListInv, WakeInv, BootInv, CountInv;
    assert s.pc[s.k.cur].Spawned?;
  }

  /** Every event leaves the call where it is, or moves it on, or is its return. */
  lemma CallStep(s: State, f: Event, t: Tid, e: Event, n: nat)
    requires Inv(s) && IsCall(e) && Calling(s, t, e, n) && Enabled(s, f)
    ensures var r := Next(s, f); Calling(r, t, e, n) || Completed(s, r, t, e, n)
  {
    hide Inv, ContinueStep, Completed, WaitsAdvance;
    if s.k.cur == t && f == Continue {
      match e
      case Down(_, _) => DownOwn(s, e, n);
      case Acquire(_) => AcquireOwn(s, e, n);
      case TryAcquire(_) => AcquireOwn(s, e, n);
      case Release(_) => ReleaseOwn(s, e, n);
      case CondWait(_) => CondOwn(s, e, n);
      case Create => CreateOwn(s, e, n);
    } else {
      hide Next;
      OthersKeep(s, f, t);
      WaitLife(s, f);
      if e.CondWait? { Same(s, Next(s, f), n); }
    }
  }

  // ---- Over runs ----------------------------------------------------------------------------------------------------

  lemma {:induction false} StillCalling(s: State, es: seq<Event>, t: Tid, e: Event, n: nat)
    requires Inv(s) && IsCall(e) && Calling(s, t, e, n) && Legal(s, es) && Busy(s, es, t)
    ensures Inv(After(s, es)) && Calling(After(s, es), t, e, n)
    decreases |es|
  {
    hide Inv, Next, Enabled, Calling;
    if es != [] {
      CallStep(s, es[0], t, e, n);
      StepInv(s, es[0]);
      NotCompleted(s, Next(s, es[0]), es[1..], t, e, n);
      StillCalling(Next(s, es[0]), es[1..], t, e, n);
    }
  }

  lemma NotCompleted(s: State, r: State, es: seq<Event>, t: Tid, e: Event, n: nat)
    requires Legal(r, es) && Busy(r, es, t)
    ensures !Completed(s, r, t, e, n)
  {
  }

  /** Every call, in any run, whatever the other threads do: when it returns, it has done what it is for. */
  lemma CallReturns(s: State, e: Event, es: seq<Event>, f: Event)
    requires Reachable(s) && IsCall(e) && Enabled(s, e) && Legal(Next(s, e), es)
    requires Busy(Next(s, e), es, s.k.cur) && Enabled(After(Next(s, e), es), f)
    ensures var r := After(Next(s, e), es);
            s.k.cur in Next(r, f).pc && Next(r, f).pc[s.k.cur] == User ==>
              Completed(r, Next(r, f), s.k.cur, e, Made(s, e))
  {
    hide Inv, Next, Enabled, Completed;
    ReachableInv(s);
    CallStart(s, e);
    StepInv(s, e);
    var t, n, r := s.k.cur, Made(s, e), Next(s, e);
    BusyNow(s, e, es);
    StillCalling(r, es, t, e, n);
    CallStep(After(r, es), f, t, e, n);
    NotUser(Next(After(r, es), f), t, e, n);
  }

  lemma BusyNow(s: State, e: Event, es: seq<Event>)
    requires Enabled(s, e) && IsCall(e) && Legal(Next(s, e), es) && Busy(Next(s, e), es, s.k.cur)
    ensures Next(s, e) != s
  {
    hide Next;
  }

  lemma NotUser(s: State, t: Tid, e: Event, n: nat)
    ensures Calling(s, t, e, n) ==> s.pc[t] != User
  {
  }

  /** lock_try_acquire returns at once, with nothing changed, exactly if the lock is not free; otherwise it goes on to
      take it. */
  lemma TryAcquireExact(s: State, l: LockId)
    requires Reachable(s) && Enabled(s, TryAcquire(l))
    ensures var r := Next(s, TryAcquire(l));
            && (r == s <==> !IsFree(s, l))
            && (IsFree(s, l) ==> r.pc[s.k.cur] == LockSet(l, None) && l in r.owner && r.owner[l] == s.k.cur)
  {
    hide Inv, Take;
    ReachableInv(s);
    FreeMeans(s, l);
  }

  /** No call returns before it has taken a step of its own, but lock_try_acquire of a lock that is not free. */
  lemma CallBegins(s: State, e: Event)
    requires Reachable(s) && IsCall(e) && Enabled(s, e)
    ensures var r := Next(s, e);
            s.k.cur in r.pc && (r.pc[s.k.cur] == User <==> e.TryAcquire? && !IsFree(s, e.l))
  {
    hide Inv, IsFree;
    ReachableInv(s);
    CallStart(s, e);
    NotUser(Next(s, e), s.k.cur, e, Made(s, e));
    if e.TryAcquire? { FreeMeans(s, e.l); }
  }

  // ---- Wait lists are first in, first out --------------------------------------------------------------------------

  /** What an event may do to a semaphore's wait list: the running thread joins at the back, or sema_up takes off the
      first, who is then on the run queue. */
  ghost predicate ListMoves(s: State, r: State, id: SemaId) {
    var a, b := At(s.semas, id), At(r.semas, id);
    || (b.ups == a.ups && (b.waiters == a.waiters || b.waiters == a.waiters + [s.k.cur]))
    || (b.ups == a.ups + 1 && a.waiters == [] == b.waiters)
    || (b.ups == a.ups + 1 && a.waiters != [] && b.waiters == a.waiters[1..] && OnQueue(r.k, a.waiters[0]))
  }

  predicate OnQueue(k: Sched, t: Tid) {
    t in k.status && k.status[t] == Ready && t in k.ready
  }

  lemma UpMoves(s: State, r: State, d: SemaId, id: SemaId)
    requires Inv(s) && r.semas == UpSection(s, d).semas && r.k == UpSection(s, d).k
    ensures ListMoves(s, r, id)
  {
    hide LockInv, CondInv, SchedInv, BootInv, SpawnedInv, WakeInv, CountInv;
    assert ListOk(s, d);
    var q := At(s.semas, d).waiters;
    if q != [] { assert q[0] in q; }
  }

  lemma DownMoves(s: State, d: SemaId, id: SemaId)
    requires s.k.cur in s.pc
    ensures ListMoves(s, DownStep(s, d), id)
  {
    hide Block, Asleep, AfterDown, OnQueue;
  }

  lemma SameSemas(s: State, r: State, id: SemaId)
    requires r.semas == s.semas
    ensures ListMoves(s, r, id)
  {
    hide OnQueue;
  }

  lemma TakenMoves(s: State, r: State, d: SemaId, id: SemaId)
    requires At(s.semas, d).value > 0 && r.semas == TryTake(s, d).semas
    ensures ListMoves(s, r, id)
  {
    hide OnQueue;
  }

  lemma ContinueMoves(s: State, id: SemaId)
    requires Inv(s) && s.k.cur in s.pc
    ensures ListMoves(s, ContinueStep(s), id)
  {
    hide Inv, DownStep, Raise, WakeFirst, Block, Unblock, ListMoves, SetIdle, Queue;
    match s.pc[s.k.cur]
    case SemaDown(p, start, _) => DownMoves(s, Plain(p, start), id);
    case LockDown(l, _, _) => DownMoves(s, OfLock(l), id);
    case CondDown(_, w, _) => DownMoves(s, OfWaiter(w), id);
    case LockUp(l, via) => UpMoves(s, ReleaseUp(s, l, via), OfLock(l), id);
    case CondUp(c, w, all) => UpMoves(s, SignalUp(s, c, w, all), OfWaiter(w), id);
    case BootUp => UpMoves(s, ContinueStep(s), IDLE_STARTED, id);
    case _ => SameSemas(s, ContinueStep(s), id);
  }

  lemma EventMoves(s: State, e: Event, id: SemaId)
    requires Inv(s) && Enabled(s, e)
    ensures ListMoves(s, Next(s, e), id)
  {
    hide Inv, ContinueStep, Raise, WakeFirst, Tick, Yield, Exit, Spawn, ListMoves, Queue, Take;
    match e
    case HandlerUp(p, start) => UpMoves(s, Next(s, e), Plain(p, start), id);
    case Up(p, start) => UpMoves(s, Next(s, e), Plain(p, start), id);
    case HandlerTryDown(p, start) =>
      SameSemas(s, s, id);
      if At(s.semas, Plain(p, start)).value > 0 { TakenMoves(s, Next(s, e), Plain(p, start), id); }
    case TryDown(p, start) =>
      SameSemas(s, s, id);
      if At(s.semas, Plain(p, start)).value > 0 { TakenMoves(s, Next(s, e), Plain(p, start), id); }
    case TryAcquire(l) =>
      SameSemas(s, s, id);
      if At(s.semas, OfLock(l)).value > 0 { TakenMoves(s, Next(s, e), OfLock(l), id); }
    case Continue => ContinueMoves(s, id);
    case _ => SameSemas(s, Next(s, e), id);
  }

  /** The thread at position `i` of a semaphore's wait list is woken by exactly the (i+1)-th later sema_up; until then
      it only moves forward. So waiters of semaphores and locks are served in the order in which they came. */
  lemma {:induction false} FirstComeFirstServed(s: State, es: seq<Event>, id: SemaId, i: nat)
    requires Inv(s) && Legal(s, es) && i < |At(s.semas, id).waiters|
    ensures var a, b := At(s.semas, id), At(After(s, es).semas, id);
            var d := b.ups - a.ups;
            d >= 0 && (d <= i ==> i - d < |b.waiters| && b.waiters[i - d] == a.waiters[i])
    decreases |es|
  {
    hide Inv, Next, Enabled, OnQueue;
    if es != [] {
      var r := Next(s, es[0]);
      EventMoves(s, es[0], id);
      StepInv(s, es[0]);
      var a, b := At(s.semas, id), At(r.semas, id);
      if b.ups == a.ups {
        FirstComeFirstServed(r, es[1..], id, i);
      } else if i > 0 {
        FirstComeFirstServed(r, es[1..], id, i - 1);
      } else {
        UpsGrow(r, es[1..], id);
      }
    }
  }

  lemma {:induction false} UpsGrow(s: State, es: seq<Event>, id: SemaId)
    requires Inv(s) && Legal(s, es)
    ensures At(s.semas, id).ups <= At(After(s, es).semas, id).ups
    decreases |es|
  {
    hide Inv, Next, Enabled, OnQueue;
    if es != [] {
      EventMoves(s, es[0], id);
      StepInv(s, es[0]);
      UpsGrow(Next(s, es[0]), es[1..], id);
    }
  }

  /** sema_up, by a thread or a handler: one unit more, and the first waiter, if any, is on the run queue and off the
      list. */
  lemma UpWakesFirst(s: State, p: nat, start: nat, e: Event)
    requires Reachable(s) && Enabled(s, e) && (e == Up(p, start) || e == HandlerUp(p, start))
    ensures var a, b, r := At(s.semas, Plain(p, start)), At(Next(s, e).semas, Plain(p, start)), Next(s, e);
            && b.ups == a.ups + 1 && b.downs == a.downs && b.value == (a.value + 1) % WORD
            && (a.waiters == [] ==> r.k == s.k && b.waiters == [])
            && (a.waiters != [] ==>
                 b.waiters == a.waiters[1..] && OnQueue(r.k, a.waiters[0])
                 && r.k.ready == s.k.ready + [a.waiters[0]])
  {
    hide Inv, WakeFirst, OnQueue;
    ReachableInv(s);
    WakesAtBack(s, Plain(p, start));
  }

  lemma WakesAtBack(s: State, id: SemaId)
    requires Inv(s)
    ensures var m, k := At(s.semas, id), WakeFirst(s.k, At(s.semas, id));
            if m.waiters == [] then k == s.k else OnQueue(k, m.waiters[0]) && k.ready == s.k.ready + [m.waiters[0]]
  {
    hide LockInv, CondInv, SchedInv, BootInv, SpawnedInv, WakeInv, CountInv;
    assert ListOk(s, id);
    var q := At(s.semas, id).waiters;
    if q != [] { assert q[0] in q; }
  }

  /** sema_try_down, by a thread or a handler: takes a unit exactly if there is one, and never waits. */
  lemma TryDownExact(s: State, p: nat, start: nat, e: Event)
    requires Enabled(s, e) && (e == TryDown(p, start) || e == HandlerTryDown(p, start))
    ensures var a, b := At(s.semas, Plain(p, start)), At(Next(s, e).semas, Plain(p, start));
            && Next(s, e).k == s.k && Next(s, e).pc == s.pc && b.waiters == a.waiters && b.ups == a.ups
            && (if a.value > 0 then b.value == a.value - 1 && b.downs == a.downs + 1 else Next(s, e) == s)
  {
  }

  // ---- The scheduler's own calls ------------------------------------------------------------------------------------

  /** thread_yield: the front of the run queue runs, and the caller stands at its back; alone it goes on. */
  lemma YieldGivesWay(s: State)
    requires Reachable(s) && Enabled(s, YieldNow)
    ensures var r, q := Next(s, YieldNow), s.k.ready + [s.k.cur];
            && r.k.schedules == s.k.schedules + 1 && r.k.cur == q[0] && r.k.ready == q[1..]
            && (r.k.status[s.k.cur] == if s.k.ready == [] then Running else Ready)
  {
    hide LockInv, CondInv, ListInv, WakeInv, CountInv, SpawnedInv;
    ReachableInv(s);
    YieldInv(s.k);
    ScheduleEffect(Yielding(s.k));
    NextIsLive(Yielding(s.k));
  }

  /** thread_exit: the caller is gone, and its page given back once, unless it is the initial thread, whose page stays;
      the front of the run queue runs, or the idle thread. */
  lemma ExitLeaves(s: State)
    requires Reachable(s) && Enabled(s, ExitNow)
    ensures var r, t := Next(s, ExitNow), s.k.cur;
            && r.k.schedules == s.k.schedules + 1 && t !in r.k.ready && r.k.cur != t
            && (s.k.ready != [] ==> r.k.cur == s.k.ready[0]) && (s.k.ready == [] ==> s.k.idle == Some(r.k.cur))
            && (if t == s.k.initial then r.k.status[t] == Dying && r.k.freed == s.k.freed
                else t !in r.pc && t !in r.k.status && r.k.freed == s.k.freed + [t])
  {
    hide LockInv, CondInv, ListInv, WakeInv, CountInv, SpawnedInv;
    ReachableInv(s);
    assert s.pc[s.k.cur] == User;
    ExitInv(s.k);
    ScheduleEffect(SetStatus(s.k, s.k.cur, Dying));
    NextIsLive(SetStatus(s.k, s.k.cur, Dying));
  }

  /** The timer: one tick, and no change but in the scheduler. */
  lemma TimerTicks(s: State)
    requires Reachable(s)
    ensures Enabled(s, Timer) && Next(s, Timer).k.tickCount == s.k.tickCount + 1
    ensures Next(s, Timer).(k := s.k) == s
    ensures Next(s, Timer).k.schedules == s.k.schedules + if s.k.ticks == 3 then 1 else 0
  {
    hide LockInv, CondInv, ListInv, WakeInv, CountInv, SpawnedInv, Tick;
    ReachableInv(s);
    CurFacts(s);
    TickEffect(s.k);
  }

  /** The idle thread makes itself known first, then raises the semaphore that thread_start waits for... */
  lemma IdleStarts(s: State)
    requires Reachable(s) && s.k.cur in s.pc && s.pc[s.k.cur] in {BootIdle, BootUp}
    ensures var r, a, b := ContinueStep(s), At(s.semas, IDLE_STARTED), At(ContinueStep(s).semas, IDLE_STARTED);
            && s.k.cur == s.k.boot
            && (s.pc[s.k.cur] == BootIdle ==> r.k.idle == Some(s.k.cur) && r.pc[s.k.cur] == BootUp)
            && (s.pc[s.k.cur] == BootUp ==>
                 b.ups == a.ups + 1 && b.value == (a.value + 1) % WORD
                 && r.pc[s.k.cur] == Idling)
  {
    hide LockInv, CondInv, SchedInv, ListInv, WakeInv, CountInv, SpawnedInv, WakeFirst;
    ReachableInv(s);
  }

  /** ... and from then on gives way whenever it runs. */
  lemma IdleGivesWay(s: State)
    requires Reachable(s) && s.k.cur in s.pc && s.pc[s.k.cur] == Idling
    ensures var r := ContinueStep(s);
            r.pc == s.pc && r.k.schedules == s.k.schedules + 1 && (s.k.ready != [] ==> r.k.cur == s.k.ready[0])
  {
    hide LockInv, CondInv, SchedInv, ListInv, WakeInv, CountInv, SpawnedInv, Block;
    ReachableInv(s);
    IdleBlocks(s.k);
  }

  lemma IdleBlocks(k: Sched)
    requires SchedInv(k) && k.idle.Some?
    ensures Block(k).schedules == k.schedules + 1 && (k.ready != [] ==> Block(k).cur == k.ready[0])
  {
    BlockInv(k);
    ScheduleEffect(SetStatus(k, k.cur, Blocked));
    NextIsLive(SetStatus(k, k.cur, Blocked));
  }
}
