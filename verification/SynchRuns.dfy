/** What holds in every run of the machine, whatever the interleaving. */
module SynchRuns {
  import opened Basics
  import opened Scheduler
  import opened Synch
  import opened SynchCond
  import opened SynchLock
  import opened SynchSteps
  import opened SynchWait

  ghost predicate Inv(s: State) {
    Good(s) && LockInv(s) && CondInv(s)
  }

  /** The events of a run, in order, each allowed where it happens. */
  ghost predicate Legal(s: State, es: seq<Event>)
    decreases |es|
  {
    es == [] || (Enabled(s, es[0]) && Legal(Next(s, es[0]), es[1..]))
  }

  ghost function After(s: State, es: seq<Event>): (r: State)
    requires Legal(s, es)
    decreases |es|
  {
    if es == [] then s else After(Next(s, es[0]), es[1..])
  }

  ghost predicate Reachable(s: State) {
    exists es :: Legal(InitState(), es) && After(InitState(), es) == s
  }

  lemma StepInv(s: State, e: Event)
    requires Inv(s) && Enabled(s, e)
    ensures Inv(Next(s, e))
  {
    hide Good, LockInv, CondInv, Enabled, Next;
    FreshTid(s);
    StepGood(s, e);
    StepLock(s, e);
    StepCond(s, e);
  }

  lemma FreshTid(s: State)
    requires Good(s)
    ensures s.k.nextTid !in s.pc
  {
    hide SchedInv;
    CurFacts(s);
    NewTid(s.k);
  }

  lemma InitInv()
    ensures Inv(InitState())
  {
    InitGood();
    InitLock();
    InitCond();
  }

  lemma InitLock()
    ensures LockInv(InitState())
  {
  }

  lemma InitCond()
    ensures CondInv(InitState())
  {
  }

  lemma {:induction false} RunKeepsInv(s: State, es: seq<Event>)
    requires Inv(s) && Legal(s, es)
    ensures Inv(After(s, es))
    decreases |es|
  {
    hide Inv, Enabled, Next;
    if es != [] {
      StepInv(s, es[0]);
      RunKeepsInv(Next(s, es[0]), es[1..]);
    }
  }

  lemma ReachableInv(s: State)
    requires Reachable(s)
    ensures Inv(s)
  {
    hide Inv, InitState, Enabled, Next;
    var es :| Legal(InitState(), es) && After(InitState(), es) == s;
    InitInv();
    RunKeepsInv(InitState(), es);
  }

  // ---- The scheduler -------------------------------------------------------------------------------

  /** No ASSERT of the scheduler or of thread_unblock ever fires; exactly one thread runs; the run
      queue holds exactly the ready threads other than idle; and the page of a thread that has exited
      was given back once, after the CPU left it. */
  lemma SchedulerSafe(s: State)
    requires Reachable(s)
    ensures s.k.ok && RunningInv(s.k) && QueueInv(s.k) && FreedInv(s.k)
  {
    ReachableInv(s);
  }

  /** Every thread is on at most one list, at most once: the shared list element is never in two. */
  lemma OneListPerThread(s: State, t: Tid, id: SemaId, j: SemaId)
    requires Reachable(s)
    ensures t in At(s.semas, id).waiters ==> t !in s.k.ready && t in s.k.status && s.k.status[t] == Blocked
    ensures t in At(s.semas, id).waiters && t in At(s.semas, j).waiters ==> id == j
    ensures NoDup(s.k.ready) && NoDup(At(s.semas, id).waiters)
  {
    ReachableInv(s);
    assert ListOk(s, id) && ListOk(s, j);
  }

  // ---- Semaphores ----------------------------------------------------------------------------------

  /** The value counts modulo 2^32, so it is exact exactly while the true count fits a word. */
  lemma SemaphoreConserves(s: State, id: SemaId)
    requires Reachable(s)
    ensures var m := At(s.semas, id);
            && m.value == (StartValue(id) + m.ups - m.downs) % WORD
            && (m.value == StartValue(id) + m.ups - m.downs <==> StartValue(id) + m.ups - m.downs < WORD)
  {
    ReachableInv(s);
    assert Counted(At(s.semas, id), id);
  }

  /** One sema_up in an interrupt handler on a semaphore that starts at the greatest value: the value wraps to 0
      although the semaphore was upped once more than it was downed. */
  lemma ValueWraps()
    ensures var es := [HandlerUp(0, WORD - 1)];
            && Legal(InitState(), es) && Reachable(After(InitState(), es))
            && var m := At(After(InitState(), es).semas, Plain(0, WORD - 1));
               m.value == 0 && StartValue(Plain(0, WORD - 1)) + m.ups - m.downs == WORD
  {
    var s, es := InitState(), [HandlerUp(0, WORD - 1)];
    assert Enabled(s, es[0]);
    var r := Next(s, es[0]);
    assert es[1..] == [] && Legal(r, es[1..]);
    assert After(s, es) == r;
  }

  /** While threads wait, the value never exceeds the number of threads that sema_up took off the
      list and that have not tested again; in particular a positive value means one of them is awake. */
  lemma NoLostWakeUp(s: State, id: SemaId)
    requires Reachable(s) && At(s.semas, id).waiters != []
    ensures At(s.semas, id).value <= |Woken(s, id)|
    ensures At(s.semas, id).value > 0 ==> exists t :: Awake(s, t, id)
  {
    ReachableInv(s);
    assert WakeOk(s, id);
    if At(s.semas, id).value > 0 {
      assert Woken(s, id) != {};
      var t :| t in Woken(s, id);
      assert Awake(s, t, id);
    }
  }

  /** If every thread but the idle one is blocked or gone, nobody sleeps on a semaphore that has a
      unit to give. */
  lemma QuiescentMeansEmpty(s: State, id: SemaId)
    requires Reachable(s)
    requires forall t :: t in s.k.status && t in s.pc && t != s.k.boot ==>
               s.k.status[t] == Blocked
               || (s.k.status[t] == Dying && s.pc[t] == User)
    ensures At(s.semas, id).waiters != [] ==> At(s.semas, id).value == 0
  {
    ReachableInv(s);
    assert WakeOk(s, id);
    forall t ensures !Awake(s, t, id) { BootNeverDown(s, t, id); }
    assert Woken(s, id) == {};
  }

  // ---- Locks ---------------------------------------------------------------------------------------

  /** At most one thread is between the return of lock_acquire and its call of lock_release, the stored
      holder is that thread, and the semaphore is then 0. */
  lemma MutualExclusion(s: State, t: Tid, u: Tid, l: LockId)
    requires Reachable(s) && (t, l) in s.inside
    ensures (u, l) in s.inside ==> t == u
    ensures l in s.holder && s.holder[l] == t && At(s.semas, OfLock(l)).value == 0
    ensures u in s.pc && Between(s.pc[u], l) ==> false
  {
    ReachableInv(s);
    assert LockOk(s, l);
    assert u in s.pc ==> PcLock(s, u, s.pc[u]);
  }

  /** A lock is never lost: when its semaphore is 0 somebody holds it, is about to, or is giving it up. */
  lemma LockIsOwned(s: State, l: LockId)
    requires Reachable(s)
    ensures At(s.semas, OfLock(l)).value <= 1
    ensures At(s.semas, OfLock(l)).value == 0 <==> l in s.holder || exists t :: t in s.pc && Between(s.pc[t], l)
  {
    ReachableInv(s);
    assert LockOk(s, l);
    forall t | t in s.pc && Between(s.pc[t], l) ensures At(s.semas, OfLock(l)).value == 0 {
      assert PcLock(s, t, s.pc[t]);
    }
  }

  // ---- Condition variables ---------------------------------------------------------------------------

  /** Everything that touches the list of a condition variable is done by the one thread that holds its lock. */
  lemma ListUnderLock(s: State, e: Event, c: Cond)
    requires Reachable(s) && Enabled(s, e)
    ensures Queue(Next(s, e).conds, c) != Queue(s.conds, c) ==> Holds(s, c.lock)
  {
    hide Inv, Next, Enabled;
    ReachableInv(s);
    StepUnderLock(s, e, c);
  }

  lemma StepUnderLock(s: State, e: Event, c: Cond)
    requires Inv(s) && Enabled(s, e)
    ensures Queue(Next(s, e).conds, c) != Queue(s.conds, c) ==> Holds(s, c.lock)
  {
    hide Inv, At, UpSection, Block, Unblock, Exit, Yield, Tick, Spawn;
    assert PcLock(s, s.k.cur, s.pc[s.k.cur]) by { InvParts(s); PcLockAt(s, s.k.cur); }
    if e != Continue {
      OnlyCondEvents(s, e, c);
    } else {
      OnlyCondSteps(s, c);
    }
  }

  lemma InvParts(s: State)
    requires Inv(s)
    ensures Good(s) && LockInv(s) && CondInv(s)
  {
  }

  lemma OnlyCondEvents(s: State, e: Event, c: Cond)
    requires Enabled(s, e) && e != Continue
    ensures Queue(Next(s, e).conds, c) != Queue(s.conds, c) ==>
              e == CondWait(c) || e == Signal(c) || e == Broadcast(c)
  {
    hide At, Block, Unblock, Exit, Yield, Tick, Spawn;
  }

  lemma OnlyCondSteps(s: State, c: Cond)
    requires s.k.cur in s.pc
    ensures Queue(ContinueStep(s).conds, c) != Queue(s.conds, c) ==> s.pc[s.k.cur] == CondPop(c)
  {
    hide UpSection, Block, Unblock, DownStep;
    forall id ensures DownStep(s, id).conds == s.conds && UpSection(s, id).conds == s.conds { SemasKeepLists(s, id); }
  }

  lemma SemasKeepLists(s: State, id: SemaId)
    requires s.k.cur in s.pc
    ensures DownStep(s, id).conds == s.conds && UpSection(s, id).conds == s.conds
  {
    hide Block, Unblock;
  }

  /** cond_wait returns only after its own signal, and holding the lock alone. */
  lemma CondWaitReturnsHolding(s: State, l: LockId, w: Waiter)
    requires Reachable(s) && s.k.cur in s.pc && s.pc[s.k.cur] == LockSet(l, Some(w))
    ensures var r := Next(s, Continue);
            && r.pc[s.k.cur] == User && HeldBy(r, s.k.cur, l) && (s.k.cur, l) in r.inside
            && At(r.semas, OfLock(l)).value == 0
            && w in r.waits && r.waits[w].thread == s.k.cur && r.waits[w].cond.lock == l && r.waits[w].phase == Done
  {
    ReachableInv(s);
    assert LockOk(s, l);
    assert PcLock(s, s.k.cur, s.pc[s.k.cur]) && PcCond(s, s.k.cur, s.pc[s.k.cur]);
  }

  /** A signal goes to exactly the longest waiter: the first on the list, older than all the others on
      it, and no other call changes its phase. */
  lemma SignalFreesLongestWaiter(s: State, c: Cond, all: bool)
    requires Reachable(s) && s.k.cur in s.pc && Queue(s.conds, c) != []
    ensures var q, r := Queue(s.conds, c), PopWaiter(s, c, all);
            && q[0] in s.waits && s.waits[q[0]].phase == Queued && s.waits[q[0]].cond == c
            && (forall w :: w in s.waits && s.waits[w].phase == Queued && s.waits[w].cond == c ==> q[0] <= w)
            && r.waits == s.waits[q[0] := s.waits[q[0]].(phase := Popped(s.k.cur))]
            && r.pc[s.k.cur] == CondUp(c, q[0], all)
            && Queue(r.conds, c) == q[1..]
  {
    ReachableInv(s);
    hide Good, LockInv;
    assert QueueOk(s, c);
    assert Queue(s.conds, c)[0] in Queue(s.conds, c);
  }

  /** A signal is not lost: from the moment it is given until the waiter notices, the private semaphore
      is 1 and the waiter is not on its wait list, whether or not it had got as far as sema_down. */
  lemma SignalIsNotLost(s: State, w: Waiter)
    requires Reachable(s) && w in s.waits && s.waits[w].phase == Signalled
    ensures At(s.semas, OfWaiter(w)).value == 1 && At(s.semas, OfWaiter(w)).waiters == []
    ensures s.waits[w].thread in s.pc && InWait(s.pc[s.waits[w].thread]) == Some(w)
    ensures s.pc[s.waits[w].thread].CondDown? && s.k.cur == s.waits[w].thread ==>
              Next(s, Continue).pc[s.k.cur] == LockDown(s.waits[w].cond.lock, Some(w), false)
  {
    ReachableInv(s);
    var t := s.waits[w].thread;
    assert WaitOk(s, w) && WakeOk(s, OfWaiter(w)) && ListOk(s, OfWaiter(w));
    assert PcCond(s, t, s.pc[t]);
    OnlyDowner(s, w);
  }

  /** Only the thread that made the cond_wait call is ever inside sema_down on its semaphore. */
  lemma OnlyDowner(s: State, w: Waiter)
    requires CondInv(s) && Good(s)
    ensures forall t :: Sleeps(s, t, OfWaiter(w)) || Awake(s, t, OfWaiter(w)) ==> w in s.waits && s.waits[w].thread == t
    ensures At(s.semas, OfWaiter(w)).waiters != [] && At(s.semas, OfWaiter(w)).value > 0 ==> false
  {
    hide SchedInv, BootInv, SpawnedInv, CountInv;
    forall t | Sleeps(s, t, OfWaiter(w)) || Awake(s, t, OfWaiter(w)) ensures w in s.waits && s.waits[w].thread == t {
      assert PcCond(s, t, s.pc[t]);
    }
    SleeperExcludesWoken(s, w);
  }

  lemma SleeperExcludesWoken(s: State, w: Waiter)
    requires ListInv(s) && WakeInv(s)
    requires forall t :: Sleeps(s, t, OfWaiter(w)) || Awake(s, t, OfWaiter(w)) ==>
               w in s.waits
               && s.waits[w].thread == t
    ensures At(s.semas, OfWaiter(w)).waiters != [] ==> At(s.semas, OfWaiter(w)).value == 0
  {
    var id := OfWaiter(w);
    assert ListOk(s, id) && WakeOk(s, id);
    if At(s.semas, id).waiters != [] {
      assert At(s.semas, id).waiters[0] in At(s.semas, id).waiters;
      assert Sleeps(s, s.waits[w].thread, id);
      assert Woken(s, id) == {};
    }
  }

  // ---- The scheduler's own runs are the projections of these ------------------------------------------

  /** The scheduler states along a run. */
  ghost function Trace(s: State, es: seq<Event>): (tr: seq<Sched>)
    requires Legal(s, es)
    ensures |tr| == |es| + 1 && tr[0] == s.k && tr[|es|] == After(s, es).k
    decreases |es|
  {
    if es == [] then [s.k] else [s.k] + Trace(Next(s, es[0]), es[1..])
  }

  /** So the fairness results for the scheduler hold of every run of the machine. */
  lemma {:induction false} RunProjects(s: State, es: seq<Event>)
    requires Inv(s) && Legal(s, es)
    ensures SchedRun(Trace(s, es))
    decreases |es|
  {
    hide SchedInv, SchedStep, Enabled, Next, LockInv, CondInv;
    if es != [] {
      StepInv(s, es[0]);
      StepGood(s, es[0]);
      RunProjects(Next(s, es[0]), es[1..]);
      var rest := Trace(Next(s, es[0]), es[1..]);
      assert rest[0] == Next(s, es[0]).k;
    }
    GoodSched(s);
  }

  /** In any run, a thread at position k of the run queue runs within 4 (k + 1) timer ticks, at the
      (k+1)-th call of `schedule`. */
  lemma ReadyThreadsRun(s: State, es: seq<Event>, t: Tid, k: nat)
    requires Reachable(s) && Legal(s, es) && Waits(s.k, t, k)
    ensures After(s, es).k.tickCount - s.k.tickCount >= 4 * (k + 1) ==> Chosen(Trace(s, es), k + 1, t)
    ensures After(s, es).k.schedules - s.k.schedules <= k ==>
            Waits(After(s, es).k, t, k - (After(s, es).k.schedules - s.k.schedules))
  {
    hide Inv, SchedRun, Enabled, Next, InitState;
    ReachableInv(s);
    RunProjects(s, es);
    RoundRobin(Trace(s, es), t, k);
    if After(s, es).k.tickCount - s.k.tickCount >= 4 * (k + 1) { BoundedWait(Trace(s, es), t, k); }
  }
}
