/** Every event of the machine keeps the wait-list invariants. */
module SynchSteps {
  import opened Basics
  import opened Scheduler
  import opened Synch
  import opened SynchWait

  ghost predicate Good(s: State) {
    WaitInv(s) && WakeInv(s) && CountInv(s)
  }

  /** The current thread moves from one non-sleeping point to another; nothing else about threads changes. */
  lemma PcOnly(s: State, r: State, x: Pc)
    requires Good(s) && s.k.cur in s.pc
    requires r.k == s.k && r.semas == s.semas && r.pc == s.pc[s.k.cur := x]
    requires s.pc[s.k.cur] !in {BootIdle, BootUp, Idling} && !Slept(s.pc[s.k.cur])
    requires x !in {BootIdle, BootUp, Idling} && !Slept(x) && !x.Spawned?
    ensures Good(r)
  {
    hide SchedInv, ListInv, WakeInv, BootInv, SpawnedInv, CountInv;
    CurFacts(s);
    PcOnlyLists(s, r, s.k.cur);
    BootKept(s, r);
    SpawnedKept(s, r);
    CountKept(s, r);
  }

  lemma CountKept(s: State, r: State)
    requires CountInv(s) && r.semas == s.semas
    ensures CountInv(r)
  {
  }

  /** Forms of `BootKeeps` and `SpawnedKeeps` for a step that changes the counter of `cur` alone. */
  lemma BootKept(s: State, r: State)
    requires BootInv(s) && s.k.cur in s.pc && s.k.cur != s.k.boot
    requires r.k.boot == s.k.boot && r.k.idle == s.k.idle
    requires s.k.cur in r.pc && r.pc == s.pc[s.k.cur := r.pc[s.k.cur]] && r.pc[s.k.cur] !in {BootIdle, BootUp, Idling}
    ensures BootInv(r)
  {
    BootKeeps(s, r);
  }

  lemma SpawnedKept(s: State, r: State)
    requires SpawnedInv(s) && r.k.boot == s.k.boot && s.k.cur in s.pc
    requires s.k.cur in r.pc && r.pc == s.pc[s.k.cur := r.pc[s.k.cur]] && !r.pc[s.k.cur].Spawned?
    requires s.k.cur in s.k.status && s.k.status[s.k.cur] != Blocked
    requires forall n ::
               n in s.pc && n in s.k.status && s.pc[n] == User && s.k.status[n] == Blocked
               && n != s.k.boot ==>
                           n in r.k.status && r.k.status[n] == Blocked
    ensures SpawnedInv(r)
  {
    SpawnedKeeps(s, r);
  }

  // ---- Rescheduling ------------------------------------------------------------------------------

  lemma YieldBlocked(k: Sched)
    requires CoreInv(k)
    ensures BlockedExcept(k.status, Yield(k).status, k.boot, k.boot)
    ensures Yield(k).boot == k.boot && Yield(k).idle == k.idle
  {
    YieldInv(k);
    ScheduleKeepsBlocked(Yielding(k));
  }

  lemma IdleBlocked(k: Sched)
    requires SchedInv(k) && k.cur == k.boot && k.idle.Some?
    ensures BlockedExcept(k.status, Block(k).status, k.boot, k.boot)
    ensures Block(k).boot == k.boot && Block(k).idle == k.idle
  {
    BlockInv(k);
    ScheduleKeepsBlocked(SetStatus(k, k.cur, Blocked));
  }

  lemma Rescheduled(s: State, r: State)
    requires Good(s) && SchedInv(r.k)
    requires r.semas == s.semas && r.pc == s.pc && BlockedExcept(s.k.status, r.k.status, s.k.boot, s.k.boot)
    requires r.k.boot == s.k.boot && r.k.idle == s.k.idle
    ensures Good(r)
  {
    hide SchedInv, ListInv, WakeInv, CountInv;
    RescheduleLists(s, r);
    CountKept(s, r);
    BootKeeps(s, r);
    SpawnedKeeps(s, r);
  }

  lemma TimerStep(s: State)
    requires Good(s) && Enabled(s, Timer)
    ensures Good(Next(s, Timer)) && SchedStep(s.k, Next(s, Timer).k)
  {
    hide Good, SchedInv, CoreInv, Yield;
    assert SchedInv(s.k) && CoreInv(s.k) by { GoodSched(s); }
    TickInv(s.k);
    TickedCore(s.k);
    if Ticked(s.k).ticks >= TIME_SLICE { YieldBlocked(Ticked(s.k)); }
    Rescheduled(s, Next(s, Timer));
  }

  lemma GoodSched(s: State)
    requires Good(s)
    ensures SchedInv(s.k) && CoreInv(s.k)
  {
  }

  lemma YieldStep(s: State)
    requires Good(s) && Enabled(s, YieldNow)
    ensures Good(Next(s, YieldNow)) && SchedStep(s.k, Next(s, YieldNow).k)
  {
    hide Good, SchedInv, CoreInv, Yield;
    GoodSched(s);
    YieldInv(s.k);
    YieldBlocked(s.k);
    Rescheduled(s, Next(s, YieldNow));
  }

  lemma IdleStep(s: State)
    requires Good(s) && s.k.cur in s.pc && s.pc[s.k.cur] == Idling
    ensures Good(ContinueStep(s)) && SchedStep(s.k, ContinueStep(s).k)
  {
    hide SchedInv, CoreInv, Block, ListInv, WakeInv, CountInv, SpawnedInv;
    GoodSched(s);
    BlockInv(s.k);
    IdleBlocked(s.k);
    Rescheduled(s, ContinueStep(s));
  }

  // ---- Values ------------------------------------------------------------------------------------

  lemma CountedUp(m: Sema, id: SemaId)
    requires Counted(m, id)
    ensures Counted(m.(value := (m.value + 1) % WORD, ups := m.ups + 1), id)
  {
  }

  lemma CountedDown(m: Sema, id: SemaId)
    requires Counted(m, id) && m.value > 0
    ensures Counted(m.(value := m.value - 1, downs := m.downs + 1), id)
  {
  }

  lemma CountChange(s: State, r: State, id: SemaId)
    requires CountInv(s) && Counted(At(r.semas, id), id)
    requires forall j :: j != id ==> At(r.semas, j) == At(s.semas, j)
    ensures CountInv(r)
  {
  }

  // ---- Taking a unit -----------------------------------------------------------------------------

  lemma CountTaken(s: State, r: State, id: SemaId)
    requires CountInv(s)
    requires var m := At(s.semas, id);
               m.value > 0
               && r.semas == s.semas[id := m.(value := m.value - 1, downs := m.downs + 1)]
    ensures CountInv(r)
  {
    assert Counted(At(s.semas, id), id);
    CountedDown(At(s.semas, id), id);
    CountChange(s, r, id);
  }

  /** sema_try_down succeeds without the current thread leaving where it is. */
  lemma TakenAside(s: State, r: State, id: SemaId)
    requires Good(s) && At(s.semas, id).value > 0 && r.k == s.k && r.pc == s.pc
    requires r.semas == TryTake(s, id).semas
    ensures Good(r)
  {
    hide SchedInv, ListOk, WakeOk, SameAt, BootInv, SpawnedInv, CountInv;
    CurFacts(s);
    CountTaken(s, r, id);
    assert ListOk(s, id) && WakeOk(s, id);
    TakeSelf(s, r, id, s.k.cur);
    forall j | j != id ensures SameAt(s, r, j) { SameByFields(s, r, j); }
    Collect(s, r, id);
    SameThreads(s, r);
  }

  lemma SameByFields(s: State, r: State, j: SemaId)
    requires r.k == s.k && r.pc == s.pc && At(s.semas, j) == At(r.semas, j)
    ensures SameAt(s, r, j)
  {
  }

  lemma SameThreads(s: State, r: State)
    requires r.k == s.k && r.pc == s.pc
    ensures BootInv(s) ==> BootInv(r)
    ensures SpawnedInv(s) ==> SpawnedInv(r)
  {
  }

  /** The current thread takes a unit of `id` and moves on. */
  lemma Taken(s: State, r: State, id: SemaId)
    requires Good(s) && s.k.cur in s.pc && At(s.semas, id).value > 0 && r.k == s.k
    requires r.semas == TryTake(s, id).semas
    requires s.k.cur in r.pc && r.pc == s.pc[s.k.cur := r.pc[s.k.cur]]
    requires s.pc[s.k.cur] !in {BootIdle, BootUp, Idling}
             && (Slept(s.pc[s.k.cur]) ==> DownTarget(s.pc[s.k.cur]) == Some(id))
    requires r.pc[s.k.cur] !in {BootIdle, BootUp, Idling} && !Slept(r.pc[s.k.cur]) && !r.pc[s.k.cur].Spawned?
    ensures Good(r)
  {
    hide SchedInv, ListInv, WakeInv, BootInv, SpawnedInv, CountInv;
    CurFacts(s);
    CountTaken(s, r, id);
    TakeKeeps(s, r, id, s.k.cur);
    BootKept(s, r);
    SpawnedKept(s, r);
  }

  lemma TryDownStep(s: State, e: Event)
    requires Good(s) && Enabled(s, e) && (e.HandlerTryDown? || e.TryDown?)
    ensures Good(Next(s, e)) && Next(s, e).k == s.k
  {
    hide Good;
    var id := Plain(e.p, e.start);
    if At(s.semas, id).value > 0 { TakenAside(s, Next(s, e), id); }
  }

  lemma TryAcquireStep(s: State, l: LockId)
    requires Good(s) && Enabled(s, TryAcquire(l))
    ensures Good(Next(s, TryAcquire(l))) && Next(s, TryAcquire(l)).k == s.k
  {
    hide Good;
    if At(s.semas, OfLock(l)).value > 0 { Taken(s, Next(s, TryAcquire(l)), OfLock(l)); }
  }

  // ---- sema_down ---------------------------------------------------------------------------------

  lemma Slept1(s: State, id: SemaId)
    requires Good(s) && s.k.cur in s.pc && DownTarget(s.pc[s.k.cur]) == Some(id) && At(s.semas, id).value == 0
    ensures Good(DownSleep(s, id)) && SchedStep(s.k, DownSleep(s, id).k)
  {
    hide SchedInv, ListInv, WakeInv, BootInv, SpawnedInv, Block;
    CurFacts(s);
    var r := DownSleep(s, id);
    SleepKeeps(s, id);
    SleepEffect(s.k);
    CountSlept(s, r, id);
    BootKept(s, r);
    SpawnedKept(s, r);
  }

  lemma CountSlept(s: State, r: State, id: SemaId)
    requires CountInv(s)
    requires r.semas == s.semas[id := At(s.semas, id).(waiters := At(r.semas, id).waiters)]
    ensures CountInv(r)
  {
    assert Counted(At(s.semas, id), id);
    CountChange(s, r, id);
  }

  lemma DownStepKeeps(s: State, id: SemaId)
    requires Good(s) && s.k.cur in s.pc && DownTarget(s.pc[s.k.cur]) == Some(id)
    ensures Good(DownStep(s, id)) && SchedStep(s.k, DownStep(s, id).k)
  {
    hide Good, SchedStep, DownSleep;
    if At(s.semas, id).value == 0 {
      Slept1(s, id);
    } else {
      Taken(s, DownTake(s, id), id);
      assert SchedStep(s.k, s.k) by { StutterStep(s.k); }
    }
  }

  lemma StutterStep(k: Sched)
    ensures SchedStep(k, k)
  {
  }

  // ---- sema_up -----------------------------------------------------------------------------------

  lemma Raised(s: State, id: SemaId)
    requires Good(s)
    ensures Good(UpSection(s, id)) && SchedStep(s.k, UpSection(s, id).k)
    ensures var r := UpSection(s, id);
              r.pc == s.pc && r.k.cur == s.k.cur && r.k.boot == s.k.boot
              && r.k.idle == s.k.idle
  {
    hide SchedInv, ListOk, WakeInv, BootInv, SpawnedInv, CountInv, UpSection, Unblock;
    CurFacts(s);
    assert ListOk(s, id);
    var m, r := At(s.semas, id), UpSection(s, id);
    UpKeeps(s, id);
    UpFields(s, id);
    CountRaised(s, r, id);
    if m.waiters != [] {
      var t := m.waiters[0];
      RaisedThreads(s, r, id, t);
    } else {
      SameThreads(s, r);
    }
  }

  lemma CountRaised(s: State, r: State, id: SemaId)
    requires CountInv(s)
    requires forall j :: j != id ==> At(r.semas, j) == At(s.semas, j)
    requires var m := At(s.semas, id);
             At(r.semas, id) == m.(value := (m.value + 1) % WORD, ups := m.ups + 1, waiters := At(r.semas, id).waiters)
    ensures CountInv(r)
  {
    assert Counted(At(s.semas, id), id);
    CountedUp(At(s.semas, id), id);
    CountChange(s, r, id);
  }

  lemma RaisedThreads(s: State, r: State, id: SemaId, t: Tid)
    requires SchedInv(s.k) && BootInv(s) && SpawnedInv(s) && Sleeps(s, t, id)
    requires r.pc == s.pc && r.k == Unblock(s.k, t)
    ensures SchedInv(r.k) && SchedStep(s.k, r.k) && BootInv(r) && SpawnedInv(r)
    ensures r.k.cur == s.k.cur && r.k.boot == s.k.boot && r.k.idle == s.k.idle
  {
    hide CoreInv;
    BootNeverDown(s, t, id);
    IdleIsBoot(s.k);
    assert UnblockStep(s.k, r.k, t);
    UnblockInv(s.k, t);
    BootKeeps(s, r);
    SpawnedKeeps(s, r);
  }

  lemma IdleIsBoot(k: Sched)
    requires SchedInv(k)
    ensures k.idle == None || k.idle == Some(k.boot)
  {
  }

  lemma UpStep(s: State, e: Event)
    requires Good(s) && Enabled(s, e) && (e.HandlerUp? || e.Up?)
    ensures Good(Next(s, e)) && SchedStep(s.k, Next(s, e).k)
  {
    hide Good, SchedStep, UpSection;
    Raised(s, Plain(e.p, e.start));
  }

  /** sema_up as the last part of lock_release or cond_signal. */
  lemma RaisedAndMoved(s: State, r: State, id: SemaId, x: Pc)
    requires Good(s) && s.k.cur in s.pc
    requires r.k == UpSection(s, id).k && r.semas == UpSection(s, id).semas && r.pc == s.pc[s.k.cur := x]
    requires s.pc[s.k.cur] !in {BootIdle, BootUp, Idling} && !Slept(s.pc[s.k.cur])
    requires x !in {BootIdle, BootUp, Idling} && !Slept(x) && !x.Spawned?
    ensures Good(r) && SchedStep(s.k, r.k)
  {
    hide Good, SchedStep, UpSection;
    Raised(s, id);
    PcOnly(UpSection(s, id), r, x);
  }

  lemma ReleaseUpStep(s: State, l: LockId, via: Option<Waiter>)
    requires Good(s) && s.k.cur in s.pc && s.pc[s.k.cur] == LockUp(l, via)
    ensures Good(ReleaseUp(s, l, via)) && SchedStep(s.k, ReleaseUp(s, l, via).k)
  {
    hide Good, SchedStep, UpSection;
    RaisedAndMoved(s, ReleaseUp(s, l, via), OfLock(l), if via.None? then User else CondDown(l, via.value, false));
  }

  lemma SignalUpStep(s: State, c: Cond, w: Waiter, all: bool)
    requires Good(s) && s.k.cur in s.pc && s.pc[s.k.cur] == CondUp(c, w, all)
    ensures Good(SignalUp(s, c, w, all)) && SchedStep(s.k, SignalUp(s, c, w, all).k)
  {
    hide Good, SchedStep, UpSection;
    RaisedAndMoved(s, SignalUp(s, c, w, all), OfWaiter(w), if all then CondPop(c) else User);
  }

  // ---- Threads that come, go or introduce themselves ---------------------------------------------

  /** Threads inside sema_down are the same in both states, and blocked in both or in neither. */
  ghost predicate SameInside(s: State, r: State) {
    && (forall t :: t in s.pc && DownTarget(s.pc[t]).Some? ==>
         t in r.pc && r.pc[t] == s.pc[t] && t in s.k.status && t in r.k.status
           && (s.k.status[t] == Blocked <==> r.k.status[t] == Blocked))
    && (forall t :: t in r.pc && DownTarget(r.pc[t]).Some? ==> t in s.pc && r.pc[t] == s.pc[t])
  }

  lemma SameInsideLists(s: State, r: State)
    requires ListInv(s) && WakeInv(s) && SameInside(s, r) && r.semas == s.semas && r.pc.Keys == r.k.status.Keys
    ensures ListInv(r) && WakeInv(r)
  {
    forall j ensures ListOk(r, j) && WakeOk(r, j) {
      assert ListOk(s, j) && WakeOk(s, j);
      SameAtKeeps(s, r, j);
    }
  }

  lemma BootIdleStep(s: State)
    requires Good(s) && s.k.cur in s.pc && s.pc[s.k.cur] == BootIdle
    ensures Good(ContinueStep(s)) && SchedStep(s.k, ContinueStep(s).k)
  {
    hide SchedInv, ListInv, WakeInv, CountInv, SpawnedInv;
    CurFacts(s);
    var r := ContinueStep(s);
    SetIdleInv(s.k);
    PcOnlyLists(s, r, s.k.cur);
    CountKept(s, r);
    SpawnedKept(s, r);
  }

  lemma KeysAgree(s: State)
    requires ListInv(s)
    ensures s.pc.Keys == s.k.status.Keys
  {
  }

  lemma BootUpStep(s: State)
    requires Good(s) && s.k.cur in s.pc && s.pc[s.k.cur] == BootUp
    ensures Good(ContinueStep(s)) && SchedStep(s.k, ContinueStep(s).k)
  {
    hide SchedInv, ListInv, WakeInv, CountInv, SpawnedInv, UpSection, SchedStep;
    var m, r := UpSection(s, IDLE_STARTED), ContinueStep(s);
    Raised(s, IDLE_STARTED);
    CurFacts(m);
    PcOnlyLists(m, r, m.k.cur);
    CountKept(m, r);
    SpawnedKept(m, r);
  }

  lemma SpawnedStep(s: State, n: Tid)
    requires Good(s) && s.k.cur in s.pc && s.pc[s.k.cur] == Spawned(n)
    ensures Good(ContinueStep(s)) && SchedStep(s.k, ContinueStep(s).k)
  {
    hide SchedInv, ListInv, WakeInv, CountInv, SpawnedInv, BootInv, SameInside;
    CurFacts(s);
    IdleIsBoot(s.k);
    SpawnedIsBlocked(s, n);
    var r := ContinueStep(s);
    assert UnblockStep(s.k, r.k, n);
    UnblockInv(s.k, n);
    KeysAgree(s);
    SpawnedInside(s, r, n);
    SameInsideLists(s, r);
    CountKept(s, r);
    BootKept(s, r);
    SpawnedDone(s, r, n);
  }

  lemma SpawnedIsBlocked(s: State, n: Tid)
    requires SpawnedInv(s) && s.k.cur in s.pc && s.pc[s.k.cur] == Spawned(n)
    ensures n != s.k.boot && n in s.pc && s.pc[n] == User && n in s.k.status && s.k.status[n] == Blocked
  {
  }

  lemma SpawnedInside(s: State, r: State, n: Tid)
    requires s.pc.Keys == s.k.status.Keys && s.k.cur in s.pc && s.pc[s.k.cur] == Spawned(n) && n in s.pc
             && s.pc[n] == User
    requires r.k.status == s.k.status[n := Ready] && r.pc == s.pc[s.k.cur := User]
    ensures SameInside(s, r) && r.pc.Keys == r.k.status.Keys
  {
  }

  lemma SpawnedDone(s: State, r: State, n: Tid)
    requires SpawnedInv(s) && s.k.cur in s.pc && s.pc[s.k.cur] == Spawned(n)
    requires s.k.cur in s.k.status && s.k.status[s.k.cur] != Blocked
    requires r.k.boot == s.k.boot && r.k.status == s.k.status[n := Ready] && r.pc == s.pc[s.k.cur := User]
    ensures SpawnedInv(r)
  {
  }

  lemma CreateStep(s: State)
    requires Good(s) && Enabled(s, Create)
    ensures Good(Next(s, Create)) && SchedStep(s.k, Next(s, Create).k)
  {
    hide SchedInv, ListInv, WakeInv, CountInv, SpawnedInv, SameInside;
    CurFacts(s);
    NewTid(s.k);
    SpawnInv(s.k);
    var r := Next(s, Create);
    KeysAgree(s);
    CreateInside(s, r);
    SameInsideLists(s, r);
    CountKept(s, r);
    BootKeeps(s, r);
    CreateSpawned(s, r);
  }

  lemma CreateInside(s: State, r: State)
    requires s.pc.Keys == s.k.status.Keys && s.k.nextTid !in s.k.status && s.k.cur in s.pc && s.pc[s.k.cur] == User
    requires r.k == Spawn(s.k) && r.pc == s.pc[s.k.cur := Spawned(s.k.nextTid)][s.k.nextTid := User]
    ensures SameInside(s, r) && r.pc.Keys == r.k.status.Keys
  {
  }

  lemma NewTid(k: Sched)
    requires SchedInv(k)
    ensures k.nextTid !in k.status && k.boot in k.status && k.cur in k.status
  {
  }

  lemma CreateSpawned(s: State, r: State)
    requires SpawnedInv(s) && s.k.cur in s.pc && s.pc[s.k.cur] == User && s.k.cur in s.k.status
             && s.k.status[s.k.cur] != Blocked
    requires s.pc.Keys == s.k.status.Keys && s.k.nextTid !in s.k.status && s.k.boot in s.k.status
    requires r.k == Spawn(s.k) && r.pc == s.pc[s.k.cur := Spawned(s.k.nextTid)][s.k.nextTid := User]
    ensures SpawnedInv(r)
  {
  }

  lemma ExitStep(s: State)
    requires Good(s) && Enabled(s, ExitNow)
    ensures Good(Next(s, ExitNow)) && SchedStep(s.k, Next(s, ExitNow).k)
  {
    hide SchedInv, ListInv, WakeInv, CountInv, SpawnedInv, Exit, BootInv, SameInside;
    CurFacts(s);
    KeysAgree(s);
    var r := Next(s, ExitNow);
    ExitEffect(s.k);
    ExitInside(s, r);
    SameInsideLists(s, r);
    CountKept(s, r);
    ExitThreads(s, r);
  }

  lemma ExitEffect(k: Sched)
    requires SchedInv(k) && k.cur != k.boot
    ensures var r := Exit(k);
            && SchedInv(r) && r.boot == k.boot && r.idle == k.idle
            && k.cur in k.status && k.status[k.cur] != Blocked
            && r.status.Keys == (if k.cur == k.initial then k.status.Keys else k.status.Keys - {k.cur})
            && (forall t :: t in r.status && t != k.boot && t != k.cur ==>
               (r.status[t] == Blocked <==> k.status[t] == Blocked))
  {
    ExitInv(k);
    ScheduleKeepsBlocked(SetStatus(k, k.cur, Dying));
  }

  lemma ExitInside(s: State, r: State)
    requires s.pc.Keys == s.k.status.Keys && s.k.cur in s.pc && s.pc[s.k.cur] == User && BootInv(s)
    requires r.pc == if s.k.cur == s.k.initial then s.pc else s.pc - {s.k.cur}
    requires r.k.status.Keys == if s.k.cur == s.k.initial then s.k.status.Keys else s.k.status.Keys - {s.k.cur}
    requires forall t :: t in r.k.status && t != s.k.boot && t != s.k.cur ==>
             (r.k.status[t] == Blocked <==> s.k.status[t] == Blocked)
    ensures SameInside(s, r) && r.pc.Keys == r.k.status.Keys
  {
  }

  lemma ExitThreads(s: State, r: State)
    requires BootInv(s) && SpawnedInv(s) && s.k.cur != s.k.boot && r.k.boot == s.k.boot && r.k.idle == s.k.idle
    requires s.k.cur in s.k.status && s.k.status[s.k.cur] != Blocked && s.k.cur in s.pc && s.pc[s.k.cur] == User
    requires r.pc == s.pc || r.pc == s.pc - {s.k.cur}
    requires r.pc.Keys == r.k.status.Keys
    requires forall t :: t in r.k.status && t != s.k.boot && t != s.k.cur ==>
               t in s.k.status
               && (r.k.status[t] == Blocked <==> s.k.status[t] == Blocked)
    ensures BootInv(r) && SpawnedInv(r)
  {
    BootKeeps(s, r);
    SpawnedKeeps(s, r);
  }

  // ---- Any event ---------------------------------------------------------------------------------

  lemma ContinueGood(s: State)
    requires Good(s) && s.k.cur in s.pc
    ensures Good(ContinueStep(s)) && SchedStep(s.k, ContinueStep(s).k)
  {
    hide Good, SchedStep, DownStep, UpSection, Block, ReleaseUp, SignalUp;
    StutterStep(s.k);
    match s.pc[s.k.cur]
    case User =>
    case SemaDown(p, start, _) => DownStepKeeps(s, Plain(p, start));
    case LockDown(l, _, _) => DownStepKeeps(s, OfLock(l));
    case CondDown(_, w, _) => DownStepKeeps(s, OfWaiter(w));
    case LockSet(l, _) => PcOnly(s, ContinueStep(s), User);
    case LockClear(l, w) => PcOnly(s, ContinueStep(s), LockUp(l, Some(w)));
    case LockUp(l, via) => ReleaseUpStep(s, l, via);
    case CondUp(c, w, all) => SignalUpStep(s, c, w, all);
    case CondPop(c) => PopStep(s, c, true);
    case Spawned(n) => SpawnedStep(s, n);
    case BootIdle => BootIdleStep(s);
    case BootUp => BootUpStep(s);
    case Idling => IdleStep(s);
  }

  lemma PopStep(s: State, c: Cond, all: bool)
    requires Good(s) && s.k.cur in s.pc
    requires s.pc[s.k.cur] == User || s.pc[s.k.cur] == CondPop(c)
    ensures Good(PopWaiter(s, c, all)) && PopWaiter(s, c, all).k == s.k
  {
    hide Good;
    var r := PopWaiter(s, c, all);
    PcOnly(s, r, r.pc[s.k.cur]);
  }

  /** The wait-list invariants are kept by every event, and the scheduler takes one of its steps. */
  lemma StepGood(s: State, e: Event)
    requires Good(s) && Enabled(s, e)
    ensures Good(Next(s, e)) && SchedStep(s.k, Next(s, e).k)
  {
    hide Good, SchedStep, ContinueStep, UpSection, Exit, Yield, Tick, Spawn, PopWaiter;
    StutterStep(s.k);
    match e
    case Timer => TimerStep(s);
    case HandlerUp(p, start) => UpStep(s, e);
    case HandlerTryDown(p, start) => TryDownStep(s, e);
    case Down(p, start) => PcOnly(s, Next(s, e), SemaDown(p, start, false));
    case TryDown(p, start) => TryDownStep(s, e);
    case Up(p, start) => UpStep(s, e);
    case Acquire(l) => PcOnly(s, Next(s, e), LockDown(l, None, false));
    case TryAcquire(l) => TryAcquireStep(s, l);
    case Release(l) => PcOnly(s, Next(s, e), LockUp(l, None));
    case CondWait(c) => PcOnly(s, Next(s, e), LockClear(c.lock, s.nextW));
    case Signal(c) => PopStep(s, c, false);
    case Broadcast(c) => PopStep(s, c, true);
    case Create => CreateStep(s);
    case YieldNow => YieldStep(s);
    case ExitNow => ExitStep(s);
    case Continue => ContinueGood(s);
  }

  lemma InitGood()
    ensures Good(InitState())
  {
    hide SchedInv;
    InitSchedInv();
  }
}
