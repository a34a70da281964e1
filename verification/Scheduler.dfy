/** The round-robin scheduler of threads/thread.c, as a step machine.

    Each function is one section of code that runs with interrupts off, up to and including the
    context switch in `schedule`. An ASSERT of the source that would fire clears the field `ok`. */
module Scheduler {
  import opened Basics

  type Tid = nat

  datatype Status = Running | Ready | Blocked | Dying

  /** Scheduler state. `boot` is the thread created to become the idle thread. The last three
      fields record history: pages given back, calls of `schedule` and timer ticks so far. */
  datatype Sched = Sched(
    status: map<Tid, Status>,
    ready: seq<Tid>,
    cur: Tid,
    idle: Option<Tid>,
    initial: Tid,
    boot: Tid,
    nextTid: Tid,
    ticks: nat,
    ok: bool,
    freed: seq<Tid>,
    schedules: nat,
    tickCount: nat)

  const TIME_SLICE: nat := 4

  /** thread_init and the first lines of thread_start: main runs, the idle thread is ready. */
  function InitSched(): (s: Sched) {
    Sched(map[0 := Running, 1 := Ready], [1], 0, None, 0, 1, 2, 0, true, [], 0, 0)
  }

  predicate HasNext(s: Sched) {
    s.ready != [] || s.idle.Some?
  }

  /** next_thread_to_run, before the front of the run queue is removed. */
  function NextThread(s: Sched): (t: Tid)
    requires HasNext(s)
  {
    if s.ready == [] then s.idle.value else s.ready[0]
  }

  /** thread_schedule_tail: the new thread is already current; a dying predecessor gives up its page. */
  function ScheduleTail(s: Sched, prev: Option<Tid>): (r: Sched) {
    var r := s.(status := s.status[s.cur := Running], ticks := 0);
    if prev.Some? && prev.value in r.status && r.status[prev.value] == Dying && prev.value != s.initial then
      if prev.value == s.cur then r.(ok := false)
      else r.(freed := r.freed + [prev.value], status := r.status - {prev.value})
    else
      r
  }

  /** schedule: the caller has already moved the current thread out of the running state. */
  function Schedule(s: Sched): (r: Sched) {
    if !HasNext(s) || NextThread(s) !in s.status || s.cur !in s.status || s.status[s.cur] == Running then
      s.(ok := false)
    else
      var next := NextThread(s);
      var r := s.(ready := if s.ready == [] then [] else s.ready[1..], cur := next, schedules := s.schedules + 1);
      ScheduleTail(r, if s.cur == next then None else Some(s.cur))
  }

  function SetStatus(s: Sched, t: Tid, st: Status): (r: Sched) {
    s.(status := s.status[t := st])
  }

  function Block(s: Sched): (r: Sched) {
    Schedule(SetStatus(s, s.cur, Blocked))
  }

  function Unblock(s: Sched, t: Tid): (r: Sched) {
    if t in s.status && s.status[t] == Blocked then
      SetStatus(s, t, Ready).(ready := s.ready + [t])
    else
      s.(ok := false)
  }

  function Yield(s: Sched): (r: Sched) {
    var r := if s.idle == Some(s.cur) then s else s.(ready := s.ready + [s.cur]);
    Schedule(SetStatus(r, s.cur, Ready))
  }

  function Exit(s: Sched): (r: Sched) {
    Schedule(SetStatus(s, s.cur, Dying))
  }

  function Ticked(s: Sched): (r: Sched) {
    s.(ticks := s.ticks + 1, tickCount := s.tickCount + 1)
  }

  /** thread_tick, and the yield on return from the interrupt when the slice is used up. */
  function Tick(s: Sched): (r: Sched) {
    if Ticked(s).ticks >= TIME_SLICE then Yield(Ticked(s)) else Ticked(s)
  }

  /** init_thread on a fresh page: a blocked thread on no list. */
  function Spawn(s: Sched): (r: Sched) {
    SetStatus(s, s.nextTid, Blocked).(nextTid := s.nextTid + 1)
  }

  /** The first statement of the idle thread. */
  function SetIdle(s: Sched): (r: Sched) {
    s.(idle := Some(s.cur))
  }

  /** The run queue holds exactly the ready threads other than idle, once each. */
  ghost predicate QueueInv(s: Sched) {
    && NoDup(s.ready)
    && (forall t :: t in s.ready <==> t in s.status && s.status[t] == Ready && s.idle != Some(t))
  }

  /** Exactly one thread is running, and it is the current one. */
  ghost predicate RunningInv(s: Sched) {
    && s.cur in s.status
    && (forall t :: t in s.status ==> (s.status[t] == Running <==> t == s.cur))
  }

  /** Pages given back belong to no thread, were given back once, and never include main's. */
  ghost predicate FreedInv(s: Sched) {
    && NoDup(s.freed)
    && (forall t :: t in s.freed ==> t !in s.status && t < s.nextTid && t != s.initial)
    && (forall t :: t in s.status ==> t < s.nextTid && (s.status[t] == Dying ==> t == s.initial))
  }

  /** Until the idle thread has introduced itself it is on the run queue or running. */
  ghost predicate IdleInv(s: Sched) {
    && s.boot in s.status && s.boot != s.initial
    && (s.idle.Some? ==> s.idle.value == s.boot)
    && (s.idle.None? ==> s.status[s.boot] in {Ready, Running})
  }

  ghost predicate CoreInv(s: Sched) {
    s.ok && QueueInv(s) && RunningInv(s) && FreedInv(s) && IdleInv(s)
  }

  ghost predicate SchedInv(s: Sched) {
    CoreInv(s) && s.ticks < TIME_SLICE
  }

  lemma InitSchedInv()
    ensures SchedInv(InitSched())
  {
  }

  /** What `schedule` finds: the current thread has just left the running state. */
  ghost predicate Leaving(s: Sched) {
    && s.ok && QueueInv(s) && IdleInv(s)
    && s.cur in s.status && s.status[s.cur] != Running
    && (forall t :: t in s.status ==> s.status[t] != Running)
    && NoDup(s.freed)
    && (forall t :: t in s.freed ==> t !in s.status && t < s.nextTid && t != s.initial)
    && (forall t :: t in s.status ==> t < s.nextTid && (s.status[t] == Dying ==> t == s.initial || t == s.cur))
    && s.status[s.boot] != Dying
  }

  /** The ASSERTs of `schedule` hold, and the next thread is not the dying one. */
  lemma NextIsLive(s: Sched)
    requires Leaving(s)
    ensures HasNext(s) && NextThread(s) in s.status && s.status[NextThread(s)] in {Ready, Blocked}
    ensures s.ready == [] || s.status[NextThread(s)] == Ready
    ensures s.ready == [] ==> NextThread(s) == s.boot && s.idle == Some(s.boot)
  {
    assert s.idle.None? ==> s.boot in s.ready;
    if s.ready != [] {
      assert s.ready[0] in s.ready;
    }
  }

  /** Whether `schedule` gives back the page of the thread it leaves. */
  ghost predicate Frees(s: Sched) {
    s.cur in s.status && s.status[s.cur] == Dying && s.cur != s.initial
  }

  /** The outcome of `schedule` in one piece. */
  lemma ScheduleEffect(s: Sched)
    requires Leaving(s)
    ensures HasNext(s)
    ensures Frees(s) ==> NextThread(s) != s.cur
    ensures var next := NextThread(s);
            Schedule(s) == s.(
              ready := if s.ready == [] then [] else s.ready[1..],
              cur := next,
              schedules := s.schedules + 1,
              ticks := 0,
              status := if Frees(s) then s.status[next := Running] - {s.cur} else s.status[next := Running],
              freed := if Frees(s) then s.freed + [s.cur] else s.freed)
  {
    NextIsLive(s);
  }

  lemma ScheduleQueue(s: Sched)
    requires Leaving(s)
    ensures QueueInv(Schedule(s))
  {
    NextIsLive(s);
    ScheduleEffect(s);
    if s.ready != [] { TailOfNoDup(s.ready); }
  }

  lemma ScheduleFreed(s: Sched)
    requires Leaving(s)
    ensures FreedInv(Schedule(s))
  {
    NextIsLive(s);
    ScheduleEffect(s);
    if Frees(s) { AppendNoDup(s.freed, s.cur); }
  }

  lemma ScheduleInv(s: Sched)
    requires Leaving(s)
    ensures SchedInv(Schedule(s))
  {
    NextIsLive(s);
    ScheduleEffect(s);
    ScheduleQueue(s);
    ScheduleFreed(s);
  }

  /** `schedule` changes nobody's being blocked, except that of the idle thread. */
  lemma ScheduleKeepsBlocked(s: Sched)
    requires Leaving(s)
    ensures Schedule(s).status.Keys == if Frees(s) then s.status.Keys - {s.cur} else s.status.Keys
    ensures forall t :: t in Schedule(s).status && t != s.boot ==>
                          (Schedule(s).status[t] == Blocked <==> s.status[t] == Blocked)
    ensures Schedule(s).(status := s.status, ready := s.ready, cur := s.cur, schedules := s.schedules, ticks := s.ticks,
            freed := s.freed) == s
  {
    NextIsLive(s);
    ScheduleEffect(s);
  }

  lemma BlockInv(s: Sched)
    requires SchedInv(s)
    requires s.idle.None? ==> s.cur != s.boot
    ensures SchedInv(Block(s))
    ensures Leaving(SetStatus(s, s.cur, Blocked))
  {
    ScheduleInv(SetStatus(s, s.cur, Blocked));
  }

  lemma ExitInv(s: Sched)
    requires SchedInv(s) && s.cur != s.boot
    ensures SchedInv(Exit(s))
    ensures Leaving(SetStatus(s, s.cur, Dying))
  {
    ScheduleInv(SetStatus(s, s.cur, Dying));
  }

  /** The state in which `thread_yield` calls `schedule`. */
  function Yielding(s: Sched): (r: Sched) {
    SetStatus(if s.idle == Some(s.cur) then s else s.(ready := s.ready + [s.cur]), s.cur, Ready)
  }

  lemma YieldInv(s: Sched)
    requires CoreInv(s)
    ensures SchedInv(Yield(s))
    ensures Yield(s) == Schedule(Yielding(s)) && Leaving(Yielding(s))
  {
    assert s.cur !in s.ready;
    if s.idle != Some(s.cur) { AppendNoDup(s.ready, s.cur); }
    YieldingQueue(s);
    ScheduleInv(Yielding(s));
  }

  lemma YieldingQueue(s: Sched)
    requires CoreInv(s)
    ensures QueueInv(Yielding(s))
  {
    assert s.cur !in s.ready;
    if s.idle != Some(s.cur) { AppendNoDup(s.ready, s.cur); }
  }

  lemma TickedCore(s: Sched)
    requires CoreInv(s)
    ensures CoreInv(Ticked(s))
  {
  }

  lemma TickInv(s: Sched)
    requires SchedInv(s)
    ensures SchedInv(Tick(s))
  {
    hide Yield;
    var r := Ticked(s);
    assert CoreInv(r);
    if r.ticks >= TIME_SLICE { YieldInv(r); }
  }

  lemma UnblockInv(s: Sched, t: Tid)
    requires SchedInv(s)
    requires t in s.status && s.status[t] == Blocked && s.idle != Some(t)
    ensures SchedInv(Unblock(s, t))
  {
    assert t !in s.ready;
    AppendNoDup(s.ready, t);
  }

  lemma SpawnInv(s: Sched)
    requires SchedInv(s)
    ensures SchedInv(Spawn(s))
  {
  }

  lemma SetIdleInv(s: Sched)
    requires SchedInv(s) && s.cur == s.boot
    ensures SchedInv(SetIdle(s))
  {
  }

  /** One step of the scheduler, with the guards its callers respect. */
  ghost predicate SchedStep(s: Sched, r: Sched) {
    || r == s
    || (r == Block(s) && (s.idle.None? ==> s.cur != s.boot))
    || r == Yield(s)
    || r == Tick(s)
    || (r == Exit(s) && s.cur != s.boot)
    || r == Spawn(s)
    || (r == SetIdle(s) && s.cur == s.boot)
    || (exists t :: UnblockStep(s, r, t))
  }

  ghost predicate UnblockStep(s: Sched, r: Sched, t: Tid) {
    r == Unblock(s, t) && t in s.status && s.status[t] == Blocked && s.idle != Some(t)
  }

  lemma SchedStepInv(s: Sched, r: Sched)
    requires SchedInv(s) && SchedStep(s, r)
    ensures SchedInv(r)
  {
    if r == s {
    } else if r == Block(s) && (s.idle.None? ==> s.cur != s.boot) {
      BlockInv(s);
    } else if r == Yield(s) {
      YieldInv(s);
    } else if r == Tick(s) {
      TickInv(s);
    } else if r == Exit(s) && s.cur != s.boot {
      ExitInv(s);
    } else if r == Spawn(s) {
      SpawnInv(s);
    } else if r == SetIdle(s) && s.cur == s.boot {
      SetIdleInv(s);
    } else {
      var t :| UnblockStep(s, r, t);
      UnblockInv(s, t);
    }
  }

  // ---- Fairness -------------------------------------------------------------------------------

  /** Thread `t` waits at position `k` of the run queue. */
  ghost predicate Waits(s: Sched, t: Tid, k: nat) {
    k < |s.ready| && s.ready[k] == t
  }

  /** A call of `schedule` moves every waiting thread one place forward, the first one onto the CPU;
      everything else leaves the places alone. */
  ghost predicate Advances(s: Sched, r: Sched, t: Tid, k: nat) {
    || (r.schedules == s.schedules && Waits(r, t, k))
    || (r.schedules == s.schedules + 1 && if k == 0 then r.cur == t else Waits(r, t, k - 1))
  }

  lemma ScheduleAdvances(s: Sched, t: Tid, k: nat)
    requires Leaving(s) && Waits(s, t, k)
    ensures Schedule(s).schedules == s.schedules + 1 && Advances(s, Schedule(s), t, k)
  {
    NextIsLive(s);
    ScheduleEffect(s);
  }

  lemma YieldAdvances(s: Sched, t: Tid, k: nat)
    requires CoreInv(s) && Waits(s, t, k)
    ensures Yield(s).schedules == s.schedules + 1 && Advances(s, Yield(s), t, k)
  {
    YieldInv(s);
    assert Waits(Yielding(s), t, k);
    ScheduleAdvances(Yielding(s), t, k);
  }

  lemma StepAdvances(s: Sched, r: Sched, t: Tid, k: nat)
    requires SchedInv(s) && SchedStep(s, r) && Waits(s, t, k)
    ensures Advances(s, r, t, k)
  {
    hide Schedule, Yield, CoreInv, Leaving;
    if r == Block(s) && (s.idle.None? ==> s.cur != s.boot) {
      BlockInv(s);
      ScheduleAdvances(SetStatus(s, s.cur, Blocked), t, k);
    } else if r == Yield(s) {
      YieldAdvances(s, t, k);
    } else if r == Tick(s) {
      TickedCore(s);
      if Ticked(s).ticks >= TIME_SLICE { YieldAdvances(Ticked(s), t, k); }
    } else if r == Exit(s) && s.cur != s.boot {
      ExitInv(s);
      ScheduleAdvances(SetStatus(s, s.cur, Dying), t, k);
    }
  }

  /** A run: consecutive states related by a step. */
  ghost predicate SchedRun(tr: seq<Sched>) {
    && |tr| > 0 && SchedInv(tr[0])
    && (forall i :: 0 <= i < |tr| - 1 ==> SchedStep(tr[i], tr[i + 1]))
  }

  ghost function Calls(tr: seq<Sched>): (n: int)
    requires |tr| > 0
  {
    tr[|tr| - 1].schedules - tr[0].schedules
  }

  /** The call of `schedule` that takes run step `i` is number `n` of the run and chooses `t`. */
  ghost predicate ChosenAt(tr: seq<Sched>, i: int, n: int, t: Tid) {
    0 < i < |tr| && tr[i].schedules == tr[0].schedules + n && tr[i - 1].schedules == tr[0].schedules + n - 1
      && tr[i].cur == t
  }

  /** Call number `n` of the run happened and chose `t`. */
  ghost predicate Chosen(tr: seq<Sched>, n: int, t: Tid) {
    exists i :: ChosenAt(tr, i, n, t)
  }

  lemma {:induction false} RunInv(tr: seq<Sched>)
    requires SchedRun(tr)
    ensures SchedInv(tr[|tr| - 1])
  {
    if |tr| > 1 {
      RunInv(tr[..|tr| - 1]);
      SchedStepInv(tr[|tr| - 2], tr[|tr| - 1]);
    }
  }

  /** A thread at position k of the run queue is chosen by exactly the (k+1)-th later call of
      `schedule`, and until then only moves forward. */
  lemma {:induction false} RoundRobin(tr: seq<Sched>, t: Tid, k: nat)
    requires SchedRun(tr) && Waits(tr[0], t, k)
    ensures 0 <= Calls(tr)
    ensures Calls(tr) <= k ==> Waits(tr[|tr| - 1], t, k - Calls(tr))
    ensures Calls(tr) > k ==> Chosen(tr, k + 1, t)
  {
    hide SchedInv, SchedStep;
    if |tr| > 1 {
      var pre := tr[..|tr| - 1];
      RoundRobin(pre, t, k);
      var s, r := tr[|tr| - 2], tr[|tr| - 1];
      RunInv(pre);
      ScheduleCount(s, r);
      if Calls(pre) > k {
        var i :| ChosenAt(pre, i, k + 1, t);
        assert ChosenAt(tr, i, k + 1, t);
      } else {
        StepAdvances(s, r, t, k - Calls(pre));
        assert Calls(tr) > k ==> ChosenAt(tr, |tr| - 1, k + 1, t);
      }
    }
  }

  /** What a step does to the counters: a call of `schedule` starts a new slice; otherwise the slice and the clock
      go on together. */
  ghost predicate Counters(s: Sched, r: Sched) {
    if r.schedules == s.schedules then r.ticks - s.ticks == r.tickCount - s.tickCount
    else r.schedules == s.schedules + 1 && r.ticks == 0 && r.tickCount - s.tickCount <= 1
  }

  /** A tick is on the clock, and it calls `schedule` exactly if it is the fourth of the slice. */
  lemma TickEffect(s: Sched)
    requires SchedInv(s)
    ensures Tick(s).tickCount == s.tickCount + 1 && Counters(s, Tick(s))
    ensures Tick(s).schedules == s.schedules + (if s.ticks == 3 then 1 else 0)
  {
    hide Schedule, Yield, CoreInv, Leaving;
    TickedCore(s);
    if Ticked(s).ticks >= TIME_SLICE {
      YieldInv(Ticked(s));
      ScheduleCounts(Yielding(Ticked(s)));
    }
  }

  /** Four ticks without a call of `schedule` do not happen: ticks are paid for by calls. */
  lemma ScheduleCount(s: Sched, r: Sched)
    requires SchedInv(s) && SchedStep(s, r)
    ensures s.schedules <= r.schedules <= s.schedules + 1 && Counters(s, r)
    ensures r.tickCount - s.tickCount <= 4 * (r.schedules - s.schedules) + r.ticks - s.ticks
  {
    hide Schedule, Yield, Tick, CoreInv, Leaving;
    if r == Block(s) && (s.idle.None? ==> s.cur != s.boot) {
      BlockInv(s);
      ScheduleCounts(SetStatus(s, s.cur, Blocked));
    } else if r == Yield(s) {
      YieldInv(s);
      ScheduleCounts(Yielding(s));
    } else if r == Tick(s) {
      TickEffect(s);
    } else if r == Exit(s) && s.cur != s.boot {
      ExitInv(s);
      ScheduleCounts(SetStatus(s, s.cur, Dying));
    }
  }

  /** Since the last call of `schedule` the slice counts the ticks. */
  lemma {:induction false} SliceCounts(tr: seq<Sched>)
    requires SchedRun(tr) && tr[|tr| - 1].schedules == tr[0].schedules
    ensures tr[|tr| - 1].ticks - tr[0].ticks == tr[|tr| - 1].tickCount - tr[0].tickCount
  {
    hide SchedInv, SchedStep;
    if |tr| > 1 {
      var pre := tr[..|tr| - 1];
      RunInv(pre);
      ScheduleCount(tr[|tr| - 2], tr[|tr| - 1]);
      CallsGrow(pre);
      SliceCounts(pre);
    }
  }

  lemma {:induction false} CallsGrow(tr: seq<Sched>)
    requires SchedRun(tr)
    ensures 0 <= Calls(tr)
  {
    hide SchedInv, SchedStep, Counters;
    if |tr| > 1 {
      var pre := tr[..|tr| - 1];
      CallsGrow(pre);
      RunInv(pre);
      ScheduleCount(tr[|tr| - 2], tr[|tr| - 1]);
    }
  }

  /** A slice lasts four ticks: in a run that begins with a call of `schedule` and has no other, a further tick calls
      `schedule` exactly if it is the fourth since then. */
  lemma FourthTick(tr: seq<Sched>)
    requires SchedRun(tr) && |tr| >= 2 && tr[1].schedules == tr[0].schedules + 1
             && tr[|tr| - 1].schedules == tr[1].schedules
    ensures var s := tr[|tr| - 1];
            Tick(s).schedules != s.schedules <==> Tick(s).tickCount - tr[1].tickCount == 4
  {
    hide SchedInv, SchedStep, Tick;
    var rest := tr[1..];
    ScheduleCount(tr[0], tr[1]);
    RunInv(tr[..2]);
    RunInv(tr);
    SliceCounts(rest);
    TickEffect(tr[|tr| - 1]);
  }

  lemma ScheduleCounts(s: Sched)
    requires Leaving(s)
    ensures Schedule(s).schedules == s.schedules + 1 && Schedule(s).tickCount == s.tickCount && Schedule(s).ticks == 0
  {
    ScheduleEffect(s);
  }

  lemma {:induction false} TicksArePaid(tr: seq<Sched>)
    requires SchedRun(tr)
    ensures tr[|tr| - 1].tickCount - tr[0].tickCount <= 4 * Calls(tr) + tr[|tr| - 1].ticks - tr[0].ticks
  {
    hide SchedInv, SchedStep;
    if |tr| > 1 {
      var pre := tr[..|tr| - 1];
      TicksArePaid(pre);
      RunInv(pre);
      ScheduleCount(tr[|tr| - 2], tr[|tr| - 1]);
    }
  }

  /** A thread at position k runs within 4 (k + 1) timer ticks. */
  lemma BoundedWait(tr: seq<Sched>, t: Tid, k: nat)
    requires SchedRun(tr) && Waits(tr[0], t, k)
    requires tr[|tr| - 1].tickCount - tr[0].tickCount >= 4 * (k + 1)
    ensures Chosen(tr, k + 1, t)
  {
    hide SchedStep;
    TicksArePaid(tr);
    RunInv(tr);
    RoundRobin(tr, t, k);
  }
}
