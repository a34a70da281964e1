/** The scheduler and the semaphore as the source writes them: objects whose fields are updated.

    Every method is proved to make the step that `Scheduler` and `Synch` reason about. Its
    preconditions are the ASSERTs of the source. */
module Kernel {
  import opened Basics
  import opened Scheduler
  import opened Synch

  /** The globals of thread.c and the status fields of its threads. */
  class Cpu {
    var status: map<Tid, Status>
    var ready: seq<Tid>
    var cur: Tid
    var idle: Option<Tid>
    var initial: Tid
    var ticks: nat
    var yieldOnReturn: bool
    ghost var boot: Tid
    ghost var nextTid: Tid
    ghost var freed: seq<Tid>
    ghost var schedules: nat
    ghost var tickCount: nat

    ghost function View(): (s: Sched)
      reads this
    {
      Sched(status, ready, cur, idle, initial, boot, nextTid, ticks, true, freed, schedules, tickCount)
    }

    method NextThreadToRun() returns (t: Tid)
      requires HasNext(View())
      modifies this`ready
      ensures t == NextThread(old(View()))
      ensures ready == if old(ready) == [] then [] else old(ready)[1..]
    {
      if ready == [] {
        t := idle.value;
      } else {
        t, ready := ready[0], ready[1..];
      }
    }

    method ThreadScheduleTail(prev: Option<Tid>)
      requires prev != Some(cur)
      modifies this`status, this`ticks, this`freed
      ensures View() == ScheduleTail(old(View()), prev)
    {
      status := status[cur := Running];
      ticks := 0;
      if prev.Some? && prev.value in status && status[prev.value] == Dying && prev.value != initial {
        status := status - {prev.value};
        freed := freed + [prev.value];
      }
    }

    method ScheduleNext()
      requires HasNext(View()) && NextThread(View()) in status
      requires cur in status && status[cur] != Running
      modifies this
      ensures View() == Schedule(old(View()))
    {
      var here := cur;
      var next := NextThreadToRun();
      var prev := None;
      schedules := schedules + 1;
      if here != next {
        cur := next;
        prev := Some(here);
      }
      ThreadScheduleTail(prev);
    }

    method ThreadBlock()
      requires SchedInv(View()) && (idle.None? ==> cur != boot)
      modifies this
      ensures View() == Block(old(View())) && SchedInv(View())
    {
      BlockInv(View());
      NextIsLive(SetStatus(View(), cur, Blocked));
      status := status[cur := Blocked];
      ScheduleNext();
    }

    method ThreadUnblock(t: Tid)
      requires t in status && status[t] == Blocked
      modifies this`ready, this`status
      ensures View() == Unblock(old(View()), t)
    {
      ready := ready + [t];
      status := status[t := Ready];
    }

    method ThreadYield()
      requires CoreInv(View())
      modifies this
      ensures View() == Yield(old(View())) && SchedInv(View())
    {
      YieldInv(View());
      NextIsLive(Yielding(View()));
      if idle != Some(cur) {
        ready := ready + [cur];
      }
      status := status[cur := Ready];
      ScheduleNext();
    }

    method ThreadExit()
      requires SchedInv(View()) && cur != boot
      modifies this
      ensures View() == Exit(old(View())) && SchedInv(View())
    {
      ExitInv(View());
      NextIsLive(SetStatus(View(), cur, Dying));
      status := status[cur := Dying];
      ScheduleNext();
    }

    method ThreadTick()
      modifies this`ticks, this`yieldOnReturn, this`tickCount
      ensures View() == Ticked(old(View()))
      ensures yieldOnReturn == (old(yieldOnReturn) || ticks >= TIME_SLICE)
    {
      ticks := ticks + 1;
      tickCount := tickCount + 1;
      if ticks >= TIME_SLICE {
        yieldOnReturn := true;
      }
    }

    /** intr_handler for the timer: the flag is cleared on entry and obeyed on exit. */
    method TimerInterrupt()
      requires SchedInv(View())
      modifies this
      ensures View() == Tick(old(View())) && SchedInv(View())
    {
      TickInv(View());
      TickedCore(View());
      yieldOnReturn := false;
      ThreadTick();
      if yieldOnReturn {
        ThreadYield();
      }
    }
  }

  /** struct semaphore. */
  class Semaphore {
    var value: nat
    var waiters: seq<Tid>
    ghost var ups: nat
    ghost var downs: nat

    ghost function View(): (m: Sema)
      reads this
    {
      Sema(value, waiters, ups, downs)
    }

    /** One pass of the loop of sema_down, in which either the unit is taken or the thread sleeps. */
    method DownPass(cpu: Cpu) returns (done: bool)
      requires SchedInv(cpu.View()) && (cpu.idle.None? ==> cpu.cur != cpu.boot)
      modifies this, cpu
      ensures done == (old(value) > 0)
      ensures done ==> View() == Take(old(View())) && cpu.View() == old(cpu.View())
      ensures !done ==> View() == Enqueue(old(View()), old(cpu.cur)) && cpu.View() == Block(old(cpu.View()))
      ensures SchedInv(cpu.View())
    {
      if value == 0 {
        waiters := waiters + [cpu.cur];
        cpu.ThreadBlock();
        done := false;
      } else {
        value := value - 1;
        downs := downs + 1;
        done := true;
      }
    }

    method SemaTryDown() returns (success: bool)
      modifies this
      ensures success == (old(value) > 0)
      ensures View() == if success then Take(old(View())) else old(View())
    {
      if value > 0 {
        value := value - 1;
        downs := downs + 1;
        success := true;
      } else {
        success := false;
      }
    }

    method SemaUp(cpu: Cpu)
      requires waiters != [] ==> waiters[0] in cpu.status && cpu.status[waiters[0]] == Blocked
      modifies this, cpu
      ensures View() == Raise(old(View()))
      ensures cpu.View() == WakeFirst(old(cpu.View()), old(View()))
    {
      if waiters != [] {
        cpu.ThreadUnblock(waiters[0]);
        waiters := waiters[1..];
      }
      value := (value + 1) % WORD;
      ups := ups + 1;
    }
  }
}
