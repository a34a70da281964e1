/** Loading and leaving a process's page directory, with context switches between any two steps
    (userprog/process.c). */
module ProcessExit {
  import opened Basics

  datatype Dir = Kernel | User(id: nat)

  /** How far a thread is in process_exit: not begun, after the first of its two steps, after both, or past it. */
  datatype Phase = Before | Half(pd: nat) | Ready(pd: nat) | After

  /** One thread: its pagedir member and its progress. */
  datatype Thread = Thread(pagedir: Option<nat>, phase: Phase)

  /** The running thread, the active directory, the threads, and the directories not destroyed. */
  datatype State = State(cur: nat, cr3: Dir, threads: map<nat, Thread>, live: set<nat>)

  datatype Event =
    | Spawn(t: nat)
    | Switch(t: nat)                // thread_schedule_tail calls process_activate
    | LoadCreate(pd: nat)           // load: a new directory in the thread's pagedir
    | LoadActivate                  // load: process_activate
    | ExitFirst
    | ExitSecond
    | ExitDestroy

  /** process_activate: the thread's directory, or the kernel's for a null pointer. */
  function Activated(x: Thread): (d: Dir) {
    match x.pagedir
    case Some(pd) => User(pd)
    case None => Kernel
  }

  predicate Enabled(s: State, e: Event) {
    s.cur in s.threads &&
    var x := s.threads[s.cur];
    match e
    case Spawn(t) => t !in s.threads
    case Switch(t) => t in s.threads
    case LoadCreate(pd) => x.phase == Before && x.pagedir.None? && pd !in s.live
    case LoadActivate => x.phase == Before && x.pagedir.Some?
    case ExitFirst => x.phase == Before && x.pagedir.Some?
    case ExitSecond => x.phase.Half?
    case ExitDestroy => x.phase.Ready?
  }

  /** One step. `swapped` is process_exit with its first two statements in the other order. */
  function Next(s: State, e: Event, swapped: bool): (r: State)
    requires Enabled(s, e)
  {
    var x := s.threads[s.cur];
    match e
    case Spawn(t) => s.(threads := s.threads[t := Thread(None, Before)])
    case Switch(t) => s.(cur := t, cr3 := Activated(s.threads[t]))
    case LoadCreate(pd) => s.(threads := s.threads[s.cur := x.(pagedir := Some(pd))], live := s.live + {pd})
    case LoadActivate => s.(cr3 := Activated(x))
    case ExitFirst =>
      var pd := x.pagedir.value;
      if swapped then s.(cr3 := Kernel, threads := s.threads[s.cur := x.(phase := Half(pd))])
      else s.(threads := s.threads[s.cur := Thread(None, Half(pd))])
    case ExitSecond =>
      var pd := x.phase.pd;
      if swapped then s.(threads := s.threads[s.cur := Thread(None, Ready(pd))])
      else s.(cr3 := Kernel, threads := s.threads[s.cur := x.(phase := Ready(pd))])
    case ExitDestroy => s.(threads := s.threads[s.cur := x.(phase := After)], live := s.live - {x.phase.pd})
  }

  function Start(): (s: State) {
    State(0, Kernel, map[0 := Thread(None, Before)], {})
  }

  ghost predicate Run(states: seq<State>, events: seq<Event>, swapped: bool) {
    && |states| == |events| + 1 && states[0] == Start()
    && forall i :: 0 <= i < |events| ==>
         Enabled(states[i], events[i])
         && states[i + 1] == Next(states[i], events[i], swapped)
  }

  /** The active directory has not been destroyed. */
  predicate ActiveIsLive(s: State) {
    s.cr3.User? ==> s.cr3.id in s.live
  }

  /** The directory that a thread answers for: in use, or on its way out. */
  function Holds(x: Thread): (d: Option<nat>) {
    match x.phase
    case Before => x.pagedir
    case Half(pd) => Some(pd)
    case Ready(pd) => Some(pd)
    case After => None
  }

  ghost predicate Inv(s: State) {
    && s.cur in s.threads
    && (forall t :: t in s.threads ==> !s.threads[t].phase.Before? ==> s.threads[t].pagedir.None?)
    && (forall t :: t in s.threads && Holds(s.threads[t]).Some? ==> Holds(s.threads[t]).value in s.live)
    && (forall t, u ::
         (t in s.threads && u in s.threads && Holds(s.threads[t]).Some?
          && Holds(s.threads[t]) == Holds(s.threads[u])) ==> t == u)
    && (s.cr3.User? ==> Holds(s.threads[s.cur]) == Some(s.cr3.id) && !s.threads[s.cur].phase.Ready?)
  }

  lemma StepKeeps(s: State, e: Event)
    requires Inv(s) && Enabled(s, e)
    ensures Inv(Next(s, e, false))
  {
  }

  lemma {:induction false} RunKeeps(states: seq<State>, events: seq<Event>, i: nat)
    requires Run(states, events, false) && i < |states|
    ensures Inv(states[i])
  {
    if i > 0 {
      RunKeeps(states, events, i - 1);
      StepKeeps(states[i - 1], events[i - 1]);
    }
  }

  /** In every run, at every moment, the active directory exists, and pagedir_destroy is not applied to it. */
  lemma NeverActiveAndDestroyed(states: seq<State>, events: seq<Event>, i: nat)
    requires Run(states, events, false) && i < |states|
    ensures ActiveIsLive(states[i])
    ensures i < |events| && events[i].ExitDestroy? ==> states[i].cr3 != User(states[i].threads[states[i].cur].phase.pd)
  {
    RunKeeps(states, events, i);
  }

  /** With the two statements swapped, a switch away and back between them makes the directory active again, and
      it is then destroyed while active. */
  lemma SwappedOrderFails()
    ensures exists states, events :: Run(states, events, true) && !ActiveIsLive(states[|states| - 1])
  {
    var events := [Spawn(1), LoadCreate(7), LoadActivate, ExitFirst, Switch(1), Switch(0), ExitSecond, ExitDestroy];
    var s0 := Start();
    var s1 := Next(s0, events[0], true);
    var s2 := Next(s1, events[1], true);
    var s3 := Next(s2, events[2], true);
    var s4 := Next(s3, events[3], true);
    var s5 := Next(s4, events[4], true);
    var s6 := Next(s5, events[5], true);
    var s7 := Next(s6, events[6], true);
    var s8 := Next(s7, events[7], true);
    var states := [s0, s1, s2, s3, s4, s5, s6, s7, s8];
    assert Run(states, events, true);
    assert !ActiveIsLive(states[|states| - 1]);
  }
}
