/** Semaphores, locks and condition variables (threads/synch.c) over the scheduler, as a machine
    in which any number of threads interleave.

    A thread's program counter says which call it is inside. One event is one section of code
    between disabling interrupts and enabling them again, or one access to data that a lock
    protects. The timer and interrupt handlers may strike between any two of them. Objects exist
    from the start with the value their initialiser gives them. */
module Synch {
  import opened Basics
  import opened Scheduler

  type LockId = nat
  type Waiter = nat

  /** A condition variable belongs to one lock. */
  datatype Cond = Cond(id: nat, lock: LockId)

  /** A semaphore stands alone, is inside a lock, or is the private one of a cond_wait call. */
  datatype SemaId = Plain(p: nat, start: nat) | OfLock(l: LockId) | OfWaiter(w: Waiter)

  /** `ups` and `downs` record history: calls of sema_up and completed downs. */
  datatype Sema = Sema(value: nat, waiters: seq<Tid>, ups: nat, downs: nat)

  /** Where a thread is. `User` is its own code; a thread that is inside sema_down has `slept` set
      once it has been on the wait list. */
  datatype Pc =
    | User
    | SemaDown(p: nat, start: nat, slept: bool)
    | LockDown(l: LockId, via: Option<Waiter>, slept: bool)   // lock_acquire, perhaps on behalf of cond_wait
    | LockSet(l: LockId, via: Option<Waiter>)                 // down completed, holder not yet stored
    | LockClear(l: LockId, w: Waiter)                         // cond_wait queued its waiter, still holds the lock
    | LockUp(l: LockId, via: Option<Waiter>)                  // holder cleared, sema_up not yet done
    | CondDown(l: LockId, w: Waiter, slept: bool)             // cond_wait on its private semaphore
    | CondUp(c: Cond, w: Waiter, all: bool)                   // cond_signal removed w from the list; no sema_up yet
    | CondPop(c: Cond)                                        // cond_broadcast about to look at the list again
    | Spawned(n: Tid)                                         // thread_create about to unblock the new thread
    | BootIdle | BootUp | Idling                              // the idle thread

  /** History of one cond_wait call. */
  datatype Phase = Queued | Popped(popper: Tid) | Signalled | Done
  datatype Wait = Wait(thread: Tid, cond: Cond, phase: Phase)

  /** `owner`, `inside` and `waits` record history: who completed the down of a lock's semaphore
      and has not done the up, which thread has returned from lock_acquire and not called
      lock_release, and what became of every cond_wait call. */
  datatype State = State(
    k: Sched,
    pc: map<Tid, Pc>,
    semas: map<SemaId, Sema>,
    holder: map<LockId, Tid>,
    conds: map<Cond, seq<Waiter>>,
    nextW: Waiter,
    owner: map<LockId, Tid>,
    inside: set<(Tid, LockId)>,
    waits: map<Waiter, Wait>)

  datatype Event =
    | Timer
    | HandlerUp(p: nat, start: nat)
    | HandlerTryDown(p: nat, start: nat)
    | Down(p: nat, start: nat)
    | TryDown(p: nat, start: nat)
    | Up(p: nat, start: nat)
    | Acquire(l: LockId)
    | TryAcquire(l: LockId)
    | Release(l: LockId)
    | CondWait(c: Cond)
    | Signal(c: Cond)
    | Broadcast(c: Cond)
    | Create
    | YieldNow
    | ExitNow
    | Continue

  /** The value sema_init or lock_init stores. */
  function StartValue(id: SemaId): (v: nat) {
    match id
    case Plain(_, start) => start % WORD
    case OfLock(_) => 1
    case OfWaiter(_) => 0
  }

  function At(m: map<SemaId, Sema>, id: SemaId): (r: Sema) {
    if id in m then m[id] else Sema(StartValue(id), [], 0, 0)
  }

  function Queue(m: map<Cond, seq<Waiter>>, c: Cond): (q: seq<Waiter>) {
    if c in m then m[c] else []
  }

  /** The semaphore a thread is inside sema_down on. */
  function DownTarget(pc: Pc): (r: Option<SemaId>) {
    match pc
    case SemaDown(p, start, _) => Some(Plain(p, start))
    case LockDown(l, _, _) => Some(OfLock(l))
    case CondDown(_, w, _) => Some(OfWaiter(w))
    case _ => None
  }

  predicate Slept(pc: Pc) {
    (pc.SemaDown? || pc.LockDown? || pc.CondDown?) && pc.slept
  }

  function Asleep(pc: Pc): (r: Pc)
    ensures DownTarget(r) == DownTarget(pc)
    ensures DownTarget(pc).Some? ==> Slept(r)
  {
    if DownTarget(pc).Some? then pc.(slept := true) else pc
  }

  function AfterDown(pc: Pc): (r: Pc)
    ensures !Slept(r)
  {
    match pc
    case LockDown(l, via, _) => LockSet(l, via)
    case CondDown(l, w, _) => LockDown(l, Some(w), false)
    case _ => User
  }

  /** The semaphore the idle thread raises to let thread_start continue. */
  const IDLE_STARTED: SemaId := Plain(0, 0)

  function InitState(): (s: State) {
    State(InitSched(), map[0 := User, 1 := BootIdle], map[], map[], map[], 0, map[], {}, map[])
  }

  function Go(s: State, pc: Pc): (r: State) {
    s.(pc := s.pc[s.k.cur := pc])
  }

  // ---- Sections with interrupts off --------------------------------------------------------------

  /** One pass of the loop in sema_down: the thread joins the wait list and leaves the CPU... */
  function DownSleep(s: State, id: SemaId): (r: State)
    requires s.k.cur in s.pc
  {
    Go(s, Asleep(s.pc[s.k.cur])).(
      semas := s.semas[id := Enqueue(At(s.semas, id), s.k.cur)],
      k := Block(s.k))
  }

  /** ... or takes one unit and leaves the loop. */
  function DownTake(s: State, id: SemaId): (r: State)
    requires s.k.cur in s.pc && At(s.semas, id).value > 0
  {
    var r := Go(s, AfterDown(s.pc[s.k.cur])).(semas := s.semas[id := Take(At(s.semas, id))]);
    match id
    case Plain(_, _) => r
    case OfLock(l) => r.(owner := s.owner[l := s.k.cur])
    case OfWaiter(w) => if w in s.waits then r.(waits := s.waits[w := s.waits[w].(phase := Done)]) else r
  }

  /** sema_try_down when it succeeds. */
  function TryTake(s: State, id: SemaId): (r: State)
    requires At(s.semas, id).value > 0
  {
    s.(semas := s.semas[id := Take(At(s.semas, id))])
  }

  /** sema_up: the first waiter becomes ready, then the value grows. */
  function UpSection(s: State, id: SemaId): (r: State) {
    s.(semas := s.semas[id := Raise(At(s.semas, id))], k := WakeFirst(s.k, At(s.semas, id)))
  }

  function Raise(m: Sema): (r: Sema) {
    m.(value := (m.value + 1) % WORD, ups := m.ups + 1, waiters := if m.waiters == [] then [] else m.waiters[1..])
  }

  function WakeFirst(k: Sched, m: Sema): (r: Sched) {
    if m.waiters == [] then k else Unblock(k, m.waiters[0])
  }

  function Take(m: Sema): (r: Sema)
    requires m.value > 0
  {
    m.(value := m.value - 1, downs := m.downs + 1)
  }

  function Enqueue(m: Sema, t: Tid): (r: Sema) {
    m.(waiters := m.waiters + [t])
  }

  // ---- Calls and continuations -------------------------------------------------------------------

  /** The body of cond_signal, and one turn of the loop in cond_broadcast, up to the sema_up. */
  function PopWaiter(s: State, c: Cond, all: bool): (r: State) {
    var q := Queue(s.conds, c);
    if q == [] || q[0] !in s.waits then
      Go(s, User)
    else
      Go(s, CondUp(c, q[0], all)).(
        conds := s.conds[c := q[1..]],
        waits := s.waits[q[0] := s.waits[q[0]].(phase := Popped(s.k.cur))])
  }

  /** cond_wait up to and including the insertion of its waiter. */
  function PushWaiter(s: State, c: Cond): (r: State) {
    var w := s.nextW;
    Go(s, LockClear(c.lock, w)).(
      conds := s.conds[c := Queue(s.conds, c) + [w]],
      nextW := w + 1,
      waits := s.waits[w := Wait(s.k.cur, c, Queued)])
  }

  /** lock_release, first statement. */
  function ClearHolder(s: State, l: LockId, via: Option<Waiter>): (r: State) {
    Go(s, LockUp(l, via)).(holder := s.holder - {l}, inside := s.inside - {(s.k.cur, l)})
  }

  /** lock_acquire, last statement. */
  function StoreHolder(s: State, l: LockId): (r: State) {
    Go(s, User).(holder := s.holder[l := s.k.cur], inside := s.inside + {(s.k.cur, l)})
  }

  /** lock_release, the sema_up. */
  function ReleaseUp(s: State, l: LockId, via: Option<Waiter>): (r: State) {
    var r := UpSection(s, OfLock(l));
    r.(pc := s.pc[s.k.cur := if via.None? then User else CondDown(l, via.value, false)], owner := s.owner - {l})
  }

  /** cond_signal, the sema_up. */
  function SignalUp(s: State, c: Cond, w: Waiter, all: bool): (r: State) {
    var r := UpSection(s, OfWaiter(w));
    r.(pc := s.pc[s.k.cur := if all then CondPop(c) else User],
       waits := if w in s.waits then s.waits[w := s.waits[w].(phase := Signalled)] else s.waits)
  }

  function DownStep(s: State, id: SemaId): (r: State)
    requires s.k.cur in s.pc
  {
    if At(s.semas, id).value == 0 then DownSleep(s, id) else DownTake(s, id)
  }

  /** The current thread executes its next section. */
  function ContinueStep(s: State): (r: State)
    requires s.k.cur in s.pc
  {
    match s.pc[s.k.cur]
    case User => s
    case SemaDown(p, start, _) => DownStep(s, Plain(p, start))
    case LockDown(l, _, _) => DownStep(s, OfLock(l))
    case CondDown(_, w, _) => DownStep(s, OfWaiter(w))
    case LockSet(l, _) => StoreHolder(s, l)
    case LockClear(l, w) => ClearHolder(s, l, Some(w))
    case LockUp(l, via) => ReleaseUp(s, l, via)
    case CondUp(c, w, all) => SignalUp(s, c, w, all)
    case CondPop(c) => PopWaiter(s, c, true)
    case Spawned(n) => Go(s, User).(k := Unblock(s.k, n))
    case BootIdle => Go(s, BootUp).(k := SetIdle(s.k))
    case BootUp => var r := UpSection(s, IDLE_STARTED); r.(pc := s.pc[s.k.cur := Idling])
    case Idling => s.(k := Block(s.k))
  }

  predicate Holds(s: State, l: LockId) {
    l in s.holder && s.holder[l] == s.k.cur
  }

  /** What the ASSERTs of the call demand of the caller. */
  predicate Enabled(s: State, e: Event) {
    && s.k.cur in s.pc
    && match e
       case Timer => true
       case HandlerUp(_, _) => true
       case HandlerTryDown(_, _) => true
       case Continue => true
       case Acquire(l) => s.pc[s.k.cur] == User && !Holds(s, l)
       case TryAcquire(l) => s.pc[s.k.cur] == User && !Holds(s, l)
       case Release(l) => s.pc[s.k.cur] == User && Holds(s, l)
       case CondWait(c) => s.pc[s.k.cur] == User && Holds(s, c.lock)
       case Signal(c) => s.pc[s.k.cur] == User && Holds(s, c.lock)
       case Broadcast(c) => s.pc[s.k.cur] == User && Holds(s, c.lock)
       case _ => s.pc[s.k.cur] == User
  }

  function Next(s: State, e: Event): (r: State)
    requires Enabled(s, e)
  {
    match e
    case Timer => s.(k := Tick(s.k))
    case HandlerUp(p, start) => UpSection(s, Plain(p, start))
    case HandlerTryDown(p, start) => if At(s.semas, Plain(p, start)).value > 0 then TryTake(s, Plain(p, start)) else s
    case Down(p, start) => Go(s, SemaDown(p, start, false))
    case TryDown(p, start) => if At(s.semas, Plain(p, start)).value > 0 then TryTake(s, Plain(p, start)) else s
    case Up(p, start) => UpSection(s, Plain(p, start))
    case Acquire(l) => Go(s, LockDown(l, None, false))
    case TryAcquire(l) =>
      if At(s.semas, OfLock(l)).value > 0 then
        Go(TryTake(s, OfLock(l)), LockSet(l, None)).(owner := s.owner[l := s.k.cur])
      else s
    case Release(l) => ClearHolder(s, l, None)
    case CondWait(c) => PushWaiter(s, c)
    case Signal(c) => PopWaiter(s, c, false)
    case Broadcast(c) => PopWaiter(s, c, true)
    case Create => Go(s, Spawned(s.k.nextTid)).(k := Spawn(s.k),
      pc := s.pc[s.k.cur := Spawned(s.k.nextTid)][s.k.nextTid := User])
    case YieldNow => s.(k := Yield(s.k))
    case ExitNow => s.(k := Exit(s.k), pc := if s.k.cur == s.k.initial then s.pc else s.pc - {s.k.cur})
    case Continue => ContinueStep(s)
  }
}
