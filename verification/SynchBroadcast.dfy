/** What cond_broadcast does, over all runs: everybody on the list is freed before it returns. */
module SynchBroadcast {
  import opened Basics
  import opened Scheduler
  import opened Synch
  import opened SynchCond
  import opened SynchLock
  import opened SynchRuns
  import opened SynchSteps
  import opened SynchWait

  /** A cond_wait call moves on by one step of its life at most: off the list by the running thread, signalled by
      the thread that took it off, and done. */
  ghost predicate Advances(a: Phase, b: Phase, cur: Tid) {
    || b == a
    || (a == Queued && b == Popped(cur))
    || (a == Popped(cur) && b == Signalled)
    || (a == Signalled && b == Done)
  }

  /** What an event may do to the records of the cond_wait calls. */
  ghost predicate WaitsAdvance(s: State, r: State) {
    forall w :: w in s.waits ==>
      w in r.waits && r.waits[w].cond == s.waits[w].cond && r.waits[w].thread == s.waits[w].thread
      && Advances(s.waits[w].phase, r.waits[w].phase, s.k.cur)
  }

  lemma PopAdvances(s: State, c: Cond, all: bool)
    requires CondInv(s)
    ensures WaitsAdvance(s, PopWaiter(s, c, all))
  {
    assert QueueOk(s, c);
    if Queue(s.conds, c) != [] { assert Queue(s.conds, c)[0] in Queue(s.conds, c); }
  }

  lemma PushAdvances(s: State, c: Cond)
    requires CondInv(s)
    ensures WaitsAdvance(s, PushWaiter(s, c))
  {
    assert WaitOk(s, s.nextW);
  }

  lemma SignalAdvances(s: State, c: Cond, w: Waiter, all: bool)
    requires CondInv(s) && s.k.cur in s.pc && s.pc[s.k.cur] == CondUp(c, w, all)
    ensures WaitsAdvance(s, SignalUp(s, c, w, all))
  {
    hide UpSection;
    assert PcCond(s, s.k.cur, s.pc[s.k.cur]);
    assert UpSection(s, OfWaiter(w)).waits == s.waits by { UpKeeps(s, OfWaiter(w)); }
  }

  lemma UpKeeps(s: State, id: SemaId)
    ensures var r := UpSection(s, id); r.waits == s.waits && r.pc == s.pc && r.conds == s.conds
  {
    hide Raise, WakeFirst;
  }

  lemma DownAdvances(s: State, id: SemaId)
    requires CondInv(s) && s.k.cur in s.pc
    ensures WaitsAdvance(s, DownStep(s, id))
  {
    hide Block;
    if id.OfWaiter? { assert WaitOk(s, id.w); }
  }

  lemma ContinueAdvances(s: State)
    requires CondInv(s) && s.k.cur in s.pc
    ensures WaitsAdvance(s, ContinueStep(s))
  {
    hide CondInv, PopWaiter, SignalUp, DownStep, UpSection, Block, Unblock, WaitsAdvance;
    Unchanged(s);
    match s.pc[s.k.cur]
    case SemaDown(p, start, _) => DownAdvances(s, Plain(p, start));
    case LockDown(l, _, _) => DownAdvances(s, OfLock(l));
    case CondDown(_, w, _) => DownAdvances(s, OfWaiter(w));
    case LockUp(l, via) => UpKeeps(s, OfLock(l)); SameWaits(s, ReleaseUp(s, l, via));
    case CondUp(c, w, all) => SignalAdvances(s, c, w, all);
    case CondPop(c) => PopAdvances(s, c, true);
    case BootUp => UpKeeps(s, IDLE_STARTED); SameWaits(s, ContinueStep(s));
    case _ => SameWaits(s, ContinueStep(s));
  }

  lemma Unchanged(s: State)
    ensures WaitsAdvance(s, s)
  {
  }

  lemma SameWaits(s: State, r: State)
    requires r.waits == s.waits
    ensures WaitsAdvance(s, r)
  {
  }

  /** The life of a cond_wait call: queued, taken off by a signaller, signalled by it, done. No event skips a step or
      goes back. */
  lemma WaitLife(s: State, e: Event)
    requires Inv(s) && Enabled(s, e)
    ensures WaitsAdvance(s, Next(s, e))
  {
    hide Good, LockInv, CondInv, PopWaiter, PushWaiter, ContinueStep, UpSection, Block, Unblock, Tick, Yield, Exit,
      Spawn;
    hide WaitsAdvance;
    match e
    case HandlerUp(p, start) => UpKeeps(s, Plain(p, start)); SameWaits(s, Next(s, e));
    case Up(p, start) => UpKeeps(s, Plain(p, start)); SameWaits(s, Next(s, e));
    case CondWait(c) => PushAdvances(s, c);
    case Signal(c) => PopAdvances(s, c, false);
    case Broadcast(c) => PopAdvances(s, c, true);
    case Continue => ContinueAdvances(s);
    case _ => SameWaits(s, Next(s, e));
  }

  // ---- A call that takes waiters off the list -----------------------------------------------------------------------

  ghost predicate Freed(s: State, w: Waiter) {
    w in s.waits && (s.waits[w].phase == Signalled || s.waits[w].phase == Done)
  }

  ghost predicate FreedTo(q: seq<Waiter>, s: State, k: nat) {
    k <= |q| && forall i :: 0 <= i < k ==> Freed(s, q[i])
  }

  /** Thread `t` is inside cond_signal or, with `all`, cond_broadcast, and the list was `q` when it called: it holds the
      lock, a prefix of the list is gone, and those on it are free but, perhaps, the last one. */
  ghost predicate Popping(q: seq<Waiter>, s: State, t: Tid, c: Cond, all: bool) {
    var now := Queue(s.conds, c);
    var k := |q| - |now|;
    && t in s.pc && HeldBy(s, t, c.lock) && 1 <= k && now == q[k..] && (!all ==> k == 1)
    && ((s.pc[t] == CondUp(c, q[k - 1], all) && FreedTo(q, s, k - 1))
       || (all && s.pc[t] == CondPop(c) && FreedTo(q, s, k)))
  }

  /** It has just returned: all on the list are free and the list is empty, or the first one is and the rest wait. */
  ghost predicate Returned(q: seq<Waiter>, s: State, t: Tid, c: Cond, all: bool) {
    var k := if all || q == [] then |q| else 1;
    t in s.pc && s.pc[t] == User && HeldBy(s, t, c.lock) && Queue(s.conds, c) == q[k..] && FreedTo(q, s, k)
  }

  lemma StayFree(q: seq<Waiter>, s: State, r: State, k: nat)
    requires WaitsAdvance(s, r) && FreedTo(q, s, k)
    ensures FreedTo(q, r, k)
  {
  }

  ghost predicate OthersStay(s: State, r: State) {
    forall t :: t in s.pc && t != s.k.cur ==> t in r.pc && r.pc[t] == s.pc[t]
  }

  lemma DownStays(s: State, id: SemaId)
    requires s.k.cur in s.pc
    ensures OthersStay(s, DownStep(s, id))
  {
    hide Block, Asleep, AfterDown, Take, Enqueue, At;
  }

  lemma ContinueStays(s: State)
    requires s.k.cur in s.pc
    ensures OthersStay(s, ContinueStep(s))
  {
    hide DownStep, UpSection, Block, Unblock, SetIdle, Queue;
    match s.pc[s.k.cur]
    case SemaDown(p, start, _) => DownStays(s, Plain(p, start));
    case LockDown(l, _, _) => DownStays(s, OfLock(l));
    case CondDown(_, w, _) => DownStays(s, OfWaiter(w));
    case _ =>
  }

  lemma EventStays(s: State, e: Event)
    requires Enabled(s, e) && e != Continue && s.k.nextTid !in s.pc
    ensures OthersStay(s, Next(s, e)) && (s.pc[s.k.cur] != User ==> Next(s, e).pc == s.pc)
  {
    hide ContinueStep, Raise, WakeFirst, Tick, Yield, Exit, Spawn, At, Queue, Take;
  }

  /** Nobody else moves a thread that is inside a call. */
  lemma OthersKeep(s: State, e: Event, t: Tid)
    requires Inv(s) && Enabled(s, e) && t in s.pc && s.pc[t] != User && !(s.k.cur == t && e == Continue)
    ensures t in Next(s, e).pc && Next(s, e).pc[t] == s.pc[t]
  {
    hide Good, LockInv, CondInv, ContinueStep, UpSection, Tick, Yield, Exit, Spawn, PopWaiter, PushWaiter, ClearHolder,
      TryTake, Unblock, Block;
    FreshTid(s);
    if e == Continue { ContinueStays(s); } else { EventStays(s, e); }
  }

  lemma HoldsStill(s: State, e: Event, t: Tid, c: Cond)
    requires Inv(s) && Enabled(s, e) && t in Next(s, e).pc
    requires Next(s, e).pc[t] == CondPop(c) || (Next(s, e).pc[t].CondUp? && Next(s, e).pc[t].c == c)
    ensures HeldBy(Next(s, e), t, c.lock)
  {
    hide Next, Enabled, Inv;
    StepInv(s, e);
    InvParts(Next(s, e));
    PcLockAt(Next(s, e), t);
  }

  lemma OthersPopping(q: seq<Waiter>, s: State, e: Event, t: Tid, c: Cond, all: bool)
    requires Inv(s) && Popping(q, s, t, c, all) && Enabled(s, e) && !(s.k.cur == t && e == Continue)
    ensures Popping(q, Next(s, e), t, c, all)
  {
    hide Inv, Next, FreedTo, WaitsAdvance, Queue;
    var r, k := Next(s, e), |q| - |Queue(s.conds, c)|;
    OthersKeep(s, e, t);
    StepUnderLock(s, e, c);
    if s.k.cur == t { NoCondEvent(s, e, c); }
    assert Queue(r.conds, c) == Queue(s.conds, c);
    WaitLife(s, e);
    HoldsStill(s, e, t, c);
    if FreedTo(q, s, k) { StayFree(q, s, r, k); }
    if FreedTo(q, s, k - 1) { StayFree(q, s, r, k - 1); }
  }

  lemma NoCondEvent(s: State, e: Event, c: Cond)
    requires Enabled(s, e) && e != Continue && s.pc[s.k.cur] != User
    ensures Queue(Next(s, e).conds, c) == Queue(s.conds, c)
  {
    hide Next;
    OnlyCondEvents(s, e, c);
  }

  lemma SignalStep(q: seq<Waiter>, s: State, t: Tid, c: Cond, all: bool)
    requires Inv(s) && Popping(q, s, t, c, all) && s.k.cur == t && s.pc[t].CondUp?
    ensures var r := Next(s, Continue); Popping(q, r, t, c, all) || Returned(q, r, t, c, all)
  {
    hide Good, LockInv, CondInv, UpSection, WaitsAdvance, Queue;
    var r, k := Next(s, Continue), |q| - |Queue(s.conds, c)|;
    InvParts(s);
    PcCondAt(s, t);
    UpKeeps(s, OfWaiter(q[k - 1]));
    UpKeepsHolder(s, OfWaiter(q[k - 1]));
    WaitLife(s, Continue);
    StayFree(q, s, r, k - 1);
    assert Freed(r, q[k - 1]);
    assert FreedTo(q, r, k);
    assert Queue(r.conds, c) == Queue(s.conds, c);
  }

  lemma UpKeepsHolder(s: State, id: SemaId)
    ensures UpSection(s, id).holder == s.holder
  {
    hide Raise, WakeFirst;
  }

  /** One look at the list: it is empty and the call returns, or its first waiter is taken off. */
  lemma LookAtList(s: State, t: Tid, c: Cond, all: bool)
    requires Inv(s) && s.k.cur == t && t in s.pc
    ensures var r, q := PopWaiter(s, c, all), Queue(s.conds, c);
            && r.holder == s.holder && t in r.pc
            && (if q == [] then r.pc[t] == User && Queue(r.conds, c) == []
                else r.pc[t] == CondUp(c, q[0], all) && Queue(r.conds, c) == q[1..])
  {
    hide Good, LockInv;
    assert QueueOk(s, c);
    if Queue(s.conds, c) != [] { assert Queue(s.conds, c)[0] in Queue(s.conds, c); }
  }

  lemma PopStep(q: seq<Waiter>, s: State, t: Tid, c: Cond)
    requires Inv(s) && Popping(q, s, t, c, true) && s.k.cur == t && s.pc[t] == CondPop(c)
    ensures var r := Next(s, Continue); Popping(q, r, t, c, true) || Returned(q, r, t, c, true)
  {
    hide Good, LockInv, CondInv, PopWaiter, WaitsAdvance, Queue, FreedTo;
    var r, k := Next(s, Continue), |q| - |Queue(s.conds, c)|;
    LookAtList(s, t, c, true);
    WaitLife(s, Continue);
    StayFree(q, s, r, k);
  }

  /** Every event leaves the call where it is, or moves it on, or is its return. */
  lemma PoppingStep(q: seq<Waiter>, s: State, e: Event, t: Tid, c: Cond, all: bool)
    requires Inv(s) && Popping(q, s, t, c, all) && Enabled(s, e)
    ensures var r := Next(s, e); Popping(q, r, t, c, all) || Returned(q, r, t, c, all)
  {
    hide Inv, Next, FreedTo, Queue;
    if s.k.cur == t && e == Continue {
      if s.pc[t].CondUp? { SignalStep(q, s, t, c, all); } else { PopStep(q, s, t, c); }
    } else {
      OthersPopping(q, s, e, t, c, all);
    }
  }

  /** The calls themselves. */
  function Waking(c: Cond, all: bool): (e: Event) {
    if all then Broadcast(c) else Signal(c)
  }

  lemma PoppingStart(s: State, c: Cond, all: bool)
    requires Inv(s) && Enabled(s, Waking(c, all))
    ensures var q, r := Queue(s.conds, c), Next(s, Waking(c, all));
            if q == [] then Returned(q, r, s.k.cur, c, all) else Popping(q, r, s.k.cur, c, all)
  {
    hide Good, LockInv, CondInv, PopWaiter, Queue;
    LookAtList(s, s.k.cur, c, all);
  }

  // ---- Over runs ----------------------------------------------------------------------------------------------------

  /** Thread `t` is not back in its own code at any moment of the run. */
  ghost predicate Busy(s: State, es: seq<Event>, t: Tid)
    requires Legal(s, es)
    decreases |es|
  {
    t in s.pc && s.pc[t] != User && (es == [] || Busy(Next(s, es[0]), es[1..], t))
  }

  lemma {:induction false} StillPopping(q: seq<Waiter>, s: State, es: seq<Event>, t: Tid, c: Cond, all: bool)
    requires Inv(s) && Popping(q, s, t, c, all) && Legal(s, es) && Busy(s, es, t)
    ensures Inv(After(s, es)) && Popping(q, After(s, es), t, c, all)
    decreases |es|
  {
    hide Inv, Next, Enabled, Popping;
    if es != [] {
      PoppingStep(q, s, es[0], t, c, all);
      StepInv(s, es[0]);
      assert Busy(Next(s, es[0]), es[1..], t);
      NotReturned(q, Next(s, es[0]), es[1..], t, c, all);
      StillPopping(q, Next(s, es[0]), es[1..], t, c, all);
    }
  }

  lemma NotReturned(q: seq<Waiter>, s: State, es: seq<Event>, t: Tid, c: Cond, all: bool)
    requires Legal(s, es) && Busy(s, es, t)
    ensures !Returned(q, s, t, c, all)
  {
  }

  /** A call of cond_signal or cond_broadcast in any run, up to its return: the caller holds the lock all the time and
      the list only shrinks; when the call returns, cond_broadcast has freed every waiter that was on the list, oldest
      first, and left it empty, and cond_signal has freed the first one, if any, and left the others. */
  lemma WakingReturns(s: State, es: seq<Event>, e: Event, c: Cond, all: bool)
    requires Reachable(s) && Enabled(s, Waking(c, all)) && Legal(Next(s, Waking(c, all)), es)
    requires var r := Next(s, Waking(c, all)); Busy(r, es, s.k.cur) && Enabled(After(r, es), e)
    ensures var t, q, r := s.k.cur, Queue(s.conds, c), After(Next(s, Waking(c, all)), es);
            && HeldBy(r, t, c.lock) && |Queue(r.conds, c)| < |q| && Queue(r.conds, c) == q[|q| - |Queue(r.conds, c)|..]
            && (t in Next(r, e).pc && Next(r, e).pc[t] == User ==> Returned(q, Next(r, e), t, c, all))
  {
    hide Inv, Next, Enabled, Queue, FreedTo;
    ReachableInv(s);
    var t, q, r := s.k.cur, Queue(s.conds, c), Next(s, Waking(c, all));
    PoppingStart(s, c, all);
    StepInv(s, Waking(c, all));
    NotReturned(q, r, es, t, c, all);
    StillPopping(q, r, es, t, c, all);
    PoppingStep(q, After(r, es), e, t, c, all);
  }

  /** It returns at once exactly when nobody waits. */
  lemma WakingNobody(s: State, c: Cond, all: bool)
    requires Reachable(s) && Enabled(s, Waking(c, all))
    ensures var r := Next(s, Waking(c, all));
            s.k.cur in r.pc && (r.pc[s.k.cur] == User <==> Queue(s.conds, c) == [])
              && (Queue(s.conds, c) == [] ==> r.waits == s.waits)
  {
    hide Inv;
    ReachableInv(s);
    PoppingStart(s, c, all);
  }

  /** The steps that thread `t` takes in a run. */
  ghost function Turns(s: State, es: seq<Event>, t: Tid): (n: nat)
    requires Legal(s, es)
    decreases |es|
  {
    if es == [] then 0 else (if s.k.cur == t && es[0] == Continue then 1 else 0) + Turns(Next(s, es[0]), es[1..], t)
  }

  /** The steps that the call still has to take, but the last. */
  ghost function Remaining(s: State, t: Tid, c: Cond): (n: nat) {
    2 * |Queue(s.conds, c)| + (if t in s.pc && s.pc[t].CondUp? then 1 else 0)
  }

  lemma TurnCounts(q: seq<Waiter>, s: State, e: Event, t: Tid, c: Cond, all: bool)
    requires Inv(s) && Popping(q, s, t, c, all) && Enabled(s, e) && Popping(q, Next(s, e), t, c, all)
    ensures Remaining(Next(s, e), t, c) == Remaining(s, t, c) - if s.k.cur == t && e == Continue then 1 else 0
  {
    hide Good, LockInv, CondInv, UpSection, PopWaiter, FreedTo, Queue, Enabled;
    if s.k.cur == t && e == Continue {
      hide DownStep, Block, Unblock;
      if s.pc[t].CondUp? { UpKeeps(s, OfWaiter(s.pc[t].w)); } else { LookAtList(s, t, c, all); }
    } else {
      hide Next;
      OthersKeep(s, e, t);
      StepUnderLock(s, e, c);
      if s.k.cur == t { NoCondEvent(s, e, c); }
    }
  }

  lemma {:induction false} TurnsCount(q: seq<Waiter>, s: State, es: seq<Event>, t: Tid, c: Cond, all: bool)
    requires Inv(s) && Popping(q, s, t, c, all) && Legal(s, es) && Busy(s, es, t)
    ensures Turns(s, es, t) + Remaining(After(s, es), t, c) == Remaining(s, t, c)
    decreases |es|
  {
    hide Inv, Next, Enabled, Popping, Remaining;
    if es != [] {
      PoppingStep(q, s, es[0], t, c, all);
      StepInv(s, es[0]);
      NotReturned(q, Next(s, es[0]), es[1..], t, c, all);
      TurnCounts(q, s, es[0], t, c, all);
      TurnsCount(q, Next(s, es[0]), es[1..], t, c, all);
    }
  }

  /** The call returns, whatever the others do: with n waiters on the list, at the latest at its own step 2n. */
  lemma WakingEnds(s: State, es: seq<Event>, c: Cond, all: bool)
    requires Reachable(s) && Enabled(s, Waking(c, all)) && Legal(Next(s, Waking(c, all)), es)
    requires Busy(Next(s, Waking(c, all)), es, s.k.cur)
    ensures Turns(Next(s, Waking(c, all)), es, s.k.cur) < 2 * |Queue(s.conds, c)|
  {
    hide Inv, Next, Enabled, Queue, FreedTo;
    ReachableInv(s);
    var t, q, r := s.k.cur, Queue(s.conds, c), Next(s, Waking(c, all));
    PoppingStart(s, c, all);
    StepInv(s, Waking(c, all));
    NotReturned(q, r, es, t, c, all);
    TurnsCount(q, r, es, t, c, all);
  }

  lemma {:induction false} FreedForGood(q: seq<Waiter>, s: State, es: seq<Event>)
    requires Inv(s) && Legal(s, es) && FreedTo(q, s, |q|)
    ensures FreedTo(q, After(s, es), |q|)
    decreases |es|
  {
    hide Inv, Next, Enabled, FreedTo, WaitsAdvance;
    if es != [] {
      WaitLife(s, es[0]);
      StepInv(s, es[0]);
      StayFree(q, s, Next(s, es[0]), |q|);
      FreedForGood(q, Next(s, es[0]), es[1..]);
    }
  }

  lemma {:induction false} PoppingEnds(q: seq<Waiter>, s: State, es: seq<Event>, t: Tid, c: Cond)
    requires Inv(s) && Popping(q, s, t, c, true) && Legal(s, es)
    ensures (t in After(s, es).pc && After(s, es).pc[t] != User) || FreedTo(q, After(s, es), |q|)
    decreases |es|
  {
    hide Inv, Next, Enabled, FreedTo;
    if es != [] {
      var r := Next(s, es[0]);
      PoppingStep(q, s, es[0], t, c, true);
      StepInv(s, es[0]);
      if Popping(q, r, t, c, true) { PoppingEnds(q, r, es[1..], t, c); } else { FreedForGood(q, r, es[1..]); }
    }
  }

  /** cond_broadcast wakes all: once the caller is in its own code again, or has exited, every cond_wait call that was
      on the list has been signalled, and stays so. */
  lemma BroadcastFreesAll(s: State, es: seq<Event>, c: Cond, w: Waiter)
    requires Reachable(s) && Enabled(s, Broadcast(c)) && Legal(Next(s, Broadcast(c)), es) && w in Queue(s.conds, c)
    ensures var r := After(Next(s, Broadcast(c)), es);
            s.k.cur !in r.pc || r.pc[s.k.cur] == User ==>
              w in r.waits
              && (r.waits[w].phase == Signalled || r.waits[w].phase == Done)
  {
    hide Inv, Next, Enabled, Queue;
    ReachableInv(s);
    var q, r := Queue(s.conds, c), Next(s, Broadcast(c));
    PoppingStart(s, c, true);
    StepInv(s, Broadcast(c));
    PoppingEnds(q, r, es, s.k.cur, c);
    var i :| 0 <= i < |q| && q[i] == w;
  }
}
