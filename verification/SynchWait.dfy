/** Wait lists: who is on them, what the semaphore values count, and why no wake-up is lost. */
module SynchWait {
  import opened Basics
  import opened Scheduler
  import opened Synch

  /** `t` sleeps inside sema_down on `id`. */
  ghost predicate Sleeps(s: State, t: Tid, id: SemaId) {
    t in s.pc && t in s.k.status && s.k.status[t] == Blocked && DownTarget(s.pc[t]) == Some(id) && Slept(s.pc[t])
  }

  /** `t` was taken off the wait list of `id` by sema_up and has not tested the value again yet. */
  ghost predicate Awake(s: State, t: Tid, id: SemaId) {
    t in s.pc && t in s.k.status && s.k.status[t] != Blocked && DownTarget(s.pc[t]) == Some(id) && Slept(s.pc[t])
  }

  ghost function Woken(s: State, id: SemaId): (r: set<Tid>) {
    set t | t in s.pc && Awake(s, t, id)
  }

  /** The wait list of a semaphore holds exactly its sleepers, once each. */
  ghost predicate ListOk(s: State, id: SemaId) {
    NoDup(At(s.semas, id).waiters) && (forall t :: t in At(s.semas, id).waiters <==> Sleeps(s, t, id))
  }

  ghost predicate ListInv(s: State) {
    s.pc.Keys == s.k.status.Keys && (forall id :: ListOk(s, id))
  }

  /** Only the boot thread runs the idle code, and it has introduced itself exactly when past it. */
  ghost predicate BootInv(s: State) {
    && (forall t :: t in s.pc ==> (s.pc[t] in {BootIdle, BootUp, Idling} <==> t == s.k.boot))
    && s.k.boot in s.pc
    && (s.pc[s.k.boot] == BootIdle <==> s.k.idle.None?)
  }

  /** A thread under construction is blocked, off every list, and has one creator. */
  ghost predicate SpawnedInv(s: State) {
    && (forall t :: t in s.pc && s.pc[t].Spawned? ==>
         var n := s.pc[t].n;
           n != s.k.boot && n in s.pc && s.pc[n] == User && n in s.k.status
           && s.k.status[n] == Blocked)
    && (forall t, u :: t in s.pc && u in s.pc && s.pc[t].Spawned? && s.pc[t] == s.pc[u] ==> t == u)
  }

  ghost predicate WaitInv(s: State) {
    SchedInv(s.k) && ListInv(s) && BootInv(s) && SpawnedInv(s)
  }

  /** While somebody waits, every unit of the value is spoken for by a woken thread. */
  ghost predicate WakeOk(s: State, id: SemaId) {
    At(s.semas, id).waiters != [] ==> At(s.semas, id).value <= |Woken(s, id)|
  }

  ghost predicate WakeInv(s: State) {
    forall id :: WakeOk(s, id)
  }

  /** The value is what was there at the start, plus the ups, minus the completed downs. */
  ghost predicate CountInv(s: State) {
    forall id :: Counted(At(s.semas, id), id)
  }

  ghost predicate Counted(m: Sema, id: SemaId) {
    m.downs <= StartValue(id) + m.ups && m.value == (StartValue(id) + m.ups - m.downs) % WORD
  }

  // ---- One section at a time ---------------------------------------------------------------------

  /** Nothing about semaphore `id` differs between the two states. */
  ghost predicate SameAt(s: State, r: State, id: SemaId) {
    && At(s.semas, id) == At(r.semas, id)
    && (forall t :: (Sleeps(s, t, id) <==> Sleeps(r, t, id)) && (Awake(s, t, id) <==> Awake(r, t, id)))
  }

  lemma SameAtKeeps(s: State, r: State, id: SemaId)
    requires SameAt(s, r, id)
    ensures ListOk(s, id) ==> ListOk(r, id)
    ensures WakeOk(s, id) ==> WakeOk(r, id)
  {
    assert Woken(s, id) == Woken(r, id);
  }

  /** All semaphores at once: `id` was treated separately. */
  lemma Collect(s: State, r: State, id: SemaId)
    requires ListInv(s) && WakeInv(s) && r.pc.Keys == r.k.status.Keys
    requires forall j :: j != id ==> SameAt(s, r, j)
    requires ListOk(r, id) && WakeOk(r, id)
    ensures ListInv(r) && WakeInv(r)
  {
    forall j ensures ListOk(r, j) && WakeOk(r, j) {
      if j != id { SameAtKeeps(s, r, j); }
    }
  }

  // sema_up

  lemma UpFields(s: State, id: SemaId)
    requires ListOk(s, id)
    ensures var m, r := At(s.semas, id), UpSection(s, id);
            && r.pc == s.pc
            && (forall j :: j != id ==> At(r.semas, j) == At(s.semas, j))
            && At(r.semas, id) == m.(value := (m.value + 1) % WORD, ups := m.ups + 1, waiters := if m.waiters == []
               then [] else m.waiters[1..])
            && (m.waiters == [] ==> r.k == s.k)
            && (m.waiters != [] ==> Sleeps(s, m.waiters[0], id) && r.k == Unblock(s.k, m.waiters[0])
                                    && r.k.status == s.k.status[m.waiters[0] := Ready])
  {
    var m := At(s.semas, id);
    if m.waiters != [] {
      assert m.waiters[0] in m.waiters;
    }
  }

  /** What sema_up does to one semaphore and the threads inside sema_down on it. */
  lemma UpSelf(s: State, r: State, id: SemaId, m: Sema)
    requires m == At(s.semas, id) && ListOk(s, id) && WakeOk(s, id)
    requires m.waiters != [] && r.pc == s.pc
    requires r.k.status == s.k.status[m.waiters[0] := Ready] && Sleeps(s, m.waiters[0], id)
    requires At(r.semas, id) == m.(value := (m.value + 1) % WORD, ups := m.ups + 1, waiters := m.waiters[1..])
    ensures ListOk(r, id) && WakeOk(r, id)
  {
    TailOfNoDup(m.waiters);
    assert Woken(r, id) == Woken(s, id) + {m.waiters[0]};
  }

  lemma UpOther(s: State, r: State, id: SemaId, t: Tid, j: SemaId)
    requires j != id && At(s.semas, j) == At(r.semas, j) && r.pc == s.pc
    requires r.k.status == s.k.status[t := Ready] && Sleeps(s, t, id)
    ensures SameAt(s, r, j)
  {
  }

  lemma UpKeeps(s: State, id: SemaId)
    requires ListInv(s) && WakeInv(s)
    ensures ListInv(UpSection(s, id)) && WakeInv(UpSection(s, id))
  {
    hide ListOk, WakeOk, SameAt, Sleeps, UpSection, Unblock;
    var m := At(s.semas, id);
    var r := UpSection(s, id);
    assert ListOk(s, id) && WakeOk(s, id);
    UpFields(s, id);
    if m.waiters != [] {
      UpSelf(s, r, id, m);
      forall j | j != id ensures SameAt(s, r, j) { UpOther(s, r, id, m.waiters[0], j); }
      SleeperHasStatus(s, m.waiters[0], id);
    } else {
      UpEmpty(s, r, id);
    }
    Collect(s, r, id);
  }

  lemma SleeperHasStatus(s: State, t: Tid, id: SemaId)
    requires Sleeps(s, t, id)
    ensures t in s.pc && t in s.k.status && s.k.status[t] == Blocked
  {
  }

  lemma UpEmpty(s: State, r: State, id: SemaId)
    requires ListInv(s) && WakeInv(s) && r.k == s.k && r.pc == s.pc
    requires At(s.semas, id).waiters == [] == At(r.semas, id).waiters
    requires forall j :: j != id ==> At(s.semas, j) == At(r.semas, j)
    ensures ListOk(r, id) && WakeOk(r, id)
    ensures forall j :: j != id ==> SameAt(s, r, j)
  {
    assert ListOk(s, id);
  }

  // sema_try_down and the successful branch of sema_down

  /** Taking one unit costs at most one woken thread, the one that took it. */
  lemma TakeSelf(s: State, r: State, id: SemaId, cur: Tid)
    requires ListOk(s, id) && WakeOk(s, id)
    requires var m := At(s.semas, id); m.value > 0 && At(r.semas, id) == m.(value := m.value - 1, downs := m.downs + 1)
    requires r.k.status == s.k.status
    requires cur in s.k.status && s.k.status[cur] != Blocked
    requires r.pc.Keys == s.pc.Keys && forall t :: t in s.pc && t != cur ==> r.pc[t] == s.pc[t]
    ensures ListOk(r, id) && WakeOk(r, id)
  {
    assert forall t :: Sleeps(r, t, id) <==> Sleeps(s, t, id);
    SubsetCard(Woken(s, id) - {cur}, Woken(r, id));
  }

  lemma SubsetCard<T>(a: set<T>, b: set<T>)
    requires a <= b
    ensures |a| <= |b|
  {
    assert b == a + (b - a);
  }

  /** A thread that is not blocked and not inside a second round of sema_down on `j`, before or after. */
  ghost predicate Aloof(s: State, t: Tid, j: SemaId) {
    t in s.pc && t in s.k.status && s.k.status[t] != Blocked && (DownTarget(s.pc[t]) == Some(j) ==> !Slept(s.pc[t]))
  }

  lemma AloofChange(s: State, r: State, t: Tid, j: SemaId)
    requires At(s.semas, j) == At(r.semas, j) && r.k.status == s.k.status
    requires r.pc.Keys == s.pc.Keys && forall u :: u in s.pc && u != t ==> r.pc[u] == s.pc[u]
    requires Aloof(s, t, j) && Aloof(r, t, j)
    ensures SameAt(s, r, j)
  {
  }

  lemma TakeKeeps(s: State, r: State, id: SemaId, cur: Tid)
    requires ListInv(s) && WakeInv(s)
    requires var m := At(s.semas, id);
               m.value > 0
               && r.semas == s.semas[id := m.(value := m.value - 1, downs := m.downs + 1)]
    requires r.k == s.k && cur in s.pc && cur in s.k.status && s.k.status[cur] != Blocked
    requires r.pc.Keys == s.pc.Keys && forall t :: t in s.pc && t != cur ==> r.pc[t] == s.pc[t]
    requires !Slept(r.pc[cur]) && (Slept(s.pc[cur]) ==> DownTarget(s.pc[cur]) == Some(id))
    ensures ListInv(r) && WakeInv(r)
  {
    hide ListOk, WakeOk, SameAt, Sleeps;
    assert ListOk(s, id) && WakeOk(s, id);
    TakeSelf(s, r, id, cur);
    forall j | j != id ensures SameAt(s, r, j) { AloofChange(s, r, cur, j); }
    Collect(s, r, id);
  }

  // the branch of sema_down that sleeps

  lemma SleepEffect(k: Sched)
    requires SchedInv(k) && k.cur != k.boot
    ensures var r := Block(k);
            && SchedInv(r)
            && r.status.Keys == k.status.Keys
            && r.boot == k.boot && r.idle == k.idle
            && r.status[k.cur] == Blocked
            && (forall t :: t in r.status && t != k.boot && t != k.cur ==>
               (r.status[t] == Blocked <==> k.status[t] == Blocked))
  {
    BlockInv(k);
    ScheduleKeepsBlocked(SetStatus(k, k.cur, Blocked));
  }

  /** The idle thread is never inside sema_down. */
  lemma BootNeverDown(s: State, t: Tid, j: SemaId)
    requires BootInv(s)
    ensures Sleeps(s, t, j) || Awake(s, t, j) ==> t != s.k.boot
  {
  }

  lemma SleepSelf(s: State, r: State, id: SemaId, cur: Tid)
    requires ListOk(s, id) && BootInv(s) && cur != s.k.boot
    requires At(s.semas, id).value == 0
             && At(r.semas, id) == At(s.semas, id).(waiters := At(s.semas, id).waiters + [cur])
    requires cur in s.pc && cur in s.k.status && s.k.status[cur] != Blocked && DownTarget(s.pc[cur]) == Some(id)
    requires r.pc == s.pc[cur := Asleep(s.pc[cur])] && s.pc.Keys == s.k.status.Keys
    requires BlockedExcept(s.k.status, r.k.status, s.k.boot, cur) && cur in r.k.status && r.k.status[cur] == Blocked
    ensures ListOk(r, id) && WakeOk(r, id)
  {
    assert cur !in At(s.semas, id).waiters;
    AppendNoDup(At(s.semas, id).waiters, cur);
    forall t ensures t in At(r.semas, id).waiters <==> Sleeps(r, t, id) {
      BootNeverDown(s, t, id);
    }
  }

  /** The two status maps agree on who is blocked, up to two threads. */
  ghost predicate BlockedExcept(a: map<Tid, Status>, b: map<Tid, Status>, x: Tid, y: Tid) {
    && b.Keys == a.Keys
    && (forall t :: t in a && t != x && t != y ==> (a[t] == Blocked <==> b[t] == Blocked))
  }

  lemma SleepOther(s: State, r: State, j: SemaId, cur: Tid)
    requires BootInv(s) && cur != s.k.boot
    requires At(r.semas, j) == At(s.semas, j)
    requires cur in s.pc && DownTarget(s.pc[cur]).Some? && DownTarget(s.pc[cur]) != Some(j)
    requires r.pc == s.pc[cur := Asleep(s.pc[cur])] && s.pc.Keys == s.k.status.Keys
    requires BlockedExcept(s.k.status, r.k.status, s.k.boot, cur)
    ensures SameAt(s, r, j)
  {
    forall t ensures (Sleeps(s, t, j) <==> Sleeps(r, t, j)) && (Awake(s, t, j) <==> Awake(r, t, j)) {
      BootNeverDown(s, t, j);
    }
  }

  lemma SleepKeeps(s: State, id: SemaId)
    requires WaitInv(s) && WakeInv(s) && s.k.cur in s.pc
    requires At(s.semas, id).value == 0 && DownTarget(s.pc[s.k.cur]) == Some(id)
    ensures ListInv(DownSleep(s, id)) && WakeInv(DownSleep(s, id)) && SchedInv(DownSleep(s, id).k)
  {
    hide WaitInv, SchedInv, ListOk, WakeOk, SameAt, Sleeps, BootInv, Block;
    var cur := s.k.cur;
    var r := DownSleep(s, id);
    CurFacts(s);
    SleepEffect(s.k);
    assert ListOk(s, id);
    SleepSelf(s, r, id, cur);
    forall j | j != id ensures SameAt(s, r, j) { SleepOther(s, r, j, cur); }
    Collect(s, r, id);
  }

  /** The running thread is not blocked, and not the idle thread when it is inside a call. */
  lemma CurFacts(s: State)
    requires WaitInv(s)
    ensures SchedInv(s.k) && ListInv(s) && BootInv(s) && SpawnedInv(s)
    ensures s.k.cur in s.pc && s.k.cur in s.k.status && s.k.status[s.k.cur] == Running
    ensures s.pc[s.k.cur] !in {BootIdle, BootUp, Idling} ==> s.k.cur != s.k.boot
  {
  }

  // ---- Steps that only move a program counter or only reschedule ---------------------------------

  lemma PcOnlyLists(s: State, r: State, cur: Tid)
    requires ListInv(s) && WakeInv(s)
    requires r.k.status == s.k.status && r.semas == s.semas
    requires cur in s.pc && cur in s.k.status && s.k.status[cur] != Blocked
    requires r.pc.Keys == s.pc.Keys && forall u :: u in s.pc && u != cur ==> r.pc[u] == s.pc[u]
    requires !Slept(s.pc[cur]) && !Slept(r.pc[cur])
    ensures ListInv(r) && WakeInv(r)
  {
    forall j ensures ListOk(r, j) && WakeOk(r, j) {
      assert ListOk(s, j) && WakeOk(s, j);
      AloofChange(s, r, cur, j);
      SameAtKeeps(s, r, j);
    }
  }

  lemma RescheduleLists(s: State, r: State)
    requires ListInv(s) && WakeInv(s) && BootInv(s)
    requires r.semas == s.semas && r.pc == s.pc && BlockedExcept(s.k.status, r.k.status, s.k.boot, s.k.boot)
    ensures ListInv(r) && WakeInv(r)
  {
    forall j ensures ListOk(r, j) && WakeOk(r, j) {
      assert ListOk(s, j) && WakeOk(s, j);
      forall t ensures (Sleeps(s, t, j) <==> Sleeps(r, t, j)) && (Awake(s, t, j) <==> Awake(r, t, j)) {
        BootNeverDown(s, t, j);
      }
      SameAtKeeps(s, r, j);
    }
  }

  /** The boot thread keeps its code and nobody else gets it. */
  lemma BootKeeps(s: State, r: State)
    requires BootInv(s) && r.k.boot == s.k.boot
    requires s.k.boot in r.pc && (r.pc[r.k.boot] == BootIdle <==> r.k.idle.None?)
    requires r.pc[s.k.boot] in {BootIdle, BootUp, Idling}
    requires forall t :: t in r.pc && t != s.k.boot ==>
               (t in s.pc && r.pc[t] == s.pc[t])
               || r.pc[t] !in {BootIdle, BootUp, Idling}
    ensures BootInv(r)
  {
  }

  /** No new thread under construction, and those there stay blocked and untouched. */
  lemma SpawnedKeeps(s: State, r: State)
    requires SpawnedInv(s) && r.k.boot == s.k.boot
    requires forall t :: t in r.pc && r.pc[t].Spawned? ==> t in s.pc && s.pc[t] == r.pc[t]
    requires forall n ::
               n in s.pc && n in s.k.status && s.pc[n] == User && s.k.status[n] == Blocked
               && n != s.k.boot ==>
                           n in r.pc && n in r.k.status && r.pc[n] == User && r.k.status[n] == Blocked
    ensures SpawnedInv(r)
  {
  }
}
