/** What holds over every interleaving of threads and timer ticks, from start-up on. */
module Interleavings {
  import opened Basics
  import opened ThreadQueue
  import opened Scheduling
  import opened Locks

  // ---------------------------------------------------------------- exactly one place

  datatype Place = OnCpu | InReady | InSleep | InWait(q: Pc)

  ghost predicate IsAt(s: System, t: Tid, p: Place) {
    match p
    case OnCpu => t == s.core.current
    case InReady => t in s.core.ready
    case InSleep => t in s.core.sleep
    case InWait(q) => t in Waiters(s, q)
  }

  function TagAt(p: Place): Tag {
    match p
    case OnCpu => Running
    case InReady => Ready
    case InSleep => Blocked
    case InWait(_) => Blocked
  }

  /** In every reachable state each live thread is on the processor, in the ready queue, in the sleep
      queue or in one wait queue: in exactly one of them, once, and its tag agrees. */
  lemma OnePlace(s0: System, steps: seq<Step>, t: Tid) returns (p: Place)
    requires Boot(s0) && CanRun(s0, steps) && t in After(s0, steps).core.tag
    ensures var s := After(s0, steps);
            && IsAt(s, t, p) && s.core.tag[t] == TagAt(p)
            && (forall p' :: IsAt(s, t, p') ==> p' == p)
            && Distinct(s.core.ready) && Distinct(s.core.sleep) && forall q :: Distinct(Waiters(s, q))
  {
    var s := After(s0, steps);
    assert t in s.core.tag;
    EveryRunIsSafe(s0, steps);
    hide Boot, CanRun, After;
    p := PlaceOf(s, t);
  }

  lemma PlaceOf(s: System, t: Tid) returns (p: Place)
    requires Inv(s) && t in s.core.tag
    ensures IsAt(s, t, p) && s.core.tag[t] == TagAt(p)
    ensures forall p' :: IsAt(s, t, p') ==> p' == p
    ensures Distinct(s.core.ready) && Distinct(s.core.sleep) && forall q :: Distinct(Waiters(s, q))
  {
    hide Inv, PlacesHold, NoneOverdue, PlacesSettled, LocksHold, Distinct, Waiters, StuckOn;
    InvIs(s);
    PlacesIs(s);
    LocksHoldIs(s);
    forall q ensures Distinct(Waiters(s, q)) ensures t in Waiters(s, q) <==> q != Free && StuckOn(s, t, q) {
      InWaiters(s, t, q);
    }
    p := if s.core.tag[t] == Running then OnCpu
         else if s.core.tag[t] == Ready then InReady
         else if s.pc[t] == Free then InSleep
         else InWait(s.pc[t]);
    forall p' ensures IsAt(s, t, p') <==> p' == p { PlaceIs(s, t, p', p); }
  }

  lemma InWaiters(s: System, t: Tid, q: Pc)
    requires QueuesHold(s)
    ensures Distinct(Waiters(s, q)) && (t in Waiters(s, q) <==> q != Free && StuckOn(s, t, q))
  {
    if q != Free { assert QueueHolds(s, q); }
  }

  lemma PlaceIs(s: System, t: Tid, p': Place, p: Place)
    requires CoreInv(s.core, Stuck(s)) && t in s.core.tag && s.core.tag.Keys == s.pc.Keys
    requires forall q: Pc :: t in Waiters(s, q) <==> q != Free && StuckOn(s, t, q)
    requires p == if s.core.tag[t] == Running then OnCpu
                  else if s.core.tag[t] == Ready then InReady
                  else if s.pc[t] == Free then InSleep
                  else InWait(s.pc[t])
    ensures IsAt(s, t, p') <==> p' == p
  {
    hide Waiters, Distinct;
  }

  // ---------------------------------------------------------------- locks

  /** In every reachable state a mutex is locked exactly while it has an owner, at most one thread is
      inside, and it is the owner. */
  lemma MutualExclusion(s0: System, steps: seq<Step>, m: nat)
    requires Boot(s0) && CanRun(s0, steps) && m in After(s0, steps).mutexes
    ensures var s := After(s0, steps);
            var x := s.mutexes[m];
            && (x.locked <==> x.owner.Some?)
            && m in s.holding && (forall t :: t in s.holding[m] <==> x.owner == Some(t))
            && |s.holding[m]| <= 1
  {
    EveryRunIsSafe(s0, steps);
    var s := After(s0, steps);
    assert MutexHolds(s, m);
  }

  /** A thread is ready, or runs, and is about to look at the lock behind `q` again. */
  ghost predicate WillRetry(s: System, t: Tid, q: Pc) {
    t in s.pc && s.pc[t] == q && (t == s.core.current || t in s.core.ready)
  }

  /** In every reachable state, if threads wait for a mutex then it is locked, or a thread woken for it
      is about to try again. */
  lemma NoLostWakeup(s0: System, steps: seq<Step>, m: nat)
    requires Boot(s0) && CanRun(s0, steps) && m in After(s0, steps).mutexes
    ensures var s := After(s0, steps);
            s.mutexes[m].waiters != [] && !s.mutexes[m].locked ==> exists t :: WillRetry(s, t, WantMutex(m))
  {
    EveryRunIsSafe(s0, steps);
    var s := After(s0, steps);
    assert MutexHolds(s, m);
    if s.mutexes[m].waiters != [] && !s.mutexes[m].locked {
      var t :| t in Retrying(s, WantMutex(m));
      RetryingRuns(s, WantMutex(m), t);
      assert WillRetry(s, t, WantMutex(m));
    }
  }

  lemma RetryingRuns(s: System, q: Pc, t: Tid)
    requires Inv(s)
    ensures t in Retrying(s, q) <==> t in s.core.tag && WillRetry(s, t, q)
  {
    assert Settled(s.core, Stuck(s));
  }

  /** In every reachable state a semaphore's initial value plus the posts made is its count plus the
      waits completed, the count is not negative, and while threads wait it is at most the number of
      woken threads still to retry. */
  lemma UnitsAreConserved(s0: System, steps: seq<Step>, k: nat)
    requires Boot(s0) && CanRun(s0, steps) && k in After(s0, steps).sems
    ensures var s := After(s0, steps);
            && 0 <= s.sems[k].count && k in s.log
            && s.log[k].initial + s.log[k].posts == s.sems[k].count + s.log[k].taken
            && (s.sems[k].waiters != [] ==>
                  s.sems[k].count <= |set t | t in s.core.tag && WillRetry(s, t, WantSem(k))|)
  {
    EveryRunIsSafe(s0, steps);
    var s := After(s0, steps);
    assert SemHolds(s, k);
    forall t ensures t in Retrying(s, WantSem(k)) <==> t in s.core.tag && WillRetry(s, t, WantSem(k)) {
      RetryingRuns(s, WantSem(k), t);
    }
    assert Retrying(s, WantSem(k)) == set t | t in s.core.tag && WillRetry(s, t, WantSem(k));
  }

  /** Only the owner releases a mutex, only an open mutex is taken, and only by the running thread. */
  lemma OwnerStep(s: System, step: Step, m: nat)
    requires Inv(s) && Enabled(s, step) && m in s.mutexes
    ensures m in Apply(s, step).mutexes
    ensures var x, x', me := s.mutexes[m], Apply(s, step).mutexes[m], s.core.current;
            && (x.owner.Some? && x'.owner != x.owner ==>
                  step == UnlockStep(m) && x.owner == Some(me) && x'.owner == None)
            && (x.owner == None && x'.owner != None ==> step == LockStep(m) && !x.locked && x'.owner == Some(me))
  {
    hide *;
    if step == LockStep(m) {
      OwnerAfterLock(s, m);
    } else if step == UnlockStep(m) {
      OwnerAfterUnlock(s, m);
    } else {
      OtherMutexes(s, step, m);
    }
  }

  lemma OtherMutexes(s: System, step: Step, m: nat)
    requires Enabled(s, step) && m in s.mutexes && step != LockStep(m) && step != UnlockStep(m)
    ensures m in Apply(s, step).mutexes && Apply(s, step).mutexes[m] == s.mutexes[m]
  {
    hide LockAttempt, Unlock, Post, WaitAttempt, SleepFor, TimerTick, Schedule, Drop, MakeReady;
  }

  lemma OwnerAfterLock(s: System, m: nat)
    requires Inv(s) && Enabled(s, LockStep(m))
    ensures m in s.mutexes && m in Apply(s, LockStep(m)).mutexes
    ensures var x, x' := s.mutexes[m], Apply(s, LockStep(m)).mutexes[m];
            x'.owner == x.owner || (x.owner == None && !x.locked && x'.owner == Some(s.core.current))
  {
    assert MutexHolds(s, m);
    hide Inv, Schedule, Block, Retrying;
  }

  lemma OwnerAfterUnlock(s: System, m: nat)
    requires Enabled(s, UnlockStep(m))
    ensures m in s.mutexes && m in Apply(s, UnlockStep(m)).mutexes
    ensures var x, x' := s.mutexes[m], Apply(s, UnlockStep(m)).mutexes[m];
            x'.owner == x.owner || (x.owner == Some(s.core.current) && x'.owner == None)
  {
    hide MakeReady;
  }

  // ---------------------------------------------------------------- calls of schedule()

  /** Whether a step calls `schedule()`. */
  ghost predicate Schedules(s: System, step: Step)
    requires Enabled(s, step)
  {
    match step
    case Tick => true
    case Yield => true
    case LockStep(m) =>
      s.mutexes[m].locked && !(s.pc[s.core.current] == Free && s.mutexes[m].owner == Some(s.core.current))
    case SleepStep(ms) => ms != 0
    case WaitStep(k) => s.sems[k].count <= 0
    case _ => false
  }

  /** The core as `schedule()` finds it. */
  ghost function AtCall(s: System, step: Step): Core<Tid> {
    match step
    case Tick => s.core.(ticks := NextTick(s.core.ticks))
    case SleepStep(ms) =>
      Block(s.core).(wakeup := s.core.wakeup[s.core.current := WakeTime(s.core.ticks, ms)],
                     sleep := s.core.sleep + [s.core.current])
    case LockStep(_) => Block(s.core)
    case WaitStep(_) => Block(s.core)
    case _ => s.core
  }

  /** While the idle thread lives the ready queue is not empty when `schedule()` comes to dispatch, so
      the fallback to the kernel thread is never taken. */
  lemma NeverFallsBack(s: System, step: Step)
    requires Inv(s) && Enabled(s, step) && Schedules(s, step)
    ensures Apply(s, step).core == Schedule(AtCall(s, step), s.kernel)
    ensures Wake(Requeue(AtCall(s, step))).ready != []
  {
    ApplyIs(s, step);
    PlacesIs(s);
    assert PlacesHold(s);
    hide Inv, PlacesHold, QueuesHold, MutexHolds, SemHolds, Apply, Stuck, NoneOverdue;
    if !step.Tick? && !step.Yield? {
      assert s.idle != s.core.current;
      assert s.idle in s.core.ready;
    }
  }

  lemma ApplyIs(s: System, step: Step)
    requires Enabled(s, step)
    ensures Schedules(s, step) ==> Apply(s, step).core == Schedule(AtCall(s, step), s.kernel)
    ensures !Schedules(s, step) && !step.Kill? ==>
              var c, c' := s.core, Apply(s, step).core;
              && c'.current == c.current && c.ready <= c'.ready && c'.sleep == c.sleep && c'.ticks == c.ticks
              && (step.Spawn? || c'.wakeup == c.wakeup)
  {
    hide Schedule;
  }

  lemma FallbackUnreachable(s0: System, steps: seq<Step>, step: Step)
    requires Boot(s0) && CanRun(s0, steps) && Enabled(After(s0, steps), step) && Schedules(After(s0, steps), step)
    ensures Wake(Requeue(AtCall(After(s0, steps), step))).ready != []
  {
    EveryRunIsSafe(s0, steps);
    hide Boot, CanRun, After, Inv;
    NeverFallsBack(After(s0, steps), step);
  }

  // ---------------------------------------------------------------- bounded waiting

  /** How many times a run calls `schedule()`. */
  ghost function Calls(s: System, steps: seq<Step>): nat
    requires CanRun(s, steps)
    decreases |steps|
  {
    if steps == [] then 0
    else (if Schedules(s, steps[0]) then 1 else 0) + Calls(Apply(s, steps[0]), steps[1..])
  }

  ghost predicate NoKills(steps: seq<Step>) {
    forall i :: 0 <= i < |steps| ==> !steps[i].Kill?
  }

  /** `schedule()` takes the first ready thread; the others move up by one. */
  lemma MovesUp<T>(c: Core<T>, kernel: T, k: nat)
    requires k < |c.ready|
    ensures var d := Schedule(c, kernel);
            if k == 0 then d.current == c.ready[0] else k - 1 < |d.ready| && d.ready[k - 1] == c.ready[k]
  {
    var r := Wake(Requeue(c)).ready;
    assert c.ready <= r;
    hide Wake, Requeue;
  }

  lemma ReadyStep(s: System, step: Step, k: nat)
    requires Inv(s) && Enabled(s, step) && !step.Kill? && k < |s.core.ready|
    ensures var c' := Apply(s, step).core;
            if Schedules(s, step) then
              (if k == 0 then c'.current == s.core.ready[0]
               else k - 1 < |c'.ready| && c'.ready[k - 1] == s.core.ready[k])
            else k < |c'.ready| && c'.ready[k] == s.core.ready[k]
  {
    assert AtCall(s, step).ready == s.core.ready;
    hide *;
    ApplyIs(s, step);
    if Schedules(s, step) { MovesUp(AtCall(s, step), s.kernel, k); }
  }

  /** A thread `k` places from the head of the ready queue is still in the queue, and so has not been
      dispatched, after up to `k` calls of `schedule()`, whatever happens in between. */
  lemma {:induction false} WaitsInTurn(s: System, steps: seq<Step>, k: nat)
    requires Inv(s) && CanRun(s, steps) && NoKills(steps) && k < |s.core.ready| && Calls(s, steps) <= k
    ensures var c', n := After(s, steps).core, Calls(s, steps);
            k - n < |c'.ready| && c'.ready[k - n] == s.core.ready[k]
    decreases |steps|
  {
    hide Inv, Enabled, Apply, Schedules;
    if steps != [] {
      var step := steps[0];
      StepKeeps(s, step);
      ReadyStep(s, step, k);
      WaitsInTurn(Apply(s, step), steps[1..], if Schedules(s, step) then k - 1 else k);
    }
  }

  lemma OnlyCalls(s: System, step: Step)
    requires Enabled(s, step)
    ensures Schedules(s, step) ==> !step.Kill?
  {
  }

  /** Bounded waiting: it is dispatched by exactly the `k + 1`-st call. */
  lemma DispatchedInTurn(s: System, steps: seq<Step>, step: Step, k: nat)
    requires Inv(s) && CanRun(s, steps) && NoKills(steps) && k < |s.core.ready| && Calls(s, steps) == k
    requires Enabled(After(s, steps), step) && Schedules(After(s, steps), step)
    ensures Apply(After(s, steps), step).core.current == s.core.ready[k]
  {
    hide *;
    OnlyCalls(After(s, steps), step);
    RunKeeps(s, steps);
    WaitsInTurn(s, steps, k);
    ReadyStep(After(s, steps), step, 0);
  }

  /** A waiter woken by an unlock joins the ready queue, so it gets to retry on the call of `schedule()`
      that its place in the queue gives it. */
  lemma WokenInTurn(s: System, m: nat, steps: seq<Step>, step: Step)
    requires Inv(s) && Enabled(s, UnlockStep(m)) && s.mutexes[m].owner == Some(s.core.current)
    requires s.mutexes[m].waiters != []
    requires var s1 := Apply(s, UnlockStep(m));
             && CanRun(s1, steps) && NoKills(steps) && Calls(s1, steps) == |s.core.ready|
             && Enabled(After(s1, steps), step) && Schedules(After(s1, steps), step)
    ensures var s2 := Apply(After(Apply(s, UnlockStep(m)), steps), step);
            s2.core.current == s.mutexes[m].waiters[0]
  {
    var s1, n := Apply(s, UnlockStep(m)), |s.core.ready|;
    assert n < |s1.core.ready| && s1.core.ready[n] == s.mutexes[m].waiters[0];
    hide *;
    StepKeeps(s, UnlockStep(m));
    DispatchedInTurn(s1, steps, step, n);
  }

  // ---------------------------------------------------------------- sleeping

  /** Only the timer moves the clock, by one tick modulo 2^64. */
  lemma ClockStep(s: System, step: Step)
    requires Enabled(s, step) && s.core.ticks < TWO_64
    ensures Apply(s, step).core.ticks == if step.Tick? then (s.core.ticks + 1) % TWO_64 else s.core.ticks
  {
    ApplyIs(s, step);
    if Schedules(s, step) {
      ScheduleSleepers(AtCall(s, step), s.kernel, s.kernel);
      hide Schedule, Apply;
    }
  }

  /** `schedule()` leaves exactly the sleepers whose deadline is still to come. */
  lemma ScheduleSleepers<T>(c: Core<T>, kernel: T, t: T)
    ensures var d := Schedule(c, kernel);
            && d.wakeup == c.wakeup && d.ticks == c.ticks
            && (t in d.sleep <==> t in c.sleep && Deadline(c.wakeup, t) > c.ticks)
  {
    WakePartition(c.sleep, c.wakeup, c.ticks, t);
    hide Due, Later;
  }

  lemma SleeperIs(s: System, t: Tid)
    requires Inv(s) && t in s.core.wakeup
    ensures t in s.core.tag && t in s.pc
    ensures t in s.core.sleep ==>
              t != s.core.current && s.pc[t] == Free && s.core.ticks < s.core.wakeup[t] && s.core.tag[t] == Blocked
    ensures t !in s.core.sleep && s.pc[t] == Free ==> s.core.tag[t] == Running || s.core.tag[t] == Ready
  {
    InvIs(s);
    PlacesIs(s);
    hide Inv, PlacesHold, PlacesSettled, LocksHold, Distinct;
    assert t in Stuck(s) <==> t in s.pc && t in s.core.tag && s.core.tag[t] == Blocked && s.pc[t] != Free;
  }

  lemma OthersPc(s: System, step: Step, t: Tid)
    requires Enabled(s, step) && t in s.pc && t in s.core.tag && t != s.core.current && step != Kill(t)
    ensures t in Apply(s, step).pc && Apply(s, step).pc[t] == s.pc[t]
  {
    hide Schedule, Drop, SleepFor, TimerTick;
  }

  lemma SleepsOn(s: System, step: Step, t: Tid)
    requires Enabled(s, step) && step != Kill(t) && t in s.core.sleep && t in s.core.wakeup
    requires t != s.core.current && t in s.core.tag && s.core.ticks < s.core.wakeup[t] && Distinct(s.core.sleep)
    ensures var c, c' := s.core, Apply(s, step).core;
            && t in c'.wakeup && c'.wakeup[t] == c.wakeup[t] && (t in c'.sleep <==> c'.ticks < c.wakeup[t])
  {
    if step.Kill? {
      WithoutIs(s.core.sleep, step.t, t);
      hide Without;
    } else {
      ApplyIs(s, step);
      if Schedules(s, step) {
        assert t in AtCall(s, step).sleep && t in AtCall(s, step).wakeup &&
               AtCall(s, step).wakeup[t] == s.core.wakeup[t];
        assert Apply(s, step).core == Schedule(AtCall(s, step), s.kernel);
        hide Schedule, Apply, AtCall, Enabled, Schedules;
        ScheduleSleepers(AtCall(s, step), s.kernel, t);
      }
    }
  }

  /** One step in the life of a sleeper: it stays asleep exactly until the clock shows its deadline. */
  lemma SleeperStep(s: System, step: Step, t: Tid)
    requires Inv(s) && Enabled(s, step) && step != Kill(t) && t in s.core.sleep && t in s.core.wakeup
    ensures var c, c' := s.core, Apply(s, step).core;
            && t in c'.wakeup && c'.wakeup[t] == c.wakeup[t] && t in c'.tag
            && (t in c'.sleep <==> c'.ticks < c.wakeup[t])
            && (t !in c'.sleep ==> c'.tag[t] == Running || c'.tag[t] == Ready)
  {
    assert Distinct(s.core.sleep);
    hide *;
    StepKeeps(s, step);
    SleeperIs(s, t);
    SleepsOn(s, step, t);
    OthersPc(s, step, t);
    SleeperIs(Apply(s, step), t);
  }

  /** The clock stays below `d` all through a run. */
  ghost predicate ClockBelow(s: System, steps: seq<Step>, d: nat)
    requires CanRun(s, steps)
    decreases |steps|
  {
    s.core.ticks < d && (steps != [] ==> ClockBelow(Apply(s, steps[0]), steps[1..], d))
  }

  /** Over every run in which its deadline does not come, a sleeping thread sleeps on (so it is not
      dispatched) and keeps its deadline. */
  lemma {:induction false} NotBeforeDeadline(s: System, steps: seq<Step>, t: Tid)
    requires Inv(s) && CanRun(s, steps) && Kill(t) !in steps && t in s.core.sleep && t in s.core.wakeup
    requires ClockBelow(s, steps, s.core.wakeup[t])
    ensures var c' := After(s, steps).core;
            && t in c'.sleep && t != c'.current && t in c'.wakeup && c'.wakeup[t] == s.core.wakeup[t]
    decreases |steps|
  {
    hide Inv, Enabled, Apply;
    SleeperIs(s, t);
    if steps != [] {
      assert steps[0] in steps;
      StepKeeps(s, steps[0]);
      SleeperStep(s, steps[0], t);
      NotBeforeDeadline(Apply(s, steps[0]), steps[1..], t);
    }
  }

  /** ... and the first step that ends at or after the deadline makes it ready (or running), no step
      before does. */
  lemma AwakeAtDeadline(s: System, steps: seq<Step>, step: Step, t: Tid)
    requires Inv(s) && CanRun(s, steps) && Kill(t) !in steps && t in s.core.sleep && t in s.core.wakeup
    requires ClockBelow(s, steps, s.core.wakeup[t])
    requires Enabled(After(s, steps), step) && step != Kill(t)
    ensures var c' := Apply(After(s, steps), step).core;
            && t in c'.tag && (t in c'.sleep <==> c'.ticks < s.core.wakeup[t])
            && (c'.ticks >= s.core.wakeup[t] ==> c'.tag[t] == Ready || c'.tag[t] == Running)
  {
    hide *;
    RunKeeps(s, steps);
    NotBeforeDeadline(s, steps, t);
    SleeperStep(After(s, steps), step, t);
  }

  lemma WakeTimeIs(ticks: nat, ms: nat)
    ensures ticks + ms * HZ < TWO_64 ==> WakeTime(ticks, ms) == ticks + ms
  {
    if ticks + ms * HZ < TWO_64 { assert ms * HZ % TWO_64 == ms * HZ; }
  }

  /** Going to sleep for `ms` milliseconds sets the deadline `ms` ticks ahead, unless the 64-bit
      arithmetic wraps; if it wraps to a time already past, the thread does not sleep at all. */
  lemma FallsAsleep(s: System, ms: nat)
    requires Inv(s) && Enabled(s, SleepStep(ms)) && ms != 0
    ensures var me, c' := s.core.current, Apply(s, SleepStep(ms)).core;
            && me in c'.wakeup && c'.wakeup[me] == WakeTime(s.core.ticks, ms)
            && (me in c'.sleep <==> WakeTime(s.core.ticks, ms) > s.core.ticks)
            && (s.core.ticks + ms * HZ < TWO_64 ==> c'.wakeup[me] == s.core.ticks + ms && me in c'.sleep)
  {
    var a, me := AtCall(s, SleepStep(ms)), s.core.current;
    assert Apply(s, SleepStep(ms)).core == Schedule(a, s.kernel);
    assert me in a.sleep && me in a.wakeup && Deadline(a.wakeup, me) == a.wakeup[me] == WakeTime(s.core.ticks, ms);
    assert a.ticks == s.core.ticks;
    hide *;
    WakeTimeIs(s.core.ticks, ms);
    ScheduleSleepers(a, s.kernel, me);
  }
}
