/** Mutexes, semaphores and sleeping as a step system: every interrupts-off segment is one step, and the
    steps of all threads and of the timer interleave freely.  A thread that was woken from a wait queue
    re-examines the lock when it runs again, and others may get there first. */
module Locks {
  import opened Basics
  import opened ThreadQueue
  import opened Scheduling

  datatype Mutex<T> = Mutex(locked: bool, owner: Option<T>, waiters: seq<T>)

  datatype Sem<T> = Sem(count: int, waiters: seq<T>)

  // ---------------------------------------------------------------- effects of the segments

  function Block<T>(c: Core<T>): Core<T> {
    c.(tag := c.tag[c.current := Blocked])
  }

  /** One evaluation of the loop in `mutex_lock`: take the lock, or join its queue and give up the
      processor. */
  function LockAttempt<T>(c: Core<T>, m: Mutex<T>, kernel: T): (Core<T>, Mutex<T>) {
    if m.locked then (Schedule(Block(c), kernel), m.(waiters := m.waiters + [c.current]))
    else (c, m.(locked := true, owner := Some(c.current)))
  }

  /** A thread taken off a wait queue becomes ready. */
  function MakeReady<T>(c: Core<T>, t: T): Core<T> {
    c.(ready := c.ready + [t], tag := c.tag[t := Ready])
  }

  /** `mutex_unlock`: only the owner releases, and wakes one waiter. */
  function Unlock<T>(c: Core<T>, m: Mutex<T>): (Core<T>, Mutex<T>) {
    if m.owner != Some(c.current) then (c, m)
    else if m.waiters == [] then (c, Mutex(false, None, []))
    else (MakeReady(c, m.waiters[0]), Mutex(false, None, m.waiters[1..]))
  }

  /** One evaluation of the loop in `sem_wait`. */
  function WaitAttempt<T>(c: Core<T>, s: Sem<T>, kernel: T): (Core<T>, Sem<T>) {
    if s.count <= 0 then (Schedule(Block(c), kernel), s.(waiters := s.waiters + [c.current]))
    else (c, s.(count := s.count - 1))
  }

  /** `sem_post`: raises the count and wakes one waiter. */
  function Post<T>(c: Core<T>, s: Sem<T>): (Core<T>, Sem<T>) {
    if s.waiters == [] then (c, s.(count := s.count + 1))
    else (MakeReady(c, s.waiters[0]), Sem(s.count + 1, s.waiters[1..]))
  }

  const TWO_64 := 0x1_0000_0000_0000_0000
  const HZ := 1000

  /** The tick at which a sleep of `ms` milliseconds ends, in 64-bit arithmetic. */
  function WakeTime(ticks: nat, ms: nat): nat {
    (ticks + ms * HZ % TWO_64 / 1000) % TWO_64
  }

  /** `ThreadSleepMS`. */
  function SleepFor<T>(c: Core<T>, ms: nat, kernel: T): Core<T> {
    if ms == 0 then c
    else Schedule(Block(c).(wakeup := c.wakeup[c.current := WakeTime(c.ticks, ms)],
                            sleep := c.sleep + [c.current]), kernel)
  }

  /** The tick counter starts over at its 64-bit limit. */
  function NextTick(now: nat): nat {
    if now >= TWO_64 - 1 then 0 else now + 1
  }

  /** The timer interrupt. */
  function TimerTick<T>(c: Core<T>, kernel: T): Core<T> {
    Schedule(c.(ticks := NextTick(c.ticks)), kernel)
  }

  // ---------------------------------------------------------------- the system

  /** What a thread is in the middle of: nothing, or the retry loop of a lock. */
  datatype Pc = Free | WantMutex(m: nat) | WantSem(s: nat)

  /** How often a semaphore has been posted and taken since it was initialised. */
  datatype SemLog = SemLog(initial: int, posts: nat, taken: nat)

  type Tid = Thread

  datatype System = System(
    core: Core<Tid>,
    mutexes: map<nat, Mutex<Tid>>,
    sems: map<nat, Sem<Tid>>,
    pc: map<Tid, Pc>,
    holding: map<nat, set<Tid>>,   // who has returned from mutex_lock and not yet released
    log: map<nat, SemLog>,
    kernel: Tid,
    idle: Tid)

  datatype Step =
    | Tick
    | Yield
    | LockStep(m: nat)
    | UnlockStep(m: nat)
    | SleepStep(ms: nat)
    | WaitStep(k: nat)
    | PostStep(k: nat)
    | Spawn(t: Tid)
    | Kill(t: Tid)

  /** The wait queue behind a retry loop. */
  function Waiters(s: System, q: Pc): seq<Tid> {
    match q
    case Free => []
    case WantMutex(m) => if m in s.mutexes then s.mutexes[m].waiters else []
    case WantSem(k) => if k in s.sems then s.sems[k].waiters else []
  }

  ghost predicate StuckOn(s: System, t: Tid, q: Pc) {
    t in s.core.tag && t in s.pc && s.core.tag[t] == Blocked && s.pc[t] == q
  }

  /** Threads stuck on the queue of some lock. */
  ghost function Stuck(s: System): set<Tid> {
    set t | t in s.core.tag && t in s.pc && s.core.tag[t] == Blocked && s.pc[t] != Free
  }

  /** Threads woken from a queue that have yet to retry. */
  ghost function Retrying(s: System, q: Pc): set<Tid> {
    set t | t in s.core.tag && t in s.pc && s.core.tag[t] != Blocked && s.pc[t] == q
  }

  predicate Exists(s: System, q: Pc) {
    match q
    case Free => true
    case WantMutex(m) => m in s.mutexes
    case WantSem(k) => k in s.sems
  }

  /** Each thread is the current one, ready, asleep or stuck on one lock, its tag says which, and the
      idle thread is never blocked. */
  ghost predicate PlacesHold(s: System) {
    && s.pc.Keys == s.core.tag.Keys
    && CoreInv(s.core, Stuck(s)) && NoneOverdue(s.core)
    && (forall t :: t in s.pc ==> Exists(s, s.pc[t]))
    && s.idle in s.core.tag && s.core.tag[s.idle] != Blocked && s.pc[s.idle] == Free
  }

  /** Every wait queue lists exactly the threads stuck on it, each once. */
  ghost predicate QueuesHold(s: System) {
    forall q: Pc :: q != Free ==> QueueHolds(s, q)
  }

  ghost predicate QueueHolds(s: System, q: Pc) {
    && Distinct(Waiters(s, q)) && (forall t :: t in Waiters(s, q) ==> StuckOn(s, t, q))
    && (forall t :: t in s.core.tag && StuckOn(s, t, q) ==> t in Waiters(s, q))
  }

  /** A mutex is locked exactly while it has an owner, the owner is the one thread inside, and nobody
      waits at an open mutex unless someone woken for it is about to retry. */
  ghost predicate MutexHolds(s: System, m: nat)
    requires m in s.mutexes
  {
    var x := s.mutexes[m];
    && (x.locked <==> x.owner.Some?)
    && m in s.holding && s.holding[m] == (if x.owner.Some? then {x.owner.value} else {})
    && (x.waiters != [] ==> x.locked || Retrying(s, WantMutex(m)) != {})
  }

  /** A semaphore's units are conserved, its count is never negative, and while threads wait the count
      does not exceed the number of threads woken for it. */
  ghost predicate SemHolds(s: System, k: nat)
    requires k in s.sems
  {
    var x := s.sems[k];
    && 0 <= x.count
    && k in s.log && s.log[k].initial + s.log[k].posts == x.count + s.log[k].taken
    && (x.waiters != [] ==> x.count <= |Retrying(s, WantSem(k))|)
  }

  ghost predicate Inv(s: System) {
    && PlacesHold(s) && QueuesHold(s)
    && (forall m :: m in s.mutexes ==> MutexHolds(s, m))
    && (forall k :: k in s.sems ==> SemHolds(s, k))
  }

  // ---------------------------------------------------------------- steps

  /** The current thread is in no retry loop and is not the idle thread. */
  ghost predicate CanCall(s: System) {
    s.core.current != s.idle && s.core.current in s.pc && s.pc[s.core.current] == Free
  }

  ghost predicate Enabled(s: System, step: Step) {
    match step
    case Tick => true
    case Yield => true
    case LockStep(m) => m in s.mutexes &&
      (CanCall(s) || (s.core.current in s.pc && s.pc[s.core.current] == WantMutex(m)))
    case UnlockStep(m) => m in s.mutexes && CanCall(s)
    case SleepStep(_) => CanCall(s)
    case WaitStep(k) => k in s.sems && (CanCall(s) || (s.core.current in s.pc && s.pc[s.core.current] == WantSem(k)))
    case PostStep(k) => k in s.sems && CanCall(s)
    case Spawn(t) => t !in s.core.tag
    case Kill(t) => t in s.core.tag && t in s.pc && s.pc[t] == Free && t != s.core.current && t != s.idle
  }

  /** The queue without a thread. */
  function Without<T(==)>(q: seq<T>, t: T): seq<T> {
    if q == [] then [] else Without(q[..|q| - 1], t) + if q[|q| - 1] == t then [] else [q[|q| - 1]]
  }

  /** `KillThread` on a ready or sleeping thread. */
  function Drop<T(==)>(c: Core<T>, t: T): Core<T> {
    c.(ready := Without(c.ready, t), sleep := Without(c.sleep, t), tag := c.tag - {t}, wakeup := c.wakeup - {t})
  }

  ghost function Apply(s: System, step: Step): System
    requires Enabled(s, step)
  {
    var c, me := s.core, s.core.current;
    match step
    case Tick => s.(core := TimerTick(c, s.kernel))
    case Yield => s.(core := Schedule(c, s.kernel))
    case LockStep(m) =>
      var x := s.mutexes[m];
      if s.pc[me] == Free && x.owner == Some(me) then s
      else
        var (c', x') := LockAttempt(c, x, s.kernel);
        var s' := s.(core := c', mutexes := s.mutexes[m := x']);
        if x.locked then s'.(pc := s.pc[me := WantMutex(m)])
        else s'.(pc := s.pc[me := Free],
                 holding := s.holding[m := (if m in s.holding then s.holding[m] else {}) + {me}])
    case UnlockStep(m) =>
      var x := s.mutexes[m];
      var (c', x') := Unlock(c, x);
      s.(core := c', mutexes := s.mutexes[m := x'],
         holding := if x.owner == Some(me) && m in s.holding then s.holding[m := s.holding[m] - {me}] else s.holding)
    case SleepStep(ms) => s.(core := SleepFor(c, ms, s.kernel))
    case WaitStep(k) =>
      var x := s.sems[k];
      var (c', x') := WaitAttempt(c, x, s.kernel);
      var s' := s.(core := c', sems := s.sems[k := x']);
      if x.count <= 0 then s'.(pc := s.pc[me := WantSem(k)])
      else s'.(pc := s.pc[me := Free],
               log := if k in s.log then s.log[k := s.log[k].(taken := s.log[k].taken + 1)] else s.log)
    case PostStep(k) =>
      var (c', x') := Post(c, s.sems[k]);
      s.(core := c', sems := s.sems[k := x'],
         log := if k in s.log then s.log[k := s.log[k].(posts := s.log[k].posts + 1)] else s.log)
    case Spawn(t) =>
      s.(core := MakeReady(c, t).(wakeup := c.wakeup[t := 0]), pc := s.pc[t := Free])
    case Kill(t) =>
      s.(core := Drop(c, t), pc := s.pc - {t})
  }

  // ---------------------------------------------------------------- steps through schedule()

  /** The invariant just before a call of `schedule()`, when the current thread may already have been
      put to sleep or on a wait queue. */
  ghost predicate PlacesSettled(s: System) {
    && s.pc.Keys == s.core.tag.Keys
    && Settled(s.core, Stuck(s))
    && (forall t :: t in s.pc ==> Exists(s, s.pc[t]))
    && s.idle in s.core.tag && s.core.tag[s.idle] != Blocked && s.pc[s.idle] == Free
  }

  ghost predicate LocksHold(s: System) {
    && QueuesHold(s)
    && (forall m :: m in s.mutexes ==> MutexHolds(s, m))
    && (forall k :: k in s.sems ==> SemHolds(s, k))
  }

  /** While the idle thread lives there is always a thread to dispatch, so `schedule()` never falls back
      to the kernel thread. */
  lemma AlwaysDispatchable(s: System)
    requires PlacesSettled(s)
    ensures s.core.tag[s.core.current] == Running || s.core.ready != []
    ensures Wake(Requeue(s.core)).ready != []
  {
    var c := s.core;
    if c.tag[c.current] != Running { assert s.idle in c.ready; }
  }

  lemma ScheduleStuck(s: System, t: Tid)
    requires PlacesSettled(s) && t in s.pc
    ensures var d := Schedule(s.core, s.kernel);
            && d.tag.Keys == s.core.tag.Keys
            && (s.pc[t] != Free ==> (d.tag[t] == Blocked <==> s.core.tag[t] == Blocked))
            && (s.core.tag[t] != Blocked ==> d.tag[t] != Blocked)
  {
    AlwaysDispatchable(s);
    hide Schedule;
    ScheduleEffect(s.core, Stuck(s), s.kernel, t);
  }

  /** `schedule()` leaves the threads stuck on a lock and those about to retry as they are. */
  lemma ScheduleKeepsWaits(s: System, q: Pc)
    requires PlacesSettled(s) && q != Free
    ensures var s' := s.(core := Schedule(s.core, s.kernel));
            && Stuck(s') == Stuck(s) && Retrying(s', q) == Retrying(s, q)
            && (QueueHolds(s, q) ==> QueueHolds(s', q))
  {
    var s' := s.(core := Schedule(s.core, s.kernel));
    assert s.idle in s.pc && s.pc.Keys == s.core.tag.Keys;
    hide PlacesSettled, Schedule;
    forall t | t in s.pc ensures s'.core.tag.Keys == s.core.tag.Keys
      ensures s.pc[t] != Free ==> (s'.core.tag[t] == Blocked <==> s.core.tag[t] == Blocked)
    {
      ScheduleStuck(s, t);
    }
    assert s'.core.tag.Keys == s.core.tag.Keys;
    SameStuck(s, s', q);
  }

  lemma SameStuck(s: System, s': System, q: Pc)
    requires q != Free && s' == s.(core := s'.core) && s.pc.Keys == s.core.tag.Keys == s'.core.tag.Keys
    requires forall t :: t in s.pc && s.pc[t] != Free ==> (s'.core.tag[t] == Blocked <==> s.core.tag[t] == Blocked)
    ensures Stuck(s') == Stuck(s) && Retrying(s', q) == Retrying(s, q)
    ensures QueueHolds(s, q) ==> QueueHolds(s', q)
  {
    assert forall t :: t in s.core.tag <==> t in s'.core.tag;
  }

  lemma SchedulePlaces(s: System)
    requires PlacesSettled(s)
    ensures PlacesHold(s.(core := Schedule(s.core, s.kernel)))
  {
    AlwaysDispatchable(s);
    ScheduleKeeps(s.core, Stuck(s), s.kernel);
    ScheduleKeepsWaits(s, WantMutex(0));
    ScheduleStuck(s, s.idle);
    hide Schedule, Settled, CoreInv, NoneOverdue, Stuck, Retrying;
  }

  lemma ScheduleLocks(s: System)
    requires PlacesSettled(s) && LocksHold(s)
    ensures LocksHold(s.(core := Schedule(s.core, s.kernel)))
  {
    var s' := s.(core := Schedule(s.core, s.kernel));
    hide PlacesSettled, Schedule, Retrying, StuckOn;
    forall q: Pc | q != Free ensures QueueHolds(s', q) && Retrying(s', q) == Retrying(s, q) {
      assert QueueHolds(s, q);
      ScheduleKeepsWaits(s, q);
    }
    forall m | m in s'.mutexes ensures MutexHolds(s', m) { assert MutexHolds(s, m); }
    forall k | k in s'.sems ensures SemHolds(s', k) { assert SemHolds(s, k); }
  }

  /** Whatever a segment did before calling `schedule()`, the invariant holds again afterwards. */
  lemma ScheduleRestores(s: System)
    requires PlacesSettled(s) && LocksHold(s)
    ensures Inv(s.(core := Schedule(s.core, s.kernel)))
  {
    hide *;
    SchedulePlaces(s);
    ScheduleLocks(s);
    InvIs(s.(core := Schedule(s.core, s.kernel)));
  }

  lemma InvIs(s: System)
    ensures Inv(s) <==> PlacesHold(s) && LocksHold(s)
    ensures PlacesHold(s) ==> PlacesSettled(s)
  {
  }

  lemma YieldKeeps(s: System)
    requires Inv(s)
    ensures Inv(Apply(s, Yield))
  {
    InvIs(s);
    hide Inv, Schedule;
    ScheduleRestores(s);
  }

  lemma SettledAt<T>(c: Core<T>, waiting: set<T>, now: nat)
    requires Settled(c, waiting)
    ensures Settled(c.(ticks := now), waiting)
  {
  }

  lemma TickSettles(s: System, s': System, now: nat)
    requires PlacesHold(s) && LocksHold(s) && s' == s.(core := s.core.(ticks := now))
    ensures PlacesSettled(s') && LocksHold(s')
  {
    hide LocksHold, Settled;
    assert Stuck(s') == Stuck(s);
    SettledAt(s.core, Stuck(s), now);
    SameWaits(s, s');
  }

  lemma TickKeeps(s: System)
    requires Inv(s)
    ensures Inv(Apply(s, Tick))
  {
    var now := NextTick(s.core.ticks);
    var s' := s.(core := s.core.(ticks := now));
    assert Apply(s, Tick) == s'.(core := Schedule(s'.core, s'.kernel));
    hide *;
    InvIs(s);
    TickSettles(s, s', now);
    ScheduleRestores(s');
  }

  /** Locks are not affected by changes that leave stuck and retrying threads alone. */
  lemma SameWaits(s: System, s': System)
    requires LocksHold(s) && s'.mutexes == s.mutexes && s'.sems == s.sems && s'.holding == s.holding && s'.log == s.log
    requires forall t, q: Pc :: q != Free ==> (StuckOn(s, t, q) <==> StuckOn(s', t, q))
    requires forall q: Pc :: q != Free ==> Retrying(s', q) == Retrying(s, q)
    ensures LocksHold(s')
  {
    forall q: Pc | q != Free ensures QueueHolds(s', q) { assert QueueHolds(s, q); }
    forall m | m in s'.mutexes ensures MutexHolds(s', m) { assert MutexHolds(s, m); }
    forall k | k in s'.sems ensures SemHolds(s', k) { assert SemHolds(s, k); }
  }

  // ---------------------------------------------------------------- joining and leaving queues

  /** Nothing but the given wait queue differs between two systems. */
  ghost predicate OtherQueuesSame(s: System, s': System, q: Pc) {
    && s'.kernel == s.kernel && s'.idle == s.idle
    && (forall p: Pc :: Exists(s, p) ==> Exists(s', p))
    && (forall p: Pc :: p != q ==> Waiters(s', p) == Waiters(s, p))
  }

  /** The current thread has joined a wait queue and is about to give up the processor. */
  ghost predicate Joined(s: System, s': System, q: Pc) {
    var me := s.core.current;
    && q != Free && Exists(s, q) && me != s.idle && me in s.pc && (s.pc[me] == Free || s.pc[me] == q)
    && s'.core == Block(s.core) && s'.pc == s.pc[me := q]
    && Waiters(s', q) == Waiters(s, q) + [me] && OtherQueuesSame(s, s', q)
  }

  lemma JoinStuck(s: System, s': System, q: Pc, t: Tid, p: Pc)
    requires PlacesHold(s) && Joined(s, s', q) && p != Free
    ensures StuckOn(s', t, p) <==> StuckOn(s, t, p) || (t == s.core.current && p == q)
  {
  }

  lemma JoinPlaces(s: System, s': System, q: Pc)
    requires PlacesHold(s) && Joined(s, s', q)
    ensures PlacesSettled(s')
  {
    assert Stuck(s') == Stuck(s) + {s.core.current};
    BlockSettles(s.core, Stuck(s));
    JoinExists(s, s', q);
    hide OtherQueuesSame, NoneOverdue, Settled, CoreInv, Stuck;
  }

  lemma BlockSettles<T>(c: Core<T>, waiting: set<T>)
    requires CoreInv(c, waiting)
    ensures Settled(Block(c), waiting + {c.current})
  {
  }

  lemma JoinExists(s: System, s': System, q: Pc)
    requires (forall t :: t in s.pc ==> Exists(s, s.pc[t])) && Joined(s, s', q)
    ensures forall t :: t in s'.pc ==> Exists(s', s'.pc[t])
  {
  }

  lemma JoinQueues(s: System, s': System, q: Pc)
    requires PlacesHold(s) && QueuesHold(s) && Joined(s, s', q)
    ensures QueuesHold(s')
  {
    var me := s.core.current;
    forall p: Pc | p != Free ensures QueueHolds(s', p) {
      assert QueueHolds(s, p);
      forall t ensures t in Waiters(s', p) <==> StuckOn(s', t, p) { JoinStuck(s, s', q, t, p); }
      if p == q {
        assert !StuckOn(s, me, q);
        DistinctJoin(Waiters(s, q), [me]);
      }
    }
  }

  lemma JoinRetrying(s: System, s': System, q: Pc, p: Pc)
    requires PlacesHold(s) && Joined(s, s', q) && p != Free
    ensures Retrying(s', p) == if p == q then Retrying(s, p) - {s.core.current} else Retrying(s, p)
  {
  }

  /** The first thread of a wait queue has been made ready. */
  ghost predicate Left(s: System, s': System, q: Pc) {
    && q != Free && Waiters(s, q) != []
    && s'.core == MakeReady(s.core, Waiters(s, q)[0]) && s'.pc == s.pc
    && Waiters(s', q) == Waiters(s, q)[1..] && OtherQueuesSame(s, s', q)
  }

  lemma LeaveStuck(s: System, s': System, q: Pc, t: Tid, p: Pc)
    requires PlacesHold(s) && QueueHolds(s, q) && Left(s, s', q) && p != Free
    ensures StuckOn(s', t, p) <==> StuckOn(s, t, p) && t != Waiters(s, q)[0]
  {
    assert StuckOn(s, Waiters(s, q)[0], q);
  }

  lemma LeavePlaces(s: System, s': System, q: Pc)
    requires PlacesHold(s) && QueueHolds(s, q) && Left(s, s', q)
    ensures PlacesHold(s')
  {
    var w := Waiters(s, q)[0];
    assert w in Waiters(s, q);
    hide CoreInv, NoneOverdue, Settled, Waiters, Distinct, Exists;
    LeaveStuckSet(s, s', q);
    LeaveCore(s.core, Stuck(s), w);
  }

  lemma LeaveStuckSet(s: System, s': System, q: Pc)
    requires s.pc.Keys == s.core.tag.Keys && QueueHolds(s, q) && Left(s, s', q)
    ensures Waiters(s, q)[0] in Stuck(s) && Stuck(s') == Stuck(s) - {Waiters(s, q)[0]}
  {
    assert StuckOn(s, Waiters(s, q)[0], q);
  }

  lemma LeaveCore<T>(c: Core<T>, waiting: set<T>, w: T)
    requires CoreInv(c, waiting) && NoneOverdue(c) && w in waiting
    ensures w in c.tag && CoreInv(MakeReady(c, w), waiting - {w}) && NoneOverdue(MakeReady(c, w))
  {
    DistinctJoin(c.ready, [w]);
  }

  lemma LeaveQueues(s: System, s': System, q: Pc)
    requires PlacesHold(s) && QueuesHold(s) && Left(s, s', q)
    ensures QueuesHold(s')
  {
    var w := Waiters(s, q)[0];
    assert QueueHolds(s, q);
    assert Waiters(s, q) == [w] + Waiters(s', q);
    forall p: Pc | p != Free ensures QueueHolds(s', p) {
      assert QueueHolds(s, p);
      forall t ensures t in Waiters(s', p) <==> StuckOn(s', t, p) {
        LeaveStuck(s, s', q, t, p);
        if p != q { assert StuckOn(s, w, q); }
      }
    }
  }

  lemma LeaveRetrying(s: System, s': System, q: Pc, p: Pc)
    requires PlacesHold(s) && QueueHolds(s, q) && Left(s, s', q) && p != Free
    ensures Retrying(s', p) == if p == q then Retrying(s, p) + {Waiters(s, q)[0]} else Retrying(s, p)
    ensures Waiters(s, q)[0] !in Retrying(s, q)
  {
    var w := Waiters(s, q)[0];
    assert w in Waiters(s, q) && StuckOn(s, w, q);
    hide PlacesHold, QueueHolds, OtherQueuesSame, Waiters;
  }

  /** The current thread has got what it was after, at once or in its retry loop. */
  ghost predicate Passed(s: System, s': System, q: Pc) {
    var me := s.core.current;
    && q != Free && me in s.pc && (s.pc[me] == Free || s.pc[me] == q)
    && s'.core == s.core && s'.pc == s.pc[me := Free]
    && Waiters(s', q) == Waiters(s, q) && OtherQueuesSame(s, s', q)
  }

  lemma PassKeeps(s: System, s': System, q: Pc)
    requires PlacesHold(s) && QueuesHold(s) && Passed(s, s', q)
    ensures PlacesHold(s') && QueuesHold(s')
  {
    PassStuck(s, s', q);
    PassQueues(s, s', q);
    hide QueuesHold, CoreInv, NoneOverdue, Stuck, StuckOn, Waiters;
  }

  lemma PassQueues(s: System, s': System, q: Pc)
    requires QueuesHold(s) && Passed(s, s', q)
    requires forall t, p: Pc :: t in s.pc && p != Free ==> (StuckOn(s', t, p) <==> StuckOn(s, t, p))
    ensures QueuesHold(s')
  {
    hide Distinct, Waiters, Exists;
    forall p: Pc | p != Free ensures QueueHolds(s', p) { assert QueueHolds(s, p); }
  }

  lemma PassStuck(s: System, s': System, q: Pc)
    requires PlacesHold(s) && Passed(s, s', q)
    ensures Stuck(s') == Stuck(s) && forall t, p: Pc :: p != Free ==> (StuckOn(s', t, p) <==> StuckOn(s, t, p))
  {
    hide NoneOverdue, Waiters, Distinct, Exists;
  }

  lemma PassRetrying(s: System, s': System, q: Pc, p: Pc)
    requires PlacesHold(s) && Passed(s, s', q) && p != Free
    ensures Retrying(s', p) == if p == q then Retrying(s, p) - {s.core.current} else Retrying(s, p)
  {
  }

  // ---------------------------------------------------------------- one lock at a time

  /** Nothing but the lock behind `q` changes. */
  ghost predicate OnlyLock(s: System, s': System, q: Pc) {
    && (forall m :: m in s'.mutexes && q != WantMutex(m) ==>
          m in s.mutexes && s'.mutexes[m] == s.mutexes[m] &&
          m in s.holding && m in s'.holding && s'.holding[m] == s.holding[m])
    && (forall k :: k in s'.sems && q != WantSem(k) ==>
          k in s.sems && s'.sems[k] == s.sems[k] && k in s.log && k in s'.log && s'.log[k] == s.log[k])
  }

  ghost predicate LockHolds(s: System, q: Pc) {
    match q
    case Free => false
    case WantMutex(m) => m in s.mutexes && MutexHolds(s, m)
    case WantSem(k) => k in s.sems && SemHolds(s, k)
  }

  lemma OthersHold(s: System, s': System, q: Pc)
    requires LocksHold(s) && QueuesHold(s') && OnlyLock(s, s', q) && LockHolds(s', q)
    requires forall p: Pc :: p != Free && p != q ==> Retrying(s', p) == Retrying(s, p)
    ensures LocksHold(s')
  {
    forall m | m in s'.mutexes ensures MutexHolds(s', m) {
      if q != WantMutex(m) { assert MutexHolds(s, m); }
    }
    forall k | k in s'.sems ensures SemHolds(s', k) {
      if q != WantSem(k) { assert SemHolds(s, k); }
    }
  }

  lemma LocksHoldIs(s: System)
    requires LocksHold(s)
    ensures QueuesHold(s)
    ensures forall m :: m in s.mutexes ==> m in s.holding && MutexHolds(s, m)
    ensures forall k :: k in s.sems ==> k in s.log && SemHolds(s, k)
  {
    forall m | m in s.mutexes ensures m in s.holding { assert MutexHolds(s, m); }
    forall k | k in s.sems ensures k in s.log { assert SemHolds(s, k); }
  }

  lemma JoinRestores(s: System, s1: System, q: Pc)
    requires PlacesHold(s) && LocksHold(s) && Joined(s, s1, q) && OnlyLock(s, s1, q) && LockHolds(s1, q)
    ensures Inv(s1.(core := Schedule(s1.core, s1.kernel)))
  {
    hide *;
    LocksHoldIs(s);
    JoinPlaces(s, s1, q);
    JoinQueues(s, s1, q);
    forall p: Pc | p != Free && p != q ensures Retrying(s1, p) == Retrying(s, p) { JoinRetrying(s, s1, q, p); }
    OthersHold(s, s1, q);
    ScheduleRestores(s1);
  }

  lemma PassRestores(s: System, s': System, q: Pc)
    requires PlacesHold(s) && LocksHold(s) && Passed(s, s', q) && OnlyLock(s, s', q) && LockHolds(s', q)
    ensures Inv(s')
  {
    hide *;
    LocksHoldIs(s);
    PassKeeps(s, s', q);
    forall p: Pc | p != Free && p != q ensures Retrying(s', p) == Retrying(s, p) { PassRetrying(s, s', q, p); }
    OthersHold(s, s', q);
    InvIs(s');
  }

  lemma LeaveRestores(s: System, s': System, q: Pc)
    requires PlacesHold(s) && LocksHold(s) && Left(s, s', q) && OnlyLock(s, s', q) && LockHolds(s', q)
    ensures Inv(s')
  {
    assert q != Free;
    hide *;
    LocksHoldIs(s);
    QueuesHoldAt(s, q);
    LeavePlaces(s, s', q);
    LeaveQueues(s, s', q);
    forall p: Pc | p != Free && p != q ensures Retrying(s', p) == Retrying(s, p) { LeaveRetrying(s, s', q, p); }
    OthersHold(s, s', q);
    InvIs(s');
  }

  lemma QueuesHoldAt(s: System, q: Pc)
    requires QueuesHold(s) && q != Free
    ensures QueueHolds(s, q)
  {
  }

  lemma MutexOnly(s: System, s': System, m: nat, x: Mutex<Tid>)
    requires LocksHold(s) && m in s.mutexes && s'.mutexes == s.mutexes[m := x] && s'.sems == s.sems
    requires s'.log == s.log && s'.kernel == s.kernel && s'.idle == s.idle
    requires s'.holding == s.holding || (m in s'.holding && s'.holding == s.holding[m := s'.holding[m]])
    ensures OnlyLock(s, s', WantMutex(m)) && OtherQueuesSame(s, s', WantMutex(m))
    ensures Waiters(s, WantMutex(m)) == s.mutexes[m].waiters && Waiters(s', WantMutex(m)) == x.waiters
    ensures Exists(s, WantMutex(m)) && MutexHolds(s, m)
  {
    hide LocksHold, MutexHolds, SemHolds, Retrying;
    LocksHoldIs(s);
  }

  lemma SemOnly(s: System, s': System, k: nat, x: Sem<Tid>)
    requires LocksHold(s) && k in s.sems && s'.sems == s.sems[k := x] && s'.mutexes == s.mutexes
    requires s'.holding == s.holding && s'.kernel == s.kernel && s'.idle == s.idle
    requires s'.log == s.log || (k in s'.log && s'.log == s.log[k := s'.log[k]])
    ensures OnlyLock(s, s', WantSem(k)) && OtherQueuesSame(s, s', WantSem(k))
    ensures Waiters(s, WantSem(k)) == s.sems[k].waiters && Waiters(s', WantSem(k)) == x.waiters
    ensures Exists(s, WantSem(k)) && SemHolds(s, k)
  {
    hide LocksHold, MutexHolds, SemHolds, Retrying;
    LocksHoldIs(s);
  }

  lemma JoinedIs(s: System, s': System, q: Pc)
    requires q != Free && Exists(s, q) && s.core.current != s.idle && s.core.current in s.pc
    requires s.pc[s.core.current] == Free || s.pc[s.core.current] == q
    requires s'.core == Block(s.core) && s'.pc == s.pc[s.core.current := q]
    requires Waiters(s', q) == Waiters(s, q) + [s.core.current] && OtherQueuesSame(s, s', q)
    ensures Joined(s, s', q)
  {
  }

  lemma PassedIs(s: System, s': System, q: Pc)
    requires q != Free && s.core.current in s.pc && (s.pc[s.core.current] == Free || s.pc[s.core.current] == q)
    requires s'.core == s.core && s'.pc == s.pc[s.core.current := Free]
    requires Waiters(s', q) == Waiters(s, q) && OtherQueuesSame(s, s', q)
    ensures Passed(s, s', q)
  {
  }

  lemma LeftIs(s: System, s': System, q: Pc)
    requires q != Free && Waiters(s, q) != [] && s'.core == MakeReady(s.core, Waiters(s, q)[0]) && s'.pc == s.pc
    requires Waiters(s', q) == Waiters(s, q)[1..] && OtherQueuesSame(s, s', q)
    ensures Left(s, s', q)
  {
  }

  /** The current thread is in the program of whoever makes the step. */
  lemma Caller(s: System, step: Step)
    requires Inv(s) && Enabled(s, step)
    ensures PlacesHold(s) && LocksHold(s)
    ensures step.LockStep? || step.WaitStep? || step.UnlockStep? || step.PostStep? ==>
              s.core.current in s.pc && s.core.current != s.idle
    ensures step.UnlockStep? || step.PostStep? ==> s.pc[s.core.current] == Free
    ensures step.LockStep? ==>
              step.m in s.mutexes && (s.pc[s.core.current] == Free || s.pc[s.core.current] == WantMutex(step.m))
    ensures step.WaitStep? ==>
              step.k in s.sems && (s.pc[s.core.current] == Free || s.pc[s.core.current] == WantSem(step.k))
    ensures step.UnlockStep? ==> step.m in s.mutexes
    ensures step.PostStep? ==> step.k in s.sems
  {
    InvIs(s);
  }

  // ---------------------------------------------------------------- mutexes

  lemma MutexIs(s: System, m: nat)
    requires m in s.mutexes
    ensures MutexHolds(s, m) <==>
            var x := s.mutexes[m];
            && (x.locked <==> x.owner.Some?)
            && m in s.holding && s.holding[m] == (if x.owner.Some? then {x.owner.value} else {})
            && (x.waiters != [] ==> x.locked || Retrying(s, WantMutex(m)) != {})
    ensures LockHolds(s, WantMutex(m)) <==> MutexHolds(s, m)
  {
  }

  lemma LockBlocksIs(s: System, m: nat)
    requires Enabled(s, LockStep(m)) && s.mutexes[m].locked
    requires !(s.pc[s.core.current] == Free && s.mutexes[m].owner == Some(s.core.current))
    ensures var x, me := s.mutexes[m], s.core.current;
            Apply(s, LockStep(m)) == s.(core := Schedule(Block(s.core), s.kernel), pc := s.pc[me := WantMutex(m)],
                                        mutexes := s.mutexes[m := x.(waiters := x.waiters + [me])])
  {
  }

  /** A thread that finds the mutex taken joins its queue; the owner is still there to wake it. */
  lemma LockBlocks(s: System, m: nat)
    requires Inv(s) && Enabled(s, LockStep(m)) && s.mutexes[m].locked
    requires !(s.pc[s.core.current] == Free && s.mutexes[m].owner == Some(s.core.current))
    ensures Inv(Apply(s, LockStep(m)))
  {
    var q, x, me := WantMutex(m), s.mutexes[m], s.core.current;
    var x1 := x.(waiters := x.waiters + [me]);
    var s1 := s.(core := Block(s.core), pc := s.pc[me := q], mutexes := s.mutexes[m := x1]);
    hide *;
    LockBlocksIs(s, m);
    Caller(s, LockStep(m));
    MutexOnly(s, s1, m, x1);
    MutexIs(s, m);
    MutexIs(s1, m);
    JoinedIs(s, s1, q);
    JoinRestores(s, s1, q);
  }

  lemma LockTakesIs(s: System, m: nat)
    requires Enabled(s, LockStep(m)) && !s.mutexes[m].locked && m in s.holding
    requires s.mutexes[m].owner == None
    ensures var x, me := s.mutexes[m], s.core.current;
            Apply(s, LockStep(m)) == s.(pc := s.pc[me := Free], holding := s.holding[m := s.holding[m] + {me}],
                                        mutexes := s.mutexes[m := x.(locked := true, owner := Some(me))])
  {
  }

  /** A thread that finds the mutex open takes it, whether it just came or was woken for it. */
  lemma LockTakes(s: System, m: nat)
    requires Inv(s) && Enabled(s, LockStep(m)) && !s.mutexes[m].locked
    ensures Inv(Apply(s, LockStep(m)))
  {
    var q, x, me, s' := WantMutex(m), s.mutexes[m], s.core.current, Apply(s, LockStep(m));
    var x1 := x.(locked := true, owner := Some(me));
    hide *;
    Caller(s, LockStep(m));
    LocksHoldIs(s);
    LockTakesIs(s, m);
    MutexOnly(s, s', m, x1);
    MutexIs(s, m);
    MutexIs(s', m);
    PassedIs(s, s', q);
    PassRestores(s, s', q);
  }

  lemma UnlockIs(s: System, m: nat) returns (x1: Mutex<Tid>)
    requires Enabled(s, UnlockStep(m)) && m in s.holding && s.mutexes[m].owner == Some(s.core.current)
    ensures m in s.mutexes
    ensures var x := s.mutexes[m];
            && x1 == Mutex(false, None, if x.waiters == [] then [] else x.waiters[1..])
            && Apply(s, UnlockStep(m)) ==
                 s.(core := if x.waiters == [] then s.core else MakeReady(s.core, x.waiters[0]),
                    mutexes := s.mutexes[m := x1], holding := s.holding[m := s.holding[m] - {s.core.current}])
  {
    var x := s.mutexes[m];
    x1 := Mutex(false, None, if x.waiters == [] then [] else x.waiters[1..]);
  }

  /** The owner opens a mutex that nobody waits for. */
  lemma UnlockOpens(s: System, m: nat)
    requires Inv(s) && Enabled(s, UnlockStep(m)) && s.mutexes[m].owner == Some(s.core.current)
    requires s.mutexes[m].waiters == []
    ensures Inv(Apply(s, UnlockStep(m)))
  {
    hide *;
    var q, s' := WantMutex(m), Apply(s, UnlockStep(m));
    Caller(s, UnlockStep(m));
    LocksHoldIs(s);
    var x1 := UnlockIs(s, m);
    MutexOnly(s, s', m, x1);
    MutexIs(s, m);
    MutexIs(s', m);
    assert s'.pc == s.pc[s.core.current := Free];
    PassedIs(s, s', q);
    PassRestores(s, s', q);
  }

  /** The owner opens the mutex and wakes the first waiter, which will retry. */
  lemma UnlockWakes(s: System, m: nat)
    requires Inv(s) && Enabled(s, UnlockStep(m)) && s.mutexes[m].owner == Some(s.core.current)
    requires s.mutexes[m].waiters != []
    ensures Inv(Apply(s, UnlockStep(m)))
  {
    hide *;
    var q, s' := WantMutex(m), Apply(s, UnlockStep(m));
    Caller(s, UnlockStep(m));
    LocksHoldIs(s);
    var x1 := UnlockIs(s, m);
    MutexOnly(s, s', m, x1);
    MutexIs(s, m);
    QueuesHoldAt(s, q);
    LeftIs(s, s', q);
    LeaveRetrying(s, s', q, q);
    MutexIs(s', m);
    LeaveRestores(s, s', q);
  }

  lemma UnlockKeeps(s: System, m: nat)
    requires Inv(s) && Enabled(s, UnlockStep(m))
    ensures Inv(Apply(s, UnlockStep(m)))
  {
    if s.mutexes[m].owner != Some(s.core.current) {
      assert Apply(s, UnlockStep(m)) == s;
    } else if s.mutexes[m].waiters == [] {
      UnlockOpens(s, m);
    } else {
      UnlockWakes(s, m);
    }
  }

  lemma LockKeeps(s: System, m: nat)
    requires Inv(s) && Enabled(s, LockStep(m))
    ensures Inv(Apply(s, LockStep(m)))
  {
    if s.pc[s.core.current] == Free && s.mutexes[m].owner == Some(s.core.current) {
    } else if s.mutexes[m].locked {
      LockBlocks(s, m);
    } else {
      LockTakes(s, m);
    }
  }

  // ---------------------------------------------------------------- semaphores

  lemma SemIs(s: System, k: nat)
    requires k in s.sems
    ensures SemHolds(s, k) <==>
            var x := s.sems[k];
            && 0 <= x.count
            && k in s.log && s.log[k].initial + s.log[k].posts == x.count + s.log[k].taken
            && (x.waiters != [] ==> x.count <= |Retrying(s, WantSem(k))|)
    ensures LockHolds(s, WantSem(k)) <==> SemHolds(s, k)
  {
  }

  lemma WaitBlocksIs(s: System, k: nat)
    requires Enabled(s, WaitStep(k)) && s.sems[k].count <= 0
    ensures var x, me := s.sems[k], s.core.current;
            Apply(s, WaitStep(k)) == s.(core := Schedule(Block(s.core), s.kernel), pc := s.pc[me := WantSem(k)],
                                        sems := s.sems[k := x.(waiters := x.waiters + [me])])
  {
  }

  lemma WaitBlocks(s: System, k: nat)
    requires Inv(s) && Enabled(s, WaitStep(k)) && s.sems[k].count <= 0
    ensures Inv(Apply(s, WaitStep(k)))
  {
    var q, x, me := WantSem(k), s.sems[k], s.core.current;
    var x1 := x.(waiters := x.waiters + [me]);
    var s1 := s.(core := Block(s.core), pc := s.pc[me := q], sems := s.sems[k := x1]);
    hide *;
    WaitBlocksIs(s, k);
    Caller(s, WaitStep(k));
    SemOnly(s, s1, k, x1);
    SemIs(s, k);
    SemIs(s1, k);
    JoinedIs(s, s1, q);
    JoinRestores(s, s1, q);
  }

  lemma WaitTakesIs(s: System, k: nat)
    requires Enabled(s, WaitStep(k)) && s.sems[k].count > 0 && k in s.log
    ensures var x, me := s.sems[k], s.core.current;
            Apply(s, WaitStep(k)) == s.(pc := s.pc[me := Free], sems := s.sems[k := x.(count := x.count - 1)],
                                        log := s.log[k := s.log[k].(taken := s.log[k].taken + 1)])
  {
  }

  /** Taking a unit lowers the count by one and, in a retry, the number of threads to retry too. */
  lemma WaitTakes(s: System, k: nat)
    requires Inv(s) && Enabled(s, WaitStep(k)) && s.sems[k].count > 0
    ensures Inv(Apply(s, WaitStep(k)))
  {
    var q, x, me, s' := WantSem(k), s.sems[k], s.core.current, Apply(s, WaitStep(k));
    var x1 := x.(count := x.count - 1);
    hide *;
    Caller(s, WaitStep(k));
    LocksHoldIs(s);
    WaitTakesIs(s, k);
    SemOnly(s, s', k, x1);
    SemIs(s, k);
    SemIs(s', k);
    PassedIs(s, s', q);
    PassRetrying(s, s', q, q);
    LoseOne(Retrying(s, q), me);
    PassRestores(s, s', q);
  }

  lemma LoseOne(a: set<Tid>, t: Tid)
    ensures |a| - 1 <= |a - {t}|
  {
    if t in a { assert a == (a - {t}) + {t}; } else { assert a - {t} == a; }
  }

  lemma GainOne(a: set<Tid>, t: Tid)
    requires t !in a
    ensures |a + {t}| == |a| + 1
  {
  }

  lemma PostIs(s: System, k: nat) returns (x1: Sem<Tid>)
    requires Enabled(s, PostStep(k)) && k in s.log
    ensures k in s.sems
    ensures var x := s.sems[k];
            && x1 == Sem(x.count + 1, if x.waiters == [] then [] else x.waiters[1..])
            && Apply(s, PostStep(k)) ==
                 s.(core := if x.waiters == [] then s.core else MakeReady(s.core, x.waiters[0]),
                    sems := s.sems[k := x1], log := s.log[k := s.log[k].(posts := s.log[k].posts + 1)])
  {
    var x := s.sems[k];
    x1 := Sem(x.count + 1, if x.waiters == [] then [] else x.waiters[1..]);
  }

  /** A post that finds nobody waiting adds a unit. */
  lemma PostAdds(s: System, k: nat)
    requires Inv(s) && Enabled(s, PostStep(k)) && s.sems[k].waiters == []
    ensures Inv(Apply(s, PostStep(k)))
  {
    hide *;
    var q, s' := WantSem(k), Apply(s, PostStep(k));
    Caller(s, PostStep(k));
    LocksHoldIs(s);
    var x1 := PostIs(s, k);
    SemOnly(s, s', k, x1);
    SemIs(s, k);
    SemIs(s', k);
    assert s'.pc == s.pc[s.core.current := Free];
    PassedIs(s, s', q);
    PassRestores(s, s', q);
  }

  /** A post that finds a thread waiting adds a unit and a thread to retry. */
  lemma PostWakes(s: System, k: nat)
    requires Inv(s) && Enabled(s, PostStep(k)) && s.sems[k].waiters != []
    ensures Inv(Apply(s, PostStep(k)))
  {
    hide *;
    var q, s' := WantSem(k), Apply(s, PostStep(k));
    Caller(s, PostStep(k));
    LocksHoldIs(s);
    var x1 := PostIs(s, k);
    SemOnly(s, s', k, x1);
    SemIs(s, k);
    QueuesHoldAt(s, q);
    LeftIs(s, s', q);
    LeaveRetrying(s, s', q, q);
    GainOne(Retrying(s, q), s.sems[k].waiters[0]);
    SemIs(s', k);
    LeaveRestores(s, s', q);
  }

  lemma PostKeeps(s: System, k: nat)
    requires Inv(s) && Enabled(s, PostStep(k))
    ensures Inv(Apply(s, PostStep(k)))
  {
    if s.sems[k].waiters == [] { PostAdds(s, k); } else { PostWakes(s, k); }
  }

  // ---------------------------------------------------------------- sleeping, starting and killing threads

  /** The places of threads in terms of the core: who is stuck, what each is after. */
  lemma PlacesIs(s: System)
    ensures PlacesHold(s) <==>
            && s.pc.Keys == s.core.tag.Keys && CoreInv(s.core, Stuck(s)) && NoneOverdue(s.core)
            && (forall t :: t in s.pc ==> Exists(s, s.pc[t]))
            && s.idle in s.core.tag && s.core.tag[s.idle] != Blocked && s.pc[s.idle] == Free
    ensures PlacesSettled(s) <==>
            && s.pc.Keys == s.core.tag.Keys && Settled(s.core, Stuck(s))
            && (forall t :: t in s.pc ==> Exists(s, s.pc[t]))
            && s.idle in s.core.tag && s.core.tag[s.idle] != Blocked && s.pc[s.idle] == Free
  {
  }

  lemma AsleepSettles<T>(c: Core<T>, waiting: set<T>, at: nat)
    requires CoreInv(c, waiting)
    ensures Settled(Block(c).(wakeup := c.wakeup[c.current := at], sleep := c.sleep + [c.current]), waiting)
  {
    DistinctJoin(c.sleep, [c.current]);
  }

  lemma SleepSettles(s: System, s1: System, at: nat)
    requires PlacesHold(s) && LocksHold(s) && CanCall(s)
    requires s1 == s.(core := Block(s.core).(wakeup := s.core.wakeup[s.core.current := at],
                                             sleep := s.core.sleep + [s.core.current]))
    ensures PlacesSettled(s1) && LocksHold(s1)
  {
    hide PlacesHold, PlacesSettled, LocksHold, CoreInv, Settled, NoneOverdue;
    PlacesIs(s);
    PlacesIs(s1);
    assert Stuck(s1) == Stuck(s);
    AsleepSettles(s.core, Stuck(s), at);
    SameWaits(s, s1);
  }

  lemma SleepKeeps(s: System, ms: nat)
    requires Inv(s) && Enabled(s, SleepStep(ms))
    ensures Inv(Apply(s, SleepStep(ms)))
  {
    InvIs(s);
    var at := WakeTime(s.core.ticks, ms);
    var s1 := s.(core := Block(s.core).(wakeup := s.core.wakeup[s.core.current := at],
                                        sleep := s.core.sleep + [s.core.current]));
    assert ms != 0 ==> Apply(s, SleepStep(ms)) == s1.(core := Schedule(s1.core, s1.kernel));
    assert ms == 0 ==> Apply(s, SleepStep(ms)) == s;
    hide *;
    if ms != 0 {
      SleepSettles(s, s1, at);
      ScheduleRestores(s1);
    }
  }

  lemma NewSettles<T>(c: Core<T>, waiting: set<T>, t: T)
    requires CoreInv(c, waiting) && NoneOverdue(c) && t !in c.tag
    ensures var d := MakeReady(c, t).(wakeup := c.wakeup[t := 0]); CoreInv(d, waiting) && NoneOverdue(d)
  {
    DistinctJoin(c.ready, [t]);
  }

  /** The thread `t`, which is at no lock, comes or goes, and nothing else. */
  ghost predicate Bystander(s: System, s': System, t: Tid) {
    && s.pc.Keys == s.core.tag.Keys && s'.pc.Keys == s'.core.tag.Keys
    && (t in s.pc ==> s.pc[t] == Free) && (t in s'.pc ==> s'.pc[t] == Free)
    && (forall u :: u in s'.pc && u != t ==> u in s.pc) && (forall u :: u in s.pc && u != t ==> u in s'.pc)
    && (forall u :: u != t && u in s.pc ==> s'.pc[u] == s.pc[u] && s'.core.tag[u] == s.core.tag[u])
  }

  ghost predicate SameLocks(s: System, s': System) {
    && s'.mutexes == s.mutexes && s'.sems == s.sems && s'.holding == s.holding && s'.log == s.log
    && s'.idle == s.idle && s'.kernel == s.kernel
  }

  lemma BystanderWaits(s: System, s': System, t: Tid)
    requires Bystander(s, s', t)
    ensures Stuck(s') == Stuck(s) && t !in Stuck(s)
    ensures forall u, q: Pc :: q != Free ==> (StuckOn(s, u, q) <==> StuckOn(s', u, q))
    ensures forall q: Pc :: q != Free ==> Retrying(s', q) == Retrying(s, q)
  {
  }

  lemma BystanderPlaces(s: System, s': System, t: Tid)
    requires PlacesHold(s) && Bystander(s, s', t) && SameLocks(s, s') && t != s.idle && Stuck(s') == Stuck(s)
    requires CoreInv(s'.core, Stuck(s)) && NoneOverdue(s'.core)
    ensures PlacesHold(s')
  {
    hide CoreInv, NoneOverdue, Stuck;
  }

  /** The comings and goings of threads that are at no lock keep the invariant. */
  lemma BystanderKeeps(s: System, s': System, t: Tid)
    requires Inv(s) && Bystander(s, s', t) && SameLocks(s, s') && t != s.idle
    requires CoreInv(s'.core, Stuck(s)) && NoneOverdue(s'.core)
    ensures Inv(s')
  {
    hide Inv, PlacesHold, LocksHold, Bystander, Stuck, Retrying, StuckOn, CoreInv, NoneOverdue;
    InvIs(s);
    InvIs(s');
    BystanderWaits(s, s', t);
    BystanderPlaces(s, s', t);
    SameWaits(s, s');
  }

  lemma SpawnIs(s: System, t: Tid)
    requires Inv(s) && Enabled(s, Spawn(t))
    ensures var s' := Apply(s, Spawn(t));
            && Bystander(s, s', t) && SameLocks(s, s') && t != s.idle
            && s'.core == MakeReady(s.core, t).(wakeup := s.core.wakeup[t := 0])
            && CoreInv(s.core, Stuck(s)) && NoneOverdue(s.core) && t !in s.core.tag
  {
    hide Inv, PlacesHold, LocksHold, Settled, CoreInv, Stuck, NoneOverdue, Exists;
    InvIs(s);
    PlacesIs(s);
  }

  lemma SpawnKeeps(s: System, t: Tid)
    requires Inv(s) && Enabled(s, Spawn(t))
    ensures Inv(Apply(s, Spawn(t)))
  {
    hide *;
    SpawnIs(s, t);
    NewSettles(s.core, Stuck(s), t);
    BystanderKeeps(s, Apply(s, Spawn(t)), t);
  }

  lemma {:induction false} WithoutIs<T>(q: seq<T>, t: T, u: T)
    requires Distinct(q)
    ensures u in Without(q, t) <==> u in q && u != t
    ensures Distinct(Without(q, t))
    decreases |q|
  {
    if q != [] {
      var init, x := q[..|q| - 1], q[|q| - 1];
      assert q == init + [x];
      WithoutIs(init, t, u);
      WithoutIs(init, t, x);
    }
  }

  /** Taking out the one element that is `t`. */
  lemma {:induction false} WithoutAt<T>(q: seq<T>, t: T, i: nat)
    requires Distinct(q) && (t in q ==> i < |q| && q[i] == t)
    ensures Without(q, t) == if t in q then q[..i] + q[i + 1..] else q
    decreases |q|
  {
    if q != [] {
      var init, x := q[..|q| - 1], q[|q| - 1];
      assert q == init + [x];
      WithoutAt(init, t, i);
    }
  }

  /** `d` is `c` without the thread `t`. */
  ghost predicate Dropped<T>(c: Core<T>, d: Core<T>, t: T) {
    && Distinct(d.ready) && Distinct(d.sleep) && d.current == c.current && d.ticks == c.ticks
    && (forall u :: u in c.ready && u != t ==> u in d.ready) && (forall u :: u in d.ready ==> u in c.ready && u != t)
    && (forall u :: u in c.sleep && u != t ==> u in d.sleep) && (forall u :: u in d.sleep ==> u in c.sleep && u != t)
    && d.tag.Keys == c.tag.Keys - {t} && d.wakeup.Keys == c.wakeup.Keys - {t}
    && (forall u :: u in d.tag ==> d.tag[u] == c.tag[u]) && (forall u :: u in d.wakeup ==> d.wakeup[u] == c.wakeup[u])
  }

  lemma DropEffect<T>(c: Core<T>, t: T)
    requires Distinct(c.ready) && Distinct(c.sleep)
    ensures Dropped(c, Drop(c, t), t)
  {
    WithoutIs(c.ready, t, t);
    WithoutIs(c.sleep, t, t);
    forall u | u in Without(c.ready, t) ensures u in c.ready && u != t { WithoutIs(c.ready, t, u); }
    forall u | u in c.ready && u != t ensures u in Without(c.ready, t) { WithoutIs(c.ready, t, u); }
    forall u | u in Without(c.sleep, t) ensures u in c.sleep && u != t { WithoutIs(c.sleep, t, u); }
    forall u | u in c.sleep && u != t ensures u in Without(c.sleep, t) { WithoutIs(c.sleep, t, u); }
  }

  lemma DroppedSettles<T>(c: Core<T>, d: Core<T>, waiting: set<T>, t: T)
    requires CoreInv(c, waiting) && NoneOverdue(c) && t in c.tag && t != c.current && t !in waiting && Dropped(c, d, t)
    ensures CoreInv(d, waiting) && NoneOverdue(d)
  {
    hide Distinct;
    assert d.tag.Keys == c.tag.Keys - {t};
    assert waiting <= d.tag.Keys;
    assert Settled(d, waiting);
  }

  lemma DropSettles<T>(c: Core<T>, waiting: set<T>, t: T)
    requires CoreInv(c, waiting) && NoneOverdue(c) && t in c.tag && t != c.current && t !in waiting
    ensures CoreInv(Drop(c, t), waiting) && NoneOverdue(Drop(c, t))
  {
    DropEffect(c, t);
    DroppedSettles(c, Drop(c, t), waiting, t);
  }

  lemma KillIs(s: System, t: Tid)
    requires Inv(s) && Enabled(s, Kill(t))
    ensures var s' := Apply(s, Kill(t));
            && Bystander(s, s', t) && SameLocks(s, s') && t != s.idle && s'.core == Drop(s.core, t)
            && CoreInv(s.core, Stuck(s)) && NoneOverdue(s.core) && t in s.core.tag && t != s.core.current
  {
    hide Inv, PlacesHold, LocksHold, Settled, CoreInv, Stuck, NoneOverdue, Exists, Without;
    InvIs(s);
    PlacesIs(s);
  }

  lemma KillKeeps(s: System, t: Tid)
    requires Inv(s) && Enabled(s, Kill(t))
    ensures Inv(Apply(s, Kill(t)))
  {
    hide *;
    KillIs(s, t);
    BystanderWaits(s, Apply(s, Kill(t)), t);
    DropSettles(s.core, Stuck(s), t);
    BystanderKeeps(s, Apply(s, Kill(t)), t);
  }

  // ---------------------------------------------------------------- every run

  lemma StepKeeps(s: System, step: Step)
    requires Inv(s) && Enabled(s, step)
    ensures Inv(Apply(s, step))
  {
    hide *;
    match step
    case Tick => TickKeeps(s);
    case Yield => YieldKeeps(s);
    case LockStep(m) => LockKeeps(s, m);
    case UnlockStep(m) => UnlockKeeps(s, m);
    case SleepStep(ms) => SleepKeeps(s, ms);
    case WaitStep(k) => WaitKeeps(s, k);
    case PostStep(k) => PostKeeps(s, k);
    case Spawn(t) => SpawnKeeps(s, t);
    case Kill(t) => KillKeeps(s, t);
  }

  lemma WaitKeeps(s: System, k: nat)
    requires Inv(s) && Enabled(s, WaitStep(k))
    ensures Inv(Apply(s, WaitStep(k)))
  {
    if s.sems[k].count <= 0 { WaitBlocks(s, k); } else { WaitTakes(s, k); }
  }

  /** The steps can be made one after the other. */
  ghost predicate CanRun(s: System, steps: seq<Step>)
    decreases |steps|
  {
    steps == [] || (Enabled(s, steps[0]) && CanRun(Apply(s, steps[0]), steps[1..]))
  }

  ghost function After(s: System, steps: seq<Step>): System
    requires CanRun(s, steps)
    decreases |steps|
  {
    if steps == [] then s else After(Apply(s, steps[0]), steps[1..])
  }

  /** Multitasking has just been started: the kernel thread runs, the idle thread is ready, every lock
      is as its initialiser left it. */
  ghost predicate Boot(s: System) {
    && s.kernel != s.idle
    && s.core.current == s.kernel && s.core.ready == [s.idle] && s.core.sleep == []
    && s.core.tag == map[s.kernel := Running, s.idle := Ready]
    && s.core.wakeup == map[s.kernel := 0, s.idle := 0]
    && s.pc == map[s.kernel := Free, s.idle := Free]
    && s.holding == (map m | m in s.mutexes :: {})
    && s.log == (map k | k in s.sems :: SemLog(s.sems[k].count, 0, 0))
    && (forall m :: m in s.mutexes ==> s.mutexes[m] == Mutex(false, None, []))
    && (forall k :: k in s.sems ==> 0 <= s.sems[k].count && s.sems[k].waiters == [])
  }

  lemma BootPlaces(s: System)
    requires Boot(s)
    ensures PlacesHold(s) && forall t, q: Pc :: q != Free ==> !StuckOn(s, t, q)
  {
    assert Stuck(s) == {};
  }

  lemma BootHolds(s: System)
    requires Boot(s)
    ensures Inv(s)
  {
    BootPlaces(s);
    hide PlacesHold, StuckOn, Retrying;
    forall q: Pc | q != Free ensures QueueHolds(s, q) { assert Waiters(s, q) == []; }
    forall m | m in s.mutexes ensures MutexHolds(s, m) { }
    forall k | k in s.sems ensures SemHolds(s, k) { }
  }

  /** From start-up on, whatever threads do and whenever the timer ticks: every thread is in exactly one
      place with the tag of that place, wait queues list exactly the threads stuck on them, mutexes
      exclude and lose no wake-up, semaphores conserve their units. */
  lemma {:induction false} RunKeeps(s: System, steps: seq<Step>)
    requires Inv(s) && CanRun(s, steps)
    ensures Inv(After(s, steps))
    decreases |steps|
  {
    hide Inv, Enabled, Apply;
    if steps != [] {
      StepKeeps(s, steps[0]);
      RunKeeps(Apply(s, steps[0]), steps[1..]);
    }
  }

  lemma EveryRunIsSafe(s: System, steps: seq<Step>)
    requires Boot(s) && CanRun(s, steps)
    ensures Inv(After(s, steps))
  {
    hide Boot, Inv, CanRun, After;
    BootHolds(s);
    RunKeeps(s, steps);
  }
}
