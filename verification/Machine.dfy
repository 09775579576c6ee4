/** The running kernel: one scheduler with its mutexes and semaphores, all of them over linked queues that
    share one `next` field per thread.  Every interrupts-off segment is one step of the step system, and
    keeps every list well formed. */
module Machine {
  import opened Basics
  import opened ThreadQueue
  import opened Scheduling
  import opened Locks
  import opened Kernel
  import opened Interleavings

  /** The locks have been initialised, each with a queue of its own, and not yet used. */
  ghost predicate Unused(mutexes: map<nat, MutexLock>, sems: map<nat, Semaphore>)
    reads mutexes.Values, set x | x in mutexes.Values :: x.waiters, sems.Values, set x | x in sems.Values :: x.waiters
  {
    && (forall m :: m in mutexes ==> mutexes[m].View() == Mutex(false, None, []) && mutexes[m].waiters.Valid())
    && (forall k :: k in sems ==> sems[k].count >= 0 && sems[k].waiters.elems == [] && sems[k].waiters.Valid())
    && (forall m, n :: m in mutexes && n in mutexes && m != n ==> mutexes[m].waiters != mutexes[n].waiters)
    && (forall k, n :: k in sems && n in sems && k != n ==> sems[k].waiters != sems[n].waiters)
    && (forall m, k :: m in mutexes && k in sems ==> mutexes[m].waiters != sems[k].waiters)
  }

  lemma HeadIs(q: Queue)
    requires q.Valid() && q.elems != []
    ensures q.head == q.elems[0]
  {
  }

  /** The kernel thread runs and the idle thread is ready. */
  ghost predicate Started(s: Scheduler, idle: Thread)
    reads s, s.ready, s.sleep, s.threads
  {
    && s.current == s.kernel && s.ready.elems == [idle] && s.sleep.elems == [] && idle != s.kernel
    && s.View().tag == map[s.kernel := Running, idle := Ready] && s.View().wakeup == map[s.kernel := 0, idle := 0]
  }

  lemma StartedIf(s: Scheduler, idle: Thread)
    requires s.current == s.kernel && s.ready.elems == [idle] && s.sleep.elems == [] && idle != s.kernel
    requires s.View().tag == map[s.kernel := Running, idle := Ready] && s.View().wakeup == map[s.kernel := 0, idle := 0]
    ensures Started(s, idle)
  {
  }

  /** `init_multitasking`. */
  method StartUp() returns (s: Scheduler, idle: Thread)
    ensures fresh(s) && fresh(s.ready) && fresh(s.sleep) && s.Shape() && Started(s, idle)
  {
    hide *;
    s := new Scheduler();
    s.QueuesAre();
    HeadIs(s.ready);
    idle := s.ready.head;
    StartedIf(s, idle);
  }

  class Machine {
    const sched: Scheduler
    const mutexes: map<nat, MutexLock>
    const sems: map<nat, Semaphore>
    const idle: Thread
    /** Where each thread is, and what has happened to the locks so far. */
    ghost var pc: map<Thread, Pc>
    ghost var holding: map<nat, set<Thread>>
    ghost var log: map<nat, SemLog>

    /** Multitasking starts with locks that have been initialised and not yet used. */
    constructor (mutexes: map<nat, MutexLock>, sems: map<nat, Semaphore>)
      requires Unused(mutexes, sems)
      ensures Valid() && Boot(Abs())
    {
      hide *;
      var s, first := StartUp();
      sched, this.mutexes, this.sems, idle := s, mutexes, sems, first;
      pc := map[s.kernel := Free, first := Free];
      holding := map m | m in mutexes :: {};
      log := map k | k in sems :: SemLog(sems[k].count, 0, 0);
      new;
      WiredIf();
      AtBoot();
      BootHolds(Abs());
      ValidIf();
    }

    lemma WiredIf()
      requires Unused(mutexes, sems) && sched.Shape()
      requires forall m :: m in mutexes ==> mutexes[m].waiters != sched.ready && mutexes[m].waiters != sched.sleep
      requires forall k :: k in sems ==> sems[k].waiters != sched.ready && sems[k].waiters != sched.sleep
      ensures Wired() && Lists()
    {
      hide Queue.Valid;
    }

    lemma ValidIf()
      requires Wired() && Lists() && Inv(Abs())
      ensures Valid()
    {
    }

    lemma AtBoot()
      requires Unused(mutexes, sems)
      requires Started(sched, idle)
      requires pc == map[sched.kernel := Free, idle := Free]
      requires holding == (map m | m in mutexes :: {}) && log == (map k | k in sems :: SemLog(sems[k].count, 0, 0))
      ensures Boot(Abs())
    {
    }

    ghost predicate Has(q: Pc) {
      match q
      case Free => false
      case WantMutex(m) => m in mutexes
      case WantSem(k) => k in sems
    }

    /** The wait queue behind a retry loop. */
    ghost function QueueOf(q: Pc): Queue
      requires Has(q)
    {
      match q
      case WantMutex(m) => mutexes[m].waiters
      case WantSem(k) => sems[k].waiters
    }

    /** No two queues are the same object. */
    ghost predicate Wired() {
      && sched.ready != sched.sleep
      && (forall q: Pc :: Has(q) ==> QueueOf(q) != sched.ready && QueueOf(q) != sched.sleep)
      && (forall q: Pc, r: Pc :: Has(q) && Has(r) && q != r ==> QueueOf(q) != QueueOf(r))
    }

    ghost function MutexViews(): map<nat, Mutex<Thread>>
      reads *
    {
      map m | m in mutexes :: mutexes[m].View()
    }

    ghost function SemViews(): map<nat, Sem<Thread>>
      reads *
    {
      map k | k in sems :: sems[k].View()
    }

    /** The state as a value of the step system. */
    ghost function Abs(): System
      reads *
    {
      System(sched.View(), MutexViews(), SemViews(), pc, holding, log, sched.kernel, idle)
    }

    /** Every queue is a well-formed list. */
    ghost predicate Lists()
      reads *
    {
      sched.Shape() && forall q: Pc :: Has(q) ==> QueueOf(q).Valid()
    }

    ghost predicate Valid()
      reads *
    {
      Wired() && Lists() && Inv(Abs())
    }

    /** The objects a step may change. */
    ghost function Owned(): set<object>
      reads sched
    {
      {sched, sched.ready, sched.sleep} + sched.threads
      + (set m | m in mutexes :: mutexes[m]) + (set m | m in mutexes :: mutexes[m].waiters)
      + (set k | k in sems :: sems[k]) + (set k | k in sems :: sems[k].waiters)
    }

    // -------------------------------------------------------------- where the threads are

    lemma CurrentRuns()
      requires Valid()
      ensures sched.Shape() && Wired() && Inv(Abs()) && sched.current.state == Running
      ensures sched.current !in sched.ready.elems && sched.current !in sched.sleep.elems
    {
    }

    lemma WiredIs()
      requires Wired()
      ensures sched.ready != sched.sleep && !Has(Free)
      ensures forall m :: m in mutexes ==> mutexes[m].waiters != sched.ready && mutexes[m].waiters != sched.sleep
      ensures forall k :: k in sems ==> sems[k].waiters != sched.ready && sems[k].waiters != sched.sleep
    {
      forall m | m in mutexes ensures mutexes[m].waiters != sched.ready && mutexes[m].waiters != sched.sleep {
        assert Has(WantMutex(m));
      }
      forall k | k in sems ensures sems[k].waiters != sched.ready && sems[k].waiters != sched.sleep {
        assert Has(WantSem(k));
      }
    }

    lemma OwnedIs()
      ensures this !in Owned() && sched in Owned() && sched.ready in Owned() && sched.sleep in Owned()
      ensures sched.threads <= Owned()
      ensures forall m :: m in mutexes ==> mutexes[m] in Owned() && mutexes[m].waiters in Owned()
      ensures forall k :: k in sems ==> sems[k] in Owned() && sems[k].waiters in Owned()
    {
    }

    /** Only threads of the ready queue, the sleep queue and the wait queue `r`, and the current thread, have
        been relinked. */
    twostate predicate Relinked(r: Pc)
      reads *
    {
      forall t: Thread ::
        (t in old(sched.threads) && t != old(sched.current)
         && t !in old(sched.ready.elems) && t !in old(sched.sleep.elems)
         && (Has(r) ==> t !in old(QueueOf(r).elems))) ==> t.next == old(t.next)
    }

    /** The other wait queues are still well formed. */
    twostate lemma OthersKept(r: Pc)
      requires old(Valid()) && Relinked(r)
      requires forall q: Pc :: Has(q) && q != r ==> unchanged(QueueOf(q))
      ensures forall q: Pc :: Has(q) && q != r ==> QueueOf(q).Valid()
    {
      forall q: Pc | Has(q) && q != r ensures QueueOf(q).Valid() {
        var s := old(Abs());
        assert Waiters(s, q) == old(QueueOf(q).elems);
        assert Has(r) ==> Waiters(s, r) == old(QueueOf(r).elems);
        hide Inv, Queue.Valid, Abs, QueueOf, Waiters;
        forall t | t in Waiters(s, q) ensures t.next == old(t.next) {
          WaiterIn(s, q, t);
          if Has(r) && t in Waiters(s, r) { WaiterIn(s, r, t); }
        }
        QueueOf(q).Undisturbed();
      }
    }

    /** What the scheduler did to the lists, at most the wait queue `r` among those of the locks. */
    twostate predicate Moved(r: Pc)
      reads *
    {
      && sched.Shape() && (Has(r) ==> QueueOf(r).Valid()) && Relinked(r)
      && (forall q: Pc :: Has(q) && q != r ==> unchanged(QueueOf(q)))
    }

    twostate lemma MovedIs(r: Pc)
      requires Moved(r)
      ensures sched.Shape() && (Has(r) ==> QueueOf(r).Valid()) && Relinked(r)
      ensures forall q: Pc :: Has(q) && q != r ==> unchanged(QueueOf(q))
    {
    }

    twostate lemma MovedIf(r: Pc)
      requires sched.Shape() && (Has(r) ==> QueueOf(r).Valid())
      requires forall q: Pc :: Has(q) && q != r ==> unchanged(QueueOf(q))
      requires forall t: Thread ::
        (t in old(sched.threads) && t != old(sched.current)
         && t !in old(sched.ready.elems) && t !in old(sched.sleep.elems)
         && (Has(r) ==> t !in old(QueueOf(r).elems))) ==> t.next == old(t.next)
      ensures Moved(r)
    {
    }

    /** A step that relinks no other thread keeps all lists well formed. */
    twostate lemma Relist(r: Pc)
      requires old(Valid()) && Moved(r)
      ensures Wired() && Lists()
    {
      hide *;
      OldValid();
      MovedIs(r);
      OthersKept(r);
      ListsIf();
    }

    twostate lemma OldValid()
      requires old(Valid())
      ensures Wired()
    {
    }

    lemma ListsAre()
      requires Lists()
      ensures sched.Shape() && forall q: Pc :: Has(q) ==> QueueOf(q).Valid()
    {
    }

    lemma ListsIf()
      requires sched.Shape() && forall q: Pc :: Has(q) ==> QueueOf(q).Valid()
      ensures Lists()
    {
    }

    /** No lock has changed. */
    twostate lemma LocksKept()
      requires forall m :: m in mutexes ==> unchanged(mutexes[m]) && unchanged(mutexes[m].waiters)
      requires forall k :: k in sems ==> unchanged(sems[k]) && unchanged(sems[k].waiters)
      ensures MutexViews() == old(MutexViews()) && SemViews() == old(SemViews())
      ensures forall q: Pc :: Has(q) ==> unchanged(QueueOf(q))
    {
    }

    lemma AbsIs()
      ensures Abs() == System(sched.View(), MutexViews(), SemViews(), pc, holding, log, sched.kernel, idle)
      ensures MutexViews().Keys == mutexes.Keys && SemViews().Keys == sems.Keys
    {
    }

    /** The wait queue of a lock is apart from the scheduler's queues, and the current thread is not in it. */
    lemma WaitQueue(q: Pc)
      requires Valid() && Has(q)
      ensures sched.Separate(QueueOf(q)) && sched.Loose(QueueOf(q))
    {
      var s, w := Abs(), QueueOf(q);
      assert Waiters(s, q) == w.elems && q != Free;
      hide Inv, Queue.Valid, QueueOf, Waiters;
      CurrentRuns();
      forall t | t in w.elems
        ensures t in sched.threads && t !in sched.ready.elems && t !in sched.sleep.elems && t != sched.current
      {
        WaiterIn(s, q, t);
      }
    }

    /** The threads at a place, in the order of the linked list. */
    ghost function ListOf(p: Place): seq<Thread>
      reads *
    {
      match p
      case OnCpu => [sched.current]
      case InReady => sched.ready.elems
      case InSleep => sched.sleep.elems
      case InWait(q) => if Has(q) then QueueOf(q).elems else []
    }

    /** Every live thread is on the processor or linked into exactly one list, and its state says which. */
    lemma OnOneList(t: Thread) returns (p: Place)
      requires Valid() && t in sched.threads
      ensures t in ListOf(p) && t.state == TagAt(p) && forall p' :: t in ListOf(p') ==> p' == p
    {
      hide *;
      CurrentRuns();
      sched.ViewIs();
      AbsIs();
      p := PlaceOf(Abs(), t);
      forall p' ensures IsAt(Abs(), t, p') <==> t in ListOf(p') { SamePlace(t, p'); }
    }

    lemma SamePlace(t: Thread, p: Place)
      ensures IsAt(Abs(), t, p) <==> t in ListOf(p)
    {
    }

    lemma OfMutex(m: nat)
      requires Wired() && m in mutexes
      ensures Has(WantMutex(m)) && QueueOf(WantMutex(m)) == mutexes[m].waiters
      ensures MutexViews().Keys == mutexes.Keys && MutexViews()[m] == mutexes[m].View()
      ensures forall n :: n in mutexes && n != m ==>
                mutexes[n].waiters != mutexes[m].waiters && mutexes[n] != mutexes[m]
      ensures forall k :: k in sems ==> sems[k].waiters != mutexes[m].waiters
    {
      forall n | n in mutexes && n != m ensures mutexes[n].waiters != mutexes[m].waiters {
        assert QueueOf(WantMutex(n)) != QueueOf(WantMutex(m));
      }
      forall k | k in sems ensures sems[k].waiters != mutexes[m].waiters {
        assert QueueOf(WantSem(k)) != QueueOf(WantMutex(m));
      }
    }

    lemma OfSem(k: nat)
      requires Wired() && k in sems
      ensures Has(WantSem(k)) && QueueOf(WantSem(k)) == sems[k].waiters
      ensures SemViews().Keys == sems.Keys && SemViews()[k] == sems[k].View()
      ensures forall n :: n in sems && n != k ==> sems[n].waiters != sems[k].waiters && sems[n] != sems[k]
      ensures forall m :: m in mutexes ==> mutexes[m].waiters != sems[k].waiters
    {
      forall n | n in sems && n != k ensures sems[n].waiters != sems[k].waiters {
        assert QueueOf(WantSem(n)) != QueueOf(WantSem(k));
      }
      forall m | m in mutexes ensures mutexes[m].waiters != sems[k].waiters {
        assert QueueOf(WantMutex(m)) != QueueOf(WantSem(k));
      }
    }

    /** At most the mutex `m` has changed. */
    twostate lemma OtherMutexesKept(m: nat)
      requires m in mutexes
      requires forall n :: n in mutexes && n != m ==> unchanged(mutexes[n]) && unchanged(mutexes[n].waiters)
      requires forall k :: k in sems ==> unchanged(sems[k]) && unchanged(sems[k].waiters)
      ensures MutexViews() == old(MutexViews())[m := mutexes[m].View()] && SemViews() == old(SemViews())
      ensures forall q: Pc :: Has(q) && q != WantMutex(m) ==> unchanged(QueueOf(q))
    {
    }

    /** At most the semaphore `k` has changed. */
    twostate lemma OtherSemsKept(k: nat)
      requires k in sems
      requires forall n :: n in sems && n != k ==> unchanged(sems[n]) && unchanged(sems[n].waiters)
      requires forall m :: m in mutexes ==> unchanged(mutexes[m]) && unchanged(mutexes[m].waiters)
      ensures SemViews() == old(SemViews())[k := sems[k].View()] && MutexViews() == old(MutexViews())
      ensures forall q: Pc :: Has(q) && q != WantSem(k) ==> unchanged(QueueOf(q))
    {
    }

    // -------------------------------------------------------------- the steps

    /** The timer interrupt. */
    method Tick()
      requires Valid()
      modifies this, Owned()
      ensures Valid() && Abs() == Apply(old(Abs()), Step.Tick)
    {
      hide *;
      CurrentRuns();
      OwnedIs();
      WiredIs();
      AbsIs();
      sched.LeavingIs();
      sched.OnTimer();
      LocksKept();
      AbsIs();
      TickStep(old(Abs()));
      MovedIf(Free);
      Relist(Free);
      StepKeeps(old(Abs()), Step.Tick);
      ValidIf();
    }

    /** A thread gives up the processor. */
    method YieldNow()
      requires Valid()
      modifies this, Owned()
      ensures Valid() && Abs() == Apply(old(Abs()), Yield)
    {
      hide *;
      CurrentRuns();
      OwnedIs();
      WiredIs();
      AbsIs();
      sched.LeavingIs();
      sched.Schedule();
      LocksKept();
      AbsIs();
      YieldStep(old(Abs()));
      MovedIf(Free);
      Relist(Free);
      StepKeeps(old(Abs()), Yield);
      ValidIf();
    }

    /** `ThreadSleepMS`. */
    method SleepMS(ms: nat)
      requires Valid() && Enabled(Abs(), SleepStep(ms))
      modifies this, Owned()
      ensures Valid() && Abs() == Apply(old(Abs()), SleepStep(ms))
    {
      hide *;
      CurrentRuns();
      OwnedIs();
      WiredIs();
      AbsIs();
      sched.ThreadSleepMS(ms);
      LocksKept();
      AbsIs();
      SleepingStep(old(Abs()), ms);
      MovedIf(Free);
      Relist(Free);
      StepKeeps(old(Abs()), SleepStep(ms));
      ValidIf();
    }

    /** `mutex_lock`, up to where it returns or gives up the processor. */
    method Lock(m: nat) returns (inside: bool)
      requires Valid() && Enabled(Abs(), LockStep(m)) && pc[sched.current] == Free
      modifies this, Owned()
      ensures Valid() && Abs() == Apply(old(Abs()), LockStep(m))
      ensures m in mutexes && inside == (!old(mutexes[m].locked) || old(mutexes[m].owner) == old(sched.current))
    {
      hide *;
      ghost var s := Abs();
      AbsIs();
      OwnedIs();
      CurrentRuns();
      sched.ViewIs();
      LockingStep(s, m);
      OfMutex(m);
      inside := Enter(m);
      AbsIs();
      StepKeeps(s, LockStep(m));
      Record(Apply(s, LockStep(m)));
    }

    method Enter(m: nat) returns (inside: bool)
      requires Valid() && m in mutexes
      modifies Owned()
      ensures Wired() && Lists()
      ensures (sched.View(), mutexes[m].View()) ==
              if old(mutexes[m].View()).owner == Some(old(sched.current))
              then (old(sched.View()), old(mutexes[m].View()))
              else LockAttempt(old(sched.View()), old(mutexes[m].View()), sched.kernel)
      ensures MutexViews() == old(MutexViews())[m := mutexes[m].View()] && SemViews() == old(SemViews())
      ensures inside == (!old(mutexes[m].locked) || old(mutexes[m].owner) == old(sched.current))
    {
      hide *;
      CurrentRuns();
      OwnedIs();
      WiredIs();
      OfMutex(m);
      WaitQueue(WantMutex(m));
      LockViewIs(mutexes[m]);
      inside := sched.MutexEnter(mutexes[m]);
      sched.SeparateIs(mutexes[m].waiters);
      OtherMutexesKept(m);
      MovedIf(WantMutex(m));
      Relist(WantMutex(m));
    }

    /** A thread that is back from giving up the processor tries again to take the mutex. */
    method Relock(m: nat) returns (inside: bool)
      requires Valid() && Enabled(Abs(), LockStep(m)) && pc[sched.current] == WantMutex(m)
      modifies this, Owned()
      ensures Valid() && Abs() == Apply(old(Abs()), LockStep(m))
      ensures m in mutexes && inside == !old(mutexes[m].locked)
    {
      hide *;
      ghost var s := Abs();
      AbsIs();
      OwnedIs();
      CurrentRuns();
      sched.ViewIs();
      LockingStep(s, m);
      OfMutex(m);
      inside := Retry(m);
      AbsIs();
      StepKeeps(s, LockStep(m));
      Record(Apply(s, LockStep(m)));
    }

    method Retry(m: nat) returns (inside: bool)
      requires Valid() && m in mutexes
      modifies Owned()
      ensures Wired() && Lists()
      ensures (sched.View(), mutexes[m].View()) == LockAttempt(old(sched.View()), old(mutexes[m].View()), sched.kernel)
      ensures MutexViews() == old(MutexViews())[m := mutexes[m].View()] && SemViews() == old(SemViews())
      ensures inside == !old(mutexes[m].locked)
    {
      hide *;
      CurrentRuns();
      OwnedIs();
      WiredIs();
      OfMutex(m);
      WaitQueue(WantMutex(m));
      inside := sched.MutexTry(mutexes[m]);
      sched.SeparateIs(mutexes[m].waiters);
      OtherMutexesKept(m);
      MovedIf(WantMutex(m));
      Relist(WantMutex(m));
    }

    /** `mutex_unlock`. */
    method Unlock(m: nat)
      requires Valid() && Enabled(Abs(), UnlockStep(m))
      modifies this, Owned()
      ensures Valid() && Abs() == Apply(old(Abs()), UnlockStep(m))
    {
      hide *;
      ghost var s := Abs();
      AbsIs();
      OwnedIs();
      CurrentRuns();
      sched.ViewIs();
      UnlockingStep(s, m);
      OfMutex(m);
      Open(m);
      AbsIs();
      StepKeeps(s, UnlockStep(m));
      Record(Apply(s, UnlockStep(m)));
    }

    method Open(m: nat)
      requires Valid() && m in mutexes
      modifies Owned()
      ensures Wired() && Lists()
      ensures (sched.View(), mutexes[m].View()) == Locks.Unlock(old(sched.View()), old(mutexes[m].View()))
      ensures MutexViews() == old(MutexViews())[m := mutexes[m].View()] && SemViews() == old(SemViews())
    {
      hide *;
      CurrentRuns();
      OwnedIs();
      WiredIs();
      OfMutex(m);
      WaitQueue(WantMutex(m));
      sched.MutexUnlock(mutexes[m]);
      sched.SeparateIs(mutexes[m].waiters);
      OtherMutexesKept(m);
      MovedIf(WantMutex(m));
      Relist(WantMutex(m));
    }

    /** `sem_wait`, one round of its loop. */
    method Wait(k: nat) returns (taken: bool)
      requires Valid() && Enabled(Abs(), WaitStep(k))
      modifies this, Owned()
      ensures Valid() && Abs() == Apply(old(Abs()), WaitStep(k))
      ensures k in sems && taken == (old(sems[k].count) > 0)
    {
      hide *;
      ghost var s := Abs();
      AbsIs();
      OwnedIs();
      CurrentRuns();
      sched.ViewIs();
      WaitingStep(s, k);
      OfSem(k);
      taken := Take(k);
      AbsIs();
      StepKeeps(s, WaitStep(k));
      Record(Apply(s, WaitStep(k)));
    }

    method Take(k: nat) returns (taken: bool)
      requires Valid() && k in sems
      modifies Owned()
      ensures Wired() && Lists()
      ensures (sched.View(), sems[k].View()) == WaitAttempt(old(sched.View()), old(sems[k].View()), sched.kernel)
      ensures SemViews() == old(SemViews())[k := sems[k].View()] && MutexViews() == old(MutexViews())
      ensures taken == (old(sems[k].count) > 0)
    {
      hide *;
      CurrentRuns();
      OwnedIs();
      WiredIs();
      OfSem(k);
      WaitQueue(WantSem(k));
      taken := sched.SemTry(sems[k]);
      sched.SeparateIs(sems[k].waiters);
      OtherSemsKept(k);
      MovedIf(WantSem(k));
      Relist(WantSem(k));
    }

    /** `sem_post`. */
    method Post(k: nat)
      requires Valid() && Enabled(Abs(), PostStep(k))
      modifies this, Owned()
      ensures Valid() && Abs() == Apply(old(Abs()), PostStep(k))
    {
      hide *;
      ghost var s := Abs();
      AbsIs();
      OwnedIs();
      CurrentRuns();
      sched.ViewIs();
      PostingStep(s, k);
      OfSem(k);
      Give(k);
      AbsIs();
      StepKeeps(s, PostStep(k));
      Record(Apply(s, PostStep(k)));
    }

    method Give(k: nat)
      requires Valid() && k in sems
      modifies Owned()
      ensures Wired() && Lists()
      ensures (sched.View(), sems[k].View()) == Locks.Post(old(sched.View()), old(sems[k].View()))
      ensures SemViews() == old(SemViews())[k := sems[k].View()] && MutexViews() == old(MutexViews())
    {
      hide *;
      CurrentRuns();
      OwnedIs();
      WiredIs();
      OfSem(k);
      WaitQueue(WantSem(k));
      sched.SemPost(sems[k]);
      sched.SeparateIs(sems[k].waiters);
      OtherSemsKept(k);
      MovedIf(WantSem(k));
      Relist(WantSem(k));
    }

    /** `create_thread`. */
    method Create(id: nat) returns (t: Thread)
      requires Valid()
      modifies this, Owned()
      ensures fresh(t) && t.id == id && Valid() && Enabled(old(Abs()), Spawn(t)) && Abs() == Apply(old(Abs()), Spawn(t))
    {
      hide *;
      ghost var s := Abs();
      AbsIs();
      OwnedIs();
      CurrentRuns();
      t := Add(id);
      AbsIs();
      SpawningStep(s, t);
      StepKeeps(s, Spawn(t));
      Record(Apply(s, Spawn(t)));
    }

    method Add(id: nat) returns (t: Thread)
      requires Valid()
      modifies Owned()
      ensures Wired() && Lists() && fresh(t) && t.id == id && t !in old(sched.View()).tag
      ensures sched.View() == MakeReady(old(sched.View()), t).(wakeup := old(sched.View()).wakeup[t := 0])
      ensures MutexViews() == old(MutexViews()) && SemViews() == old(SemViews())
    {
      hide *;
      OwnedIs();
      CurrentRuns();
      WiredIs();
      sched.ViewIs();
      t := sched.Spawn(id);
      LocksKept();
      MovedIf(Free);
      Relist(Free);
    }

    /** `KillThread` on a thread that is ready or asleep. */
    method KillThread(t: Thread)
      requires Valid() && Enabled(Abs(), Kill(t)) && t != sched.kernel
      modifies this, Owned()
      ensures Valid() && Abs() == Apply(old(Abs()), Kill(t)) && t.state == Terminated
    {
      hide *;
      ghost var s := Abs();
      AbsIs();
      OwnedIs();
      CurrentRuns();
      sched.ViewIs();
      KillingStep(s, t);
      Discard(t);
      AbsIs();
      StepKeeps(s, Kill(t));
      Record(Apply(s, Kill(t)));
    }

    method Discard(t: Thread)
      requires Valid() && t in sched.threads && t != sched.kernel && t != sched.current
      requires t in sched.ready.elems || t in sched.sleep.elems
      modifies Owned()
      ensures Wired() && Lists() && t.state == Terminated && sched.View() == Drop(old(sched.View()), t)
      ensures MutexViews() == old(MutexViews()) && SemViews() == old(SemViews())
    {
      hide *;
      OwnedIs();
      CurrentRuns();
      WiredIs();
      sched.KillThread(t);
      LocksKept();
      MovedIf(Free);
      Relist(Free);
    }

    /** The step system's bookkeeping is brought up to date. */
    ghost method Record(next: System)
      requires Wired() && Lists() && Inv(next)
      requires next == Abs().(pc := next.pc, holding := next.holding, log := next.log)
      modifies this
      ensures Valid() && Abs() == next
    {
      hide *;
      AbsIs();
      ListsAre();
      pc, holding, log := next.pc, next.holding, next.log;
      LocksKept();
      AbsIs();
      ListsIf();
      ValidIf();
    }
  }

  lemma LockViewIs(x: MutexLock)
    ensures forall t: Thread :: x.View().owner == Some(t) <==> x.owner == t
    ensures x.View().locked == x.locked && x.View().waiters == x.waiters.elems
  {
  }

  lemma YieldStep(s: System)
    ensures Enabled(s, Yield) && Apply(s, Yield) == s.(core := Schedule(s.core, s.kernel))
  {
  }

  lemma SleepingStep(s: System, ms: nat)
    requires Enabled(s, SleepStep(ms))
    ensures Apply(s, SleepStep(ms)) == s.(core := SleepFor(s.core, ms, s.kernel))
  {
  }

  lemma LockingStep(s: System, m: nat)
    requires Enabled(s, LockStep(m))
    ensures m in s.mutexes && s.core.current in s.pc
    ensures var s', x, me := Apply(s, LockStep(m)), s.mutexes[m], s.core.current;
            var p := if s.pc[me] == Free && x.owner == Some(me) then (s.core, x) else LockAttempt(s.core, x, s.kernel);
            s' == s.(core := p.0, mutexes := s.mutexes[m := p.1], pc := s'.pc, holding := s'.holding)
  {
    hide LockAttempt;
    assert s.mutexes == s.mutexes[m := s.mutexes[m]];
  }

  lemma UnlockingStep(s: System, m: nat)
    requires Enabled(s, UnlockStep(m))
    ensures m in s.mutexes
    ensures var s', p := Apply(s, UnlockStep(m)), Unlock(s.core, s.mutexes[m]);
            s' == s.(core := p.0, mutexes := s.mutexes[m := p.1], holding := s'.holding)
  {
    hide Unlock;
  }

  lemma WaitingStep(s: System, k: nat)
    requires Enabled(s, WaitStep(k))
    ensures k in s.sems
    ensures var s', p := Apply(s, WaitStep(k)), WaitAttempt(s.core, s.sems[k], s.kernel);
            s' == s.(core := p.0, sems := s.sems[k := p.1], pc := s'.pc, log := s'.log)
  {
    hide WaitAttempt;
  }

  lemma PostingStep(s: System, k: nat)
    requires Enabled(s, PostStep(k))
    ensures k in s.sems
    ensures var s', p := Apply(s, PostStep(k)), Post(s.core, s.sems[k]);
            s' == s.(core := p.0, sems := s.sems[k := p.1], log := s'.log)
  {
    hide Post;
  }

  lemma SpawningStep(s: System, t: Thread)
    requires t !in s.core.tag
    ensures Enabled(s, Spawn(t))
    ensures var s' := Apply(s, Spawn(t));
            s' == s.(core := MakeReady(s.core, t).(wakeup := s.core.wakeup[t := 0]), pc := s'.pc)
  {
  }

  lemma KillingStep(s: System, t: Thread)
    requires Inv(s) && Enabled(s, Kill(t))
    ensures t in s.core.tag && t != s.core.current && (t in s.core.ready || t in s.core.sleep)
    ensures var s' := Apply(s, Kill(t)); s' == s.(core := Drop(s.core, t), pc := s'.pc)
  {
  }

  lemma TickStep(s: System)
    ensures Enabled(s, Tick) && Apply(s, Tick) == s.(core := TimerTick(s.core, s.kernel))
  {
  }

  /** A thread on a wait queue is blocked there and in no other queue. */
  lemma WaiterIn(s: System, q: Pc, t: Thread)
    requires Inv(s) && q != Free && t in Waiters(s, q)
    ensures t in s.core.tag && s.core.tag[t] == Blocked && t in s.pc && s.pc[t] == q
    ensures t !in s.core.ready && t !in s.core.sleep && t != s.core.current
  {
    assert QueueHolds(s, q);
    assert StuckOn(s, t, q) && t in Stuck(s);
  }
}
