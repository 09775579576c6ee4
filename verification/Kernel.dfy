/** The scheduler over linked thread queues: the code of `schedule()`, the wake-up pass and the blocking
    primitives, each refining the function on queue contents that the step system is built from. */
module Kernel {
  import opened Basics
  import opened ThreadQueue
  import opened Scheduling
  import opened Locks

  function Maybe(t: Thread?): Option<Thread> {
    if t == null then None else var u: Thread := t; Some(u)
  }

  ghost predicate Apart(a: seq<Thread>, b: seq<Thread>, all: set<Thread>) {
    && (forall t :: t in a ==> t in all && t !in b)
    && (forall t :: t in b ==> t in all)
  }

  /** The sequence without element `i`. */
  ghost function Cut(s: seq<Thread>, i: nat): seq<Thread>
    requires i < |s|
  {
    s[..i] + s[i + 1..]
  }

  lemma ApartAdd(a: seq<Thread>, b: seq<Thread>, all: set<Thread>, t: Thread)
    requires Apart(a, b, all) && t in all && t !in b
    ensures Apart(a + [t], b, all)
  {
  }

  lemma ApartMove(a: seq<Thread>, b: seq<Thread>, all: set<Thread>, i: nat)
    requires Apart(a, b, all) && Distinct(b) && i < |b|
    ensures var b' := b[..i] + b[i + 1..];
            && Apart(a, b', all) && b[i] in all && b[i] !in a && b[i] !in b'
  {
    DistinctWithout(b, i);
  }

  class MutexLock {
    var locked: bool
    var owner: Thread?
    const waiters: Queue

    constructor ()
      ensures waiters.Valid() && fresh(waiters) && View() == Mutex(false, None, [])
    {
      locked, owner := false, null;
      waiters := new Queue();
    }

    ghost function View(): Mutex<Thread>
      reads this, waiters
    {
      Mutex(locked, Maybe(owner), waiters.elems)
    }
  }

  class Semaphore {
    var count: int
    const waiters: Queue

    constructor (value: int)
      ensures waiters.Valid() && fresh(waiters) && View() == Sem(value, [])
    {
      count := value;
      waiters := new Queue();
    }

    ghost function View(): Sem<Thread>
      reads this, waiters
    {
      Sem(count, waiters.elems)
    }
  }

  class Scheduler {
    var current: Thread
    var ticks: nat
    const kernel: Thread
    const ready: Queue
    const sleep: Queue
    /** The live threads. */
    ghost var threads: set<Thread>

    /** `init_multitasking`: the caller becomes the kernel thread, and the idle thread is ready. */
    constructor ()
      ensures Shape() && fresh(ready) && fresh(sleep) && fresh(threads) && |ready.elems| == 1
      ensures var idle: Thread := ready.elems[0];
              && idle != kernel && threads == {kernel, idle}
              && current == kernel && sleep.elems == [] && ticks == 0
              && View().tag == map[kernel := Running, idle := Ready]
              && View().wakeup == map[kernel := 0, idle := 0]
    {
      var main := new Thread(0);
      var idle := new Thread(1);
      var r := new Queue();
      var z := new Queue();
      r.Enqueue(idle);
      main.state := Running;
      current, kernel, ticks, ready, sleep, threads := main, main, 0, r, z, {main, idle};
      new;
      hide *;
      QueueIs(r);
      QueueIs(z);
      ShapeIf();
      ViewIs();
      TwoThreads(View().tag, main, idle, Running, Ready);
      TwoThreads(View().wakeup, main, idle, 0, 0);
    }

    /** Everything the scheduler looks at, as a value. */
    ghost function View(): Core<Thread>
      reads this, ready, sleep, threads
    {
      Core(current, ready.elems, sleep.elems,
           map t | t in threads :: t.state, map t | t in threads :: t.wakeup, ticks)
    }

    /** The two queues are well formed and share no thread. */
    ghost predicate Shape()
      reads this, ready, sleep, ready.elems`next, sleep.elems`next
    {
      && ready != sleep && ready.Valid() && sleep.Valid()
      && current in threads && kernel in threads
      && Apart(ready.elems, sleep.elems, threads)
    }

    /** `thread_enqueue`: makes a thread that is in no queue ready. */
    method Enqueue(t: Thread)
      requires Shape() && t in threads && t !in ready.elems && t !in sleep.elems
      modifies ready, ready.elems`next, t`next, t`state
      ensures Shape() && ready.elems == old(ready.elems) + [t] && sleep.elems == old(sleep.elems) && t.state == Ready
    {
      ApartAdd(ready.elems, sleep.elems, threads, t);
      assert forall u :: u in sleep.elems ==> u !in ready.elems && u != t;
      hide Distinct, Ends, Behind, Queue.Valid, Apart;
      ready.Enqueue(t);
      sleep.Undisturbed();
      t.state := Ready;
    }

    /** Takes the sleeper at place `i` off the sleep queue. */
    method Unsleep(prev: Thread?, t: Thread, ghost i: nat)
      requires Shape() && i < |sleep.elems| && t == sleep.elems[i]
      requires if i == 0 then prev == null else prev == sleep.elems[i - 1]
      modifies sleep, sleep.elems`next
      ensures Shape() && sleep.elems == Cut(old(sleep.elems), i) && ready.elems == old(ready.elems)
      ensures t in threads && t !in sleep.elems && t !in ready.elems
    {
      ApartMove(ready.elems, sleep.elems, threads, i);
      assert forall u :: u in ready.elems ==> u !in sleep.elems;
      hide Distinct, Ends, Behind, Queue.Valid, Apart;
      sleep.Unlink(prev, t, i);
      ready.Undisturbed();
    }

    /** `wake_sleeping_threads`. */
    method WakeSleepingThreads()
      requires Shape()
      modifies ready, sleep, threads`next, threads`state
      ensures Shape() && View() == Wake(old(View()))
      ensures forall t :: t in threads && t !in old(ready.elems) && t !in old(sleep.elems) ==> t.next == old(t.next)
    {
      hide *;
      ghost var c, links := View(), Links();
      ghost var walk := Walk(ready.elems, sleep.elems, c.wakeup, ticks);
      ViewIs();
      LinksAre();
      WalkStart(walk);
      StirStart(walk);
      WalkSleepers(walk, c.tag, links);
      ViewIs();
      StirredIs(walk, |walk.s|, c.tag, links);
      WakeIs(c, View());
    }

    /** Walks the sleep queue once, moving the due threads. */
    method WalkSleepers(ghost walk: Walk, ghost tag: map<Thread, Tag>, ghost links: map<Thread, Thread?>)
      requires Shape() && walk.r == ready.elems && walk.s == sleep.elems && walk.now == ticks
      requires Stirred(walk, 0, tag, links)
      modifies ready, sleep, threads`next, threads`state
      ensures Shape() && Stirred(walk, |walk.s|, tag, links)
      ensures var due := Due(walk.s, walk.wakeup, walk.now);
              && sleep.elems == Later(walk.s, walk.wakeup, walk.now) && ready.elems == walk.r + due
              && Woken(walk, |walk.s|) == due && forall t :: t in due ==> t in walk.s
    {
      hide *;
      ShapeIs();
      WalkStart(walk);
      var at: Thread?, prev: Thread? := sleep.head, null;
      ghost var j := 0;
      while at != null
        invariant j <= |walk.s| && Shape() && Walked(walk, j, ready.elems, sleep.elems, at, prev)
        invariant Stirred(walk, j, tag, links)
        decreases |walk.s| - j
      {
        var next := WakeTurn(walk, j, at, prev, tag, links);
        if ticks < at.wakeup { prev := at; }
        at, j := next, j + 1;
      }
      WalkEnd(walk, j, ready.elems, sleep.elems, prev);
    }

    lemma LinksAre()
      ensures forall t :: t in threads ==> t in Links() && Links()[t] == t.next
    {
    }

    ghost function Links(): map<Thread, Thread?>
      reads this, threads
    {
      map t | t in threads :: t.next
    }

    /** After `j` turns of the walk exactly the woken threads have changed their tag, and only threads of
        the two queues have been relinked. */
    ghost predicate Stirred(walk: Walk, j: nat, tag: map<Thread, Tag>, links: map<Thread, Thread?>)
      reads this, threads
    {
      && j <= |walk.s| && tag.Keys == links.Keys == threads
      && walk.wakeup.Keys == threads && (forall t :: t in threads ==> walk.wakeup[t] == t.wakeup)
      && (forall t :: t in threads ==> t.state == if t in Woken(walk, j) then Ready else tag[t])
      && (forall t :: t in threads && t !in walk.r && t !in walk.s ==> t.next == links[t])
    }

    lemma StirStart(walk: Walk)
      requires Woken(walk, 0) == [] && walk.wakeup == View().wakeup
      ensures Stirred(walk, 0, View().tag, Links())
    {
    }

    lemma StirredIs(walk: Walk, j: nat, tag: map<Thread, Tag>, links: map<Thread, Thread?>)
      requires Stirred(walk, j, tag, links)
      ensures j <= |walk.s| && tag.Keys == links.Keys == threads
      ensures walk.wakeup.Keys == threads && forall t :: t in threads ==> walk.wakeup[t] == t.wakeup
      ensures forall t :: t in threads ==> t.state == if t in Woken(walk, j) then Ready else tag[t]
      ensures forall t :: t in threads && t !in walk.r && t !in walk.s ==> t.next == links[t]
    {
    }

    method WakeTurn(ghost walk: Walk, ghost j: nat, at: Thread, prev: Thread?,
                    ghost tag: map<Thread, Tag>, ghost links: map<Thread, Thread?>) returns (next: Thread?)
      requires Shape() && Walked(walk, j, ready.elems, sleep.elems, at, prev) && Stirred(walk, j, tag, links)
      requires walk.now == ticks
      modifies ready, sleep, threads`next, threads`state
      ensures Shape() && j < |walk.s| && at == walk.s[j]
      ensures Walked(walk, j + 1, ready.elems, sleep.elems, next, if ticks >= at.wakeup then prev else at)
      ensures Stirred(walk, j + 1, tag, links)
    {
      hide *;
      ShapeIs();
      WalkMembers(walk, j, ready.elems, sleep.elems, at, prev);
      StirredIs(walk, j, tag, links);
      next := WakeNext(walk, j, at, prev);
      StirredIf(walk, j + 1, tag, links);
    }

    lemma StirredIf(walk: Walk, j: nat, tag: map<Thread, Tag>, links: map<Thread, Thread?>)
      requires j <= |walk.s| && tag.Keys == links.Keys == threads
      requires walk.wakeup.Keys == threads && forall t :: t in threads ==> walk.wakeup[t] == t.wakeup
      requires forall t :: t in threads ==> t.state == if t in Woken(walk, j) then Ready else tag[t]
      requires forall t :: t in threads && t !in walk.r && t !in walk.s ==> t.next == links[t]
      ensures Stirred(walk, j, tag, links)
    {
    }

    lemma ShapeIs()
      requires Shape()
      ensures sleep.head == (if sleep.elems == [] then null else sleep.elems[0])
      ensures ready != sleep && current in threads && kernel in threads && forall t :: t in sleep.elems ==> t in threads
      ensures forall t :: t in ready.elems ==> t in threads && t !in sleep.elems
    {
    }

    lemma ViewIs()
      ensures var c := View();
              && c.current == current && c.ready == ready.elems && c.sleep == sleep.elems && c.ticks == ticks
              && c.tag.Keys == threads && c.wakeup.Keys == threads
              && forall t :: t in threads ==> c.tag[t] == t.state && c.wakeup[t] == t.wakeup
    {
    }

    /** One turn of the walk: moves the thread to the ready queue if it is due. */
    method WakeNext(ghost walk: Walk, ghost j: nat, at: Thread, prev: Thread?) returns (next: Thread?)
      requires Shape() && Walked(walk, j, ready.elems, sleep.elems, at, prev)
      requires walk.now == ticks && at in walk.wakeup && walk.wakeup[at] == at.wakeup
      modifies ready, sleep, ready.elems`next, sleep.elems`next, at`state
      ensures Shape() && j < |walk.s| && at == walk.s[j]
      ensures Walked(walk, j + 1, ready.elems, sleep.elems, next, if ticks >= at.wakeup then prev else at)
      ensures Woken(walk, j + 1) == Woken(walk, j) + if ticks >= at.wakeup then [at] else []
      ensures at.state == if ticks >= at.wakeup then Ready else old(at.state)
    {
      hide *;
      DeadlineIs(walk.wakeup, at);
      ghost var i := WalkAt(walk, j, ready.elems, sleep.elems, at, prev);
      ghost var r, z := ready.elems, sleep.elems;
      SleepLink(i);
      next := at.next;
      if ticks >= at.wakeup {
        Unsleep(prev, at, i);
        Enqueue(at);
        WalkMoves(walk, j, r, z, at, prev);
      } else {
        WalkStays(walk, j, r, z, at, prev);
      }
    }

    lemma SleepLink(i: nat)
      requires Shape() && i < |sleep.elems|
      ensures sleep.elems[i].next == Behind(sleep.elems, i)
    {
      sleep.NextOf(i);
    }

    // -------------------------------------------------------------- schedule()

    /** Making another live thread the current one does not disturb the queues. */
    twostate lemma ShapeKept()
      requires old(Shape()) && current in threads && threads == old(threads) && unchanged(ready) && unchanged(sleep)
      requires forall t :: t in ready.elems || t in sleep.elems ==> t.next == old(t.next)
      ensures Shape()
    {
      ready.Undisturbed();
      sleep.Undisturbed();
    }

    /** `thread_dequeue`. */
    method TakeReady() returns (t: Thread?)
      requires Shape()
      modifies ready, ready.elems`next
      ensures Shape() && sleep.elems == old(sleep.elems)
      ensures if old(ready.elems) == [] then t == null && ready.elems == []
              else t == old(ready.elems)[0] && ready.elems == old(ready.elems)[1..] && t in threads
    {
      assert forall u :: u in sleep.elems ==> u !in ready.elems;
      hide Queue.Valid, Distinct;
      t := ready.Dequeue();
      sleep.Undisturbed();
    }

    /** A running thread goes to the back of the ready queue. */
    method RequeueCurrent()
      requires Shape() && (current.state == Running ==> current !in ready.elems && current !in sleep.elems)
      modifies ready, threads`next, threads`state
      ensures Shape() && View() == Requeue(old(View()))
      ensures forall t :: t in threads && t !in old(ready.elems) && t !in old(Leaving()) ==> t.next == old(t.next)
    {
      hide *;
      ghost var c := View();
      ShapeIs();
      ViewIs();
      LeavingIs();
      if current.state == Running {
        current.state := Ready;
        Enqueue(current);
      }
      ViewIs();
      RequeueIs(c, View());
    }

    /** The first ready thread becomes the current one; the kernel thread if there is none. */
    method DispatchNext()
      requires Shape()
      modifies this`current, ready, threads`next, threads`state
      ensures Shape() && View() == Dispatch(old(View()), kernel)
      ensures forall t :: t in threads && t !in old(ready.elems) ==> t.next == old(t.next)
    {
      hide *;
      ghost var c := View();
      ShapeIs();
      ViewIs();
      var next := TakeReady();
      if next == null {
        next := kernel;
      }
      label taken:
      current := next;
      current.state := Running;
      ShapeKept@taken();
      ViewIs();
      DispatchIs(c, View(), kernel);
    }

    /** `schedule()` up to the switch of contexts. */
    method Schedule()
      requires Shape() && (current.state == Running ==> current !in ready.elems && current !in sleep.elems)
      modifies this`current, ready, sleep, threads`next, threads`state
      ensures Shape() && View() == Scheduling.Schedule(old(View()), kernel)
      ensures forall t :: t in threads && t !in old(ready.elems) && t !in old(sleep.elems) && t !in old(Leaving()) ==>
                            t.next == old(t.next)
    {
      hide *;
      ghost var c := View();
      ViewIs();
      LeavingIs();
      RequeueCurrent();
      ghost var c1 := View();
      ViewIs();
      RequeueMembers(c);
      WakeSleepingThreads();
      ViewIs();
      WakeMembers(c1);
      DispatchNext();
      ScheduleIs(c, kernel);
    }

    /** The current thread, if it is to be requeued. */
    ghost function Leaving(): set<Thread>
      reads this, threads
    {
      if current in threads && current.state == Running then {current} else {}
    }

    lemma LeavingIs()
      requires Shape()
      ensures current in threads && Leaving() == if current.state == Running then {current} else {}
    {
    }

    // -------------------------------------------------------------- blocking and waking

    /** A wait queue that shares no thread with the ready and sleep queues. */
    ghost predicate Separate(q: Queue)
      reads this, ready, sleep, q, q.elems`next
    {
      && q != ready && q != sleep && q.Valid()
      && forall t :: t in q.elems ==> t in threads && t !in ready.elems && t !in sleep.elems
    }

    /** The current thread is in no queue. */
    ghost predicate Loose(q: Queue)
      reads this, ready, sleep, q, current
    {
      current.state == Running && current !in ready.elems && current !in sleep.elems && current !in q.elems
    }

    /** The current thread joins a wait queue and gives up the processor. */
    method BlockOn(q: Queue)
      requires Shape() && Separate(q) && Loose(q)
      modifies this`current, q, ready, sleep, threads`next, threads`state
      ensures Shape() && Separate(q) && q.elems == old(q.elems) + [old(current)]
      ensures View() == Scheduling.Schedule(Block(old(View())), kernel)
      ensures forall t :: t in threads && t != old(current) && t !in old(ready.elems) && t !in old(sleep.elems) ==>
                            t in old(q.elems) || t.next == old(t.next)
    {
      Join(q);
      hide *;
      ghost var c := View();
      ViewIs();
      SeparateIs(q);
      ShapeIs();
      LeavingIs();
      label joined:
      Schedule();
      ScheduleMembers(c, kernel);
      ViewIs();
      q.Undisturbed@joined();
      SeparateIf(q);
    }

    method Join(q: Queue)
      requires Shape() && Separate(q) && Loose(q)
      modifies q, threads`next, threads`state
      ensures Shape() && Separate(q) && q.elems == old(q.elems) + [current] && current.state == Blocked
      ensures View() == Block(old(View())) && ready.elems == old(ready.elems) && sleep.elems == old(sleep.elems)
      ensures forall t :: t in threads && t !in old(q.elems) && t != current ==> t.next == old(t.next)
    {
      hide *;
      ghost var c := View();
      ViewIs();
      ShapeIs();
      SeparateIs(q);
      LooseIs(q);
      current.state := Blocked;
      q.Enqueue(current);
      ShapeKept();
      SeparateIf(q);
      ViewIs();
      BlockIs(c, View());
    }

    lemma SeparateIs(q: Queue)
      requires Separate(q)
      ensures q != ready && q != sleep && q.Valid()
      ensures forall t :: t in q.elems ==> t in threads && t !in ready.elems && t !in sleep.elems
    {
    }

    lemma SeparateIf(q: Queue)
      requires q != ready && q != sleep && q.Valid()
      requires forall t :: t in q.elems ==> t in threads && t !in ready.elems && t !in sleep.elems
      ensures Separate(q)
    {
    }

    lemma LooseIs(q: Queue)
      requires Loose(q)
      ensures current.state == Running && current !in ready.elems && current !in sleep.elems && current !in q.elems
    {
    }

    /** Makes the first thread of a wait queue ready, if there is one. */
    method WakeFrom(q: Queue)
      requires Shape() && Separate(q)
      modifies q, ready, threads`next, threads`state
      ensures Shape() && Separate(q)
      ensures if old(q.elems) == [] then q.elems == [] && View() == old(View())
              else q.elems == old(q.elems)[1..] && View() == MakeReady(old(View()), old(q.elems)[0])
      ensures forall t :: t in threads && t !in old(ready.elems) && t !in old(q.elems) ==> t.next == old(t.next)
    {
      hide *;
      var t := Leave(q);
      if t != null { Admit(q, t); }
    }

    /** Makes a thread that has left a wait queue ready. */
    method Admit(q: Queue, t: Thread)
      requires Shape() && Separate(q) && t in threads && t !in q.elems && t !in ready.elems && t !in sleep.elems
      modifies ready, threads`next, threads`state
      ensures Shape() && Separate(q) && q.elems == old(q.elems) && View() == MakeReady(old(View()), t)
      ensures forall u :: u in threads && u !in old(ready.elems) && u != t ==> u.next == old(u.next)
    {
      hide *;
      ghost var c := View();
      ViewIs();
      SeparateIs(q);
      ShapeIs();
      label left:
      Enqueue(t);
      q.Undisturbed@left();
      SeparateIf(q);
      ViewIs();
      MakeReadyIs(c, View(), t);
    }

    method Leave(q: Queue) returns (t: Thread?)
      requires Shape() && Separate(q)
      modifies q, threads`next
      ensures Shape() && Separate(q) && View() == old(View()) && ready.elems == old(ready.elems)
      ensures if old(q.elems) == [] then t == null && q.elems == []
              else t == old(q.elems)[0] && q.elems == old(q.elems)[1..] &&
                   t in threads && t !in q.elems && t !in ready.elems && t !in sleep.elems
      ensures forall u :: u in threads && u !in old(q.elems) ==> u.next == old(u.next)
    {
      hide *;
      ghost var c, w := View(), q.elems;
      ViewIs();
      ShapeIs();
      SeparateIs(q);
      FirstIs(q);
      t := q.Dequeue();
      ShapeKept();
      SeparateIf(q);
      ViewIs();
      SameView(c, View());
    }

    lemma FirstIs(q: Queue)
      requires q.Valid()
      ensures q.elems != [] ==> q.elems[0] !in q.elems[1..]
    {
    }


    // -------------------------------------------------------------- the primitives

    /** One evaluation of the loop in `mutex_lock`. */
    method MutexTry(m: MutexLock) returns (taken: bool)
      requires Shape() && Separate(m.waiters) && Loose(m.waiters)
      modifies this`current, m, m.waiters, ready, sleep, threads`next, threads`state
      ensures Shape() && Separate(m.waiters) && taken == !old(m.locked)
      ensures (View(), m.View()) == LockAttempt(old(View()), old(m.View()), kernel)
      ensures forall t :: t in threads && t != old(current) && t !in old(ready.elems) && t !in old(sleep.elems) ==>
                            t in old(m.waiters.elems) || t.next == old(t.next)
    {
      hide Scheduling.Schedule, Shape, Separate, Loose;
      taken := !m.locked;
      if m.locked {
        BlockOn(m.waiters);
      } else {
        m.locked, m.owner := true, current;
      }
    }

    /** The first part of `mutex_lock`: a thread that already owns the mutex goes straight through. */
    method MutexEnter(m: MutexLock) returns (inside: bool)
      requires Shape() && Separate(m.waiters) && Loose(m.waiters)
      modifies this`current, m, m.waiters, ready, sleep, threads`next, threads`state
      ensures Shape() && Separate(m.waiters)
      ensures inside == (!old(m.locked) || old(m.owner) == old(current))
      ensures (View(), m.View()) == if old(m.owner) == old(current) then (old(View()), old(m.View()))
                                    else LockAttempt(old(View()), old(m.View()), kernel)
      ensures forall t :: t in threads && t != old(current) && t !in old(ready.elems) && t !in old(sleep.elems) ==>
                            t in old(m.waiters.elems) || t.next == old(t.next)
    {
      hide *;
      if m.owner == current { return true; }
      inside := MutexTry(m);
    }

    /** `mutex_unlock`. */
    method MutexUnlock(m: MutexLock)
      requires Shape() && Separate(m.waiters)
      modifies m, m.waiters, ready, threads`next, threads`state
      ensures Shape() && Separate(m.waiters)
      ensures (View(), m.View()) == Unlock(old(View()), old(m.View()))
      ensures forall t :: t in threads && t !in old(ready.elems) && t !in old(m.waiters.elems) ==> t.next == old(t.next)
    {
      hide Shape, Separate, MakeReady;
      if m.owner != current { return; }
      m.locked, m.owner := false, null;
      WakeFrom(m.waiters);
    }

    /** One evaluation of the loop in `sem_wait`. */
    method SemTry(s: Semaphore) returns (taken: bool)
      requires Shape() && Separate(s.waiters) && Loose(s.waiters)
      modifies this`current, s, s.waiters, ready, sleep, threads`next, threads`state
      ensures Shape() && Separate(s.waiters) && taken == (old(s.count) > 0)
      ensures (View(), s.View()) == WaitAttempt(old(View()), old(s.View()), kernel)
      ensures forall t :: t in threads && t != old(current) && t !in old(ready.elems) && t !in old(sleep.elems) ==>
                            t in old(s.waiters.elems) || t.next == old(t.next)
    {
      hide Scheduling.Schedule, Shape, Separate, Loose;
      taken := s.count > 0;
      if s.count <= 0 {
        BlockOn(s.waiters);
      } else {
        s.count := s.count - 1;
      }
    }

    /** `sem_post`. */
    method SemPost(s: Semaphore)
      requires Shape() && Separate(s.waiters)
      modifies s, s.waiters, ready, threads`next, threads`state
      ensures Shape() && Separate(s.waiters)
      ensures (View(), s.View()) == Post(old(View()), old(s.View()))
      ensures forall t :: t in threads && t !in old(ready.elems) && t !in old(s.waiters.elems) ==> t.next == old(t.next)
    {
      hide Shape, Separate, MakeReady;
      s.count := s.count + 1;
      WakeFrom(s.waiters);
    }

    /** `irq_0`: the clock moves on, and the scheduler runs. */
    method OnTimer()
      requires Shape() && (current.state == Running ==> current !in ready.elems && current !in sleep.elems)
      modifies this`current, this`ticks, ready, sleep, threads`next, threads`state
      ensures Shape() && View() == TimerTick(old(View()), kernel)
      ensures forall t :: t in threads && t !in old(ready.elems) && t !in old(sleep.elems) && t !in old(Leaving()) ==>
                            t.next == old(t.next)
    {
      hide *;
      ghost var c := View();
      ViewIs();
      LeavingIs();
      TickIs(c, kernel);
      ticks := if ticks >= 0xFFFF_FFFF_FFFF_FFFF then 0 else ticks + 1;
      ShapeKept();
      ViewIs();
      LeavingIs();
      SameTags(c, View());
      Schedule();
    }

    /** Puts the current thread on the sleep queue with a deadline. */
    method GoToSleep(at: nat)
      requires Shape() && current.state == Running && current !in ready.elems && current !in sleep.elems
      modifies sleep, threads`next, current`state, current`wakeup
      ensures Shape() && current.state == Blocked
      ensures View() ==
              Block(old(View())).(wakeup := old(View().wakeup)[current := at], sleep := old(sleep.elems) + [current])
      ensures forall t :: t in threads && t != current && t !in old(sleep.elems) ==> t.next == old(t.next)
    {
      hide *;
      ghost var c := View();
      ViewIs();
      ShapeIs();
      QueuesAre();
      current.wakeup, current.state := at, Blocked;
      sleep.Enqueue(current);
      ready.Undisturbed();
      ShapeIf();
      ViewIs();
      AsleepIs(c, View(), at);
    }

    lemma QueuesAre()
      requires Shape()
      ensures ready.Valid() && sleep.Valid() && Distinct(ready.elems) && Distinct(sleep.elems)
    {
    }

    lemma ShapeIf()
      requires ready != sleep && ready.Valid() && sleep.Valid() && current in threads && kernel in threads
      requires forall t :: t in ready.elems ==> t in threads && t !in sleep.elems
      requires forall t :: t in sleep.elems ==> t in threads
      ensures Shape()
    {
    }

    /** `ThreadSleepMS`. */
    method ThreadSleepMS(ms: nat)
      requires Shape() && current.state == Running && current !in ready.elems && current !in sleep.elems
      modifies this`current, ready, sleep, threads`next, threads`state, threads`wakeup
      ensures Shape() && View() == SleepFor(old(View()), ms, kernel)
      ensures forall t :: t in threads && t != old(current) && t !in old(ready.elems) && t !in old(sleep.elems) ==>
                            t.next == old(t.next)
    {
      hide *;
      ghost var c := View();
      ViewIs();
      ShapeIs();
      SleepIs(c, ms, kernel);
      if ms == 0 { return; }
      GoToSleep(WakeTime(ticks, ms));
      ViewIs();
      LeavingIs();
      Schedule();
    }

    /** `create_thread`: what it does to the queues. */
    method Spawn(id: nat) returns (t: Thread)
      requires Shape()
      modifies this`threads, ready, threads`next
      ensures fresh(t) && t.id == id && Shape() && threads == old(threads) + {t}
      ensures View() == MakeReady(old(View()), t).(wakeup := old(View().wakeup)[t := 0])
      ensures forall u :: u in old(threads) && u !in old(ready.elems) ==> u.next == old(u.next)
    {
      hide *;
      ghost var c := View();
      ViewIs();
      ShapeIs();
      t := new Thread(id);
      Know(t);
      ViewIs();
      Enqueue(t);
      ViewIs();
      SpawnedIs(c, View(), t);
    }

    /** A new thread is one of the live threads. */
    ghost method Know(t: Thread)
      requires Shape() && t !in threads
      modifies this`threads
      ensures Shape() && threads == old(threads) + {t} && t !in ready.elems && t !in sleep.elems
    {
      hide *;
      ShapeIs();
      QueuesAre();
      threads := threads + {t};
      ShapeIf();
    }

    /** `remove_from_sleep_queue`. */
    method RemoveFromSleepQueue(t: Thread)
      requires Shape()
      modifies sleep, threads`next
      ensures Shape() && sleep.elems == Without(old(sleep.elems), t) && ready.elems == old(ready.elems)
      ensures forall u :: u in sleep.elems <==> u in old(sleep.elems) && u != t
      ensures forall u :: u in threads && u !in old(sleep.elems) ==> u.next == old(u.next)
    {
      hide *;
      ghost var z := sleep.elems;
      ShapeIs();
      QueuesAre();
      var asleep := sleep.Remove(t);
      ready.Undisturbed();
      RemovedIs(z, t, sleep.elems);
      ShapeIf();
    }

    method RemoveFromReadyQueue(t: Thread)
      requires Shape()
      modifies ready, threads`next
      ensures Shape() && ready.elems == Without(old(ready.elems), t) && sleep.elems == old(sleep.elems)
      ensures forall u :: u in ready.elems <==> u in old(ready.elems) && u != t
      ensures forall u :: u in threads && u !in old(ready.elems) ==> u.next == old(u.next)
    {
      hide *;
      ghost var r := ready.elems;
      ShapeIs();
      QueuesAre();
      var waiting := ready.Remove(t);
      sleep.Undisturbed();
      RemovedIs(r, t, ready.elems);
      ShapeIf();
    }

    /** `KillThread` on a thread that is ready or asleep: what it does to the queues. */
    method KillThread(t: Thread)
      requires Shape() && t in threads && t != current && t != kernel
      modifies this`threads, ready, sleep, threads`next, t`state
      ensures Shape() && threads == old(threads) - {t} && t.state == Terminated
      ensures View() == Drop(old(View()), t)
      ensures forall u :: u in threads && u !in old(ready.elems) && u !in old(sleep.elems) ==> u.next == old(u.next)
    {
      hide *;
      ghost var c := View();
      ViewIs();
      ShapeIs();
      t.state := Terminated;
      ShapeKept();
      Unqueue(t);
      Forget(t);
      ViewIs();
      DropIs(c, View(), t);
    }

    /** A thread in no queue is no longer one of the live threads. */
    ghost method Forget(t: Thread)
      requires Shape() && t != current && t != kernel && t !in ready.elems && t !in sleep.elems
      modifies this`threads
      ensures Shape() && threads == old(threads) - {t}
    {
      hide *;
      ShapeIs();
      QueuesAre();
      threads := threads - {t};
      ShapeIf();
    }

    /** Takes a thread out of the sleep queue and the ready queue. */
    method Unqueue(t: Thread)
      requires Shape()
      modifies ready, sleep, threads`next
      ensures Shape() && ready.elems == Without(old(ready.elems), t) && sleep.elems == Without(old(sleep.elems), t)
      ensures t !in ready.elems && t !in sleep.elems
      ensures forall u :: u in threads && u !in old(ready.elems) && u !in old(sleep.elems) ==> u.next == old(u.next)
    {
      hide *;
      RemoveFromSleepQueue(t);
      RemoveFromReadyQueue(t);
    }
  }

  lemma TwoThreads<V>(m: map<Thread, V>, a: Thread, b: Thread, x: V, y: V)
    requires a != b && m.Keys == {a, b} && m[a] == x && m[b] == y
    ensures m == map[a := x, b := y]
  {
  }

  lemma QueueIs(q: Queue)
    requires q.Valid()
    ensures Distinct(q.elems)
  {
  }

  lemma TickIs<T>(c: Core<T>, kernel: T)
    ensures TimerTick(c, kernel) ==
            Scheduling.Schedule(c.(ticks := if c.ticks >= 0xFFFF_FFFF_FFFF_FFFF then 0 else c.ticks + 1), kernel)
  {
  }

  lemma SameTags(c: Core<Thread>, d: Core<Thread>)
    requires d.tag.Keys == c.tag.Keys == d.wakeup.Keys == c.wakeup.Keys
    requires d.ready == c.ready && d.sleep == c.sleep && d.current == c.current
    requires forall t :: t in c.tag ==> d.wakeup[t] == c.wakeup[t] && d.tag[t] == c.tag[t]
    ensures d == c.(ticks := d.ticks)
  {
    assert d.wakeup == c.wakeup && d.tag == c.tag;
  }

  lemma ScheduleIs<T>(c: Core<T>, kernel: T)
    ensures Scheduling.Schedule(c, kernel) == Dispatch(Wake(Requeue(c)), kernel)
  {
  }

  /** Who can be in the queues after requeueing ... */
  lemma RequeueMembers<T>(c: Core<T>)
    requires c.current in c.tag
    ensures forall t :: t in Requeue(c).ready ==> t in c.ready || (t == c.current && c.tag[t] == Running)
    ensures Requeue(c).sleep == c.sleep
  {
  }

  /** ... and after the wake-up pass. */
  lemma WakeMembers<T>(c: Core<T>)
    ensures forall t :: t in Wake(c).ready ==> t in c.ready || t in c.sleep
    ensures forall t :: t in Wake(c).sleep ==> t in c.sleep
  {
    forall t | t in Due(c.sleep, c.wakeup, c.ticks)
      ensures t in c.sleep
    {
      WakePartition(c.sleep, c.wakeup, c.ticks, t);
    }
    forall t | t in Later(c.sleep, c.wakeup, c.ticks)
      ensures t in c.sleep
    {
      WakePartition(c.sleep, c.wakeup, c.ticks, t);
    }
    hide Due, Later;
  }

  lemma ScheduleMembers<T>(c: Core<T>, kernel: T)
    requires c.current in c.tag && c.tag[c.current] != Running
    ensures var d := Scheduling.Schedule(c, kernel);
            forall t :: t in d.ready || t in d.sleep ==> t in c.ready || t in c.sleep
  {
    WakeMembers(c);
    hide Wake;
  }

  lemma SameView(c: Core<Thread>, d: Core<Thread>)
    requires d.tag.Keys == c.tag.Keys == d.wakeup.Keys == c.wakeup.Keys
    requires d.ready == c.ready && d.sleep == c.sleep && d.current == c.current && d.ticks == c.ticks
    requires forall t :: t in c.tag ==> d.wakeup[t] == c.wakeup[t] && d.tag[t] == c.tag[t]
    ensures d == c
  {
    assert d.wakeup == c.wakeup && d.tag == c.tag;
  }

  lemma BlockIs(c: Core<Thread>, d: Core<Thread>)
    requires c.current in c.tag && d.tag.Keys == c.tag.Keys == d.wakeup.Keys == c.wakeup.Keys
    requires d.ready == c.ready && d.sleep == c.sleep && d.current == c.current && d.ticks == c.ticks
    requires forall t :: t in c.tag ==>
               d.wakeup[t] == c.wakeup[t] && d.tag[t] == if t == c.current then Blocked else c.tag[t]
    ensures d == Block(c) && d.tag[d.current] == Blocked
  {
    assert d.wakeup == c.wakeup && d.tag == c.tag[c.current := Blocked];
  }

  lemma MakeReadyIs(c: Core<Thread>, d: Core<Thread>, w: Thread)
    requires w in c.tag && d.tag.Keys == c.tag.Keys == d.wakeup.Keys == c.wakeup.Keys
    requires d.ready == c.ready + [w] && d.sleep == c.sleep && d.current == c.current && d.ticks == c.ticks
    requires forall t :: t in c.tag ==> d.wakeup[t] == c.wakeup[t] && d.tag[t] == if t == w then Ready else c.tag[t]
    ensures d == MakeReady(c, w)
  {
    assert d.wakeup == c.wakeup && d.tag == c.tag[w := Ready];
  }

  lemma SpawnedIs(c: Core<Thread>, d: Core<Thread>, t: Thread)
    requires t !in c.tag && c.tag.Keys == c.wakeup.Keys && d.tag.Keys == d.wakeup.Keys == c.tag.Keys + {t}
    requires d.ready == c.ready + [t] && d.sleep == c.sleep && d.current == c.current && d.ticks == c.ticks
    requires d.tag[t] == Ready && d.wakeup[t] == 0
    requires forall u :: u in c.tag ==> d.tag[u] == c.tag[u] && d.wakeup[u] == c.wakeup[u]
    ensures d == MakeReady(c, t).(wakeup := c.wakeup[t := 0])
  {
    assert d.tag == c.tag[t := Ready] && d.wakeup == c.wakeup[t := 0];
  }

  lemma SleepIs<T>(c: Core<T>, ms: nat, kernel: T)
    ensures SleepFor(c, ms, kernel) ==
            if ms == 0 then c
            else Scheduling.Schedule(
                   Block(c).(wakeup := c.wakeup[c.current := WakeTime(c.ticks, ms)],
                             sleep := c.sleep + [c.current]), kernel)
  {
  }

  lemma AsleepIs(c: Core<Thread>, d: Core<Thread>, at: nat)
    requires c.current in c.tag && d.tag.Keys == c.tag.Keys == d.wakeup.Keys == c.wakeup.Keys
    requires d.ready == c.ready && d.sleep == c.sleep + [c.current] && d.current == c.current && d.ticks == c.ticks
    requires forall t :: t in c.tag ==> d.tag[t] == if t == c.current then Blocked else c.tag[t]
    requires forall t :: t in c.tag ==> d.wakeup[t] == if t == c.current then at else c.wakeup[t]
    ensures d == Block(c).(wakeup := c.wakeup[c.current := at], sleep := c.sleep + [c.current])
  {
    assert d.wakeup == c.wakeup[c.current := at] && d.tag == c.tag[c.current := Blocked];
  }

  lemma RemovedIs(s: seq<Thread>, t: Thread, r: seq<Thread>)
    requires Distinct(s)
    requires t !in s ==> r == s
    requires t in s ==> exists i :: 0 <= i < |s| && s[i] == t && r == s[..i] + s[i + 1..]
    ensures r == Without(s, t) && forall u :: u in r <==> u in s && u != t
  {
    if t in s {
      var i :| 0 <= i < |s| && s[i] == t && r == s[..i] + s[i + 1..];
      WithoutAt(s, t, i);
      DistinctWithout(s, i);
    } else {
      WithoutAt(s, t, 0);
    }
  }

  lemma DropIs(c: Core<Thread>, d: Core<Thread>, t: Thread)
    requires c.tag.Keys == c.wakeup.Keys && d.tag.Keys == d.wakeup.Keys == c.tag.Keys - {t}
    requires d.ready == Without(c.ready, t) && d.sleep == Without(c.sleep, t) && d.current == c.current
    requires d.ticks == c.ticks
    requires forall u :: u in d.tag ==> d.tag[u] == c.tag[u] && d.wakeup[u] == c.wakeup[u]
    ensures d == Drop(c, t)
  {
    assert d.tag == c.tag - {t} && d.wakeup == c.wakeup - {t};
  }

  lemma RequeueIs(c: Core<Thread>, d: Core<Thread>)
    requires c.current in c.tag && d.tag.Keys == c.tag.Keys == d.wakeup.Keys == c.wakeup.Keys
    requires var runs := c.tag[c.current] == Running;
             && d.ready == c.ready + (if runs then [c.current] else [])
             && d.sleep == c.sleep && d.current == c.current && d.ticks == c.ticks
             && (forall t :: t in c.tag ==> d.wakeup[t] == c.wakeup[t])
             && (forall t :: t in c.tag ==> d.tag[t] == if runs && t == c.current then Ready else c.tag[t])
    ensures d == Requeue(c)
  {
    assert d.wakeup == c.wakeup;
    assert d.tag == if c.tag[c.current] == Running then c.tag[c.current := Ready] else c.tag;
  }

  lemma DispatchIs(c: Core<Thread>, d: Core<Thread>, kernel: Thread)
    requires d.tag.Keys == c.tag.Keys == d.wakeup.Keys == c.wakeup.Keys && d.current in d.tag
    requires d.current == (if c.ready == [] then kernel else c.ready[0])
    requires d.ready == (if c.ready == [] then [] else c.ready[1..])
    requires d.sleep == c.sleep && d.ticks == c.ticks
    requires forall t :: t in c.tag ==>
               d.wakeup[t] == c.wakeup[t] && d.tag[t] == if t == d.current then Running else c.tag[t]
    ensures d == Dispatch(c, kernel)
  {
    assert d.wakeup == c.wakeup;
    assert d.tag == c.tag[d.current := Running];
  }

  lemma WakeIs(c: Core<Thread>, d: Core<Thread>)
    requires var due := Due(c.sleep, c.wakeup, c.ticks);
             && d.sleep == Later(c.sleep, c.wakeup, c.ticks) && d.ready == c.ready + due && d.current == c.current
             && d.ticks == c.ticks && d.tag.Keys == c.tag.Keys == d.wakeup.Keys == c.wakeup.Keys
             && (forall t :: t in c.tag ==>
                 d.wakeup[t] == c.wakeup[t] && d.tag[t] == if t in due then Ready else c.tag[t])
    ensures d == Wake(c)
  {
    hide Due, Later;
    assert d.wakeup == c.wakeup;
  }

  /** A pass over the sleep queue `s`, with the ready queue `r` at its start. */
  datatype Walk = Walk(r: seq<Thread>, s: seq<Thread>, wakeup: map<Thread, nat>, now: nat)

  ghost function Woken(w: Walk, j: nat): seq<Thread>
    requires j <= |w.s|
  {
    Due(w.s[..j], w.wakeup, w.now)
  }

  ghost function Kept(w: Walk, j: nat): seq<Thread>
    requires j <= |w.s|
  {
    Later(w.s[..j], w.wakeup, w.now)
  }

  /** The pass has dealt with the first `j` sleepers and stands at the next one. */
  ghost predicate Walked(w: Walk, j: nat, ready: seq<Thread>, sleep: seq<Thread>, at: Thread?, prev: Thread?) {
    && j <= |w.s|
    && sleep == Kept(w, j) + w.s[j..] && ready == w.r + Woken(w, j)
    && at == (if j < |w.s| then w.s[j] else null)
    && prev == (if Kept(w, j) == [] then null else Kept(w, j)[|Kept(w, j)| - 1])
    && (forall t :: t in Woken(w, j) ==> t in w.s)
  }

  lemma DeadlineIs(wakeup: map<Thread, nat>, t: Thread)
    requires t in wakeup
    ensures Deadline(wakeup, t) == wakeup[t]
  {
  }

  lemma WalkStart(w: Walk)
    ensures Woken(w, 0) == [] && Walked(w, 0, w.r, w.s, if w.s == [] then null else w.s[0], null)
  {
  }

  lemma WalkLists(w: Walk, j: nat)
    requires j < |w.s|
    ensures var due, t := Deadline(w.wakeup, w.s[j]) <= w.now, w.s[j];
            && Woken(w, j + 1) == Woken(w, j) + (if due then [t] else [])
            && Kept(w, j + 1) == Kept(w, j) + (if due then [] else [t])
            && w.s[j..] == [t] + w.s[j + 1..]
  {
    assert w.s[..j + 1] == w.s[..j] + [w.s[j]];
    WakeAppend(w.s[..j], w.s[j], w.wakeup, w.now);
    hide Due, Later;
  }

  lemma Middle(a: seq<Thread>, t: Thread, b: seq<Thread>)
    ensures var s := a + ([t] + b);
            && s[|a|] == t && s[..|a|] + s[|a| + 1..] == a + b && (a + [t]) + b == s
            && Behind(s, |a|) == (if b == [] then null else b[0])
            && (a != [] ==> s[|a| - 1] == a[|a| - 1])
  {
  }

  /** Where the pass stands. */
  lemma WalkAt(w: Walk, j: nat, ready: seq<Thread>, sleep: seq<Thread>, at: Thread?, prev: Thread?) returns (i: nat)
    requires Walked(w, j, ready, sleep, at, prev) && at != null
    ensures i == |Kept(w, j)| && i < |sleep| && sleep[i] == at && prev == (if i == 0 then null else sleep[i - 1])
    ensures j < |w.s| && at == w.s[j]
  {
    i := |Kept(w, j)|;
    hide Woken, Kept;
  }

  lemma WalkMembers(w: Walk, j: nat, ready: seq<Thread>, sleep: seq<Thread>, at: Thread?, prev: Thread?)
    requires Walked(w, j, ready, sleep, at, prev)
    ensures forall t :: t in ready ==> t in w.r || t in w.s
    ensures forall t :: t in sleep ==> t in w.s
    ensures at != null ==> at in w.s && at in sleep
  {
    forall t | t in Kept(w, j) ensures t in w.s { WakePartition(w.s[..j], w.wakeup, w.now, t); }
    hide Kept, Woken;
  }

  lemma WalkMoves(w: Walk, j: nat, ready: seq<Thread>, sleep: seq<Thread>, t: Thread, prev: Thread?)
    requires Walked(w, j, ready, sleep, t, prev) && Deadline(w.wakeup, t) <= w.now
    ensures var i := |Kept(w, j)|;
            && j < |w.s| && i < |sleep| && Woken(w, j + 1) == Woken(w, j) + [t]
            && Walked(w, j + 1, ready + [t], Cut(sleep, i), Behind(sleep, i), prev)
  {
    hide Woken, Kept, Behind, Deadline;
    WalkLists(w, j);
    Middle(Kept(w, j), t, w.s[j + 1..]);
  }

  lemma WalkStays(w: Walk, j: nat, ready: seq<Thread>, sleep: seq<Thread>, t: Thread, prev: Thread?)
    requires Walked(w, j, ready, sleep, t, prev) && Deadline(w.wakeup, t) > w.now
    ensures var i := |Kept(w, j)|;
            && j < |w.s| && i < |sleep| && Woken(w, j + 1) == Woken(w, j)
            && Walked(w, j + 1, ready, sleep, Behind(sleep, i), t)
  {
    hide Woken, Kept, Behind, Deadline;
    WalkLists(w, j);
    Middle(Kept(w, j), t, w.s[j + 1..]);
  }

  lemma WalkEnd(w: Walk, j: nat, ready: seq<Thread>, sleep: seq<Thread>, prev: Thread?)
    requires Walked(w, j, ready, sleep, null, prev)
    ensures j == |w.s| && Woken(w, j) == Due(w.s, w.wakeup, w.now)
    ensures forall t :: t in Woken(w, j) ==> t in w.s
    ensures sleep == Later(w.s, w.wakeup, w.now) && ready == w.r + Due(w.s, w.wakeup, w.now)
  {
    assert w.s[..j] == w.s;
  }
}
