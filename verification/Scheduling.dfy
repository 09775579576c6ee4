/** The scheduler core as a function of its queues: requeueing the running thread, waking the sleepers
    that are due, dispatching the first ready thread. */
module Scheduling {
  import opened Basics
  import opened ThreadQueue

  /** Everything `schedule()` looks at. */
  datatype Core<T> = Core(
    current: T,
    ready: seq<T>,
    sleep: seq<T>,
    tag: map<T, Tag>,
    wakeup: map<T, nat>,
    ticks: nat)

  function Deadline<T>(wakeup: map<T, nat>, t: T): nat {
    if t in wakeup then wakeup[t] else 0
  }

  /** The threads of `s` whose deadline has come, in order. */
  function Due<T>(s: seq<T>, wakeup: map<T, nat>, now: nat): seq<T>
    decreases |s|
  {
    if s == [] then []
    else
      var t := s[|s| - 1];
      Due(s[..|s| - 1], wakeup, now) + if Deadline(wakeup, t) <= now then [t] else []
  }

  /** The threads of `s` that sleep on, in order. */
  function Later<T>(s: seq<T>, wakeup: map<T, nat>, now: nat): seq<T>
    decreases |s|
  {
    if s == [] then []
    else
      var t := s[|s| - 1];
      Later(s[..|s| - 1], wakeup, now) + if Deadline(wakeup, t) <= now then [] else [t]
  }

  function SetTags<T>(tag: map<T, Tag>, s: seq<T>, v: Tag): map<T, Tag> {
    map t | t in tag :: if t in s then v else tag[t]
  }

  /** `wake_sleeping_threads`. */
  function Wake<T>(c: Core<T>): Core<T> {
    var due := Due(c.sleep, c.wakeup, c.ticks);
    c.(ready := c.ready + due, sleep := Later(c.sleep, c.wakeup, c.ticks), tag := SetTags(c.tag, due, Ready))
  }

  /** A running thread goes to the back of the ready queue. */
  function Requeue<T>(c: Core<T>): Core<T> {
    if c.current in c.tag && c.tag[c.current] == Running
    then c.(ready := c.ready + [c.current], tag := c.tag[c.current := Ready])
    else c
  }

  /** The first ready thread runs; the kernel thread if there is none. */
  function Dispatch<T>(c: Core<T>, kernel: T): Core<T> {
    if c.ready == [] then c.(current := kernel, tag := c.tag[kernel := Running])
    else c.(current := c.ready[0], ready := c.ready[1..], tag := c.tag[c.ready[0] := Running])
  }

  /** `schedule()`. */
  function Schedule<T>(c: Core<T>, kernel: T): Core<T> {
    Dispatch(Wake(Requeue(c)), kernel)
  }

  // ---------------------------------------------------------------- the wake-up pass

  /** The pass is a partition: who is due and who is not. */
  lemma {:induction false} WakePartition<T>(s: seq<T>, wakeup: map<T, nat>, now: nat, t: T)
    ensures t in Due(s, wakeup, now) <==> t in s && Deadline(wakeup, t) <= now
    ensures t in Later(s, wakeup, now) <==> t in s && Deadline(wakeup, t) > now
    decreases |s|
  {
    if s != [] {
      WakePartition(s[..|s| - 1], wakeup, now, t);
      assert s == s[..|s| - 1] + [s[|s| - 1]];
    }
  }

  /** ... and nothing is lost or duplicated. */
  lemma {:induction false} WakeConserves<T>(s: seq<T>, wakeup: map<T, nat>, now: nat)
    ensures multiset(Due(s, wakeup, now)) + multiset(Later(s, wakeup, now)) == multiset(s)
    decreases |s|
  {
    if s != [] {
      var init, t := s[..|s| - 1], s[|s| - 1];
      assert s == init + [t];
      WakeConserves(init, wakeup, now);
      WakeAppend(init, t, wakeup, now);
      hide Due, Later;
    }
  }

  lemma {:induction false} WakeDistinct<T>(s: seq<T>, wakeup: map<T, nat>, now: nat)
    requires Distinct(s)
    ensures Distinct(Due(s, wakeup, now)) && Distinct(Later(s, wakeup, now))
    decreases |s|
  {
    if s != [] {
      var init, t := s[..|s| - 1], s[|s| - 1];
      assert s == init + [t] && t !in init;
      WakeDistinct(init, wakeup, now);
      WakePartition(init, wakeup, now, t);
      WakeAppend(init, t, wakeup, now);
      hide Due, Later, Deadline;
    }
  }

  /** Two sleepers are woken (or left) in the order in which they went to sleep. */
  lemma {:induction false} WakeKeepsOrder<T>(s: seq<T>, wakeup: map<T, nat>, now: nat, a: nat, b: nat)
    returns (i: nat, j: nat)
    requires a < b < |s|
    requires (Deadline(wakeup, s[a]) <= now) == (Deadline(wakeup, s[b]) <= now)
    ensures var part := if Deadline(wakeup, s[a]) <= now then Due(s, wakeup, now) else Later(s, wakeup, now);
            i < j < |part| && part[i] == s[a] && part[j] == s[b]
    decreases |s|
  {
    var init := s[..|s| - 1];
    if b < |s| - 1 {
      i, j := WakeKeepsOrder(init, wakeup, now, a, b);
    } else {
      i := PositionOf(init, wakeup, now, a);
      j := if Deadline(wakeup, s[a]) <= now then |Due(init, wakeup, now)| else |Later(init, wakeup, now)|;
    }
  }

  lemma {:induction false} PositionOf<T>(s: seq<T>, wakeup: map<T, nat>, now: nat, a: nat) returns (i: nat)
    requires a < |s|
    ensures var part := if Deadline(wakeup, s[a]) <= now then Due(s, wakeup, now) else Later(s, wakeup, now);
            i < |part| && part[i] == s[a]
    decreases |s|
  {
    var init := s[..|s| - 1];
    if a < |s| - 1 {
      i := PositionOf(init, wakeup, now, a);
    } else {
      i := if Deadline(wakeup, s[a]) <= now then |Due(init, wakeup, now)| else |Later(init, wakeup, now)|;
    }
  }

  lemma {:induction false} WakeAppend<T>(s: seq<T>, t: T, wakeup: map<T, nat>, now: nat)
    ensures Due(s + [t], wakeup, now) == Due(s, wakeup, now) + if Deadline(wakeup, t) <= now then [t] else []
    ensures Later(s + [t], wakeup, now) == Later(s, wakeup, now) + if Deadline(wakeup, t) <= now then [] else [t]
  {
    assert (s + [t])[..|s|] == s;
  }

  // ---------------------------------------------------------------- what schedule() keeps

  /** Where every thread is, except that the current one may just have been put to sleep or on a wait
      queue: `waiting` are the threads on wait queues of locks. */
  ghost predicate Settled<T>(c: Core<T>, waiting: set<T>) {
    && c.current in c.tag && waiting <= c.tag.Keys && c.wakeup.Keys == c.tag.Keys
    && Distinct(c.ready) && Distinct(c.sleep)
    && (forall t :: t in c.ready ==> t in c.tag) && (forall t :: t in c.sleep ==> t in c.tag)
    && (forall t :: t in c.tag ==>
          && c.tag[t] != Terminated
          && (t in c.ready <==> c.tag[t] == Ready)
          && (t in c.sleep <==> c.tag[t] == Blocked && t !in waiting)
          && (t in waiting ==> c.tag[t] == Blocked)
          && (c.tag[t] == Running ==> t == c.current))
    && c.tag[c.current] != Ready
  }

  /** Between steps the current thread is the running one. */
  ghost predicate CoreInv<T>(c: Core<T>, waiting: set<T>) {
    Settled(c, waiting) && c.tag[c.current] == Running
  }

  /** No sleeper has overslept. */
  ghost predicate NoneOverdue<T>(c: Core<T>) {
    forall t :: t in c.sleep ==> Deadline(c.wakeup, t) > c.ticks
  }

  /** Every thread is ready, asleep or waiting, and in the queue for it. */
  ghost predicate Parked<T>(c: Core<T>, waiting: set<T>) {
    && waiting <= c.tag.Keys && c.wakeup.Keys == c.tag.Keys && Distinct(c.ready) && Distinct(c.sleep)
    && (forall t :: t in c.ready ==> t in c.tag) && (forall t :: t in c.sleep ==> t in c.tag)
    && (forall t :: t in c.tag ==> ParkedAt(c, waiting, t))
  }

  ghost predicate ParkedAt<T>(c: Core<T>, waiting: set<T>, t: T)
    requires t in c.tag
  {
    && (c.tag[t] == Ready || c.tag[t] == Blocked)
    && (t in c.ready <==> c.tag[t] == Ready)
    && (t in c.sleep <==> c.tag[t] == Blocked && t !in waiting)
    && (t in waiting ==> c.tag[t] == Blocked)
  }

  lemma RequeueParks<T>(c: Core<T>, waiting: set<T>)
    requires Settled(c, waiting)
    ensures Parked(Requeue(c), waiting)
  {
    var d := Requeue(c);
    if c.tag[c.current] == Running {
      assert c.current !in c.ready;
      DistinctJoin(c.ready, [c.current]);
    }
  }

  lemma WakeKeepsAt<T>(c: Core<T>, waiting: set<T>, t: T)
    requires Parked(c, waiting) && t in c.tag
    ensures t in Wake(c).tag && ParkedAt(Wake(c), waiting, t)
  {
    WakePartition(c.sleep, c.wakeup, c.ticks, t);
    hide Due, Later;
    assert ParkedAt(c, waiting, t);
  }

  /** The wake-up pass moves the due sleepers to the ready queue and nothing else. */
  lemma WakeKeeps<T>(c: Core<T>, waiting: set<T>)
    requires Parked(c, waiting)
    ensures Parked(Wake(c), waiting) && NoneOverdue(Wake(c))
  {
    var d, due, later := Wake(c), Due(c.sleep, c.wakeup, c.ticks), Later(c.sleep, c.wakeup, c.ticks);
    forall t | t in c.tag ensures t in d.tag && ParkedAt(d, waiting, t) { WakeKeepsAt(c, waiting, t); }
    forall t | t in due ensures t in c.sleep { WakePartition(c.sleep, c.wakeup, c.ticks, t); }
    forall t | t in later ensures t in c.sleep && Deadline(c.wakeup, t) > c.ticks {
      WakePartition(c.sleep, c.wakeup, c.ticks, t);
    }
    WakeDistinct(c.sleep, c.wakeup, c.ticks);
    hide Due, Later, Deadline;
    forall t | t in c.ready ensures t !in due { assert ParkedAt(c, waiting, t); }
    DistinctJoin(c.ready, due);
  }

  lemma DispatchKeeps<T>(c: Core<T>, waiting: set<T>, kernel: T)
    requires Parked(c, waiting) && c.ready != []
    ensures CoreInv(Dispatch(c, kernel), waiting)
  {
    var d, t0 := Dispatch(c, kernel), c.ready[0];
    assert c.ready == [t0] + c.ready[1..];
    assert t0 in c.ready && ParkedAt(c, waiting, t0);
    forall t | t in d.tag
      ensures d.tag[t] != Terminated
      ensures t in d.ready <==> d.tag[t] == Ready
      ensures t in d.sleep <==> d.tag[t] == Blocked && t !in waiting
      ensures t in waiting ==> d.tag[t] == Blocked
      ensures d.tag[t] == Running ==> t == d.current
    {
      assert ParkedAt(c, waiting, t);
    }
  }

  /** Every call of `schedule()` on a system with a thread to run leaves each thread in exactly one
      place with the tag of that place, and nobody overslept. */
  lemma ScheduleKeeps<T>(c: Core<T>, waiting: set<T>, kernel: T)
    requires Settled(c, waiting) && (c.tag[c.current] == Running || c.ready != [])
    ensures CoreInv(Schedule(c, kernel), waiting) && NoneOverdue(Schedule(c, kernel))
  {
    RequeueParks(c, waiting);
    WakeKeeps(Requeue(c), waiting);
    var d := Wake(Requeue(c));
    assert d.ready != [];
    hide Requeue, Wake, Parked, Settled;
    DispatchKeeps(d, waiting, kernel);
  }

  /** What `schedule()` does to one thread that was not running. */
  lemma ScheduleEffect<T>(c: Core<T>, waiting: set<T>, kernel: T, t: T)
    requires Settled(c, waiting) && (c.tag[c.current] == Running || c.ready != []) && t in c.tag
    ensures var d := Schedule(c, kernel);
            && d.tag.Keys == c.tag.Keys && d.wakeup == c.wakeup && d.ticks == c.ticks
            && (t in waiting ==> d.tag[t] == Blocked)
            && (c.tag[t] != Blocked ==> d.tag[t] != Blocked)
            && (t in c.sleep ==> (t in d.sleep <==> Deadline(c.wakeup, t) > c.ticks))
            && (t in d.sleep ==> t in c.sleep)
  {
    WakePartition(c.sleep, c.wakeup, c.ticks, t);
    ScheduleKeeps(c, waiting, kernel);
    hide Due, Later;
    if t in c.sleep && t == c.current { assert c.tag[t] == Blocked; }
  }

  lemma DistinctJoin<T>(a: seq<T>, b: seq<T>)
    requires Distinct(a) && Distinct(b) && forall x :: x in a ==> x !in b
    ensures Distinct(a + b)
  {
    var s := a + b;
    forall i, j | 0 <= i < j < |s| ensures s[i] != s[j] {
      if i < |a| <= j { assert a[i] in a && b[j - |a|] in b; }
    }
  }
}
