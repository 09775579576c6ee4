/** Threads and the intrusive singly linked queues they are kept in.  A thread has one `next` field, so
    it can be in one queue at a time; the ready queue, the sleep queue and every wait queue are lists
    over that field with a head and a tail pointer. */
module ThreadQueue {
  import opened Basics

  datatype Tag = Ready | Running | Blocked | Terminated

  class Thread {
    const id: nat
    var state: Tag
    var next: Thread?
    var wakeup: nat

    constructor (id: nat)
      ensures this.id == id && state == Ready && next == null && wakeup == 0
    {
      this.id, state, next, wakeup := id, Ready, null, 0;
    }
  }

  /** The thread behind element `i`. */
  ghost function Behind(s: seq<Thread>, i: nat): Thread?
    requires i < |s|
  {
    if i + 1 < |s| then s[i + 1] else null
  }

  lemma DistinctWithout<T>(s: seq<T>, i: nat)
    requires Distinct(s) && i < |s|
    ensures var r := s[..i] + s[i + 1..]; Distinct(r) && forall x :: x in r <==> x in s && x != s[i]
  {
    var r := s[..i] + s[i + 1..];
    forall x ensures x in r <==> x in s && x != s[i] {
      if x in s && x != s[i] {
        var k :| 0 <= k < |s| && s[k] == x;
        if k < i { assert r[k] == x; } else { assert r[k - 1] == x; }
      }
    }
  }

  /** Who is behind whom once element `i` is gone. */
  lemma BehindWithout(s: seq<Thread>, i: nat, k: nat)
    requires Distinct(s) && i < |s| && k < |s| - 1
    ensures var r, m := s[..i] + s[i + 1..], if k < i then k else k + 1;
            && r[k] == s[m] && s[m] != s[i] && (0 < i ==> (s[m] == s[i - 1] <==> m == i - 1))
            && Behind(r, k) == Behind(s, if m + 1 == i then i else m)
  {
  }

  /** `head` and `tail` are the ends of the sequence, null when there are none. */
  ghost predicate Ends(head: Thread?, tail: Thread?, s: seq<Thread>) {
    if s == [] then head == null && tail == null else head == s[0] && tail == s[|s| - 1]
  }

  lemma EndsWithout(head: Thread?, tail: Thread?, s: seq<Thread>, i: nat, prev: Thread?)
    requires Distinct(s) && i < |s| && Ends(head, tail, s)
    requires if i == 0 then prev == null else prev == s[i - 1]
    ensures Ends(if prev == null then Behind(s, i) else head, if s[i] == tail then prev else tail, s[..i] + s[i + 1..])
  {
  }

  class Queue {
    var head: Thread?
    var tail: Thread?
    /** The threads in the queue, first to last. */
    ghost var elems: seq<Thread>

    constructor ()
      ensures Valid() && elems == []
    {
      head, tail, elems := null, null, [];
    }

    /** The list is acyclic, runs through exactly `elems` and has a correct tail. */
    ghost predicate Valid()
      reads this, elems`next
    {
      && Distinct(elems)
      && Ends(head, tail, elems)
      && (forall i :: 0 <= i < |elems| ==> elems[i].next == Behind(elems, i))
    }

    /** A queue stays valid while neither it nor the links of its threads change. */
    twostate lemma Undisturbed()
      requires old(Valid()) && unchanged(this)
      requires forall t :: t in elems ==> t.next == old(t.next)
      ensures Valid()
    {
      forall i | 0 <= i < |elems| ensures elems[i].next == Behind(elems, i) { assert elems[i] in elems; }
    }

    /** Appends a thread that is in no queue. */
    method Enqueue(t: Thread)
      requires Valid() && t !in elems
      modifies this, t`next, elems`next
      ensures Valid() && elems == old(elems) + [t]
    {
      t.next := null;
      if head == null {
        head, tail := t, t;
      } else {
        tail.next := t;
        tail := t;
      }
      elems := elems + [t];
    }

    /** Takes the first thread off the queue; null when it is empty. */
    method Dequeue() returns (t: Thread?)
      requires Valid()
      modifies this, elems`next
      ensures Valid()
      ensures t == null <==> old(elems) == []
      ensures t == null ==> elems == []
      ensures t != null ==> t == old(elems)[0] && elems == old(elems)[1..] && t.next == null
    {
      if head == null { return null; }
      NextOf(0);
      t := head;
      head := head.next;
      if head == null { tail := null; }
      t.next := null;
      elems := elems[1..];
      forall i | 0 <= i < |elems| ensures elems[i].next == Behind(elems, i) {
        assert elems[i] == old(elems)[i + 1] && elems[i] != old(elems)[0];
        assert old(elems[i + 1].next) == Behind(old(elems), i + 1);
      }
    }

    /** Unlinks element `i`, given the element in front of it. */
    method Unlink(prev: Thread?, t: Thread, ghost i: nat)
      requires Valid() && i < |elems| && t == elems[i]
      requires if i == 0 then prev == null else prev == elems[i - 1]
      modifies this, elems`next
      ensures Valid() && elems == old(elems)[..i] + old(elems)[i + 1..]
      ensures t.next == null
    {
      NextOf(i);
      if 0 < i { NextOf(i - 1); }
      ghost var s := elems;
      DistinctWithout(s, i);
      EndsWithout(head, tail, s, i, prev);
      if prev != null {
        prev.next := t.next;
      } else {
        head := t.next;
      }
      if t == tail { tail := prev; }
      t.next := null;
      elems := s[..i] + s[i + 1..];
      hide Ends;
      forall k | 0 <= k < |elems| ensures elems[k].next == Behind(elems, k) {
        hide Distinct;
        BehindWithout(s, i, k);
        ghost var m := if k < i then k else k + 1;
        assert old(s[m].next) == Behind(s, m);
      }
    }

    lemma NextOf(i: nat)
      requires Valid() && i < |elems|
      ensures elems[i].next == Behind(elems, i)
    {
    }

    /** Removes a thread wherever it is in the queue; leaves a queue without it alone. */
    method Remove(target: Thread) returns (found: bool)
      requires Valid()
      modifies this, elems`next
      ensures Valid() && found == (target in old(elems))
      ensures !found ==> elems == old(elems)
      ensures found ==> exists i :: 0 <= i < |old(elems)| && old(elems)[i] == target &&
                                    elems == old(elems)[..i] + old(elems)[i + 1..]
    {
      if head == null { return false; }
      if head == target {
        Unlink(null, target, 0);
        return true;
      }
      var curr := head;
      ghost var k := 0;
      while curr != null && curr.next != target
        invariant elems == old(elems) && Valid()
        invariant curr != null ==> 0 <= k < |elems| && curr == elems[k]
        invariant curr == null ==> k == |elems|
        invariant forall i :: 0 <= i <= k && i < |elems| ==> elems[i] != target
        decreases |elems| - k
      {
        NextOf(k);
        curr, k := curr.next, k + 1;
      }
      if curr == null { return false; }
      NextOf(k);
      Unlink(curr, target, k + 1);
      return true;
    }
  }
}
