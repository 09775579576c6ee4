/** The file allocation table as an abstract array of 28-bit links: the circular search for a free
    cluster, the release of a chain, and the chain structure that every run of these keeps. */
module FatTable {
  import opened Basics

  const FREE := 0
  const BAD := 0x0FFF_FFF7
  const EOF := 0x0FFF_FFF8
  const UNKNOWN := 0xFFFF_FFFF

  /** `fat[c]` is the entry of cluster `c`; clusters `2 <= c < n` hold data, later entries are padding. */
  type Fat = seq<nat>

  ghost predicate Shape(fat: Fat, n: nat) {
    3 <= n <= |fat| && n <= BAD
  }

  // ---------------------------------------------------------------- free entries

  function CountFree(fat: Fat, lo: nat, hi: nat): nat
    requires hi <= |fat|
    decreases hi - lo
  {
    if hi <= lo then 0
    else (if fat[lo] == FREE then 1 else 0) + CountFree(fat, lo + 1, hi)
  }

  ghost predicate HasFree(fat: Fat, n: nat)
    requires n <= |fat|
  {
    exists c :: 2 <= c < n && fat[c] == FREE
  }

  lemma {:induction false} CountFreeZero(fat: Fat, lo: nat, hi: nat)
    requires hi <= |fat|
    ensures CountFree(fat, lo, hi) == 0 <==> forall c :: lo <= c < hi ==> fat[c] != FREE
    decreases hi - lo
  {
    if lo < hi {
      CountFreeZero(fat, lo + 1, hi);
    }
  }

  lemma {:induction false} CountFreeSplit(fat: Fat, lo: nat, mid: nat, hi: nat)
    requires lo <= mid <= hi <= |fat|
    ensures CountFree(fat, lo, hi) == CountFree(fat, lo, mid) + CountFree(fat, mid, hi)
    decreases mid - lo
  {
    if lo < mid {
      CountFreeSplit(fat, lo + 1, mid, hi);
    }
  }

  lemma {:induction false} CountFreeFrame(fat: Fat, fat': Fat, lo: nat, hi: nat)
    requires hi <= |fat| && hi <= |fat'|
    requires forall c :: lo <= c < hi ==> (fat[c] == FREE <==> fat'[c] == FREE)
    ensures CountFree(fat, lo, hi) == CountFree(fat', lo, hi)
    decreases hi - lo
  {
    if lo < hi {
      CountFreeFrame(fat, fat', lo + 1, hi);
    }
  }

  /** Overwriting one entry moves the count by at most one. */
  lemma CountFreeUpdate(fat: Fat, lo: nat, hi: nat, c: nat, v: nat)
    requires lo <= c < hi <= |fat|
    ensures CountFree(fat[c := v], lo, hi) ==
            CountFree(fat, lo, hi) - (if fat[c] == FREE then 1 else 0) + (if v == FREE then 1 else 0)
  {
    var fat' := fat[c := v];
    CountFreeSplit(fat, lo, c, hi);
    CountFreeSplit(fat', lo, c, hi);
    CountFreeFrame(fat, fat', lo, c);
    CountFreeFrame(fat, fat', c + 1, hi);
  }

  // ---------------------------------------------------------------- the circular search

  function SearchStart(hint: nat): nat {
    if hint != UNKNOWN && hint >= 2 then hint else 2
  }

  function NextProbe(c: nat, n: nat): nat {
    if c + 1 >= n then 2 else c + 1
  }

  /** The cluster examined by iteration `k` of the search, if it is ever reached. */
  function ProbeAt(start: nat, n: nat, k: nat): nat {
    if k == 0 then start else NextProbe(ProbeAt(start, n, k - 1), n)
  }

  /** Iteration `k` ends the loop: a free entry was found, or the search is back at its start. */
  ghost predicate StopsAt(fat: Fat, n: nat, start: nat, k: nat) {
    (ProbeAt(start, n, k) < |fat| && fat[ProbeAt(start, n, k)] == FREE) || ProbeAt(start, n, k + 1) == start
  }

  /** When an allocation is safe: the hint is a cluster of the volume, or it points at a padding
      entry in use while some cluster is still free. */
  ghost predicate HintSafe(fat: Fat, n: nat, hint: nat)
    requires n <= |fat|
  {
    var start := SearchStart(hint);
    start < n || (start < |fat| && fat[start] != FREE && HasFree(fat, n))
  }

  lemma {:induction false} ProbeForward(start: nat, n: nat, k: nat)
    requires 2 <= start && start + k < n
    ensures ProbeAt(start, n, k) == start + k
  {
    if k != 0 {
      ProbeForward(start, n, k - 1);
    }
  }

  lemma {:induction false} ProbeInRange(start: nat, n: nat, k: nat)
    requires 3 <= n && (start < n || 0 < k) && 2 <= start
    ensures 2 <= ProbeAt(start, n, k) < n
  {
    if k != 0 && (start < n || 1 < k) {
      ProbeInRange(start, n, k - 1);
    }
  }

  lemma {:induction false} ProbeCompose(start: nat, n: nat, j: nat, k: nat)
    ensures ProbeAt(ProbeAt(start, n, j), n, k) == ProbeAt(start, n, j + k)
  {
    if k != 0 {
      ProbeCompose(start, n, j, k - 1);
    }
  }

  /** The search reaches every cluster of the volume. */
  lemma ProbeReaches(start: nat, n: nat, c: nat) returns (k: nat)
    requires 3 <= n && 2 <= start && 2 <= c < n
    ensures ProbeAt(start, n, k) == c
    ensures start < n ==> k == if start <= c then c - start else n - start + (c - 2)
    ensures start >= n ==> k == 1 + (c - 2)
  {
    if start < n && start <= c {
      k := c - start;
      ProbeForward(start, n, k);
    } else if start < n {
      ProbeForward(start, n, n - 1 - start);
      k := n - start + (c - 2);
      ProbeForward(2, n, c - 2);
      ProbeCompose(start, n, n - start, c - 2);
    } else {
      k := 1 + (c - 2);
      ProbeForward(2, n, c - 2);
      ProbeCompose(start, n, 1, c - 2);
    }
  }

  /** From a start inside the volume the search visits no cluster twice before it stops. */
  lemma ProbesAreDistinct(start: nat, n: nat, j: nat, k: nat)
    requires 2 <= start < n && j < k < n - 2
    ensures ProbeAt(start, n, j) != ProbeAt(start, n, k)
  {
    ProbeInRange(start, n, j);
    ProbeInRange(start, n, k);
    ProbeClosedForm(start, n, j);
    ProbeClosedForm(start, n, k);
  }

  lemma {:induction false} ProbeClosedForm(start: nat, n: nat, k: nat)
    requires 2 <= start < n && k <= n - 2
    ensures ProbeAt(start, n, k) == if start + k < n then start + k else start + k - (n - 2)
  {
    if k != 0 {
      ProbeClosedForm(start, n, k - 1);
    }
  }

  /** The search ends if and only if it starts inside the volume, or finds the padding entry it
      starts at free, or some cluster is free. */
  lemma SearchTerminatesIff(fat: Fat, n: nat, start: nat)
    requires Shape(fat, n) && 2 <= start < |fat|
    ensures (exists k: nat :: StopsAt(fat, n, start, k)) <==> start < n || fat[start] == FREE || HasFree(fat, n)
  {
    if start < n {
      ProbeClosedForm(start, n, n - 3);
      ProbeClosedForm(start, n, n - 2);
      assert StopsAt(fat, n, start, n - 3);
    } else if fat[start] == FREE {
      assert StopsAt(fat, n, start, 0);
    } else if HasFree(fat, n) {
      var c :| 2 <= c < n && fat[c] == FREE;
      var k := ProbeReaches(start, n, c);
      assert StopsAt(fat, n, start, k);
    } else {
      forall k: nat ensures !StopsAt(fat, n, start, k) {
        ProbeInRange(start, n, k + 1);
        if 0 < k { ProbeInRange(start, n, k); }
      }
    }
  }

  /** The search is correct (it ends, and the entry it ends at belongs to the volume) exactly when
      the hint is safe. */
  lemma SearchCorrectIff(fat: Fat, n: nat, hint: nat)
    requires Shape(fat, n) && SearchStart(hint) < |fat|
    ensures HintSafe(fat, n, hint) <==>
            (exists k: nat :: StopsAt(fat, n, SearchStart(hint), k)) &&
            !(fat[SearchStart(hint)] == FREE && SearchStart(hint) >= n)
  {
    SearchTerminatesIff(fat, n, SearchStart(hint));
  }

  /** The last cluster of a volume leaves a hint behind from which a full volume is searched for
      ever, and from which a free padding entry would be handed out as a cluster. */
  lemma HintPastTheEnd()
    ensures var full: Fat := seq(128, _ => EOF);
            !HintSafe(full, 127, 127) && !(exists k: nat :: StopsAt(full, 127, 127, k))
    ensures var padded: Fat := seq(128, c => if c == 127 then FREE else EOF);
            !HintSafe(padded, 127, 127) && StopsAt(padded, 127, 127, 0) && ProbeAt(127, 127, 0) >= 127
  {
    var full: Fat := seq(128, _ => EOF);
    SearchTerminatesIff(full, 127, 127);
  }

  /** The first free cluster in `lo <= c < hi`, or 0. */
  function ScanFree(fat: Fat, lo: nat, hi: nat): (r: nat)
    requires hi <= |fat|
    ensures r != 0 ==> lo <= r < hi && fat[r] == FREE && forall c :: lo <= c < r ==> fat[c] != FREE
    ensures r == 0 && 0 < lo ==> forall c :: lo <= c < hi ==> fat[c] != FREE
    decreases hi - lo
  {
    if hi <= lo then 0 else if fat[lo] == FREE then lo else ScanFree(fat, lo + 1, hi)
  }

  /** The cluster an allocation hands out, 0 when the volume is full. */
  function AllocResult(fat: Fat, n: nat, hint: nat): (r: nat)
    requires n <= |fat|
  {
    var start := SearchStart(hint);
    if start < n then
      var r := ScanFree(fat, start, n);
      if r != 0 then r else ScanFree(fat, 2, start)
    else
      ScanFree(fat, 2, n)
  }

  /** Position of a cluster in the circular order that begins at `start`. */
  ghost function CircularRank(start: nat, n: nat, c: nat): nat {
    if start < n && c < start then c + n else c
  }

  /** The allocated cluster is free, belongs to the volume and is the nearest one in circular
      order; nothing is allocated exactly when no cluster is free. */
  lemma AllocIsNearestFree(fat: Fat, n: nat, hint: nat)
    requires Shape(fat, n)
    ensures var r, start := AllocResult(fat, n, hint), SearchStart(hint);
            && (r == 0 <==> !HasFree(fat, n))
            && (r != 0 ==>
                  && 2 <= r < n && fat[r] == FREE
                  && forall c :: 2 <= c < n && fat[c] == FREE ==>
                       CircularRank(start, n, r) <= CircularRank(start, n, c))
  {
  }

  // ---------------------------------------------------------------- chains

  /** `cs` is an acyclic chain of clusters, each entry naming the next and the last marked EOF. */
  ghost predicate IsChain(fat: Fat, n: nat, cs: seq<nat>)
    requires n <= |fat|
  {
    && 0 < |cs|
    && (forall i :: 0 <= i < |cs| ==> 2 <= cs[i] < n)
    && Distinct(cs)
    && (forall i :: 0 <= i < |cs| - 1 ==> fat[cs[i]] == cs[i + 1])
    && fat[cs[|cs| - 1]] >= EOF
  }

  ghost predicate Disjoint<T(!new)>(s: seq<T>, t: seq<T>) {
    forall x :: x in s ==> x !in t
  }

  /** A cluster on a chain is not free. */
  lemma UsedOnChain(fat: Fat, n: nat, cs: seq<nat>, c: nat)
    requires Shape(fat, n) && IsChain(fat, n, cs) && c in cs
    ensures fat[c] != FREE
  {
    var i :| 0 <= i < |cs| && cs[i] == c;
    if i < |cs| - 1 { assert fat[cs[i]] == cs[i + 1]; }
  }

  /** A chain depends on its own entries only. */
  lemma ChainFrame(fat: Fat, fat': Fat, n: nat, cs: seq<nat>)
    requires n <= |fat| && n <= |fat'| && IsChain(fat, n, cs)
    requires forall c :: c in cs ==> fat'[c] == fat[c]
    ensures IsChain(fat', n, cs)
  {
    assert forall i :: 0 <= i < |cs| ==> cs[i] in cs;
  }

  lemma HeadLink(fat: Fat, n: nat, cs: seq<nat>)
    requires Shape(fat, n) && IsChain(fat, n, cs)
    ensures if |cs| > 1 then fat[cs[0]] == cs[1] else fat[cs[0]] >= EOF
    ensures |cs| > 1 <==> fat[cs[0]] < EOF
  {
  }

  /** Two chains with the same first cluster are the same chain. */
  lemma {:induction false} ChainUnique(fat: Fat, n: nat, cs: seq<nat>, ds: seq<nat>)
    requires Shape(fat, n) && IsChain(fat, n, cs) && IsChain(fat, n, ds) && cs[0] == ds[0]
    ensures cs == ds
  {
    HeadLink(fat, n, cs);
    HeadLink(fat, n, ds);
    if |cs| > 1 {
      TailIsChain(fat, n, cs);
      TailIsChain(fat, n, ds);
      ChainUnique(fat, n, cs[1..], ds[1..]);
      assert cs == [cs[0]] + cs[1..] && ds == [ds[0]] + ds[1..];
    }
  }

  lemma TailIsChain(fat: Fat, n: nat, cs: seq<nat>)
    requires n <= |fat| && IsChain(fat, n, cs) && |cs| > 1
    ensures IsChain(fat, n, cs[1..])
  {
    assert fat[cs[1..][|cs| - 2]] >= EOF;
  }

  lemma FreshChain(fat: Fat, n: nat, r: nat)
    requires Shape(fat, n) && 2 <= r < n
    ensures IsChain(fat[r := EOF], n, [r])
  {
  }

  /** Linking a freshly allocated cluster behind the tail extends the chain by it. */
  lemma LinkToTail(fat: Fat, n: nat, cs: seq<nat>, r: nat)
    requires Shape(fat, n) && IsChain(fat, n, cs) && 2 <= r < n && r !in cs && fat[r] >= EOF
    ensures IsChain(fat[cs[|cs| - 1] := r], n, cs + [r])
  {
    JoinChains(fat, n, cs, [r]);
  }

  /** Linking the tail of one chain to the head of another joins them. */
  lemma JoinChains(fat: Fat, n: nat, cs: seq<nat>, ds: seq<nat>)
    requires Shape(fat, n) && IsChain(fat, n, cs) && IsChain(fat, n, ds) && Disjoint(cs, ds)
    ensures IsChain(fat[cs[|cs| - 1] := ds[0]], n, cs + ds)
  {
    var fat', es := fat[cs[|cs| - 1] := ds[0]], cs + ds;
    forall i | 0 <= i < |es| ensures es[i] == if i < |cs| then cs[i] else ds[i - |cs|] {}
    assert forall i :: 0 <= i < |cs| ==> cs[i] in cs;
    assert forall i :: 0 <= i < |ds| ==> ds[i] in ds;
    assert Distinct(es);
    forall i | 0 <= i < |es| - 1 ensures fat'[es[i]] == es[i + 1] {
      if i < |cs| - 1 {
        assert cs[i] != cs[|cs| - 1];
      } else if i >= |cs| {
        assert ds[i - |cs|] !in cs;
      }
    }
    assert es[|es| - 1] == ds[|ds| - 1] && ds[|ds| - 1] !in cs;
  }

  /** Marking cluster `k - 1` of a chain as its end cuts it into two chains. */
  lemma CutChain(fat: Fat, n: nat, cs: seq<nat>, k: nat)
    requires Shape(fat, n) && IsChain(fat, n, cs) && 1 <= k < |cs|
    ensures IsChain(fat[cs[k - 1] := EOF], n, cs[..k])
    ensures IsChain(fat[cs[k - 1] := EOF], n, cs[k..])
  {
    var fat', hd, tl := fat[cs[k - 1] := EOF], cs[..k], cs[k..];
    forall i | 0 <= i < |hd| - 1 ensures fat'[hd[i]] == hd[i + 1] {
      assert cs[i] != cs[k - 1];
    }
    assert hd[|hd| - 1] == cs[k - 1];
    forall i | 0 <= i < |tl| ensures tl[i] == cs[k + i] && fat'[tl[i]] == fat[cs[k + i]] {
      assert cs[k - 1] != cs[k + i];
    }
    forall i | 0 <= i < |tl| - 1 ensures fat'[tl[i]] == tl[i + 1] {
      assert fat[cs[k + i]] == cs[k + i + 1];
    }
    assert tl[|tl| - 1] == cs[|cs| - 1];
  }

  // ---------------------------------------------------------------- releasing a chain

  function IsLink(c: nat): bool {
    2 <= c < EOF
  }

  /** The number reached from `c` by following `k` links. */
  ghost function Follow(fat: Fat, c: nat, k: nat): nat {
    if k == 0 then c
    else
      var p := Follow(fat, c, k - 1);
      if IsLink(p) && p < |fat| then fat[p] else p
  }

  ghost predicate Reached(fat: Fat, c: nat, x: nat) {
    exists k: nat :: Follow(fat, c, k) == x
  }

  lemma {:induction false} FollowCompose(fat: Fat, c: nat, j: nat, k: nat)
    ensures Follow(fat, Follow(fat, c, j), k) == Follow(fat, c, j + k)
  {
    if k != 0 {
      FollowCompose(fat, c, j, k - 1);
    }
  }

  lemma {:induction false} FollowStuck(fat: Fat, c: nat, k: nat)
    requires !(IsLink(c) && c < |fat|)
    ensures Follow(fat, c, k) == c
  {
    if k != 0 {
      FollowStuck(fat, c, k - 1);
    }
  }

  /** A walk that does not pass through `c` does not depend on its entry. */
  lemma {:induction false} FollowAvoids(fat: Fat, fat': Fat, c: nat, p: nat, k: nat)
    requires |fat| == |fat'| && forall i :: 0 <= i < |fat| && i != c ==> fat[i] == fat'[i]
    requires forall i :: 0 <= i < k ==> Follow(fat, p, i) != c
    ensures Follow(fat', p, k) == Follow(fat, p, k)
  {
    if k != 0 {
      FollowAvoids(fat, fat', c, p, k - 1);
      assert Follow(fat, p, k - 1) != c;
    }
  }

  /** What is reached from `c`, other than `c`, is reached from its successor even after `c` has
      been freed: a walk that comes back to `c` can be shortened. */
  lemma {:induction false} ReachedAfterFreeing(fat: Fat, c: nat, x: nat, k: nat)
    requires IsLink(c) && c < |fat| && x != c && Follow(fat, c, k) == x
    ensures Reached(fat[c := FREE], fat[c], x)
  {
    assert k != 0;
    assert Follow(fat, c, 1) == fat[c] by { assert Follow(fat, c, 0) == c; }
    FollowCompose(fat, c, 1, k - 1);
    if i :| 0 <= i < k - 1 && Follow(fat, fat[c], i) == c {
      FollowCompose(fat, c, 1, i);
      FollowCompose(fat, c, i + 1, k - 1 - i);
      ReachedAfterFreeing(fat, c, x, k - 1 - i);
    } else {
      FollowAvoids(fat, fat[c := FREE], c, fat[c], k - 1);
    }
  }

  /** Conversely, freeing `c` reaches nothing new. */
  lemma {:induction false} ReachedBeforeFreeing(fat: Fat, c: nat, x: nat, k: nat)
    requires IsLink(c) && c < |fat| && 2 <= x && Follow(fat[c := FREE], fat[c], k) == x
    ensures Reached(fat, c, x)
  {
    var fat' := fat[c := FREE];
    assert Follow(fat, c, 1) == fat[c] by { assert Follow(fat, c, 0) == c; }
    if i :| 0 <= i < k && Follow(fat', fat[c], i) == c {
      assert Follow(fat', fat[c], i + 1) == FREE;
      FollowCompose(fat', fat[c], i + 1, k - i - 1);
      FollowStuck(fat', FREE, k - i - 1);
      assert false;
    } else {
      FollowAvoids(fat', fat, c, fat[c], k);
      FollowCompose(fat, c, 1, k);
    }
  }

  /** Every link followed from `c` is an end mark or a number below `n`. */
  ghost predicate WalkInRange(fat: Fat, n: nat, c: nat) {
    forall k: nat :: Follow(fat, c, k) < n || Follow(fat, c, k) >= EOF
  }

  lemma WalkInRangeStep(fat: Fat, n: nat, c: nat)
    requires Shape(fat, n) && WalkInRange(fat, n, c) && IsLink(c)
    ensures c < n && WalkInRange(fat[c := FREE], n, fat[c])
  {
    assert Follow(fat, c, 0) == c;
    var fat' := fat[c := FREE];
    forall k: nat ensures Follow(fat', fat[c], k) < n || Follow(fat', fat[c], k) >= EOF {
      var x := Follow(fat', fat[c], k);
      if 2 <= x { ReachedBeforeFreeing(fat, c, x, k); }
    }
  }

  /** What the release loop started at `c` leaves behind. */
  ghost function Release(fat: Fat, n: nat, c: nat): (r: Fat)
    requires Shape(fat, n) && WalkInRange(fat, n, c)
    ensures |r| == |fat|
    decreases n - CountFree(fat, 2, n), if IsLink(c) then 1 else 0
  {
    if !IsLink(c) then fat
    else
      WalkInRangeStep(fat, n, c);
      var next, fat' := fat[c], fat[c := FREE];
      CountFreeUpdate(fat, 2, n, c, FREE);
      CountFreeBound(fat', 2, n);
      if next >= EOF then fat' else Release(fat', n, next)
  }

  /** How many iterations the loop makes, which is how far it raises the free count. */
  ghost function ReleaseSteps(fat: Fat, n: nat, c: nat): nat
    requires Shape(fat, n) && WalkInRange(fat, n, c)
    decreases n - CountFree(fat, 2, n), if IsLink(c) then 1 else 0
  {
    if !IsLink(c) then 0
    else
      WalkInRangeStep(fat, n, c);
      var next, fat' := fat[c], fat[c := FREE];
      CountFreeUpdate(fat, 2, n, c, FREE);
      CountFreeBound(fat', 2, n);
      1 + if next >= EOF then 0 else ReleaseSteps(fat', n, next)
  }

  lemma {:induction false} CountFreeBound(fat: Fat, lo: nat, hi: nat)
    requires hi <= |fat|
    ensures CountFree(fat, lo, hi) <= if lo <= hi then hi - lo else 0
    decreases hi - lo
  {
    if lo < hi {
      CountFreeBound(fat, lo + 1, hi);
    }
  }

  /** On every table whose walked links are in range, cyclic ones included, the release loop ends and frees
      exactly the clusters reached from its start. */
  lemma {:induction false} ReleaseFreesReached(fat: Fat, n: nat, c: nat, x: nat)
    requires Shape(fat, n) && WalkInRange(fat, n, c) && 2 <= x < n
    ensures Release(fat, n, c)[x] == if Reached(fat, c, x) then FREE else fat[x]
    decreases n - CountFree(fat, 2, n), if IsLink(c) then 1 else 0
  {
    if !IsLink(c) {
      forall k: nat ensures Follow(fat, c, k) == c { FollowStuck(fat, c, k); }
    } else {
      WalkInRangeStep(fat, n, c);
      var next, fat' := fat[c], fat[c := FREE];
      assert Follow(fat, c, 0) == c;
      CountFreeUpdate(fat, 2, n, c, FREE);
      CountFreeBound(fat', 2, n);
      if next >= EOF {
        forall k: nat ensures Follow(fat', next, k) == next { FollowStuck(fat', next, k); }
      } else {
        ReleaseFreesReached(fat', n, next, x);
      }
      if k: nat :| Follow(fat, c, k) == x && x != c {
        ReachedAfterFreeing(fat, c, x, k);
      }
      if k: nat :| Follow(fat', next, k) == x {
        ReachedBeforeFreeing(fat, c, x, k);
      }
    }
  }

  /** The walk from `c` leaves the table: at an end mark, at the reserved value 1, or at once. */
  ghost predicate LeavesTable(fat: Fat, c: nat) {
    exists k: nat :: Follow(fat, c, k) >= EOF || Follow(fat, c, k) == 1 || (k == 0 && Follow(fat, c, k) == FREE)
  }

  lemma LeavesTableStep(fat: Fat, n: nat, c: nat)
    requires Shape(fat, n) && WalkInRange(fat, n, c) && 2 <= c < n
    ensures LeavesTable(fat, c) <==> fat[c] != FREE && LeavesTable(fat[c := FREE], fat[c])
  {
    var fat', next := fat[c := FREE], fat[c];
    assert Follow(fat, c, 0) == c && Follow(fat, c, 1) == next;
    if k: nat :| Follow(fat, c, k) >= EOF || Follow(fat, c, k) == 1 {
      ReachedAfterFreeing(fat, c, Follow(fat, c, k), k);
      if next == FREE {
        FollowCompose(fat, c, 1, k - 1);
        FollowStuck(fat, FREE, k - 1);
      }
    }
    if next != FREE && LeavesTable(fat', next) {
      var k: nat :| Follow(fat', next, k) >= EOF || Follow(fat', next, k) == 1 ||
                    (k == 0 && Follow(fat', next, k) == FREE);
      LeavesBeforeFreeing(fat, c, k);
    }
  }

  lemma LeavesBeforeFreeing(fat: Fat, c: nat, k: nat)
    requires IsLink(c) && c < |fat|
    requires Follow(fat[c := FREE], fat[c], k) >= EOF || Follow(fat[c := FREE], fat[c], k) == 1
    ensures LeavesTable(fat, c)
  {
    var fat' := fat[c := FREE];
    assert Follow(fat, c, 1) == fat[c] by { assert Follow(fat, c, 0) == c; }
    if i :| 0 <= i < k && Follow(fat', fat[c], i) == c {
      assert Follow(fat', fat[c], i + 1) == FREE;
      FollowCompose(fat', fat[c], i + 1, k - i - 1);
      FollowStuck(fat', FREE, k - i - 1);
      assert false;
    } else {
      FollowAvoids(fat', fat, c, fat[c], k);
      FollowCompose(fat, c, 1, k);
    }
  }

  /** The free count stays exact across a release if and only if the walk leaves the table; a cycle
      or a free cluster on the way is counted once too often. */
  lemma {:induction false} ReleaseCountExactIff(fat: Fat, n: nat, c: nat)
    requires Shape(fat, n) && WalkInRange(fat, n, c)
    ensures var freed := CountFree(Release(fat, n, c), 2, n) - CountFree(fat, 2, n);
            ReleaseSteps(fat, n, c) == freed + if LeavesTable(fat, c) then 0 else 1
    decreases n - CountFree(fat, 2, n), if IsLink(c) then 1 else 0
  {
    if !IsLink(c) {
      assert Follow(fat, c, 0) == c;
    } else {
      WalkInRangeStep(fat, n, c);
      var next, fat' := fat[c], fat[c := FREE];
      CountFreeUpdate(fat, 2, n, c, FREE);
      CountFreeBound(fat', 2, n);
      LeavesTableStep(fat, n, c);
      if next >= EOF {
        assert Follow(fat', next, 0) == next;
      } else {
        ReleaseCountExactIff(fat', n, next);
        if next == FREE { assert Follow(fat', next, 0) == next; }
      }
    }
  }

  /** Two clusters that name each other, in a table of 128 entries with the rest in use: releasing them
      frees two entries and counts three. */
  lemma CycleCountedTwice()
    ensures var fat: Fat := seq(128, c => if c == 2 then 3 else if c == 3 then 2 else EOF);
            && Shape(fat, 128) && WalkInRange(fat, 128, 2)
            && CountFree(Release(fat, 128, 2), 2, 128) - CountFree(fat, 2, 128) == 2 && ReleaseSteps(fat, 128, 2) == 3
  {
    var fat: Fat := seq(128, c => if c == 2 then 3 else if c == 3 then 2 else EOF);
    forall k: nat ensures Follow(fat, 2, k) == 2 + k % 2 { CycleFollow(fat, k); }
    assert WalkInRange(fat, 128, 2) && !LeavesTable(fat, 2);
    ReleaseCountExactIff(fat, 128, 2);
    ReleaseCycle(fat);
  }

  lemma {:induction false} CycleFollow(fat: Fat, k: nat)
    requires |fat| > 3 && fat[2] == 3 && fat[3] == 2
    ensures Follow(fat, 2, k) == 2 + k % 2
  {
    if k > 0 { CycleFollow(fat, k - 1); }
  }

  lemma ReleaseCycle(fat: Fat)
    requires Shape(fat, 128) && fat[2] == 3 && fat[3] == 2 && WalkInRange(fat, 128, 2)
    ensures ReleaseSteps(fat, 128, 2) == 3
  {
    var fat1, fat2 := fat[2 := FREE], fat[2 := FREE][3 := FREE];
    WalkInRangeStep(fat, 128, 2);
    WalkInRangeStep(fat1, 128, 3);
    WalkInRangeStep(fat2, 128, 2);
    assert fat2[2] == FREE;
    assert ReleaseSteps(fat2[2 := FREE], 128, FREE) == 0;
    assert ReleaseSteps(fat2, 128, 2) == 1;
    assert ReleaseSteps(fat1, 128, 3) == 2;
  }

  /** Following a chain visits its clusters in order and then rests on its end mark. */
  lemma {:induction false} FollowChain(fat: Fat, n: nat, cs: seq<nat>, k: nat)
    requires Shape(fat, n) && IsChain(fat, n, cs)
    ensures Follow(fat, cs[0], k) == if k < |cs| then cs[k] else fat[cs[|cs| - 1]]
  {
    if k != 0 {
      FollowChain(fat, n, cs, k - 1);
      if k < |cs| { assert fat[cs[k - 1]] == cs[k]; }
    }
  }

  lemma ChainInRange(fat: Fat, n: nat, cs: seq<nat>)
    requires Shape(fat, n) && IsChain(fat, n, cs)
    ensures WalkInRange(fat, n, cs[0])
  {
    forall k: nat ensures Follow(fat, cs[0], k) < n || Follow(fat, cs[0], k) >= EOF {
      FollowChain(fat, n, cs, k);
    }
  }

  /** Releasing a chain frees its clusters and no other entry, one iteration per cluster. */
  lemma {:induction false} ReleaseOfChain(fat: Fat, n: nat, cs: seq<nat>)
    requires Shape(fat, n) && IsChain(fat, n, cs)
    ensures WalkInRange(fat, n, cs[0])
    ensures var r := Release(fat, n, cs[0]);
            forall x :: 0 <= x < |fat| ==> r[x] == if x in cs then FREE else fat[x]
    ensures ReleaseSteps(fat, n, cs[0]) == |cs|
    decreases |cs|
  {
    var c, fat' := cs[0], fat[cs[0] := FREE];
    HeadLink(fat, n, cs);
    ChainInRange(fat, n, cs);
    ReleaseUnfold(fat, n, c);
    if |cs| > 1 {
      var tl := cs[1..];
      TailIsChain(fat, n, cs);
      assert cs == [c] + tl && c !in tl;
      hide Release, ReleaseSteps, IsChain;
      ChainFrame(fat, fat', n, tl);
      ReleaseOfChain(fat', n, tl);
    }
  }

  lemma ReleaseUnfold(fat: Fat, n: nat, c: nat)
    requires Shape(fat, n) && WalkInRange(fat, n, c) && 2 <= c < n
    ensures var fat' := fat[c := FREE];
            WalkInRange(fat', n, fat[c]) &&
            if fat[c] >= EOF then Release(fat, n, c) == fat' && ReleaseSteps(fat, n, c) == 1
            else Release(fat, n, c) == Release(fat', n, fat[c]) &&
                 ReleaseSteps(fat, n, c) == 1 + ReleaseSteps(fat', n, fat[c])
  {
    WalkInRangeStep(fat, n, c);
  }
}
