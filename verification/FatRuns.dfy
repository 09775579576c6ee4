/** Runs of the table-changing steps of the driver: allocate a cluster, link a chain behind the tail
    of another, cut a chain, release a chain.  Every run keeps the table a set of disjoint acyclic
    chains and a known free count exact. */
module FatRuns {
  import opened Basics
  import opened FatTable

  /** The table together with the chains a reader would find in it. */
  datatype Table = Table(fat: Fat, n: nat, hint: nat, free: nat, chains: seq<seq<nat>>)

  datatype Op =
    | Allocate
    | Link(front: nat, back: nat)
    | Cut(chain: nat, keep: nat)
    | Free(chain: nat)

  ghost predicate ChainsHold(t: Table) {
    && Shape(t.fat, t.n)
    && (forall i :: 0 <= i < |t.chains| && t.chains[i] != [] ==> IsChain(t.fat, t.n, t.chains[i]))
    && AllDisjoint(t.chains)
  }

  ghost predicate AllDisjoint(chains: seq<seq<nat>>) {
    forall i, j :: 0 <= i < |chains| && 0 <= j < |chains| && i != j ==> Disjoint(chains[i], chains[j])
  }

  lemma JoinStaysDisjoint(chains: seq<seq<nat>>, i: nat, j: nat)
    requires AllDisjoint(chains) && i < |chains| && j < |chains| && i != j
    ensures AllDisjoint(chains[i := chains[i] + chains[j]][j := []])
  {
    var chains' := chains[i := chains[i] + chains[j]][j := []];
    forall a, b | 0 <= a < |chains| && 0 <= b < |chains| && a != b ensures Disjoint(chains'[a], chains'[b]) {
      forall x | x in chains'[a] ensures x !in chains'[b] {
        var a0 := if a == i && x in chains[j] then j else a;
        assert x in chains[a0];
        assert b == i ==> Disjoint(chains[a0], chains[i]) && Disjoint(chains[a0], chains[j]);
      }
    }
  }

  lemma CutStaysDisjoint(chains: seq<seq<nat>>, i: nat, k: nat)
    requires AllDisjoint(chains) && i < |chains| && k <= |chains[i]| && Distinct(chains[i])
    ensures AllDisjoint(chains[i := chains[i][..k]] + [chains[i][k..]])
  {
    var chains' := chains[i := chains[i][..k]] + [chains[i][k..]];
    var from := (a: int) => if a == |chains| then i else a;
    forall a, b | 0 <= a < |chains'| && 0 <= b < |chains'| && a != b ensures Disjoint(chains'[a], chains'[b]) {
      assert forall x :: x in chains'[a] ==> x in chains[from(a)];
      assert forall x :: x in chains'[b] ==> x in chains[from(b)];
      if from(a) != from(b) { assert Disjoint(chains[from(a)], chains[from(b)]); }
    }
  }

  /** Every entry of the volume is free, marked bad, or on one of the chains. */
  ghost predicate Covered(t: Table)
    requires t.n <= |t.fat|
  {
    forall c :: 2 <= c < t.n ==> t.fat[c] == FREE || t.fat[c] == BAD || OnSome(t.chains, c)
  }

  ghost predicate OnSome(chains: seq<seq<nat>>, c: nat) {
    exists i :: 0 <= i < |chains| && c in chains[i]
  }

  ghost predicate CountHolds(t: Table)
    requires t.n <= |t.fat|
  {
    t.free == UNKNOWN || t.free == CountFree(t.fat, 2, t.n)
  }

  ghost predicate Inv(t: Table) {
    ChainsHold(t) && Covered(t) && CountHolds(t)
  }

  /** Allocation needs a safe hint; the other steps name existing chains. */
  ghost predicate Enabled(t: Table, op: Op)
    requires Inv(t)
  {
    match op
    case Allocate => HintSafe(t.fat, t.n, t.hint)
    case Link(i, j) => i < |t.chains| && j < |t.chains| && i != j && t.chains[i] != [] && t.chains[j] != []
    case Cut(i, k) => i < |t.chains| && 1 <= k < |t.chains[i]|
    case Free(i) => i < |t.chains| && t.chains[i] != []
  }

  ghost function Step(t: Table, op: Op): Table
    requires Inv(t) && Enabled(t, op)
  {
    match op
    case Allocate =>
      var r := AllocResult(t.fat, t.n, t.hint);
      AllocIsNearestFree(t.fat, t.n, t.hint);
      if r == 0 then t
      else t.(fat := t.fat[r := EOF],
              hint := r + 1,
              free := if t.free != UNKNOWN && t.free > 0 then t.free - 1 else t.free,
              chains := t.chains + [[r]])
    case Link(i, j) =>
      var ci, cj := t.chains[i], t.chains[j];
      t.(fat := t.fat[ci[|ci| - 1] := cj[0]], chains := t.chains[i := ci + cj][j := []])
    case Cut(i, k) =>
      var ci := t.chains[i];
      t.(fat := t.fat[ci[k - 1] := EOF], chains := t.chains[i := ci[..k]] + [ci[k..]])
    case Free(i) =>
      var c := t.chains[i][0];
      ChainInRange(t.fat, t.n, t.chains[i]);
      t.(fat := Release(t.fat, t.n, c),
         free := if t.free != UNKNOWN then t.free + ReleaseSteps(t.fat, t.n, c) else t.free,
         chains := t.chains[i := []])
  }

  /** A step that changes only entry `c0` keeps every chain it does not touch. */
  lemma UntouchedChain(t: Table, fat': Fat, m: nat, c0: nat, v: nat)
    requires Inv(t) && m < |t.chains| && t.chains[m] != [] && c0 !in t.chains[m]
    requires c0 < |t.fat| && fat' == t.fat[c0 := v]
    ensures IsChain(fat', t.n, t.chains[m])
  {
    assert IsChain(t.fat, t.n, t.chains[m]);
    ChainFrame(t.fat, fat', t.n, t.chains[m]);
  }

  /** ... and keeps the cover as long as no cluster falls off the chains. */
  lemma StillCovered(t: Table, t': Table, c0: nat, v: nat)
    requires Inv(t) && t'.n == t.n && c0 < |t.fat| && t'.fat == t.fat[c0 := v]
    requires OnSome(t'.chains, c0)
    requires forall c :: OnSome(t.chains, c) ==> OnSome(t'.chains, c)
    ensures Covered(t')
  {
  }

  lemma AllocateKeeps(t: Table)
    requires Inv(t) && Enabled(t, Allocate)
    ensures Inv(Step(t, Allocate))
  {
    var r, t' := AllocResult(t.fat, t.n, t.hint), Step(t, Allocate);
    AllocIsNearestFree(t.fat, t.n, t.hint);
    if r != 0 {
      CountFreeUpdate(t.fat, 2, t.n, r, EOF);
      FreshChain(t.fat, t.n, r);
      forall i | 0 <= i < |t.chains| ensures r !in t.chains[i] {
        if r in t.chains[i] { UsedOnChain(t.fat, t.n, t.chains[i], r); }
      }
      hide IsChain, AllocResult, HintSafe;
      forall i | 0 <= i < |t.chains| && t.chains[i] != [] ensures IsChain(t'.fat, t.n, t.chains[i]) {
        UntouchedChain(t, t'.fat, i, r, EOF);
      }
      assert AllDisjoint(t'.chains);
      assert r in t'.chains[|t.chains|];
      forall c | OnSome(t.chains, c) ensures OnSome(t'.chains, c) {
        var i :| 0 <= i < |t.chains| && c in t.chains[i];
        assert t'.chains[i] == t.chains[i];
      }
      StillCovered(t, t', r, EOF);
    }
  }

  lemma LinkKeeps(t: Table, i: nat, j: nat)
    requires Inv(t) && Enabled(t, Link(i, j))
    ensures Inv(Step(t, Link(i, j)))
  {
    var ci, cj, t' := t.chains[i], t.chains[j], Step(t, Link(i, j));
    var last := ci[|ci| - 1];
    JoinChains(t.fat, t.n, ci, cj);
    UsedOnChain(t.fat, t.n, ci, last);
    assert 2 <= last < t.n && 2 <= cj[0];
    CountFreeUpdate(t.fat, 2, t.n, last, cj[0]);
    hide IsChain;
    JoinStaysDisjoint(t.chains, i, j);
    forall m | 0 <= m < |t'.chains| && t'.chains[m] != [] ensures IsChain(t'.fat, t.n, t'.chains[m]) {
      if m != i {
        assert Disjoint(ci, t.chains[m]);
        UntouchedChain(t, t'.fat, m, last, cj[0]);
      }
    }
    forall c | OnSome(t.chains, c) ensures OnSome(t'.chains, c) { JoinLosesNothing(t.chains, i, j, c); }
    assert last in t'.chains[i];
    StillCovered(t, t', last, cj[0]);
  }

  lemma JoinLosesNothing(chains: seq<seq<nat>>, i: nat, j: nat, c: nat)
    requires i < |chains| && j < |chains| && i != j && OnSome(chains, c)
    ensures OnSome(chains[i := chains[i] + chains[j]][j := []], c)
  {
    var chains' := chains[i := chains[i] + chains[j]][j := []];
    var m :| 0 <= m < |chains| && c in chains[m];
    assert c in chains'[if m == j then i else m];
  }

  lemma CutLosesNothing(chains: seq<seq<nat>>, i: nat, k: nat, c: nat)
    requires i < |chains| && k <= |chains[i]| && OnSome(chains, c)
    ensures OnSome(chains[i := chains[i][..k]] + [chains[i][k..]], c)
  {
    var chains' := chains[i := chains[i][..k]] + [chains[i][k..]];
    var m :| 0 <= m < |chains| && c in chains[m];
    if m == i {
      assert chains[i] == chains[i][..k] + chains[i][k..];
      assert c in chains'[i] || c in chains'[|chains|];
    } else {
      assert c in chains'[m];
    }
  }

  lemma CutKeepsChains(t: Table, i: nat, k: nat)
    requires Inv(t) && Enabled(t, Cut(i, k))
    ensures ChainsHold(Step(t, Cut(i, k)))
  {
    var ci, t' := t.chains[i], Step(t, Cut(i, k));
    var c0 := ci[k - 1];
    CutChain(t.fat, t.n, ci, k);
    assert Distinct(ci);
    hide IsChain, Distinct;
    CutStaysDisjoint(t.chains, i, k);
    forall m | 0 <= m < |t'.chains| && t'.chains[m] != [] ensures IsChain(t'.fat, t.n, t'.chains[m]) {
      if m != i && m < |t.chains| {
        assert Disjoint(ci, t.chains[m]);
        UntouchedChain(t, t'.fat, m, c0, EOF);
      }
    }
  }

  lemma CutIs(t: Table, i: nat, k: nat) returns (c0: nat)
    requires Inv(t) && Enabled(t, Cut(i, k))
    ensures i < |t.chains| && k <= |t.chains[i]| && 2 <= c0 < t.n <= |t.fat| && t.fat[c0] != FREE
    ensures OnSome(t.chains, c0)
    ensures Step(t, Cut(i, k)) ==
            t.(fat := t.fat[c0 := EOF], chains := t.chains[i := t.chains[i][..k]] + [t.chains[i][k..]])
    ensures t.free == UNKNOWN || t.free == CountFree(t.fat, 2, t.n)
  {
    var ci := t.chains[i];
    c0 := ci[k - 1];
    UsedOnChain(t.fat, t.n, ci, c0);
    assert c0 in t.chains[i];
  }

  lemma InvIf(t: Table)
    requires ChainsHold(t) && t.n <= |t.fat| && Covered(t) && (t.free == UNKNOWN || t.free == CountFree(t.fat, 2, t.n))
    ensures Inv(t)
  {
  }

  lemma CutKeeps(t: Table, i: nat, k: nat)
    requires Inv(t) && Enabled(t, Cut(i, k))
    ensures Inv(Step(t, Cut(i, k)))
  {
    hide *;
    var t' := Step(t, Cut(i, k));
    var c0 := CutIs(t, i, k);
    CutKeepsChains(t, i, k);
    MarksDiffer();
    CountFreeUpdate(t.fat, 2, t.n, c0, EOF);
    forall c | OnSome(t.chains, c) ensures OnSome(t'.chains, c) {
      CutLosesNothing(t.chains, i, k, c);
    }
    StillCovered(t, t', c0, EOF);
    InvIf(t');
  }

  lemma MarksDiffer()
    ensures 0 <= FREE < EOF
  {
  }

  lemma FreeKeeps(t: Table, i: nat)
    requires Inv(t) && Enabled(t, Free(i))
    ensures Inv(Step(t, Free(i)))
  {
    var ci, t' := t.chains[i], Step(t, Free(i));
    ReleaseOfChain(t.fat, t.n, ci);
    forall m | 0 <= m < |t'.chains| && t'.chains[m] != [] ensures IsChain(t'.fat, t.n, t'.chains[m]) {
      assert forall c :: c in t.chains[m] ==> c !in ci;
      assert forall k :: 0 <= k < |t.chains[m]| ==> t.chains[m][k] in t.chains[m];
      ChainFrame(t.fat, t'.fat, t.n, t.chains[m]);
    }
    forall c | 2 <= c < t.n && t'.fat[c] != FREE && t'.fat[c] != BAD ensures OnSome(t'.chains, c) {
      var m :| 0 <= m < |t.chains| && c in t.chains[m];
      assert m != i;
      assert t'.chains[m] == t.chains[m];
    }
    ReleaseCountExactIff(t.fat, t.n, ci[0]);
    FollowChain(t.fat, t.n, ci, |ci|);
  }

  lemma StepKeeps(t: Table, op: Op)
    requires Inv(t) && Enabled(t, op)
    ensures Inv(Step(t, op))
  {
    match op
    case Allocate => AllocateKeeps(t);
    case Link(i, j) => LinkKeeps(t, i, j);
    case Cut(i, k) => CutKeeps(t, i, k);
    case Free(i) => FreeKeeps(t, i);
  }

  /** Every step of the run is enabled when its turn comes. */
  ghost predicate CanRun(t: Table, ops: seq<Op>)
    requires Inv(t)
    decreases |ops|
  {
    ops == [] || (Enabled(t, ops[0]) && (StepKeeps(t, ops[0]); CanRun(Step(t, ops[0]), ops[1..])))
  }

  ghost function Run(t: Table, ops: seq<Op>): Table
    requires Inv(t) && CanRun(t, ops)
    decreases |ops|
  {
    if ops == [] then t else (StepKeeps(t, ops[0]); Run(Step(t, ops[0]), ops[1..]))
  }

  /** Every run keeps the table a set of pairwise disjoint, acyclic, EOF-terminated chains that
      account for every cluster in use, and keeps a known free count equal to the number of free
      entries. */
  lemma {:induction false} RunKeeps(t: Table, ops: seq<Op>)
    requires Inv(t) && CanRun(t, ops)
    ensures Inv(Run(t, ops))
    decreases |ops|
  {
    if ops != [] {
      StepKeeps(t, ops[0]);
      RunKeeps(Step(t, ops[0]), ops[1..]);
    }
  }

  /** A chain that no step of the run names keeps its clusters, whatever the other steps do. */
  lemma {:induction false} RunFrame(t: Table, ops: seq<Op>, m: nat)
    requires Inv(t) && CanRun(t, ops) && m < |t.chains|
    requires forall op :: op in ops ==> !Names(op, m)
    ensures var t' := Run(t, ops); m < |t'.chains| && t'.chains[m] == t.chains[m]
    decreases |ops|
  {
    if ops != [] {
      assert !Names(ops[0], m);
      StepKeeps(t, ops[0]);
      RunFrame(Step(t, ops[0]), ops[1..], m);
    }
  }

  ghost predicate Names(op: Op, m: nat) {
    match op
    case Allocate => false
    case Link(i, j) => i == m || j == m
    case Cut(i, _) => i == m
    case Free(i) => i == m
  }
}
