/** File contents on top of cluster chains: what overwriting and appending do to an abstract volume,
    following the driver's control flow, and what a reader of the chain gets to see afterwards. */
module FileData {
  import opened Arith
  import opened Bytes
  import opened FatTable

  /** Table, cluster contents, search hint and free count of a volume. */
  datatype Vol = Vol(fat: Fat, data: seq<seq<byte>>, hint: nat, free: nat)

  ghost predicate Sound(v: Vol, n: nat, cl: nat) {
    && Shape(v.fat, n) && |v.data| == n && 0 < cl
    && (forall c :: 2 <= c < n ==> |v.data[c]| == cl)
  }

  ghost predicate CountExact(v: Vol, n: nat)
    requires n <= |v.fat|
  {
    v.free == UNKNOWN || v.free == CountFree(v.fat, 2, n)
  }

  // ---------------------------------------------------------------- reading a chain

  function Get(data: seq<seq<byte>>, c: nat): seq<byte> {
    if c < |data| then data[c] else []
  }

  /** The bytes of a chain of clusters, in order. */
  ghost function Concat(data: seq<seq<byte>>, cs: seq<nat>): seq<byte>
    decreases |cs|
  {
    if cs == [] then [] else Concat(data, cs[..|cs| - 1]) + Get(data, cs[|cs| - 1])
  }

  lemma {:induction false} ConcatSplit(data: seq<seq<byte>>, cs: seq<nat>, ds: seq<nat>)
    ensures Concat(data, cs + ds) == Concat(data, cs) + Concat(data, ds)
    decreases |ds|
  {
    if ds == [] {
      assert cs + ds == cs;
    } else {
      var init, last, es := ds[..|ds| - 1], Get(data, ds[|ds| - 1]), cs + ds;
      assert es[..|es| - 1] == cs + init && es[|es| - 1] == ds[|ds| - 1];
      ConcatSplit(data, cs, init);
      hide Get;
      var x, y := Concat(data, cs), Concat(data, init);
      assert Concat(data, es) == (x + y) + last;
      assert (x + y) + last == x + (y + last);
    }
  }

  lemma {:induction false} ConcatFrame(data: seq<seq<byte>>, data': seq<seq<byte>>, cs: seq<nat>)
    requires forall i :: 0 <= i < |cs| ==> Get(data, cs[i]) == Get(data', cs[i])
    ensures Concat(data, cs) == Concat(data', cs)
    decreases |cs|
  {
    if cs != [] {
      ConcatFrame(data, data', cs[..|cs| - 1]);
    }
  }

  lemma {:induction false} ConcatLength(data: seq<seq<byte>>, cs: seq<nat>, cl: nat)
    requires forall i :: 0 <= i < |cs| ==> |Get(data, cs[i])| == cl
    ensures |Concat(data, cs)| == |cs| * cl
    decreases |cs|
  {
    if cs != [] {
      ConcatLength(data, cs[..|cs| - 1], cl);
      assert |cs| * cl == (|cs| - 1) * cl + cl;
    }
  }

  lemma ConcatOne(data: seq<seq<byte>>, c: nat)
    ensures Concat(data, [c]) == Get(data, c)
  {
    assert [c][..0] == [];
  }

  /** What reading a file of `size` bytes returns: the chain's bytes up to the size, fewer when the
      chain is shorter. */
  ghost function Content(data: seq<seq<byte>>, cs: seq<nat>, size: nat): seq<byte> {
    var all := Concat(data, cs);
    if size < |all| then all[..size] else all
  }

  /** The number of clusters that `size` bytes fill. */
  function Clusters(size: nat, cl: nat): nat
    requires 0 < cl
  {
    (size + cl - 1) / cl
  }

  lemma ClustersBounds(size: nat, cl: nat)
    requires 0 < cl
    ensures size <= Clusters(size, cl) * cl < size + cl
  {
    var x := size + cl - 1;
    assert x == cl * (x / cl) + x % cl;
    assert cl * (x / cl) == (x / cl) * cl;
  }

  lemma ClustersUnique(size: nat, cl: nat, k: nat)
    requires 0 < cl && size <= k * cl < size + cl
    ensures k == Clusters(size, cl)
  {
    var m := Clusters(size, cl);
    ClustersBounds(size, cl);
    if k < m { MulMono(k, m, cl); } else if m < k { MulMono(m, k, cl); }
  }

  // ---------------------------------------------------------------- allocation

  /** One allocation, as `AllocCluster` performs it; the result is 0 on a full volume. */
  ghost function Alloc(v: Vol, n: nat): (r: (Vol, nat))
    requires Shape(v.fat, n)
    ensures r.1 != 0 ==> 2 <= r.1 < n && v.fat[r.1] == FREE && r.0.fat == v.fat[r.1 := EOF]
    ensures r.1 == 0 <==> !HasFree(v.fat, n)
    ensures r.0.data == v.data && (r.1 == 0 ==> r.0 == v)
  {
    AllocIsNearestFree(v.fat, n, v.hint);
    var r := AllocResult(v.fat, n, v.hint);
    if r == 0 then (v, 0)
    else (v.(fat := v.fat[r := EOF], hint := r + 1,
             free := if v.free != UNKNOWN && v.free > 0 then v.free - 1 else v.free), r)
  }

  lemma AllocKeepsCount(v: Vol, n: nat)
    requires Shape(v.fat, n) && CountExact(v, n)
    ensures CountExact(Alloc(v, n).0, n)
  {
    var (v', r) := Alloc(v, n);
    if r != 0 { CountFreeUpdate(v.fat, 2, n, r, EOF); }
  }

  /** The next `k` allocations, up to one that finds the volume full, all begin with a safe hint. */
  ghost predicate HintsStaySafe(v: Vol, n: nat, k: nat)
    requires Shape(v.fat, n)
    decreases k
  {
    k == 0 ||
    (HintSafe(v.fat, n, v.hint) && (Alloc(v, n).1 == 0 || HintsStaySafe(Alloc(v, n).0, n, k - 1)))
  }

  /** Where the next search meets its first cluster of the volume. */
  function SearchFrom(hint: nat, n: nat): nat {
    if SearchStart(hint) < n then SearchStart(hint) else 2
  }

  /** The same condition, ready to be checked.  The hint is safe, and either the last cluster of the volume is
      taken, or there are enough free clusters between the hint and the end, or the hint that the last
      cluster leaves is safe because the padding entry behind it is in use and a cluster in front is free. */
  ghost predicate Room(v: Vol, n: nat, k: nat)
    requires Shape(v.fat, n)
  {
    var from := SearchFrom(v.hint, n);
    k == 0 ||
    (&& HintSafe(v.fat, n, v.hint)
     && (|| v.fat[n - 1] != FREE
         || CountFree(v.fat, from, n) >= k
         || (n < |v.fat| && v.fat[n] != FREE && CountFree(v.fat, 2, from) > 0)))
  }

  /** What an allocation leaves, when it takes the cluster `r`. */
  lemma AllocIs(v: Vol, n: nat) returns (r: nat)
    requires Shape(v.fat, n) && HasFree(v.fat, n)
    ensures var v', from := Alloc(v, n).0, SearchFrom(v.hint, n);
            && 2 <= r < n && v.fat[r] == FREE && v'.fat == v.fat[r := EOF] && v'.hint == r + 1
            && 2 <= from < n
            && (if from <= r then forall c :: from <= c < r ==> v.fat[c] != FREE
                else forall c :: from <= c < n ==> v.fat[c] != FREE)
  {
    r := Alloc(v, n).1;
    AllocIsNearestFree(v.fat, n, v.hint);
  }

  lemma RoomStep(v: Vol, n: nat, k: nat)
    requires Shape(v.fat, n) && 0 < k && HintSafe(v.fat, n, v.hint) && HasFree(v.fat, n)
    ensures Room(v, n, k) <==> Room(Alloc(v, n).0, n, k - 1)
  {
    var v', from := Alloc(v, n).0, SearchFrom(v.hint, n);
    var r := AllocIs(v, n);
    hide Alloc, HasFree;
    assert r + 1 < UNKNOWN;
    if from <= r {
      TakenAhead(v.fat, n, from, r);
      FreeSomewhere(v'.fat, n);
    }
  }

  /** The free clusters around a search that takes the first free cluster ahead of it. */
  lemma TakenAhead(fat: Fat, n: nat, from: nat, r: nat)
    requires Shape(fat, n) && 2 <= from <= r < n && fat[r] == FREE && forall c :: from <= c < r ==> fat[c] != FREE
    ensures var fat' := fat[r := EOF];
            && CountFree(fat', r + 1, n) == CountFree(fat, from, n) - 1
            && CountFree(fat', 2, r + 1) == CountFree(fat, 2, from)
            && (r == n - 1 ==> CountFree(fat, from, n) == 1 && CountFree(fat', 2, n) == CountFree(fat, 2, from))
  {
    var fat' := fat[r := EOF];
    CountFreeSplit(fat, from, r, n);
    CountFreeZero(fat, from, r);
    CountFreeFrame(fat, fat', r + 1, n);
    CountFreeSplit(fat', 2, r, r + 1);
    CountFreeSplit(fat', 2, from, r);
    CountFreeZero(fat', from, r);
    CountFreeFrame(fat, fat', 2, from);
  }

  lemma FreeSomewhere(fat: Fat, n: nat)
    requires Shape(fat, n)
    ensures HasFree(fat, n) <==> CountFree(fat, 2, n) > 0
  {
    CountFreeZero(fat, 2, n);
  }

  /** The checkable condition is exact. */
  lemma {:induction false} RoomIff(v: Vol, n: nat, k: nat)
    requires Shape(v.fat, n)
    ensures Room(v, n, k) <==> HintsStaySafe(v, n, k)
    decreases k
  {
    if k != 0 && HintSafe(v.fat, n, v.hint) {
      if HasFree(v.fat, n) {
        RoomStep(v, n, k);
        RoomIff(Alloc(v, n).0, n, k - 1);
      }
    }
  }

  /** Only which entries are free matters. */
  lemma RoomFrame(v: Vol, v': Vol, n: nat, k: nat)
    requires Shape(v.fat, n) && Shape(v'.fat, n) && v.hint == v'.hint && |v'.fat| == |v.fat|
    requires forall c :: 2 <= c < |v.fat| ==> (v.fat[c] == FREE <==> v'.fat[c] == FREE)
    ensures Room(v, n, k) == Room(v', n, k)
  {
    CountFreeFrame(v.fat, v'.fat, SearchFrom(v.hint, n), n);
    CountFreeFrame(v.fat, v'.fat, 2, SearchFrom(v.hint, n));
  }

  /** Allocating a cluster and linking it behind the tail of a chain. */
  ghost function Extend(v: Vol, n: nat, cs: seq<nat>): (r: (Vol, nat))
    requires Shape(v.fat, n) && IsChain(v.fat, n, cs)
    ensures r.0.data == v.data && Shape(r.0.fat, n)
    ensures r.1 == 0 <==> !HasFree(v.fat, n)
    ensures r.1 == 0 ==> r.0 == v
    ensures r.1 != 0 ==>
              && 2 <= r.1 < n && v.fat[r.1] == FREE && r.1 !in cs
              && IsChain(r.0.fat, n, cs + [r.1])
              && r.0.fat == v.fat[r.1 := EOF][cs[|cs| - 1] := r.1]
  {
    var (v1, r) := Alloc(v, n);
    if r == 0 then (v1, 0)
    else
      ExtendIsChain(v.fat, n, cs, r);
      (v1.(fat := v1.fat[cs[|cs| - 1] := r]), r)
  }

  /** Extending, spelled out. */
  lemma ExtendIs(v: Vol, n: nat, cs: seq<nat>)
    requires Shape(v.fat, n) && IsChain(v.fat, n, cs)
    ensures var r, tail := AllocResult(v.fat, n, v.hint), cs[|cs| - 1];
            && tail < n
            && Extend(v, n, cs) ==
               if r == 0 then (v, 0)
               else (Vol(v.fat[r := EOF][tail := r], v.data, r + 1,
                         if v.free != UNKNOWN && v.free > 0 then v.free - 1 else v.free), r)
  {
    hide AllocResult;
  }

  lemma ExtendIsChain(fat: Fat, n: nat, cs: seq<nat>, r: nat)
    requires Shape(fat, n) && IsChain(fat, n, cs) && 2 <= r < n && fat[r] == FREE
    ensures r !in cs
    ensures IsChain(fat[r := EOF][cs[|cs| - 1] := r], n, cs + [r])
  {
    if r in cs { UsedOnChain(fat, n, cs, r); }
    ChainFrame(fat, fat[r := EOF], n, cs);
    LinkToTail(fat[r := EOF], n, cs, r);
  }

  lemma ExtendKeeps(v: Vol, n: nat, cs: seq<nat>, k: nat)
    requires Shape(v.fat, n) && IsChain(v.fat, n, cs)
    ensures CountExact(v, n) ==> CountExact(Extend(v, n, cs).0, n)
    ensures 0 < k && Room(v, n, k) && HasFree(v.fat, n) ==> Room(Extend(v, n, cs).0, n, k - 1)
  {
    var (v1, r) := Alloc(v, n);
    if r != 0 {
      var v2, last := Extend(v, n, cs).0, cs[|cs| - 1];
      if CountExact(v, n) { AllocKeepsCount(v, n); }
      UsedOnChain(v.fat, n, cs, last);
      CountFreeUpdate(v1.fat, 2, n, last, r);
      if 0 < k && Room(v, n, k) {
        RoomStep(v, n, k);
        RoomFrame(v1, v2, n, k - 1);
      }
    }
  }
}
