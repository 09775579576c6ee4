/** Physical page frames: memory regions, each with one bit per frame that says whether the frame is in
    use.  `TakeFrame` and `GiveFrame` are what allocating and freeing one page do to the bits. */
module Frames {
  const PAGE: nat := 4096

  /** A memory descriptor: a run of frames from `start` on. */
  datatype Region = Region(available: bool, start: nat, used: seq<bool>)

  /** `n << 12` on a 32-bit int. */
  function ShiftPage(n: nat): int {
    var x := n * PAGE % 0x1_0000_0000;
    if x < 0x8000_0000 then x else x - 0x1_0000_0000
  }

  /** Frame numbers from 2^19 on, that is more than 2 GiB into a region, come out wrong. */
  lemma ShiftPageExactIff(n: nat)
    ensures ShiftPage(n) == n * PAGE <==> n < 0x8_0000
  {
  }

  /** No region reaches past the frames that can be addressed in it, and available regions do not
      overlap. */
  ghost predicate WellPlaced(rs: seq<Region>) {
    && (forall i :: 0 <= i < |rs| ==> Sound(rs[i]))
    && (forall i, j :: 0 <= i < j < |rs| && rs[i].available && rs[j].available ==> Disjoint(rs[i], rs[j]))
  }

  ghost predicate Sound(r: Region) {
    0 < r.start && r.start % PAGE == 0 && |r.used| <= 0x8_0000
  }

  ghost predicate Disjoint(a: Region, b: Region) {
    End(a) <= b.start || End(b) <= a.start
  }

  function End(r: Region): nat {
    r.start + PAGE * |r.used|
  }

  // ---------------------------------------------------------------- taking and giving back

  /** The first clear bit at or after `k`; the length if there is none. */
  function NextClear(bits: seq<bool>, k: nat): (r: nat)
    requires k <= |bits|
    ensures k <= r <= |bits| && (r < |bits| ==> !bits[r]) && forall j :: k <= j < r ==> bits[j]
    decreases |bits| - k
  {
    if k < |bits| && bits[k] then NextClear(bits, k + 1) else k
  }

  function Mark(r: Region, k: nat, v: bool): Region
    requires k < |r.used|
  {
    r.(used := r.used[k := v])
  }

  /** Allocation of one page, looking from region `i` on: the address is 0 when there is no free frame. */
  function TakeFrom(rs: seq<Region>, i: nat): (seq<Region>, int)
    requires i <= |rs|
    decreases |rs| - i
  {
    if i == |rs| then (rs, 0)
    else
      var k := NextClear(rs[i].used, 0);
      if rs[i].available && k < |rs[i].used| then (rs[i := Mark(rs[i], k, true)], rs[i].start + ShiftPage(k))
      else TakeFrom(rs, i + 1)
  }

  function TakeFrame(rs: seq<Region>): (seq<Region>, int) {
    TakeFrom(rs, 0)
  }

  predicate Covers(r: Region, f: int) {
    r.available && r.start <= f < End(r)
  }

  /** The first region at or after `i` that covers the address; the number of regions if none does. */
  function Find(rs: seq<Region>, f: int, i: nat): (r: nat)
    requires i <= |rs|
    ensures i <= r <= |rs| && (r < |rs| ==> Covers(rs[r], f)) && forall j :: i <= j < r ==> !Covers(rs[j], f)
    decreases |rs| - i
  {
    if i < |rs| && !Covers(rs[i], f) then Find(rs, f, i + 1) else i
  }

  /** Freeing one page. */
  function GiveFrame(rs: seq<Region>, f: int): seq<Region> {
    var i := Find(rs, f, 0);
    if i == |rs| then rs else rs[i := Mark(rs[i], (f - rs[i].start) / PAGE, false)]
  }

  // ---------------------------------------------------------------- which frames are free

  /** `f` is the address of frame `k` of region `i`. */
  ghost predicate At(rs: seq<Region>, f: int, i: nat, k: nat) {
    i < |rs| && rs[i].available && k < |rs[i].used| && f == rs[i].start + PAGE * k
  }

  ghost predicate IsFrame(rs: seq<Region>, f: int) {
    exists i: nat, k: nat :: At(rs, f, i, k)
  }

  ghost predicate Free(rs: seq<Region>, f: int) {
    exists i: nat, k: nat :: At(rs, f, i, k) && !rs[i].used[k]
  }

  lemma SlotUnique(rs: seq<Region>, f: int, i: nat, k: nat, i': nat, k': nat)
    requires WellPlaced(rs) && At(rs, f, i, k) && At(rs, f, i', k')
    ensures i == i' && k == k'
  {
    assert forall a, b :: 0 <= a < b < |rs| && rs[a].available && rs[b].available ==> Disjoint(rs[a], rs[b]);
  }

  lemma FrameFound(rs: seq<Region>, f: int, i: nat, k: nat)
    requires WellPlaced(rs) && At(rs, f, i, k)
    ensures Find(rs, f, 0) == i && (f - rs[i].start) / PAGE == k && f % PAGE == 0
  {
    assert Sound(rs[i]);
    assert Covers(rs[i], f);
    var j := Find(rs, f, 0);
    assert j < i ==> Disjoint(rs[j], rs[i]);
  }

  /** The two lists describe the same memory; only bits of available regions may differ. */
  ghost predicate SameShape(rs: seq<Region>, rs': seq<Region>) {
    |rs'| == |rs| && forall i :: 0 <= i < |rs| ==> Alike(rs[i], rs'[i])
  }

  ghost predicate Alike(r: Region, r': Region) {
    && r'.available == r.available && r'.start == r.start && |r'.used| == |r.used|
    && (!r.available ==> r' == r)
  }

  /** Setting one bit makes one frame used or free and changes nothing else. */
  lemma MarkEffect(rs: seq<Region>, i: nat, k: nat, v: bool, g: int)
    requires WellPlaced(rs) && i < |rs| && rs[i].available && k < |rs[i].used|
    ensures var f, rs' := rs[i].start + PAGE * k, rs[i := Mark(rs[i], k, v)];
            && At(rs, f, i, k) && WellPlaced(rs') && SameShape(rs, rs')
            && (IsFrame(rs', g) <==> IsFrame(rs, g))
            && (Free(rs', g) <==> if g == f then !v else Free(rs, g))
  {
    var f, rs' := rs[i].start + PAGE * k, rs[i := Mark(rs[i], k, v)];
    assert At(rs, f, i, k) && At(rs', f, i, k);
    assert forall a: nat, b: nat :: At(rs', g, a, b) <==> At(rs, g, a, b);
    assert WellPlaced(rs') by {
      forall j | 0 <= j < |rs'| ensures Sound(rs'[j]) { assert Sound(rs[j]); }
      forall a, b | 0 <= a < b < |rs'| && rs'[a].available && rs'[b].available ensures Disjoint(rs'[a], rs'[b]) {
        assert Disjoint(rs[a], rs[b]);
      }
    }
    if g == f {
      forall a: nat, b: nat | At(rs', g, a, b) ensures a == i && b == k { SlotUnique(rs', g, a, b, i, k); }
    } else {
      forall a: nat, b: nat | At(rs, g, a, b) ensures rs'[a].used[b] == rs[a].used[b] { }
    }
  }

  /** How many frames are free. */
  function Clear(bits: seq<bool>): nat {
    if bits == [] then 0 else Clear(bits[..|bits| - 1]) + if bits[|bits| - 1] then 0 else 1
  }

  function FreeCount(rs: seq<Region>): nat {
    if rs == [] then 0
    else
      var r := rs[|rs| - 1];
      FreeCount(rs[..|rs| - 1]) + if r.available then Clear(r.used) else 0
  }

  lemma {:induction false} ClearMark(bits: seq<bool>, k: nat)
    requires k < |bits| && !bits[k]
    ensures Clear(bits) == Clear(bits[k := true]) + 1
    decreases |bits|
  {
    var n := |bits| - 1;
    if k < n {
      ClearMark(bits[..n], k);
      assert bits[k := true][..n] == bits[..n][k := true];
    } else {
      assert bits[k := true][..n] == bits[..n];
    }
  }

  lemma {:induction false} ClearNone(bits: seq<bool>)
    requires forall k :: 0 <= k < |bits| ==> bits[k]
    ensures Clear(bits) == 0
    decreases |bits|
  {
    if bits != [] { ClearNone(bits[..|bits| - 1]); }
  }

  lemma {:induction false} CountMark(rs: seq<Region>, i: nat, k: nat)
    requires i < |rs| && rs[i].available && k < |rs[i].used| && !rs[i].used[k]
    ensures FreeCount(rs) == FreeCount(rs[i := Mark(rs[i], k, true)]) + 1
    decreases |rs|
  {
    var n, rs' := |rs| - 1, rs[i := Mark(rs[i], k, true)];
    if i < n {
      CountMark(rs[..n], i, k);
      assert rs'[..n] == rs[..n][i := Mark(rs[i], k, true)];
    } else {
      ClearMark(rs[i].used, k);
      assert rs'[..n] == rs[..n];
    }
  }

  lemma {:induction false} CountNone(rs: seq<Region>)
    requires forall i, k :: 0 <= i < |rs| && rs[i].available && 0 <= k < |rs[i].used| ==> rs[i].used[k]
    ensures FreeCount(rs) == 0
    decreases |rs|
  {
    if rs != [] {
      var n := |rs| - 1;
      CountNone(rs[..n]);
      if rs[n].available { ClearNone(rs[n].used); }
    }
  }

  /** What `TakeFrom` finds: the first clear bit of the first available region that has one. */
  lemma {:induction false} TakeFinds(rs: seq<Region>, i: nat) returns (j: nat, k: nat)
    requires i <= |rs|
    ensures var (rs', f) := TakeFrom(rs, i);
            && i <= j <= |rs|
            && (forall a, b :: i <= a < j && rs[a].available && 0 <= b < |rs[a].used| ==> rs[a].used[b])
            && (j == |rs| ==> rs' == rs && f == 0)
            && (j < |rs| ==> rs[j].available && k < |rs[j].used| && !rs[j].used[k] &&
                             rs' == rs[j := Mark(rs[j], k, true)] && f == rs[j].start + ShiftPage(k))
    decreases |rs| - i
  {
    if i == |rs| {
      j, k := i, 0;
    } else {
      k := NextClear(rs[i].used, 0);
      if rs[i].available && k < |rs[i].used| { j := i; } else { j, k := TakeFinds(rs, i + 1); }
    }
  }

  /** Allocating one page returns a frame that was free and now is not, and leaves every other frame as
      it was; it fails, with address 0 and no change, exactly when no frame is free. */
  lemma TakeFrameSpec(rs: seq<Region>)
    requires WellPlaced(rs)
    ensures var (rs', f) := TakeFrame(rs);
            && WellPlaced(rs') && SameShape(rs, rs')
            && (f == 0 <==> FreeCount(rs) == 0) && (f == 0 <==> forall g :: !Free(rs, g))
            && (f == 0 ==> rs' == rs)
            && (f != 0 ==> 0 < f && f % PAGE == 0 && Free(rs, f) && FreeCount(rs) == FreeCount(rs') + 1)
            && (forall g :: Free(rs', g) <==> Free(rs, g) && g != f)
            && (forall g :: IsFrame(rs', g) <==> IsFrame(rs, g))
  {
    hide *;
    var j, k := TakeFinds(rs, 0);
    TakeFrameIs(rs);
    if j == |rs| {
      CountNone(rs);
      NoneFree(rs);
    } else {
      SoundAt(rs, j);
      ShiftPageExactIff(k);
      CountMark(rs, j, k);
      TakenIs(rs, j, k);
    }
  }

  lemma TakeFrameIs(rs: seq<Region>)
    ensures TakeFrame(rs) == TakeFrom(rs, 0)
  {
  }

  lemma SoundAt(rs: seq<Region>, i: nat)
    requires WellPlaced(rs) && i < |rs|
    ensures |rs[i].used| <= 0x8_0000
  {
    assert Sound(rs[i]);
  }

  lemma NoneFree(rs: seq<Region>)
    requires forall i, k :: 0 <= i < |rs| && rs[i].available && 0 <= k < |rs[i].used| ==> rs[i].used[k]
    ensures SameShape(rs, rs) && forall g :: !Free(rs, g)
  {
  }

  lemma TakenIs(rs: seq<Region>, i: nat, k: nat)
    requires WellPlaced(rs) && i < |rs| && rs[i].available && k < |rs[i].used| && !rs[i].used[k]
    ensures var f, rs' := rs[i].start + PAGE * k, rs[i := Mark(rs[i], k, true)];
            && WellPlaced(rs') && SameShape(rs, rs') && 0 < f && f % PAGE == 0 && Free(rs, f)
            && (forall g :: Free(rs', g) <==> Free(rs, g) && g != f)
            && (forall g :: IsFrame(rs', g) <==> IsFrame(rs, g))
  {
    var f, rs' := rs[i].start + PAGE * k, rs[i := Mark(rs[i], k, true)];
    assert Sound(rs[i]);
    MarkEffect(rs, i, k, true, f);
    FreeIs(rs, i, k);
    hide Free, IsFrame, WellPlaced, SameShape;
    forall g ensures Free(rs', g) <==> Free(rs, g) && g != f
      ensures IsFrame(rs', g) <==> IsFrame(rs, g)
    {
      MarkEffect(rs, i, k, true, g);
    }
  }

  /** Freeing the address of a frame makes exactly that frame free. */
  lemma GiveFrameSpec(rs: seq<Region>, f: int)
    requires WellPlaced(rs) && IsFrame(rs, f)
    ensures var rs' := GiveFrame(rs, f);
            && WellPlaced(rs') && SameShape(rs, rs')
            && (forall g :: Free(rs', g) <==> Free(rs, g) || g == f)
            && (forall g :: IsFrame(rs', g) <==> IsFrame(rs, g))
  {
    var rs' := GiveFrame(rs, f);
    var i: nat, k: nat :| At(rs, f, i, k);
    FrameFound(rs, f, i, k);
    forall g ensures Free(rs', g) <==> Free(rs, g) || g == f
      ensures IsFrame(rs', g) <==> IsFrame(rs, g)
    {
      MarkEffect(rs, i, k, false, g);
    }
    MarkEffect(rs, i, k, false, f);
  }

  lemma FreeIs(rs: seq<Region>, i: nat, k: nat)
    requires WellPlaced(rs) && i < |rs| && rs[i].available && k < |rs[i].used|
    ensures Free(rs, rs[i].start + PAGE * k) <==> !rs[i].used[k]
  {
    var f := rs[i].start + PAGE * k;
    assert At(rs, f, i, k);
    forall a: nat, b: nat | At(rs, f, a, b) ensures a == i && b == k { SlotUnique(rs, f, a, b, i, k); }
  }

  /** The bits are determined by which frames are free. */
  lemma BitsDetermined(rs: seq<Region>, rs': seq<Region>)
    requires WellPlaced(rs) && WellPlaced(rs') && SameShape(rs, rs') && forall g :: Free(rs, g) <==> Free(rs', g)
    ensures rs == rs'
  {
    forall i | 0 <= i < |rs| ensures rs[i] == rs'[i] {
      assert Alike(rs[i], rs'[i]);
      if rs[i].available {
        forall k | 0 <= k < |rs[i].used| ensures rs[i].used[k] == rs'[i].used[k] {
          FreeIs(rs, i, k);
          FreeIs(rs', i, k);
        }
      }
    }
  }

  // ---------------------------------------------------------------- several frames

  /** Takes frames one by one until there are `n` of them or none is left. */
  function Collect(rs: seq<Region>, n: nat): (seq<Region>, seq<nat>) {
    if n == 0 then (rs, [])
    else
      var (rs1, fs) := Collect(rs, n - 1);
      if |fs| < n - 1 then (rs1, fs)
      else
        var (rs2, f) := TakeFrame(rs1);
        if f <= 0 then (rs1, fs) else (rs2, fs + [f])
  }

  /** Gives frames back one by one. */
  function GiveAll(rs: seq<Region>, fs: seq<int>): seq<Region> {
    if fs == [] then rs else GiveFrame(GiveAll(rs, fs[..|fs| - 1]), fs[|fs| - 1])
  }

  ghost predicate Collected(rs: seq<Region>, n: nat, rs': seq<Region>, fs: seq<int>) {
    && WellPlaced(rs') && SameShape(rs, rs') && |fs| <= n
    && FreeCount(rs) == FreeCount(rs') + |fs| && (|fs| < n ==> FreeCount(rs') == 0)
    && (forall i, j :: 0 <= i < j < |fs| ==> fs[i] != fs[j])
    && (forall f :: f in fs ==> 0 < f && f % PAGE == 0 && Free(rs, f))
    && (forall g :: Free(rs', g) <==> Free(rs, g) && g !in fs)
    && (forall g :: IsFrame(rs', g) <==> IsFrame(rs, g))
  }

  /** The frames collected are distinct and were free; exactly they are in use afterwards.  There are `n`
      of them unless that is more than there were. */
  lemma {:induction false} CollectSpec(rs: seq<Region>, n: nat)
    requires WellPlaced(rs)
    ensures var (rs', fs) := Collect(rs, n); Collected(rs, n, rs', fs)
  {
    if n == 0 {
      assert SameShape(rs, rs);
    } else {
      CollectSpec(rs, n - 1);
      var (rs1, fs) := Collect(rs, n - 1);
      hide Collect, Free, IsFrame, FreeCount, WellPlaced, SameShape, TakeFrom, TakeFrame;
      if |fs| == n - 1 {
        TakeFrameSpec(rs1);
        CollectStep(rs, n, rs1, fs);
      }
      CollectIs(rs, n);
    }
  }

  lemma CollectIs(rs: seq<Region>, n: nat)
    requires n > 0
    ensures var (rs1, fs) := Collect(rs, n - 1);
            if |fs| < n - 1 || TakeFrame(rs1).1 <= 0 then Collect(rs, n) == (rs1, fs)
            else Collect(rs, n).0 == TakeFrame(rs1).0 && Collect(rs, n).1 == fs + [TakeFrame(rs1).1]
  {
  }

  lemma CollectStep(rs: seq<Region>, n: nat, rs1: seq<Region>, fs: seq<int>)
    requires n > 0 && |fs| == n - 1 && WellPlaced(rs1) && Collected(rs, n - 1, rs1, fs)
    ensures var (rs2, f) := TakeFrame(rs1);
            if f == 0 then Collected(rs, n, rs1, fs) else Collected(rs, n, rs2, fs + [f])
  {
    var (rs2, f) := TakeFrame(rs1);
    hide TakeFrame, Free, IsFrame, FreeCount, WellPlaced, SameShape;
    TakeFrameSpec(rs1);
    SameShapeTrans(rs, rs1, rs2);
  }

  lemma SameShapeTrans(a: seq<Region>, b: seq<Region>, c: seq<Region>)
    requires SameShape(a, b) && SameShape(b, c)
    ensures SameShape(a, c)
  {
    forall i | 0 <= i < |a| ensures Alike(a[i], c[i]) { assert Alike(a[i], b[i]) && Alike(b[i], c[i]); }
  }

  lemma {:induction false} GiveAllSpec(rs: seq<Region>, fs: seq<int>)
    requires WellPlaced(rs) && forall f :: f in fs ==> IsFrame(rs, f)
    ensures var rs' := GiveAll(rs, fs);
            && WellPlaced(rs') && SameShape(rs, rs')
            && (forall g :: Free(rs', g) <==> Free(rs, g) || g in fs)
            && (forall g :: IsFrame(rs', g) <==> IsFrame(rs, g))
    decreases |fs|
  {
    if fs == [] {
      assert SameShape(rs, rs);
    } else {
      var init, f := fs[..|fs| - 1], fs[|fs| - 1];
      assert fs == init + [f];
      GiveAllSpec(rs, init);
      hide Free, IsFrame, WellPlaced, SameShape, GiveFrame;
      GiveFrameSpec(GiveAll(rs, init), f);
      SameShapeTrans(rs, GiveAll(rs, init), GiveAll(rs, fs));
    }
  }

  lemma FreeIsFrame(rs: seq<Region>, f: int)
    requires Free(rs, f)
    ensures IsFrame(rs, f)
  {
  }

  /** Rolling an allocation back restores every bitmap exactly. */
  lemma RollbackRestores(rs: seq<Region>, n: nat)
    requires WellPlaced(rs)
    ensures var (rs', fs) := Collect(rs, n);
            GiveAll(rs', fs) == rs
  {
    hide Collect, GiveAll, Free, IsFrame, WellPlaced, SameShape;
    CollectSpec(rs, n);
    var (rs', fs) := Collect(rs, n);
    forall f | f in fs ensures IsFrame(rs', f) { FreeIsFrame(rs, f); }
    Undo(rs, rs', fs);
  }

  lemma Undo(rs: seq<Region>, rs': seq<Region>, fs: seq<int>)
    requires WellPlaced(rs) && WellPlaced(rs') && SameShape(rs, rs') && forall f :: f in fs ==> IsFrame(rs', f)
    requires forall f :: f in fs ==> Free(rs, f)
    requires forall g :: Free(rs', g) <==> Free(rs, g) && g !in fs
    ensures GiveAll(rs', fs) == rs
  {
    hide GiveAll, Free, IsFrame, WellPlaced, SameShape;
    GiveAllSpec(rs', fs);
    var rs2 := GiveAll(rs', fs);
    SameShapeTrans(rs, rs', rs2);
    BitsDetermined(rs, rs2);
  }
}
