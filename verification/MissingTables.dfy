/** How far down the way of an address leads, what mapping a page changes about that, and so how many
    frames a range of pages needs, read off the tables as they are before. */
module MissingTables {
  import opened Basics
  import opened Frames
  import opened PageTables
  import opened Mapping

  /** The first `n` entries on the way of `v` need no replacing; with `n == 4` the page is mapped. */
  predicate Reaches(mem: Tables, root: nat, v: nat, n: nat) {
    n == 0 ||
    (Reaches(mem, root, v, n - 1) && !Lacking(Entry(mem, TableAt(mem, root, v, n - 1), Index(v, n - 1)), n - 1))
  }

  lemma {:induction false} ReachesDescends(mem: Tables, root: nat, v: nat, n: nat)
    requires n <= 3
    ensures Reaches(mem, root, v, n) <==> Descends(mem, root, v, n)
  {
    if n > 0 { ReachesDescends(mem, root, v, n - 1); }
  }

  lemma {:induction false} ReachesLess(mem: Tables, root: nat, v: nat, k: nat, n: nat)
    requires k <= n && Reaches(mem, root, v, n)
    ensures Reaches(mem, root, v, k)
    decreases n
  {
    if k < n { ReachesLess(mem, root, v, k, n - 1); }
  }

  lemma ReachesSame(mem: Tables, root: nat, v: nat, v': nat, n: nat)
    requires Path(v, n) == Path(v', n)
    ensures Reaches(mem, root, v, n) <==> Reaches(mem, root, v', n)
    decreases n
  {
    if n > 0 {
      PathStep(v, v', n - 1);
      ReachesSame(mem, root, v, v', n - 1);
      SameWay(mem, root, v, v', n - 1);
    }
  }

  function Miss(mem: Tables, root: nat, v: nat, n: nat): nat {
    if Reaches(mem, root, v, n) then 0 else 1
  }

  /** The frames a walk takes: one for every level it does not reach. */
  lemma {:induction false} NeedsMissing(mem: Tables, root: nat, v: nat, n: nat)
    requires n < 4 && Reaches(mem, root, v, n)
    ensures var t := TableAt(mem, root, v, n);
            Needs(mem, t, v, n) ==
            (if n < 1 then Miss(mem, root, v, 1) else 0) + (if n < 2 then Miss(mem, root, v, 2) else 0) +
                                   (if n < 3 then Miss(mem, root, v, 3) else 0) + Miss(mem, root, v, 4)
    decreases 4 - n
  {
    var e := Entry(mem, TableAt(mem, root, v, n), Index(v, n));
    if Lacking(e, n) {
      forall k | n < k <= 4 ensures !Reaches(mem, root, v, k) {
        if Reaches(mem, root, v, k) { ReachesLess(mem, root, v, n + 1, k); }
      }
    } else if n < 3 {
      NeedsMissing(mem, root, v, n + 1);
    }
  }

  // ---------------------------------------------------------------- one new table

  /** A write that the way of `u` does not pass changes nothing on it. */
  lemma {:induction false} WayElsewhere(mem: Tables, mem': Tables, root: nat, path: map<nat, seq<nat>>, t: nat,
                                        i: nat, u: nat, n: nat)
    requires Tree(mem, root, path) && SameBut(mem, mem', path, t, i) && t in path && n <= 4
    requires Path(u, |path[t]| + 1) != path[t] + [i]
    ensures Reaches(mem', root, u, n) <==> Reaches(mem, root, u, n)
    ensures n <= 3 && Reaches(mem, root, u, n) ==> TableAt(mem', root, u, n) == TableAt(mem, root, u, n)
  {
    if n > 0 {
      WayElsewhere(mem, mem', root, path, t, i, u, n - 1);
      if Reaches(mem, root, u, n - 1) {
        ReachesDescends(mem, root, u, n - 1);
        TableLabel(mem, root, path, u, n - 1);
        PathStep(u, u, n - 1);
        hide Index, Tree, Lacking, Reaches;
        assert Entry(mem', TableAt(mem, root, u, n - 1), Index(u, n - 1)) ==
               Entry(mem, TableAt(mem, root, u, n - 1), Index(u, n - 1));
      }
    }
  }

  /** The entry of `v` at level `n`, which has to be replaced, stands in the way of every address that
      shares it. */
  lemma BlockedBefore(mem: Tables, root: nat, v: nat, n: nat, u: nat, k: nat)
    requires Descends(mem, root, v, n) && n <= 3 && Path(u, n + 1) == Path(v, n + 1)
    requires Lacking(Entry(mem, TableAt(mem, root, v, n), Index(v, n)), n)
    ensures Reaches(mem, root, u, k) <==> k <= n
  {
    hide Lacking, Index, Path;
    ReachesDescends(mem, root, v, n);
    ReachesSame(mem, root, v, u, n + 1);
    assert !Reaches(mem, root, v, n + 1);
    PathStep(v, u, n);
    ReachesSame(mem, root, v, u, n);
    if k <= n { ReachesLess(mem, root, u, k, n); }
    if n < k && Reaches(mem, root, u, k) { ReachesLess(mem, root, u, n + 1, k); }
  }

  /** Once a new, empty table is there, those addresses get one level further. */
  lemma HungAfter(m: Memory, m1: Memory, root: nat, path: map<nat, seq<nat>>, v: nat, n: nat, f: nat, u: nat, k: nat)
    requires Backed(m, root, path) && n <= 3 && Descends(m.tables, root, v, n) && Path(u, n + 1) == Path(v, n + 1)
    requires Hung(m, m1, TableAt(m.tables, root, v, n), Index(v, n), f) && k <= 4
    ensures Reaches(m1.tables, root, u, k) <==> k <= n + 1
  {
    hide *;
    var t, i := TableAt(m.tables, root, v, n), Index(v, n);
    BackedIs(m, root, path);
    IndexBound(v, n);
    TableLabel(m.tables, root, path, v, n);
    HungSame(m, m1, root, path, t, i, f);
    WriteEffect(m.tables, m1.tables, root, path, v, n, v);
    HungFrame(m, m1, t, i, f);
    NewNotLacking(f, n);
    ReachesDescends(m1.tables, root, v, n);
    ReachesStep(m1.tables, root, v, n + 1);
    ReachesSame(m1.tables, root, v, u, n + 1);
    if k <= n + 1 { ReachesLess(m1.tables, root, u, k, n + 1); }
    if n < 3 && n + 1 < k {
      NextIs(m1.tables, root, v, u, n, f);
      ReachesStep(m1.tables, root, u, n + 2);
      if Reaches(m1.tables, root, u, k) { ReachesLess(m1.tables, root, u, n + 2, k); }
    }
  }

  lemma ReachesStep(mem: Tables, root: nat, v: nat, n: nat)
    requires n > 0
    ensures Reaches(mem, root, v, n) <==>
            Reaches(mem, root, v, n - 1) && !Lacking(Entry(mem, TableAt(mem, root, v, n - 1), Index(v, n - 1)), n - 1)
  {
  }

  lemma HungFrame(m: Memory, m1: Memory, t: nat, i: nat, f: nat)
    requires Hung(m, m1, t, i, f)
    ensures f % 4096 == 0
  {
  }

  lemma NewNotLacking(f: nat, n: nat)
    requires f % 4096 == 0
    ensures !Lacking(f + TABLE_FLAGS, n) && Base(f + TABLE_FLAGS) == f && forall k :: Lacking(0, k)
  {
    NewEntry(f);
  }

  lemma NextIs(mem: Tables, root: nat, v: nat, u: nat, n: nat, f: nat)
    requires Path(u, n + 1) == Path(v, n + 1)
    requires Base(Entry(mem, TableAt(mem, root, v, n), Index(v, n))) == f
    ensures TableAt(mem, root, u, n + 1) == f
  {
    SameWay(mem, root, v, u, n + 1);
    hide Path;
  }

  /** What a new table, hung in for `v` at level `n`, changes for every address. */
  lemma HungReaches(m: Memory, m1: Memory, root: nat, path: map<nat, seq<nat>>, v: nat, n: nat, f: nat, u: nat, k: nat)
    requires Backed(m, root, path) && n <= 3 && Descends(m.tables, root, v, n) && k <= 4
    requires var t := TableAt(m.tables, root, v, n);
             Lacking(Entry(m.tables, t, Index(v, n)), n) && Hung(m, m1, t, Index(v, n), f)
    ensures Reaches(m1.tables, root, u, k) <==>
            Reaches(m.tables, root, u, k) || (k == n + 1 && Path(u, n + 1) == Path(v, n + 1))
  {
    var t, i := TableAt(m.tables, root, v, n), Index(v, n);
    hide *;
    if Path(u, n + 1) == Path(v, n + 1) {
      BlockedBefore(m.tables, root, v, n, u, k);
      HungAfter(m, m1, root, path, v, n, f, u, k);
    } else {
      BackedIs(m, root, path);
      IndexBound(v, n);
      PathLength(v, n);
      TableLabel(m.tables, root, path, v, n);
      HungSame(m, m1, root, path, t, i, f);
      PathStep(v, v, n);
      WayElsewhere(m.tables, m1.tables, root, path, t, i, u, k);
    }
  }

  // ---------------------------------------------------------------- a whole walk

  /** A walk that gets through takes its own address all the way down, every other as far as it shares
      the way, and no further than before otherwise. */
  lemma {:induction false} WalkReaches(m: Memory, root: nat, path: map<nat, seq<nat>>, v: nat, level: nat, u: nat,
                                       k: nat)
    requires Backed(m, root, path) && level < 4 && Descends(m.tables, root, v, level) && k <= 4
    requires WalkFrom(m, TableAt(m.tables, root, v, level), v, level).1.Some?
    ensures var m' := WalkFrom(m, TableAt(m.tables, root, v, level), v, level).0;
            Reaches(m'.tables, root, u, k) <==> Reaches(m.tables, root, u, k) || Path(u, k) == Path(v, k)
    decreases 4 - level
  {
    var t, i := TableAt(m.tables, root, v, level), Index(v, level);
    hide *;
    IndexBound(v, level);
    BackedIs(m, root, path);
    TableLabel(m.tables, root, path, v, level);
    PathLength(v, level);
    ReachesDescends(m.tables, root, v, level);
    var f := EnsureIs(m, root, path, t, i, level);
    var (m1, ok) := Ensure(m, t, i, level);
    WalkFromIs(m, t, v, level);
    if !Lacking(Entry(m.tables, t, i), level) {
      ReachesStep(m.tables, root, v, level + 1);
      if level < 3 {
        StepDown(m, root, v, level);
        WalkReaches(m, root, path, v, level + 1, u, k);
      } else {
        WalkEnds(m, t, v);
        Shared(m.tables, root, v, u, 4, k);
      }
    } else {
      HungReaches(m, m1, root, path, v, level, f, u, k);
      if level < 3 {
        HungBacked(m, m1, root, path, t, i, f);
        StepNew(m, m1, root, path, v, level, f);
        WalkReaches(m1, root, path[f := path[t] + [i]], v, level + 1, u, k);
      } else {
        WalkEnds(m, t, v);
        Shared(m.tables, root, v, u, 3, k);
      }
    }
  }

  lemma WalkEnds(m: Memory, t: nat, v: nat)
    ensures WalkFrom(m, t, v, 3).0 == Ensure(m, t, Index(v, 3), 3).0
    ensures WalkFrom(m, t, v, 3).1.Some? <==> Ensure(m, t, Index(v, 3), 3).1
  {
  }

  /** Addresses that share the way as far as it reaches, reach as far. */
  lemma Shared(mem: Tables, root: nat, v: nat, u: nat, n: nat, k: nat)
    requires Reaches(mem, root, v, n)
    ensures k <= n && Path(u, k) == Path(v, k) ==> Reaches(mem, root, u, k)
  {
    if k <= n && Path(u, k) == Path(v, k) {
      ReachesLess(mem, root, v, k, n);
      ReachesSame(mem, root, v, u, k);
    }
  }

  /** A walk that runs out of frames does not take its address all the way down. */
  lemma {:induction false} WalkFails(m: Memory, root: nat, path: map<nat, seq<nat>>, v: nat, level: nat)
    requires Backed(m, root, path) && level < 4 && Descends(m.tables, root, v, level)
    requires WalkFrom(m, TableAt(m.tables, root, v, level), v, level).1.None?
    ensures !Reaches(WalkFrom(m, TableAt(m.tables, root, v, level), v, level).0.tables, root, v, 4)
    decreases 4 - level
  {
    var t, i := TableAt(m.tables, root, v, level), Index(v, level);
    hide *;
    IndexBound(v, level);
    BackedIs(m, root, path);
    TableLabel(m.tables, root, path, v, level);
    PathLength(v, level);
    var f := EnsureIs(m, root, path, t, i, level);
    var (m1, ok) := Ensure(m, t, i, level);
    WalkFromIs(m, t, v, level);
    if !ok {
      BlockedBefore(m.tables, root, v, level, v, 4);
    } else if level == 3 {
      WalkEnds(m, t, v);
    } else if !Lacking(Entry(m.tables, t, i), level) {
      StepDown(m, root, v, level);
      WalkFails(m, root, path, v, level + 1);
    } else {
      HungBacked(m, m1, root, path, t, i, f);
      StepNew(m, m1, root, path, v, level, f);
      WalkFails(m1, root, path[f := path[t] + [i]], v, level + 1);
    }
  }

  /** Without a free frame a walk that needs one changes nothing. */
  lemma {:induction false} WalkStuck(m: Memory, root: nat, path: map<nat, seq<nat>>, v: nat, level: nat)
    requires Backed(m, root, path) && level < 4 && Descends(m.tables, root, v, level) && FreeCount(m.frames) == 0
    ensures WalkFrom(m, TableAt(m.tables, root, v, level), v, level).0 == m
    decreases 4 - level
  {
    var t, i := TableAt(m.tables, root, v, level), Index(v, level);
    hide *;
    IndexBound(v, level);
    BackedIs(m, root, path);
    TableLabel(m.tables, root, path, v, level);
    var f := EnsureIs(m, root, path, t, i, level);
    WalkFromIs(m, t, v, level);
    if !Lacking(Entry(m.tables, t, i), level) {
      if level < 3 {
        StepDown(m, root, v, level);
        WalkStuck(m, root, path, v, level + 1);
      } else {
        WalkEnds(m, t, v);
      }
    }
  }

  // ---------------------------------------------------------------- mapping one page

  /** Writing a present last-level entry over another changes nobody's way. */
  lemma LeafReaches(m: Memory, root: nat, path: map<nat, seq<nat>>, v: nat, e: nat, u: nat, k: nat)
    requires Backed(m, root, path) && Reaches(m.tables, root, v, 4) && Present(e) && k <= 4
    ensures Reaches(SetLeaf(m, root, v, e).tables, root, u, k) <==> Reaches(m.tables, root, u, k)
  {
    hide *;
    var t, i, mem' := TableAt(m.tables, root, v, 3), Index(v, 3), SetLeaf(m, root, v, e).tables;
    ReachesLess(m.tables, root, v, 3, 4);
    ReachesDescends(m.tables, root, v, 3);
    BackedIs(m, root, path);
    LeafBacked(m, root, path, v, e);
    IndexBound(v, 3);
    PathLength(v, 3);
    TableLabel(m.tables, root, path, v, 3);
    WriteIs(m.tables, path, t, i, e);
    PathStep(v, v, 3);
    if Path(u, 4) == Path(v, 4) {
      WayUnchanged(m.tables, mem', root, path, t, i, v, 3);
      ReachesDescends(mem', root, v, 3);
      ReachesStep(mem', root, v, 4);
      LastLacking(e);
      ReachesSame(mem', root, v, u, 4);
      ReachesSame(m.tables, root, v, u, 4);
      ReachesLess(mem', root, u, k, 4);
      ReachesLess(m.tables, root, u, k, 4);
    } else {
      WayElsewhere(m.tables, mem', root, path, t, i, u, k);
    }
  }

  lemma LastLacking(e: nat)
    ensures Lacking(e, 3) <==> !Present(e)
  {
  }

  /** What `map_page` changes, if there are frames for it: its own page is mapped, and other addresses get
      as far as they share its way. */
  lemma MapReaches(m: Memory, root: nat, path: map<nat, seq<nat>>, v: nat, phys: nat, flags: nat, u: nat, k: nat)
    requires Backed(m, root, path) && phys % 4096 == 0 && flags < 4096 && k <= 4
    requires Needs(m.tables, root, v, 0) <= FreeCount(m.frames)
    ensures Reaches(MapPage(m, root, v, phys, flags).tables, root, u, k) <==>
            Reaches(m.tables, root, u, k) || Path(u, k) == Path(v, k)
  {
    hide *;
    var (m1, r) := WalkFrom(m, root, v, 0);
    Top(m.tables, root, v);
    var path1 := WalkSpec(m, root, path, v, 0);
    WalkOutcomeIs(m, root, path, v, m1, r, path1);
    MapPageIs(m, root, path1, v, phys, flags);
    LeafBacked(m1, root, path1, v, LeafEntry(phys, flags));
    LeafEntryIs(phys, flags);
    WalkReaches(m, root, path, v, 0, u, k);
    WalkReaches(m, root, path, v, 0, v, 4);
    LeafReaches(m1, root, path1, v, LeafEntry(phys, flags), u, k);
  }

  lemma Top(mem: Tables, root: nat, v: nat)
    ensures Descends(mem, root, v, 0) && TableAt(mem, root, v, 0) == root && Reaches(mem, root, v, 0)
  {
  }

  /** If there are not, its page stays unmapped. */
  lemma MapFails(m: Memory, root: nat, path: map<nat, seq<nat>>, v: nat, phys: nat, flags: nat)
    requires Backed(m, root, path) && Needs(m.tables, root, v, 0) > FreeCount(m.frames)
    ensures !Reaches(MapPage(m, root, v, phys, flags).tables, root, v, 4)
  {
    hide *;
    var (m1, r) := WalkFrom(m, root, v, 0);
    Top(m.tables, root, v);
    var path1 := WalkSpec(m, root, path, v, 0);
    WalkOutcomeIs(m, root, path, v, m1, r, path1);
    MapPageIs(m, root, path1, v, phys, flags);
    WalkFails(m, root, path, v, 0);
  }

  /** With no frame left, mapping one page maps no other. */
  lemma MapStuck(m: Memory, root: nat, path: map<nat, seq<nat>>, v: nat, phys: nat, flags: nat, u: nat)
    requires Backed(m, root, path) && phys % 4096 == 0 && flags < 4096 && FreeCount(m.frames) == 0
    requires !Reaches(m.tables, root, u, 4) && !SamePage(v, u)
    ensures !Reaches(MapPage(m, root, v, phys, flags).tables, root, u, 4)
  {
    hide *;
    SamePageIs(v, u);
    if Needs(m.tables, root, v, 0) <= FreeCount(m.frames) {
      MapReaches(m, root, path, v, phys, flags, u, 4);
    } else {
      var (m1, r) := WalkFrom(m, root, v, 0);
      Top(m.tables, root, v);
      var path1 := WalkSpec(m, root, path, v, 0);
      WalkOutcomeIs(m, root, path, v, m1, r, path1);
      MapPageIs(m, root, path1, v, phys, flags);
      WalkStuck(m, root, path, v, 0);
    }
  }

  /** A page that is mapped is reached all the way. */
  lemma MappedReaches(mem: Tables, root: nat, v: nat, phys: nat)
    requires MappedTo(mem, root, v, phys)
    ensures Reaches(mem, root, v, 4)
  {
    ReachesDescends(mem, root, v, 3);
    hide Descends, TableAt, Index;
  }

  // ---------------------------------------------------------------- mapping a range

  /** Page `i` of a range. */
  function PageAt(v: nat, i: nat): nat {
    v + i * PAGE
  }

  /** `vmm_map_range`. */
  function MapRange(m: Memory, root: nat, v: nat, fs: seq<nat>, flags: nat): Memory {
    if fs == [] then m
    else
      var n := |fs| - 1;
      MapPage(MapRange(m, root, v, fs[..n], flags), root, PageAt(v, n), fs[n], flags)
  }

  /** The frames that the walks of a range take, one after the other. */
  function RangeNeeds(m: Memory, root: nat, v: nat, fs: seq<nat>, flags: nat): nat {
    if fs == [] then 0
    else
      var n := |fs| - 1;
      RangeNeeds(m, root, v, fs[..n], flags) + Needs(MapRange(m, root, v, fs[..n], flags).tables, root, PageAt(v, n), 0)
  }

  /** The tables (the pages, for `k == 4`) that the first `n` pages of a range lack at level `k`, each named
      by the path to it. */
  ghost function Missing(mem: Tables, root: nat, v: nat, n: nat, k: nat): set<seq<nat>> {
    set i | 0 <= i < n && !Reaches(mem, root, PageAt(v, i), k) :: Path(PageAt(v, i), k)
  }

  /** How many those are: one for each page not yet mapped, and one for each missing table. */
  ghost function TablesFor(mem: Tables, root: nat, v: nat, n: nat): nat {
    |Missing(mem, root, v, n, 1)| + |Missing(mem, root, v, n, 2)| +
    |Missing(mem, root, v, n, 3)| + |Missing(mem, root, v, n, 4)|
  }

  ghost predicate Aligned(fs: seq<nat>) {
    forall i :: 0 <= i < |fs| ==> fs[i] % 4096 == 0
  }

  lemma {:induction false} RangeBacked(m: Memory, root: nat, path: map<nat, seq<nat>>, v: nat, fs: seq<nat>, n: nat,
                                       flags: nat)
    returns (path': map<nat, seq<nat>>)
    requires Backed(m, root, path) && Aligned(fs) && n <= |fs| && flags < 4096
    ensures var m', need := MapRange(m, root, v, fs[..n], flags), RangeNeeds(m, root, v, fs[..n], flags);
            Backed(m', root, path') && FreeCount(m'.frames) == FreeCount(m.frames) - Min(need, FreeCount(m.frames))
  {
    if n == 0 {
      path' := path;
    } else {
      assert fs[..n][..n - 1] == fs[..n - 1];
      var path1 := RangeBacked(m, root, path, v, fs, n - 1, flags);
      var m1 := MapRange(m, root, v, fs[..n - 1], flags);
      hide Backed, MapPage, Needs, FreeCount, OnlyTaken, MapEffect, MappedTo, PageAt;
      path' := MapPageSpec(m1, root, path1, PageAt(v, n - 1), fs[n - 1], flags);
    }
  }

  ghost predicate Joins(v: nat, n: nat, u: nat, k: nat) {
    exists i :: 0 <= i < n && Path(PageAt(v, i), k) == Path(u, k)
  }

  /** After a range whose walks all got through, an address gets as far as before, or as it shares the way
      of a page of the range. */
  lemma {:induction false} RangeReaches(m: Memory, root: nat, path: map<nat, seq<nat>>, v: nat, fs: seq<nat>, n: nat,
                                        flags: nat, u: nat, k: nat)
    requires Backed(m, root, path) && Aligned(fs) && n <= |fs| && flags < 4096 && k <= 4
    requires RangeNeeds(m, root, v, fs[..n], flags) <= FreeCount(m.frames)
    ensures Reaches(MapRange(m, root, v, fs[..n], flags).tables, root, u, k) <==>
            Reaches(m.tables, root, u, k) || Joins(v, n, u, k)
  {
    hide *;
    if n == 0 {
      RangeStart(m, root, v, fs, flags, u, k);
    } else {
      var j := n - 1;
      var m1 := MapRange(m, root, v, fs[..j], flags);
      RangeNext(m, root, v, fs, j, flags);
      RangeReaches(m, root, path, v, fs, j, flags, u, k);
      var path1 := RangeBacked(m, root, path, v, fs, j, flags);
      MinIs(RangeNeeds(m, root, v, fs[..j], flags), FreeCount(m.frames));
      AlignedAt(fs, j);
      MapReaches(m1, root, path1, PageAt(v, j), fs[j], flags, u, k);
      JoinsMore(v, j, u, k);
    }
  }

  lemma RangeStart(m: Memory, root: nat, v: nat, fs: seq<nat>, flags: nat, u: nat, k: nat)
    ensures MapRange(m, root, v, fs[..0], flags) == m && !Joins(v, 0, u, k)
  {
  }

  lemma RangeNext(m: Memory, root: nat, v: nat, fs: seq<nat>, j: nat, flags: nat)
    requires j < |fs|
    ensures var m1 := MapRange(m, root, v, fs[..j], flags);
            && MapRange(m, root, v, fs[..j + 1], flags) == MapPage(m1, root, PageAt(v, j), fs[j], flags)
            && RangeNeeds(m, root, v, fs[..j + 1], flags) ==
                 RangeNeeds(m, root, v, fs[..j], flags) + Needs(m1.tables, root, PageAt(v, j), 0)
  {
    assert fs[..j + 1][..j] == fs[..j];
  }

  lemma AlignedAt(fs: seq<nat>, j: nat)
    requires Aligned(fs) && j < |fs|
    ensures fs[j] % 4096 == 0
  {
  }

  lemma JoinsMore(v: nat, n: nat, u: nat, k: nat)
    ensures Joins(v, n + 1, u, k) <==> Joins(v, n, u, k) || Path(PageAt(v, n), k) == Path(u, k)
  {
    if Path(PageAt(v, n), k) == Path(u, k) { assert 0 <= n < n + 1; }
  }

  /** One more page lacks one more table at a level exactly if it does not get that far by then. */
  lemma MissingMore(mem: Tables, mem': Tables, root: nat, v: nat, n: nat, k: nat)
    requires Reaches(mem', root, PageAt(v, n), k) <==>
             Reaches(mem, root, PageAt(v, n), k) || Joins(v, n, PageAt(v, n), k)
    ensures |Missing(mem, root, v, n + 1, k)| == |Missing(mem, root, v, n, k)| + Miss(mem', root, PageAt(v, n), k)
  {
    var u, a, b := PageAt(v, n), Missing(mem, root, v, n, k), Missing(mem, root, v, n + 1, k);
    hide Reaches, PageAt, Path;
    if Reaches(mem, root, u, k) {
      assert b == a;
    } else {
      assert b == a + {Path(u, k)};
      if Joins(v, n, u, k) {
        var i :| 0 <= i < n && Path(PageAt(v, i), k) == Path(u, k);
        ReachesSame(mem, root, PageAt(v, i), u, k);
        assert Path(PageAt(v, i), k) in a;
        assert b == a;
      } else {
        assert Path(u, k) !in a;
      }
    }
  }

  /** As long as the walks before got through, the frames taken are the tables and pages missing at the
      start. */
  lemma {:induction false} RangeCount(m: Memory, root: nat, path: map<nat, seq<nat>>, v: nat, fs: seq<nat>, n: nat,
                                      flags: nat)
    requires Backed(m, root, path) && Aligned(fs) && n <= |fs| && flags < 4096
    requires n > 0 ==> RangeNeeds(m, root, v, fs[..n - 1], flags) <= FreeCount(m.frames)
    ensures RangeNeeds(m, root, v, fs[..n], flags) == TablesFor(m.tables, root, v, n)
  {
    if n == 0 {
      MissingNone(m.tables, root, v);
    } else {
      var j := n - 1;
      var m1, u := MapRange(m, root, v, fs[..j], flags), PageAt(v, j);
      NeedsStep(m, root, v, fs, j, flags);
      RangeCount(m, root, path, v, fs, j, flags);
      hide Backed, Needs, FreeCount, PageAt, Reaches, Path, Missing, MapRange, RangeNeeds, Joins, Miss;
      Top(m1.tables, root, u);
      NeedsMissing(m1.tables, root, u, 0);
      forall k | 1 <= k <= 4
        ensures |Missing(m.tables, root, v, n, k)| == |Missing(m.tables, root, v, j, k)| + Miss(m1.tables, root, u, k)
      {
        RangeReaches(m, root, path, v, fs, j, flags, u, k);
        MissingMore(m.tables, m1.tables, root, v, j, k);
      }
    }
  }

  lemma MissingNone(mem: Tables, root: nat, v: nat)
    ensures TablesFor(mem, root, v, 0) == 0
  {
    assert forall k :: Missing(mem, root, v, 0, k) == {};
  }

  /** The needs of a range, one page more. */
  lemma NeedsStep(m: Memory, root: nat, v: nat, fs: seq<nat>, j: nat, flags: nat)
    requires j < |fs|
    ensures RangeNeeds(m, root, v, fs[..j + 1], flags) ==
            RangeNeeds(m, root, v, fs[..j], flags) +
            Needs(MapRange(m, root, v, fs[..j], flags).tables, root, PageAt(v, j), 0)
    ensures j > 0 ==> RangeNeeds(m, root, v, fs[..j - 1], flags) <= RangeNeeds(m, root, v, fs[..j], flags)
  {
    assert fs[..j + 1][..j] == fs[..j];
    if j > 0 { assert fs[..j][..j - 1] == fs[..j - 1]; }
  }

  lemma MissingGrows(mem: Tables, root: nat, v: nat, n: nat)
    ensures TablesFor(mem, root, v, n) <= TablesFor(mem, root, v, n + 1)
  {
    forall k ensures |Missing(mem, root, v, n, k)| <= |Missing(mem, root, v, n + 1, k)| {
      Subset(Missing(mem, root, v, n, k), Missing(mem, root, v, n + 1, k));
    }
    hide Missing;
  }

  lemma Subset<T>(a: set<T>, b: set<T>)
    requires a <= b
    ensures |a| <= |b|
  {
    assert b == a + (b - a);
  }

  /** There are frames for all the walks of a range if and only if there are as many as tables and pages
      missing at the start. */
  lemma {:induction false} RangeExact(m: Memory, root: nat, path: map<nat, seq<nat>>, v: nat, fs: seq<nat>, n: nat,
                                      flags: nat)
    requires Backed(m, root, path) && Aligned(fs) && n <= |fs| && flags < 4096
    ensures RangeNeeds(m, root, v, fs[..n], flags) <= FreeCount(m.frames) <==>
            TablesFor(m.tables, root, v, n) <= FreeCount(m.frames)
  {
    hide *;
    if n == 0 || RangeNeeds(m, root, v, fs[..n - 1], flags) <= FreeCount(m.frames) {
      RangeCount(m, root, path, v, fs, n, flags);
    } else {
      RangeExact(m, root, path, v, fs, n - 1, flags);
      NeedsStep(m, root, v, fs, n - 1, flags);
      MissingGrows(m.tables, root, v, n - 1);
    }
  }

  /** Four per page are always enough. */
  lemma {:induction false} RangeNeedsAtMost(m: Memory, root: nat, v: nat, fs: seq<nat>, flags: nat)
    ensures RangeNeeds(m, root, v, fs, flags) <= 4 * |fs|
    decreases |fs|
  {
    if fs != [] { RangeNeedsAtMost(m, root, v, fs[..|fs| - 1], flags); }
  }
}
