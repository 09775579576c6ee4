/** The virtual memory manager: a bump allocator of virtual pages, each backed by a frame of its own. */
module VirtualMemory {
  import opened Basics
  import opened Frames
  import opened PageTables
  import opened Mapping
  import opened MissingTables

  const TWO_64 := 0x1_0000_0000_0000_0000

  /** An address space and its descriptor. */
  datatype Space = Space(mem: Memory, root: nat, isUser: bool, flags: nat, address: nat, bytes: nat, pages: nat)

  function Start(isUser: bool): nat {
    if isUser then 0x1_0000_0000 else 0xFFFF_8000_0000_0000
  }

  function Limit(isUser: bool): nat {
    if isUser then 0x7FFF_FFFF_FFFF else 0xFFFF_FFFF_FFFF_0000
  }

  /** Pages for `size` bytes, in 64-bit arithmetic. */
  function PagesFor(size: nat): nat {
    (size + PAGE - 1) % TWO_64 / PAGE
  }

  /** The rounding is right if and only if it does not wrap; above that, no page at all is asked for. */
  lemma PagesForExactIff(size: nat)
    requires 0 < size < TWO_64
    ensures PagesFor(size) * PAGE >= size <==> size <= TWO_64 - PAGE
    ensures size <= TWO_64 - PAGE ==> 1 <= PagesFor(size) && (PagesFor(size) - 1) * PAGE < size
    ensures size > TWO_64 - PAGE ==> PagesFor(size) == 0
  {
  }

  /** The test that lets an allocation through. */
  predicate Fits(address: nat, alloc: nat, isUser: bool) {
    (address + alloc) % TWO_64 <= Limit(isUser)
  }

  /** It is right if and only if the sum does not wrap around. */
  lemma FitsExactIff(address: nat, alloc: nat, isUser: bool)
    requires address <= Limit(isUser) && alloc < TWO_64
    ensures (Fits(address, alloc, isUser) <==> address + alloc <= Limit(isUser)) <==> address + alloc < TWO_64
  {
  }

  /** 1 MiB asked for one page below the top of the kernel's range wraps around and is let through. */
  lemma WrapAccepted()
    ensures var a := Limit(false) - PAGE; Fits(a, 0x10_0000, false) && a + 0x10_0000 > Limit(false)
  {
  }

  // ---------------------------------------------------------------- mapping a range

  /** The pages that are backed after mapping a range: those whose walk had the frames it needed. */
  ghost function MapLive(m: Memory, root: nat, v: nat, fs: seq<nat>, flags: nat, live: map<nat, nat>): map<nat, nat> {
    if fs == [] then live
    else
      var n := |fs| - 1;
      var m1, live1 := MapRange(m, root, v, fs[..n], flags), MapLive(m, root, v, fs[..n], flags, live);
      if Needs(m1.tables, root, PageAt(v, n), 0) <= FreeCount(m1.frames) then live1[PageAt(v, n) := fs[n]] else live1
  }

  // ---------------------------------------------------------------- entries that walks leave alone

  /** Entries that need no replacing are not touched. */
  ghost predicate GoodKept(mem: Tables, mem': Tables, path: map<nat, seq<nat>>) {
    forall t, i :: t in path && 0 <= i < 512 && !Lacking(Entry(mem, t, i), |path[t]|) ==>
      Entry(mem', t, i) == Entry(mem, t, i)
  }

  lemma GoodKeptTrans(a: Tables, b: Tables, c: Tables, p: map<nat, seq<nat>>, q: map<nat, seq<nat>>)
    requires GoodKept(a, b, p) && GoodKept(b, c, q) && Extends(p, q)
    ensures GoodKept(a, c, p)
  {
    hide Entry, Lacking;
    forall t, i | t in p && 0 <= i < 512 && !Lacking(Entry(a, t, i), |p[t]|) ensures Entry(c, t, i) == Entry(a, t, i) {
      assert Entry(b, t, i) == Entry(a, t, i);
    }
  }

  lemma {:induction false} WalkKeepsGood(m: Memory, root: nat, path: map<nat, seq<nat>>, v: nat, level: nat)
    requires Backed(m, root, path) && level < 4 && Descends(m.tables, root, v, level)
    ensures GoodKept(m.tables, WalkFrom(m, TableAt(m.tables, root, v, level), v, level).0.tables, path)
    decreases 4 - level
  {
    var t, i := TableAt(m.tables, root, v, level), Index(v, level);
    hide *;
    IndexBound(v, level);
    BackedIs(m, root, path);
    TableLabel(m.tables, root, path, v, level);
    PathLength(v, level);
    var f := EnsureIs(m, root, path, t, i, level);
    var (m1, ok) := Ensure(m, t, i, level);
    WalkFromIs(m, t, v, level);
    GoodKeptSelf(m.tables, path);
    if !Lacking(Entry(m.tables, t, i), level) {
      if level < 3 {
        StepDown(m, root, v, level);
        WalkKeepsGood(m, root, path, v, level + 1);
      } else {
        WalkAtLast(m, t, v);
      }
    } else if ok {
      HungSame(m, m1, root, path, t, i, f);
      LackingReplaced(m.tables, m1.tables, path, t, i);
      if level < 3 {
        HungBacked(m, m1, root, path, t, i, f);
        StepNew(m, m1, root, path, v, level, f);
        var path1 := path[f := path[t] + [i]];
        WalkKeepsGood(m1, root, path1, v, level + 1);
        OnlyTakenExtends(m, m1, path, path1);
        GoodKeptTrans(m.tables, m1.tables, WalkFrom(m, t, v, level).0.tables, path, path1);
      } else {
        WalkAtLast(m, t, v);
      }
    }
  }

  lemma GoodKeptSelf(mem: Tables, path: map<nat, seq<nat>>)
    ensures GoodKept(mem, mem, path)
  {
  }

  lemma OnlyTakenExtends(m: Memory, m1: Memory, path: map<nat, seq<nat>>, path1: map<nat, seq<nat>>)
    requires OnlyTaken(m, m1, path, path1)
    ensures Extends(path, path1)
  {
  }

  lemma WalkAtLast(m: Memory, t: nat, v: nat)
    ensures WalkFrom(m, t, v, 3).0 == Ensure(m, t, Index(v, 3), 3).0
  {
  }

  lemma LackingReplaced(mem: Tables, mem': Tables, path: map<nat, seq<nat>>, t: nat, i: nat)
    requires SameBut(mem, mem', path, t, i) && t in path && Lacking(Entry(mem, t, i), |path[t]|)
    ensures GoodKept(mem, mem', path)
  {
    hide Entry, Lacking;
  }

  /** The way of an address that goes down through good entries is the same afterwards. */
  lemma {:induction false} WayKept(mem: Tables, mem': Tables, root: nat, path: map<nat, seq<nat>>, v: nat, n: nat)
    requires Tree(mem, root, path) && GoodKept(mem, mem', path) && n <= 3 && Descends(mem, root, v, n)
    ensures Descends(mem', root, v, n) && TableAt(mem', root, v, n) == TableAt(mem, root, v, n)
  {
    if n > 0 {
      WayKept(mem, mem', root, path, v, n - 1);
      TableLabel(mem, root, path, v, n - 1);
      hide Index, Present, Huge, Base, Tree;
    }
  }

  lemma MappedKept(mem: Tables, mem': Tables, root: nat, path: map<nat, seq<nat>>, v: nat, phys: nat)
    requires Tree(mem, root, path) && GoodKept(mem, mem', path) && MappedTo(mem, root, v, phys)
    ensures MappedTo(mem', root, v, phys)
  {
    WayKept(mem, mem', root, path, v, 3);
    TableLabel(mem, root, path, v, 3);
    hide Index, Present, Huge, Base, Tree, Descends, TableAt;
  }

  /** Setting the last-level entry of one page leaves the other pages mapped as they are. */
  lemma LeafKeepsMapped(m: Memory, root: nat, path: map<nat, seq<nat>>, v: nat, e: nat, v': nat, phys: nat)
    requires Backed(m, root, path) && Descends(m.tables, root, v, 3) && MappedTo(m.tables, root, v', phys)
    requires !SamePage(v, v')
    ensures MappedTo(SetLeaf(m, root, v, e).tables, root, v', phys)
  {
    var t, i, t', i' := TableAt(m.tables, root, v, 3), Index(v, 3), TableAt(m.tables, root, v', 3), Index(v', 3);
    BackedIs(m, root, path);
    LeafBacked(m, root, path, v, e);
    TableLabel(m.tables, root, path, v, 3);
    TableLabel(m.tables, root, path, v', 3);
    SamePageIs(v, v');
    var mem' := SetLeaf(m, root, v, e).tables;
    WriteIs(m.tables, path, t, i, e);
    assert t' != t || i' != i;
    WayUnchanged(m.tables, mem', root, path, t, i, v', 3);
    hide Backed, Tree, Index, Path, SamePage, Base, Present, Descends, TableAt, Write, SetLeaf, Entry;
  }

  /** Mapping a page leaves the other pages mapped as they are. */
  lemma MapKeepsMapped(m: Memory, root: nat, path: map<nat, seq<nat>>, v: nat, phys: nat, flags: nat, v': nat,
                       phys': nat)
    requires Backed(m, root, path) && MappedTo(m.tables, root, v', phys') && !SamePage(v, v')
    ensures MappedTo(MapPage(m, root, v, phys, flags).tables, root, v', phys')
  {
    hide *;
    var (m1, r) := WalkFrom(m, root, v, 0);
    RootDescends(m.tables, root, v);
    BackedIs(m, root, path);
    WalkKeepsGood(m, root, path, v, 0);
    MappedKept(m.tables, m1.tables, root, path, v', phys');
    var path1 := WalkSpec(m, root, path, v, 0);
    WalkOutcomeIs(m, root, path, v, m1, r, path1);
    MapPageIs(m, root, path1, v, phys, flags);
    if r.Some? {
      LeafBacked(m1, root, path1, v, LeafEntry(phys, flags));
      LeafKeepsMapped(m1, root, path1, v, LeafEntry(phys, flags), v', phys');
    }
  }

  /** Unmapping a page leaves the other pages mapped as they are. */
  lemma UnmapKeepsMapped(m: Memory, root: nat, path: map<nat, seq<nat>>, v: nat, v': nat, phys': nat)
    requires Backed(m, root, path) && MappedTo(m.tables, root, v', phys') && !SamePage(v, v')
    ensures MappedTo(UnmapPage(m, root, v).tables, root, v', phys')
  {
    hide *;
    UnmapIs(m, root, path, v);
    if Descends(m.tables, root, v, 3) { LeafKeepsMapped(m, root, path, v, 0, v', phys'); }
  }

  // ---------------------------------------------------------------- distinct pages of a range

  /** Where the addresses of a space lie: a window of 2^47 bytes, in which no two pages share their
      table indices. */
  function Window(isUser: bool): nat {
    if isUser then 0 else 0xFFFF_8000_0000_0000
  }

  predicate InWindow(v: nat, isUser: bool) {
    v % PAGE == 0 && Window(isUser) <= v < Window(isUser) + 0x8000_0000_0000
  }

  lemma Digits(q: nat)
    ensures q == (((q / 512 / 512 / 512 / 512 * 512 + q / 512 / 512 / 512 % 512) * 512 + q / 512 / 512 % 512) * 512
                  + q / 512 % 512) * 512 + q % 512
  {
  }

  lemma IndexDigits(v: nat)
    ensures var q := v / PAGE;
            && Index(v, 3) == q % 512 && Index(v, 2) == q / 512 % 512
            && Index(v, 1) == q / 512 / 512 % 512 && Index(v, 0) == q / 512 / 512 / 512 % 512
  {
    assert v / 0x20_0000 == v / 4096 / 512;
    assert v / 0x4000_0000 == v / 4096 / 512 / 512;
    assert v / 0x80_0000_0000 == v / 4096 / 512 / 512 / 512;
  }

  lemma SameIndices(v: nat, v': nat)
    requires SamePage(v, v')
    ensures Index(v, 0) == Index(v', 0) && Index(v, 1) == Index(v', 1) && Index(v, 2) == Index(v', 2)
    ensures Index(v, 3) == Index(v', 3)
  {
    hide Index;
    SamePageIs(v, v');
    PathStep(v, v', 2);
    PathStep(v, v', 1);
    PathStep(v, v', 0);
  }

  lemma CloseMultiples(a: nat, b: nat, x: nat, y: nat, d: nat)
    requires a == x * 0x10_0000_0000 + d && b == y * 0x10_0000_0000 + d && -0x8_0000_0000 < a - b < 0x8_0000_0000
    ensures a == b
  {
  }

  lemma PagesDistinct(v: nat, v': nat, isUser: bool)
    requires InWindow(v, isUser) && InWindow(v', isUser) && SamePage(v, v')
    ensures v == v'
  {
    var q, q' := v / PAGE, v' / PAGE;
    SameIndices(v, v');
    IndexDigits(v);
    IndexDigits(v');
    Digits(q);
    Digits(q');
    var i0, i1, i2, i3 := Index(v, 0), Index(v, 1), Index(v, 2), Index(v, 3);
    var d := ((i0 * 512 + i1) * 512 + i2) * 512 + i3;
    var x, y := q / 512 / 512 / 512 / 512, q' / 512 / 512 / 512 / 512;
    WindowClose(v, v', isUser);
    hide *;
    CloseMultiples(q, q', x, y, d);
  }

  lemma WindowClose(v: nat, v': nat, isUser: bool)
    requires InWindow(v, isUser) && InWindow(v', isUser)
    ensures -0x8_0000_0000 < v / PAGE - v' / PAGE < 0x8_0000_0000
    ensures v / PAGE == v' / PAGE ==> v == v'
  {
  }

  // ---------------------------------------------------------------- pages in use

  /** Page `v` goes to frame `f`, which is in use and holds no table. */
  ghost predicate Held(m: Memory, root: nat, path: map<nat, seq<nat>>, v: nat, f: nat) {
    MappedTo(m.tables, root, v, f) && Reserved(m, path, f)
  }

  ghost predicate Reserved(m: Memory, path: map<nat, seq<nat>>, f: nat) {
    0 < f && f % PAGE == 0 && IsFrame(m.frames, f) && !Free(m.frames, f) && f !in path
  }

  /** Every page in `live` is in the window below `top`, and has a frame of its own. */
  ghost predicate LivePages(m: Memory, root: nat, path: map<nat, seq<nat>>, isUser: bool, live: map<nat, nat>,
                            top: nat) {
    && (forall v :: v in live ==>
        InWindow(v, isUser) && Start(isUser) + PAGE <= v < top && Held(m, root, path, v, live[v]))
    && (forall v, v' :: v in live && v' in live && live[v] == live[v'] ==> v == v')
  }

  /** Frames set aside, distinct and not behind any live page. */
  ghost predicate Spare(m: Memory, path: map<nat, seq<nat>>, live: map<nat, nat>, fs: seq<nat>) {
    && (forall i :: 0 <= i < |fs| ==> Reserved(m, path, fs[i]))
    && (forall i, j :: 0 <= i < j < |fs| ==> fs[i] != fs[j])
    && (forall i, v :: 0 <= i < |fs| && v in live ==> live[v] != fs[i])
  }

  lemma ReservedKept(m: Memory, m': Memory, path: map<nat, seq<nat>>, path': map<nat, seq<nat>>, f: nat)
    requires OnlyTaken(m, m', path, path') && Reserved(m, path, f)
    ensures Reserved(m', path', f)
  {
    hide Free, IsFrame, SameShape;
  }

  /** Mapping the next page keeps all pages in use. */
  lemma MapNext(m: Memory, root: nat, path: map<nat, seq<nat>>, isUser: bool, live: map<nat, nat>, v: nat,
                fs: seq<nat>, flags: nat)
    returns (path': map<nat, seq<nat>>)
    requires Backed(m, root, path) && LivePages(m, root, path, isUser, live, v) && Spare(m, path, live, fs) && fs != []
    requires InWindow(v, isUser) && Start(isUser) + PAGE <= v && flags < 4096
    ensures var m' := MapPage(m, root, v, fs[0], flags);
            var need, have := Needs(m.tables, root, v, 0), FreeCount(m.frames);
            var live' := if need <= have then live[v := fs[0]] else live;
            && Backed(m', root, path') && OnlyTaken(m, m', path, path')
            && LivePages(m', root, path', isUser, live', v + PAGE) && Spare(m', path', live', fs[1..])
            && FreeCount(m'.frames) == have - Min(need, have)
  {
    var m', f := MapPage(m, root, v, fs[0], flags), fs[0];
    hide *;
    SpareIs(m, path, live, fs);
    ReservedIs(m, path, f);
    path' := MapPageSpec(m, root, path, v, f, flags);
    LiveKept(m, m', root, path, path', isUser, live, v, f, flags);
    SpareKept(m, m', path, path', live, fs);
    SpareIs(m', path', live, fs);
    if Needs(m.tables, root, v, 0) <= FreeCount(m.frames) {
      LiveAdd(m', root, path', isUser, live, v, f);
      SpareRest(m', path', live[v := f], fs);
    } else {
      LiveTop(m', root, path', isUser, live, v);
      SpareRest(m', path', live, fs);
    }
  }

  lemma SpareIs(m: Memory, path: map<nat, seq<nat>>, live: map<nat, nat>, fs: seq<nat>)
    requires Spare(m, path, live, fs) && fs != []
    ensures Reserved(m, path, fs[0]) && forall v :: v in live ==> live[v] != fs[0]
  {
  }

  lemma ReservedIs(m: Memory, path: map<nat, seq<nat>>, f: nat)
    requires Reserved(m, path, f)
    ensures 0 < f && f % 4096 == 0 && IsFrame(m.frames, f) && !Free(m.frames, f) && f !in path
  {
  }

  lemma LiveKept(m: Memory, m': Memory, root: nat, path: map<nat, seq<nat>>, path': map<nat, seq<nat>>, isUser: bool,
                 live: map<nat, nat>, v: nat, f: nat, flags: nat)
    requires Backed(m, root, path) && LivePages(m, root, path, isUser, live, v) && InWindow(v, isUser)
    requires m' == MapPage(m, root, v, f, flags) && OnlyTaken(m, m', path, path')
    ensures LivePages(m', root, path', isUser, live, v)
  {
    hide MapPage, Backed, OnlyTaken, MappedTo, Reserved, SamePage, Window;
    forall u | u in live ensures Held(m', root, path', u, live[u]) {
      assert Held(m, root, path, u, live[u]);
      if SamePage(v, u) {
        PagesDistinct(v, u, isUser);
        assert false;
      }
      MapKeepsMapped(m, root, path, v, f, flags, u, live[u]);
      ReservedKept(m, m', path, path', live[u]);
    }
  }

  lemma LiveAdd(m: Memory, root: nat, path: map<nat, seq<nat>>, isUser: bool, live: map<nat, nat>, v: nat, f: nat)
    requires LivePages(m, root, path, isUser, live, v) && InWindow(v, isUser) && Start(isUser) + PAGE <= v
    requires MappedTo(m.tables, root, v, f) && Reserved(m, path, f) && forall u :: u in live ==> live[u] != f
    ensures LivePages(m, root, path, isUser, live[v := f], v + PAGE)
  {
    hide MappedTo, Reserved, InWindow, Start;
  }

  lemma LiveTop(m: Memory, root: nat, path: map<nat, seq<nat>>, isUser: bool, live: map<nat, nat>, v: nat)
    requires LivePages(m, root, path, isUser, live, v)
    ensures LivePages(m, root, path, isUser, live, v + PAGE)
  {
    hide Held, InWindow, Start;
  }

  lemma SpareKept(m: Memory, m': Memory, path: map<nat, seq<nat>>, path': map<nat, seq<nat>>, live: map<nat, nat>,
                  fs: seq<nat>)
    requires OnlyTaken(m, m', path, path') && Spare(m, path, live, fs)
    ensures Spare(m', path', live, fs)
  {
    hide OnlyTaken, Reserved;
    forall i | 0 <= i < |fs| ensures Reserved(m', path', fs[i]) { ReservedKept(m, m', path, path', fs[i]); }
  }

  lemma SpareRest(m: Memory, path: map<nat, seq<nat>>, live: map<nat, nat>, fs: seq<nat>)
    requires fs != [] && (forall i :: 0 <= i < |fs| ==> Reserved(m, path, fs[i]))
    requires forall i, j :: 0 <= i < j < |fs| ==> fs[i] != fs[j]
    requires forall i, v :: 1 <= i < |fs| && v in live ==> live[v] != fs[i]
    ensures Spare(m, path, live, fs[1..])
  {
    hide Reserved;
  }

  /** Mapping `n` pages of a range, one by one. */
  lemma {:induction false} MapRangeSpec(m: Memory, root: nat, path: map<nat, seq<nat>>, isUser: bool,
                                        live: map<nat, nat>,
                                        v: nat, fs: seq<nat>, n: nat, flags: nat)
    returns (path': map<nat, seq<nat>>)
    requires Backed(m, root, path) && LivePages(m, root, path, isUser, live, v) && Spare(m, path, live, fs) && n <= |fs|
    requires InWindow(v, isUser) && Start(isUser) + PAGE <= v && flags < 4096
    requires PageAt(v, n) <= Window(isUser) + 0x8000_0000_0000
    ensures var m' := MapRange(m, root, v, fs[..n], flags);
            var live' := MapLive(m, root, v, fs[..n], flags, live);
            && Backed(m', root, path') && OnlyTaken(m, m', path, path')
            && LivePages(m', root, path', isUser, live', PageAt(v, n)) && Spare(m', path', live', fs[n..])
            && FreeCount(m'.frames) ==
               FreeCount(m.frames) - Min(RangeNeeds(m, root, v, fs[..n], flags), FreeCount(m.frames))
            && (RangeNeeds(m, root, v, fs[..n], flags) <= FreeCount(m.frames) <==> forall i :: 0 <= i < n ==>
                PageAt(v, i) in live')
            && (forall u :: u in live ==> u in live' && live'[u] == live[u])
            && (forall u :: u in live' && u !in live ==>
                exists i :: 0 <= i < n && u == PageAt(v, i) && live'[u] == fs[i])
            && (forall i :: 0 <= i < n ==> PageAt(v, i) in live' || !Reaches(m'.tables, root, PageAt(v, i), 4))
  {
    hide *;
    if n == 0 {
      RangeNone(m, root, v, flags, live);
      assert fs[..n] == [] && fs[n..] == fs;
      OnlyTakenSelf(m, path);
      path' := path;
    } else {
      var k := n - 1;
      WindowStep(v, k, isUser);
      var path1 := MapRangeSpec(m, root, path, isUser, live, v, fs, k, flags);
      var m1 := MapRange(m, root, v, fs[..k], flags);
      var live1 := MapLive(m, root, v, fs[..k], flags, live);
      assert fs[..n][..k] == fs[..k] && fs[k..][0] == fs[k] && fs[k..][1..] == fs[n..];
      RangeStep(m, root, v, fs[..n], flags, live);
      path' := MapNext(m1, root, path1, isUser, live1, PageAt(v, k), fs[k..], flags);
      var m' := MapRange(m, root, v, fs[..n], flags);
      OnlyTakenTrans(m, m1, m', path, path1, path');
      var need, need1, have :=
        Needs(m1.tables, root, PageAt(v, k), 0), RangeNeeds(m, root, v, fs[..k], flags), FreeCount(m.frames);
      MinIs(need, FreeCount(m1.frames));
      MinIs(need1, have);
      MinIs(need1 + need, have);
      LiveBelow(m1, root, path1, isUser, live1, PageAt(v, k));
      AllIn(live1, MapLive(m, root, v, fs[..n], flags, live), v, k, fs[k], need <= FreeCount(m1.frames));
      LiveGrows(live, live1, MapLive(m, root, v, fs[..n], flags, live), v, fs, k);
      SpareIs(m1, path1, live1, fs[k..]);
      ReservedIs(m1, path1, fs[k]);
      forall i | 0 <= i < n && PageAt(v, i) !in MapLive(m, root, v, fs[..n], flags, live)
        ensures !Reaches(m'.tables, root, PageAt(v, i), 4)
      {
        StillUnmapped(m1, root, path1, isUser, v, i, k, fs[k], flags);
      }
    }
  }

  /** A page of a range that has not been mapped stays unmapped when page `k` is dealt with. */
  lemma StillUnmapped(m: Memory, root: nat, path: map<nat, seq<nat>>, isUser: bool,
                      v: nat, i: nat, k: nat, f: nat, flags: nat)
    requires Backed(m, root, path) && f % 4096 == 0 && flags < 4096 && i <= k
    requires InWindow(v, isUser) && PageAt(v, k + 1) <= Window(isUser) + 0x8000_0000_0000
    requires if i == k then Needs(m.tables, root, PageAt(v, k), 0) > FreeCount(m.frames)
             else FreeCount(m.frames) == 0 && !Reaches(m.tables, root, PageAt(v, i), 4)
    ensures !Reaches(MapPage(m, root, PageAt(v, k), f, flags).tables, root, PageAt(v, i), 4)
  {
    hide *;
    if i == k {
      MapFails(m, root, path, PageAt(v, k), f, flags);
    } else {
      WindowAt(v, i, k, isUser);
      PageAtInjective(v, i, k);
      if SamePage(PageAt(v, k), PageAt(v, i)) { PagesDistinct(PageAt(v, k), PageAt(v, i), isUser); }
      MapStuck(m, root, path, PageAt(v, k), f, flags, PageAt(v, i));
    }
  }

  lemma WindowAt(v: nat, i: nat, k: nat, isUser: bool)
    requires InWindow(v, isUser) && PageAt(v, k + 1) <= Window(isUser) + 0x8000_0000_0000 && i <= k
    ensures InWindow(PageAt(v, i), isUser) && InWindow(PageAt(v, k), isUser)
  {
  }

  /** Page `k` is in use exactly if it was mapped; the pages before it as they were. */
  lemma AllIn(live1: map<nat, nat>, live2: map<nat, nat>, v: nat, k: nat, f: nat, mapped: bool)
    requires PageAt(v, k) !in live1 && live2 == if mapped then live1[PageAt(v, k) := f] else live1
    ensures (forall i :: 0 <= i < k + 1 ==> PageAt(v, i) in live2) <==>
            mapped && forall i :: 0 <= i < k ==> PageAt(v, i) in live1
  {
    forall i | 0 <= i < k ensures PageAt(v, i) in live2 <==> PageAt(v, i) in live1 { PageAtInjective(v, i, k); }
    assert PageAt(v, k) in live2 <==> mapped;
  }

  lemma LiveBelow(m: Memory, root: nat, path: map<nat, seq<nat>>, isUser: bool, live: map<nat, nat>, top: nat)
    requires LivePages(m, root, path, isUser, live, top)
    ensures top !in live
  {
  }

  lemma RangeNone(m: Memory, root: nat, v: nat, flags: nat, live: map<nat, nat>)
    ensures RangeNeeds(m, root, v, [], flags) == 0 && Min(0, FreeCount(m.frames)) == 0
    ensures MapRange(m, root, v, [], flags) == m && MapLive(m, root, v, [], flags, live) == live && PageAt(v, 0) == v
  {
  }

  lemma RangeStep(m: Memory, root: nat, v: nat, fs: seq<nat>, flags: nat, live: map<nat, nat>)
    requires fs != []
    ensures var n := |fs| - 1;
            var m1, live1 := MapRange(m, root, v, fs[..n], flags), MapLive(m, root, v, fs[..n], flags, live);
            && MapRange(m, root, v, fs, flags) == MapPage(m1, root, PageAt(v, n), fs[n], flags)
            && RangeNeeds(m, root, v, fs, flags) ==
               RangeNeeds(m, root, v, fs[..n], flags) + Needs(m1.tables, root, PageAt(v, n), 0)
            && MapLive(m, root, v, fs, flags, live) ==
                 (if Needs(m1.tables, root, PageAt(v, n), 0) <= FreeCount(m1.frames)
                  then live1[PageAt(v, n) := fs[n]] else live1)
  {
  }

  lemma WindowStep(v: nat, k: nat, isUser: bool)
    requires InWindow(v, isUser) && PageAt(v, k + 1) <= Window(isUser) + 0x8000_0000_0000
    ensures PageAt(v, k) <= Window(isUser) + 0x8000_0000_0000
    ensures InWindow(PageAt(v, k), isUser) && v <= PageAt(v, k) && PageAt(v, k) + PAGE == PageAt(v, k + 1)
  {
  }

  /** What is known of the live pages when one more page of a range has been dealt with. */
  lemma LiveGrows(live: map<nat, nat>, live1: map<nat, nat>, live2: map<nat, nat>, v: nat, fs: seq<nat>, k: nat)
    requires k < |fs| && PageAt(v, k) !in live1
    requires forall u :: u in live ==> u in live1 && live1[u] == live[u]
    requires forall u :: u in live1 && u !in live ==> exists i :: 0 <= i < k && u == PageAt(v, i) && live1[u] == fs[i]
    requires live2 == live1 || live2 == live1[PageAt(v, k) := fs[k]]
    ensures forall u :: u in live ==> u in live2 && live2[u] == live[u]
    ensures forall u :: u in live2 && u !in live ==>
              exists i :: 0 <= i < k + 1 && u == PageAt(v, i) && live2[u] == fs[i]
  {
    forall u | u in live2 && u !in live ensures exists i :: 0 <= i < k + 1 && u == PageAt(v, i) && live2[u] == fs[i] {
      if u == PageAt(v, k) && u !in live1 {
        assert 0 <= k < k + 1 && u == PageAt(v, k) && live2[u] == fs[k];
      } else {
        var i :| 0 <= i < k && u == PageAt(v, i) && live1[u] == fs[i];
      }
    }
  }

  // ---------------------------------------------------------------- allocating

  /** `Vmm_Malloc`: the address of the range, or 0. */
  function Malloc(s: Space, size: nat): (Space, nat) {
    var n := PagesFor(size);
    if size == 0 || !Fits(s.address, n * PAGE, s.isUser) then (s, 0)
    else
      var (rs, fs) := Collect(s.mem.frames, n);
      if |fs| < n then (s.(mem := s.mem.(frames := GiveAll(rs, fs))), 0)
      else
        (s.(mem := MapRange(Memory(rs, s.mem.tables), s.root, s.address, fs, s.flags),
            address := (s.address + n * PAGE) % TWO_64,
            bytes := (s.bytes + n * PAGE) % TWO_64,
            pages := (s.pages + n) % TWO_64),
         s.address)
  }

  /** The pages that are backed afterwards. */
  ghost function MallocLive(s: Space, live: map<nat, nat>, size: nat): map<nat, nat> {
    if Malloc(s, size).1 == 0 then live
    else
      var (rs, fs) := Collect(s.mem.frames, PagesFor(size));
      MapLive(Memory(rs, s.mem.tables), s.root, s.address, fs, s.flags, live)
  }

  ghost predicate SpaceInv(s: Space, path: map<nat, seq<nat>>, live: map<nat, nat>) {
    && Backed(s.mem, s.root, path) && s.flags < 4096
    && s.address % PAGE == 0 && Start(s.isUser) + PAGE <= s.address <= Limit(s.isUser)
    && LivePages(s.mem, s.root, path, s.isUser, live, s.address)
  }

  /** The frames collected for an allocation are spare. */
  lemma CollectedSpare(s: Space, path: map<nat, seq<nat>>, live: map<nat, nat>, n: nat)
    requires SpaceInv(s, path, live)
    ensures var (rs, fs) := Collect(s.mem.frames, n);
            var m1 := Memory(rs, s.mem.tables);
            && Backed(m1, s.root, path) && LivePages(m1, s.root, path, s.isUser, live, s.address)
            && Spare(m1, path, live, fs) && FreeCount(s.mem.frames) == FreeCount(rs) + |fs|
            && (forall f :: f in fs ==> Free(s.mem.frames, f))
            && (forall g :: Free(rs, g) ==> Free(s.mem.frames, g))
  {
    var (rs, fs) := Collect(s.mem.frames, n);
    var m1 := Memory(rs, s.mem.tables);
    hide Collect, Free, IsFrame, WellPlaced, SameShape, FreeCount, Tree, MappedTo, InWindow, Start, Limit;
    CollectSpec(s.mem.frames, n);
    forall i | 0 <= i < |fs| ensures Reserved(m1, path, fs[i]) {
      assert fs[i] in fs;
      FreeIsFrame(s.mem.frames, fs[i]);
    }
    forall v | v in live ensures Held(m1, s.root, path, v, live[v]) && live[v] !in fs {
      assert Held(s.mem, s.root, path, v, live[v]);
    }
  }

  /** Either the allocation fails and leaves everything, bitmaps included, exactly as it was; or it
      returns the range of pages at the old top, and moves the top past it. */
  lemma MallocResult(s: Space, path: map<nat, seq<nat>>, live: map<nat, nat>, size: nat)
    requires SpaceInv(s, path, live)
    ensures var (s', r) := Malloc(s, size);
            var n := PagesFor(size);
            && (r == 0 ==> s' == s)
            && (r != 0 <==> size > 0 && Fits(s.address, n * PAGE, s.isUser) && n <= FreeCount(s.mem.frames))
            && (r != 0 ==> r == s.address && |Collect(s.mem.frames, n).1| == n)
            && s'.root == s.root && s'.isUser == s.isUser && s'.flags == s.flags
  {
    hide Collect, GiveAll, Free, IsFrame, SameShape, FreeCount, Tree, LivePages, Fits, PagesFor, MapRange, WellPlaced;
    RollbackRestores(s.mem.frames, PagesFor(size));
    CollectSpec(s.mem.frames, PagesFor(size));
  }

  /** `Vmm_Malloc` that does not wrap around: it fails leaving everything as it was, or returns a
      page-aligned range directly above all earlier ones.  Its pages go to distinct frames that were
      free; each page is mapped to its frame or not mapped at all, and all are mapped if and only if there
      are frames for the tables missing before the call too, and so if there are five free frames per
      page.  All pages in use before keep theirs. */
  lemma MallocSpec(s: Space, path: map<nat, seq<nat>>, live: map<nat, nat>,
                   size: nat) returns (path': map<nat, seq<nat>>)
    requires SpaceInv(s, path, live) && s.address + PagesFor(size) * PAGE < TWO_64
    ensures var (s', r) := Malloc(s, size);
            var n, live' := PagesFor(size), MallocLive(s, live, size);
            && SpaceInv(s', path', live')
            && (r == 0 ==> s' == s && live' == live)
            && (r != 0 ==> r == s.address && r % PAGE == 0 && s'.address == PageAt(r, n))
            && (forall u :: u in live ==> u in live' && live'[u] == live[u])
            && (forall u :: u in live' && u !in live ==>
                  Free(s.mem.frames, live'[u]) && exists i :: 0 <= i < n && u == PageAt(r, i))
            && (r != 0 ==> BackedExactly(s, s', live', n))
  {
    var (s', r) := Malloc(s, size);
    hide *;
    MallocResult(s, path, live, size);
    MallocLiveIs(s, live, size);
    path' := path;
    if r != 0 {
      var n := PagesFor(size);
      var (rs, fs) := Collect(s.mem.frames, n);
      var m1 := Memory(rs, s.mem.tables);
      SpaceIs(s, path, live);
      BackedIs(s.mem, s.root, path);
      CollectedSpare(s, path, live, n);
      FitsIs(s, n);
      MallocIs(s, size);
      path' := MapRangeSpec(m1, s.root, path, s.isUser, live, s.address, fs, n, s.flags);
      assert fs[..n] == fs;
      LiveUnder(s.mem, s.root, path, s.isUser, live, s.address);
      CollectAligned(s, path, live, n);
      RangeExact(m1, s.root, path, s.address, fs, n, s.flags);
      RangeBackedExactly(s, s', path', live, MallocLive(s, live, size), n);
      SpaceIf(s', path', MallocLive(s, live, size));
    }
  }

  /** Which pages of a new range are mapped: page `i` either to the frame collected for it, and then it is
      in use, or not at all; all of them exactly if there are enough free frames for the pages, for the
      tables that they lack, and for the pages that the walks put in and `map_page` replaces. */
  ghost predicate BackedExactly(s: Space, s': Space, live: map<nat, nat>, n: nat) {
    var fs := Collect(s.mem.frames, n).1;
    && |fs| == n
    && (forall i :: 0 <= i < n ==>
        if PageAt(s.address, i) in live then MappedTo(s'.mem.tables, s.root, PageAt(s.address, i), fs[i])
                                   else !Reaches(s'.mem.tables, s.root, PageAt(s.address, i), 4))
    && ((forall i :: 0 <= i < n ==> MappedTo(s'.mem.tables, s.root, PageAt(s.address, i), fs[i])) <==>
        n + TablesFor(s.mem.tables, s.root, s.address, n) <= FreeCount(s.mem.frames))
    && (5 * n <= FreeCount(s.mem.frames) ==> forall i :: 0 <= i < n ==> PageAt(s.address, i) in live)
  }

  /** The pages of a range that are in use are those mapped to their frames. */
  lemma RangeMapped(m: Memory, root: nat, path: map<nat, seq<nat>>, isUser: bool, live: map<nat, nat>,
                    live': map<nat, nat>,
                    v: nat, fs: seq<nat>, n: nat, top: nat, i: nat)
    requires LivePages(m, root, path, isUser, live', top) && i < n <= |fs| && (forall u :: u in live ==> u < v)
    requires forall u :: u in live' && u !in live ==> exists i :: 0 <= i < n && u == PageAt(v, i) && live'[u] == fs[i]
    requires PageAt(v, i) in live' || !Reaches(m.tables, root, PageAt(v, i), 4)
    ensures PageAt(v, i) in live' <==> MappedTo(m.tables, root, PageAt(v, i), fs[i])
  {
    var u := PageAt(v, i);
    if u in live' {
      assert u !in live;
      var j :| 0 <= j < n && u == PageAt(v, j) && live'[u] == fs[j];
      PageAtInjective(v, i, j);
      assert Held(m, root, path, u, live'[u]);
    } else {
      if MappedTo(m.tables, root, u, fs[i]) { MappedReaches(m.tables, root, u, fs[i]); }
    }
  }

  /** What the mapping of a range makes of its pages. */
  lemma RangeBackedExactly(s: Space, s': Space, path': map<nat, seq<nat>>, live: map<nat, nat>, live': map<nat, nat>,
                           n: nat)
    requires var (rs, fs) := Collect(s.mem.frames, n);
             var m1 := Memory(rs, s.mem.tables);
             && |fs| == n && LivePages(s'.mem, s.root, path', s.isUser, live', PageAt(s.address, n))
             && (forall u :: u in live ==> u < s.address)
             && (forall u :: u in live' && u !in live ==>
                 exists i :: 0 <= i < n && u == PageAt(s.address, i) && live'[u] == fs[i])
             && (forall i :: 0 <= i < n ==>
                 PageAt(s.address, i) in live' || !Reaches(s'.mem.tables, s.root, PageAt(s.address, i), 4))
             && (RangeNeeds(m1, s.root, s.address, fs, s.flags) <= FreeCount(rs) <==>
                 forall i :: 0 <= i < n ==> PageAt(s.address, i) in live')
             && (RangeNeeds(m1, s.root, s.address, fs, s.flags) <= FreeCount(rs) <==>
                 TablesFor(s.mem.tables, s.root, s.address, n) <= FreeCount(rs))
             && FreeCount(s.mem.frames) == FreeCount(rs) + n
    ensures BackedExactly(s, s', live', n)
  {
    var (rs, fs) := Collect(s.mem.frames, n);
    hide Collect, LivePages, MappedTo, Reaches, FreeCount, PageAt, RangeNeeds, TablesFor;
    RangeNeedsAtMost(Memory(rs, s.mem.tables), s.root, s.address, fs, s.flags);
    forall i | 0 <= i < n
      ensures PageAt(s.address, i) in live' <==> MappedTo(s'.mem.tables, s.root, PageAt(s.address, i), fs[i])
    {
      RangeMapped(s'.mem, s.root, path', s.isUser, live, live', s.address, fs, n, PageAt(s.address, n), i);
    }
  }

  lemma LiveUnder(m: Memory, root: nat, path: map<nat, seq<nat>>, isUser: bool, live: map<nat, nat>, top: nat)
    requires LivePages(m, root, path, isUser, live, top)
    ensures forall u :: u in live ==> u < top
  {
  }

  lemma CollectAligned(s: Space, path: map<nat, seq<nat>>, live: map<nat, nat>, n: nat)
    requires SpaceInv(s, path, live)
    ensures Aligned(Collect(s.mem.frames, n).1)
  {
    hide Collect, Free, IsFrame, WellPlaced, SameShape, FreeCount, Tree, LivePages, Start, Limit;
    CollectSpec(s.mem.frames, n);
    var fs := Collect(s.mem.frames, n).1;
    forall i | 0 <= i < |fs| ensures fs[i] % 4096 == 0 { assert fs[i] in fs; }
  }

  lemma MallocLiveIs(s: Space, live: map<nat, nat>, size: nat)
    ensures var (rs, fs) := Collect(s.mem.frames, PagesFor(size));
            MallocLive(s, live, size) ==
            if Malloc(s, size).1 == 0 then live
            else MapLive(Memory(rs, s.mem.tables), s.root, s.address, fs, s.flags, live)
  {
    hide Malloc, Collect, MapLive, PagesFor;
  }

  lemma MallocIs(s: Space, size: nat)
    requires Malloc(s, size).1 != 0
    ensures var n := PagesFor(size);
            var (rs, fs) := Collect(s.mem.frames, n);
            && Malloc(s, size).0.mem == MapRange(Memory(rs, s.mem.tables), s.root, s.address, fs, s.flags)
            && Malloc(s, size).0.address == (s.address + n * PAGE) % TWO_64
  {
    hide Fits, Collect, GiveAll, MapRange, PagesFor;
  }

  lemma SpaceIs(s: Space, path: map<nat, seq<nat>>, live: map<nat, nat>)
    requires SpaceInv(s, path, live)
    ensures Backed(s.mem, s.root, path) && s.flags < 4096
    ensures s.address % PAGE == 0 && Start(s.isUser) + PAGE <= s.address <= Limit(s.isUser)
    ensures LivePages(s.mem, s.root, path, s.isUser, live, s.address) && InWindow(s.address, s.isUser)
  {
  }

  lemma SpaceIf(s: Space, path: map<nat, seq<nat>>, live: map<nat, nat>)
    requires Backed(s.mem, s.root, path) && s.flags < 4096
    requires s.address % PAGE == 0 && Start(s.isUser) + PAGE <= s.address <= Limit(s.isUser)
    requires LivePages(s.mem, s.root, path, s.isUser, live, s.address)
    ensures SpaceInv(s, path, live)
  {
  }

  lemma FitsIs(s: Space, n: nat)
    requires Fits(s.address, n * PAGE, s.isUser) && s.address + n * PAGE < TWO_64 && s.address % PAGE == 0
    ensures (s.address + n * PAGE) % TWO_64 == PageAt(s.address, n) <= Limit(s.isUser)
    ensures s.address <= PageAt(s.address, n)
    ensures PageAt(s.address, n) <= Window(s.isUser) + 0x8000_0000_0000 && PageAt(s.address, n) % PAGE == 0
  {
  }

  // ---------------------------------------------------------------- freeing

  /** One turn of the loop in `Vmm_Free`. */
  function FreePage(m: Memory, root: nat, v: nat): Memory {
    var phys := Translate(m.tables, root, v);
    if phys == 0 then m
    else
      var m1 := UnmapPage(m, root, v);
      m1.(frames := GiveFrame(m1.frames, phys))
  }

  function FreePages(m: Memory, root: nat, v: nat, n: nat): Memory {
    if n == 0 then m else FreePage(FreePages(m, root, v, n - 1), root, PageAt(v, n - 1))
  }

  /** `Vmm_Free` looks at the address and the size, and returns at once. */
  predicate Ignored(s: Space, v: nat, size: nat) {
    v == 0 || size == 0 || v < Start(s.isUser) + PAGE || v > s.address
  }

  /** `Vmm_Free`. */
  function Release(s: Space, v: nat, size: nat): Space {
    var n := PagesFor(size);
    if Ignored(s, v, size) then s
    else s.(mem := FreePages(s.mem, s.root, v, n),
            bytes := (s.bytes - n * PAGE) % TWO_64,
            pages := (s.pages - n) % TWO_64)
  }

  /** `live` without the first `n` pages from `v` on. */
  function DropPages(live: map<nat, nat>, v: nat, n: nat): map<nat, nat> {
    if n == 0 then live else DropPages(live, v, n - 1) - {PageAt(v, n - 1)}
  }

  /** A page that may be freed: it is in use, or not mapped at all. */
  ghost predicate Freeable(m: Memory, root: nat, live: map<nat, nat>, v: nat) {
    v in live || Translate(m.tables, root, v) == 0
  }

  lemma FreeableIs(m: Memory, root: nat, live: map<nat, nat>, v: nat)
    ensures Freeable(m, root, live, v) <==> v in live || Translate(m.tables, root, v) == 0
  {
  }

  /** Freeing a page unmaps it, frees its frame if it was in use, and leaves every other page in use alone. */
  lemma FreePageSpec(m: Memory, root: nat, path: map<nat, seq<nat>>, isUser: bool, live: map<nat, nat>, top: nat,
                     v: nat)
    requires Backed(m, root, path) && LivePages(m, root, path, isUser, live, top) && Freeable(m, root, live, v)
    ensures var m' := FreePage(m, root, v);
            && Backed(m', root, path) && LivePages(m', root, path, isUser, live - {v}, top)
            && Translate(m'.tables, root, v) == 0
            && (forall u :: Translate(m.tables, root, u) == 0 ==> Translate(m'.tables, root, u) == 0)
            && (forall g :: Free(m'.frames, g) <==> Free(m.frames, g) || (v in live && g == live[v]))
  {
    hide *;
    FreeableIs(m, root, live, v);
    if v in live {
      LivePage(m, root, path, isUser, live, top, v);
      HeldIs(m, root, path, v, live[v]);
      InWindowIs(v, isUser);
      FreeHeld(m, root, path, v, live[v]);
      LiveAfterFree(m, FreePage(m, root, v), root, path, isUser, live, top, v);
    } else {
      FreeNothing(m, root, v);
      assert live - {v} == live;
    }
  }

  /** A page that is not mapped is skipped. */
  lemma FreeNothing(m: Memory, root: nat, v: nat)
    requires Translate(m.tables, root, v) == 0
    ensures FreePage(m, root, v) == m
  {
  }

  lemma FreeHeld(m: Memory, root: nat, path: map<nat, seq<nat>>, v: nat, f: nat)
    requires Backed(m, root, path) && MappedTo(m.tables, root, v, f) && Reserved(m, path, f) && v % 4096 == 0
    ensures var m' := FreePage(m, root, v);
            && Backed(m', root, path) && m'.tables == UnmapPage(m, root, v).tables
            && Translate(m'.tables, root, v) == 0
            && (forall u :: Translate(m.tables, root, u) == 0 ==> Translate(m'.tables, root, u) == 0)
            && (forall g :: Free(m'.frames, g) <==> Free(m.frames, g) || g == f)
            && (forall g :: IsFrame(m'.frames, g) <==> IsFrame(m.frames, g))
  {
    hide *;
    ReservedIs(m, path, f);
    MappedTranslates(m.tables, root, v, f);
    FreePageIs(m, root, v);
    UnmapPageSpec(m, root, path, v);
    var m1 := UnmapPage(m, root, v);
    BackedIs(m1, root, path);
    GiveFrameSpec(m1.frames, f);
    GivenBacked(m1, FreePage(m, root, v), root, path, f);
    SamePageIs(v, v);
    MappedDescends(m.tables, root, v, f);
  }

  lemma LivePage(m: Memory, root: nat, path: map<nat, seq<nat>>, isUser: bool, live: map<nat, nat>, top: nat, v: nat)
    requires LivePages(m, root, path, isUser, live, top) && v in live
    ensures Held(m, root, path, v, live[v]) && InWindow(v, isUser)
  {
  }

  lemma HeldIs(m: Memory, root: nat, path: map<nat, seq<nat>>, v: nat, f: nat)
    ensures Held(m, root, path, v, f) <==> MappedTo(m.tables, root, v, f) && Reserved(m, path, f)
  {
  }

  lemma InWindowIs(v: nat, isUser: bool)
    requires InWindow(v, isUser)
    ensures v % 4096 == 0
  {
  }

  lemma MappedDescends(mem: Tables, root: nat, v: nat, f: nat)
    requires MappedTo(mem, root, v, f)
    ensures Descends(mem, root, v, 3)
  {
  }

  lemma FreePageIs(m: Memory, root: nat, v: nat)
    requires Translate(m.tables, root, v) != 0
    ensures FreePage(m, root, v) ==
            UnmapPage(m, root, v).(frames := GiveFrame(UnmapPage(m, root, v).frames, Translate(m.tables, root, v)))
  {
  }

  lemma GivenBacked(m: Memory, m': Memory, root: nat, path: map<nat, seq<nat>>, f: nat)
    requires Backed(m, root, path) && f !in path && m'.tables == m.tables && WellPlaced(m'.frames)
    requires forall g :: Free(m'.frames, g) <==> Free(m.frames, g) || g == f
    ensures Backed(m', root, path)
  {
    hide Tree, Free, WellPlaced;
  }

  lemma LiveAfterFree(m: Memory, m': Memory, root: nat, path: map<nat, seq<nat>>, isUser: bool, live: map<nat, nat>,
                      top: nat, v: nat)
    requires Backed(m, root, path) && LivePages(m, root, path, isUser, live, top) && v in live
    requires m'.tables == UnmapPage(m, root, v).tables
    requires forall g :: Free(m'.frames, g) <==> Free(m.frames, g) || g == live[v]
    requires forall g :: IsFrame(m'.frames, g) <==> IsFrame(m.frames, g)
    ensures LivePages(m', root, path, isUser, live - {v}, top)
  {
    hide UnmapPage, Backed, Tree, Free, IsFrame, MappedTo, SamePage, Window, Start;
    forall u | u in live && u != v ensures Held(m', root, path, u, live[u]) {
      assert Held(m, root, path, u, live[u]) && live[u] != live[v];
      if SamePage(v, u) {
        PagesDistinct(v, u, isUser);
        assert false;
      }
      UnmapKeepsMapped(m, root, path, v, u, live[u]);
    }
  }

  lemma {:induction false} DropPagesIs(live: map<nat, nat>, v: nat, n: nat)
    ensures forall u :: u in DropPages(live, v, n) <==> u in live && forall i :: 0 <= i < n ==> u != PageAt(v, i)
    ensures forall u :: u in DropPages(live, v, n) ==> DropPages(live, v, n)[u] == live[u]
  {
    hide PageAt;
    if n > 0 {
      DropPagesIs(live, v, n - 1);
      forall u ensures u in DropPages(live, v, n) <==> u in live && forall i :: 0 <= i < n ==> u != PageAt(v, i) {
        var d := DropPages(live, v, n - 1);
        if u in live && (forall i :: 0 <= i < n ==> u != PageAt(v, i)) { assert u in d && u != PageAt(v, n - 1); }
        if u in DropPages(live, v, n) {
          forall i | 0 <= i < n ensures u != PageAt(v, i) { if i < n - 1 { assert u in d; } }
        }
      }
    }
  }

  lemma PageAtInjective(v: nat, i: nat, j: nat)
    ensures PageAt(v, i) == PageAt(v, j) <==> i == j
  {
  }

  /** The frames behind those of the first `n` pages from `v` on that are in use. */
  ghost predicate Behind(live: map<nat, nat>, v: nat, n: nat, f: int) {
    exists i :: 0 <= i < n && PageAt(v, i) in live && live[PageAt(v, i)] == f
  }

  lemma BehindStep(live: map<nat, nat>, v: nat, n: nat, f: int)
    requires n > 0
    ensures var u := PageAt(v, n - 1);
            Behind(live, v, n, f) <==> Behind(live, v, n - 1, f) || (u in live && live[u] == f)
  {
    hide PageAt;
  }

  lemma BehindNone(live: map<nat, nat>, v: nat, f: int)
    ensures !Behind(live, v, 0, f)
  {
  }

  lemma {:induction false} FreePagesSpec(m: Memory, root: nat, path: map<nat, seq<nat>>, isUser: bool,
                                         live: map<nat, nat>,
                                         top: nat, v: nat, n: nat)
    requires Backed(m, root, path) && LivePages(m, root, path, isUser, live, top)
    requires forall i :: 0 <= i < n ==> Freeable(m, root, live, PageAt(v, i))
    ensures var m' := FreePages(m, root, v, n);
            && Backed(m', root, path) && LivePages(m', root, path, isUser, DropPages(live, v, n), top)
            && (forall i :: 0 <= i < n ==> Translate(m'.tables, root, PageAt(v, i)) == 0)
            && (forall u :: Translate(m.tables, root, u) == 0 ==> Translate(m'.tables, root, u) == 0)
            && (forall g :: Free(m'.frames, g) <==> Free(m.frames, g) || Behind(live, v, n, g))
  {
    hide *;
    ReleaseNone(m, root, v, live);
    if n > 0 {
      var m1, d, u := FreePages(m, root, v, n - 1), DropPages(live, v, n - 1), PageAt(v, n - 1);
      FreePagesSpec(m, root, path, isUser, live, top, v, n - 1);
      NextFreeable(m, m1, root, live, v, n);
      FreePageSpec(m1, root, path, isUser, d, top, u);
      FreePagesStep(m, root, v, live, n);
      forall g ensures Behind(live, v, n, g) <==> Behind(live, v, n - 1, g) || (u in live && live[u] == g) {
        BehindStep(live, v, n, g);
      }
    } else {
      forall g ensures !Behind(live, v, 0, g) { BehindNone(live, v, g); }
    }
  }

  /** The next page is still in use, or still not mapped, once those in front of it have been freed. */
  lemma NextFreeable(m: Memory, m1: Memory, root: nat, live: map<nat, nat>, v: nat, n: nat)
    requires n > 0 && Freeable(m, root, live, PageAt(v, n - 1))
    requires forall u :: Translate(m.tables, root, u) == 0 ==> Translate(m1.tables, root, u) == 0
    ensures var d, u := DropPages(live, v, n - 1), PageAt(v, n - 1);
            && Freeable(m1, root, d, u) && (u in d <==> u in live) && (u in d ==> d[u] == live[u])
  {
    hide *;
    var d, u := DropPages(live, v, n - 1), PageAt(v, n - 1);
    DropPagesIs(live, v, n - 1);
    forall i | 0 <= i < n - 1 ensures u != PageAt(v, i) { PageAtInjective(v, i, n - 1); }
    FreeableIs(m, root, live, u);
    FreeableIs(m1, root, d, u);
  }

  lemma FreePagesStep(m: Memory, root: nat, v: nat, live: map<nat, nat>, n: nat)
    requires n > 0
    ensures FreePages(m, root, v, n) == FreePage(FreePages(m, root, v, n - 1), root, PageAt(v, n - 1))
    ensures DropPages(live, v, n) == DropPages(live, v, n - 1) - {PageAt(v, n - 1)}
  {
  }

  /** The pages in use after a call of `Vmm_Free`. */
  ghost function ReleaseLive(s: Space, live: map<nat, nat>, v: nat, size: nat): map<nat, nat> {
    if Ignored(s, v, size) then live else DropPages(live, v, PagesFor(size))
  }

  /** `Vmm_Free` may be called: it returns at once, or each of the pages is in use or not mapped. */
  ghost predicate CanRelease(s: Space, live: map<nat, nat>, v: nat, size: nat) {
    Ignored(s, v, size) || forall i :: 0 <= i < PagesFor(size) ==> Freeable(s.mem, s.root, live, PageAt(v, i))
  }

  lemma CanReleaseIs(s: Space, live: map<nat, nat>, v: nat, size: nat)
    ensures CanRelease(s, live, v, size) <==>
            Ignored(s, v, size) || forall i :: 0 <= i < PagesFor(size) ==> Freeable(s.mem, s.root, live, PageAt(v, i))
  {
  }

  /** `Vmm_Free` of pages that are in use or not mapped: afterwards none of them is mapped, exactly the frames
      behind those in use are free again, every other page keeps its frame, and the top does not come down. */
  lemma ReleaseSpec(s: Space, path: map<nat, seq<nat>>, live: map<nat, nat>, v: nat, size: nat)
    requires SpaceInv(s, path, live) && CanRelease(s, live, v, size)
    ensures var s', n, live' := Release(s, v, size), PagesFor(size), ReleaseLive(s, live, v, size);
            && SpaceInv(s', path, live') && s'.address == s.address
            && (Ignored(s, v, size) ==> s' == s && live' == live)
            && (!Ignored(s, v, size) ==>
                  && (forall u :: u in live' <==> u in live && forall i :: 0 <= i < n ==> u != PageAt(v, i))
                  && (forall i :: 0 <= i < n ==> Translate(s'.mem.tables, s.root, PageAt(v, i)) == 0)
                  && (forall g :: Free(s'.mem.frames, g) <==> Free(s.mem.frames, g) || Behind(live, v, n, g)))
            && (forall u :: u in live' ==> u in live && live'[u] == live[u])
  {
    hide *;
    var n := PagesFor(size);
    ReleaseIs(s, live, v, size);
    CanReleaseIs(s, live, v, size);
    if !Ignored(s, v, size) {
      SpaceIs(s, path, live);
      FreePagesSpec(s.mem, s.root, path, s.isUser, live, s.address, v, n);
      DropPagesIs(live, v, n);
      SpaceMoved(s, Release(s, v, size), path, DropPages(live, v, n));
    }
  }

  lemma {:induction false} FreeNoneOf(m: Memory, root: nat, v: nat, n: nat)
    requires forall i :: 0 <= i < n ==> Translate(m.tables, root, PageAt(v, i)) == 0
    ensures FreePages(m, root, v, n) == m
  {
    hide Translate, PageAt, FreePage;
    if n > 0 {
      FreeNoneOf(m, root, v, n - 1);
      FreeNothing(m, root, PageAt(v, n - 1));
    }
  }

  /** Freeing a range a second time is allowed, and does nothing to tables and frames. */
  lemma ReleaseTwice(s: Space, path: map<nat, seq<nat>>, live: map<nat, nat>, v: nat, size: nat)
    requires SpaceInv(s, path, live) && CanRelease(s, live, v, size)
    ensures var s', live' := Release(s, v, size), ReleaseLive(s, live, v, size);
            CanRelease(s', live', v, size) && Release(s', v, size).mem == s'.mem
  {
    hide *;
    var s', live', n := Release(s, v, size), ReleaseLive(s, live, v, size), PagesFor(size);
    ReleaseSpec(s, path, live, v, size);
    ReleaseIs(s, live, v, size);
    ReleaseIs(s', live', v, size);
    CanReleaseIs(s', live', v, size);
    IgnoredIs(s, s', v, size);
    if !Ignored(s, v, size) {
      forall i | 0 <= i < n
        ensures Freeable(s'.mem, s.root, live', PageAt(v, i))
      {
        FreeableIs(s'.mem, s.root, live', PageAt(v, i));
      }
      FreeNoneOf(s'.mem, s.root, v, n);
    }
  }

  lemma IgnoredIs(s: Space, s': Space, v: nat, size: nat)
    requires s'.address == s.address && s'.isUser == s.isUser
    ensures Ignored(s', v, size) <==> Ignored(s, v, size)
  {
  }

  lemma ReleaseIs(s: Space, live: map<nat, nat>, v: nat, size: nat)
    ensures var s', n, live' := Release(s, v, size), PagesFor(size), ReleaseLive(s, live, v, size);
            if Ignored(s, v, size) then s' == s && live' == live
            else s' == s.(mem := s'.mem, bytes := s'.bytes, pages := s'.pages) &&
                 s'.mem == FreePages(s.mem, s.root, v, n) && live' == DropPages(live, v, n)
  {
    hide PagesFor, Ignored, FreePages, DropPages;
  }

  lemma SpaceMoved(s: Space, s': Space, path: map<nat, seq<nat>>, live: map<nat, nat>)
    requires s' == s.(mem := s'.mem, bytes := s'.bytes, pages := s'.pages) && s.flags < 4096
    requires s.address % PAGE == 0 && Start(s.isUser) + PAGE <= s.address <= Limit(s.isUser)
    requires Backed(s'.mem, s.root, path) && LivePages(s'.mem, s.root, path, s.isUser, live, s.address)
    ensures SpaceInv(s', path, live)
  {
  }

  lemma ReleaseNone(m: Memory, root: nat, v: nat, live: map<nat, nat>)
    ensures FreePages(m, root, v, 0) == m && DropPages(live, v, 0) == live
  {
  }

  // ---------------------------------------------------------------- an input that shows the silent failure

  /** A kernel address space with an empty PML4 at 0x1000 and one free frame, at 0x2000. */
  function OneFrameLeft(): Space {
    Space(Memory([Region(true, 0x1000, [true, false])], map[0x1000 := Zeros()]),
          0x1000, false, 3, 0xFFFF_8000_0000_1000, 0, 0)
  }

  lemma OneFrameInv()
    ensures SpaceInv(OneFrameLeft(), map[0x1000 := []], map[]) && FreeCount(OneFrameLeft().mem.frames) == 1
  {
    var s, path: map<nat, seq<nat>> := OneFrameLeft(), map[0x1000 := []];
    var rs := s.mem.frames;
    forall t, i | t in path && 0 <= i < 512 ensures ChildOk(s.mem.tables, path, t, i) { }
    assert WellPlaced(rs);
    FreeIs(rs, 0, 0);
    assert rs[0].used[..1] == [true] && rs[..0] == [];
    assert Clear(rs[0].used[..1]) == 0;
    assert FreeCount(rs) == FreeCount(rs[..0]) + Clear(rs[0].used);
  }

  /** One byte asked for there: an address comes back, and its page is not mapped. */
  lemma SilentFailure()
    ensures var (s', r) := Malloc(OneFrameLeft(), 1);
            r == 0xFFFF_8000_0000_1000 && !Reaches(s'.mem.tables, 0x1000, r, 4)
  {
    var s, path: map<nat, seq<nat>>, live: map<nat, nat> := OneFrameLeft(), map[0x1000 := []], map[];
    var (s', r) := Malloc(s, 1);
    OneFrameInv();
    assert PagesFor(1) == 1 && Fits(s.address, PAGE, false);
    assert s.root == 0x1000 && s.address == 0xFFFF_8000_0000_1000 && s.address + PAGE < TWO_64;
    assert Entry(s.mem.tables, 0x1000, Index(s.address, 0)) == 0;
    hide *;
    MallocResult(s, path, live, 1);
    var path' := MallocSpec(s, path, live, 1);
    FirstMissing(s.mem.tables, s.root, s.address);
    OnlyPage(s, s', MallocLive(s, live, 1));
  }

  lemma FirstMissing(mem: Tables, root: nat, v: nat)
    requires Entry(mem, root, Index(v, 0)) == 0
    ensures TablesFor(mem, root, v, 1) >= 1 && PageAt(v, 0) == v
  {
    Top(mem, root, v);
    assert Lacking(0, 0) && !Reaches(mem, root, v, 1);
    assert Path(PageAt(v, 0), 1) in Missing(mem, root, v, 1, 1);
    assert Missing(mem, root, v, 1, 1) == {Path(v, 1)};
  }

  lemma OnlyPage(s: Space, s': Space, live: map<nat, nat>)
    requires BackedExactly(s, s', live, 1) && FreeCount(s.mem.frames) <= TablesFor(s.mem.tables, s.root, s.address, 1)
    ensures !Reaches(s'.mem.tables, s.root, PageAt(s.address, 0), 4)
  {
    hide Collect, MappedTo, Reaches, FreeCount, TablesFor, PageAt;
    var fs := Collect(s.mem.frames, 1).1;
    assert !MappedTo(s'.mem.tables, s.root, PageAt(s.address, 0), fs[0]);
  }
}
