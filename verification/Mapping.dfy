/** Walking page tables, mapping and unmapping a page, and what that does to the translation of every
    address. */
module Mapping {
  import opened Basics
  import opened Frames
  import opened PageTables

  /** Physical memory as far as paging is concerned: which frames are free, and the page tables. */
  datatype Memory = Memory(frames: seq<Region>, tables: Tables)

  function Zeros(): (z: seq<nat>)
    ensures |z| == 512 && forall i :: 0 <= i < 512 ==> z[i] == 0
  {
    seq(512, _ => 0)
  }

  /** `malloc_page`: a zeroed page, or 0. */
  function MallocPage(m: Memory): (Memory, nat) {
    var (rs, f) := TakeFrame(m.frames);
    if f <= 0 then (m, 0) else (Memory(rs, m.tables[f := Zeros()]), f)
  }

  const TABLE_FLAGS: nat := 7   // present, writable, user

  /** The entry has to be replaced by a new table before the walk can go on. */
  predicate Lacking(e: nat, level: nat) {
    !Present(e) || (level < 3 && Huge(e))
  }

  /** Makes sure that an entry is present and, above the last level, leads to a table. */
  function Ensure(m: Memory, t: nat, i: nat, level: nat): (Memory, bool) {
    if !Lacking(Entry(m.tables, t, i), level) then (m, true)
    else
      var (m1, f) := MallocPage(m);
      if f == 0 then (m, false)
      else if t in m1.tables && i < |m1.tables[t]| then (m1.(tables := Write(m1.tables, t, i, f + TABLE_FLAGS)), true)
      else (m1, true)
  }

  /** `walk_page_table` with creation, from `level` on: the table that holds the last entry. */
  function WalkFrom(m: Memory, t: nat, v: nat, level: nat): (Memory, Option<nat>)
    requires level < 4
    decreases 4 - level
  {
    var (m1, ok) := Ensure(m, t, Index(v, level), level);
    if !ok then (m1, None)
    else if level == 3 then (m1, Some(t))
    else WalkFrom(m1, Base(Entry(m1.tables, t, Index(v, level))), v, level + 1)
  }

  /** Bitwise or. */
  function Or(a: nat, b: nat): nat
    decreases a + b
  {
    if a == 0 && b == 0 then 0
    else (if a % 2 == 1 || b % 2 == 1 then 1 else 0) + 2 * Or(a / 2, b / 2)
  }

  /** The entry for a page: `phys | flags | PTE_PRESENT`. */
  function LeafEntry(phys: nat, flags: nat): nat {
    Or(Or(phys, flags), 1)
  }

  /** `map_page`. */
  function MapPage(m: Memory, root: nat, v: nat, phys: nat, flags: nat): Memory {
    var (m1, t) := WalkFrom(m, root, v, 0);
    if t.Some? && t.value in m1.tables && Index(v, 3) < |m1.tables[t.value]|
    then m1.(tables := Write(m1.tables, t.value, Index(v, 3), LeafEntry(phys, flags)))
    else m1
  }

  // ---------------------------------------------------------------- the invariant

  /** The tables form a tree, and no frame that holds a table is free. */
  ghost predicate Backed(m: Memory, root: nat, path: map<nat, seq<nat>>) {
    && Tree(m.tables, root, path) && WellPlaced(m.frames)
    && (forall t :: t in path ==> !Free(m.frames, t))
  }

  ghost predicate Extends(path: map<nat, seq<nat>>, path': map<nat, seq<nat>>) {
    forall t :: t in path ==> t in path' && path'[t] == path[t]
  }

  /** Frames are only taken, never given back; new tables are in frames that were free. */
  ghost predicate OnlyTaken(m: Memory, m': Memory, path: map<nat, seq<nat>>, path': map<nat, seq<nat>>) {
    && Extends(path, path') && SameShape(m.frames, m'.frames)
    && (forall g :: Free(m'.frames, g) ==> Free(m.frames, g))
    && (forall g :: IsFrame(m'.frames, g) <==> IsFrame(m.frames, g))
    && (forall t :: t in path' && t !in path ==> Free(m.frames, t))
  }

  lemma OnlyTakenTrans(a: Memory, b: Memory, c: Memory, p: map<nat, seq<nat>>, q: map<nat, seq<nat>>,
                       r: map<nat, seq<nat>>)
    requires OnlyTaken(a, b, p, q) && OnlyTaken(b, c, q, r)
    ensures OnlyTaken(a, c, p, r)
  {
    SameShapeTrans(a.frames, b.frames, c.frames);
    hide SameShape, Free, IsFrame;
  }

  lemma OnlyTakenSelf(m: Memory, path: map<nat, seq<nat>>)
    ensures OnlyTaken(m, m, path, path)
  {
  }

  lemma NewEntry(f: nat)
    requires f % 4096 == 0
    ensures Base(f + TABLE_FLAGS) == f && Leads(f + TABLE_FLAGS)
  {
    var k := f / 4096;
    assert f == 4096 * k;
    assert (f + 7) / 128 == 32 * k;
  }

  /** The low `k` bits of `x` are clear. */
  predicate NoLow(x: nat, k: nat) {
    k == 0 || (x % 2 == 0 && NoLow(x / 2, k - 1))
  }

  /** `x` has no other than the low `k` bits. */
  predicate Low(x: nat, k: nat) {
    if k == 0 then x == 0 else Low(x / 2, k - 1)
  }

  /** A number without the low `k` bits, or'ed with one that has only those, is the sum. */
  lemma {:induction false} OrIsSum(a: nat, b: nat, k: nat)
    requires NoLow(a, k) && Low(b, k)
    ensures Or(a, b) == a + b
    decreases k
  {
    if k == 0 {
      OrZero(a);
    } else {
      OrIsSum(a / 2, b / 2, k - 1);
      OrStep(a / 2, b);
    }
  }

  lemma ClearPage(x: nat)
    requires x % 4096 == 0
    ensures NoLow(x, 12)
  {
    var y := x / 64;
    assert x % 64 == 0 && y % 64 == 0;
    SixClear(y, 0);
    SixClear(x, 6);
  }

  lemma SixClear(x: nat, k: nat)
    requires x % 64 == 0 && NoLow(x / 64, k)
    ensures NoLow(x, k + 6)
  {
    var x1, x2, x3, x4, x5, x6 := x / 2, x / 4, x / 8, x / 16, x / 32, x / 64;
    assert x5 / 2 == x6 && x5 % 2 == 0 && NoLow(x5, k + 1);
    assert x4 / 2 == x5 && x4 % 2 == 0 && NoLow(x4, k + 2);
    assert x3 / 2 == x4 && x3 % 2 == 0 && NoLow(x3, k + 3);
    assert x2 / 2 == x3 && x2 % 2 == 0 && NoLow(x2, k + 4);
    assert x1 / 2 == x2 && x1 % 2 == 0 && NoLow(x1, k + 5);
  }

  lemma LowFlags12(x: nat)
    requires x < 4096
    ensures Low(x, 12)
  {
    SixLow(x / 64, 0);
    SixLow(x, 6);
  }

  lemma SixLow(x: nat, k: nat)
    requires Low(x / 64, k)
    ensures Low(x, k + 6)
  {
    var x1, x2, x3, x4, x5, x6 := x / 2, x / 4, x / 8, x / 16, x / 32, x / 64;
    assert x5 / 2 == x6 && Low(x5, k + 1);
    assert x4 / 2 == x5 && Low(x4, k + 2);
    assert x3 / 2 == x4 && Low(x3, k + 3);
    assert x2 / 2 == x3 && Low(x2, k + 4);
    assert x1 / 2 == x2 && Low(x1, k + 5);
  }

  lemma OrStep(x: nat, b: nat)
    ensures Or(2 * x, b) == b % 2 + 2 * Or(x, b / 2)
  {
  }

  lemma {:induction false} OrZero(a: nat)
    ensures Or(a, 0) == a
  {
    if a > 0 { OrZero(a / 2); }
  }

  lemma OrOne(a: nat)
    ensures Or(a, 1) == a + (1 - a % 2)
  {
    OrZero(a / 2);
  }

  lemma LeafEntryIs(phys: nat, flags: nat)
    requires phys % 4096 == 0 && flags < 4096
    ensures LeafEntry(phys, flags) == phys + flags + (1 - flags % 2)
    ensures Base(LeafEntry(phys, flags)) == phys && Present(LeafEntry(phys, flags))
  {
    hide Or, NoLow, Low, Base, Present;
    ClearPage(phys);
    LowFlags12(flags);
    OrIsSum(phys, flags, 12);
    OrOne(phys + flags);
    SumParity(phys, flags);
    BaseAndFlags(phys, flags + (1 - flags % 2));
  }

  lemma SumParity(phys: nat, flags: nat)
    requires phys % 4096 == 0 && flags < 4096
    ensures (phys + flags) % 2 == flags % 2 && flags + (1 - flags % 2) < 4096 && (flags + (1 - flags % 2)) % 2 == 1
  {
    assert phys == 2 * (2048 * (phys / 4096));
  }

  lemma HugeIs(k: nat, flags: nat)
    requires flags < 4096
    ensures Huge(4096 * k + flags) <==> flags / 128 % 2 == 1
  {
    assert (4096 * k + flags) / 128 == 32 * k + flags / 128;
  }

  lemma PresentIs(k: nat, flags: nat)
    requires flags < 4096
    ensures Base(4096 * k + flags) == 4096 * k && (Present(4096 * k + flags) <==> flags % 2 == 1)
  {
  }

  /** A multiple of 4096 plus flags has that base and those flags. */
  lemma BaseAndFlags(b: nat, flags: nat)
    requires b % 4096 == 0 && flags < 4096
    ensures Base(b + flags) == b && (Present(b + flags) <==> flags % 2 == 1)
    ensures (Huge(b + flags) <==> flags / 128 % 2 == 1)
  {
    hide *;
    var k := b / 4096;
    assert b == 4096 * k;
    HugeIs(k, flags);
    PresentIs(k, flags);
  }

  // ---------------------------------------------------------------- one level of the walk

  /** The tables after a new table `f` was hung below entry `i` of `t`, and the paths with it. */
  ghost predicate Hung(m: Memory, m1: Memory, t: nat, i: nat, f: nat) {
    && t in m.tables && i < |m.tables[t]| && f != t
    && m1.tables == Write(m.tables[f := Zeros()], t, i, f + TABLE_FLAGS)
    && Free(m.frames, f) && 0 < f && f % 4096 == 0
    && WellPlaced(m1.frames) && SameShape(m.frames, m1.frames) && FreeCount(m.frames) == FreeCount(m1.frames) + 1
    && (forall g :: Free(m1.frames, g) <==> Free(m.frames, g) && g != f)
    && (forall g :: IsFrame(m1.frames, g) <==> IsFrame(m.frames, g))
  }

  lemma EnsureIs(m: Memory, root: nat, path: map<nat, seq<nat>>, t: nat, i: nat, level: nat) returns (f: nat)
    requires Backed(m, root, path) && t in path && i < 512
    ensures var (m1, ok) := Ensure(m, t, i, level);
            if !Lacking(Entry(m.tables, t, i), level) then m1 == m && ok
            else if FreeCount(m.frames) == 0 then m1 == m && !ok
            else ok && Hung(m, m1, t, i, f)
  {
    assert t in m.tables && |m.tables[t]| == 512 && !Free(m.frames, t);
    hide Free, IsFrame, SameShape, FreeCount, WellPlaced, TakeFrame, Tree;
    TakeFrameSpec(m.frames);
    var (rs, g) := TakeFrame(m.frames);
    f := if g <= 0 then 0 else g;
  }

  lemma HungBacked(m: Memory, m1: Memory, root: nat, path: map<nat, seq<nat>>, t: nat, i: nat, f: nat)
    requires Backed(m, root, path) && t in path && |path[t]| < 3 && i < 512 && Hung(m, m1, t, i, f)
    ensures f !in path
    ensures var path1 := path[f := path[t] + [i]]; Backed(m1, root, path1) && OnlyTaken(m, m1, path, path1)
  {
    assert f !in path;
    NewEntry(f);
    HangKeepsTree(m.tables, root, path, t, i, f, f + TABLE_FLAGS, Zeros());
    hide Free, IsFrame, SameShape, FreeCount, WellPlaced, Tree, Write;
  }

  lemma HungSame(m: Memory, m1: Memory, root: nat, path: map<nat, seq<nat>>, t: nat, i: nat, f: nat)
    requires Backed(m, root, path) && t in path && i < 512 && Hung(m, m1, t, i, f)
    ensures f !in path && SameBut(m.tables, m1.tables, path, t, i)
    ensures Entry(m1.tables, t, i) == f + TABLE_FLAGS && forall j :: Entry(m1.tables, f, j) == 0
  {
    hide Free, IsFrame, SameShape, FreeCount, WellPlaced, Base, Leads, TABLE_FLAGS;
  }

  /** Above the last level a new, empty table maps nothing. */
  lemma HungEffect(m: Memory, m1: Memory, root: nat, path: map<nat, seq<nat>>, v: nat, n: nat, f: nat, v': nat)
    requires Backed(m, root, path) && n < 3 && Descends(m.tables, root, v, n)
    requires Hung(m, m1, TableAt(m.tables, root, v, n), Index(v, n), f)
    ensures Descends(m1.tables, root, v, n + 1) && TableAt(m1.tables, root, v, n + 1) == f
    ensures Translate(m1.tables, root, v') ==
            if Path(v', n + 1) == Path(v, n + 1) then 0 else Translate(m.tables, root, v')
  {
    var t, i := TableAt(m.tables, root, v, n), Index(v, n);
    BackedIs(m, root, path);
    TableLabel(m.tables, root, path, v, n);
    HungSame(m, m1, root, path, t, i, f);
    WriteEffect(m.tables, m1.tables, root, path, v, n, v');
    assert f % 4096 == 0;
    NewEntry(f);
    hide Hung, Backed, Tree, Path, Index, Base, TABLE_FLAGS, Entry, Translate;
    assert Resolve(m1.tables, 0, n + 1, v') == 0;
  }

  lemma BackedIs(m: Memory, root: nat, path: map<nat, seq<nat>>)
    requires Backed(m, root, path)
    ensures Tree(m.tables, root, path) && WellPlaced(m.frames) && forall t :: t in path ==> !Free(m.frames, t)
  {
  }

  /** At the last level the walk puts in a page that `map_page` is about to replace. */
  lemma HungLeaf(m: Memory, m1: Memory, root: nat, path: map<nat, seq<nat>>, v: nat, f: nat, v': nat)
    requires Backed(m, root, path) && Descends(m.tables, root, v, 3)
    requires Hung(m, m1, TableAt(m.tables, root, v, 3), Index(v, 3), f)
    ensures Descends(m1.tables, root, v, 3) && TableAt(m1.tables, root, v, 3) == TableAt(m.tables, root, v, 3)
    ensures !SamePage(v, v') ==> Translate(m1.tables, root, v') == Translate(m.tables, root, v')
    ensures Backed(m1, root, path) && OnlyTaken(m, m1, path, path)
  {
    var t, i := TableAt(m.tables, root, v, 3), Index(v, 3);
    hide *;
    BackedIs(m, root, path);
    TableLabel(m.tables, root, path, v, 3);
    IndexBound(v, 3);
    HungSame(m, m1, root, path, t, i, f);
    WriteEffect(m.tables, m1.tables, root, path, v, 3, v');
    SamePageIs(v, v');
    HungLeafBacked(m, m1, root, path, t, i, f);
  }

  lemma IndexBound(v: nat, n: nat)
    ensures Index(v, n) < 512
  {
  }

  lemma SamePageIs(v: nat, v': nat)
    ensures SamePage(v, v') <==> Path(v', 4) == Path(v, 4)
    ensures SamePage(v, v') <==> Path(v, 3) == Path(v', 3) && Index(v, 3) == Index(v', 3)
  {
    PathStep(v, v', 3);
  }

  lemma HungLeafBacked(m: Memory, m1: Memory, root: nat, path: map<nat, seq<nat>>, t: nat, i: nat, f: nat)
    requires Backed(m, root, path) && t in path && |path[t]| == 3 && i < 512 && Hung(m, m1, t, i, f)
    ensures Backed(m1, root, path) && OnlyTaken(m, m1, path, path)
  {
    assert f !in path;
    hide Free, IsFrame, SameShape, FreeCount, WellPlaced, Leads, Base, TABLE_FLAGS;
    var mem1 := m.tables[f := Zeros()];
    assert Tree(mem1, root, path) by {
      forall u, j | u in path && 0 <= j < 512
        ensures ChildOk(mem1, path, u, j)
      {
        assert ChildOk(m.tables, path, u, j);
      }
    }
    WriteKeepsTree(mem1, root, path, t, i, f + TABLE_FLAGS);
  }

  // ---------------------------------------------------------------- the walk

  /** How many frames the walk takes. */
  function Needs(mem: Tables, t: nat, v: nat, level: nat): (n: nat)
    requires level < 4
    ensures n <= 4 - level
    decreases 4 - level
  {
    var e := Entry(mem, t, Index(v, level));
    if Lacking(e, level) then 4 - level
    else if level == 3 then 0
    else Needs(mem, Base(e), v, level + 1)
  }

  /** `v'` is in the large page that the walk for `v` replaces by an empty table. */
  predicate Lost(mem: Tables, t: nat, v: nat, v': nat, level: nat)
    requires level < 4
    decreases 4 - level
  {
    var e := Entry(mem, t, Index(v, level));
    level < 3 && Present(e) &&
    if Huge(e) then Path(v', level + 1) == Path(v, level + 1) else Lost(mem, Base(e), v, v', level + 1)
  }

  ghost predicate WalkOutcome(m: Memory, root: nat, path: map<nat, seq<nat>>, v: nat, level: nat,
                              m': Memory, r: Option<nat>, path': map<nat, seq<nat>>)
    requires level < 4
  {
    var t := TableAt(m.tables, root, v, level);
    var need, have := Needs(m.tables, t, v, level), FreeCount(m.frames);
    && Backed(m', root, path') && OnlyTaken(m, m', path, path')
    && (r.Some? <==> need <= have) && FreeCount(m'.frames) == have - Min(need, have)
    && (r.Some? ==> Descends(m'.tables, root, v, 3) && r.value == TableAt(m'.tables, root, v, 3))
    && (forall v' :: Affected(m, root, v, level, m', r, v'))
  }

  ghost predicate Affected(m: Memory, root: nat, v: nat, level: nat, m': Memory, r: Option<nat>, v': nat)
    requires level < 4
  {
    (r.Some? && SamePage(v, v')) ||
    Translate(m'.tables, root, v') ==
      if Lost(m.tables, TableAt(m.tables, root, v, level), v, v', level) && FreeCount(m.frames) > 0 then 0
      else Translate(m.tables, root, v')
  }

  /** One step down an entry that already leads on changes nothing. */
  lemma StepDown(m: Memory, root: nat, v: nat, level: nat)
    requires level < 3 && Descends(m.tables, root, v, level)
    requires !Lacking(Entry(m.tables, TableAt(m.tables, root, v, level), Index(v, level)), level)
    ensures var t := TableAt(m.tables, root, v, level);
            var u := TableAt(m.tables, root, v, level + 1);
            && Descends(m.tables, root, v, level + 1)
            && WalkFrom(m, t, v, level) == WalkFrom(m, u, v, level + 1)
            && Needs(m.tables, t, v, level) == Needs(m.tables, u, v, level + 1)
            && forall v' :: Lost(m.tables, t, v, v', level) == Lost(m.tables, u, v, v', level + 1)
  {
    hide Present, Huge, Base, Index, Path;
  }

  /** One step down through a new table. */
  lemma StepNew(m: Memory, m1: Memory, root: nat, path: map<nat, seq<nat>>, v: nat, level: nat, f: nat)
    requires Backed(m, root, path) && level < 3 && Descends(m.tables, root, v, level)
    requires var t := TableAt(m.tables, root, v, level);
             && Lacking(Entry(m.tables, t, Index(v, level)), level) && Hung(m, m1, t, Index(v, level), f)
             && Ensure(m, t, Index(v, level), level) == (m1, true)
    ensures var t := TableAt(m.tables, root, v, level);
            && Descends(m1.tables, root, v, level + 1) && TableAt(m1.tables, root, v, level + 1) == f
            && WalkFrom(m, t, v, level) == WalkFrom(m1, f, v, level + 1)
            && Needs(m.tables, t, v, level) == 4 - level && Needs(m1.tables, f, v, level + 1) == 3 - level
  {
    var t, i := TableAt(m.tables, root, v, level), Index(v, level);
    BackedIs(m, root, path);
    TableLabel(m.tables, root, path, v, level);
    HungSame(m, m1, root, path, t, i, f);
    HungEffect(m, m1, root, path, v, level, f, v);
    assert f % 4096 == 0;
    NewEntry(f);
    assert Entry(m1.tables, t, i) == f + TABLE_FLAGS;
    assert Lacking(0, level + 1);
    hide Hung, Backed, Tree, Index, Base, TABLE_FLAGS, Entry, Ensure, Lacking, TableAt, Descends, Leads;
  }

  /** ... maps the addresses below it to nothing, which is a loss only if a large page was there. */
  lemma StepNewEffect(m: Memory, m1: Memory, root: nat, path: map<nat, seq<nat>>, v: nat, level: nat, f: nat, v': nat)
    requires Backed(m, root, path) && level < 3 && Descends(m.tables, root, v, level)
    requires var t := TableAt(m.tables, root, v, level);
             Lacking(Entry(m.tables, t, Index(v, level)), level) && Hung(m, m1, t, Index(v, level), f)
    ensures !Lost(m1.tables, f, v, v', level + 1)
    ensures Translate(m1.tables, root, v') ==
            if Lost(m.tables, TableAt(m.tables, root, v, level), v, v', level) then 0 else Translate(m.tables, root, v')
  {
    hide Hung, Backed, Tree, TableAt, Descends, Index, Path;
    var t, i := TableAt(m.tables, root, v, level), Index(v, level);
    IndexBound(v, level);
    IndexBound(v, level + 1);
    BackedIs(m, root, path);
    TableLabel(m.tables, root, path, v, level);
    HungSame(m, m1, root, path, t, i, f);
    HungEffect(m, m1, root, path, v, level, f, v');
    assert Entry(m1.tables, f, Index(v, level + 1)) == 0;
    if Path(v', level + 1) == Path(v, level + 1) && !Present(Entry(m.tables, t, i)) {
      PathStep(v, v', level);
      SameWay(m.tables, root, v, v', level);
      TranslateAt(m.tables, root, v', level);
    }
  }

  /** The outcome of the rest of the walk is the outcome of the whole. */
  lemma WalkDown(m: Memory, root: nat, path: map<nat, seq<nat>>, v: nat, level: nat,
                 m': Memory, r: Option<nat>, path': map<nat, seq<nat>>)
    requires level < 3 && Descends(m.tables, root, v, level)
    requires !Lacking(Entry(m.tables, TableAt(m.tables, root, v, level), Index(v, level)), level)
    requires WalkOutcome(m, root, path, v, level + 1, m', r, path')
    ensures WalkOutcome(m, root, path, v, level, m', r, path')
  {
    StepDown(m, root, v, level);
    hide Backed, OnlyTaken, Descends, Lacking, Lost, Needs, TableAt, Translate, SamePage, Min, FreeCount;
    forall v' ensures Affected(m, root, v, level, m', r, v') { assert Affected(m, root, v, level + 1, m', r, v'); }
  }

  lemma WalkThroughNew(m: Memory, m1: Memory, root: nat, path: map<nat, seq<nat>>, v: nat, level: nat, f: nat,
                       path1: map<nat, seq<nat>>, m': Memory, r: Option<nat>, path': map<nat, seq<nat>>)
    requires Backed(m, root, path) && level < 3 && Descends(m.tables, root, v, level) && OnlyTaken(m, m1, path, path1)
    requires var t := TableAt(m.tables, root, v, level);
             && Lacking(Entry(m.tables, t, Index(v, level)), level) && Hung(m, m1, t, Index(v, level), f)
             && Ensure(m, t, Index(v, level), level) == (m1, true)
    requires WalkOutcome(m1, root, path1, v, level + 1, m', r, path')
    ensures WalkOutcome(m, root, path, v, level, m', r, path')
  {
    hide Backed, OnlyTaken, Descends, Lacking, Lost, Needs, TableAt, Translate, SamePage, FreeCount, Hung, Ensure,
         WalkFrom, Entry, Index, Path;
    HungCount(m, m1, TableAt(m.tables, root, v, level), Index(v, level), f);
    StepNew(m, m1, root, path, v, level, f);
    OnlyTakenTrans(m, m1, m', path, path1, path');
    forall v' ensures Affected(m, root, v, level, m', r, v') {
      StepNewEffect(m, m1, root, path, v, level, f, v');
      assert Affected(m1, root, v, level + 1, m', r, v');
    }
  }

  lemma WalkLast(m: Memory, root: nat, path: map<nat, seq<nat>>, v: nat)
    requires Backed(m, root, path) && Descends(m.tables, root, v, 3)
    ensures var (m', r) := WalkFrom(m, TableAt(m.tables, root, v, 3), v, 3);
            WalkOutcome(m, root, path, v, 3, m', r, path)
  {
    var t, i := TableAt(m.tables, root, v, 3), Index(v, 3);
    var (m', r) := WalkFrom(m, t, v, 3);
    hide Backed, OnlyTaken, Descends, Lacking, TableAt, Translate, SamePage, FreeCount, Hung, Ensure, Entry, Index,
         Path;
    BackedIs(m, root, path);
    TableLabel(m.tables, root, path, v, 3);
    IndexBound(v, 3);
    var f := EnsureIs(m, root, path, t, i, 3);
    OnlyTakenSelf(m, path);
    if Lacking(Entry(m.tables, t, i), 3) && FreeCount(m.frames) > 0 {
      HungCount(m, m', t, i, f);
      HungLeaf(m, m', root, path, v, f, v);
      forall v' ensures Affected(m, root, v, 3, m', r, v') { HungLeaf(m, m', root, path, v, f, v'); }
    } else {
      forall v' ensures Affected(m, root, v, 3, m', r, v') { }
    }
  }

  lemma HungCount(m: Memory, m1: Memory, t: nat, i: nat, f: nat)
    requires Hung(m, m1, t, i, f)
    ensures FreeCount(m.frames) == FreeCount(m1.frames) + 1
  {
  }

  lemma WalkStops(m: Memory, root: nat, path: map<nat, seq<nat>>, v: nat, level: nat)
    requires Backed(m, root, path) && level < 4 && FreeCount(m.frames) == 0
    requires Lacking(Entry(m.tables, TableAt(m.tables, root, v, level), Index(v, level)), level)
    ensures WalkOutcome(m, root, path, v, level, m, None, path)
  {
    hide Backed, OnlyTaken, Descends, Lacking, TableAt, Translate, SamePage, FreeCount, Entry, Index, Path, Lost;
    OnlyTakenSelf(m, path);
    forall v' ensures Affected(m, root, v, level, m, None, v') { }
  }

  /** What a walk does, whether it succeeds or runs out of frames on the way: it succeeds exactly when
      there are enough free frames; the tables still form a tree; the address gets a last-level entry; and
      no other page changes its translation, except that those in a large page on the way are lost. */
  lemma {:induction false} WalkSpec(m: Memory, root: nat, path: map<nat, seq<nat>>, v: nat, level: nat)
    returns (path': map<nat, seq<nat>>)
    requires Backed(m, root, path) && level < 4 && Descends(m.tables, root, v, level)
    ensures var (m', r) := WalkFrom(m, TableAt(m.tables, root, v, level), v, level);
            WalkOutcome(m, root, path, v, level, m', r, path')
    decreases 4 - level
  {
    var t, i := TableAt(m.tables, root, v, level), Index(v, level);
    hide *;
    IndexBound(v, level);
    if level == 3 {
      WalkLast(m, root, path, v);
      path' := path;
    } else if !Lacking(Entry(m.tables, t, i), level) {
      StepDown(m, root, v, level);
      path' := WalkSpec(m, root, path, v, level + 1);
      var (m', r) := WalkFrom(m, t, v, level);
      WalkDown(m, root, path, v, level, m', r, path');
    } else {
      path' := WalkLacking(m, root, path, v, level);
    }
  }

  lemma {:induction false} WalkLacking(m: Memory, root: nat, path: map<nat, seq<nat>>, v: nat, level: nat)
    returns (path': map<nat, seq<nat>>)
    requires Backed(m, root, path) && level < 3 && Descends(m.tables, root, v, level)
    requires Lacking(Entry(m.tables, TableAt(m.tables, root, v, level), Index(v, level)), level)
    ensures var (m', r) := WalkFrom(m, TableAt(m.tables, root, v, level), v, level);
            WalkOutcome(m, root, path, v, level, m', r, path')
    decreases 4 - level, 0
  {
    var t, i := TableAt(m.tables, root, v, level), Index(v, level);
    hide *;
    IndexBound(v, level);
    BackedIs(m, root, path);
    TableLabel(m.tables, root, path, v, level);
    PathLength(v, level);
    var f := EnsureIs(m, root, path, t, i, level);
    var (m1, ok) := Ensure(m, t, i, level);
    WalkFromIs(m, t, v, level);
    if FreeCount(m.frames) == 0 {
      WalkStops(m, root, path, v, level);
      path' := path;
    } else {
      HungBacked(m, m1, root, path, t, i, f);
      StepNew(m, m1, root, path, v, level, f);
      var path1 := path[f := path[t] + [i]];
      path' := WalkSpec(m1, root, path1, v, level + 1);
      var (m', r) := WalkFrom(m, t, v, level);
      WalkThroughNew(m, m1, root, path, v, level, f, path1, m', r, path');
    }
  }

  lemma PathLength(v: nat, n: nat)
    ensures |Path(v, n)| == n
  {
  }

  lemma WalkFromIs(m: Memory, t: nat, v: nat, level: nat)
    requires level < 4
    ensures !Ensure(m, t, Index(v, level), level).1 ==>
              WalkFrom(m, t, v, level) == (Ensure(m, t, Index(v, level), level).0, None)
  {
  }

  // ---------------------------------------------------------------- mapping and unmapping

  /** `map_page` succeeds exactly when there are enough free frames for the walk.  Then the page
      translates to the frame given, and every other page translates as before, except that the rest of
      a large page on the way is lost.  If it fails nothing is mapped. */
  lemma MapPageSpec(m: Memory, root: nat, path: map<nat, seq<nat>>, v: nat, phys: nat, flags: nat)
    returns (path': map<nat, seq<nat>>)
    requires Backed(m, root, path) && phys % 4096 == 0 && flags < 4096
    ensures var m' := MapPage(m, root, v, phys, flags);
            var enough := Needs(m.tables, root, v, 0) <= FreeCount(m.frames);
            && Backed(m', root, path') && OnlyTaken(m, m', path, path')
            && FreeCount(m'.frames) == FreeCount(m.frames) - Min(Needs(m.tables, root, v, 0), FreeCount(m.frames))
            && (enough ==> MappedTo(m'.tables, root, v, phys))
            && forall v' :: MapEffect(m, root, v, phys, enough, m', v')
  {
    path' := WalkSpec(m, root, path, v, 0);
    var (m1, r) := WalkFrom(m, root, v, 0);
    hide *;
    WalkOutcomeIs(m, root, path, v, m1, r, path');
    MapPageIs(m, root, path', v, phys, flags);
    if r.Some? {
      var e := LeafEntry(phys, flags);
      BackedIs(m1, root, path');
      TableLabel(m1.tables, root, path', v, 3);
      IndexBound(v, 3);
      LeafEntryIs(phys, flags);
      LeafBacked(m1, root, path', v, e);
      OnlyTakenLeaf(m, m1, path, path', r.value, Index(v, 3), e);
      LeafMapped(m1, root, path', v, e);
      forall v' ensures MapEffect(m, root, v, phys, true, MapPage(m, root, v, phys, flags), v') {
        LeafEffect(m1, root, path', v, e, v');
        AffectedIs(m, root, v, m1, r, v');
        MapEffectIs(m, root, v, phys, true, MapPage(m, root, v, phys, flags), v');
      }
    } else {
      forall v' ensures MapEffect(m, root, v, phys, false, m1, v') {
        AffectedIs(m, root, v, m1, r, v');
        MapEffectIs(m, root, v, phys, false, m1, v');
      }
    }
  }

  /** `v` goes through four levels of tables to the frame `phys`. */
  ghost predicate MappedTo(mem: Tables, root: nat, v: nat, phys: nat) {
    && Descends(mem, root, v, 3)
    && var e := Entry(mem, TableAt(mem, root, v, 3), Index(v, 3)); Present(e) && Base(e) == phys
  }

  lemma MappedTranslates(mem: Tables, root: nat, v: nat, phys: nat)
    requires MappedTo(mem, root, v, phys)
    ensures Translate(mem, root, v) == phys + v % 4096
  {
    TranslateAt(mem, root, v, 3);
  }

  ghost predicate MapEffect(m: Memory, root: nat, v: nat, phys: nat, enough: bool, m': Memory, v': nat) {
    Translate(m'.tables, root, v') ==
      if enough && SamePage(v, v') then phys + v' % 4096
      else if Lost(m.tables, root, v, v', 0) && FreeCount(m.frames) > 0 then 0
      else Translate(m.tables, root, v')
  }

  lemma MapEffectIs(m: Memory, root: nat, v: nat, phys: nat, enough: bool, m': Memory, v': nat)
    ensures MapEffect(m, root, v, phys, enough, m', v') <==>
            Translate(m'.tables, root, v') ==
              if enough && SamePage(v, v') then phys + v' % 4096
              else if Lost(m.tables, root, v, v', 0) && FreeCount(m.frames) > 0 then 0
              else Translate(m.tables, root, v')
  {
  }

  lemma AffectedIs(m: Memory, root: nat, v: nat, m': Memory, r: Option<nat>, v': nat)
    ensures Affected(m, root, v, 0, m', r, v') <==>
            (r.Some? && SamePage(v, v')) ||
            Translate(m'.tables, root, v') ==
              if Lost(m.tables, root, v, v', 0) && FreeCount(m.frames) > 0 then 0 else Translate(m.tables, root, v')
  {
  }

  lemma WalkOutcomeIs(m: Memory, root: nat, path: map<nat, seq<nat>>, v: nat, m': Memory, r: Option<nat>,
                      path': map<nat, seq<nat>>)
    requires WalkOutcome(m, root, path, v, 0, m', r, path')
    ensures Backed(m', root, path') && OnlyTaken(m, m', path, path')
    ensures r.Some? <==> Needs(m.tables, root, v, 0) <= FreeCount(m.frames)
    ensures FreeCount(m'.frames) == FreeCount(m.frames) - Min(Needs(m.tables, root, v, 0), FreeCount(m.frames))
    ensures r.Some? ==> Descends(m'.tables, root, v, 3) && r.value == TableAt(m'.tables, root, v, 3)
    ensures forall v' :: Affected(m, root, v, 0, m', r, v')
  {
  }

  lemma MapPageIs(m: Memory, root: nat, path': map<nat, seq<nat>>, v: nat, phys: nat, flags: nat)
    requires var (m1, r) := WalkFrom(m, root, v, 0);
             Backed(m1, root, path') && (r.Some? ==>
               Descends(m1.tables, root, v, 3) && r.value == TableAt(m1.tables, root, v, 3))
    ensures var (m1, r) := WalkFrom(m, root, v, 0);
            if r.Some? then r.value in m1.tables && Index(v, 3) < |m1.tables[r.value]| &&
                            MapPage(m, root, v, phys, flags) ==
                              m1.(tables := Write(m1.tables, r.value, Index(v, 3), LeafEntry(phys, flags)))
            else MapPage(m, root, v, phys, flags) == m1
  {
    var (m1, r) := WalkFrom(m, root, v, 0);
    if r.Some? { TableLabel(m1.tables, root, path', v, 3); }
  }

  /** The memory with the last-level entry of `v` set to `e`. */
  ghost function SetLeaf(m: Memory, root: nat, v: nat, e: nat): Memory {
    var t := TableAt(m.tables, root, v, 3);
    if t in m.tables && Index(v, 3) < |m.tables[t]| then m.(tables := Write(m.tables, t, Index(v, 3), e)) else m
  }

  lemma LeafBacked(m: Memory, root: nat, path: map<nat, seq<nat>>, v: nat, e: nat)
    requires Backed(m, root, path) && Descends(m.tables, root, v, 3)
    ensures Backed(SetLeaf(m, root, v, e), root, path)
    ensures var t := TableAt(m.tables, root, v, 3);
            t in m.tables && Index(v, 3) < |m.tables[t]| &&
            SetLeaf(m, root, v, e) == m.(tables := Write(m.tables, t, Index(v, 3), e))
  {
    TableLabel(m.tables, root, path, v, 3);
    WriteKeepsTree(m.tables, root, path, TableAt(m.tables, root, v, 3), Index(v, 3), e);
    hide Tree, Write, Free, WellPlaced, Index;
  }

  lemma OnlyTakenLeaf(m: Memory, m1: Memory, path: map<nat, seq<nat>>, path': map<nat, seq<nat>>, t: nat, i: nat,
                      e: nat)
    requires OnlyTaken(m, m1, path, path') && t in m1.tables && i < |m1.tables[t]|
    ensures OnlyTaken(m, m1.(tables := Write(m1.tables, t, i, e)), path, path')
  {
    hide Write, SameShape, Free, IsFrame;
  }

  /** Setting a last-level entry changes the translation of one page. */
  lemma LeafEffect(m: Memory, root: nat, path: map<nat, seq<nat>>, v: nat, e: nat, v': nat)
    requires Backed(m, root, path) && Descends(m.tables, root, v, 3)
    ensures Translate(SetLeaf(m, root, v, e).tables, root, v') ==
            if SamePage(v, v') then (if Present(e) then Base(e) + v' % 4096 else 0) else Translate(m.tables, root, v')
  {
    var t, i := TableAt(m.tables, root, v, 3), Index(v, 3);
    BackedIs(m, root, path);
    TableLabel(m.tables, root, path, v, 3);
    WriteIs(m.tables, path, t, i, e);
    WriteEffect(m.tables, Write(m.tables, t, i, e), root, path, v, 3, v');
    SamePageIs(v, v');
    hide Backed, Tree, Write, Index, Path, SamePage, Base, Present, Translate, Descends, TableAt, SameBut;
  }

  lemma LeafMapped(m: Memory, root: nat, path: map<nat, seq<nat>>, v: nat, e: nat)
    requires Backed(m, root, path) && Descends(m.tables, root, v, 3) && Present(e)
    ensures MappedTo(SetLeaf(m, root, v, e).tables, root, v, Base(e))
  {
    var t, i := TableAt(m.tables, root, v, 3), Index(v, 3);
    BackedIs(m, root, path);
    TableLabel(m.tables, root, path, v, 3);
    WriteIs(m.tables, path, t, i, e);
    WriteEffect(m.tables, Write(m.tables, t, i, e), root, path, v, 3, v);
    hide Backed, Tree, Write, Index, Path, Base, Present, Descends, TableAt, SameBut;
  }

  /** A large page is met on the way of `v`. */
  predicate HugeOnWay(mem: Tables, t: nat, v: nat, level: nat)
    requires level < 4
    decreases 4 - level
  {
    var e := Entry(mem, t, Index(v, level));
    level < 3 && Present(e) && (Huge(e) || HugeOnWay(mem, Base(e), v, level + 1))
  }

  lemma {:induction false} NothingLost(mem: Tables, t: nat, v: nat, v': nat, level: nat)
    requires level < 4 && !HugeOnWay(mem, t, v, level)
    ensures !Lost(mem, t, v, v', level)
    decreases 4 - level
  {
    var e := Entry(mem, t, Index(v, level));
    if level < 3 && Present(e) { NothingLost(mem, Base(e), v, v', level + 1); }
  }

  /** An address that shares the 2 MiB block of `v`, but not its page, and is not block aligned. */
  function Neighbour(v: nat): nat {
    v - v % 0x20_0000 + (if Index(v, 3) == 0 then 0x1001 else 1)
  }

  lemma BlockIndex(v: nat)
    ensures Index(v, 2) == v / 0x20_0000 % 512
    ensures Index(v, 1) == v / 0x20_0000 / 512 % 512
    ensures Index(v, 0) == v / 0x20_0000 / 512 / 512 % 512
  {
    assert v / 0x4000_0000 == v / 0x20_0000 / 512;
    assert v / 0x80_0000_0000 == v / 0x20_0000 / 512 / 512;
  }

  /** A 2 MiB block and a place in it. */
  lemma InBlock(q: nat, x: nat)
    requires x < 0x20_0000
    ensures var w := q * 0x20_0000 + x;
            w / 0x20_0000 == q && w / 0x1000 == q * 512 + x / 0x1000 && w % 2 == x % 2
  {
  }

  lemma NeighbourBlock(v: nat)
    ensures var w := Neighbour(v);
            w / 0x20_0000 == v / 0x20_0000 && w % 2 == 1 && Index(w, 3) == if Index(v, 3) == 0 then 1 else 0
  {
    var q := v / 0x20_0000;
    var x := if Index(v, 3) == 0 then 0x1001 else 1;
    InBlock(q, x);
    NeighbourAt(v, q, x);
    hide Neighbour;
    LastIndex(q * 0x20_0000 + x, q, x / 0x1000);
  }

  lemma NeighbourAt(v: nat, q: nat, x: nat)
    requires q == v / 0x20_0000 && x == if Index(v, 3) == 0 then 0x1001 else 1
    ensures Neighbour(v) == q * 0x20_0000 + x
  {
    hide Index;
  }

  lemma LastIndex(w: nat, q: nat, i: nat)
    requires w / 0x1000 == q * 512 + i && i < 512
    ensures Index(w, 3) == i
  {
  }

  lemma EvenMod(w: nat, m: nat)
    requires m > 0 && m % 2 == 0
    ensures w % m % 2 == w % 2
  {
    var q, h := w / m, m / 2;
    assert w == q * m + w % m;
    assert q * m == 2 * (q * h);
  }

  lemma OddIn(w: nat, level: nat)
    requires w % 2 == 1 && level < 3
    ensures w % Span(level) > 0
  {
    assert Span(level) % 2 == 0;
    hide Span;
    EvenMod(w, Span(level));
  }

  lemma NeighbourIs(v: nat, level: nat)
    requires level < 3
    ensures Path(Neighbour(v), level + 1) == Path(v, level + 1) && Index(Neighbour(v), 3) != Index(v, 3)
    ensures Neighbour(v) % Span(level) > 0
    decreases level
  {
    hide Span, Index, Neighbour;
    var w := Neighbour(v);
    NeighbourBlock(v);
    BlockIndex(v);
    BlockIndex(w);
    OddIn(w, level);
    assert Index(w, level) == Index(v, level);
    if level > 0 { NeighbourIs(v, level - 1); }
  }

  lemma {:induction false} SomethingLost(mem: Tables, t: nat, v: nat, level: nat)
    requires level < 4 && HugeOnWay(mem, t, v, level)
    requires level > 0 ==> Path(Neighbour(v), level) == Path(v, level)
    ensures Lost(mem, t, v, Neighbour(v), level)
    ensures Resolve(mem, Entry(mem, t, Index(Neighbour(v), level)), level, Neighbour(v)) > 0
    decreases 4 - level
  {
    var e := Entry(mem, t, Index(v, level));
    NeighbourIs(v, level);
    PathStep(v, Neighbour(v), level);
    hide Neighbour, Path, Index, Span, Base, Present, Huge;
    if !Huge(e) { SomethingLost(mem, Base(e), v, level + 1); }
  }

  /** When it succeeds, `map_page` leaves the translation of every other page alone if and only if there
      is no large page on the way. */
  lemma MapKeepsOthersIff(m: Memory, root: nat, path: map<nat, seq<nat>>, v: nat, phys: nat, flags: nat)
    requires Backed(m, root, path) && phys % 4096 == 0 && flags < 4096
    requires Needs(m.tables, root, v, 0) <= FreeCount(m.frames)
    ensures (forall v' :: !SamePage(v, v') ==>
               Translate(MapPage(m, root, v, phys, flags).tables, root, v') == Translate(m.tables, root, v')) <==>
            !HugeOnWay(m.tables, root, v, 0)
  {
    hide *;
    var m' := MapPage(m, root, v, phys, flags);
    var path' := MapPageSpec(m, root, path, v, phys, flags);
    if HugeOnWay(m.tables, root, v, 0) {
      var w := Neighbour(v);
      SomethingLost(m.tables, root, v, 0);
      TranslateIs(m.tables, root, w);
      NeighbourIs(v, 2);
      SamePageIs(v, w);
      HugeNeeds(m.tables, root, v, 0);
      MapEffectIs(m, root, v, phys, true, m', w);
    } else {
      forall v' | !SamePage(v, v') ensures Translate(m'.tables, root, v') == Translate(m.tables, root, v') {
        NothingLost(m.tables, root, v, v', 0);
        MapEffectIs(m, root, v, phys, true, m', v');
      }
    }
  }

  lemma TranslateIs(mem: Tables, root: nat, v: nat)
    ensures Translate(mem, root, v) == Resolve(mem, Entry(mem, root, Index(v, 0)), 0, v)
  {
  }

  lemma {:induction false} HugeNeeds(mem: Tables, t: nat, v: nat, level: nat)
    requires level < 4 && HugeOnWay(mem, t, v, level)
    ensures Needs(mem, t, v, level) > 0
    decreases 4 - level
  {
    var e := Entry(mem, t, Index(v, level));
    if !Huge(e) { HugeNeeds(mem, Base(e), v, level + 1); }
  }

  /** `walk_page_table` without creation. */
  function Look(mem: Tables, t: nat, v: nat, level: nat): Option<nat>
    requires level < 4
    decreases 4 - level
  {
    var e := Entry(mem, t, Index(v, level));
    if Lacking(e, level) then None
    else if level == 3 then Some(t)
    else Look(mem, Base(e), v, level + 1)
  }

  /** `unmap_page`. */
  function UnmapPage(m: Memory, root: nat, v: nat): Memory {
    var t := Look(m.tables, root, v, 0);
    if t.Some? && t.value in m.tables && Index(v, 3) < |m.tables[t.value]|
    then m.(tables := Write(m.tables, t.value, Index(v, 3), 0))
    else m
  }

  lemma {:induction false} LookIs(mem: Tables, root: nat, v: nat, level: nat)
    requires level < 4 && Descends(mem, root, v, level)
    ensures var t := TableAt(mem, root, v, level);
            var leaf := TableAt(mem, root, v, 3);
            var r := Look(mem, t, v, level);
            && (r.Some? <==> Descends(mem, root, v, 3) && Present(Entry(mem, leaf, Index(v, 3))))
            && (r.Some? ==> r.value == leaf)
    decreases 4 - level
  {
    var e := Entry(mem, TableAt(mem, root, v, level), Index(v, level));
    hide Present, Huge, Base, Index;
    if level < 3 {
      if Lacking(e, level) {
        Blocked(mem, root, v, level + 1, 3);
      } else {
        LookIs(mem, root, v, level + 1);
      }
    }
  }

  lemma {:induction false} Blocked(mem: Tables, root: nat, v: nat, n: nat, k: nat)
    requires n <= k && !Descends(mem, root, v, n)
    ensures !Descends(mem, root, v, k)
    decreases k
  {
    if n < k { Blocked(mem, root, v, n, k - 1); }
  }

  /** `unmap_page` clears the translation of exactly one page, if that page has a last-level entry, and
      otherwise (not mapped, or in a large page) changes nothing. */
  lemma UnmapPageSpec(m: Memory, root: nat, path: map<nat, seq<nat>>, v: nat)
    requires Backed(m, root, path)
    ensures var m' := UnmapPage(m, root, v);
            && m'.frames == m.frames && Backed(m', root, path)
            && (forall v' :: Translate(m'.tables, root, v') ==
                  if SamePage(v, v') && Descends(m.tables, root, v, 3) then 0 else Translate(m.tables, root, v'))
            && (!Descends(m.tables, root, v, 3) ==> m' == m)
  {
    var m' := UnmapPage(m, root, v);
    LookIs(m.tables, root, v, 0);
    UnmapIs(m, root, path, v);
    hide *;
    if Descends(m.tables, root, v, 3) {
      LeafBacked(m, root, path, v, 0);
      forall v' ensures Translate(m'.tables, root, v') == if SamePage(v, v') then 0 else Translate(m.tables, root, v') {
        NotPresent(m, root, v, v');
        LeafEffect(m, root, path, v, 0, v');
      }
    }
  }

  lemma NotPresent(m: Memory, root: nat, v: nat, v': nat)
    ensures !Present(0)
    ensures var e := Entry(m.tables, TableAt(m.tables, root, v, 3), Index(v, 3));
            SamePage(v, v') && Descends(m.tables, root, v, 3) && !Present(e) ==> Translate(m.tables, root, v') == 0
  {
    if Descends(m.tables, root, v, 3) && SamePage(v, v') {
      SamePageIs(v, v');
      SameWay(m.tables, root, v, v', 3);
      TranslateAt(m.tables, root, v', 3);
    }
  }

  lemma UnmapIs(m: Memory, root: nat, path: map<nat, seq<nat>>, v: nat)
    requires Backed(m, root, path)
    ensures UnmapPage(m, root, v) ==
            if Descends(m.tables, root, v, 3) && Present(Entry(m.tables, TableAt(m.tables, root, v, 3), Index(v, 3)))
            then SetLeaf(m, root, v, 0) else m
  {
    LookIs(m.tables, root, v, 0);
    if Descends(m.tables, root, v, 3) { LeafBacked(m, root, path, v, 0); }
    hide Backed, Look, Index, Present, Descends, Write, Entry;
  }

  // ---------------------------------------------------------------- an input that shows the loss

  /** A table with one entry. */
  function OneEntry(e: nat): (s: seq<nat>)
    ensures |s| == 512 && s[0] == e && forall i :: 0 < i < 512 ==> s[i] == 0
  {
    seq(512, i => if i == 0 then e else 0)
  }

  /** Three tables, in the frames at 0x1000, 0x2000 and 0x3000, that map the first 2 MiB by one large page
      to 0x200000; three more frames are free. */
  function LargePage(): Memory {
    Memory([Region(true, 0x1000, [true, true, true, false, false, false])],
           map[0x1000 := OneEntry(0x2007), 0x2000 := OneEntry(0x3007), 0x3000 := OneEntry(0x20_0083)])
  }

  lemma LargePageBacked()
    ensures Backed(LargePage(), 0x1000, map[0x1000 := [], 0x2000 := [0], 0x3000 := [0, 0]])
    ensures FreeCount(LargePage().frames) == 3
  {
    var m, path: map<nat, seq<nat>> := LargePage(), map[0x1000 := [], 0x2000 := [0], 0x3000 := [0, 0]];
    var rs := m.frames;
    forall t, i | t in path && 0 <= i < 512 ensures ChildOk(m.tables, path, t, i) {
      assert Base(0x2007) == 0x2000 && Base(0x3007) == 0x3000 && !Leads(0x20_0083) && !Leads(0);
    }
    assert WellPlaced(rs);
    forall t | t in path ensures !Free(rs, t) {
      FreeIs(rs, 0, 0);
      FreeIs(rs, 0, 1);
      FreeIs(rs, 0, 2);
    }
    SixBits(rs[0].used);
    assert rs[..0] == [];
    assert FreeCount(rs) == FreeCount(rs[..0]) + Clear(rs[0].used);
  }

  lemma SixBits(b: seq<bool>)
    requires b == [true, true, true, false, false, false]
    ensures Clear(b) == 3
  {
    var b3, b4, b5 := b[..3], b[..4], b[..5];
    ClearNone(b3);
    assert b4[..3] == b3 && b5[..4] == b4;
    assert Clear(b4) == Clear(b3) + 1;
    assert Clear(b5) == Clear(b4) + 1;
  }

  /** Mapping the page at 0 inside that large page: the address 0x1001 was mapped, and no longer is. */
  lemma LargePageLost()
    ensures var m' := MapPage(LargePage(), 0x1000, 0, 0x6000, 3);
            && Translate(LargePage().tables, 0x1000, 0x1001) == 0x20_1001 && Translate(m'.tables, 0x1000, 0x1001) == 0
            && Translate(m'.tables, 0x1000, 0) == 0x6000
  {
    var m, path: map<nat, seq<nat>> := LargePage(), map[0x1000 := [], 0x2000 := [0], 0x3000 := [0, 0]];
    LargePageBacked();
    LargePageWay();
    hide *;
    var path' := MapPageSpec(m, 0x1000, path, 0, 0x6000, 3);
    MapEffectIs(m, 0x1000, 0, 0x6000, true, MapPage(m, 0x1000, 0, 0x6000, 3), 0x1001);
    MapEffectIs(m, 0x1000, 0, 0x6000, true, MapPage(m, 0x1000, 0, 0x6000, 3), 0);
    SamePageIs(0, 0x1001);
    SamePageIs(0, 0);
  }

  lemma LargeEntries()
    ensures var mem := LargePage().tables;
            Entry(mem, 0x1000, 0) == 0x2007 && Entry(mem, 0x2000, 0) == 0x3007 && Entry(mem, 0x3000, 0) == 0x20_0083
    ensures Base(0x2007) == 0x2000 && Base(0x3007) == 0x3000 && Base(0x20_0083) == 0x20_0000
    ensures Present(0x2007) && !Huge(0x2007) && Present(0x3007) && !Huge(0x3007) && Present(0x20_0083)
    ensures Huge(0x20_0083)
  {
  }

  lemma LowIndices(v: nat)
    requires v <= 0x1001
    ensures Index(v, 0) == 0 && Index(v, 1) == 0 && Index(v, 2) == 0 && Index(v, 3) == v / 0x1000
  {
  }

  lemma LowPaths()
    ensures Path(0x1001, 1) == Path(0, 1) && Path(0x1001, 2) == Path(0, 2) && Path(0x1001, 3) == Path(0, 3)
  {
    hide Index;
    LowIndices(0);
    LowIndices(0x1001);
    PathStep(0, 0x1001, 2);
    PathStep(0, 0x1001, 1);
    PathStep(0, 0x1001, 0);
  }

  /** The way of the first addresses through those tables. */
  lemma LargePageWay()
    ensures var mem := LargePage().tables;
            && Needs(mem, 0x1000, 0, 0) == 2 && Lost(mem, 0x1000, 0, 0x1001, 0)
            && Translate(mem, 0x1000, 0x1001) == 0x20_1001
    ensures Index(0, 3) == 0 && Index(0x1001, 3) == 1
  {
    hide LargePage, Base, Present, Huge, Entry, Index, Path;
    var mem := LargePage().tables;
    LargeEntries();
    LowIndices(0);
    LowIndices(0x1001);
    LowPaths();
    assert Needs(mem, 0x3000, 0, 2) == 2 && Needs(mem, 0x2000, 0, 1) == 2;
    assert Lost(mem, 0x3000, 0, 0x1001, 2) && Lost(mem, 0x2000, 0, 0x1001, 1);
    assert Resolve(mem, 0x20_0083, 2, 0x1001) == 0x20_1001;
    assert Resolve(mem, 0x3007, 1, 0x1001) == 0x20_1001;
  }
}
