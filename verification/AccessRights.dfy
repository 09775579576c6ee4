/** Which accesses a mapping allows.  The processor lets an address be written, or be used by user code, when
    every entry on its way has the bit for it (section 4.6 of volume 3A of the Intel SDM). */
module AccessRights {
  import opened Basics
  import opened Frames
  import opened PageTables
  import opened Mapping
  import opened MissingTables
  import opened Remapping

  datatype Right = ToWrite | ForUser

  predicate Grants(e: nat, r: Right) {
    match r
    case ToWrite => e / 2 % 2 == 1
    case ForUser => e / 4 % 2 == 1
  }

  /** A page address does not reach down to the bits. */
  lemma AddressGrants(b: nat, flags: nat, r: Right)
    requires b % 4096 == 0
    ensures Grants(b + flags, r) <==> Grants(flags, r)
  {
    var k := b / 4096;
    Shifted(1024 * k, flags, 4);
    Shifted(2048 * k, flags, 2);
    Doubled(512 * k, flags / 4);
    Doubled(1024 * k, flags / 2);
  }

  lemma Shifted(a: nat, c: nat, d: nat)
    requires d == 2 || d == 4
    ensures (d * a + c) / d == a + c / d
  {
  }

  lemma Doubled(a: nat, c: nat)
    ensures (2 * a + c) % 2 == c % 2
  {
  }

  /** The first `n` entries on the way of `v` grant the access. */
  predicate Allows(mem: Tables, root: nat, v: nat, n: nat, r: Right) {
    n == 0 || (Allows(mem, root, v, n - 1, r) && Grants(Entry(mem, TableAt(mem, root, v, n - 1), Index(v, n - 1)), r))
  }

  /** Those of the first `n` that need no replacing do. */
  predicate OldAllows(mem: Tables, root: nat, v: nat, n: nat, r: Right) {
    n == 0 ||
    (&& OldAllows(mem, root, v, n - 1, r)
     && (Reaches(mem, root, v, n) ==> Grants(Entry(mem, TableAt(mem, root, v, n - 1), Index(v, n - 1)), r)))
  }

  lemma {:induction false} OldReached(mem: Tables, root: nat, v: nat, n: nat, r: Right)
    requires Reaches(mem, root, v, n)
    ensures OldAllows(mem, root, v, n, r) <==> Allows(mem, root, v, n, r)
  {
    if n > 0 { OldReached(mem, root, v, n - 1, r); }
  }

  lemma {:induction false} OldCut(mem: Tables, root: nat, v: nat, n: nat, k: nat, r: Right)
    requires n <= k && !Reaches(mem, root, v, n + 1)
    ensures OldAllows(mem, root, v, k, r) <==> OldAllows(mem, root, v, n, r)
    decreases k
  {
    if n < k {
      OldCut(mem, root, v, n, k - 1, r);
      if Reaches(mem, root, v, k) { ReachesLess(mem, root, v, n + 1, k); }
    }
  }

  /** A write at the entry of `v` at level `level` changes nothing above it. */
  lemma {:induction false} AllowsAbove(mem: Tables, mem': Tables, root: nat, path: map<nat, seq<nat>>, t: nat, i: nat,
                                       v: nat, level: nat, n: nat, r: Right)
    requires Tree(mem, root, path) && SameBut(mem, mem', path, t, i) && t in path && |path[t]| == level <= 3
    requires n <= level && Descends(mem, root, v, n)
    ensures Allows(mem', root, v, n, r) <==> Allows(mem, root, v, n, r)
  {
    if n > 0 {
      AllowsAbove(mem, mem', root, path, t, i, v, level, n - 1, r);
      WayUnchanged(mem, mem', root, path, t, i, v, n - 1);
      TableLabel(mem, root, path, v, n - 1);
      PathLength(v, n - 1);
      IndexBound(v, n - 1);
      hide Tree, Index, Path;
    }
  }

  lemma TableGrants(f: nat, r: Right)
    requires f % 4096 == 0
    ensures Grants(f + TABLE_FLAGS, r)
  {
    AddressGrants(f, TABLE_FLAGS, r);
  }

  /** After a successful walk the way grants what the entries that were there already grant: new tables grant
      everything. */
  lemma {:induction false} WalkAllows(m: Memory, root: nat, path: map<nat, seq<nat>>, v: nat, level: nat, r: Right)
    requires Backed(m, root, path) && level < 4 && Descends(m.tables, root, v, level)
    requires WalkFrom(m, TableAt(m.tables, root, v, level), v, level).1.Some?
    ensures var m' := WalkFrom(m, TableAt(m.tables, root, v, level), v, level).0;
            Allows(m'.tables, root, v, 3, r) <==> OldAllows(m.tables, root, v, 3, r)
    decreases 4 - level
  {
    var t, i := TableAt(m.tables, root, v, level), Index(v, level);
    hide *;
    IndexBound(v, level);
    BackedIs(m, root, path);
    TableLabel(m.tables, root, path, v, level);
    PathLength(v, level);
    ReachesDescends(m.tables, root, v, level);
    var f := EnsureIs(m, root, path, t, i, level);
    var (m1, ok) := Ensure(m, t, i, level);
    WalkFromIs(m, t, v, level);
    if !Lacking(Entry(m.tables, t, i), level) {
      if level < 3 {
        StepDown(m, root, v, level);
        WalkAllows(m, root, path, v, level + 1, r);
      } else {
        WalkEnds(m, t, v);
        OldReached(m.tables, root, v, 3, r);
      }
    } else {
      HungSame(m, m1, root, path, t, i, f);
      AllowsAbove(m.tables, m1.tables, root, path, t, i, v, level, level, r);
      OldReached(m.tables, root, v, level, r);
      if level < 3 {
        HungBacked(m, m1, root, path, t, i, f);
        StepNew(m, m1, root, path, v, level, f);
        WalkAllows(m1, root, path[f := path[t] + [i]], v, level + 1, r);
        NewLevel(m, m1, root, path, v, level, f, r);
      } else {
        WalkEnds(m, t, v);
      }
    }
  }

  /** The level that a new table adds grants everything, and below it nothing needs to be granted yet. */
  lemma NewLevel(m: Memory, m1: Memory, root: nat, path: map<nat, seq<nat>>, v: nat, level: nat, f: nat, r: Right)
    requires Backed(m, root, path) && level < 3 && Descends(m.tables, root, v, level)
    requires Lacking(Entry(m.tables, TableAt(m.tables, root, v, level), Index(v, level)), level)
    requires Hung(m, m1, TableAt(m.tables, root, v, level), Index(v, level), f)
    ensures OldAllows(m1.tables, root, v, 3, r) <==> OldAllows(m.tables, root, v, 3, r)
  {
    var t, i := TableAt(m.tables, root, v, level), Index(v, level);
    hide *;
    IndexBound(v, level);
    BackedIs(m, root, path);
    TableLabel(m.tables, root, path, v, level);
    PathLength(v, level);
    HungSame(m, m1, root, path, t, i, f);
    HungFrame(m, m1, t, i, f);
    TableGrants(f, r);
    BlockedBefore(m.tables, root, v, level, v, level + 1);
    BlockedBefore(m.tables, root, v, level, v, level);
    OldCut(m.tables, root, v, level, 3, r);
    OldReached(m.tables, root, v, level, r);
    HungAfter(m, m1, root, path, v, level, f, v, level + 1);
    if level + 2 <= 4 { HungAfter(m, m1, root, path, v, level, f, v, level + 2); }
    OldCut(m1.tables, root, v, level + 1, 3, r);
    OldReached(m1.tables, root, v, level + 1, r);
    AllowsAbove(m.tables, m1.tables, root, path, t, i, v, level, level, r);
    WriteEffect(m.tables, m1.tables, root, path, v, level, v);
    AllowsStep(m1.tables, root, v, level, r);
  }

  lemma AllowsStep(mem: Tables, root: nat, v: nat, n: nat, r: Right)
    ensures Allows(mem, root, v, n + 1, r) <==>
            Allows(mem, root, v, n, r) && Grants(Entry(mem, TableAt(mem, root, v, n), Index(v, n)), r)
    ensures OldAllows(mem, root, v, n + 1, r) <==>
            OldAllows(mem, root, v, n, r) &&
            (Reaches(mem, root, v, n + 1) ==> Grants(Entry(mem, TableAt(mem, root, v, n), Index(v, n)), r))
  {
  }

  lemma LeafGrants(phys: nat, flags: nat, r: Right)
    requires phys % 4096 == 0 && flags < 4096
    ensures Grants(LeafEntry(phys, flags), r) <==> Grants(flags, r)
  {
    LeafEntryIs(phys, flags);
    var low := flags + (1 - flags % 2);
    AddressGrants(phys, low, r);
    assert low / 2 == flags / 2 && low / 4 == flags / 4;
    hide LeafEntry, Base, Present;
  }

  /** A page that has been mapped may be accessed in a way if and only if the flags it was mapped with say so, and
      so do the tables that were on its way already. */
  lemma MapAllowsIff(m: Memory, root: nat, path: map<nat, seq<nat>>, v: nat, phys: nat, flags: nat, r: Right)
    requires Backed(m, root, path) && phys % 4096 == 0 && flags < 4096
    requires Needs(m.tables, root, v, 0) <= FreeCount(m.frames)
    ensures Allows(MapPage(m, root, v, phys, flags).tables, root, v, 4, r) <==>
            OldAllows(m.tables, root, v, 3, r) && Grants(flags, r)
  {
    hide *;
    var (m1, t) := WalkFrom(m, root, v, 0);
    Top(m.tables, root, v);
    var path1 := WalkSpec(m, root, path, v, 0);
    WalkOutcomeIs(m, root, path, v, m1, t, path1);
    MapPageIs(m, root, path1, v, phys, flags);
    WalkAllows(m, root, path, v, 0, r);
    LeafBacked(m1, root, path1, v, LeafEntry(phys, flags));
    LeafAllows(m1, root, path1, v, LeafEntry(phys, flags), r);
    LeafGrants(phys, flags, r);
  }

  lemma LeafAllows(m: Memory, root: nat, path: map<nat, seq<nat>>, v: nat, e: nat, r: Right)
    requires Backed(m, root, path) && Descends(m.tables, root, v, 3)
    ensures Allows(SetLeaf(m, root, v, e).tables, root, v, 4, r) <==> Allows(m.tables, root, v, 3, r) && Grants(e, r)
  {
    var t, i := TableAt(m.tables, root, v, 3), Index(v, 3);
    BackedIs(m, root, path);
    TableLabel(m.tables, root, path, v, 3);
    PathLength(v, 3);
    LeafBacked(m, root, path, v, e);
    WriteIs(m.tables, path, t, i, e);
    hide Backed, Tree, Write, Index, Path, Descends, TableAt, SameBut, Allows, Grants;
    AllowsAbove(m.tables, SetLeaf(m, root, v, e).tables, root, path, t, i, v, 3, 3, r);
    WayUnchanged(m.tables, SetLeaf(m, root, v, e).tables, root, path, t, i, v, 3);
    AllowsStep(SetLeaf(m, root, v, e).tables, root, v, 3, r);
  }

  // ---------------------------------------------------------------- splitting a large page

  /** Clearing or setting bit 7 leaves the bits alone. */
  lemma Bit7Apart(flags: nat, r: Right)
    requires flags < 4096
    ensures Grants(flags + 128, r) <==> Grants(flags, r)
  {
    Shifted(32, flags, 4);
    Shifted(64, flags, 2);
    Doubled(16, flags / 4);
    Doubled(32, flags / 2);
  }

  lemma SubGrants(e: nat, level: nat, j: nat, r: Right)
    requires level == 1 || level == 2
    ensures Grants(SubEntry(e, level, j), r) <==> Grants(e, r)
  {
    var b, flags := Base(e) + j * Span(level + 1), e % 4096;
    FlagsSplit(e);
    SpanAligned(level + 1, j);
    AlignedSum(Base(e), j * Span(level + 1));
    var low := LowFlags(e);
    Whole(e);
    hide Base, Span, Huge, LowFlags, Grants;
    AddressGrants(4096 * (e / 4096), flags, r);
    if flags != low { Bit7Apart(low, r); }
    AddressGrants(b, low + (if level == 1 then 128 else 0), r);
    Bit7Apart(low, r);
  }

  lemma Whole(e: nat)
    ensures e == 4096 * (e / 4096) + e % 4096 && 4096 * (e / 4096) % 4096 == 0
  {
  }

  /** An address in a large page that is split may be accessed as before. */
  lemma SplitAllowsIff(m: Memory, root: nat, path: map<nat, seq<nat>>, v: nat, level: nat, r: Right)
    requires Backed(m, root, path) && (level == 1 || level == 2) && Descends(m.tables, root, v, level)
    requires var e := Entry(m.tables, TableAt(m.tables, root, v, level), Index(v, level)); Present(e) && Huge(e)
    ensures var (m', f) := SplitPage(m, TableAt(m.tables, root, v, level), level, Index(v, level));
            f != 0 ==> (Allows(m'.tables, root, v, level + 2, r) <==> Allows(m.tables, root, v, level + 1, r))
  {
    var t, i := TableAt(m.tables, root, v, level), Index(v, level);
    var (m', f) := SplitPage(m, t, level, i);
    var e := Entry(m.tables, t, i);
    hide *;
    BackedIs(m, root, path);
    IndexBound(v, level);
    IndexBound(v, level + 1);
    PathLength(v, level);
    TableLabel(m.tables, root, path, v, level);
    SplitIs(m, root, path, t, level, i);
    if FreeCount(m.frames) != 0 {
      ReplacedFrame(m, m', t, i, f, f + TABLE_FLAGS, SubTable(e, level));
      ReplacedSame(m, m', root, path, t, i, f, f + TABLE_FLAGS, SubTable(e, level));
      AllowsAbove(m.tables, m'.tables, root, path, t, i, v, level, level, r);
      WayUnchanged(m.tables, m'.tables, root, path, t, i, v, level);
      TableBelow(m'.tables, root, v, level, f);
      AllowsStep(m.tables, root, v, level, r);
      AllowsStep(m'.tables, root, v, level, r);
      AllowsStep(m'.tables, root, v, level + 1, r);
      TableGrants(f, r);
      SubTableIs(e, level, Index(v, level + 1));
      SubGrants(e, level, Index(v, level + 1), r);
    }
  }

  lemma SubTableIs(e: nat, level: nat, j: nat)
    requires j < 512
    ensures |SubTable(e, level)| == 512 && SubTable(e, level)[j] == SubEntry(e, level, j)
  {
  }

  lemma TableBelow(mem: Tables, root: nat, v: nat, n: nat, f: nat)
    requires f % 4096 == 0 && Entry(mem, TableAt(mem, root, v, n), Index(v, n)) == f + TABLE_FLAGS
    ensures TableAt(mem, root, v, n + 1) == f
  {
    NewEntry(f);
    hide Entry, Index;
  }
}
