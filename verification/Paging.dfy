/** The paging code over physical memory: every routine refines the function on memory of the same name,
    about which the theorems are. */
module Paging {
  import opened Basics
  import opened Frames
  import opened FrameAllocator
  import opened PageTables
  import opened Mapping
  import opened Remapping

  class PhysicalMemory {
    const alloc: FrameAllocator
    /** The contents of the frames that hold page tables. */
    var tables: Tables

    constructor (alloc: FrameAllocator, tables: Tables)
      ensures this.alloc == alloc && this.tables == tables
    {
      this.alloc, this.tables := alloc, tables;
    }

    ghost function View(): Memory
      requires alloc.Valid()
      reads this, alloc.Arrays()
    {
      Memory(alloc.View(), tables)
    }

    /** `malloc_page`. */
    method MallocPage() returns (f: nat)
      requires alloc.Valid() && WellPlaced(alloc.View())
      modifies this, alloc.Arrays()
      ensures (View(), f) == Mapping.MallocPage(old(View()))
    {
      hide TakeFrame, WellPlaced, Free, IsFrame, SameShape, FreeCount;
      TakeFrameSpec(alloc.View());
      var g := alloc.Malloc();
      if g == 0 { return 0; }
      tables := tables[g := Zeros()];
      return g;
    }

    /** Puts a new, zeroed page below entry `i` of table `t`. */
    method Hang(t: nat, i: nat, ghost root: nat, ghost path: map<nat, seq<nat>>) returns (f: nat)
      requires alloc.Valid() && Backed(View(), root, path) && t in path && i < 512
      modifies this, alloc.Arrays()
      ensures f == Mapping.MallocPage(old(View())).1 && f % 4096 == 0
      ensures f == 0 ==> View() == old(View())
      ensures f != 0 ==>
                var m1 := Mapping.MallocPage(old(View())).0;
                t in m1.tables && i < |m1.tables[t]| && View() == m1.(tables := Write(m1.tables, t, i, f + TABLE_FLAGS))
    {
      hide Tree, Free, WellPlaced, IsFrame, SameShape, FreeCount, TakeFrame, Zeros;
      TableIn(root, path, t);
      TakeFrameSpec(alloc.View());
      f := MallocPage();
      if f == 0 { return; }
      tables := Write(tables, t, i, f + TABLE_FLAGS);
    }

    lemma TableIn(root: nat, path: map<nat, seq<nat>>, t: nat)
      requires alloc.Valid() && Backed(View(), root, path) && t in path
      ensures t in tables && |tables[t]| == 512 && !Frames.Free(alloc.View(), t) && WellPlaced(alloc.View())
    {
    }

    /** One level of `walk_page_table`: fills a hole, or replaces a large page by an empty table. */
    method EnsureEntry(t: nat, i: nat, level: nat, ghost root: nat, ghost path: map<nat, seq<nat>>) returns (ok: bool,
                       e: nat)
      requires alloc.Valid() && Backed(View(), root, path) && t in path && i < 512
      modifies this, alloc.Arrays()
      ensures (View(), ok) == Ensure(old(View()), t, i, level) && (ok ==> e == Entry(tables, t, i))
    {
      hide Backed, Mapping.MallocPage, TABLE_FLAGS, Huge, Present;
      TableIn(root, path, t);
      e := tables[t][i];
      ghost var hung := false;
      if !Present(e) {
        var f := Hang(t, i, root, path);
        if f == 0 { return false, e; }
        NewEntry(f);
        e := f + TABLE_FLAGS;
        hung := true;
      }
      if level < 3 && Huge(e) {
        assert !hung;
        var f := Hang(t, i, root, path);
        if f == 0 { return false, e; }
        e := f + TABLE_FLAGS;
      }
      return true, e;
    }

    /** `walk_page_table` with creation: the table that holds the last-level entry, 0 when the walk
        failed. */
    method WalkCreate(root: nat, v: nat, ghost path: map<nat, seq<nat>>) returns (t: nat)
      requires alloc.Valid() && Backed(View(), root, path)
      modifies this, alloc.Arrays()
      ensures var (m, r) := WalkFrom(old(View()), root, v, 0); View() == m && (if r.Some? then t == r.value else t == 0)
    {
      hide *;
      ghost var m0 := View();
      ghost var p := path;
      t := root;
      RootDescends(tables, root, v);
      for level := 0 to 3
        invariant Backed(View(), root, p) && Descends(tables, root, v, level) && t == TableAt(tables, root, v, level)
        invariant WalkFrom(View(), t, v, level) == WalkFrom(m0, root, v, 0)
      {
        ghost var m := View();
        ViewIs();
        IndexBound(v, level);
        TableOnWay(m, root, p, v, level);
        var ok, e := EnsureEntry(t, Index(v, level), level, root, p);
        ViewIs();
        WalkFromIs(m, t, v, level);
        if !ok { return 0; }
        p := EnsureDescends(m, root, p, v, level);
        t := Base(e);
      }
      ghost var m := View();
      ViewIs();
      IndexBound(v, 3);
      TableOnWay(m, root, p, v, 3);
      var ok, e := EnsureEntry(t, Index(v, 3), 3, root, p);
      ViewIs();
      WalkFromIs(m, t, v, 3);
      WalkLastIs(m, t, v);
      if !ok { t := 0; }
    }

    /** `map_page`. */
    method MapPage(root: nat, v: nat, phys: nat, flags: nat, ghost path: map<nat, seq<nat>>)
      requires alloc.Valid() && Backed(View(), root, path)
      modifies this, alloc.Arrays()
      ensures View() == Mapping.MapPage(old(View()), root, v, phys, flags)
    {
      hide *;
      ghost var m0 := View();
      ViewIs();
      RootDescends(m0.tables, root, v);
      ghost var p := WalkSpec(m0, root, path, v, 0);
      var t := WalkCreate(root, v, path);
      ghost var (m, r) := WalkFrom(m0, root, v, 0);
      WalkOutcomeIs(m0, root, path, v, m, r, p);
      MapPageIs(m0, root, p, v, phys, flags);
      ViewIs();
      if t == 0 {
        if r.Some? { NonZeroTable(m, root, p, v); }
        return;
      }
      tables := Write(tables, t, Index(v, 3), LeafEntry(phys, flags));
      ViewIs();
    }

    /** `walk_page_table` without creation; 0 when the page has no last-level entry. */
    method WalkLook(root: nat, v: nat, ghost path: map<nat, seq<nat>>) returns (t: nat)
      requires alloc.Valid() && Backed(View(), root, path)
      ensures View() == old(View())
      ensures var r := Look(tables, root, v, 0);
              if r.Some? then t == r.value && t in tables && |tables[t]| == 512 && t != 0 else t == 0
    {
      hide *;
      ghost var m := View();
      ViewIs();
      RootDescends(tables, root, v);
      t := root;
      for level := 0 to 3
        invariant View() == m && tables == m.tables
        invariant Descends(m.tables, root, v, level) && t == TableAt(m.tables, root, v, level)
        invariant Look(m.tables, t, v, level) == Look(m.tables, root, v, 0)
      {
        OnWay(m, root, path, v, level);
        var e := tables[t][Index(v, level)];
        LookStep(m.tables, root, v, level);
        if !Present(e) { return 0; }
        if Huge(e) { return 0; }
        t := Base(e);
      }
      OnWay(m, root, path, v, 3);
      LookStep(m.tables, root, v, 3);
      if !Present(tables[t][Index(v, 3)]) { t := 0; }
    }

    /** `unmap_page`. */
    method UnmapPage(root: nat, v: nat, ghost path: map<nat, seq<nat>>)
      requires alloc.Valid() && Backed(View(), root, path)
      modifies this
      ensures View() == Mapping.UnmapPage(old(View()), root, v)
    {
      hide Backed, Look, Index, Write;
      IndexBound(v, 3);
      var t := WalkLook(root, v, path);
      if t == 0 { return; }
      tables := Write(tables, t, Index(v, 3), 0);
    }

    /** `virt_to_phys_on`: four levels, each of which may end in a hole or a large page. */
    method VirtToPhys(root: nat, v: nat) returns (phys: nat)
      requires alloc.Valid()
      ensures View() == old(View())
      ensures phys == Translate(tables, root, v)
    {
      hide Span, Index, Entry, Present, Huge, Base;
      var e0 := Entry(tables, root, Index(v, 0));
      if !Present(e0) { return 0; }
      if Huge(e0) { return Base(e0) + v % Span(0); }
      var e1 := Entry(tables, Base(e0), Index(v, 1));
      if !Present(e1) { return 0; }
      if Huge(e1) { return Base(e1) + v % Span(1); }
      var e2 := Entry(tables, Base(e1), Index(v, 2));
      if !Present(e2) { return 0; }
      if Huge(e2) { return Base(e2) + v % Span(2); }
      var e3 := Entry(tables, Base(e2), Index(v, 3));
      if !Present(e3) { return 0; }
      return Base(e3) + v % Span(3);
    }

    /** `split_huge_page`. */
    method SplitHugePage(t: nat, level: nat, i: nat, ghost root: nat, ghost path: map<nat, seq<nat>>) returns (f: nat)
      requires alloc.Valid() && Backed(View(), root, path) && t in path && i < 512
      modifies this, alloc.Arrays()
      ensures (View(), f) == SplitPage(old(View()), t, level, i)
    {
      hide Tree, Free, WellPlaced, IsFrame, SameShape, FreeCount, TakeFrame, SubEntry, Base, LowFlags;
      TableIn(root, path, t);
      TakeFrameSpec(alloc.View());
      var e := tables[t][i];
      if level != 1 && level != 2 { return 0; }
      f := alloc.Malloc();
      if f == 0 { return 0; }
      var sub: seq<nat> := [];
      for j := 0 to 512
        invariant |sub| == j && forall k :: 0 <= k < j ==> sub[k] == SubEntry(e, level, k)
      {
        sub := sub + [SubEntry(e, level, j)];
      }
      assert sub == SubTable(e, level);
      tables := tables[f := sub];
      tables := Write(tables, t, i, f + TABLE_FLAGS);
    }

    /** `replace_identity_pdpt`, when a frame is to be had. */
    method ReplaceIdentityPdpt(root: nat, ghost path: map<nat, seq<nat>>)
      requires alloc.Valid() && Backed(View(), root, path) && FreeCount(alloc.View()) > 0
      modifies this, alloc.Arrays()
      ensures View() == ReplaceIdentity(old(View()), root)
    {
      hide Tree, Free, WellPlaced, IsFrame, SameShape, FreeCount, TakeFrame, IdentityEntry, Base, Writable, Present;
      RootIs(View(), root, path);
      TableIn(root, path, root);
      var e := tables[root][0];
      if !Present(e) { return; }
      TakeFrameSpec(alloc.View());
      var f := alloc.Malloc();
      var pdpt: seq<nat> := [];
      for i := 0 to 512
        invariant |pdpt| == i && forall k :: 0 <= k < i ==> pdpt[k] == IdentityEntry(Entry(tables, Base(e), k), k)
      {
        pdpt := pdpt + [IdentityEntry(Entry(tables, Base(e), i), i)];
      }
      assert pdpt == IdentityTable(tables, Base(e));
      tables := tables[f := pdpt];
      tables := Write(tables, root, 0, f + Writable(e % 4096));
    }

    lemma ViewIs()
      requires alloc.Valid()
      ensures View().tables == tables && View().frames == alloc.View()
    {
    }
  }

  lemma TableOnWay(m: Memory, root: nat, path: map<nat, seq<nat>>, v: nat, n: nat)
    requires Backed(m, root, path) && n <= 3 && Descends(m.tables, root, v, n)
    ensures TableAt(m.tables, root, v, n) in path
  {
    TableLabel(m.tables, root, path, v, n);
  }

  lemma WalkLastIs(m: Memory, t: nat, v: nat)
    ensures var (m1, ok) := Ensure(m, t, Index(v, 3), 3); WalkFrom(m, t, v, 3) == (m1, if ok then Some(t) else None)
  {
  }

  /** After a successful level of the walk, the next level. */
  lemma EnsureDescends(m: Memory, root: nat, path: map<nat, seq<nat>>, v: nat,
                       level: nat) returns (path': map<nat, seq<nat>>)
    requires Backed(m, root, path) && level < 3 && Descends(m.tables, root, v, level)
    requires Ensure(m, TableAt(m.tables, root, v, level), Index(v, level), level).1
    ensures var t := TableAt(m.tables, root, v, level);
            var m1 := Ensure(m, t, Index(v, level), level).0;
            && Backed(m1, root, path') && Descends(m1.tables, root, v, level + 1)
            && Base(Entry(m1.tables, t, Index(v, level))) == TableAt(m1.tables, root, v, level + 1)
            && WalkFrom(m, t, v, level) == WalkFrom(m1, TableAt(m1.tables, root, v, level + 1), v, level + 1)
  {
    var t, i := TableAt(m.tables, root, v, level), Index(v, level);
    hide *;
    IndexBound(v, level);
    BackedIs(m, root, path);
    TableLabel(m.tables, root, path, v, level);
    PathLength(v, level);
    var f := EnsureIs(m, root, path, t, i, level);
    var m1 := Ensure(m, t, i, level).0;
    if !Lacking(Entry(m.tables, t, i), level) {
      path' := path;
      StepDown(m, root, v, level);
      NextTable(m.tables, root, v, level);
    } else {
      HungBacked(m, m1, root, path, t, i, f);
      path' := path[f := path[t] + [i]];
      StepNew(m, m1, root, path, v, level, f);
      HungNext(m, m1, root, path, t, i, f);
    }
  }

  lemma NextTable(mem: Tables, root: nat, v: nat, n: nat)
    ensures TableAt(mem, root, v, n + 1) == Base(Entry(mem, TableAt(mem, root, v, n), Index(v, n)))
  {
  }

  lemma HungNext(m: Memory, m1: Memory, root: nat, path: map<nat, seq<nat>>, t: nat, i: nat, f: nat)
    requires Backed(m, root, path) && t in path && i < 512 && Hung(m, m1, t, i, f)
    ensures Base(Entry(m1.tables, t, i)) == f
  {
    HungSame(m, m1, root, path, t, i, f);
    assert f % 4096 == 0;
    NewEntry(f);
    hide Base, Entry;
  }

  lemma OnWay(m: Memory, root: nat, path: map<nat, seq<nat>>, v: nat, n: nat)
    requires Backed(m, root, path) && n <= 3 && Descends(m.tables, root, v, n)
    ensures var t := TableAt(m.tables, root, v, n);
            t in m.tables && |m.tables[t]| == 512 && t != 0 && Index(v, n) < |m.tables[t]|
  {
    TableLabel(m.tables, root, path, v, n);
  }

  lemma NonZeroTable(m: Memory, root: nat, path: map<nat, seq<nat>>, v: nat)
    requires Backed(m, root, path) && Descends(m.tables, root, v, 3)
    ensures TableAt(m.tables, root, v, 3) > 0
  {
    TableLabel(m.tables, root, path, v, 3);
  }

  lemma LookStep(mem: Tables, root: nat, v: nat, level: nat)
    requires level < 4 && Descends(mem, root, v, level)
    requires TableAt(mem, root, v, level) in mem && Index(v, level) < |mem[TableAt(mem, root, v, level)]|
    ensures var t := TableAt(mem, root, v, level);
            var e := mem[t][Index(v, level)];
            && (!Present(e) || (level < 3 && Huge(e)) ==> Look(mem, t, v, level) == None)
            && (level == 3 && Present(e) ==> Look(mem, t, v, level) == Some(t))
            && (level < 3 && Present(e) && !Huge(e) ==>
                  && Descends(mem, root, v, level + 1) && TableAt(mem, root, v, level + 1) == Base(e)
                  && Look(mem, t, v, level) == Look(mem, Base(e), v, level + 1))
  {
    hide Present, Huge, Base, Index;
  }
}
