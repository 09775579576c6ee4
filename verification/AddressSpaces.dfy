/** The code of the virtual memory manager, refining the functions of `VirtualMemory`. */
module AddressSpaces {
  import opened Frames
  import opened PageTables
  import opened Mapping
  import opened Paging
  import opened MissingTables
  import opened VirtualMemory

  class AddressSpace {
    const phys: PhysicalMemory
    const root: nat
    const isUser: bool
    const flags: nat
    var address: nat
    var bytes: nat
    var pages: nat

    constructor (phys: PhysicalMemory, root: nat, isUser: bool, flags: nat)
      ensures this.phys == phys && this.root == root && this.isUser == isUser && this.flags == flags
      ensures address == Start(isUser) + PAGE && bytes == 0 && pages == 0
    {
      this.phys, this.root, this.isUser, this.flags := phys, root, isUser, flags;
      address, bytes, pages := Start(isUser) + PAGE, 0, 0;
    }

    ghost function View(): Space
      requires phys.alloc.Valid()
      reads this, phys, phys.alloc.Arrays()
    {
      Space(phys.View(), root, isUser, flags, address, bytes, pages)
    }

    /** Collects frames for `n` pages; gives all of them back when there are not enough. */
    method CollectFrames(n: nat) returns (ok: bool, fs: seq<nat>)
      requires phys.alloc.Valid() && WellPlaced(phys.alloc.View())
      modifies phys.alloc.Arrays()
      ensures var (rs, all) := Collect(old(phys.alloc.View()), n);
              && ok == (|all| == n)
              && (ok ==> fs == all && phys.alloc.View() == rs)
              && (!ok ==> phys.alloc.View() == GiveAll(rs, all))
    {
      hide *;
      ghost var rs0 := phys.alloc.View();
      fs := [];
      CollectNone(rs0);
      var i := 0;
      while i < n
        invariant 0 <= i <= n && |fs| == i && Collect(rs0, i) == (phys.alloc.View(), fs)
      {
        CollectNext(rs0, i, n);
        var f := phys.alloc.Malloc();
        if f == 0 {
          GiveBack(fs);
          return false, fs;
        }
        fs := fs + [f];
        i := i + 1;
      }
      ok := true;
    }

    method GiveBack(fs: seq<nat>)
      requires phys.alloc.Valid()
      modifies phys.alloc.Arrays()
      ensures phys.alloc.View() == GiveAll(old(phys.alloc.View()), fs)
    {
      ghost var rs := phys.alloc.View();
      assert fs[..0] == [];
      for j := 0 to |fs|
        invariant phys.alloc.View() == GiveAll(rs, fs[..j])
      {
        phys.alloc.Free(fs[j]);
        assert fs[..j + 1][..j] == fs[..j];
      }
      assert fs[..|fs|] == fs;
    }

    /** `Vmm_Free` of pages that are in use or not mapped. */
    method Free(v: nat, size: nat, ghost path: map<nat, seq<nat>>, ghost live: map<nat, nat>)
      requires phys.alloc.Valid() && SpaceInv(View(), path, live) && CanRelease(View(), live, v, size)
      modifies this, phys, phys.alloc.Arrays()
      ensures View() == Release(old(View()), v, size)
    {
      hide *;
      ghost var s := View();
      ViewIs();
      ReleaseCases(s, v, size);
      CanReleaseIs(s, live, v, size);
      if v == 0 || size == 0 { return; }
      var n := PagesFor(size);
      if v < Start(isUser) + PAGE || v > address { return; }
      SpaceIs(s, path, live);
      FreeEach(v, n, path, live);
      bytes := (bytes - n * PAGE) % TWO_64;
      pages := (pages - n) % TWO_64;
      ViewIs();
    }

    method FreeEach(v: nat, n: nat, ghost path: map<nat, seq<nat>>, ghost live: map<nat, nat>)
      requires phys.alloc.Valid() && Backed(phys.View(), root, path)
      requires LivePages(phys.View(), root, path, isUser, live, address)
      requires forall i :: 0 <= i < n ==> Freeable(phys.View(), root, live, PageAt(v, i))
      modifies phys, phys.alloc.Arrays()
      ensures phys.View() == FreePages(old(phys.View()), root, v, n)
    {
      hide *;
      ghost var m := phys.View();
      ReleaseNone(m, root, v, live);
      for i := 0 to n
        invariant phys.View() == FreePages(m, root, v, i)
      {
        ghost var m1 := phys.View();
        FreePagesSpec(m, root, path, isUser, live, address, v, i);
        FreePagesStep(m, root, v, live, i + 1);
        FreePageCases(m1, root, PageAt(v, i));
        phys.ViewIs();
        var f := phys.VirtToPhys(root, PageAt(v, i));
        if f != 0 {
          UnmapPageSpec(m1, root, path, PageAt(v, i));
          phys.UnmapPage(root, PageAt(v, i), path);
          phys.ViewIs();
          phys.alloc.Free(f);
          phys.ViewIs();
        }
      }
    }

    /** `vmm_map_range`. */
    method MapPages(v: nat, fs: seq<nat>, ghost path: map<nat, seq<nat>>)
      requires phys.alloc.Valid() && Backed(phys.View(), root, path) && flags < 4096
      requires forall i :: 0 <= i < |fs| ==> fs[i] % 4096 == 0
      modifies phys, phys.alloc.Arrays()
      ensures phys.View() == MapRange(old(phys.View()), root, v, fs, flags)
    {
      hide Backed, Mapping.MapPage, Needs, FreeCount, MapEffect, MappedTo, OnlyTaken;
      ghost var m, p := phys.View(), path;
      assert fs[..0] == [];
      for i := 0 to |fs|
        invariant Backed(phys.View(), root, p) && phys.View() == MapRange(m, root, v, fs[..i], flags)
      {
        ghost var p' := MapPageSpec(phys.View(), root, p, PageAt(v, i), fs[i], flags);
        phys.MapPage(root, PageAt(v, i), fs[i], flags, p);
        assert fs[..i + 1][..i] == fs[..i];
        p := p';
      }
      assert fs[..|fs|] == fs;
    }

    /** `Vmm_Malloc`. */
    method Malloc(size: nat, ghost path: map<nat, seq<nat>>) returns (r: nat)
      requires phys.alloc.Valid() && Backed(phys.View(), root, path) && flags < 4096
      modifies this, phys, phys.alloc.Arrays()
      ensures (View(), r) == VirtualMemory.Malloc(old(View()), size)
    {
      hide *;
      ghost var s := View();
      ViewIs();
      MallocCases(s, size);
      if size == 0 { return 0; }
      var n := PagesFor(size);
      if !Fits(address, n * PAGE, isUser) { return 0; }
      var ok := TakePages(n, path);
      ViewIs();
      if !ok { return 0; }
      r := address;
      address := (address + n * PAGE) % TWO_64;
      bytes := (bytes + n * PAGE) % TWO_64;
      pages := (pages + n) % TWO_64;
      ViewIs();
    }

    lemma ViewIs()
      requires phys.alloc.Valid()
      ensures View() == Space(phys.View(), root, isUser, flags, address, bytes, pages)
    {
    }

    /** Finds frames for `n` pages and maps them at the top. */
    method TakePages(n: nat, ghost path: map<nat, seq<nat>>) returns (ok: bool)
      requires phys.alloc.Valid() && Backed(phys.View(), root, path) && flags < 4096
      modifies phys, phys.alloc.Arrays()
      ensures var m := old(phys.View());
              var (rs, fs) := Collect(m.frames, n);
              if |fs| < n then !ok && phys.View() == m.(frames := GiveAll(rs, fs))
              else ok && phys.View() == MapRange(Memory(rs, m.tables), root, address, fs, flags)
    {
      hide *;
      ghost var m := phys.View();
      phys.ViewIs();
      BackedIs(m, root, path);
      CollectSpec(m.frames, n);
      CollectLess(m.frames, n);
      var fs;
      ok, fs := CollectFrames(n);
      phys.ViewIs();
      if !ok { return; }
      CollectBacked(m, phys.View(), root, path, n);
      MapPages(address, fs, path);
    }
  }

  lemma MallocCases(s: Space, size: nat)
    ensures 0 < TWO_64
    ensures var n := PagesFor(size);
            var (rs, fs) := Collect(s.mem.frames, n);
            VirtualMemory.Malloc(s, size) ==
            if size == 0 || !Fits(s.address, n * PAGE, s.isUser) then (s, 0)
            else if |fs| < n then (s.(mem := s.mem.(frames := GiveAll(rs, fs))), 0)
            else (s.(mem := MapRange(Memory(rs, s.mem.tables), s.root, s.address, fs, s.flags),
                     address := (s.address + n * PAGE) % TWO_64,
                     bytes := (s.bytes + n * PAGE) % TWO_64,
                     pages := (s.pages + n) % TWO_64),
                  s.address)
  {
    hide Fits, Collect, GiveAll, MapRange, PagesFor;
  }

  lemma ReleaseCases(s: Space, v: nat, size: nat)
    ensures 0 < TWO_64
    ensures var n := PagesFor(size);
            && (Ignored(s, v, size) <==> v == 0 || size == 0 || v < Start(s.isUser) + PAGE || v > s.address)
            && Release(s, v, size) ==
            if Ignored(s, v, size) then s
            else s.(mem := FreePages(s.mem, s.root, v, n),
                    bytes := (s.bytes - n * PAGE) % TWO_64,
                    pages := (s.pages - n) % TWO_64)
  {
  }

  lemma FreePageCases(m: Memory, root: nat, v: nat)
    ensures var phys := Translate(m.tables, root, v);
            var m1 := UnmapPage(m, root, v);
            FreePage(m, root, v) == if phys == 0 then m else m1.(frames := GiveFrame(m1.frames, phys))
  {
  }

  lemma CollectNone(rs: seq<Region>)
    ensures Collect(rs, 0) == (rs, [])
  {
  }

  lemma CollectLess(rs: seq<Region>, n: nat)
    requires WellPlaced(rs)
    ensures |Collect(rs, n).1| <= n
  {
    CollectSpec(rs, n);
    hide Collect;
  }

  /** The next frame, or the end of the search. */
  lemma CollectNext(rs: seq<Region>, i: nat, n: nat)
    requires i < n && |Collect(rs, i).1| == i && WellPlaced(rs)
    ensures var (rs1, fs) := Collect(rs, i);
            var (rs2, f) := TakeFrame(rs1);
            if f == 0 then rs2 == rs1 && Collect(rs, n) == (rs1, fs)
            else 0 < f && Collect(rs, i + 1).0 == rs2 && Collect(rs, i + 1).1 == fs + [f]
  {
    hide Collect, TakeFrame, Free, IsFrame, SameShape, FreeCount, WellPlaced;
    CollectSpec(rs, i);
    TakeFrameSpec(Collect(rs, i).0);
    CollectIs(rs, i + 1);
    if TakeFrame(Collect(rs, i).0).1 == 0 { CollectStuck(rs, i, n); }
  }

  lemma {:induction false} CollectStuck(rs: seq<Region>, i: nat, n: nat)
    requires i < n && |Collect(rs, i).1| == i && Collect(rs, i + 1) == Collect(rs, i)
    ensures Collect(rs, n) == Collect(rs, i)
    decreases n
  {
    if i + 1 < n { CollectStuck(rs, i, n - 1); }
  }

  lemma CollectBacked(m: Memory, m1: Memory, root: nat, path: map<nat, seq<nat>>, n: nat)
    requires Backed(m, root, path) && m1.tables == m.tables && m1.frames == Collect(m.frames, n).0
    ensures Backed(m1, root, path)
    ensures var fs := Collect(m.frames, n).1; forall i :: 0 <= i < |fs| ==> fs[i] % 4096 == 0
  {
    CollectSpec(m.frames, n);
    var fs := Collect(m.frames, n).1;
    forall i | 0 <= i < |fs| ensures fs[i] % 4096 == 0 { assert fs[i] in fs; }
    hide Collect, Tree, Free, WellPlaced, SameShape, IsFrame, FreeCount;
  }
}
