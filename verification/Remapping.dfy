/** Replacing one entry by a table: splitting a large page, and rebuilding the identity map of the lowest
    512 GiB.  Both hang a filled table below an entry. */
module Remapping {
  import opened Frames
  import opened PageTables
  import opened Mapping

  // ---------------------------------------------------------------- hanging a filled table

  /** The memory after a table with content `fill`, in the frame `f` that was free, was hung below entry
      `i` of `t` by the entry `e`. */
  ghost predicate Replaced(m: Memory, m1: Memory, t: nat, i: nat, f: nat, e: nat, fill: seq<nat>) {
    && t in m.tables && i < |m.tables[t]| && f != t && |fill| == 512
    && m1.tables == Write(m.tables[f := fill], t, i, e)
    && Free(m.frames, f) && 0 < f && f % 4096 == 0 && Base(e) == f
    && WellPlaced(m1.frames) && SameShape(m.frames, m1.frames)
    && (forall g :: Free(m1.frames, g) <==> Free(m.frames, g) && g != f)
  }

  lemma ReplacedBacked(m: Memory, m1: Memory, root: nat, path: map<nat, seq<nat>>, t: nat, i: nat, f: nat, e: nat,
                       fill: seq<nat>)
    requires Backed(m, root, path) && t in path && |path[t]| < 3 && i < 512 && Replaced(m, m1, t, i, f, e, fill)
    requires Leads(e) && (|path[t]| < 2 ==> forall j :: 0 <= j < 512 ==> !Leads(fill[j]))
    ensures f !in path && Backed(m1, root, path[f := path[t] + [i]])
  {
    assert f !in path;
    HangKeepsTree(m.tables, root, path, t, i, f, e, fill);
    hide Free, SameShape, WellPlaced, Tree, Write, Base, Leads;
  }

  lemma ReplacedSame(m: Memory, m1: Memory, root: nat, path: map<nat, seq<nat>>, t: nat, i: nat, f: nat, e: nat,
                     fill: seq<nat>)
    requires Backed(m, root, path) && t in path && i < 512 && Replaced(m, m1, t, i, f, e, fill)
    ensures f !in path && SameBut(m.tables, m1.tables, path, t, i) && Entry(m1.tables, t, i) == e
    ensures forall j :: 0 <= j < 512 ==> Entry(m1.tables, f, j) == fill[j]
  {
    hide Free, SameShape, WellPlaced, Base, Leads;
  }

  /** Addresses below the entry are resolved in the new table, all others as before. */
  lemma ReplacedEffect(m: Memory, m1: Memory, root: nat, path: map<nat, seq<nat>>, v: nat, n: nat, f: nat, e: nat,
                       fill: seq<nat>, v': nat)
    requires Backed(m, root, path) && n < 3 && Descends(m.tables, root, v, n) && Leads(e)
    requires Replaced(m, m1, TableAt(m.tables, root, v, n), Index(v, n), f, e, fill)
    ensures var t, i := TableAt(m.tables, root, v, n), Index(v, n);
            if Path(v', n + 1) == Path(v, n + 1)
            then Translate(m1.tables, root, v') == Resolve(m1.tables, fill[Index(v', n + 1)], n + 1, v') &&
                 Translate(m.tables, root, v') == Resolve(m.tables, Entry(m.tables, t, i), n, v')
            else Translate(m1.tables, root, v') == Translate(m.tables, root, v')
  {
    var t, i := TableAt(m.tables, root, v, n), Index(v, n);
    BackedIs(m, root, path);
    TableLabel(m.tables, root, path, v, n);
    ReplacedSame(m, m1, root, path, t, i, f, e, fill);
    WriteEffect(m.tables, m1.tables, root, path, v, n, v');
    assert Base(e) == f;
    hide Replaced, Backed, Tree, Path, Index, Base, Entry, Translate, TableAt, Descends, SameBut;
  }

  // ---------------------------------------------------------------- splitting a large page

  /** `e & 0xFFF & ~PTE_HUGE`. */
  function LowFlags(e: nat): (r: nat)
    ensures r < 4096
  {
    var flags := e % 4096;
    if flags / 128 % 2 == 1 then flags - 128 else flags
  }

  /** Entry `j` of the table that replaces a large page found at `level`: 2 MiB pages for a 1 GiB page,
      4 KiB pages for a 2 MiB page. */
  function SubEntry(e: nat, level: nat, j: nat): nat {
    Base(e) + j * Span(level + 1) + LowFlags(e) + if level == 1 then 128 else 0
  }

  function SubTable(e: nat, level: nat): (s: seq<nat>)
    ensures |s| == 512 && forall j :: 0 <= j < 512 ==> s[j] == SubEntry(e, level, j)
  {
    seq(512, j requires 0 <= j < 512 => SubEntry(e, level, j))
  }

  /** `split_huge_page`. */
  function SplitPage(m: Memory, t: nat, level: nat, i: nat): (Memory, nat) {
    if level != 1 && level != 2 then (m, 0)
    else
      var (rs, f) := TakeFrame(m.frames);
      if f <= 0 then (m, 0)
      else
        var mem := m.tables[f := SubTable(Entry(m.tables, t, i), level)];
        if t in mem && i < |mem[t]| then (Memory(rs, Write(mem, t, i, f + TABLE_FLAGS)), f) else (Memory(rs, mem), f)
  }

  lemma SplitIs(m: Memory, root: nat, path: map<nat, seq<nat>>, t: nat, level: nat, i: nat)
    requires Backed(m, root, path) && t in path && i < 512 && (level == 1 || level == 2)
    ensures var (m1, f) := SplitPage(m, t, level, i);
            if FreeCount(m.frames) == 0 then f == 0 && m1 == m
            else Replaced(m, m1, t, i, f, f + TABLE_FLAGS, SubTable(Entry(m.tables, t, i), level))
  {
    assert t in m.tables && |m.tables[t]| == 512 && !Free(m.frames, t);
    hide Free, IsFrame, SameShape, FreeCount, WellPlaced, TakeFrame, Tree, Base, SubTable, TABLE_FLAGS;
    TakeFrameSpec(m.frames);
    var (m1, f) := SplitPage(m, t, level, i);
    if f % 4096 == 0 { NewEntry(f); }
  }

  lemma FlagsSplit(e: nat)
    ensures var flags := e % 4096; (Huge(e) <==> flags / 128 % 2 == 1) && flags % 2 == e % 2
    ensures Base(e) % 4096 == 0 && LowFlags(e) == if Huge(e) then e % 4096 - 128 else e % 4096
  {
    var k, flags := e / 4096, e % 4096;
    assert e == 4096 * k + flags;
    HugeIs(k, flags);
    hide Huge;
  }

  /** Clearing bit 7, and setting it again. */
  lemma Bit7(flags: nat)
    requires flags < 4096
    ensures var low := if flags / 128 % 2 == 1 then flags - 128 else flags;
            && low % 2 == flags % 2 && low / 128 % 2 == 0
            && low + 128 < 4096 && (low + 128) / 128 % 2 == 1 && (low + 128) % 2 == flags % 2
  {
  }

  lemma SubEntryIs(e: nat, level: nat, j: nat)
    requires (level == 1 || level == 2) && Present(e)
    ensures var s := SubEntry(e, level, j);
            Present(s) && Base(s) == Base(e) + j * Span(level + 1) && (Huge(s) <==> level == 1)
  {
    hide Huge, LowFlags, Base, Present, Span;
    var b := Base(e) + j * Span(level + 1);
    SpanAligned(level + 1, j);
    FlagsSplit(e);
    AlignedSum(Base(e), j * Span(level + 1));
    SubFlags(e, level);
    BaseAndFlags(b, LowFlags(e) + if level == 1 then 128 else 0);
  }

  lemma AlignedSum(a: nat, b: nat)
    requires a % 4096 == 0 && b % 4096 == 0
    ensures (a + b) % 4096 == 0
  {
  }

  lemma SubFlags(e: nat, level: nat)
    requires (level == 1 || level == 2) && Present(e)
    ensures var flags := LowFlags(e) + if level == 1 then 128 else 0;
            flags < 4096 && flags % 2 == 1 && (flags / 128 % 2 == 1 <==> level == 1)
  {
    FlagsSplit(e);
    Bit7(e % 4096);
    hide Huge, Base;
  }

  lemma SpanAligned(level: nat, j: nat)
    ensures j * Span(level) % 4096 == 0
  {
    var q := Span(level) / 4096;
    assert Span(level) == 4096 * q;
    assert j * Span(level) == 4096 * (q * j);
  }

  /** The offset in a large page is the number of the part, times its size, plus the offset in the part. */
  lemma SpanSplit(v: nat, level: nat)
    requires level < 3
    ensures v % Span(level) == Index(v, level + 1) * Span(level + 1) + v % Span(level + 1)
  {
    match level
    case 0 => assert v / 0x80_0000_0000 == v / 0x4000_0000 / 512;
    case 1 => assert v / 0x4000_0000 == v / 0x20_0000 / 512;
    case 2 => assert v / 0x20_0000 == v / 0x1000 / 512;
  }

  lemma SubResolves(mem: Tables, mem': Tables, e: nat, level: nat, v: nat)
    requires (level == 1 || level == 2) && Present(e) && Huge(e)
    ensures Resolve(mem', SubTable(e, level)[Index(v, level + 1)], level + 1, v) == Resolve(mem, e, level, v)
  {
    var j := Index(v, level + 1);
    SubEntryIs(e, level, j);
    SpanSplit(v, level);
    hide Span, Index, Base, Present, Huge, SubEntry;
  }

  /** Splitting a 1 GiB or 2 MiB page into 512 parts preserves the translation of every address; without
      a free frame it does nothing. */
  lemma SplitPreserves(m: Memory, root: nat, path: map<nat, seq<nat>>, v: nat, level: nat)
    returns (path': map<nat, seq<nat>>)
    requires Backed(m, root, path) && (level == 1 || level == 2) && Descends(m.tables, root, v, level)
    requires var e := Entry(m.tables, TableAt(m.tables, root, v, level), Index(v, level)); Present(e) && Huge(e)
    ensures var (m', f) := SplitPage(m, TableAt(m.tables, root, v, level), level, Index(v, level));
            && Backed(m', root, path') && Extends(path, path')
            && (forall v' :: Translate(m'.tables, root, v') == Translate(m.tables, root, v'))
            && (f != 0 ==> Descends(m'.tables, root, v, level + 1)) && (f == 0 ==> m' == m)
  {
    var t, i := TableAt(m.tables, root, v, level), Index(v, level);
    var (m', f) := SplitPage(m, t, level, i);
    var e := Entry(m.tables, t, i);
    hide *;
    BackedIs(m, root, path);
    IndexBound(v, level);
    PathLength(v, level);
    TableLabel(m.tables, root, path, v, level);
    SplitIs(m, root, path, t, level, i);
    if FreeCount(m.frames) == 0 {
      path' := path;
      ExtendsSelf(path);
    } else {
      ReplacedFrame(m, m', t, i, f, f + TABLE_FLAGS, SubTable(e, level));
      NewEntry(f);
      SubTableLeads(e, level);
      ReplacedBacked(m, m', root, path, t, i, f, f + TABLE_FLAGS, SubTable(e, level));
      path' := path[f := path[t] + [i]];
      ExtendsNew(path, f, path[t] + [i]);
      forall v' ensures Translate(m'.tables, root, v') == Translate(m.tables, root, v') {
        ReplacedEffect(m, m', root, path, v, level, f, f + TABLE_FLAGS, SubTable(e, level), v');
        PathStep(v, v', level);
        SubResolves(m.tables, m'.tables, e, level, v');
      }
      ReplacedDescends(m, m', root, path, v, level, f, f + TABLE_FLAGS, SubTable(e, level));
    }
  }

  lemma SubTableLeads(e: nat, level: nat)
    requires (level == 1 || level == 2) && Present(e)
    ensures |SubTable(e, level)| == 512 && (level < 2 ==> forall j :: 0 <= j < 512 ==> !Leads(SubTable(e, level)[j]))
  {
    forall j | 0 <= j < 512 && level < 2 ensures !Leads(SubTable(e, level)[j]) { SubEntryIs(e, level, j); }
  }

  lemma ExtendsSelf(path: map<nat, seq<nat>>)
    ensures Extends(path, path)
  {
  }

  lemma ExtendsNew(path: map<nat, seq<nat>>, f: nat, p: seq<nat>)
    requires f !in path
    ensures Extends(path, path[f := p])
  {
  }

  lemma ReplacedFrame(m: Memory, m1: Memory, t: nat, i: nat, f: nat, e: nat, fill: seq<nat>)
    requires Replaced(m, m1, t, i, f, e, fill)
    ensures f % 4096 == 0 && 0 < f
  {
  }

  lemma ReplacedDescends(m: Memory, m1: Memory, root: nat, path: map<nat, seq<nat>>, v: nat, n: nat, f: nat, e: nat,
                         fill: seq<nat>)
    requires Backed(m, root, path) && n < 3 && Descends(m.tables, root, v, n) && Leads(e)
    requires Replaced(m, m1, TableAt(m.tables, root, v, n), Index(v, n), f, e, fill)
    ensures Descends(m1.tables, root, v, n + 1)
  {
    var t, i := TableAt(m.tables, root, v, n), Index(v, n);
    BackedIs(m, root, path);
    TableLabel(m.tables, root, path, v, n);
    ReplacedSame(m, m1, root, path, t, i, f, e, fill);
    WriteEffect(m.tables, m1.tables, root, path, v, n, v);
    hide Replaced, Backed, Tree, Path, Index, Base, Entry, Translate, TableAt, SameBut, Leads;
  }

  // ---------------------------------------------------------------- rebuilding the identity map

  const GIB := 0x4000_0000

  /** `e | PTE_WRITABLE`. */
  function Writable(e: nat): nat {
    if e / 2 % 2 == 1 then e else e + 2
  }

  /** An entry of the new table: 1 GiB pages are kept, finer maps become identity 1 GiB pages (present,
      writable, accessed, large), holes stay holes. */
  function IdentityEntry(o: nat, i: nat): nat {
    if !Present(o) then 0 else if Huge(o) then Writable(o) else i * GIB + 163
  }

  function IdentityTable(mem: Tables, t: nat): (s: seq<nat>)
    ensures |s| == 512 && forall i :: 0 <= i < 512 ==> s[i] == IdentityEntry(Entry(mem, t, i), i)
  {
    seq(512, i requires 0 <= i < 512 => IdentityEntry(Entry(mem, t, i), i))
  }

  /** `replace_identity_pdpt`, when a frame is to be had. */
  function ReplaceIdentity(m: Memory, root: nat): Memory {
    var e := Entry(m.tables, root, 0);
    var (rs, f) := TakeFrame(m.frames);
    if !Present(e) || f <= 0 then m
    else
      var mem := m.tables[f := IdentityTable(m.tables, Base(e))];
      if root in mem && 0 < |mem[root]| then Memory(rs, Write(mem, root, 0, f + Writable(e % 4096)))
      else Memory(rs, mem)
  }

  lemma ReplaceIs(m: Memory, root: nat, path: map<nat, seq<nat>>) returns (f: nat)
    requires Backed(m, root, path) && Leads(Entry(m.tables, root, 0)) && FreeCount(m.frames) > 0
    ensures var e := Entry(m.tables, root, 0);
            Replaced(m, ReplaceIdentity(m, root), root, 0, f, f + Writable(e % 4096), IdentityTable(m.tables, Base(e)))
    ensures Leads(f + Writable(Entry(m.tables, root, 0) % 4096))
  {
    hide Free, IsFrame, SameShape, FreeCount, WellPlaced, TakeFrame, Tree, Base, IdentityTable, Writable, Huge,
         Present, Entry,
         Backed, Leads;
    RootTable(m, root, path);
    TakeFrameSpec(m.frames);
    f := TakeFrame(m.frames).1;
    ReplacingEntry(f, Entry(m.tables, root, 0));
  }

  lemma RootTable(m: Memory, root: nat, path: map<nat, seq<nat>>)
    requires Backed(m, root, path)
    ensures root in m.tables && |m.tables[root]| == 512 && !Free(m.frames, root) && WellPlaced(m.frames)
  {
    assert root in path;
  }

  lemma ReplacingEntry(f: nat, e: nat)
    requires f % 4096 == 0 && Leads(e)
    ensures Present(e) && Base(f + Writable(e % 4096)) == f && Leads(f + Writable(e % 4096))
  {
    hide Base, Writable, Huge, Present;
    WritableFlags(e);
    BaseAndFlags(f, Writable(e % 4096));
  }

  lemma WritableFlags(e: nat)
    ensures var w := Writable(e % 4096);
            w < 4096 && (w % 2 == 1 <==> Present(e)) && (w / 128 % 2 == 1 <==> Huge(e))
  {
    var flags := e % 4096;
    FlagsSplit(e);
    hide Huge, LowFlags;
    Bit1(flags);
  }

  lemma Bit1(flags: nat)
    requires flags < 4096
    ensures var w := Writable(flags); w < 4096 && w % 2 == flags % 2 && w / 128 == flags / 128
  {
    var k, r := flags / 4, flags % 4;
    assert flags == 4 * k + r && flags / 2 == 2 * k + r / 2;
    assert Writable(flags) == 4 * k + (if r / 2 == 1 then r else r + 2);
    hide Writable;
    Quarter(k, r);
    Quarter(k, if r / 2 == 1 then r else r + 2);
  }

  lemma Quarter(k: nat, r: nat)
    requires r < 4
    ensures (4 * k + r) / 128 == k / 32 && (4 * k + r) % 2 == r % 2
  {
  }

  lemma WritableIs(e: nat)
    ensures Base(Writable(e)) == Base(e) && (Present(Writable(e)) <==> Present(e)) && (Huge(Writable(e)) <==> Huge(e))
  {
    hide Huge, Writable, Base, Present;
    var k, flags := e / 4096, e % 4096;
    assert e == 4096 * k + flags;
    WritableSplit(k, flags);
    Bit1(flags);
    BaseAndFlags(4096 * k, flags);
    BaseAndFlags(4096 * k, Writable(flags));
  }

  lemma WritableSplit(k: nat, flags: nat)
    ensures Writable(4096 * k + flags) == 4096 * k + Writable(flags)
  {
    assert (4096 * k + flags) / 2 == 2048 * k + flags / 2;
  }

  lemma GibPage(i: nat)
    ensures var s := i * GIB + 163; Present(s) && Huge(s) && Base(s) == i * GIB
  {
    hide Present, Huge, Base;
    assert i * GIB == 4096 * (0x4_0000 * i);
    BaseAndFlags(i * GIB, 163);
  }

  lemma IdentityEntryIs(o: nat, i: nat)
    ensures var s := IdentityEntry(o, i);
            && (Present(s) <==> Present(o)) && !Leads(s)
            && (Present(o) ==> Huge(s) && Base(s) == if Huge(o) then Base(o) else i * GIB)
  {
    hide Present, Huge, Base, Writable, GIB;
    WritableIs(o);
    GibPage(i);
    ZeroIs();
  }

  lemma ZeroIs()
    ensures !Present(0)
  {
  }

  lemma IdentityResolves(mem: Tables, mem': Tables, o: nat, v: nat)
    ensures Resolve(mem', IdentityEntry(o, Index(v, 1)), 1, v) ==
            if Leads(o) then v % Span(0) else Resolve(mem, o, 1, v)
  {
    hide Index, Span, Base, Huge, Present, Writable, GIB, IdentityEntry;
    SpanSplit(v, 0);
    IdentityEntryIs(o, Index(v, 1));
    GibIs();
  }

  lemma GibIs()
    ensures Span(1) == GIB
  {
  }

  /** Rebuilding the identity map: every address outside the lowest 512 GiB, in a large page or in a hole
      keeps its translation; an address that was mapped through finer tables is identity mapped. */
  lemma ReplaceIdentitySpec(m: Memory, root: nat, path: map<nat, seq<nat>>) returns (path': map<nat, seq<nat>>)
    requires Backed(m, root, path) && Leads(Entry(m.tables, root, 0)) && FreeCount(m.frames) > 0
    ensures var m' := ReplaceIdentity(m, root);
            && Backed(m', root, path')
            && forall v: nat :: Translate(m'.tables, root, v) ==
                 if Index(v, 0) == 0 && Leads(Entry(m.tables, Base(Entry(m.tables, root, 0)), Index(v, 1)))
                 then v % Span(0) else Translate(m.tables, root, v)
  {
    var e, m' := Entry(m.tables, root, 0), ReplaceIdentity(m, root);
    hide *;
    var fill := IdentityTable(m.tables, Base(e));
    var f := ReplaceIs(m, root, path);
    var e' := f + Writable(e % 4096);
    RootIs(m, root, path);
    IdentityTableLeads(m.tables, Base(e));
    ReplacedBacked(m, m', root, path, root, 0, f, e', fill);
    path' := path[f := path[root] + [0]];
    forall v: nat ensures Translate(m'.tables, root, v) ==
                       if Index(v, 0) == 0 && Leads(Entry(m.tables, Base(e), Index(v, 1)))
                       then v % Span(0) else Translate(m.tables, root, v)
    {
      var o := Entry(m.tables, Base(e), Index(v, 1));
      FirstStep(m.tables, root, v);
      ReplacedEffect(m, m', root, path, 0, 0, f, e', fill, v);
      IdentityTableAt(m.tables, Base(e), Index(v, 1));
      IndexBound(v, 1);
      IdentityResolves(m.tables, m'.tables, o, v);
    }
  }

  lemma FirstStep(mem: Tables, root: nat, v: nat)
    ensures Index(0, 0) == 0 && TableAt(mem, root, 0, 0) == root && Descends(mem, root, 0, 0)
    ensures Path(v, 1) == Path(0, 1) <==> Index(v, 0) == 0
    ensures var e := Entry(mem, root, 0);
            Leads(e) ==> Resolve(mem, e, 0, v) == Resolve(mem, Entry(mem, Base(e), Index(v, 1)), 1, v)
  {
    PathStep(v, 0, 0);
  }

  lemma IdentityTableAt(mem: Tables, t: nat, i: nat)
    requires i < 512
    ensures IdentityTable(mem, t)[i] == IdentityEntry(Entry(mem, t, i), i)
  {
  }

  lemma IdentityTableLeads(mem: Tables, t: nat)
    ensures |IdentityTable(mem, t)| == 512 && forall i :: 0 <= i < 512 ==> !Leads(IdentityTable(mem, t)[i])
  {
    hide Leads, IdentityEntry;
    forall i | 0 <= i < 512 ensures !Leads(IdentityTable(mem, t)[i]) {
      IdentityEntryIs(Entry(mem, t, i), i);
    }
  }

  lemma RootIs(m: Memory, root: nat, path: map<nat, seq<nat>>)
    requires Backed(m, root, path)
    ensures root in path && path[root] == []
  {
  }

  /** ... so every identity-mapped address of the lowest 512 GiB stays identity mapped. */
  lemma IdentityStays(m: Memory, root: nat, path: map<nat, seq<nat>>, v: nat)
    requires Backed(m, root, path) && Leads(Entry(m.tables, root, 0)) && FreeCount(m.frames) > 0
    requires v < Span(0) && Translate(m.tables, root, v) == v
    ensures Translate(ReplaceIdentity(m, root).tables, root, v) == v
  {
    hide *;
    var path' := ReplaceIdentitySpec(m, root, path);
    Below(v, Span(0));
  }

  lemma Below(v: nat, n: nat)
    requires v < n
    ensures v % n == v
  {
  }
}
