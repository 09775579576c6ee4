/** The physical memory manager: one bitmap per memory descriptor. */
module FrameAllocator {
  import opened Bitmap
  import opened Frames

  class Descriptor {
    const available: bool
    const start: nat
    const pages: nat
    const bitmap: Bitmap

    constructor (available: bool, start: nat, pages: nat)
      ensures this.available == available && this.start == start && this.pages == pages
      ensures Valid() && fresh(bitmap) && fresh(bitmap.bits) && bitmap.View() == seq(pages, i => false)
    {
      this.available, this.start, this.pages := available, start, pages;
      bitmap := new Bitmap(pages, false);
    }

    ghost predicate Valid() {
      bitmap.Valid() && bitmap.size == pages
    }

    ghost function View(): Region
      requires Valid()
      reads bitmap.bits
    {
      Region(available, start, bitmap.View())
    }
  }

  /** The position that a search for one clear bit returns is the first clear bit. */
  lemma FirstClear(bits: seq<bool>, k: int)
    requires k == -1 || 0 <= k < |bits|
    requires k == -1 ==> forall p :: 0 <= p < |bits| ==> !RunAt(bits, false, 1, p)
    requires k >= 0 ==> RunAt(bits, false, 1, k) && forall p :: 0 <= p < k ==> !RunAt(bits, false, 1, p)
    ensures NextClear(bits, 0) == if k == -1 then |bits| else k
  {
    forall p | 0 <= p < (if k == -1 then |bits| else k) ensures bits[p] { assert !RunAt(bits, false, 1, p); }
  }

  class FrameAllocator {
    const descs: seq<Descriptor>

    constructor (descs: seq<Descriptor>)
      ensures this.descs == descs
    {
      this.descs := descs;
    }

    /** Every descriptor has a bitmap of its own, one bit per page. */
    ghost predicate Valid() {
      && (forall i :: 0 <= i < |descs| ==> descs[i].Valid())
      && (forall i, j :: 0 <= i < j < |descs| ==> descs[i].bitmap.bits != descs[j].bitmap.bits)
    }

    /** The bytes of all bitmaps. */
    ghost function Arrays(): set<array<bv8>> {
      set i | 0 <= i < |descs| :: descs[i].bitmap.bits
    }

    ghost function View(): (rs: seq<Region>)
      requires Valid()
      reads Arrays()
      ensures |rs| == |descs| && forall i :: 0 <= i < |descs| ==> rs[i] == descs[i].View()
    {
      seq(|descs|, i requires 0 <= i < |descs| reads Arrays() => descs[i].View())
    }

    /** `Pmm_Malloc(1)`. */
    method Malloc() returns (addr: int)
      requires Valid()
      modifies Arrays()
      ensures (View(), addr) == TakeFrame(old(View()))
    {
      ghost var rs := View();
      for i := 0 to |descs|
        invariant View() == rs && TakeFrame(rs) == TakeFrom(rs, i)
      {
        assert rs[i] == descs[i].View();
        if descs[i].available {
          var k := AllocIn(i);
          if k != -1 { return descs[i].start + ShiftPage(k); }
        }
      }
      return 0;
    }

    /** Marks the first free page of a descriptor. */
    method AllocIn(i: nat) returns (k: int)
      requires Valid() && i < |descs|
      modifies descs[i].bitmap.bits
      ensures var rs := old(View());
              var n := NextClear(rs[i].used, 0);
              if n < |rs[i].used| then k == n && View() == rs[i := Mark(rs[i], n, true)]
              else k == -1 && View() == rs
    {
      ghost var rs := View();
      k := descs[i].bitmap.AllocBits(false, 1);
      if k >= 0 { AllocatedOne(rs[i].used, k); }
      FirstClear(rs[i].used, k);
      OthersSame(rs, i);
    }

    /** The regions as they are when only the bitmap of descriptor `i` may have changed. */
    lemma OthersSame(rs: seq<Region>, i: nat)
      requires Valid() && i < |descs| && |rs| == |descs|
      requires forall j :: 0 <= j < |descs| && j != i ==> rs[j] == descs[j].View()
      ensures View() == rs[i := descs[i].View()]
    {
    }

    /** `Pmm_Free(addr, 1)`. */
    method Free(addr: int)
      requires Valid()
      modifies Arrays()
      ensures View() == GiveFrame(old(View()), addr)
    {
      ghost var rs := View();
      for i := 0 to |descs|
        invariant View() == rs && Find(rs, addr, 0) == Find(rs, addr, i)
      {
        var d := descs[i];
        assert rs[i] == d.View();
        if d.available && d.start <= addr < d.start + PAGE * d.pages {
          assert Find(rs, addr, 0) == i;
          var k := (addr - d.start) / PAGE;
          d.bitmap.SetBits(k, 1, false);
          assert SetRange(rs[i].used, k, 1, false) == rs[i].used[k := false];
          OthersSame(rs, i);
          return;
        }
      }
    }
  }
}
