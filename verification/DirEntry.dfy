/** The 32-byte directory entry and the search for an entry by its 11-byte short name. */
module DirEntry {
  import opened Basics
  import opened Bytes
  import opened FileData

  const ENTRY := 32
  const ATTR_VOLUME_ID := 0x08
  const ATTR_DIRECTORY := 0x10
  const ATTR_ARCHIVE := 0x20
  const ATTR_LFN := 0x0F

  type Entry = e: seq<byte> | |e| == ENTRY witness seq(ENTRY, _ => 0)

  function ShortName(e: Entry): seq<byte> {
    e[..11]
  }

  function Attr(e: Entry): byte {
    e[11]
  }

  function IsDirectory(e: Entry): bool {
    Attr(e) / ATTR_DIRECTORY % 2 == 1
  }

  function IsVolumeLabel(e: Entry): bool {
    Attr(e) / ATTR_VOLUME_ID % 2 == 1
  }

  function FirstCluster(e: Entry): nat {
    ReadLe16(e, 20) * TWO_16 + ReadLe16(e, 26)
  }

  function FileSize(e: Entry): nat {
    ReadLe32(e, 28)
  }

  function SetFirstCluster(e: Entry, c: nat): Entry
    requires c < TWO_32
  {
    WriteLe16(WriteLe16(e, 26, c % TWO_16), 20, c / TWO_16)
  }

  function SetFileSize(e: Entry, size: nat): Entry
    requires size < TWO_32
  {
    WriteLe32(e, 28, size)
  }

  /** The entries agree except in first cluster and size: in every byte but 20, 21 and 26 to 31. */
  predicate SameOther(e: Entry, f: Entry) {
    forall k :: 0 <= k < ENTRY && !(20 <= k < 22) && !(26 <= k < 32) ==> e[k] == f[k]
  }

  lemma SameOtherTrans(e: Entry, f: Entry, g: Entry)
    requires SameOther(e, f) && SameOther(f, g)
    ensures SameOther(e, g) && ShortName(e) == ShortName(g) && Attr(e) == Attr(g)
  {
  }

  /** An entry agrees with itself. */
  lemma SameOtherSelf(e: Entry)
    ensures SameOther(e, e)
  {
  }

  /** First cluster, size and the other bytes make up the whole entry. */
  lemma EntryDetermined(e: Entry, f: Entry)
    requires SameOther(e, f) && FirstCluster(e) == FirstCluster(f) && FileSize(e) == FileSize(f)
    ensures e == f
  {
    Le16Determines(e, f, 20);
    Le16Determines(e, f, 26);
    Le32Determines(e, f, 28);
    assert ReadLe16(e, 20) == ReadLe16(f, 20) && ReadLe16(e, 26) == ReadLe16(f, 26);
    hide ReadLe16, ReadLe32;
    assert forall k :: 0 <= k < ENTRY ==> e[k] == f[k];
  }

  /** The setters set what they name, at its place in the entry, and no other byte. */
  lemma EntryFields(e: Entry, c: nat, size: nat)
    requires c < TWO_32 && size < TWO_32
    ensures var f := SetFirstCluster(e, c);
            && FirstCluster(f) == c && FileSize(f) == FileSize(e) && ShortName(f) == ShortName(e) && Attr(f) == Attr(e)
            && SameOther(f, e)
    ensures var f := SetFileSize(e, size);
            && FileSize(f) == size && FirstCluster(f) == FirstCluster(e) && ShortName(f) == ShortName(e)
            && Attr(f) == Attr(e) && SameOther(f, e)
  {
    Le32RoundTrip(e, 28, size);
  }

  /** Where the setters put the bytes: the low half of the first cluster at 26, its high half at 20, the size at 28,
      lowest byte first. */
  lemma EntryPlaces(e: Entry, c: nat, size: nat, k: nat)
    requires c < TWO_32 && size < TWO_32 && k < ENTRY
    ensures SetFirstCluster(e, c)[k] == if 26 <= k < 28 then c / Pow256(k - 26) % 0x100
                                        else if 20 <= k < 22 then c / Pow256(k - 18) % 0x100 else e[k]
    ensures SetFileSize(e, size)[k] == if 28 <= k < 32 then size / Pow256(k - 28) % 0x100 else e[k]
  {
    hide *;
    ClusterHalves(e, c);
    SizeWord(e, size);
    Le32Digits(e, 28, size, k);
    var low := WriteLe16(e, 26, c % TWO_16);
    Le16Digits(low, 20, c / TWO_16, k);
    Le16Digits(e, 26, c % TWO_16, k);
    if 26 <= k < 28 { LowDigit(c, k - 26); }
    if 20 <= k < 22 { HighDigit(c, k - 20); }
  }

  lemma ClusterHalves(e: Entry, c: nat)
    requires c < TWO_32
    ensures 0 < TWO_16 && c % TWO_16 < TWO_16 && c / TWO_16 < TWO_16
    ensures |e| == ENTRY == 32 && |WriteLe16(e, 26, c % TWO_16)| == 32
    ensures SetFirstCluster(e, c) == WriteLe16(WriteLe16(e, 26, c % TWO_16), 20, c / TWO_16)
  {
    hide WriteLe16;
  }

  lemma SizeWord(e: Entry, size: nat)
    requires size < TWO_32
    ensures |e| == ENTRY == 32 && SetFileSize(e, size) == WriteLe32(e, 28, size)
  {
  }

  lemma LowDigit(c: nat, k: nat)
    requires k < 2
    ensures c % TWO_16 / Pow256(k) % 0x100 == c / Pow256(k) % 0x100
  {
    assert Pow256(0) == 1 && Pow256(1) == 0x100;
    hide Pow256;
    var q, r := c / 0x1_0000, c % 0x1_0000;
    assert c == 0x100 * (0x100 * q) + r;
    assert c / 0x100 == 0x100 * q + r / 0x100;
  }

  lemma HighDigit(c: nat, k: nat)
    requires k < 2
    ensures c / TWO_16 / Pow256(k) % 0x100 == c / Pow256(k + 2) % 0x100
  {
    assert Pow256(0) == 1 && Pow256(1) == 0x100 && Pow256(2) == 0x1_0000 && Pow256(3) == 0x100_0000;
  }

  /** Neither free, deleted, `.` or `..`, nor a long-name piece or a volume label. */
  predicate IsValidSfn(e: Entry) {
    e[0] != 0x00 && e[0] != 0xE5 && e[0] != 0x2E && Attr(e) != ATTR_LFN && !IsVolumeLabel(e)
  }

  // ---------------------------------------------------------------- slots of a directory cluster

  function SlotCount(buf: seq<byte>): nat {
    |buf| / ENTRY
  }

  function Slot(buf: seq<byte>, i: nat): Entry
    requires i < SlotCount(buf)
  {
    buf[ENTRY * i..ENTRY * i + ENTRY]
  }

  /** The cluster with slot `i` replaced. */
  function SetSlot(buf: seq<byte>, i: nat, e: Entry): (r: seq<byte>)
    requires i < SlotCount(buf)
    ensures |r| == |buf|
  {
    buf[..ENTRY * i] + e + buf[ENTRY * i + ENTRY..]
  }

  lemma SetSlotEffect(buf: seq<byte>, i: nat, e: Entry, j: nat)
    requires i < SlotCount(buf) && j < SlotCount(buf)
    ensures Slot(SetSlot(buf, i, e), j) == if i == j then e else Slot(buf, j)
  {
  }

  /** The first valid entry named `name` at or behind slot `i`; a free first byte ends the cluster. */
  function FindSlot(buf: seq<byte>, name: seq<byte>, i: nat): (r: Option<nat>)
    ensures r.Some? ==> i <= r.value < SlotCount(buf) && IsValidSfn(Slot(buf, r.value)) &&
                        ShortName(Slot(buf, r.value)) == name
    decreases SlotCount(buf) - i
  {
    if SlotCount(buf) <= i then None
    else if Slot(buf, i)[0] == 0x00 then None
    else if IsValidSfn(Slot(buf, i)) && ShortName(Slot(buf, i)) == name then Some(i)
    else FindSlot(buf, name, i + 1)
  }

  /** The slot found is still the one found once a valid entry of the same name is in it. */
  lemma {:induction false} FindSlotAfterSet(buf: seq<byte>, name: seq<byte>, i: nat, k: nat, e: Entry)
    requires FindSlot(buf, name, i) == Some(k) && IsValidSfn(e) && ShortName(e) == name
    ensures FindSlot(SetSlot(buf, k, e), name, i) == Some(k)
    decreases SlotCount(buf) - i
  {
    SetSlotEffect(buf, k, e, i);
    if i < k {
      FindSlotAfterSet(buf, name, i + 1, k, e);
    }
  }

  /** Position of an entry in a directory: index of the cluster on the chain, slot in the cluster. */
  datatype Position = Position(index: nat, slot: nat)

  /** The first valid entry named `name` in the clusters `ds[j..]` of a directory. */
  ghost function Lookup(data: seq<seq<byte>>, ds: seq<nat>, j: nat, name: seq<byte>): (r: Option<Position>)
    ensures r.Some? ==> j <= r.value.index < |ds| && r.value.slot < SlotCount(Get(data, ds[r.value.index])) &&
                        FindSlot(Get(data, ds[r.value.index]), name, 0) == Some(r.value.slot)
    decreases |ds| - j
  {
    if |ds| <= j then None
    else match FindSlot(Get(data, ds[j]), name, 0)
      case Some(i) => Some(Position(j, i))
      case None => Lookup(data, ds, j + 1, name)
  }

  /** The directory after the entry that `Lookup` finds has been overwritten. */
  ghost function PutEntry(data: seq<seq<byte>>, ds: seq<nat>, name: seq<byte>, e: Entry): (r: seq<seq<byte>>)
    ensures |r| == |data|
  {
    match Lookup(data, ds, 0, name)
    case Some(p) =>
      var c := ds[p.index];
      if c < |data| then data[c := SetSlot(data[c], p.slot, e)] else data
    case None => data
  }

  lemma {:induction false} LookupAfterPut(data: seq<seq<byte>>, ds: seq<nat>, j: nat, name: seq<byte>, p: Position,
                                          e: Entry)
    requires Lookup(data, ds, j, name) == Some(p) && IsValidSfn(e) && ShortName(e) == name
    requires ds[p.index] < |data| && forall a, b :: 0 <= a < b < |ds| ==> ds[a] != ds[b]
    ensures Lookup(data[ds[p.index] := SetSlot(data[ds[p.index]], p.slot, e)], ds, j, name) == Some(p)
    decreases |ds| - j
  {
    FindSlotAfterSet(data[ds[p.index]], name, 0, p.slot, e);
    if j < p.index {
      assert ds[j] != ds[p.index];
      LookupAfterPut(data, ds, j + 1, name, p, e);
    }
  }

  /** The entry written is the entry found: looking a name up after its entry has been overwritten
      gives the new entry, in the same place. */
  lemma PutThenLookup(data: seq<seq<byte>>, ds: seq<nat>, e: Entry)
    requires forall a :: 0 <= a < |ds| ==> ds[a] < |data|
    requires forall a, b :: 0 <= a < b < |ds| ==> ds[a] != ds[b]
    requires IsValidSfn(e) && Lookup(data, ds, 0, ShortName(e)).Some?
    ensures var p, data' := Lookup(data, ds, 0, ShortName(e)).value, PutEntry(data, ds, ShortName(e), e);
            && Lookup(data', ds, 0, ShortName(e)) == Some(p)
            && p.slot < SlotCount(Get(data', ds[p.index])) && Slot(Get(data', ds[p.index]), p.slot) == e
  {
    var p := Lookup(data, ds, 0, ShortName(e)).value;
    LookupAfterPut(data, ds, 0, ShortName(e), p, e);
    SetSlotEffect(data[ds[p.index]], p.slot, e, p.slot);
  }
}
