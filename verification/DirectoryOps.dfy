/** The directory operations as the driver runs them, loop by loop, on the clusters of a directory
    of a volume. */
module DirectoryOps {
  import opened Basics
  import opened Bytes
  import opened FatTable
  import opened FatVolume
  import opened FileData
  import opened DirEntry
  import opened LongNames
  import opened ShortNames
  import opened Directory
  import FileOps

  /** The clusters of a directory in chain order. */
  ghost function Along(data: seq<seq<byte>>, ds: seq<nat>): (r: Clusters)
    ensures |r| == |ds| && forall j :: 0 <= j < |ds| ==> r[j] == Get(data, ds[j])
  {
    seq(|ds|, j requires 0 <= j < |ds| => Get(data, ds[j]))
  }

  /** Writing one cluster of the directory changes that one, and no cluster elsewhere. */
  lemma AlongWrite(data: seq<seq<byte>>, ds: seq<nat>, j: nat, buf: seq<byte>)
    requires Distinct(ds) && j < |ds| && ds[j] < |data|
    ensures Along(data[ds[j] := buf], ds) == Along(data, ds)[j := buf]
    ensures OffChain(data, data[ds[j] := buf], ds)
  {
    assert ds[j] in ds;
  }

  lemma ChainDistinct(fat: Fat, n: nat, ds: seq<nat>)
    requires Shape(fat, n) && IsChain(fat, n, ds)
    ensures Distinct(ds)
  {
  }

  /** The clusters that are not the directory's are the same. */
  ghost predicate OffChain(data: seq<seq<byte>>, data': seq<seq<byte>>, ds: seq<nat>) {
    |data'| == |data| && forall c :: 0 <= c < |data| && c !in ds ==> data'[c] == data[c]
  }

  lemma OffChainSelf(data: seq<seq<byte>>, ds: seq<nat>)
    ensures OffChain(data, data, ds)
  {
  }

  lemma FindNone(bufs: Clusters, pieces: seq<Entry>, name: seq<byte>)
    ensures FindAny(bufs, |bufs|, pieces, name) == None
  {
  }

  lemma FindNext(bufs: Clusters, j: nat, pieces: seq<Entry>, name: seq<byte>)
    requires j < |bufs|
    ensures var s := ScanAny(bufs[j], 0, pieces, name);
            && FindAny(bufs, j, pieces, name) ==
               (if s.found.Some? then Some(Position(j, s.found.value)) else FindAny(bufs, j + 1, s.pieces, name))
            && (s.found.Some? ==> s.found.value < SlotCount(bufs[j]))
  {
  }

  /** The entry that a search has come to. */
  ghost function EntryAt(bufs: Clusters, p: Option<Position>): Option<Entry> {
    if p.Some? && p.value.index < |bufs| && p.value.slot < SlotCount(bufs[p.value.index])
    then Some(Slot(bufs[p.value.index], p.value.slot)) else None
  }

  lemma EntryFound(bufs: Clusters, j: nat, i: nat)
    requires j < |bufs| && i < SlotCount(bufs[j])
    ensures EntryAt(bufs, Some(Position(j, i))) == Some(Slot(bufs[j], i)) && EntryAt(bufs, None) == None
  {
  }

  /** `FAT32_FindEntryAny`: by long name in the search order, or by short name. */
  method FindEntryAny(vol: Volume, dirCluster: nat, name: seq<byte>, ghost ds: seq<nat>) returns (r: Option<Entry>)
    requires vol.Valid() && IsChain(vol.Table(), vol.g.Limit(), ds) && dirCluster == ds[0]
    ensures var bufs := Along(vol.Data(), ds);
            && r == EntryAt(bufs, FindAny(bufs, 0, [], name)) && r.Some? == FindAny(bufs, 0, [], name).Some?
  {
    hide *;
    ghost var bufs := Along(vol.Data(), ds);
    FileOps.ChainBelow(vol, ds);
    var pieces: seq<Entry> := [];
    var current := dirCluster;
    ghost var j := 0;
    FileOps.ChainAt(vol.Table(), vol.g.Limit(), ds, 0);
    while true
      invariant 0 <= j < |ds| && current == ds[j] && 2 <= current < vol.g.Limit()
      invariant FindAny(bufs, j, pieces, name) == FindAny(bufs, 0, [], name)
      decreases |ds| - j
    {
      var buf := vol.ReadCluster(current);
      FileOps.GetIs(vol.Data(), current);
      FindNext(bufs, j, pieces, name);
      var s := ScanSlots(buf, pieces, name);
      if s.found.Some? {
        EntryFound(bufs, j, s.found.value);
        return Some(Slot(buf, s.found.value));
      }
      pieces := s.pieces;
      FileOps.ChainAt(vol.Table(), vol.g.Limit(), ds, j);
      current := vol.NextCluster(current);
      if current >= EOF { break; }
      j := j + 1;
      FileOps.ChainAt(vol.Table(), vol.g.Limit(), ds, j);
    }
    FindNone(bufs, pieces, name);
    NoEntry(bufs);
    return None;
  }

  lemma NoEntry(bufs: Clusters)
    ensures EntryAt(bufs, None) == None
  {
  }

  lemma PlaceNext(bufs: Clusters, j: nat, needed: nat)
    ensures Place(bufs, |bufs|, needed) == None
    ensures j < |bufs| ==>
              var p := SlotSearch(bufs[j], needed, 0, 0, -1);
              Place(bufs, j, needed) == if p.Some? then Some((j, p.value)) else Place(bufs, j + 1, needed)
  {
  }

  /** `FAT32_CreateFile` without directory growth. */
  method CreateFile(vol: Volume, dirCluster: nat, name: seq<byte>, time: nat, date: nat, ghost ds: seq<nat>)
    returns (status: Status)
    requires vol.Valid() && IsChain(vol.Table(), vol.g.Limit(), ds) && dirCluster == ds[0]
    requires Inv(Along(vol.Data(), ds)) && |name| <= 255 && time < TWO_16 && date < TWO_16
    modifies vol`disk
    ensures vol.Valid() && vol.Table() == old(vol.Table()) && OffChain(old(vol.Data()), vol.Data(), ds)
    ensures (status, Along(vol.Data(), ds)) == old(Create(Along(vol.Data(), ds), name, time, date))
    ensures old(vol.Synced()) ==> vol.Synced()
  {
    hide *;
    ghost var data, bufs := vol.Data(), Along(vol.Data(), ds);
    FileOps.ChainBelow(vol, ds);
    OffChainSelf(data, ds);
    ChainDistinct(vol.Table(), vol.g.Limit(), ds);
    CreateCases(bufs, name, time, date);
    var existing := FindEntryAny(vol, dirCluster, name, ds);
    if existing.Some? { return Exists; }
    var sfn := To83(name);
    NewSlotsAre(name, time, date);
    var pieces := MakePieces(name, Checksum(sfn));
    var es := pieces + [NewEntry(sfn, time, date)];
    var current := dirCluster;
    ghost var j := 0;
    FileOps.ChainAt(vol.Table(), vol.g.Limit(), ds, 0);
    while true
      invariant vol.disk == old(vol.disk) && vol.Valid()
      invariant 0 <= j < |ds| && current == ds[j] && 2 <= current < vol.g.Limit()
      invariant Place(bufs, j, |es|) == Place(bufs, 0, |es|)
      decreases |ds| - j
    {
      var buf := vol.ReadCluster(current);
      FileOps.GetIs(data, current);
      PlaceNext(bufs, j, |es|);
      var start := FreeSlots(buf, |es|);
      if start.Some? {
        buf := PutSlots(buf, start.value, es);
        AlongWrite(data, ds, j, buf);
        vol.WriteCluster(current, buf);
        return Done;
      }
      FileOps.ChainAt(vol.Table(), vol.g.Limit(), ds, j);
      current := vol.NextCluster(current);
      if current >= EOF { break; }
      j := j + 1;
      FileOps.ChainAt(vol.Table(), vol.g.Limit(), ds, j);
    }
    PlaceNext(bufs, 0, |es|);
    return NeedsCluster;
  }

  lemma NewSlotsAre(name: seq<byte>, time: nat, date: nat)
    requires |name| <= 255 && time < TWO_16 && date < TWO_16
    ensures PieceCount(name) <= MAX_PIECES
    ensures NewSlots(name, time, date) == Pieces(name, Checksum(To83(name))) + [NewEntry(To83(name), time, date)]
  {
  }

  lemma CreateCases(bufs: Clusters, name: seq<byte>, time: nat, date: nat)
    requires Inv(bufs) && |name| <= 255 && time < TWO_16 && date < TWO_16
    ensures var es, r := NewSlots(name, time, date), Create(bufs, name, time, date);
            if FindAny(bufs, 0, [], name).Some? then r == (Exists, bufs)
            else if Place(bufs, 0, |es|) == None then r == (NeedsCluster, bufs)
            else
              var (j, p) := Place(bufs, 0, |es|).value;
              j < |bufs| && 0 <= p && p + |es| <= SlotCount(bufs[j]) &&
              r == (Done, bufs[j := WriteSlots(bufs[j], p, es)])
  {
    var es := NewSlots(name, time, date);
    if Place(bufs, 0, |es|).Some? { PlaceSafe(bufs, 0, |es|); }
    hide FindAny, Place, Inv, NewSlots, WriteSlots;
  }

  lemma RenameCases(bufs: Clusters, oldName: seq<byte>, newName: seq<byte>)
    requires |newName| <= 255
    ensures var r := Rename(bufs, oldName, newName);
            if FindAny(bufs, 0, [], newName).Some? then r == (Exists, bufs)
            else match FindForRename(bufs, 0, oldName)
              case None => r == (NotFound, bufs)
              case Some((j, i, at)) => r == (Done, bufs[j := RenameIn(bufs[j], i, at, newName)])
  {
    hide FindAny, FindForRename, RenameIn;
  }

  lemma RenameNext(bufs: Clusters, j: nat, name: seq<byte>)
    ensures FindForRename(bufs, |bufs|, name) == None
    ensures j < |bufs| ==>
              var s := RenameScan(bufs[j], 0, [], name);
              FindForRename(bufs, j, name) ==
              if s.Some? then Some((j, s.value.0, s.value.1)) else FindForRename(bufs, j + 1, name)
  {
  }

  /** `FAT32_RenameFile`. */
  method RenameFile(vol: Volume, dirCluster: nat, oldName: seq<byte>, newName: seq<byte>, ghost ds: seq<nat>)
    returns (status: Status)
    requires vol.Valid() && IsChain(vol.Table(), vol.g.Limit(), ds) && dirCluster == ds[0] && |newName| <= 255
    modifies vol`disk
    ensures vol.Valid() && vol.Table() == old(vol.Table()) && OffChain(old(vol.Data()), vol.Data(), ds)
    ensures (status, Along(vol.Data(), ds)) == old(Rename(Along(vol.Data(), ds), oldName, newName))
    ensures old(vol.Synced()) ==> vol.Synced()
  {
    hide *;
    ghost var data, bufs := vol.Data(), Along(vol.Data(), ds);
    FileOps.ChainBelow(vol, ds);
    OffChainSelf(data, ds);
    ChainDistinct(vol.Table(), vol.g.Limit(), ds);
    RenameCases(bufs, oldName, newName);
    var existing := FindEntryAny(vol, dirCluster, newName, ds);
    if existing.Some? { return Exists; }
    var current := dirCluster;
    ghost var j := 0;
    FileOps.ChainAt(vol.Table(), vol.g.Limit(), ds, 0);
    while true
      invariant vol.disk == old(vol.disk) && vol.Valid()
      invariant 0 <= j < |ds| && current == ds[j] && 2 <= current < vol.g.Limit()
      invariant FindForRename(bufs, j, oldName) == FindForRename(bufs, 0, oldName)
      decreases |ds| - j
    {
      var buf := vol.ReadCluster(current);
      FileOps.GetIs(data, current);
      RenameNext(bufs, j, oldName);
      var found, slot, at := RenameSlots(buf, oldName);
      if found {
        buf := RenameEntry(buf, slot, at, newName);
        AlongWrite(data, ds, j, buf);
        vol.WriteCluster(current, buf);
        return Done;
      }
      FileOps.ChainAt(vol.Table(), vol.g.Limit(), ds, j);
      current := vol.NextCluster(current);
      if current >= EOF { break; }
      j := j + 1;
      FileOps.ChainAt(vol.Table(), vol.g.Limit(), ds, j);
    }
    RenameNext(bufs, 0, oldName);
    return NotFound;
  }

  /** Gives the file in slot `i` its new name: its pieces are overwritten if there are as many, else deleted. */
  method RenameEntry(buf: seq<byte>, i: nat, at: seq<nat>, name: seq<byte>) returns (r: seq<byte>)
    requires i < SlotCount(buf) && PieceSlots(buf, at) && |name| <= 255
    ensures r == RenameIn(buf, i, at, name) && |r| == |buf|
  {
    var sfn := To83(name);
    var pieces := MakePieces(name, Checksum(sfn));
    if !(|at| > 0 && |pieces| > 0 && |at| == |pieces|) {
      pieces := seq(|at|, k requires 0 <= k < |at| => Slot(buf, at[k])[0 := 0xE5]);
    }
    assert pieces == NewPieces(buf, at, name);
    var b := PutPieces(buf, at, pieces);
    r := SetSlot(b, i, WithName(Slot(b, i), sfn));
  }

  /** The loop over the entries of one cluster in the search by name. */
  method ScanSlots(buf: seq<byte>, pieces0: seq<Entry>, name: seq<byte>) returns (r: Scan)
    ensures r == ScanAny(buf, 0, pieces0, name)
  {
    hide Rebuild, CString, Checksum, To83, IsVolumeLabel, ShortName;
    var i, pieces := 0, pieces0;
    while i < |buf| / 32
      invariant 0 <= i <= SlotCount(buf)
      invariant ScanAny(buf, i, pieces, name) == ScanAny(buf, 0, pieces0, name)
    {
      var e := Slot(buf, i);
      if e[0] == 0x00 { return Scan(None, pieces); }
      i := i + 1;
      if e[0] == 0xE5 { pieces := []; continue; }
      if Attr(e) == ATTR_LFN {
        if |pieces| < MAX_PIECES { pieces := pieces + [e]; }
        continue;
      }
      if e[0] == 0x2E { pieces := []; continue; }
      if IsVolumeLabel(e) { pieces := []; continue; }
      var matched := false;
      if |pieces| > 0 && pieces[|pieces| - 1][13] == Checksum(ShortName(e)) {
        var rebuilt := RebuildName(pieces, NAME_BUFFER);
        matched := CString(rebuilt) == name;
      }
      if !matched { matched := ShortName(e) == To83(name); }
      pieces := [];
      if matched { return Scan(Some(i - 1), []); }
    }
    return Scan(None, pieces);
  }

  /** The loop over the entries of one cluster in the search for free slots. */
  method FreeSlots(buf: seq<byte>, needed: nat) returns (r: Option<int>)
    ensures r == SlotSearch(buf, needed, 0, 0, -1)
  {
    var run, start := 0, -1;
    var i := 0;
    while i < |buf| / 32
      invariant 0 <= i <= SlotCount(buf) && 0 <= run
      invariant SlotSearch(buf, needed, i, run, start) == SlotSearch(buf, needed, 0, 0, -1)
    {
      var first := Slot(buf, i)[0];
      if first == 0x00 {
        if run == 0 { start := i; }
        if |buf| / 32 - i >= needed { return Some(start); }
        return None;
      } else if first == 0xE5 {
        if run == 0 { start := i; }
        run := run + 1;
        if run >= needed { return Some(start); }
      } else {
        run := 0;
      }
      i := i + 1;
    }
    return None;
  }

  method PutSlots(buf: seq<byte>, p: nat, es: seq<Entry>) returns (r: seq<byte>)
    requires p + |es| <= SlotCount(buf)
    ensures r == WriteSlots(buf, p, es)
  {
    r := buf;
    var k := 0;
    assert es[0..] == es;
    while k < |es|
      invariant 0 <= k <= |es| && |r| == |buf|
      invariant WriteSlots(r, p + k, es[k..]) == WriteSlots(buf, p, es)
    {
      assert es[k..][1..] == es[k + 1..];
      r := SetSlot(r, p + k, es[k]);
      k := k + 1;
    }
  }

  method PutPieces(buf: seq<byte>, at: seq<nat>, es: seq<Entry>) returns (r: seq<byte>)
    requires |at| == |es| && forall k :: 0 <= k < |at| ==> at[k] < SlotCount(buf)
    ensures r == UpdateSlots(buf, at, es)
  {
    r := buf;
    var k := 0;
    assert es[0..] == es && at[0..] == at;
    while k < |es|
      invariant 0 <= k <= |es| && |r| == |buf|
      invariant UpdateSlots(r, at[k..], es[k..]) == UpdateSlots(buf, at, es)
    {
      assert es[k..][1..] == es[k + 1..] && at[k..][1..] == at[k + 1..];
      r := SetSlot(r, at[k], es[k]);
      k := k + 1;
    }
  }

  /** The loop over the entries of one cluster in a rename. */
  method RenameSlots(buf: seq<byte>, name: seq<byte>) returns (found: bool, slot: nat, at: seq<nat>)
    ensures PieceSlots(buf, at)
    ensures if found then RenameScan(buf, 0, [], name) == Some((slot, at)) else RenameScan(buf, 0, [], name) == None
  {
    hide Rebuild, CString, Checksum, To83, IsVolumeLabel, ShortName, Reverse, PiecesAt;
    at := [];
    var i := 0;
    while i < |buf| / 32
      invariant 0 <= i <= SlotCount(buf) && PieceSlots(buf, at)
      invariant RenameScan(buf, i, at, name) == RenameScan(buf, 0, [], name)
    {
      var e := Slot(buf, i);
      if e[0] == 0x00 { return false, 0, at; }
      i := i + 1;
      if e[0] == 0xE5 { at := []; continue; }
      if Attr(e) == ATTR_LFN {
        if |at| < MAX_PIECES { at := at + [i - 1]; }
        continue;
      }
      if e[0] == 0x2E { at := []; continue; }
      if IsVolumeLabel(e) { at := []; continue; }
      var matched := false;
      if |at| > 0 && Slot(buf, at[|at| - 1])[13] == Checksum(ShortName(e)) {
        var rebuilt := RebuildName(Reverse(PiecesAt(buf, at)), NAME_BUFFER);
        matched := CString(rebuilt) == name;
      }
      if !matched && ShortName(e) == To83(name) { matched := true; }
      if matched { return true, i - 1, at; }
      at := [];
    }
    return false, 0, at;
  }
}
