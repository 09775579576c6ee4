/** The file operations of the driver as it runs them, on the bytes of a volume; each is proved against
    its effect on the abstract volume. */
module FileOps {
  import opened Basics
  import opened Bytes
  import opened FatTable
  import opened FatVolume
  import opened FileData
  import opened FileWrite
  import opened FileAppend
  import opened DirEntry

  ghost function Abs(vol: Volume): Vol
    requires vol.Valid()
    reads vol
  {
    Vol(vol.Table(), vol.Data(), vol.nextFree, vol.freeClusters)
  }

  lemma AbsSound(vol: Volume)
    requires vol.Valid()
    ensures Sound(Abs(vol), vol.g.Limit(), vol.g.ClusterSize()) && 0 < vol.g.ClusterSize()
  {
  }

  lemma AbsIs(vol: Volume)
    requires vol.Valid()
    ensures Abs(vol) == Vol(vol.Table(), vol.Data(), vol.nextFree, vol.freeClusters)
  {
  }

  lemma ShapeBounds(fat: Fat, n: nat)
    requires Shape(fat, n)
    ensures 3 <= n <= |fat| && n < TWO_28 < TWO_32 && EOF < TWO_28
  {
  }

  // ---------------------------------------------------------------- building blocks

  /** Overwrites the first bytes of a cluster; a partial write reads the cluster first. */
  method PutBytes(vol: Volume, cluster: nat, offset: nat, piece: seq<byte>)
    requires vol.Valid() && 2 <= cluster < vol.g.Limit() && offset + |piece| <= vol.g.ClusterSize()
    modifies vol`disk
    ensures vol.Valid() && vol.Table() == old(vol.Table())
    ensures var b := old(vol.Data()[cluster]);
            vol.Data() == old(vol.Data())[cluster := b[..offset] + piece + b[offset + |piece|..]]
    ensures old(vol.Synced()) ==> vol.Synced()
  {
    hide *;
    if offset > 0 || |piece| < vol.g.ClusterSize() {
      var tmp := vol.ReadCluster(cluster);
      tmp := tmp[..offset] + piece + tmp[offset + |piece|..];
      vol.WriteCluster(cluster, tmp);
    } else {
      ghost var b := vol.Data()[cluster];
      assert b[..offset] + piece + b[offset + |piece|..] == piece;
      vol.WriteCluster(cluster, piece);
    }
  }

  /** Allocates a cluster and links it behind `tail`, the last cluster of the chain. */
  method LinkNewCluster(vol: Volume, tail: nat, ghost ch: seq<nat>) returns (r: nat)
    requires vol.Valid() && IsChain(vol.Table(), vol.g.Limit(), ch) && tail == ch[|ch| - 1]
    requires HintSafe(vol.Table(), vol.g.Limit(), vol.nextFree)
    modifies vol
    ensures vol.Valid() && (Abs(vol), r) == old(Extend(Abs(vol), vol.g.Limit(), ch))
    ensures old(vol.Synced()) ==> vol.Synced()
  {
    hide *;
    ghost var v, n := Abs(vol), vol.g.Limit();
    AbsIs(vol);
    ShapeBounds(v.fat, n);
    ExtendIs(v, n, ch);
    r := vol.AllocCluster();
    AbsIs(vol);
    if r == 0 { return; }
    LinkTo(vol, tail, r);
    AbsIs(vol);
  }

  /** Writes one table entry that fits in 28 bits. */
  method LinkTo(vol: Volume, tail: nat, r: nat)
    requires vol.Valid() && tail < vol.g.Entries() && r < TWO_28
    modifies vol`disk
    ensures vol.Valid() && vol.Table() == old(vol.Table())[tail := r] && vol.Data() == old(vol.Data())
    ensures old(vol.Synced()) ==> vol.Synced()
  {
    hide *;
    InTwentyEight(r);
    vol.WriteFatEntry(tail, r);
  }

  lemma InTwentyEight(r: nat)
    requires r < TWO_28
    ensures r < TWO_32 && r % TWO_28 == r
  {
  }

  // ---------------------------------------------------------------- the write loop

  /** Allocations still to come when `size` bytes remain and the chain has `have` clusters for them. */
  function More(size: nat, have: nat, cl: nat): nat
    requires 0 < cl
  {
    if Clusters(size, cl) <= have then 0 else Clusters(size, cl) - have
  }

  lemma MoreStep(size: nat, have: nat, cl: nat)
    requires 0 < cl < size && 0 < have
    ensures More(size - cl, have - 1, cl) == More(size, have, cl)
    ensures have == 1 ==> 0 < More(size, 1, cl) && More(size - cl, 1, cl) == More(size, 1, cl) - 1
  {
    ClustersBounds(size, cl);
    var k := Clusters(size, cl);
    assert k != 1 by { assert 1 * cl == cl; }
    assert (k - 1) * cl == k * cl - cl;
    ClustersUnique(size - cl, cl, k - 1);
  }

  lemma RoomIsSafe(v: Vol, n: nat, k: nat)
    requires Shape(v.fat, n) && 0 < k && Room(v, n, k)
    ensures HintSafe(v.fat, n, v.hint)
  {
  }

  lemma RoomAfterPut(v: Vol, n: nat, cl: nat, c: nat, src: seq<byte>, k: nat)
    requires Sound(v, n, cl) && 2 <= c < n && |src| <= cl
    ensures Room(Put(v, n, cl, c, src), n, k) == Room(v, n, k)
  {
  }

  lemma PutIs(v: Vol, n: nat, cl: nat, c: nat, src: seq<byte>)
    requires Sound(v, n, cl) && 2 <= c < n && |src| <= cl
    ensures Put(v, n, cl, c, src) ==
            Vol(v.fat, v.data[c := v.data[c][..0] + src + v.data[c][0 + |src|..]], v.hint, v.free)
  {
    assert v.data[c][..0] + src + v.data[c][0 + |src|..] == src + v.data[c][|src|..];
  }

  /** One iteration of the write loop up to the decision whether to go on. */
  lemma IterationEnds(v: Vol, n: nat, cl: nat, ch: seq<nat>, i: nat, src: seq<byte>)
    requires Ready(v, n, cl, ch, i) && 0 < |src|
    ensures var v1 := Put(v, n, cl, ch[i], src[..Min(|src|, cl)]);
            && Ready(v1, n, cl, ch, i) && v1.fat == v.fat
            && (|src| <= cl ==> WriteLoop(v, n, cl, ch, i, src) == Outcome(v1, ch, i, |src|))
            && (cl < |src| && i + 1 == |ch| && Extend(v1, n, ch).1 == 0 ==>
                  WriteLoop(v, n, cl, ch, i, src) == Outcome(v1, ch, i, cl))
            && (cl < |src| && i + 1 < |ch| ==>
                  && Ready(v1, n, cl, ch, i + 1)
                  && var r := WriteLoop(v1, n, cl, ch, i + 1, src[cl..]);
                     WriteLoop(v, n, cl, ch, i, src) == r.(written := cl + r.written))
            && (cl < |src| && i + 1 == |ch| && Extend(v1, n, ch).1 != 0 ==>
                  var (v2, e) := Extend(v1, n, ch);
                  && Ready(v2, n, cl, ch + [e], i + 1)
                  && var r := WriteLoop(v2, n, cl, ch + [e], i + 1, src[cl..]);
                     WriteLoop(v, n, cl, ch, i, src) == r.(written := cl + r.written))
  {
  }

  lemma NextOnChain(v: Vol, n: nat, cl: nat, ch: seq<nat>, i: nat)
    requires Ready(v, n, cl, ch, i)
    ensures 2 <= ch[i] < n <= |v.fat| && IsChain(v.fat, n, ch)
    ensures if i + 1 < |ch| then v.fat[ch[i]] == ch[i + 1] && v.fat[ch[i]] < EOF else v.fat[ch[i]] >= EOF
  {
  }

  /** The next cluster of the chain, or a new one at its end; 0 when there is none. */
  method NextOrNew(vol: Volume, cluster: nat, ghost ch: seq<nat>, ghost i: nat, ghost left: nat)
    returns (next: nat, ghost ch': seq<nat>)
    requires vol.Valid() && Ready(Abs(vol), vol.g.Limit(), vol.g.ClusterSize(), ch, i) && cluster == ch[i]
    requires 0 < vol.g.ClusterSize() < left && Shape(Abs(vol).fat, vol.g.Limit())
    requires Room(Abs(vol), vol.g.Limit(), More(left, |ch| - i, vol.g.ClusterSize()))
    modifies vol
    ensures vol.Valid() && (old(vol.Synced()) ==> vol.Synced())
    ensures if i + 1 < |ch| then Abs(vol) == old(Abs(vol)) && ch' == ch && next != 0
            else (Abs(vol), next) == old(Extend(Abs(vol), vol.g.Limit(), ch)) &&
                 ch' == if next == 0 then ch else ch + [next]
    ensures next != 0 ==>
              && Ready(Abs(vol), vol.g.Limit(), vol.g.ClusterSize(), ch', i + 1) && next == ch'[i + 1]
              && Shape(Abs(vol).fat, vol.g.Limit())
              && Room(Abs(vol), vol.g.Limit(), More(left - vol.g.ClusterSize(), |ch'| - (i + 1), vol.g.ClusterSize()))
  {
    hide *;
    ghost var v, n, cl := Abs(vol), vol.g.Limit(), vol.g.ClusterSize();
    AbsIs(vol);
    ReadyShape(v, n, cl, ch, i);
    NextOnChain(v, n, cl, ch, i);
    MoreStep(left, |ch| - i, cl);
    ch' := ch;
    next := vol.NextCluster(cluster);
    if next >= EOF {
      ghost var more := More(left, 1, cl);
      RoomIsSafe(v, n, more);
      ExtendKeeps(v, n, ch, more);
      ExtendReady(v, n, cl, ch, i);
      next := LinkNewCluster(vol, cluster, ch);
      if next != 0 { ch' := ch + [next]; }
    } else {
      OnChain(v, n, cl, ch, i);
    }
  }

  lemma ExtendReady(v: Vol, n: nat, cl: nat, ch: seq<nat>, i: nat)
    requires Ready(v, n, cl, ch, i) && |ch| == i + 1
    ensures var (v2, e) := Extend(v, n, ch);
            e != 0 ==> Ready(v2, n, cl, ch + [e], i + 1) && Shape(v2.fat, n) && (ch + [e])[i + 1] == e
    ensures Extend(v, n, ch).1 != 0 <==> HasFree(v.fat, n)
  {
  }

  lemma OnChain(v: Vol, n: nat, cl: nat, ch: seq<nat>, i: nat)
    requires Ready(v, n, cl, ch, i) && i + 1 < |ch|
    ensures Ready(v, n, cl, ch, i + 1) && ch[i + 1] != 0
  {
  }

  /** Writes `src` along the chain that begins at `first`, extending it when it runs out. */
  method WriteClusters(vol: Volume, first: nat, src: seq<byte>, ghost ch0: seq<nat>)
    returns (cluster: nat, written: nat)
    requires vol.Valid() && 0 < |src|
    requires Ready(Abs(vol), vol.g.Limit(), vol.g.ClusterSize(), ch0, 0) && first == ch0[0]
    requires Room(Abs(vol), vol.g.Limit(), More(|src|, |ch0|, vol.g.ClusterSize()))
    modifies vol
    ensures vol.Valid()
    ensures old(vol.Synced()) ==> vol.Synced()
    ensures var w := old(WriteLoop(Abs(vol), vol.g.Limit(), vol.g.ClusterSize(), ch0, 0, src));
            Abs(vol) == w.v && cluster == w.ch[w.at] && written == w.written
  {
    hide *;
    ghost var n, cl := vol.g.Limit(), vol.g.ClusterSize();
    ghost var w := WriteLoop(Abs(vol), n, cl, ch0, 0, src);
    ghost var ch: seq<nat>, i: nat := ch0, 0;
    cluster, written := first, 0;
    assert src[0..] == src;
    ReadyShape(Abs(vol), n, cl, ch0, 0);
    while written < |src|
      invariant vol.Valid() && (old(vol.Synced()) ==> vol.Synced())
      invariant 0 < cl && Shape(Abs(vol).fat, n)
      invariant written < |src| && Ready(Abs(vol), n, cl, ch, i) && i < |ch| && cluster == ch[i]
      invariant var r := WriteLoop(Abs(vol), n, cl, ch, i, src[written..]);
                w == r.(written := written + r.written)
      invariant Room(Abs(vol), n, More(|src| - written, |ch| - i, cl))
    {
      ghost var v, rest := Abs(vol), src[written..];
      AbsIs(vol);
      AbsSound(vol);
      NextOnChain(v, n, cl, ch, i);
      MinIs(|rest|, cl);
      var remain := |src| - written;
      var toWrite := if remain < vol.g.ClusterSize() then remain else vol.g.ClusterSize();
      ghost var piece := rest[..Min(|rest|, cl)];
      assert src[written..written + toWrite] == piece;
      PutBytes(vol, cluster, 0, src[written..written + toWrite]);
      AbsIs(vol);
      PutIs(v, n, cl, cluster, piece);
      IterationEnds(v, n, cl, ch, i, rest);
      written := written + toWrite;
      if written >= |src| { break; }
      MoreStep(|rest|, |ch| - i, cl);
      RoomAfterPut(v, n, cl, cluster, piece, More(|rest|, |ch| - i, cl));
      assert src[written..] == rest[cl..];
      var next;
      next, ch := NextOrNew(vol, cluster, ch, i, |rest|);
      if next == 0 { return; }
      cluster, i := next, i + 1;
    }
  }

  // ---------------------------------------------------------------- cutting a chain

  lemma {:induction false} DistinctBelow(s: seq<nat>, n: nat)
    requires Distinct(s) && forall i :: 0 <= i < |s| ==> s[i] < n
    ensures |s| <= n
    decreases n
  {
    if s != [] {
      assert 0 <= s[0] < n;
      if n - 1 in s {
        var k :| 0 <= k < |s| && s[k] == n - 1;
        var t := s[..k] + s[k + 1..];
        assert forall i :: 0 <= i < |t| ==> t[i] == s[if i < k then i else i + 1];
        DistinctBelow(t, n - 1);
      } else {
        DistinctBelow(s, n - 1);
      }
    }
  }

  /** A free count that can be raised by a whole volume without leaving 32 bits. */
  ghost predicate SaneCount(free: nat) {
    free == UNKNOWN || free < 0xF000_0000
  }

  lemma CutFacts(v: Vol, n: nat, ch: seq<nat>, k: nat)
    requires Shape(v.fat, n) && IsChain(v.fat, n, ch) && 1 <= k <= |ch| && SaneCount(v.free)
    ensures 2 <= ch[k - 1] < n <= |v.fat|
    ensures k < |ch| <==> v.fat[ch[k - 1]] < EOF
    ensures k < |ch| ==>
              && v.fat[ch[k - 1]] == ch[k] && Shape(v.fat[ch[k - 1] := EOF], n)
              && WalkInRange(v.fat[ch[k - 1] := EOF], n, ch[k])
              && (v.free != UNKNOWN ==> v.free + ReleaseSteps(v.fat[ch[k - 1] := EOF], n, ch[k]) < UNKNOWN)
              && Trim(v, n, ch, k) ==
                 Vol(Release(v.fat[ch[k - 1] := EOF], n, ch[k]), v.data, v.hint,
                     if v.free != UNKNOWN then v.free + ReleaseSteps(v.fat[ch[k - 1] := EOF], n, ch[k]) else UNKNOWN)
    ensures k == |ch| ==> Trim(v, n, ch, k) == v
  {
    if k < |ch| {
      CutChain(v.fat, n, ch, k);
      ReleaseOfChain(v.fat[ch[k - 1] := EOF], n, ch[k..]);
      DistinctBelow(ch, n);
    }
  }

  /** Makes `cluster`, number `k - 1` of the chain, the last one and frees the clusters behind it. */
  method TrimChain(vol: Volume, cluster: nat, ghost ch: seq<nat>, ghost k: nat)
    requires vol.Valid() && SaneCount(vol.freeClusters)
    requires IsChain(vol.Table(), vol.g.Limit(), ch) && 1 <= k <= |ch| && cluster == ch[k - 1]
    modifies vol
    ensures vol.Valid() && Abs(vol) == old(Trim(Abs(vol), vol.g.Limit(), ch, k))
    ensures old(vol.Synced()) ==> vol.Synced()
  {
    hide *;
    ghost var v, n := Abs(vol), vol.g.Limit();
    AbsIs(vol);
    ShapeBounds(v.fat, n);
    CutFacts(v, n, ch, k);
    var next := vol.NextCluster(cluster);
    if next < EOF {
      LinkTo(vol, cluster, EOF);
      vol.FreeClusterChain(next);
      AbsIs(vol);
    }
  }

  // ---------------------------------------------------------------- directories

  /** Searches a directory for a valid entry with the given 11-byte name. */
  method FindEntry(vol: Volume, dirCluster: nat, name: seq<byte>, ghost ds: seq<nat>) returns (r: Option<Entry>)
    requires vol.Valid() && IsChain(vol.Table(), vol.g.Limit(), ds) && dirCluster == ds[0]
    ensures match Lookup(vol.Data(), ds, 0, name)
            case None => r == None
            case Some(p) => r == Some(Slot(Get(vol.Data(), ds[p.index]), p.slot))
  {
    hide *;
    ChainBelow(vol, ds);
    ghost var j := 0;
    var current := dirCluster;
    ChainAt(vol.Table(), vol.g.Limit(), ds, 0);
    while true
      invariant 0 <= j < |ds| && current == ds[j] && 2 <= current < vol.g.Limit()
      invariant Lookup(vol.Data(), ds, j, name) == Lookup(vol.Data(), ds, 0, name)
      decreases |ds| - j
    {
      var buf := vol.ReadCluster(current);
      GetIs(vol.Data(), current);
      LookupStep(vol.Data(), ds, j, name);
      var i := ScanCluster(buf, name);
      if i.Some? {
        return Some(Slot(buf, i.value));
      }
      ChainAt(vol.Table(), vol.g.Limit(), ds, j);
      current := vol.NextCluster(current);
      if current >= EOF { break; }
      j := j + 1;
      ChainAt(vol.Table(), vol.g.Limit(), ds, j);
    }
    LookupEnd(vol.Data(), ds, j + 1, name);
    return None;
  }

  /** The inner loop over the entries of one directory cluster. */
  method ScanCluster(buf: seq<byte>, name: seq<byte>) returns (r: Option<nat>)
    ensures r == FindSlot(buf, name, 0)
    ensures r.Some? ==> r.value < SlotCount(buf)
  {
    var i := 0;
    while i < |buf| / ENTRY
      invariant 0 <= i <= SlotCount(buf)
      invariant FindSlot(buf, name, i) == FindSlot(buf, name, 0)
    {
      var e := Slot(buf, i);
      if e[0] == 0x00 { return None; }
      if IsValidSfn(e) && ShortName(e) == name { return Some(i); }
      i := i + 1;
    }
    return None;
  }

  lemma ChainAt(fat: Fat, n: nat, ds: seq<nat>, j: nat)
    requires Shape(fat, n) && IsChain(fat, n, ds) && j < |ds|
    ensures 2 <= ds[j] < n <= |fat|
    ensures if j + 1 < |ds| then fat[ds[j]] == ds[j + 1] && fat[ds[j]] < EOF else fat[ds[j]] >= EOF
  {
  }

  lemma ChainBelow(vol: Volume, ds: seq<nat>)
    requires vol.Valid() && IsChain(vol.Table(), vol.g.Limit(), ds)
    ensures 0 < |ds| && forall a :: 0 <= a < |ds| ==> ds[a] < |vol.Data()|
  {
  }

  lemma GetIs(data: seq<seq<byte>>, c: nat)
    requires c < |data|
    ensures Get(data, c) == data[c]
  {
  }

  lemma LookupStep(data: seq<seq<byte>>, ds: seq<nat>, j: nat, name: seq<byte>)
    requires j < |ds|
    ensures Lookup(data, ds, j, name) ==
            match FindSlot(Get(data, ds[j]), name, 0)
            case Some(i) => Some(Position(j, i))
            case None => Lookup(data, ds, j + 1, name)
  {
  }

  lemma LookupEnd(data: seq<seq<byte>>, ds: seq<nat>, j: nat, name: seq<byte>)
    requires |ds| <= j
    ensures Lookup(data, ds, j, name) == None
  {
  }

  lemma PutEntryIs(data: seq<seq<byte>>, ds: seq<nat>, name: seq<byte>, e: Entry)
    requires forall a :: 0 <= a < |ds| ==> ds[a] < |data|
    ensures match Lookup(data, ds, 0, name)
            case None => PutEntry(data, ds, name, e) == data
            case Some(p) => && ds[p.index] < |data| && p.slot < SlotCount(data[ds[p.index]])
                            && PutEntry(data, ds, name, e) == data[ds[p.index] := SetSlot(data[ds[p.index]], p.slot, e)]
  {
  }

  /** Overwrites the directory entry that has the name of `entry`; false when there is none. */
  method WriteDirEntry(vol: Volume, dirCluster: nat, entry: Entry, ghost ds: seq<nat>) returns (found: bool)
    requires vol.Valid() && IsChain(vol.Table(), vol.g.Limit(), ds) && dirCluster == ds[0]
    modifies vol`disk
    ensures vol.Valid() && vol.Table() == old(vol.Table())
    ensures vol.Data() == old(PutEntry(vol.Data(), ds, ShortName(entry), entry))
    ensures found == old(Lookup(vol.Data(), ds, 0, ShortName(entry))).Some?
    ensures old(vol.Synced()) ==> vol.Synced()
  {
    hide *;
    ghost var data := vol.Data();
    ChainBelow(vol, ds);
    ghost var j := 0;
    var name := ShortName(entry);
    var current := dirCluster;
    PutEntryIs(data, ds, name, entry);
    ChainAt(vol.Table(), vol.g.Limit(), ds, 0);
    while true
      invariant vol.disk == old(vol.disk) && vol.Valid()
      invariant 0 <= j < |ds| && current == ds[j] && 2 <= current < vol.g.Limit()
      invariant Lookup(data, ds, j, name) == Lookup(data, ds, 0, name)
      decreases |ds| - j
    {
      var buf := vol.ReadCluster(current);
      GetIs(data, current);
      LookupStep(data, ds, j, name);
      var i := ScanCluster(buf, name);
      if i.Some? {
        vol.WriteCluster(current, SetSlot(buf, i.value, entry));
        return true;
      }
      ChainAt(vol.Table(), vol.g.Limit(), ds, j);
      current := vol.NextCluster(current);
      if current >= EOF { break; }
      j := j + 1;
      ChainAt(vol.Table(), vol.g.Limit(), ds, j);
    }
    LookupEnd(data, ds, j + 1, name);
    return false;
  }

  // ---------------------------------------------------------------- files

  /** `cs` is the chain that the entry names. */
  ghost predicate HasChain(v: Vol, n: nat, entry: Entry, cs: seq<nat>) {
    && Shape(v.fat, n)
    && if FirstCluster(entry) == 0 then cs == [] else IsChain(v.fat, n, cs) && cs[0] == FirstCluster(entry)
  }

  lemma {:induction false} ConcatNext(data: seq<seq<byte>>, cs: seq<nat>, j: nat)
    requires j < |cs|
    ensures Concat(data, cs[..j + 1]) == Concat(data, cs[..j]) + Get(data, cs[j])
  {
    assert cs[..j + 1][..j] == cs[..j];
  }

  lemma ReadStops(data: seq<seq<byte>>, cs: seq<nat>, j: nat, size: nat)
    requires j <= |cs| && (size <= |Concat(data, cs[..j])| || j == |cs|)
    ensures var buf := Concat(data, cs[..j]);
            var r := if |buf| < size then |buf| else size;
            buf[..r] == Content(data, cs, size) && r == |Content(data, cs, size)|
  {
    var buf := Concat(data, cs[..j]);
    assert cs == cs[..j] + cs[j..];
    ConcatSplit(data, cs[..j], cs[j..]);
    hide Concat;
    if j == |cs| { assert cs[..j] == cs; assert buf[..|buf|] == buf; }
  }

  /** Reads a file along its chain, whole clusters at a time; the first `count` bytes delivered are
      the content, a directory delivers nothing. */
  method ReadFile(vol: Volume, entry: Entry, ghost cs: seq<nat>) returns (buf: seq<byte>, count: nat)
    requires vol.Valid() && HasChain(Abs(vol), vol.g.Limit(), entry, cs)
    requires FileSize(entry) > 0 ==> cs != []
    requires FileSize(entry) + vol.g.ClusterSize() <= TWO_32
    ensures IsDirectory(entry) ==> count == 0
    ensures !IsDirectory(entry) ==>
              count <= |buf| && buf[..count] == Content(vol.Data(), cs, FileSize(entry))
  {
    if IsDirectory(entry) { return [], 0; }
    ghost var data, n := vol.Data(), vol.g.Limit();
    var size := FileSize(entry);
    var cluster := FirstCluster(entry);
    buf := [];
    var bytesRead := 0;
    ghost var j := 0;
    assert cs != [] ==> IsChain(vol.Table(), n, cs);
    hide *;
    assert cs[..0] == [];
    ConcatEmpty(data);
    if size == 0 { ContentEmpty(data, cs); }
    if cs != [] { ChainAt(vol.Table(), n, cs, 0); }
    while bytesRead < size
      invariant 0 <= j <= |cs| && bytesRead == |buf| && buf == Concat(data, cs[..j])
      invariant bytesRead < size ==> j < |cs| && cluster == cs[j] && 2 <= cluster < n
      decreases |cs| - j
    {
      var piece := vol.ReadCluster(cluster);
      ConcatNext(data, cs, j);
      GetIs(data, cluster);
      ChainAt(vol.Table(), n, cs, j);
      buf := buf + piece;
      bytesRead := bytesRead + vol.g.ClusterSize();
      j := j + 1;
      if bytesRead >= size { break; }
      cluster := vol.NextCluster(cluster);
      if cluster >= EOF { break; }
      ChainAt(vol.Table(), n, cs, j);
    }
    count := if bytesRead < size then bytesRead else size;
    if 0 < size { ReadStops(data, cs, j, size); }
  }

  lemma ConcatEmpty(data: seq<seq<byte>>)
    ensures Concat(data, []) == []
  {
  }

  lemma ContentEmpty(data: seq<seq<byte>>, cs: seq<nat>)
    ensures Content(data, cs, 0) == []
  {
  }

  /** The in-memory entry after an operation: it names the chain and the size of the result and is
      otherwise the old entry. */
  ghost predicate EntryOf(entry': Entry, entry: Entry, r: Result) {
    && FirstCluster(entry') == (if r.cs == [] then FirstCluster(entry) else r.cs[0])
    && FileSize(entry') == r.size
    && ShortName(entry') == ShortName(entry) && Attr(entry') == Attr(entry) && SameOther(entry', entry)
  }

  /** The volume after an operation: table, hint and count of the result; the data too, plus the
      updated directory entry when everything was written. */
  ghost predicate VolumeOf(v: Vol, r: Result, total: nat, ds: seq<nat>, entry': Entry) {
    && v.fat == r.v.fat && v.hint == r.v.hint && v.free == r.v.free
    && v.data == if r.written == total then PutEntry(r.v.data, ds, ShortName(entry'), entry') else r.v.data
  }

  /** What the driver expects of a file it is about to change: the entry names a chain, of whatever
      length, the directory is another chain, sizes stay within 32 bits, and every allocation begins with a
      safe search hint. */
  ghost predicate CanChange(v: Vol, n: nat, cl: nat, entry: Entry, cs: seq<nat>, ds: seq<nat>, dirCluster: nat,
                            more: nat) {
    && HasChain(v, n, entry, cs) && Chained(v, n, cl, cs)
    && IsChain(v.fat, n, ds) && dirCluster == ds[0] && Disjoint(ds, cs)
    && FileSize(entry) + cl <= TWO_32
    && Room(v, n, more) && SaneCount(v.free)
  }

  lemma ChangeFacts(v: Vol, n: nat, cl: nat, entry: Entry, cs: seq<nat>, ds: seq<nat>, dirCluster: nat, more: nat)
    requires CanChange(v, n, cl, entry, cs, ds, dirCluster, more)
    ensures Shape(v.fat, n) && Sound(v, n, cl) && 0 < cl && Chained(v, n, cl, cs)
    ensures cs == [] <==> FirstCluster(entry) == 0
    ensures cs != [] ==> IsChain(v.fat, n, cs) && cs[0] == FirstCluster(entry) && Ready(v, n, cl, cs, 0)
    ensures IsChain(v.fat, n, ds) && 0 < |ds| && dirCluster == ds[0] && Disjoint(ds, cs)
    ensures FileSize(entry) + cl <= TWO_32 && Room(v, n, more) && SaneCount(v.free)
  {
  }

  /** `Begin` and the first allocation agree. */
  lemma BeginIs(v: Vol, n: nat, cl: nat, k: nat)
    requires Sound(v, n, cl)
    ensures var (v0, ch) := Begin(v, n, []);
            var r := AllocResult(v.fat, n, v.hint);
            if r == 0 then ch == [] && v0 == v
            else && ch == [r] && 2 <= r < n && Ready(v0, n, cl, ch, 0)
                 && v0 == Vol(v.fat[r := EOF], v.data, r + 1,
                              if v.free != UNKNOWN && v.free > 0 then v.free - 1 else v.free)
                 && (0 < k && Room(v, n, k) ==> Room(v0, n, k - 1))
                 && (SaneCount(v.free) ==> SaneCount(v0.free))
    ensures Begin(v, n, []).1 != [] <==> HasFree(v.fat, n)
  {
    BeginReady(v, n, cl, []);
    AllocIsNearestFree(v.fat, n, v.hint);
    if 0 < k && Room(v, n, k) && HasFree(v.fat, n) { RoomStep(v, n, k); }
  }

  /** The write loop never raises the free count. */
  lemma {:induction false} WriteLoopSane(v: Vol, n: nat, cl: nat, ch: seq<nat>, i: nat, src: seq<byte>)
    requires Ready(v, n, cl, ch, i) && 0 < |src| && SaneCount(v.free)
    ensures SaneCount(WriteLoop(v, n, cl, ch, i, src).v.free)
    decreases |src|
  {
    WriteLoopUnfold(v, n, cl, ch, i, src);
    if Continues(v, n, cl, ch, i, src) {
      var (v1, ch1) := NextState(v, n, cl, ch, i, src);
      ExtendSane(Put(v, n, cl, ch[i], src[..cl]), n, ch);
      WriteLoopSane(v1, n, cl, ch1, i + 1, src[cl..]);
    }
  }

  lemma ExtendSane(v: Vol, n: nat, ch: seq<nat>)
    requires Shape(v.fat, n) && IsChain(v.fat, n, ch) && SaneCount(v.free)
    ensures SaneCount(Extend(v, n, ch).0.free)
  {
  }

  // ---------------------------------------------------------------- overwriting

  lemma WriteFileCases(v: Vol, n: nat, cl: nat, cs: seq<nat>, size: nat, src: seq<byte>)
    requires Chained(v, n, cl, cs)
    ensures src == [] ==>
              FileWrite.WriteFile(v, n, cl, cs, size, src) ==
              if cs == [] || size == 0 then Result(v, cs, size, 0) else Result(Trim(v, n, cs, 1), cs[..1], size, 0)
    ensures var (v0, ch) := Begin(v, n, cs);
            && (src != [] && ch == [] ==> FileWrite.WriteFile(v, n, cl, cs, size, src) == Result(v, cs, size, 0))
            && (src != [] && ch != [] ==>
                  && Ready(v0, n, cl, ch, 0)
                  && var w := WriteLoop(v0, n, cl, ch, 0, src);
                     && Ready(w.v, n, cl, w.ch, w.at) && w.written <= |src| && Shape(w.v.fat, n)
                     && IsChain(w.v.fat, n, w.ch) && w.at + 1 <= |w.ch| && w.ch[0] == ch[0]
                     && FileWrite.WriteFile(v, n, cl, cs, size, src) == Finish(w, n, cl, size, |src|))
    ensures cs != [] ==> Begin(v, n, cs) == (v, cs)
  {
    BeginReady(v, n, cl, cs);
    var (v0, ch) := Begin(v, n, cs);
    if src != [] && ch != [] { WriteLoopGrows(v0, n, cl, ch, 0, src); }
  }

  lemma FinishIs(w: Outcome, n: nat, cl: nat, size: nat, total: nat)
    requires Ready(w.v, n, cl, w.ch, w.at)
    ensures 0 < cl && Shape(w.v.fat, n) && IsChain(w.v.fat, n, w.ch) && w.at + 1 <= |w.ch|
    ensures Finish(w, n, cl, size, total) ==
            if w.written < total then Result(w.v, w.ch, size, w.written)
            else
              var size' := if size < w.written then w.written else size;
              if w.written < Clusters(size, cl) * cl
              then Result(Trim(w.v, n, w.ch, w.at + 1), w.ch[..w.at + 1], size', w.written)
              else Result(w.v, w.ch, size', w.written)
  {
  }

  lemma ClustersIs(size: nat, cl: nat)
    requires 0 < cl
    ensures Clusters(size, cl) == (size + cl - 1) / cl
    ensures 0 < Clusters(size, cl) * cl <==> 0 < size
  {
    ClustersBounds(size, cl);
    if size == 0 { assert Clusters(0, cl) == 0; }
  }

  /** The directory chain survives the table updates of an operation on another file. */
  lemma DirKept(v: Vol, n: nat, cl: nat, cs: seq<nat>, size: nat, src: seq<byte>, ds: seq<nat>)
    requires Chained(v, n, cl, cs) && IsChain(v.fat, n, ds) && Disjoint(ds, cs)
    ensures var r := FileWrite.WriteFile(v, n, cl, cs, size, src);
            n <= |r.v.fat| && IsChain(r.v.fat, n, ds)
  {
    WriteLeavesOthers(v, n, cl, cs, size, src, ds);
  }

  /** `FAT32_WriteFile`: overwrites a file from its start. */
  method WriteFile(vol: Volume, dirCluster: nat, entry: Entry, src: seq<byte>, ghost cs: seq<nat>, ghost ds: seq<nat>)
    returns (written: nat, entry': Entry)
    requires vol.Valid() && |src| + vol.g.ClusterSize() <= TWO_32
    requires CanChange(Abs(vol), vol.g.Limit(), vol.g.ClusterSize(), entry, cs, ds, dirCluster,
                       More(|src|, |cs|, vol.g.ClusterSize()))
    requires src == [] && 0 < FileSize(entry) ==> cs != []
    modifies vol
    ensures vol.Valid() && (old(vol.Synced()) ==> vol.Synced())
    ensures IsDirectory(entry) ==> written == 0 && entry' == entry && Abs(vol) == old(Abs(vol))
    ensures !IsDirectory(entry) ==>
              var r := old(FileWrite.WriteFile(Abs(vol), vol.g.Limit(), vol.g.ClusterSize(), cs, FileSize(entry), src));
              && written == r.written && EntryOf(entry', entry, r)
              && VolumeOf(Abs(vol), r, |src|, ds, entry')
  {
    hide *;
    ghost var v, n := Abs(vol), vol.g.Limit();
    var cl := vol.g.ClusterSize();
    AbsSound(vol);
    ChangeFacts(v, n, cl, entry, cs, ds, dirCluster, More(|src|, |cs|, cl));
    AbsIs(vol);
    ShapeBounds(v.fat, n);
    ghost var r := FileWrite.WriteFile(v, n, cl, cs, FileSize(entry), src);
    WriteFileCases(v, n, cl, cs, FileSize(entry), src);
    DirKept(v, n, cl, cs, FileSize(entry), src, ds);
    ClustersIs(FileSize(entry), cl);
    if IsDirectory(entry) { return 0, entry; }
    var oldClusters := (FileSize(entry) + cl - 1) / cl;
    var cluster := FirstCluster(entry);
    entry', written := entry, 0;
    SameOtherSelf(entry);
    ghost var ch: seq<nat>, k: nat := cs, 1;
    if cluster == 0 && 0 < |src| {
      MoreFirst(|src|, cl);
      BeginIs(v, n, cl, More(|src|, 0, cl));
      RoomIsSafe(v, n, More(|src|, 0, cl));
      cluster := vol.AllocCluster();
      AbsIs(vol);
      if cluster == 0 {
        EntryIs(entry, entry, r);
        VolumeIs(Abs(vol), r, |src|, ds, entry);
        return 0, entry;
      }
      EntryFields(entry, cluster, 0);
      entry' := SetFirstCluster(entry, cluster);
      ch := [cluster];
    }
    if 0 < |src| {
      ghost var w := WriteLoop(Abs(vol), n, cl, ch, 0, src);
      WriteLoopSane(Abs(vol), n, cl, ch, 0, src);
      cluster, written := WriteClusters(vol, cluster, src, ch);
      FinishIs(w, n, cl, FileSize(entry), |src|);
      ch, k := w.ch, w.at + 1;
      AbsIs(vol);
      if written < |src| {
        EntryIs(entry', entry, r);
        VolumeIs(Abs(vol), r, |src|, ds, entry');
        return;
      }
    }
    if written < oldClusters * cl {
      TrimChain(vol, cluster, ch, k);
    }
    if written > FileSize(entry') {
      EntryFields(entry', 0, written);
      SameOtherTrans(SetFileSize(entry', written), entry', entry);
      entry' := SetFileSize(entry', written);
    }
    AbsIs(vol);
    assert Abs(vol) == r.v;
    var found := WriteDirEntry(vol, dirCluster, entry', ds);
    AbsIs(vol);
    EntryIs(entry', entry, r);
    VolumeIs(Abs(vol), r, |src|, ds, entry');
  }

  lemma MoreFirst(size: nat, cl: nat)
    requires 0 < size && 0 < cl
    ensures 0 < More(size, 0, cl) && More(size, 1, cl) == More(size, 0, cl) - 1
  {
    OneOrMore(size, cl);
  }

  lemma EntryIs(entry': Entry, entry: Entry, r: Result)
    ensures EntryOf(entry', entry, r) <==>
            && FirstCluster(entry') == (if r.cs == [] then FirstCluster(entry) else r.cs[0])
            && FileSize(entry') == r.size
            && ShortName(entry') == ShortName(entry) && Attr(entry') == Attr(entry) && SameOther(entry', entry)
  {
  }

  lemma VolumeIs(v: Vol, r: Result, total: nat, ds: seq<nat>, entry': Entry)
    ensures VolumeOf(v, r, total, ds, entry') <==>
            && v.fat == r.v.fat && v.hint == r.v.hint && v.free == r.v.free
            && v.data == if r.written == total then PutEntry(r.v.data, ds, ShortName(entry'), entry') else r.v.data
  {
  }

  // ---------------------------------------------------------------- appending

  lemma {:induction false} ClustersShift(k: nat, x: nat, cl: nat)
    requires 0 < cl
    ensures Clusters(k * cl + x, cl) == k + Clusters(x, cl)
  {
    ClustersBounds(x, cl);
    var m := Clusters(x, cl);
    assert (k + m) * cl == k * cl + m * cl;
    ClustersUnique(k * cl + x, cl, k + m);
  }

  /** Allocations seen from the tail cluster. */
  lemma MoreAtTail(length: nat, at: nat, offset: nat, added: nat, cl: nat)
    requires 0 < cl && 0 < length && at == (length - 1) * cl + offset
    ensures More(at + added, length, cl) == More(offset + added, 1, cl)
  {
    ClustersShift(length - 1, offset + added, cl);
  }

  lemma MoreGrows(at: nat, added: nat, length: nat, cl: nat)
    requires 0 < cl && 0 < added && 0 < length && at == length * cl
    ensures 0 < More(at + added, length, cl)
    ensures More(at + added, length + 1, cl) == More(at + added, length, cl) - 1
  {
    ClustersShift(length, added, cl);
    OneOrMore(added, cl);
  }

  lemma TailCases(v: Vol, n: nat, cl: nat, cs: seq<nat>, size: nat)
    requires Appendable(v, n, cl, cs, size)
    ensures var (v0, ch) := Begin(v, n, cs);
            && (ch == [] ==> Tail(v, n, cl, cs, size) == (v0, ch))
            && (ch != [] ==>
                  && Ready(v0, n, cl, ch, 0) && IsChain(v0.fat, n, ch) && Shape(v0.fat, n)
                  && (if 0 < size && Offset(size, cl) == 0
                      then var (v1, e) := Extend(v0, n, ch);
                           Tail(v, n, cl, cs, size) == (v1, if e == 0 then [] else ch + [e])
                      else Tail(v, n, cl, cs, size) == (v0, ch)))
    ensures cs != [] ==> Begin(v, n, cs) == (v, cs)
    ensures 0 < size && Offset(size, cl) == 0 ==> cs != [] && AppendAt(|cs|, size, cl) == |cs| * cl
  {
    BeginReady(v, n, cl, cs);
  }

  lemma AppendFileCases(v: Vol, n: nat, cl: nat, cs: seq<nat>, size: nat, src: seq<byte>)
    requires Appendable(v, n, cl, cs, size) && src != []
    ensures var (v1, ch) := Tail(v, n, cl, cs, size);
            && (ch == [] ==> FileAppend.AppendFile(v, n, cl, cs, size, src) == Result(v1, cs, size, 0))
            && (ch != [] ==>
                  var i := |ch| - 1;
                  && Ready(v1, n, cl, ch, i) && Shape(v1.fat, n) && 2 <= ch[i] < n && |v1.data| == n
                  && |v1.data[ch[i]]| == cl
                  && AppendAt(|cs|, size, cl) == i * cl + Offset(size, cl)
                  && var patch := v1.data[ch[i]][..Offset(size, cl)] + src;
                     var w := WriteLoop(v1, n, cl, ch, i, patch);
                     && Offset(size, cl) <= w.written <= |patch| && w.ch != [] && w.ch[0] == ch[0]
                     && var written := w.written - Offset(size, cl);
                        FileAppend.AppendFile(v, n, cl, cs, size, src) ==
                        Result(w.v, w.ch, if written < |src| then size else size + written, written))
  {
    TailReady(v, n, cl, cs, size);
    var (v1, ch) := Tail(v, n, cl, cs, size);
    if ch != [] {
      var i := |ch| - 1;
      ReadyShape(v1, n, cl, ch, i);
      var patch := Patch(v1, cl, ch, size, src);
      hide WriteLoop, Tail, Appendable, Ready;
      WriteAtLeast(v1, n, cl, ch, i, patch);
      WriteLoopGrows(v1, n, cl, ch, i, patch);
    }
  }

  lemma AppendDirKept(v: Vol, n: nat, cl: nat, cs: seq<nat>, size: nat, src: seq<byte>, ds: seq<nat>)
    requires Appendable(v, n, cl, cs, size) && IsChain(v.fat, n, ds) && Disjoint(ds, cs)
    ensures var r := FileAppend.AppendFile(v, n, cl, cs, size, src);
            n <= |r.v.fat| && IsChain(r.v.fat, n, ds)
  {
    AppendLeavesOthers(v, n, cl, cs, size, src, ds);
  }

  /** Walks a chain to its last cluster. */
  method LastCluster(vol: Volume, first: nat, ghost ch: seq<nat>) returns (cluster: nat)
    requires vol.Valid() && IsChain(vol.Table(), vol.g.Limit(), ch) && first == ch[0]
    ensures cluster == ch[|ch| - 1]
  {
    hide *;
    ChainBelow(vol, ch);
    cluster := first;
    ghost var j := 0;
    while true
      invariant 0 <= j < |ch| && cluster == ch[j]
      decreases |ch| - j
    {
      ChainAt(vol.Table(), vol.g.Limit(), ch, j);
      var next := vol.NextCluster(cluster);
      if next >= EOF { break; }
      cluster, j := next, j + 1;
    }
  }

  /** The bytes an iteration of the append loop puts into the tail cluster, seen as a prefix. */
  lemma PutAtOffset(v: Vol, n: nat, cl: nat, c: nat, offset: nat, src: seq<byte>, piece: seq<byte>)
    requires Sound(v, n, cl) && 2 <= c < n && offset < cl
    requires var patch := v.data[c][..offset] + src;
             piece == src[..if |src| < cl - offset then |src| else cl - offset]
    ensures var patch := v.data[c][..offset] + src;
            && Min(|patch|, cl) == offset + |piece| <= cl
            && Put(v, n, cl, c, patch[..Min(|patch|, cl)]) ==
               Vol(v.fat, v.data[c := v.data[c][..offset] + piece + v.data[c][offset + |piece|..]], v.hint, v.free)
            && (cl < |patch| ==> patch[cl..] == src[|piece|..])
  {
    var patch := v.data[c][..offset] + src;
    assert patch[..offset + |piece|] == v.data[c][..offset] + piece;
  }

  lemma PutThere(v: Vol, n: nat, cl: nat, c: nat, src: seq<byte>)
    requires Sound(v, n, cl) && 2 <= c < n
    ensures v.data[c][..0] + src == src
  {
  }

  /** Writes `src` from `offset0` of the tail cluster on, adding clusters as they fill up. */
  method AppendClusters(vol: Volume, tail: nat, offset0: nat, src: seq<byte>, ghost ch0: seq<nat>, ghost i0: nat)
    returns (written: nat)
    requires vol.Valid() && 0 < |src| && offset0 < vol.g.ClusterSize()
    requires Ready(Abs(vol), vol.g.Limit(), vol.g.ClusterSize(), ch0, i0) && |ch0| == i0 + 1 && tail == ch0[i0]
    requires Room(Abs(vol), vol.g.Limit(), More(offset0 + |src|, 1, vol.g.ClusterSize()))
    modifies vol
    ensures vol.Valid() && (old(vol.Synced()) ==> vol.Synced())
    ensures var patch := old(vol.Data()[tail])[..offset0] + src;
            var w := old(WriteLoop(Abs(vol), vol.g.Limit(), vol.g.ClusterSize(), ch0, i0, patch));
            Abs(vol) == w.v && offset0 + written == w.written
  {
    hide *;
    ghost var n, cl := vol.g.Limit(), vol.g.ClusterSize();
    AbsSound(vol);
    AbsIs(vol);
    NextOnChain(Abs(vol), n, cl, ch0, i0);
    ghost var patch := vol.Data()[tail][..offset0] + src;
    ghost var w := WriteLoop(Abs(vol), n, cl, ch0, i0, patch);
    ghost var ch: seq<nat>, i: nat, done := ch0, i0, 0;
    var cluster, offset := tail, offset0;
    written := 0;
    assert src[0..] == src;
    ReadyShape(Abs(vol), n, cl, ch0, i0);
    while written < |src|
      invariant vol.Valid() && (old(vol.Synced()) ==> vol.Synced())
      invariant 0 < cl && Shape(Abs(vol).fat, n) && offset < cl
      invariant written < |src| && Ready(Abs(vol), n, cl, ch, i) && |ch| == i + 1 && cluster == ch[i]
      invariant 2 <= cluster < n == |vol.Data()| && |vol.Data()[cluster]| == cl
      invariant 0 <= done && done + offset == offset0 + written
      invariant patch == vol.Data()[cluster][..offset] + src[written..]
      invariant var r := WriteLoop(Abs(vol), n, cl, ch, i, patch);
                w == r.(written := done + r.written)
      invariant Room(Abs(vol), n, More(|patch|, 1, cl))
    {
      ghost var v, rest := Abs(vol), src[written..];
      AbsIs(vol);
      AbsSound(vol);
      NextOnChain(v, n, cl, ch, i);
      var remain := |src| - written;
      var space := vol.g.ClusterSize() - offset;
      var toWrite := if remain < space then remain else space;
      ghost var piece := src[written..written + toWrite];
      assert piece == rest[..toWrite];
      PutAtOffset(v, n, cl, cluster, offset, rest, piece);
      IterationEnds(v, n, cl, ch, i, patch);
      PutBytes(vol, cluster, offset, src[written..written + toWrite]);
      AbsIs(vol);
      written, offset := written + toWrite, offset + toWrite;
      if written >= |src| { break; }
      MoreStep(|patch|, 1, cl);
      RoomAfterPut(v, n, cl, cluster, patch[..Min(|patch|, cl)], More(|patch|, 1, cl));
      ghost var v1, more := Abs(vol), More(|patch|, 1, cl);
      RoomIsSafe(v1, n, more);
      ExtendKeeps(v1, n, ch, more);
      var nc := LinkNewCluster(vol, cluster, ch);
      if nc == 0 { return; }
      AbsIs(vol);
      AbsSound(vol);
      ch, i, done := ch + [nc], i + 1, done + cl;
      ReadyShape(Abs(vol), n, cl, ch, i);
      cluster, offset := nc, 0;
      patch := patch[cl..];
      PutThere(Abs(vol), n, cl, cluster, src[written..]);
      assert src[written..] == rest[toWrite..];
    }
  }

  /** Finds the last cluster of a file, or allocates the first one; 0 on a full volume. */
  method OpenFirst(vol: Volume, entry: Entry, ghost total: nat, ghost cs: seq<nat>) returns (cluster: nat,
                   entry': Entry, ghost ch: seq<nat>)
    requires vol.Valid() && HasChain(Abs(vol), vol.g.Limit(), entry, cs) && 0 < total
    requires Room(Abs(vol), vol.g.Limit(), More(total, |cs|, vol.g.ClusterSize()))
    modifies vol
    ensures vol.Valid() && (old(vol.Synced()) ==> vol.Synced())
    ensures (Abs(vol), ch) == old(Begin(Abs(vol), vol.g.Limit(), cs))
    ensures cluster == 0 <==> ch == []
    ensures ch == [] ==> entry' == entry
    ensures ch != [] ==>
              && cluster == ch[|ch| - 1]
              && FirstCluster(entry') == ch[0] && FileSize(entry') == FileSize(entry)
              && ShortName(entry') == ShortName(entry) && Attr(entry') == Attr(entry)
              && SameOther(entry', entry)
              && Room(Abs(vol), vol.g.Limit(), More(total, |ch|, vol.g.ClusterSize()))
  {
    hide *;
    ghost var v, n := Abs(vol), vol.g.Limit();
    ghost var cl := vol.g.ClusterSize();
    AbsSound(vol);
    AbsIs(vol);
    ShapeBounds(v.fat, n);
    HasChainIs(v, n, entry, cs);
    entry', ch := entry, cs;
    SameOtherSelf(entry);
    if FirstCluster(entry) == 0 {
      MoreFirst(total, cl);
      BeginIs(v, n, cl, More(total, 0, cl));
      RoomIsSafe(v, n, More(total, 0, cl));
      cluster := vol.AllocCluster();
      AbsIs(vol);
      if cluster == 0 { return; }
      EntryFields(entry, cluster, 0);
      entry', ch := SetFirstCluster(entry, cluster), [cluster];
    } else {
      BeginSame(v, n, cs);
      cluster := LastCluster(vol, FirstCluster(entry), cs);
      ChainAt(v.fat, n, cs, |cs| - 1);
    }
  }

  lemma BeginSame(v: Vol, n: nat, cs: seq<nat>)
    requires Shape(v.fat, n)
    ensures cs != [] ==> Begin(v, n, cs) == (v, cs)
  {
  }

  /** The first half of an append: finds or allocates the cluster that receives the first new byte;
      0 on a full volume. */
  method OpenTail(vol: Volume, entry: Entry, ghost added: nat, ghost cs: seq<nat>) returns (cluster: nat,
                  entry': Entry, ghost ch: seq<nat>)
    requires vol.Valid() && HasChain(Abs(vol), vol.g.Limit(), entry, cs) && 0 < added
    requires Appendable(Abs(vol), vol.g.Limit(), vol.g.ClusterSize(), cs, FileSize(entry)) && 0 < vol.g.ClusterSize()
    requires Room(Abs(vol), vol.g.Limit(),
                  More(AppendAt(|cs|, FileSize(entry), vol.g.ClusterSize()) + added, |cs|, vol.g.ClusterSize()))
    modifies vol
    ensures vol.Valid() && (old(vol.Synced()) ==> vol.Synced())
    ensures (Abs(vol), ch) == old(Tail(Abs(vol), vol.g.Limit(), vol.g.ClusterSize(), cs, FileSize(entry)))
    ensures cluster == 0 <==> ch == []
    ensures ch == [] ==> entry' == entry
    ensures ch != [] ==>
              && cluster == ch[|ch| - 1]
              && FirstCluster(entry') == ch[0] && FileSize(entry') == FileSize(entry)
              && ShortName(entry') == ShortName(entry) && Attr(entry') == Attr(entry)
              && SameOther(entry', entry)
              && Shape(Abs(vol).fat, vol.g.Limit())
              && Room(Abs(vol), vol.g.Limit(),
                      More(AppendAt(|cs|, FileSize(entry), vol.g.ClusterSize()) + added, |ch|, vol.g.ClusterSize()))
  {
    hide *;
    ghost var v, n := Abs(vol), vol.g.Limit();
    var cl, size := vol.g.ClusterSize(), FileSize(entry);
    AbsSound(vol);
    AbsIs(vol);
    TailCases(v, n, cl, cs, size);
    TailFull(v, n, cl, cs, size, added);
    ghost var total := AppendAt(|cs|, size, cl) + added;
    cluster, entry', ch := OpenFirst(vol, entry, total, cs);
    if cluster == 0 { return; }
    AbsSound(vol);
    AbsIs(vol);
    ShapeBounds(Abs(vol).fat, n);
    if Full(size, cl) {
      RoomIsSafe(Abs(vol), n, More(total, |cs|, cl));
      ExtendKeeps(Abs(vol), n, ch, More(total, |cs|, cl));
      var nc := LinkNewCluster(vol, cluster, ch);
      AbsSound(vol);
      if nc == 0 { return 0, entry, []; }
      cluster, ch := nc, ch + [nc];
    }
  }

  lemma HasChainIs(v: Vol, n: nat, entry: Entry, cs: seq<nat>)
    requires HasChain(v, n, entry, cs)
    ensures Shape(v.fat, n) && (cs == [] <==> FirstCluster(entry) == 0)
    ensures cs != [] ==> IsChain(v.fat, n, cs) && cs[0] == FirstCluster(entry)
  {
  }

  /** `FAT32_AppendFile`: writes on behind the end of a file. */
  method AppendFile(vol: Volume, dirCluster: nat, entry: Entry, src: seq<byte>, ghost cs: seq<nat>, ghost ds: seq<nat>)
    returns (written: nat, entry': Entry)
    requires vol.Valid() && FileSize(entry) + |src| < TWO_32
    requires CanChange(Abs(vol), vol.g.Limit(), vol.g.ClusterSize(), entry, cs, ds, dirCluster,
                       More(AppendAt(|cs|, FileSize(entry), vol.g.ClusterSize()) + |src|, |cs|, vol.g.ClusterSize()))
    requires 0 < FileSize(entry) ==> cs != []
    modifies vol
    ensures vol.Valid() && (old(vol.Synced()) ==> vol.Synced())
    ensures IsDirectory(entry) || src == [] ==> written == 0 && entry' == entry && Abs(vol) == old(Abs(vol))
    ensures !IsDirectory(entry) && src != [] ==>
              var r := old(FileAppend.AppendFile(
                Abs(vol), vol.g.Limit(), vol.g.ClusterSize(), cs, FileSize(entry), src));
              && written == r.written && EntryOf(entry', entry, r)
              && VolumeOf(Abs(vol), r, |src|, ds, entry')
  {
    hide *;
    ghost var v, n := Abs(vol), vol.g.Limit();
    var cl, size := vol.g.ClusterSize(), FileSize(entry);
    AbsSound(vol);
    ghost var more := More(AppendAt(|cs|, size, cl) + |src|, |cs|, cl);
    ChangeFacts(v, n, cl, entry, cs, ds, dirCluster, more);
    CanChangeChain(v, n, cl, entry, cs, ds, dirCluster, more);
    AppendableIs(v, n, cl, cs, size);
    if src == [] || IsDirectory(entry) { return 0, entry; }
    SameOtherSelf(entry);
    ghost var r := FileAppend.AppendFile(v, n, cl, cs, size, src);
    AppendFileCases(v, n, cl, cs, size, src);
    AppendDirKept(v, n, cl, cs, size, src, ds);
    var cluster;
    ghost var ch;
    cluster, entry', ch := OpenTail(vol, entry, |src|, cs);
    OffsetIs(size, cl);
    if cluster == 0 {
      EmptyUntouched(v, n, cl, cs, size);
      EntryIs(entry, entry, r);
      VolumeIs(Abs(vol), r, |src|, ds, entry);
      return 0, entry;
    }
    MoreAtTail(|ch|, AppendAt(|cs|, size, cl), Offset(size, cl), |src|, cl);
    AbsIs(vol);
    written := AppendClusters(vol, cluster, size % cl, src, ch, |ch| - 1);
    AbsIs(vol);
    if written == |src| {
      EntryFields(entry', 0, size + written);
      SameOtherTrans(SetFileSize(entry', size + written), entry', entry);
      entry' := SetFileSize(entry', size + written);
      var found := WriteDirEntry(vol, dirCluster, entry', ds);
      AbsIs(vol);
    }
    EntryIs(entry', entry, r);
    VolumeIs(Abs(vol), r, |src|, ds, entry');
  }

  lemma CanChangeChain(v: Vol, n: nat, cl: nat, entry: Entry, cs: seq<nat>, ds: seq<nat>, dirCluster: nat, more: nat)
    requires CanChange(v, n, cl, entry, cs, ds, dirCluster, more)
    ensures HasChain(v, n, entry, cs)
  {
  }

  lemma EmptyUntouched(v: Vol, n: nat, cl: nat, cs: seq<nat>, size: nat)
    requires Appendable(v, n, cl, cs, size) && Tail(v, n, cl, cs, size).1 == []
    ensures Tail(v, n, cl, cs, size).0 == v
  {
    BeginReady(v, n, cl, cs);
  }

  /** The file ends at the end of a cluster. */
  predicate Full(size: nat, cl: nat)
    requires 0 < cl
  {
    size % cl == 0 && size > 0
  }

  lemma FullIs(size: nat, cl: nat)
    requires 0 < cl
    ensures Full(size, cl) <==> 0 < size && Offset(size, cl) == 0
  {
  }

  lemma TailFull(v: Vol, n: nat, cl: nat, cs: seq<nat>, size: nat, added: nat)
    requires Appendable(v, n, cl, cs, size) && 0 < cl && 0 < added
    ensures Full(size, cl) <==> 0 < size && Offset(size, cl) == 0
    ensures Full(size, cl) ==>
              var at := AppendAt(|cs|, size, cl);
              && cs != [] && 0 < More(at + added, |cs|, cl)
              && More(at + added, |cs| + 1, cl) == More(at + added, |cs|, cl) - 1
  {
    hide *;
    FullIs(size, cl);
    AppendableIs(v, n, cl, cs, size);
    if Full(size, cl) { AppendGrows(|cs|, size, added, cl); }
  }

  lemma AppendGrows(length: nat, size: nat, added: nat, cl: nat)
    requires 0 < cl && 0 < added && 0 < length && 0 < size && Offset(size, cl) == 0
    ensures var at := AppendAt(length, size, cl);
            0 < More(at + added, length, cl) && More(at + added, length + 1, cl) == More(at + added, length, cl) - 1
  {
    hide More, Offset;
    MoreGrows(AppendAt(length, size, cl), added, length, cl);
  }

  lemma OffsetIs(size: nat, cl: nat)
    requires 0 < cl
    ensures Offset(size, cl) == size % cl
  {
  }
}
