/** A change followed by a read, as the shell commands `writefile` and `appendfile` perform them: the
    entry is found again through the directory and the bytes through the chain. */
module FileSession {
  import opened Basics
  import opened Arith
  import opened Bytes
  import opened FatTable
  import opened FatVolume
  import opened FileData
  import opened FileWrite
  import opened FileAppend
  import opened DirEntry
  import opened FileOps

  /** Updating a directory entry is invisible to every chain other than the directory's. */
  lemma PutEntryFrame(data: seq<seq<byte>>, ds: seq<nat>, name: seq<byte>, e: Entry, ws: seq<nat>)
    requires Disjoint(ds, ws)
    ensures Concat(PutEntry(data, ds, name, e), ws) == Concat(data, ws)
  {
    var data' := PutEntry(data, ds, name, e);
    forall i | 0 <= i < |ws| ensures Get(data', ws[i]) == Get(data, ws[i]) {
      assert ws[i] in ws;
      if p :| Lookup(data, ds, 0, name) == Some(p) { assert ds[p.index] in ds; }
    }
    ConcatFrame(data, data', ws);
  }

  /** Once an operation has written everything, looking the name up gives the updated entry, and its
      chain holds the content of the result. */
  lemma ChangeIsVisible(v: Vol, n: nat, cl: nat, r: Result, total: nat, ds: seq<nat>, entry': Entry)
    requires VolumeOf(v, r, total, ds, entry') && r.written == total
    requires Sound(r.v, n, cl) && IsChain(r.v.fat, n, ds) && Disjoint(ds, r.cs)
    requires IsValidSfn(entry') && Lookup(r.v.data, ds, 0, ShortName(entry')).Some?
    ensures Content(v.data, r.cs, r.size) == Content(r.v.data, r.cs, r.size)
    ensures match Lookup(v.data, ds, 0, ShortName(entry'))
            case None => false
            case Some(p) => Slot(Get(v.data, ds[p.index]), p.slot) == entry'
  {
    PutEntryFrame(r.v.data, ds, ShortName(entry'), entry', r.cs);
    assert Distinct(ds);
    hide Content, Concat;
    PutThenLookup(r.v.data, ds, entry');
  }

  /** The directory looks the same before and after the file's own clusters have been written. */
  lemma {:induction false} LookupFrame(data: seq<seq<byte>>, data': seq<seq<byte>>, ds: seq<nat>, j: nat,
                                       name: seq<byte>)
    requires forall i :: 0 <= i < |ds| ==> Get(data, ds[i]) == Get(data', ds[i])
    ensures Lookup(data, ds, j, name) == Lookup(data', ds, j, name)
    decreases |ds| - j
  {
    if j < |ds| {
      LookupFrame(data, data', ds, j + 1, name);
    }
  }

  lemma AppendKeepsDirectory(v: Vol, n: nat, cl: nat, cs: seq<nat>, size: nat, src: seq<byte>, ds: seq<nat>,
                             name: seq<byte>)
    requires Appendable(v, n, cl, cs, size) && IsChain(v.fat, n, ds) && Disjoint(ds, cs)
    ensures var r := FileAppend.AppendFile(v, n, cl, cs, size, src);
            && Sound(r.v, n, cl) && n <= |r.v.fat| && IsChain(r.v.fat, n, ds) && Disjoint(ds, r.cs)
            && Lookup(r.v.data, ds, 0, name) == Lookup(v.data, ds, 0, name)
  {
    var r := FileAppend.AppendFile(v, n, cl, cs, size, src);
    AppendLeavesOthers(v, n, cl, cs, size, src, ds);
    AppendFileSafe(v, n, cl, cs, size, src);
    forall i | 0 <= i < |ds| ensures Get(v.data, ds[i]) == Get(r.v.data, ds[i]) {
      assert ds[i] in ds;
      UsedOnChain(v.fat, n, ds, ds[i]);
      AppendFileFrame(v, n, cl, cs, size, src, ds[i]);
    }
    LookupFrame(v.data, r.v.data, ds, 0, name);
  }

  lemma WriteKeepsDirectory(v: Vol, n: nat, cl: nat, cs: seq<nat>, size: nat, src: seq<byte>, ds: seq<nat>,
                            name: seq<byte>)
    requires Chained(v, n, cl, cs) && IsChain(v.fat, n, ds) && Disjoint(ds, cs)
    ensures var r := FileWrite.WriteFile(v, n, cl, cs, size, src);
            && Sound(r.v, n, cl) && n <= |r.v.fat| && IsChain(r.v.fat, n, ds) && Disjoint(ds, r.cs)
            && Lookup(r.v.data, ds, 0, name) == Lookup(v.data, ds, 0, name)
  {
    var r := FileWrite.WriteFile(v, n, cl, cs, size, src);
    WriteLeavesOthers(v, n, cl, cs, size, src, ds);
    WriteFileSafe(v, n, cl, cs, size, src);
    forall i | 0 <= i < |ds| ensures Get(v.data, ds[i]) == Get(r.v.data, ds[i]) {
      assert ds[i] in ds;
      UsedOnChain(v.fat, n, ds, ds[i]);
      WriteFileFrame(v, n, cl, cs, size, src, ds[i]);
    }
    LookupFrame(v.data, r.v.data, ds, 0, name);
  }

  /** Whether an entry may be looked up again: it is a valid file entry and its directory has it. */
  ghost predicate Listed(v: Vol, ds: seq<nat>, entry: Entry) {
    IsValidSfn(entry) && !IsDirectory(entry) && Lookup(v.data, ds, 0, ShortName(entry)).Some?
  }

  lemma ListedAfter(v: Vol, ds: seq<nat>, entry: Entry, entry': Entry, r: Result, data: seq<seq<byte>>)
    requires Listed(v, ds, entry) && EntryOf(entry', entry, r)
    requires Lookup(data, ds, 0, ShortName(entry)) == Lookup(v.data, ds, 0, ShortName(entry))
    ensures IsValidSfn(entry') && !IsDirectory(entry') && Lookup(data, ds, 0, ShortName(entry')).Some?
  {
    assert entry'[0] == ShortName(entry')[0] && entry[0] == ShortName(entry)[0];
  }

  /** The chain of the result is the chain the updated entry names. */
  lemma ResultChain(v: Vol, n: nat, entry: Entry, entry': Entry, r: Result, total: nat, ds: seq<nat>)
    requires EntryOf(entry', entry, r) && VolumeOf(v, r, total, ds, entry')
    requires Shape(r.v.fat, n) && IsChain(r.v.fat, n, r.cs)
    ensures HasChain(v, n, entry', r.cs) && r.cs != [] && FileSize(entry') == r.size
  {
  }

  /** What is read after `src` was appended at `at` to a file of `size` bytes, `under` being the bytes that the
      clusters of the file held before. */
  ghost predicate AppendedAs(under: seq<byte>, after: seq<byte>, at: nat, src: seq<byte>, size: nat) {
    at + |src| <= |under| && after == (under[..at] + src + under[at + |src|..])[..Min(size + |src|, |under|)]
  }

  /** Append, look the file up again, read it: on whatever chain, the bytes its clusters held with the data
      written over them from the append position; the old content followed by the data if that position
      is the end of the file, as it is when the chain matches the size. */
  method AppendThenRead(vol: Volume, dirCluster: nat, entry: Entry, src: seq<byte>, ghost cs: seq<nat>,
                        ghost ds: seq<nat>)
    returns (written: nat, buf: seq<byte>, count: nat, ghost cs': seq<nat>)
    requires vol.Valid() && src != [] && FileSize(entry) + |src| + vol.g.ClusterSize() <= TWO_32
    requires CanChange(Abs(vol), vol.g.Limit(), vol.g.ClusterSize(), entry, cs, ds, dirCluster,
                       More(AppendAt(|cs|, FileSize(entry), vol.g.ClusterSize()) + |src|, |cs|, vol.g.ClusterSize()))
    requires Listed(Abs(vol), ds, entry) && (0 < FileSize(entry) ==> cs != [])
    modifies vol
    ensures vol.Valid()
    ensures written == |src| ==>
              var cl, size := vol.g.ClusterSize(), FileSize(entry);
              var at := AppendAt(|cs|, size, cl);
              && count <= |buf| && cs <= cs' && |cs'| == Clusters(at + |src|, cl)
              && AppendedAs(old(Concat(vol.Data(), cs')), buf[..count], at, src, size)
              && (AtEnd(|cs|, size, cl, |src|) || Matches(|cs|, size, cl) ==>
                    buf[..count] == old(Content(vol.Data(), cs, size)) + src)
  {
    hide *;
    ghost var v, n, cl := Abs(vol), vol.g.Limit(), vol.g.ClusterSize();
    AbsSound(vol);
    AbsIs(vol);
    VolPositive(v, n, cl);
    ghost var size, at := FileSize(entry), AppendAt(|cs|, FileSize(entry), cl);
    ChangeFacts(v, n, cl, entry, cs, ds, dirCluster, More(at + |src|, |cs|, cl));
    AppendableIs(v, n, cl, cs, size);
    ListedIs(v, ds, entry);
    ghost var r := FileAppend.AppendFile(v, n, cl, cs, size, src);
    var entry';
    written, entry' := FileOps.AppendFile(vol, dirCluster, entry, src, cs, ds);
    buf, count, cs' := [], 0, r.cs;
    if written == |src| {
      AppendSession(v, n, cl, cs, size, src);
      AppendKeepsDirectory(v, n, cl, cs, size, src, ds, ShortName(entry));
      buf, count := FindAndRead(vol, dirCluster, entry, entry', v, r, |src|, ds);
    }
  }

  lemma VolPositive(v: Vol, n: nat, cl: nat)
    requires Sound(v, n, cl)
    ensures 0 < cl
  {
  }

  /** What reading after an append delivers. */
  lemma AppendSession(v: Vol, n: nat, cl: nat, cs: seq<nat>, size: nat, src: seq<byte>)
    requires Appendable(v, n, cl, cs, size) && src != []
    requires FileAppend.AppendFile(v, n, cl, cs, size, src).written == |src|
    ensures var r := FileAppend.AppendFile(v, n, cl, cs, size, src);
            var at, after := AppendAt(|cs|, size, cl), Content(r.v.data, r.cs, r.size);
            && r.cs != [] && IsChain(r.v.fat, n, r.cs) && r.size == size + |src|
            && cs <= r.cs && |r.cs| == Clusters(at + |src|, cl)
            && AppendedAs(Concat(v.data, r.cs), after, at, src, size)
            && (AtEnd(|cs|, size, cl, |src|) || Matches(|cs|, size, cl) ==> after == Content(v.data, cs, size) + src)
  {
    hide *;
    ReadAfterAnyAppend(v, n, cl, cs, size, src);
    AppendsOrNot(v, n, cl, cs, size, src);
    AppendsIs(v, n, cl, cs, size, src);
    AppendAtEndIs(|cs|, size, cl, |src|);
    var r, at := FileAppend.AppendFile(v, n, cl, cs, size, src), AppendAt(|cs|, size, cl);
    OneOrMore(at + |src|, cl);
    ChainOf(r.v, n, cl, r.cs);
    PatchedRead(Concat(v.data, r.cs), Concat(r.v.data, r.cs), at, src, size);
    if Matches(|cs|, size, cl) {
      AppendableIs(v, n, cl, cs, size);
      MatchingIsFile(v, n, cl, cs, size);
      ReadAfterAppend(v, n, cl, cs, size, src);
    }
  }

  lemma ChainOf(v: Vol, n: nat, cl: nat, cs: seq<nat>)
    requires Chained(v, n, cl, cs) && cs != []
    ensures IsChain(v.fat, n, cs)
  {
  }

  lemma PatchedRead(under: seq<byte>, all: seq<byte>, at: nat, src: seq<byte>, size: nat)
    requires Patched(under, all, at, src)
    ensures |all| == |under| && AppendedAs(under, all[..Min(size + |src|, |all|)], at, src, size)
  {
  }

  lemma ListedIs(v: Vol, ds: seq<nat>, entry: Entry)
    requires Listed(v, ds, entry)
    ensures !IsDirectory(entry)
  {
  }

  /** What is read after `src` was written to a file of `size` bytes with `length` clusters: the data first,
      and behind it the old content exactly when the lengths leave it in place; for a chain that matches
      the size, exactly when the data needs at least as many clusters as the file had. */
  ghost predicate ReadsAs(before: seq<byte>, after: seq<byte>, src: seq<byte>, length: nat, size: nat, cl: nat) {
    && 0 < cl && src <= after
    && var kept, whole := Kept(length, size, |src|, cl) * cl, src + (if |src| < |before| then before[|src|..] else []);
       && |after| == Max(|src|, Min(size, kept))
       && (after == whole <==> Max(|src|, Min(size, kept)) == Max(|src|, Min(size, length * cl)))
       && (Matches(length, size, cl) ==> (after == whole <==> Clusters(|src|, cl) >= length))
  }

  /** Overwrite, look the file up again, read it: on whatever chain, the data first, and behind it the old
      content exactly when size, chain and data have lengths that leave it in place; for a chain that
      matches the size, exactly when the data needs at least as many clusters as the file had. */
  method WriteThenRead(vol: Volume, dirCluster: nat, entry: Entry, src: seq<byte>, ghost cs: seq<nat>,
                       ghost ds: seq<nat>)
    returns (written: nat, buf: seq<byte>, count: nat, entry': Entry, ghost cs': seq<nat>)
    requires vol.Valid() && src != [] && |src| + vol.g.ClusterSize() <= TWO_32
    requires CanChange(Abs(vol), vol.g.Limit(), vol.g.ClusterSize(), entry, cs, ds, dirCluster,
                       More(|src|, |cs|, vol.g.ClusterSize()))
    requires Listed(Abs(vol), ds, entry)
    modifies vol
    ensures vol.Valid()
    ensures written == |src| ==>
              && count <= |buf|
              && ReadsAs(old(Content(vol.Data(), cs, FileSize(entry))), buf[..count], src,
                         |cs|, FileSize(entry), vol.g.ClusterSize())
    ensures written == |src| ==>
              var r := old(FileWrite.WriteFile(Abs(vol), vol.g.Limit(), vol.g.ClusterSize(), cs, FileSize(entry), src));
              && cs' == r.cs && Abs(vol).fat == r.v.fat && Abs(vol).hint == r.v.hint && Abs(vol).free == r.v.free
              && Rewritable(Abs(vol), vol.g.Limit(), vol.g.ClusterSize(), entry', cs', ds, dirCluster)
              && 0 < vol.g.ClusterSize() && |cs'| == Kept(|cs|, FileSize(entry), |src|, vol.g.ClusterSize())
              && FileSize(entry') == Max(FileSize(entry), |src|)
              && buf[..count] == Content(vol.Data(), cs', FileSize(entry'))
  {
    hide *;
    ghost var v, n, cl, size := Abs(vol), vol.g.Limit(), vol.g.ClusterSize(), FileSize(entry);
    AbsSound(vol);
    AbsIs(vol);
    ChangeFacts(v, n, cl, entry, cs, ds, dirCluster, More(|src|, |cs|, cl));
    ListedIs(v, ds, entry);
    ghost var r := FileWrite.WriteFile(v, n, cl, cs, size, src);
    cs' := r.cs;
    written, entry' := FileOps.WriteFile(vol, dirCluster, entry, src, cs, ds);
    buf, count := [], 0;
    if written == |src| {
      WriteSession(v, n, cl, cs, size, src);
      WriteKeepsDirectory(v, n, cl, cs, size, src, ds, ShortName(entry));
      AbsSound(vol);
      MaxIs(size, |src|);
      VolumeIs(Abs(vol), r, |src|, ds, entry');
      RewritableAfter(v, Abs(vol), n, cl, entry, entry', r, |src|, ds, dirCluster);
      buf, count := FindAndRead(vol, dirCluster, entry, entry', v, r, |src|, ds);
      AbsIs(vol);
    }
  }

  /** Everything that the next change of the file needs, but for the free clusters. */
  ghost predicate Rewritable(v: Vol, n: nat, cl: nat, entry: Entry, cs: seq<nat>, ds: seq<nat>, dirCluster: nat) {
    && HasChain(v, n, entry, cs) && Chained(v, n, cl, cs)
    && IsChain(v.fat, n, ds) && dirCluster == ds[0] && Disjoint(ds, cs)
    && FileSize(entry) + cl <= TWO_32 && Listed(v, ds, entry)
  }

  /** Reads a file by name after a change that wrote everything. */
  method FindAndRead(vol: Volume, dirCluster: nat, entry: Entry, ghost entry': Entry, ghost v: Vol,
                     ghost r: Result, ghost total: nat, ghost ds: seq<nat>)
    returns (buf: seq<byte>, count: nat)
    requires vol.Valid() && VolumeOf(Abs(vol), r, total, ds, entry') && r.written == total && EntryOf(entry', entry, r)
    requires Sound(r.v, vol.g.Limit(), vol.g.ClusterSize())
    requires vol.g.Limit() <= |r.v.fat| && IsChain(r.v.fat, vol.g.Limit(), ds) && Disjoint(ds, r.cs)
    requires dirCluster == ds[0]
    requires IsChain(r.v.fat, vol.g.Limit(), r.cs) && r.size + vol.g.ClusterSize() <= TWO_32
    requires Listed(v, ds, entry)
    requires Lookup(r.v.data, ds, 0, ShortName(entry)) == Lookup(v.data, ds, 0, ShortName(entry))
    ensures Abs(vol) == old(Abs(vol)) && count <= |buf| && buf[..count] == Content(r.v.data, r.cs, r.size)
  {
    ghost var n, cl := vol.g.Limit(), vol.g.ClusterSize();
    assert Shape(r.v.fat, n) && Abs(vol).fat == r.v.fat && ShortName(entry') == ShortName(entry);
    hide *;
    AbsIs(vol);
    ListedAfter(v, ds, entry, entry', r, r.v.data);
    ChangeIsVisible(Abs(vol), n, cl, r, total, ds, entry');
    ResultChain(Abs(vol), n, entry, entry', r, total, ds);
    var found := FindEntry(vol, dirCluster, ShortName(entry), ds);
    buf, count := ReadFile(vol, found.value, r.cs);
  }

  /** What reading after an overwrite delivers. */
  lemma WriteSession(v: Vol, n: nat, cl: nat, cs: seq<nat>, size: nat, src: seq<byte>)
    requires Chained(v, n, cl, cs) && src != [] && FileWrite.WriteFile(v, n, cl, cs, size, src).written == |src|
    ensures var r, before := FileWrite.WriteFile(v, n, cl, cs, size, src), Content(v.data, cs, size);
            && Sound(r.v, n, cl) && 0 < cl && n <= |r.v.fat| && IsChain(r.v.fat, n, r.cs)
            && |r.cs| == Kept(|cs|, size, |src|, cl) && r.size == Max(size, |src|)
            && ReadsAs(before, Content(r.v.data, r.cs, r.size), src, |cs|, size, cl)
  {
    hide FileWrite.WriteFile, Concat, Clusters, Kept, Matches;
    WriteFileChain(v, n, cl, cs, size, src);
    ReadAfterWrite(v, n, cl, cs, size, src);
    if Matches(|cs|, size, cl) {
      MatchingIsFile(v, n, cl, cs, size);
      ReadAfterMatchingWrite(v, n, cl, cs, size, src);
    }
  }

  lemma RewritableAfter(v: Vol, v': Vol, n: nat, cl: nat, entry: Entry, entry': Entry, r: Result, total: nat,
                        ds: seq<nat>, dirCluster: nat)
    requires EntryOf(entry', entry, r) && VolumeOf(v', r, total, ds, entry') && r.written == total
    requires Sound(r.v, n, cl) && IsChain(r.v.fat, n, r.cs) && IsChain(r.v.fat, n, ds) && Disjoint(ds, r.cs)
    requires dirCluster == ds[0] && r.size + cl <= TWO_32 && Sound(v', n, cl)
    requires Listed(v, ds, entry)
    requires Lookup(r.v.data, ds, 0, ShortName(entry)) == Lookup(v.data, ds, 0, ShortName(entry))
    ensures Rewritable(v', n, cl, entry', r.cs, ds, dirCluster) && FileSize(entry') == r.size
    ensures Content(v'.data, r.cs, r.size) == Content(r.v.data, r.cs, r.size)
  {
    hide Lookup, IsValidSfn, Content, Concat;
    ListedAfter(v, ds, entry, entry', r, r.v.data);
    ChangeIsVisible(v', n, cl, r, total, ds, entry');
  }

  // ---------------------------------------------------------------- overwrite and restore

  /** Whether there is room for writing `total` bytes to the file that a first write has left behind. */
  ghost predicate RoomForNext(n: nat, cl: nat, r: Result, total: nat) {
    0 < cl && Shape(r.v.fat, n) && Room(r.v, n, More(total, |r.cs|, cl)) && SaneCount(r.v.free)
  }

  /** Nothing but the old content of a file is read once it has been overwritten by `total` bytes and its
      content written back. */
  ghost predicate RestoresAll(length: nat, size: nat, total: nat, cl: nat)
    requires 0 < cl
  {
    var end, size' := Min(size, length * cl), Max(size, total);
    Min(size', Kept(Kept(length, size, total, cl), size', end, cl) * cl) <= end
  }

  /** The shell's `writefile`: read a file, overwrite its start, then write the old content back.  The old
      content is what is read first in the end, and all that is read if and only if the lengths say so;
      for a chain that matches the size, if and only if the data was no longer than the file or the file
      filled its clusters. */
  method OverwriteAndRestore(vol: Volume, dirCluster: nat, entry: Entry, src: seq<byte>, ghost cs: seq<nat>,
                             ghost ds: seq<nat>)
    returns (restored: bool, buf: seq<byte>, count: nat)
    requires vol.Valid() && src != [] && |src| + vol.g.ClusterSize() <= TWO_32
    requires CanChange(Abs(vol), vol.g.Limit(), vol.g.ClusterSize(), entry, cs, ds, dirCluster,
                       More(|src|, |cs|, vol.g.ClusterSize()))
    requires Listed(Abs(vol), ds, entry) && 0 < FileSize(entry) && cs != []
    requires var r := FileWrite.WriteFile(Abs(vol), vol.g.Limit(), vol.g.ClusterSize(), cs, FileSize(entry), src);
             RoomForNext(vol.g.Limit(), vol.g.ClusterSize(), r, |Content(vol.Data(), cs, FileSize(entry))|)
    modifies vol
    ensures vol.Valid()
    ensures restored ==>
              && count <= |buf| && old(Content(vol.Data(), cs, FileSize(entry))) <= buf[..count]
              && 0 < vol.g.ClusterSize()
              && (buf[..count] == old(Content(vol.Data(), cs, FileSize(entry))) <==>
                  RestoresAll(|cs|, FileSize(entry), |src|, vol.g.ClusterSize()))
  {
    hide *;
    ghost var v, n, cl, size := Abs(vol), vol.g.Limit(), vol.g.ClusterSize(), FileSize(entry);
    AbsSound(vol);
    AbsIs(vol);
    ChangeFacts(v, n, cl, entry, cs, ds, dirCluster, More(|src|, |cs|, cl));
    ListedIs(v, ds, entry);
    CanChangeChain(v, n, cl, entry, cs, ds, dirCluster, More(|src|, |cs|, cl));
    var first, length := ReadFile(vol, entry, cs);
    var before := first[..length];
    ContentPositive(v, n, cl, cs, size);
    ghost var r := FileWrite.WriteFile(v, n, cl, cs, size, src);
    buf, count := [], 0;
    var written, again, got, entry';
    ghost var cs', cs2;
    written, again, got, entry', cs' := WriteThenRead(vol, dirCluster, entry, src, cs, ds);
    if written != |src| { return false, buf, count; }
    NextChange(Abs(vol), n, cl, r, entry', ds, dirCluster, |before|);
    var entry2;
    written, buf, count, entry2, cs2 := WriteThenRead(vol, dirCluster, entry', before, cs', ds);
    restored := written == |before|;
    if restored {
      Restored(again[..got], buf[..count], before, |cs'|, FileSize(entry'), cl);
      RestoresAllIs(|cs|, size, |src|, cl);
    }
  }

  lemma ContentPositive(v: Vol, n: nat, cl: nat, cs: seq<nat>, size: nat)
    requires Chained(v, n, cl, cs) && 0 < cl && cs != [] && 0 < size
    ensures Content(v.data, cs, size) != [] && |Content(v.data, cs, size)| == Min(size, |cs| * cl) <= size
  {
    ChainedLength(v, n, cl, cs);
    MulMono(0, |cs|, cl);
    hide Concat, Clusters;
  }

  lemma NextChange(v: Vol, n: nat, cl: nat, r: Result, entry: Entry, ds: seq<nat>, dirCluster: nat, total: nat)
    requires Rewritable(v, n, cl, entry, r.cs, ds, dirCluster) && RoomForNext(n, cl, r, total)
    requires v.fat == r.v.fat && v.hint == r.v.hint && v.free == r.v.free
    ensures CanChange(v, n, cl, entry, r.cs, ds, dirCluster, More(total, |r.cs|, cl)) && Listed(v, ds, entry)
  {
    RoomFrame(r.v, v, n, More(total, |r.cs|, cl));
    hide Room, More, Lookup, IsChain;
  }

  lemma RestoresAllIs(length: nat, size: nat, total: nat, cl: nat)
    requires 0 < cl
    ensures var end, size' := Min(size, length * cl), Max(size, total);
            RestoresAll(length, size, total, cl) <==>
            Max(end, Min(size', Kept(Kept(length, size, total, cl), size', end, cl) * cl)) == end
  {
    hide Kept;
  }

  /** A file whose chain matches its size is restored if and only if it was overwritten by no more than its
      length, or fills its clusters. */
  lemma RestoresMatchingIff(length: nat, size: nat, total: nat, cl: nat)
    requires 0 < cl && Matches(length, size, cl) && 0 < size && 0 < total
    ensures RestoresAll(length, size, total, cl) <==> total <= size || Clusters(size, cl) * cl == size
  {
    KeptMatching(length, size, total, cl);
    ClustersBounds(size, cl);
    ClustersBounds(total, cl);
    hide Clusters;
  }

  lemma Restored(before: seq<byte>, after: seq<byte>, src: seq<byte>, length: nat, size: nat, cl: nat)
    requires ReadsAs(before, after, src, length, size, cl)
    ensures 0 < cl && src <= after
    ensures (after == src <==> Max(|src|, Min(size, Kept(length, size, |src|, cl) * cl)) == |src|)
  {
    hide Kept, Clusters, Matches;
    assert after == src <==> |after| == |src|;
  }
}
