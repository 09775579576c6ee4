/** A mounted volume with an entry in memory for each of its files: overwriting and appending through the driver
    is a step of `FileRuns`. */
module OpenFiles {
  import opened Bytes
  import opened FatTable
  import opened FatVolume
  import opened FileData
  import opened DirEntry
  import opened FileRuns
  import FatRuns
  import FileWrite
  import FileAppend
  import FileOps

  class OpenFiles {
    const vol: Volume
    /** The first cluster of the directory that each file is in. */
    const dirOf: seq<nat>
    /** The chains of all directories, and the place of each file's directory among them. */
    ghost const dirs: seq<seq<nat>>
    ghost const place: seq<nat>
    var entries: seq<Entry>
    ghost var chains: seq<seq<nat>>

    constructor (vol: Volume, dirOf: seq<nat>, entries: seq<Entry>, ghost dirs: seq<seq<nat>>, ghost place: seq<nat>,
                 ghost chains: seq<seq<nat>>)
      requires vol.Valid()
      requires Opened(FileOps.Abs(vol), vol.g.Limit(), vol.g.ClusterSize(), dirOf, entries, dirs, place, chains)
      ensures Valid() && this.vol == vol && this.entries == entries
      ensures View() == Disk(FileOps.Abs(vol), dirs, FilesOf(entries, chains))
    {
      this.vol, this.dirOf, this.entries := vol, dirOf, entries;
      this.dirs, this.place, this.chains := dirs, place, chains;
    }

    /** The volume, its directories and its files, as a value. */
    ghost function View(): Disk
      requires vol.Valid()
      reads this, vol
    {
      Disk(FileOps.Abs(vol), dirs, FilesOf(entries, chains))
    }

    ghost predicate Valid()
      reads this, vol
    {
      && vol.Valid()
      && Opened(FileOps.Abs(vol), vol.g.Limit(), vol.g.ClusterSize(), dirOf, entries, dirs, place, chains)
    }

    /** `WriteFile` on an open file. */
    method WriteTo(f: nat, src: seq<byte>) returns (written: nat)
      requires Valid() && Enabled(View(), vol.g.Limit(), vol.g.ClusterSize(), Write(f, src)) && f < |entries|
      requires |src| + vol.g.ClusterSize() <= TWO_32 && FileSize(entries[f]) + vol.g.ClusterSize() <= TWO_32
      modifies this, vol
      ensures Valid() && Next(old(View()), vol.g.Limit(), vol.g.ClusterSize(), Write(f, src), View())
      ensures written == old(ResultOf(View(), vol.g.Limit(), vol.g.ClusterSize(), Write(f, src))).written
      ensures |entries| == |old(entries)| && entries == old(entries)[f := entries[f]]
      ensures SameOther(entries[f], old(entries[f]))
      ensures old(View()).files[f].cs != [] && FileSize(entries[f]) == old(FileSize(entries[f])) ==>
                entries == old(entries)
    {
      hide *;
      ViewIs();
      ghost var v, n, cl, op := FileOps.Abs(vol), vol.g.Limit(), vol.g.ClusterSize(), Write(f, src);
      FileOps.AbsSound(vol);
      MayChange(v, n, cl, dirOf, entries, dirs, place, chains, op);
      EnabledIs(View(), n, cl, op);
      NeedIs(File(chains[f], FileSize(entries[f])), cl, op);
      ghost var r := ResultOf(View(), n, cl, op);
      StepBegins(View(), n, cl, op);
      OpenedIs(v, n, cl, dirOf, entries, dirs, place, chains);
      var entry';
      written, entry' := FileOps.WriteFile(vol, dirOf[f], entries[f], src, chains[f], dirs[place[f]]);
      FileOps.AbsSound(vol);
      EntryWritten(FileOps.Abs(vol), r, |src|, dirs, place[f], entry');
      StepOpened(v, n, cl, dirOf, entries, dirs, place, chains, op, r, FileOps.Abs(vol), entry');
      EntryKept(v, n, entries[f], chains[f], |src|, r, entry');
      entries, chains := entries[f := entry'], chains[f := r.cs];
      ViewIf();
    }

    /** `AppendFile` on an open file. */
    method AppendTo(f: nat, src: seq<byte>) returns (written: nat)
      requires Valid() && Enabled(View(), vol.g.Limit(), vol.g.ClusterSize(), Append(f, src)) && f < |entries|
      requires FileSize(entries[f]) + |src| < TWO_32 && FileSize(entries[f]) + vol.g.ClusterSize() <= TWO_32
      modifies this, vol
      ensures Valid() && Next(old(View()), vol.g.Limit(), vol.g.ClusterSize(), Append(f, src), View())
      ensures written == old(ResultOf(View(), vol.g.Limit(), vol.g.ClusterSize(), Append(f, src))).written
      ensures |entries| == |old(entries)| && entries == old(entries)[f := entries[f]]
      ensures SameOther(entries[f], old(entries[f]))
      ensures old(View()).files[f].cs != [] && FileSize(entries[f]) == old(FileSize(entries[f])) ==>
                entries == old(entries)
    {
      hide *;
      ViewIs();
      ghost var v, n, cl, op := FileOps.Abs(vol), vol.g.Limit(), vol.g.ClusterSize(), Append(f, src);
      FileOps.AbsSound(vol);
      MayChange(v, n, cl, dirOf, entries, dirs, place, chains, op);
      EnabledIs(View(), n, cl, op);
      NeedIs(File(chains[f], FileSize(entries[f])), cl, op);
      ghost var r := ResultOf(View(), n, cl, op);
      StepBegins(View(), n, cl, op);
      OpenedIs(v, n, cl, dirOf, entries, dirs, place, chains);
      var entry';
      written, entry' := FileOps.AppendFile(vol, dirOf[f], entries[f], src, chains[f], dirs[place[f]]);
      FileOps.AbsSound(vol);
      if src == [] {
        NothingAppended(v, n, cl, entries[f], chains[f], r);
        SameOffSelf(v.data, dirs);
      } else {
        EntryWritten(FileOps.Abs(vol), r, |src|, dirs, place[f], entry');
      }
      StepOpened(v, n, cl, dirOf, entries, dirs, place, chains, op, r, FileOps.Abs(vol), entry');
      EntryKept(v, n, entries[f], chains[f], |src|, r, entry');
      entries, chains := entries[f := entry'], chains[f := r.cs];
      ViewIf();
    }

    lemma ViewIs()
      requires Valid()
      ensures vol.Valid() && View() == Disk(FileOps.Abs(vol), dirs, FilesOf(entries, chains))
      ensures Opened(FileOps.Abs(vol), vol.g.Limit(), vol.g.ClusterSize(), dirOf, entries, dirs, place, chains)
    {
    }

    lemma ViewIf()
      requires vol.Valid()
      requires Opened(FileOps.Abs(vol), vol.g.Limit(), vol.g.ClusterSize(), dirOf, entries, dirs, place, chains)
      ensures Valid() && View() == Disk(FileOps.Abs(vol), dirs, FilesOf(entries, chains))
    {
    }
  }

  ghost function FilesOf(entries: seq<Entry>, chains: seq<seq<nat>>): (r: seq<File>)
    ensures |r| == |entries|
    ensures |chains| == |entries| ==> forall f :: 0 <= f < |r| ==> r[f] == File(chains[f], FileSize(entries[f]))
  {
    seq(|entries|, f requires 0 <= f < |entries| =>
      File(if f < |chains| then chains[f] else [], FileSize(entries[f])))
  }

  /** The entries name the chains of files, each in one of the directories, and everything is in order. */
  ghost predicate Opened(v: Vol, n: nat, cl: nat, dirOf: seq<nat>, entries: seq<Entry>, dirs: seq<seq<nat>>,
                         place: seq<nat>, chains: seq<seq<nat>>)
  {
    && |entries| == |chains| == |dirOf| == |place|
    && Inv(Disk(v, dirs, FilesOf(entries, chains)), n, cl)
    && (forall f :: 0 <= f < |entries| ==>
          && FileOps.HasChain(v, n, entries[f], chains[f]) && !IsDirectory(entries[f])
          && place[f] < |dirs| && dirs[place[f]] != [] && dirOf[f] == dirs[place[f]][0])
  }

  /** What the driver expects of a file it changes holds. */
  lemma MayChange(v: Vol, n: nat, cl: nat, dirOf: seq<nat>, entries: seq<Entry>, dirs: seq<seq<nat>>, place: seq<nat>,
                  chains: seq<seq<nat>>, op: Op)
    requires Opened(v, n, cl, dirOf, entries, dirs, place, chains) && op.f < |entries|
    requires Enabled(Disk(v, dirs, FilesOf(entries, chains)), n, cl, op) && FileSize(entries[op.f]) + cl <= TWO_32
    ensures 0 < cl && |entries| == |chains| == |dirOf| == |place| && place[op.f] < |dirs| && !IsDirectory(entries[op.f])
    ensures var file := File(chains[op.f], FileSize(entries[op.f]));
            && FilesOf(entries, chains)[op.f] == file
            && FileOps.CanChange(v, n, cl, entries[op.f], file.cs, dirs[place[op.f]], dirOf[op.f], Need(file, cl, op))
            && (0 < file.size ==> file.cs != [])
  {
    var d, f := Disk(v, dirs, FilesOf(entries, chains)), op.f;
    assert d.files[f] == File(chains[f], FileSize(entries[f]));
    assert IsChain(v.fat, n, dirs[place[f]]);
    ApartFromDirs(d, f);
    SaneIfExact(v, n);
    hide Room;
  }

  lemma NeedIs(file: File, cl: nat, op: Op)
    requires 0 < cl
    ensures match op
            case Write(_, src) => Need(file, cl, op) == FileOps.More(|src|, |file.cs|, cl)
            case Append(_, src) =>
              Need(file, cl, op) == FileOps.More(FileAppend.AppendAt(|file.cs|, file.size, cl) + |src|, |file.cs|, cl)
  {
  }

  lemma SaneIfExact(v: Vol, n: nat)
    requires Shape(v.fat, n) && CountExact(v, n)
    ensures FileOps.SaneCount(v.free)
  {
    CountFreeBound(v.fat, 2, n);
  }

  lemma NothingAppended(v: Vol, n: nat, cl: nat, entry: Entry, cs: seq<nat>, r: FileWrite.Result)
    requires FileAppend.Appendable(v, n, cl, cs, FileSize(entry)) && FileOps.HasChain(v, n, entry, cs)
    requires r == FileAppend.AppendFile(v, n, cl, cs, FileSize(entry), [])
    ensures r.written == 0 && r.v == v && FileOps.EntryOf(entry, entry, r)
  {
  }

  /** An entry that named a chain, and whose size has not changed, has not changed at all. */
  lemma EntryKept(v: Vol, n: nat, entry: Entry, cs: seq<nat>, total: nat, r: FileWrite.Result, entry': Entry)
    requires FileOps.HasChain(v, n, entry, cs) && FileOps.EntryOf(entry', entry, r)
    requires Begins(cs, FileSize(entry), total, r)
    ensures SameOther(entry', entry) && (cs != [] && FileSize(entry') == FileSize(entry) ==> entry' == entry)
  {
    if cs != [] && FileSize(entry') == FileSize(entry) { EntryDetermined(entry', entry); }
  }

  /** Writing the entry back changes a cluster of the file's directory and no other. */
  lemma EntryWritten(v: Vol, r: FileWrite.Result, total: nat, dirs: seq<seq<nat>>, i: nat, entry: Entry)
    requires FileOps.VolumeOf(v, r, total, if i < |dirs| then dirs[i] else [], entry)
    ensures v == r.v.(data := v.data) && SameOff(r.v.data, v.data, dirs)
  {
    forall c | 0 <= c < |r.v.data| && !FatRuns.OnSome(dirs, c)
      ensures |v.data| == |r.v.data| && v.data[c] == r.v.data[c]
    {
      if r.written == total && i < |dirs| {
        var p := Lookup(r.v.data, dirs[i], 0, ShortName(entry));
        if p.Some? { assert dirs[i][p.value.index] in dirs[i]; }
      }
    }
  }

  lemma FilesUpdate(entries: seq<Entry>, chains: seq<seq<nat>>, f: nat, entry: Entry, cs: seq<nat>)
    requires f < |entries| == |chains|
    ensures FilesOf(entries[f := entry], chains[f := cs]) == FilesOf(entries, chains)[f := File(cs, FileSize(entry))]
  {
  }

  /** After a step the entries still name the chains. */
  lemma StepOpened(v: Vol, n: nat, cl: nat, dirOf: seq<nat>, entries: seq<Entry>, dirs: seq<seq<nat>>, place: seq<nat>,
                   chains: seq<seq<nat>>, op: Op, r: FileWrite.Result, v': Vol, entry': Entry)
    requires Opened(v, n, cl, dirOf, entries, dirs, place, chains) && op.f < |entries|
    requires Enabled(Disk(v, dirs, FilesOf(entries, chains)), n, cl, op) && Sound(v', n, cl)
    requires r == ResultOf(Disk(v, dirs, FilesOf(entries, chains)), n, cl, op)
    requires FileOps.EntryOf(entry', entries[op.f], r)
    requires v' == r.v.(data := v'.data) && SameOff(r.v.data, v'.data, dirs)
    ensures |entries| == |chains|
    ensures var entries', chains' := entries[op.f := entry'], chains[op.f := r.cs];
            && Opened(v', n, cl, dirOf, entries', dirs, place, chains')
            && Next(Disk(v, dirs, FilesOf(entries, chains)), n, cl, op, Disk(v', dirs, FilesOf(entries', chains')))
  {
    hide *;
    OpenedIs(v, n, cl, dirOf, entries, dirs, place, chains);
    var d, entries', chains' := Disk(v, dirs, FilesOf(entries, chains)), entries[op.f := entry'], chains[op.f := r.cs];
    var d' := Disk(v', dirs, FilesOf(entries', chains'));
    FilesUpdate(entries, chains, op.f, entry', r.cs);
    EntryIs(entry', entries[op.f], r);
    NextIf(d, n, cl, op, d');
    StepKeeps(d, n, cl, op, d');
    StepBegins(d, n, cl, op);
    forall g | 0 <= g < |entries|
      ensures FileOps.HasChain(v', n, entries'[g], chains'[g]) && !IsDirectory(entries'[g])
    {
      StoredIn(d', n, cl, g);
      if g == op.f {
        ChangedFile(v, v', n, cl, entries[g], entry', chains[g], |op.src|, r);
      } else {
        OtherFile(v, v', n, cl, entries[g], chains[g]);
      }
    }
    OpenedIf(v', n, cl, dirOf, entries', dirs, place, chains');
  }

  lemma EntryIs(entry': Entry, entry: Entry, r: FileWrite.Result)
    requires FileOps.EntryOf(entry', entry, r)
    ensures FileSize(entry') == r.size && IsDirectory(entry') == IsDirectory(entry)
  {
  }

  lemma ChangedFile(v: Vol, v': Vol, n: nat, cl: nat, entry: Entry, entry': Entry, cs: seq<nat>, total: nat,
                    r: FileWrite.Result)
    requires FileOps.HasChain(v, n, entry, cs) && FileOps.EntryOf(entry', entry, r)
    requires Begins(cs, FileSize(entry), total, r) && Stored(v', n, cl, File(r.cs, r.size))
    ensures FileOps.HasChain(v', n, entry', r.cs)
  {
  }

  lemma OtherFile(v: Vol, v': Vol, n: nat, cl: nat, entry: Entry, cs: seq<nat>)
    requires FileOps.HasChain(v, n, entry, cs) && Stored(v', n, cl, File(cs, FileSize(entry)))
    ensures FileOps.HasChain(v', n, entry, cs)
  {
  }

  lemma OpenedIs(v: Vol, n: nat, cl: nat, dirOf: seq<nat>, entries: seq<Entry>, dirs: seq<seq<nat>>, place: seq<nat>,
                 chains: seq<seq<nat>>)
    requires Opened(v, n, cl, dirOf, entries, dirs, place, chains)
    ensures |entries| == |chains| == |dirOf| == |place| && Inv(Disk(v, dirs, FilesOf(entries, chains)), n, cl)
    ensures forall f :: 0 <= f < |entries| ==>
              && FileOps.HasChain(v, n, entries[f], chains[f]) && !IsDirectory(entries[f])
              && place[f] < |dirs| && dirs[place[f]] != [] && dirOf[f] == dirs[place[f]][0]
  {
  }

  lemma OpenedIf(v: Vol, n: nat, cl: nat, dirOf: seq<nat>, entries: seq<Entry>, dirs: seq<seq<nat>>, place: seq<nat>,
                 chains: seq<seq<nat>>)
    requires |entries| == |chains| == |dirOf| == |place| && Inv(Disk(v, dirs, FilesOf(entries, chains)), n, cl)
    requires forall f :: 0 <= f < |entries| ==>
               && FileOps.HasChain(v, n, entries[f], chains[f]) && !IsDirectory(entries[f])
               && place[f] < |dirs| && dirs[place[f]] != [] && dirOf[f] == dirs[place[f]][0]
    ensures Opened(v, n, cl, dirOf, entries, dirs, place, chains)
  {
  }
}
